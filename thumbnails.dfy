/** thumnail_extraction.py: `detect_thumbnail_frames`, which picks the
    thumbnail frames of a video from its shots. It counts the frames that
    some shot lists as a key frame; with at most one such frame it falls
    back to the stillest frame of the video, with at most `njpg` it takes
    the first key frame of the longest sub-shot of every shot, longest
    shot first, and otherwise it only gathers the sub-shots for a
    clustering step that is not written. */
module Thumbnails {
  import opened Sorting
  import opened Shots
  import opened Func

  /** `sys.float_info.max`, (2 - 2^-52) * 2^1023, exactly. */
  const FloatMax: real := 179769313486231570814527423731704356798070567525844996598917476803157260780028538760589558632766878171540458953514382464234321326889464182768467546703537516986049910576551282076245490090389328944075868508455133942304583236903222948165808559332123348274797826204144723168738177180919299881250404026184124858368.0

  /** A result, or the IndexError Python raises. */
  datatype Outcome<T> = Ok(value: T) | IndexError

  /** Python list indexing: i indexes a list of length n when -n <= i < n,
      a negative i counting from the end. */
  predicate InBounds(i: int, n: int)
  {
    -n <= i < n
  }

  function PyIndex(i: int, n: int): (k: int)
    requires InBounds(i, n)
    ensures 0 <= k < n
  {
    if i < 0 then i + n else i
  }

  /** The list the caller passes as `v_thumb_idx`; the function's only
      output is what it leaves there. */
  class ThumbList {
    var items: seq<int>

    constructor (items0: seq<int>)
      ensures items == items0
    {
      items := items0;
    }

    /** `v_thumb_idx.clear()`. */
    method Clear()
      modifies this
      ensures items == []
    {
      items := [];
    }

    /** `v_thumb_idx.append(x)`. */
    method Append(x: int)
      modifies this
      ensures items == old(items) + [x]
    {
      items := items + [x];
    }
  }

  // ---------------------------------------------------------------------
  // The valid-frame count

  /** The key frames of all shots, shot by shot. */
  function Indices(shots: seq<ShotRange>): seq<int>
  {
    if |shots| == 0 then [] else Indices(shots[..|shots| - 1]) + shots[|shots| - 1].vIdx
  }

  predicate AllInBounds(idx: seq<int>, n: int)
  {
    forall j :: 0 <= j < |idx| ==> InBounds(idx[j], n)
  }

  /** `v_frm_valid`: frame k is flagged when some listed index names it. */
  function Covered(nfrm: nat, idx: seq<int>): (v: seq<bool>)
    requires AllInBounds(idx, nfrm)
    ensures |v| == nfrm
  {
    seq(nfrm, k requires 0 <= k < nfrm => exists j :: 0 <= j < |idx| && PyIndex(idx[j], nfrm) == k)
  }

  /** `sum(v_frm_valid)`. */
  function CountTrue(s: seq<bool>): (c: nat)
    ensures c <= |s|
  {
    if |s| == 0 then 0 else CountTrue(s[..|s| - 1]) + (if s[|s| - 1] then 1 else 0)
  }

  function TrueSet(s: seq<bool>): set<int>
  {
    set k | 0 <= k < |s| && s[k]
  }

  lemma {:induction false} CountTrueIsSize(s: seq<bool>)
    ensures CountTrue(s) == |TrueSet(s)|
  {
    if |s| > 0 {
      var init := s[..|s| - 1];
      CountTrueIsSize(init);
      if s[|s| - 1] {
        assert TrueSet(s) == TrueSet(init) + {|s| - 1};
      } else {
        assert TrueSet(s) == TrueSet(init);
      }
    }
  }

  /** `nfrm_valid` is the number of distinct frames that the shots list,
      so it never exceeds `nframes`. */
  lemma ValidCount(nfrm: nat, idx: seq<int>)
    requires AllInBounds(idx, nfrm)
    ensures CountTrue(Covered(nfrm, idx)) == |set j | 0 <= j < |idx| :: PyIndex(idx[j], nfrm)|
    ensures CountTrue(Covered(nfrm, idx)) <= nfrm
  {
    var v := Covered(nfrm, idx);
    CountTrueIsSize(v);
    var named := set j | 0 <= j < |idx| :: PyIndex(idx[j], nfrm);
    forall k | k in named ensures k in TrueSet(v) {
      var j :| 0 <= j < |idx| && PyIndex(idx[j], nfrm) == k;
      assert v[k];
    }
    forall k | k in TrueSet(v) ensures k in named {
      var j :| 0 <= j < |idx| && PyIndex(idx[j], nfrm) == k;
    }
    assert TrueSet(v) == named;
  }

  lemma IndicesSnoc(shots: seq<ShotRange>, i: nat)
    requires i < |shots|
    ensures Indices(shots[..i + 1]) == Indices(shots[..i]) + shots[i].vIdx
  {
    assert shots[..i + 1][..i] == shots[..i];
  }

  lemma CoveredSnoc(nfrm: nat, idx: seq<int>, x: int)
    requires AllInBounds(idx, nfrm) && InBounds(x, nfrm)
    ensures AllInBounds(idx + [x], nfrm)
    ensures Covered(nfrm, idx + [x]) == Covered(nfrm, idx)[PyIndex(x, nfrm) := true]
  {
    var a, b := Covered(nfrm, idx + [x]), Covered(nfrm, idx)[PyIndex(x, nfrm) := true];
    forall k | 0 <= k < nfrm ensures a[k] == b[k] {
      if k != PyIndex(x, nfrm) && a[k] {
        var j :| 0 <= j < |idx + [x]| && PyIndex((idx + [x])[j], nfrm) == k;
        assert j < |idx| && idx[j] == (idx + [x])[j];
      }
      if k != PyIndex(x, nfrm) && b[k] {
        var j :| 0 <= j < |idx| && PyIndex(idx[j], nfrm) == k;
        assert (idx + [x])[j] == idx[j];
      }
      if k == PyIndex(x, nfrm) {
        assert (idx + [x])[|idx|] == x;
      }
    }
  }

  /** The loops of lines 16-19: raises when a listed index is outside the
      list, otherwise yields `v_frm_valid`. */
  method FillFrameValid(nfrm: nat, shots: seq<ShotRange>) returns (ok: bool, vFrmValid: seq<bool>)
    ensures ok == AllInBounds(Indices(shots), nfrm)
    ensures ok ==> vFrmValid == Covered(nfrm, Indices(shots))
  {
    var v := new bool[nfrm](_ => false);
    assert v[..] == Covered(nfrm, []);
    for i := 0 to |shots|
      invariant AllInBounds(Indices(shots[..i]), nfrm)
      invariant v[..] == Covered(nfrm, Indices(shots[..i]))
    {
      IndicesSnoc(shots, i);
      ghost var done := Indices(shots[..i]);
      var vIdx := shots[i].vIdx;
      assert done + vIdx[..0] == done;
      for j := 0 to |vIdx|
        invariant AllInBounds(done + vIdx[..j], nfrm)
        invariant v[..] == Covered(nfrm, done + vIdx[..j])
      {
        var idx := vIdx[j];
        if !InBounds(idx, nfrm) {
          IndicesSplit(shots, i, j);
          return false, [];
        }
        CoveredSnoc(nfrm, done + vIdx[..j], idx);
        assert done + vIdx[..j + 1] == done + vIdx[..j] + [idx];
        v[PyIndex(idx, nfrm)] := true;
      }
      assert vIdx[..|vIdx|] == vIdx;
    }
    assert shots[..|shots|] == shots;
    return true, v[..];
  }

  /** Key frame j of shot i is an entry of the flattened list. */
  lemma IndicesSplit(shots: seq<ShotRange>, i: nat, j: nat)
    requires i < |shots| && j < |shots[i].vIdx|
    ensures |Indices(shots[..i])| + j < |Indices(shots)|
    ensures Indices(shots)[|Indices(shots[..i])| + j] == shots[i].vIdx[j]
  {
    IndicesAppend(shots[..i + 1], shots[i + 1..]);
    assert shots[..i + 1] + shots[i + 1..] == shots;
    IndicesSnoc(shots, i);
  }

  lemma {:induction false} IndicesAppend(a: seq<ShotRange>, b: seq<ShotRange>)
    ensures Indices(a + b) == Indices(a) + Indices(b)
    decreases |b|
  {
    if |b| == 0 {
      assert a + b == a;
    } else {
      var init := b[..|b| - 1];
      assert (a + b)[..|a + b| - 1] == a + init;
      IndicesAppend(a, init);
    }
  }

  // ---------------------------------------------------------------------
  // The fallback: the most still frame

  /** (`minidx`, `minval`) after the first |diff| frames: the first frame
      whose diff is strictly below every earlier one and below FloatMax. */
  function MostStill(diff: seq<real>): (r: (int, real))
    ensures r.0 < |diff|
  {
    if |diff| == 0 then (-1, FloatMax)
    else
      var (i, v) := MostStill(diff[..|diff| - 1]);
      if diff[|diff| - 1] < v then (|diff| - 1, diff[|diff| - 1]) else (i, v)
  }

  /** The fallback picks the first frame of least diff; it picks -1
      exactly when no frame's diff is below FloatMax (in particular when
      the video has no frame). */
  lemma {:induction false} MostStillIsFirstMin(diff: seq<real>)
    ensures var (i, v) := MostStill(diff);
      && (i == -1 <==> forall k :: 0 <= k < |diff| ==> diff[k] >= FloatMax)
      && (i == -1 ==> v == FloatMax)
      && (i != -1 ==>
            && 0 <= i < |diff| && v == diff[i] < FloatMax
            && (forall k :: 0 <= k < |diff| ==> diff[i] <= diff[k])
            && (forall k :: 0 <= k < i ==> diff[i] < diff[k]))
  {
    if |diff| > 0 {
      var init := diff[..|diff| - 1];
      MostStillIsFirstMin(init);
      var (i, v) := MostStill(init);
      assert forall k :: 0 <= k < |init| ==> init[k] == diff[k];
    }
  }

  /** Lines 24-30: raises when `diff` is shorter than the video. */
  method MostStillFrame(diff: seq<real>, nfrm: nat) returns (ok: bool, minidx: int)
    ensures ok == (nfrm <= |diff|)
    ensures ok ==> minidx == MostStill(diff[..nfrm]).0
  {
    minidx := -1;
    var minval := FloatMax;
    for i := 0 to nfrm
      invariant i <= |diff| ==> (minidx, minval) == MostStill(diff[..i])
      invariant i <= |diff|
    {
      if i >= |diff| {
        return false, minidx;
      }
      var val := diff[i];
      assert diff[..i + 1][..i] == diff[..i];
      if val < minval {
        minval := val;
        minidx := i;
      }
    }
    ok := true;
  }

  // ---------------------------------------------------------------------
  // The middle branch: one key frame per shot, longest shot first

  /** (`max_subshot_id`, `max_subshot_len`) after the given sub-shots: the
      first sub-shot strictly longer than every earlier one and than -1. */
  function Longest(rs: seq<Range>): (r: (int, int))
    ensures -1 <= r.0 < |rs|
  {
    if |rs| == 0 then (-1, -1)
    else
      var (i, l) := Longest(rs[..|rs| - 1]);
      if rs[|rs| - 1].Length() > l then (|rs| - 1, rs[|rs| - 1].Length()) else (i, l)
  }

  /** The sub-shot chosen is the first longest one; only when every
      sub-shot has length below 0 does the id stay -1, which Python then
      reads as the last sub-shot. */
  lemma {:induction false} LongestIsFirstMax(rs: seq<Range>)
    ensures var (i, l) := Longest(rs);
      && (i == -1 <==> forall j :: 0 <= j < |rs| ==> rs[j].Length() <= -1)
      && (i == -1 ==> l == -1)
      && (i != -1 ==>
            && 0 <= i < |rs| && l == rs[i].Length()
            && (forall j :: 0 <= j < |rs| ==> rs[j].Length() <= l)
            && (forall j :: 0 <= j < i ==> rs[j].Length() < l))
  {
    if |rs| > 0 {
      var init := rs[..|rs| - 1];
      LongestIsFirstMax(init);
      assert forall j :: 0 <= j < |init| ==> init[j] == rs[j];
    }
  }

  /** The inner loop of lines 38-43. */
  method LongestSubShot(rs: seq<Range>) returns (maxId: int, maxLen: int)
    ensures (maxId, maxLen) == Longest(rs)
  {
    maxId, maxLen := -1, -1;
    for j := 0 to |rs|
      invariant (maxId, maxLen) == Longest(rs[..j])
    {
      assert rs[..j + 1][..j] == rs[..j];
      var shotlen := rs[j].Length();
      if shotlen > maxLen {
        maxId := j;
        maxLen := shotlen;
      }
    }
    assert rs[..|rs|] == rs;
  }

  /** The length and key frame a shot contributes: `v_idx[0]` of its
      longest sub-shot, read with Python's negative indexing. A shot with
      no sub-shot, or whose chosen sub-shot has no key frame, raises. */
  function ShotKey(s: ShotRange): Outcome<(int, int)>
  {
    var (id, len) := Longest(s.vRange);
    if !InBounds(id, |s.vRange|) then IndexError
    else
      var r := s.vRange[PyIndex(id, |s.vRange|)];
      if |r.vIdx| == 0 then IndexError else Ok((len, r.vIdx[0]))
  }

  /** Sub-shot i is the first of greatest length. */
  predicate FirstLongest(rs: seq<Range>, i: int)
  {
    && 0 <= i < |rs|
    && (forall j :: 0 <= j < |rs| ==> rs[j].Length() <= rs[i].Length())
    && (forall j :: 0 <= j < i ==> rs[j].Length() < rs[i].Length())
  }

  /** A shot without sub-shots raises; otherwise it contributes the first
      key frame and the length of its first longest sub-shot, or raises
      when that sub-shot has no key frame. Only when every sub-shot has a
      negative length does the last sub-shot stand in, with length -1. */
  lemma ShotKeyMeaning(s: ShotRange)
    ensures |s.vRange| == 0 ==> ShotKey(s).IndexError?
    ensures var rs := s.vRange;
      (exists j :: 0 <= j < |rs| && rs[j].Length() >= 0) ==>
        exists i :: FirstLongest(rs, i) &&
          ShotKey(s) == if |rs[i].vIdx| == 0 then IndexError else Ok((rs[i].Length(), rs[i].vIdx[0]))
    ensures var rs := s.vRange;
      (|rs| > 0 && forall j :: 0 <= j < |rs| ==> rs[j].Length() < 0) ==>
        ShotKey(s) == if |rs[|rs| - 1].vIdx| == 0 then IndexError else Ok((-1, rs[|rs| - 1].vIdx[0]))
  {
    var rs := s.vRange;
    LongestIsFirstMax(rs);
    var (i, l) := Longest(rs);
    if i != -1 {
      assert FirstLongest(rs, i);
    }
  }

  /** `v_shot_len` and `v_keyfrm_idx`, or the IndexError of the first
      shot that raises. */
  function ShotKeys(shots: seq<ShotRange>): Outcome<(seq<int>, seq<int>)>
  {
    if forall i :: 0 <= i < |shots| ==> ShotKey(shots[i]).Ok? then
      Ok((seq(|shots|, i requires 0 <= i < |shots| => ShotKey(shots[i]).value.0),
          seq(|shots|, i requires 0 <= i < |shots| => ShotKey(shots[i]).value.1)))
    else IndexError
  }

  /** The loop of lines 36-47. */
  method CollectShotKeys(shots: seq<ShotRange>) returns (ok: bool, vShotLen: seq<int>, vKeyfrmIdx: seq<int>)
    ensures ok == ShotKeys(shots).Ok?
    ensures ok ==> (vShotLen, vKeyfrmIdx) == ShotKeys(shots).value
  {
    vShotLen, vKeyfrmIdx := [], [];
    for i := 0 to |shots|
      invariant forall k :: 0 <= k < i ==> ShotKey(shots[k]).Ok?
      invariant |vShotLen| == |vKeyfrmIdx| == i
      invariant forall k :: 0 <= k < i ==>
        vShotLen[k] == ShotKey(shots[k]).value.0 && vKeyfrmIdx[k] == ShotKey(shots[k]).value.1
    {
      var vRange := shots[i].vRange;
      var maxId, maxLen := LongestSubShot(vRange);
      if !(-|vRange| <= maxId < |vRange|) {
        return false, [], [];
      }
      var r := vRange[PyIndex(maxId, |vRange|)];
      if |r.vIdx| == 0 {
        return false, [], [];
      }
      vShotLen := vShotLen + [maxLen];
      vKeyfrmIdx := vKeyfrmIdx + [r.vIdx[0]];
    }
    ok := true;
    var (lens, keys) := ShotKeys(shots).value;
    assert vShotLen == lens;
    assert vKeyfrmIdx == keys;
  }

  /** The positions of a stable ascending argsort read from the back: the
      order in which lines 51-52 append. */
  function Descending(lens: seq<int>): (d: seq<int>)
    ensures |d| == |lens|
  {
    var m := ArgSort(Keys(lens));
    seq(|m|, i requires 0 <= i < |m| => m[|m| - 1 - i])
  }

  /** `v_keyfrm_idx[v_srt_idx[len_idx - 1 - i]]` for i = 0, 1, ... */
  function RankedKeys(lens: seq<int>, keys: seq<int>): (t: seq<int>)
    requires |lens| == |keys|
    ensures |t| == |keys|
  {
    var d := Descending(lens);
    seq(|d|, i requires 0 <= i < |d| => keys[d[i]])
  }

  /** Every shot's key frame is appended exactly once, longest shot first;
      among shots of equal length the later shot comes first, because the
      stable ascending order is read backwards. */
  lemma RankedOrder(lens: seq<int>, keys: seq<int>)
    requires |lens| == |keys|
    ensures var d := Descending(lens);
      && IsPermutation(d, |lens|)
      && (forall i :: 0 <= i < |d| ==> RankedKeys(lens, keys)[i] == keys[d[i]])
      && (forall a, b :: 0 <= a < b < |d| ==> lens[d[a]] >= lens[d[b]])
      && (forall a, b :: 0 <= a < b < |d| && lens[d[a]] == lens[d[b]] ==> d[a] > d[b])
  {
    DescendingPermutation(lens);
    DescendingOrder(lens);
  }

  lemma DescendingPermutation(lens: seq<int>)
    ensures IsPermutation(Descending(lens), |lens|)
  {
    var m := ArgSort(Keys(lens));
    var d := Descending(lens);
    var n := |m|;
    forall a, b | 0 <= a < b < n ensures d[a] != d[b] {
      assert m[n - 1 - b] != m[n - 1 - a];
    }
    forall i | 0 <= i < n ensures i in d {
      assert i in m;
      var k :| 0 <= k < n && m[k] == i;
      assert d[n - 1 - k] == i;
    }
  }

  lemma DescendingOrder(lens: seq<int>)
    ensures var d := Descending(lens);
      forall a, b :: 0 <= a < b < |d| ==> lens[d[a]] >= lens[d[b]] && (lens[d[a]] == lens[d[b]] ==> d[a] > d[b])
  {
    var m := ArgSort(Keys(lens));
    var d := Descending(lens);
    var n := |m|;
    forall a, b | 0 <= a < b < n ensures lens[d[a]] >= lens[d[b]] && (lens[d[a]] == lens[d[b]] ==> d[a] > d[b]) {
      assert Before(Keys(lens), m[n - 1 - b], m[n - 1 - a]);
    }
  }

  /** Lines 50-52 with the index map an argsort would give. */
  method AppendRanked(thumbs: ThumbList, vShotLen: seq<int>, vKeyfrmIdx: seq<int>)
    requires |vShotLen| == |vKeyfrmIdx|
    modifies thumbs
    ensures thumbs.items == old(thumbs.items) + RankedKeys(vShotLen, vKeyfrmIdx)
  {
    var vSrtVal, vSrtIdx := HecateArgSort(vShotLen);
    var lenIdx := |vSrtIdx|;
    ghost var start := thumbs.items;
    for i := 0 to lenIdx
      invariant thumbs.items == start + RankedKeys(vShotLen, vKeyfrmIdx)[..i]
    {
      thumbs.Append(vKeyfrmIdx[vSrtIdx[lenIdx - 1 - i]]);
      assert RankedKeys(vShotLen, vKeyfrmIdx)[..i + 1]
          == RankedKeys(vShotLen, vKeyfrmIdx)[..i] + [vKeyfrmIdx[vSrtIdx[lenIdx - 1 - i]]];
    }
    assert RankedKeys(vShotLen, vKeyfrmIdx)[..lenIdx] == RankedKeys(vShotLen, vKeyfrmIdx);
  }

  // ---------------------------------------------------------------------
  // The clustering branch: only the gathering is written

  /** All sub-shots, shot by shot. */
  function SubShots(shots: seq<ShotRange>): seq<Range>
  {
    if |shots| == 0 then [] else SubShots(shots[..|shots| - 1]) + shots[|shots| - 1].vRange
  }

  /** `v_valid_frm_idx` and `v_valid_frm_shotlen`: the first key frame and
      the length of every sub-shot, or IndexError when a sub-shot has no
      key frame. */
  function Gathered(shots: seq<ShotRange>): Outcome<(seq<int>, seq<int>)>
  {
    var subs := SubShots(shots);
    if forall k :: 0 <= k < |subs| ==> |subs[k].vIdx| > 0 then
      Ok((seq(|subs|, k requires 0 <= k < |subs| => subs[k].vIdx[0]),
          seq(|subs|, k requires 0 <= k < |subs| => subs[k].Length())))
    else IndexError
  }

  lemma SubShotsSnoc(shots: seq<ShotRange>, i: nat)
    requires i < |shots|
    ensures SubShots(shots[..i + 1]) == SubShots(shots[..i]) + shots[i].vRange
  {
    assert shots[..i + 1][..i] == shots[..i];
  }

  lemma {:induction false} SubShotsAppend(a: seq<ShotRange>, b: seq<ShotRange>)
    ensures SubShots(a + b) == SubShots(a) + SubShots(b)
    decreases |b|
  {
    if |b| == 0 {
      assert a + b == a;
    } else {
      var init := b[..|b| - 1];
      assert (a + b)[..|a + b| - 1] == a + init;
      SubShotsAppend(a, init);
    }
  }

  /** Sub-shot j of shot i is an entry of the flattened list. */
  lemma SubShotsSplit(shots: seq<ShotRange>, i: nat, j: nat)
    requires i < |shots| && j < |shots[i].vRange|
    ensures |SubShots(shots[..i])| + j < |SubShots(shots)|
    ensures SubShots(shots)[|SubShots(shots[..i])| + j] == shots[i].vRange[j]
  {
    SubShotsAppend(shots[..i + 1], shots[i + 1..]);
    assert shots[..i + 1] + shots[i + 1..] == shots;
    SubShotsSnoc(shots, i);
  }

  /** The loops of lines 56-59. */
  method GatherSubShots(shots: seq<ShotRange>) returns (ok: bool, vValidFrmIdx: seq<int>, vValidFrmShotlen: seq<int>)
    ensures ok == Gathered(shots).Ok?
    ensures ok ==> (vValidFrmIdx, vValidFrmShotlen) == Gathered(shots).value
  {
    vValidFrmIdx, vValidFrmShotlen := [], [];
    for i := 0 to |shots|
      invariant |vValidFrmIdx| == |vValidFrmShotlen| == |SubShots(shots[..i])|
      invariant forall k :: 0 <= k < |SubShots(shots[..i])| ==>
        |SubShots(shots[..i])[k].vIdx| > 0 &&
        vValidFrmIdx[k] == SubShots(shots[..i])[k].vIdx[0] &&
        vValidFrmShotlen[k] == SubShots(shots[..i])[k].Length()
    {
      SubShotsSnoc(shots, i);
      var vRange := shots[i].vRange;
      ghost var done: seq<Range> := SubShots(shots[..i]);
      for j := 0 to |vRange|
        invariant |vValidFrmIdx| == |vValidFrmShotlen| == |done| + j
        invariant forall k :: 0 <= k < |done| + j ==>
          |(done + vRange)[k].vIdx| > 0 &&
          vValidFrmIdx[k] == (done + vRange)[k].vIdx[0] &&
          vValidFrmShotlen[k] == (done + vRange)[k].Length()
      {
        if |vRange[j].vIdx| == 0 {
          SubShotsSplit(shots, i, j);
          return false, [], [];
        }
        vValidFrmIdx := vValidFrmIdx + [vRange[j].vIdx[0]];
        vValidFrmShotlen := vValidFrmShotlen + [vRange[j].Length()];
      }
    }
    assert shots[..|shots|] == shots;
    ok := true;
    var (reps, lens) := Gathered(shots).value;
    assert vValidFrmIdx == reps;
    assert vValidFrmShotlen == lens;
  }

  // ---------------------------------------------------------------------
  // detect_thumbnail_frames

  /** What `detect_thumbnail_frames` leaves in `v_thumb_idx`, or the
      IndexError it raises (the list is then left empty, as nothing is
      appended before any raising step). The sort of the middle branch is
      the argsort `hecate_sort` was meant to be. */
  function Detect(njpg: int, nfrm: nat, shots: seq<ShotRange>, diff: seq<real>): Outcome<seq<int>>
  {
    var idx := Indices(shots);
    if !AllInBounds(idx, nfrm) then IndexError
    else
      var nValid := CountTrue(Covered(nfrm, idx));
      if nValid <= 1 then
        if |diff| < nfrm then IndexError else Ok([MostStill(diff[..nfrm]).0])
      else if nValid <= njpg then
        match ShotKeys(shots)
        case IndexError => IndexError
        case Ok((lens, keys)) => Ok(RankedKeys(lens, keys))
      else
        match Gathered(shots)
        case IndexError => IndexError
        case Ok(_) => Ok([])
  }

  /** `detect_thumbnail_frames(opt, meta, v_shot_range, X, diff,
      v_thumb_idx)` with `opt.njpg`, `meta.nframes`; X is not read. */
  method DetectThumbnailFrames(njpg: int, nfrm: nat, vShotRange: seq<ShotRange>, diff: seq<real>,
                               vThumbIdx: ThumbList)
    returns (raised: bool)
    modifies vThumbIdx
    ensures raised == Detect(njpg, nfrm, vShotRange, diff).IndexError?
    ensures vThumbIdx.items == if raised then [] else Detect(njpg, nfrm, vShotRange, diff).value
  {
    vThumbIdx.Clear();
    var ok, vFrmValid := FillFrameValid(nfrm, vShotRange);
    if !ok {
      return true;
    }
    var nfrmValid := CountTrue(vFrmValid);
    if nfrmValid <= 1 {
      var found, minidx := MostStillFrame(diff, nfrm);
      if !found {
        return true;
      }
      vThumbIdx.Append(minidx);
    } else if nfrmValid <= njpg {
      var collected, vShotLen, vKeyfrmIdx := CollectShotKeys(vShotRange);
      if !collected {
        return true;
      }
      AppendRanked(vThumbIdx, vShotLen, vKeyfrmIdx);
    } else {
      var gathered, vValidFrmIdx, vValidFrmShotlen := GatherSubShots(vShotRange);
      if !gathered {
        return true;
      }
    }
    raised := false;
  }

  // ---------------------------------------------------------------------
  // Properties of the selection

  /** With at most one covered frame, exactly one frame is picked, the
      first of least diff, or -1 when none is below FloatMax. */
  lemma FallbackPick(njpg: int, nfrm: nat, shots: seq<ShotRange>, diff: seq<real>)
    requires AllInBounds(Indices(shots), nfrm)
    requires CountTrue(Covered(nfrm, Indices(shots))) <= 1
    requires Detect(njpg, nfrm, shots, diff).Ok?
    ensures var t := Detect(njpg, nfrm, shots, diff).value;
      && |t| == 1 && nfrm <= |diff|
      && (t[0] == -1 <==> forall k :: 0 <= k < nfrm ==> diff[k] >= FloatMax)
      && (t[0] != -1 ==>
            && 0 <= t[0] < nfrm && diff[t[0]] < FloatMax
            && (forall k :: 0 <= k < nfrm ==> diff[t[0]] <= diff[k])
            && (forall k :: 0 <= k < t[0] ==> diff[t[0]] < diff[k]))
  {
    MostStillIsFirstMin(diff[..nfrm]);
  }

  /** With between two and njpg covered frames and the corrected
      `hecate_sort`, one key frame per shot is picked, each shot's once, in
      non-increasing order of its longest sub-shot. */
  lemma RankedPick(njpg: int, nfrm: nat, shots: seq<ShotRange>, diff: seq<real>)
    requires AllInBounds(Indices(shots), nfrm)
    requires 1 < CountTrue(Covered(nfrm, Indices(shots))) <= njpg
    requires Detect(njpg, nfrm, shots, diff).Ok?
    ensures ShotKeys(shots).Ok?
    ensures var t := Detect(njpg, nfrm, shots, diff).value;
      var (lens, keys) := ShotKeys(shots).value;
      var d := Descending(lens);
      && |t| == |shots| && IsPermutation(d, |shots|)
      && (forall i :: 0 <= i < |t| ==> t[i] == keys[d[i]] == ShotKey(shots[d[i]]).value.1)
      && (forall a, b :: 0 <= a < b < |t| ==> lens[d[a]] >= lens[d[b]])
  {
    var (lens, keys) := ShotKeys(shots).value;
    RankedOrder(lens, keys);
  }

  /** With more covered frames than njpg, nothing is picked. */
  lemma ClusteringPicksNothing(njpg: int, nfrm: nat, shots: seq<ShotRange>, diff: seq<real>)
    requires AllInBounds(Indices(shots), nfrm)
    requires CountTrue(Covered(nfrm, Indices(shots))) > njpg
    requires CountTrue(Covered(nfrm, Indices(shots))) > 1
    ensures Detect(njpg, nfrm, shots, diff) == IndexError || Detect(njpg, nfrm, shots, diff) == Ok([])
    ensures Detect(njpg, nfrm, shots, diff) == Ok([]) <==> Gathered(shots).Ok?
  {
  }

  /** In the middle branch there is at least one shot, so the lengths
      handed to `hecate_sort` are never empty, and as written that call
      raises: the middle branch never completes. */
  lemma {:induction false} MiddleBranchRaisesAsWritten(nfrm: nat, shots: seq<ShotRange>)
    requires AllInBounds(Indices(shots), nfrm)
    requires CountTrue(Covered(nfrm, Indices(shots))) > 1
    requires ShotKeys(shots).Ok?
    ensures |ShotKeys(shots).value.0| == |shots| > 0
    ensures HecateSortAsWritten(ShotKeys(shots).value.0) == KeyIndexError
  {
    if |shots| == 0 {
      assert Covered(nfrm, []) == seq(nfrm, k => false);
      NoneCovered(nfrm);
    }
  }

  lemma {:induction false} NoneCovered(n: nat)
    ensures CountTrue(seq(n, k => false)) == 0
  {
    if n > 0 {
      assert seq(n, k => false)[..n - 1] == seq(n - 1, k => false);
      NoneCovered(n - 1);
    }
  }
}

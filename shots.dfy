/** The shot ranges of video_parser.py: `Range` and `ShotRange`, and
    `update_shot_range`, which turns every maximal stretch of valid frames
    into a shot when it is longer than the minimum shot length and
    otherwise marks its frames "SHORT ". */
module Shots {
  import opened Frames

  /** `Range(start, end)`: frames start..end inclusive, with the key frames
      `v_idx` chosen inside it (filled in by the keyframe step, which is
      not part of this model). */
  datatype Range = Range(start: int, end: int, vIdx: seq<int>)
  {
    /** `Range.length()`. */
    function Length(): int
    {
      end - start + 1
    }
  }

  /** `ShotRange(start, end)`: a range with its sub-shots `v_range`. */
  datatype ShotRange = ShotRange(start: int, end: int, vIdx: seq<int>, vRange: seq<Range>)
  {
    function Length(): int
    {
      end - start + 1
    }
  }

  // ---------------------------------------------------------------------
  // Maximal runs of valid frames

  /** The first frame of the stretch of valid frames holding frame p. */
  function RunStart(valid: seq<bool>, p: int): (s: int)
    requires 0 <= p < |valid| && valid[p]
    ensures 0 <= s <= p && (s == 0 || !valid[s - 1])
    ensures forall q :: s <= q <= p ==> valid[q]
  {
    if p == 0 || !valid[p - 1] then p else RunStart(valid, p - 1)
  }

  /** The last frame of the stretch of valid frames holding frame p. */
  function RunEnd(valid: seq<bool>, p: int): (e: int)
    requires 0 <= p < |valid| && valid[p]
    ensures p <= e < |valid| && (e + 1 == |valid| || !valid[e + 1])
    ensures forall q :: p <= q <= e ==> valid[q]
    decreases |valid| - p
  {
    if p + 1 == |valid| || !valid[p + 1] then p else RunEnd(valid, p + 1)
  }

  function RunLength(valid: seq<bool>, p: int): int
    requires 0 <= p < |valid| && valid[p]
  {
    RunEnd(valid, p) - RunStart(valid, p) + 1
  }

  /** A stretch that is valid throughout and cannot be extended on the
      left starts every one of its frames' runs. */
  lemma {:induction false} RunStartIs(valid: seq<bool>, s: int, p: int)
    requires 0 <= s <= p < |valid| && (s == 0 || !valid[s - 1])
    requires forall q :: s <= q <= p ==> valid[q]
    ensures RunStart(valid, p) == s
    decreases p - s
  {
    if p > s {
      RunStartIs(valid, s, p - 1);
    }
  }

  lemma {:induction false} RunEndIs(valid: seq<bool>, p: int, e: int)
    requires 0 <= p <= e < |valid| && (e + 1 == |valid| || !valid[e + 1])
    requires forall q :: p <= q <= e ==> valid[q]
    ensures RunEnd(valid, p) == e
    decreases e - p
  {
    if p < e {
      RunEndIs(valid, p + 1, e);
    }
  }

  /** Frame p lies in one of the ranges. */
  predicate InRanges(ranges: seq<ShotRange>, p: int)
  {
    exists k :: 0 <= k < |ranges| && ranges[k].start <= p <= ranges[k].end
  }

  /** A range `update_shot_range` may return: a maximal stretch of valid
      frames longer than msl, with no key frames or sub-shots yet. */
  predicate RangeOk(valid: seq<bool>, msl: int, r: ShotRange)
  {
    && 0 <= r.start <= r.end < |valid|
    && r.Length() > msl
    && (forall q :: r.start <= q <= r.end ==> valid[q])
    && (r.start == 0 || !valid[r.start - 1])
    && (r.end + 1 == |valid| || !valid[r.end + 1])
    && r.vIdx == [] && r.vRange == []
  }

  // ---------------------------------------------------------------------
  // update_shot_range

  /** "SHORT " for every frame of sb0..sb1. */
  function ShortMarks(sb0: int, sb1: int): (ms: seq<MarkOp>)
    requires sb0 <= sb1 + 1
    ensures |ms| == sb1 - sb0 + 1
    ensures forall k :: 0 <= k < |ms| ==> ms[k] == MarkOp(sb0 + k, Short)
  {
    seq(sb1 - sb0 + 1, k requires 0 <= k < sb1 - sb0 + 1 => MarkOp(sb0 + k, Short))
  }

  /** The loop state of `update_shot_range`: sb0, sb1, the ranges found and
      the SHORT marks made. */
  datatype ShotScan = ShotScan(sb0: int, sb1: int, ranges: seq<ShotRange>, marks: seq<MarkOp>)

  /** `update_shot_range` after the first i frames. Either no stretch is
      open, or one is open from sb0 to sb1; every mark lies before frame i. */
  function RangesUpTo(valid: seq<bool>, msl: int, i: nat): (st: ShotScan)
    requires i <= |valid|
    ensures (st.sb0 == -1 && st.sb1 == -1) || 0 <= st.sb0 <= st.sb1 < i
    ensures forall k :: 0 <= k < |st.marks| ==> 0 <= st.marks[k].frame < i
  {
    if i == 0 then ShotScan(-1, -1, [], [])
    else RangesNext(valid, msl, i - 1, RangesUpTo(valid, msl, i - 1))
  }

  /** One iteration of the loop of `update_shot_range`, on frame j. */
  function RangesNext(valid: seq<bool>, msl: int, j: nat, st: ShotScan): ShotScan
    requires j < |valid| && st.sb0 <= st.sb1 < j
  {
    var sb0 := if valid[j] && st.sb0 < 0 then j else st.sb0;
    var sb1 := if valid[j] then j else st.sb1;
    if sb0 >= 0 && sb1 >= 0 && (!valid[j] || j + 1 == |valid|) then
      if sb1 - sb0 + 1 > msl then ShotScan(-1, -1, st.ranges + [ShotRange(sb0, sb1, [], [])], st.marks)
      else ShotScan(-1, -1, st.ranges, st.marks + ShortMarks(sb0, sb1))
    else ShotScan(sb0, sb1, st.ranges, st.marks)
  }

  function ShotRanges(recs: seq<FrameInfo>, msl: int): seq<ShotRange>
  {
    RangesUpTo(Validity(recs), msl, |recs|).ranges
  }

  function ShortMarksOf(recs: seq<FrameInfo>, msl: int): (ms: seq<MarkOp>)
  {
    RangesUpTo(Validity(recs), msl, |recs|).marks
  }

  lemma RangesStep(valid: seq<bool>, msl: int, j: nat)
    requires j < |valid|
    ensures var st := RangesUpTo(valid, msl, j);
      var sb0 := if valid[j] && st.sb0 < 0 then j else st.sb0;
      var sb1 := if valid[j] then j else st.sb1;
      RangesUpTo(valid, msl, j + 1) ==
        if sb0 >= 0 && sb1 >= 0 && (!valid[j] || j + 1 == |valid|) then
          if sb1 - sb0 + 1 > msl then ShotScan(-1, -1, st.ranges + [ShotRange(sb0, sb1, [], [])], st.marks)
          else ShotScan(-1, -1, st.ranges, st.marks + ShortMarks(sb0, sb1))
        else ShotScan(sb0, sb1, st.ranges, st.marks)
  {
  }

  /** `update_shot_range(frame_list, info_list, min_shot_len)`. Only the
      length of frame_list is used, and it is the length of info_list. */
  method UpdateShotRange(info: array<FrameInfo>, msl: int) returns (ranges: seq<ShotRange>)
    modifies info
    ensures ranges == ShotRanges(old(info[..]), msl)
    ensures info[..] == ApplyMarks(old(info[..]), ShortMarksOf(old(info[..]), msl))
  {
    ghost var recs := info[..];
    ghost var valid := Validity(recs);
    ranges := [];
    var sb0, sb1 := -1, -1;
    for i := 0 to info.Length
      invariant RangesUpTo(valid, msl, i) == ShotScan(sb0, sb1, ranges, RangesUpTo(valid, msl, i).marks)
      invariant info[..] == ApplyMarks(recs, RangesUpTo(valid, msl, i).marks)
    {
      sb0, sb1, ranges := ShotIteration(info, msl, i, sb0, sb1, ranges, recs);
    }
  }

  /** One iteration of the loop of `update_shot_range`. */
  method ShotIteration(info: array<FrameInfo>, msl: int, i: int, sb0: int, sb1: int, ranges: seq<ShotRange>,
                       ghost recs: seq<FrameInfo>) returns (sb0': int, sb1': int, ranges': seq<ShotRange>)
    requires |recs| == info.Length && 0 <= i < info.Length
    requires RangesUpTo(Validity(recs), msl, i) == ShotScan(sb0, sb1, ranges, RangesUpTo(Validity(recs), msl, i).marks)
    requires info[..] == ApplyMarks(recs, RangesUpTo(Validity(recs), msl, i).marks)
    modifies info
    ensures RangesUpTo(Validity(recs), msl, i + 1) == ShotScan(sb0', sb1', ranges', RangesUpTo(Validity(recs), msl, i + 1).marks)
    ensures info[..] == ApplyMarks(recs, RangesUpTo(Validity(recs), msl, i + 1).marks)
  {
    ghost var valid := Validity(recs);
    ghost var done := RangesUpTo(valid, msl, i).marks;
    ApplyMarksElsewhere(recs, done, i);
    RangesStep(valid, msl, i);
    sb0', sb1', ranges' := sb0, sb1, ranges;
    if info[i].valid {
      if sb0' < 0 {
        sb0' := i;
      }
      sb1' := i;
    }
    if sb0' >= 0 && sb1' >= 0 && (!info[i].valid || i + 1 == info.Length) {
      if sb1' - sb0' + 1 > msl {
        ranges' := ranges' + [ShotRange(sb0', sb1', [], [])];
        assert done + [] == done;
      } else {
        MarkShort(info, sb0', sb1', recs, done);
      }
      sb0', sb1' := -1, -1;
    }
  }

  /** `for j in range(sb0, sb1 + 1)`: mark frame j "SHORT ". */
  method MarkShort(info: array<FrameInfo>, sb0: int, sb1: int, ghost recs: seq<FrameInfo>, ghost done: seq<MarkOp>)
    requires 0 <= sb0 <= sb1 < info.Length
    requires |recs| == info.Length
    requires info[..] == ApplyMarks(recs, done)
    modifies info
    ensures info[..] == ApplyMarks(recs, done + ShortMarks(sb0, sb1))
  {
    assert done + ShortMarks(sb0, sb0 - 1) == done;
    var j := sb0;
    while j <= sb1
      invariant sb0 <= j <= sb1 + 1
      invariant ShortDone(info[..], recs, done, sb0, j)
    {
      MarkFrame(info, MarkOp(j, Short));
      ShortMarksStep(recs, done, sb0, j);
      j := j + 1;
    }
  }

  /** The records once frames sb0..j-1 are marked SHORT after the marks done. */
  ghost predicate ShortDone(cur: seq<FrameInfo>, recs: seq<FrameInfo>, done: seq<MarkOp>, sb0: int, j: int)
    requires sb0 <= j
  {
    cur == ApplyMarks(recs, done + ShortMarks(sb0, j - 1))
  }

  lemma ShortMarksStep(recs: seq<FrameInfo>, done: seq<MarkOp>, sb0: int, j: int)
    requires sb0 <= j
    ensures ApplyMarks(recs, done + ShortMarks(sb0, j)) == Mark(ApplyMarks(recs, done + ShortMarks(sb0, j - 1)), MarkOp(j, Short))
  {
    var ms := done + ShortMarks(sb0, j);
    assert ms[..|ms| - 1] == done + ShortMarks(sb0, j - 1);
  }

  // ---------------------------------------------------------------------
  // What update_shot_range promises

  /** The ranges and marks of the frames before `front`: each range is a
      maximal stretch of valid frames longer than msl, ranges are ordered
      and separated by at least one frame, marks are SHORT marks on valid
      frames, and a valid frame is in a range exactly when its stretch is
      longer than msl and marked SHORT exactly when it is not. */
  predicate ClosedOk(valid: seq<bool>, msl: int, front: int, ranges: seq<ShotRange>, marks: seq<MarkOp>)
  {
    && 0 <= front <= |valid|
    && (forall k :: 0 <= k < |ranges| ==> RangeOk(valid, msl, ranges[k]) && ranges[k].end < front)
    && (forall a, b :: 0 <= a < b < |ranges| ==> ranges[a].end + 1 < ranges[b].start)
    && (forall k :: 0 <= k < |marks| ==>
          marks[k].tag == Short && 0 <= marks[k].frame < front && valid[marks[k].frame])
    && (forall p {:trigger RunLength(valid, p)} {:trigger InRanges(ranges, p)} :: 0 <= p < front && valid[p] ==>
          && (InRanges(ranges, p) <==> RunLength(valid, p) > msl)
          && (MarkOp(p, Short) in marks <==> RunLength(valid, p) <= msl))
  }

  predicate ShotsOk(valid: seq<bool>, msl: int, i: nat, st: ShotScan)
  {
    && i <= |valid|
    && (st.sb0 >= 0 ==> st.sb0 < i && st.sb1 == i - 1 && (forall q :: st.sb0 <= q < i ==> valid[q]) && (st.sb0 == 0 || !valid[st.sb0 - 1]))
    && (st.sb0 < 0 ==> i == 0 || !valid[i - 1] || i == |valid|)
    && ClosedOk(valid, msl, if st.sb0 >= 0 then st.sb0 else i, st.ranges, st.marks)
  }

  /** An invalid frame after the front changes nothing. */
  lemma ExtendInvalid(valid: seq<bool>, msl: int, front: int, ranges: seq<ShotRange>, marks: seq<MarkOp>)
    requires 0 <= front < |valid| && !valid[front] && ClosedOk(valid, msl, front, ranges, marks)
    ensures ClosedOk(valid, msl, front + 1, ranges, marks)
  {
  }

  /** Closing the stretch s..e of valid frames adds it as a range when it is
      longer than msl and marks its frames SHORT otherwise. */
  lemma CloseRun(valid: seq<bool>, msl: int, s: int, e: int, ranges: seq<ShotRange>, marks: seq<MarkOp>)
    requires 0 <= s <= e < |valid| && ClosedOk(valid, msl, s, ranges, marks)
    requires forall q :: s <= q <= e ==> valid[q]
    requires s == 0 || !valid[s - 1]
    requires e + 1 == |valid| || !valid[e + 1]
    ensures e - s + 1 > msl ==> ClosedOk(valid, msl, e + 1, ranges + [ShotRange(s, e, [], [])], marks)
    ensures e - s + 1 <= msl ==> ClosedOk(valid, msl, e + 1, ranges, marks + ShortMarks(s, e))
  {
    RunFacts(valid, msl, s, e, ranges, marks);
    if e - s + 1 > msl {
      CloseLong(valid, msl, s, e, ranges, marks);
    } else {
      CloseShort(valid, msl, s, e, ranges, marks);
    }
  }

  lemma RunFacts(valid: seq<bool>, msl: int, s: int, e: int, ranges: seq<ShotRange>, marks: seq<MarkOp>)
    requires 0 <= s <= e < |valid| && ClosedOk(valid, msl, s, ranges, marks)
    requires forall q :: s <= q <= e ==> valid[q]
    requires s == 0 || !valid[s - 1]
    requires e + 1 == |valid| || !valid[e + 1]
    ensures forall p :: s <= p <= e ==> RunLength(valid, p) == e - s + 1
    ensures forall p :: s <= p <= e ==> !InRanges(ranges, p) && MarkOp(p, Short) !in marks
  {
    forall p | s <= p <= e ensures RunLength(valid, p) == e - s + 1 {
      RunStartIs(valid, s, p);
      RunEndIs(valid, p, e);
    }
  }

  lemma CloseLong(valid: seq<bool>, msl: int, s: int, e: int, ranges: seq<ShotRange>, marks: seq<MarkOp>)
    requires 0 <= s <= e < |valid| && e - s + 1 > msl && ClosedOk(valid, msl, s, ranges, marks)
    requires forall q :: s <= q <= e ==> valid[q]
    requires s == 0 || !valid[s - 1]
    requires e + 1 == |valid| || !valid[e + 1]
    requires forall p :: s <= p <= e ==> RunLength(valid, p) == e - s + 1
    requires forall p :: s <= p <= e ==> !InRanges(ranges, p) && MarkOp(p, Short) !in marks
    ensures ClosedOk(valid, msl, e + 1, ranges + [ShotRange(s, e, [], [])], marks)
  {
    var r := ShotRange(s, e, [], []);
    var ranges' := ranges + [r];
    forall p | 0 <= p <= e ensures InRanges(ranges', p) <==> InRanges(ranges, p) || s <= p {
      InRangesSnoc(ranges, r, p);
    }
    forall a, b | 0 <= a < b < |ranges'| ensures ranges'[a].end + 1 < ranges'[b].start {
      if b == |ranges| {
        assert ranges'[a] == ranges[a];
        assert valid[ranges[a].end];
      }
    }
  }

  lemma InRangesSnoc(ranges: seq<ShotRange>, r: ShotRange, p: int)
    ensures InRanges(ranges + [r], p) <==> InRanges(ranges, p) || r.start <= p <= r.end
  {
    var ranges' := ranges + [r];
    if InRanges(ranges', p) {
      var k :| 0 <= k < |ranges'| && ranges'[k].start <= p <= ranges'[k].end;
      if k < |ranges| {
        assert ranges[k] == ranges'[k];
      }
    }
    if InRanges(ranges, p) {
      var k :| 0 <= k < |ranges| && ranges[k].start <= p <= ranges[k].end;
      assert ranges'[k] == ranges[k];
    }
    if r.start <= p <= r.end {
      assert ranges'[|ranges|] == r;
    }
  }

  lemma CloseShort(valid: seq<bool>, msl: int, s: int, e: int, ranges: seq<ShotRange>, marks: seq<MarkOp>)
    requires 0 <= s <= e < |valid| && e - s + 1 <= msl && ClosedOk(valid, msl, s, ranges, marks)
    requires forall q :: s <= q <= e ==> valid[q]
    requires forall p :: s <= p <= e ==> RunLength(valid, p) == e - s + 1
    requires forall p :: s <= p <= e ==> !InRanges(ranges, p) && MarkOp(p, Short) !in marks
    ensures ClosedOk(valid, msl, e + 1, ranges, marks + ShortMarks(s, e))
  {
    var short := ShortMarks(s, e);
    var marks' := marks + short;
    forall p | 0 <= p <= e ensures MarkOp(p, Short) in marks' <==> MarkOp(p, Short) in marks || s <= p {
      if s <= p {
        assert marks'[|marks| + (p - s)] == short[p - s];
      }
      if MarkOp(p, Short) in marks' && MarkOp(p, Short) !in marks {
        var k :| 0 <= k < |marks'| && marks'[k] == MarkOp(p, Short);
        assert marks'[k] == short[k - |marks|];
      }
    }
    forall k | 0 <= k < |marks'|
      ensures marks'[k].tag == Short && 0 <= marks'[k].frame < e + 1 && valid[marks'[k].frame]
    {
      if k >= |marks| {
        assert marks'[k] == short[k - |marks|];
      }
    }
  }

  /** One iteration keeps the invariant of `update_shot_range`. */
  lemma ShotsStepOk(valid: seq<bool>, msl: int, j: nat, st: ShotScan)
    requires j < |valid| && st.sb0 <= st.sb1 < j && ShotsOk(valid, msl, j, st)
    ensures ShotsOk(valid, msl, j + 1, RangesNext(valid, msl, j, st))
  {
    if valid[j] {
      var sb0 := if st.sb0 < 0 then j else st.sb0;
      if j + 1 == |valid| {
        ShotsCloseLast(valid, msl, j, st, sb0);
      } else {
        ShotsExtend(valid, msl, j, st, sb0);
      }
    } else if st.sb0 >= 0 {
      ShotsCloseBefore(valid, msl, j, st);
    } else {
      ExtendInvalid(valid, msl, j, st.ranges, st.marks);
    }
  }

  lemma ShotsStepTo(valid: seq<bool>, msl: int, j: nat, st: ShotScan, next: ShotScan)
    requires j < |valid| && st.sb0 <= st.sb1 < j && ShotsOk(valid, msl, j, st)
    requires next == RangesNext(valid, msl, j, st)
    ensures ShotsOk(valid, msl, j + 1, next)
  {
    ShotsStepOk(valid, msl, j, st);
  }

  /** A valid last frame closes the open stretch, or the one-frame stretch
      it starts. */
  lemma ShotsCloseLast(valid: seq<bool>, msl: int, j: nat, st: ShotScan, sb0: int)
    requires j + 1 == |valid| && valid[j] && st.sb0 <= st.sb1 < j && ShotsOk(valid, msl, j, st)
    requires sb0 == if st.sb0 < 0 then j else st.sb0
    ensures ShotsOk(valid, msl, j + 1, RangesNext(valid, msl, j, st))
  {
    CloseRun(valid, msl, sb0, j, st.ranges, st.marks);
    if j - sb0 + 1 > msl {
      var ranges := st.ranges + [ShotRange(sb0, j, [], [])];
      assert RangesNext(valid, msl, j, st) == ShotScan(-1, -1, ranges, st.marks);
      ClosedShotsOk(valid, msl, j + 1, ranges, st.marks);
    } else {
      var marks := st.marks + ShortMarks(sb0, j);
      assert RangesNext(valid, msl, j, st) == ShotScan(-1, -1, st.ranges, marks);
      ClosedShotsOk(valid, msl, j + 1, st.ranges, marks);
    }
  }

  /** A valid frame that is not the last one extends the open stretch, or
      opens one. */
  lemma ShotsExtend(valid: seq<bool>, msl: int, j: nat, st: ShotScan, sb0: int)
    requires j + 1 < |valid| && valid[j] && st.sb0 <= st.sb1 < j && ShotsOk(valid, msl, j, st)
    requires sb0 == if st.sb0 < 0 then j else st.sb0
    ensures ShotsOk(valid, msl, j + 1, RangesNext(valid, msl, j, st))
  {
    assert RangesNext(valid, msl, j, st) == ShotScan(sb0, j, st.ranges, st.marks);
  }

  /** An invalid frame closes the stretch open before it. */
  lemma ShotsCloseBefore(valid: seq<bool>, msl: int, j: nat, st: ShotScan)
    requires j < |valid| && !valid[j] && 0 <= st.sb0 <= st.sb1 < j && ShotsOk(valid, msl, j, st)
    ensures ShotsOk(valid, msl, j + 1, RangesNext(valid, msl, j, st))
  {
    CloseRun(valid, msl, st.sb0, j - 1, st.ranges, st.marks);
    if j - st.sb0 > msl {
      var ranges := st.ranges + [ShotRange(st.sb0, j - 1, [], [])];
      ExtendInvalid(valid, msl, j, ranges, st.marks);
      assert RangesNext(valid, msl, j, st) == ShotScan(-1, -1, ranges, st.marks);
      ClosedShotsOk(valid, msl, j + 1, ranges, st.marks);
    } else {
      var marks := st.marks + ShortMarks(st.sb0, j - 1);
      ExtendInvalid(valid, msl, j, st.ranges, marks);
      assert RangesNext(valid, msl, j, st) == ShotScan(-1, -1, st.ranges, marks);
      ClosedShotsOk(valid, msl, j + 1, st.ranges, marks);
    }
  }

  /** With no stretch open, the invariant is that of the closed part. */
  lemma ClosedShotsOk(valid: seq<bool>, msl: int, i: nat, ranges: seq<ShotRange>, marks: seq<MarkOp>)
    requires 0 < i <= |valid| && (!valid[i - 1] || i == |valid|) && ClosedOk(valid, msl, i, ranges, marks)
    ensures ShotsOk(valid, msl, i, ShotScan(-1, -1, ranges, marks))
  {
  }

  lemma {:induction false} ShotsInvariant(valid: seq<bool>, msl: int, i: nat)
    requires i <= |valid|
    ensures ShotsOk(valid, msl, i, RangesUpTo(valid, msl, i))
  {
    if i > 0 {
      ShotsInvariant(valid, msl, i - 1);
      ShotsInvariantNext(valid, msl, i);
    }
  }

  lemma ShotsInvariantNext(valid: seq<bool>, msl: int, i: nat)
    requires 0 < i <= |valid| && ShotsOk(valid, msl, i - 1, RangesUpTo(valid, msl, i - 1))
    ensures ShotsOk(valid, msl, i, RangesUpTo(valid, msl, i))
  {
    var st := RangesUpTo(valid, msl, i - 1);
    RangesUpToUnfold(valid, msl, i, st);
    ShotsStepTo(valid, msl, i - 1, st, RangesUpTo(valid, msl, i));
  }

  lemma RangesUpToUnfold(valid: seq<bool>, msl: int, i: nat, st: ShotScan)
    requires 0 < i <= |valid| && st == RangesUpTo(valid, msl, i - 1)
    ensures RangesUpTo(valid, msl, i) == RangesNext(valid, msl, i - 1, st)
  {
  }

  /** What `update_shot_range` promises: every range it returns is a
      maximal stretch of valid frames longer than min_shot_len, the ranges
      come in order with at least one frame between consecutive ones, a
      valid frame lies in a range exactly when its stretch is longer than
      min_shot_len, and the frames marked "SHORT " are exactly the valid
      frames of the other stretches. */
  lemma ShotRangesEffect(recs: seq<FrameInfo>, msl: int)
    ensures var v := Validity(recs); var ranges := ShotRanges(recs, msl); var ms := ShortMarksOf(recs, msl);
      && (forall k :: 0 <= k < |ranges| ==> RangeOk(v, msl, ranges[k]))
      && (forall a, b :: 0 <= a < b < |ranges| ==> ranges[a].end + 1 < ranges[b].start)
      && (forall p :: 0 <= p < |recs| && v[p] ==> (InRanges(ranges, p) <==> RunLength(v, p) > msl))
      && (forall p, t :: 0 <= p < |recs| ==>
            (t in TagsFor(ms, p) <==> t == Short && v[p] && RunLength(v, p) <= msl))
  {
    var v := Validity(recs);
    var n := |recs|;
    ShotsInvariant(v, msl, n);
    var st := RangesUpTo(v, msl, n);
    if n > 0 {
      RangesStep(v, msl, n - 1);
    }
    assert st.sb0 < 0;
    forall p, t | 0 <= p < n
      ensures t in TagsFor(st.marks, p) <==> t == Short && v[p] && RunLength(v, p) <= msl
    {
      TagsForIff(st.marks, p, t);
      if MarkOp(p, t) in st.marks {
        var k :| 0 <= k < |st.marks| && st.marks[k] == MarkOp(p, t);
      }
    }
  }

  /** After `update_shot_range` a frame is valid exactly when it lies in
      one of the returned ranges. */
  lemma ValidExactlyInRanges(recs: seq<FrameInfo>, msl: int, p: int)
    requires 0 <= p < |recs|
    ensures ApplyMarks(recs, ShortMarksOf(recs, msl))[p].valid <==> InRanges(ShotRanges(recs, msl), p)
  {
    ShotRangesEffect(recs, msl);
    ValidWhenUnmarked(recs, msl, ShotRanges(recs, msl), ShortMarksOf(recs, msl), p);
  }

  lemma ValidWhenUnmarked(recs: seq<FrameInfo>, msl: int, ranges: seq<ShotRange>, ms: seq<MarkOp>, p: int)
    requires 0 <= p < |recs|
    requires forall k :: 0 <= k < |ranges| ==> RangeOk(Validity(recs), msl, ranges[k])
    requires recs[p].valid ==> (InRanges(ranges, p) <==> RunLength(Validity(recs), p) > msl)
    requires forall t :: t in TagsFor(ms, p) <==> t == Short && recs[p].valid && RunLength(Validity(recs), p) <= msl
    ensures ApplyMarks(recs, ms)[p].valid <==> InRanges(ranges, p)
  {
    ApplyMarksAt(recs, ms, p);
    var tags := TagsFor(ms, p);
    if InRanges(ranges, p) {
      var k :| 0 <= k < |ranges| && ranges[k].start <= p <= ranges[k].end;
      assert Validity(recs)[p];
      forall j | 0 <= j < |ms| ensures ms[j].frame != p {
        TagsForTo(ms, j);
      }
      TagsForEmpty(ms, p);
    } else if recs[p].valid {
      assert Short in tags;
    }
  }
}

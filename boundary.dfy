/** The gradual-transition pass of video_parser.py: `sbd_heuristic` picks
    cut points inside a long shot greedily by decreasing frame difference,
    and `post_process` runs it on every long stretch of valid frames and
    marks the chosen frames "[GFL] " (gradual frame loss). */
module ShotBoundary {
  import opened Sorting
  import opened Frames

  function Abs(x: int): (r: nat)
    ensures r == x || r == -x
  {
    if x < 0 then -x else x
  }

  /** Position c of a signal of length n leaves at least msl frames on both
      sides: neither `c + 1 < msl` nor `n - c < msl`. */
  predicate FitsShot(n: int, msl: int, c: int)
  {
    !(c + 1 < msl || n - c < msl)
  }

  /** Candidate c may be added to `jump`: it fits the shot and every span
      between it and an earlier jump is at least msl frames long. */
  predicate Admissible(n: int, msl: int, jump: seq<int>, c: int)
  {
    FitsShot(n, msl, c) && forall k :: 0 <= k < |jump| ==> Abs(jump[k] - c) + 1 >= msl
  }

  predicate IsOrder(ord: seq<int>)
  {
    forall x :: 0 <= x < |ord| ==> 0 <= ord[x] < |ord|
  }

  /** The greedy state after examining some candidates: the ranks (indices
      into the ascending order) of the accepted jumps, and whether the
      loop has stopped because `len(jump) == njumps`. */
  datatype Greedy = Greedy(ranks: seq<int>, stopped: bool)

  function JumpsOf(ord: seq<int>, ranks: seq<int>): (jump: seq<int>)
    requires forall a :: 0 <= a < |ranks| ==> 0 <= ranks[a] < |ord|
    ensures |jump| == |ranks|
  {
    seq(|ranks|, a requires 0 <= a < |ranks| => ord[ranks[a]])
  }

  /** The loop of `sbd_heuristic` after k candidates, taken from the top of
      the ascending order ord downwards. The accepted ranks are strictly
      decreasing and lie among the k examined ones. */
  function SbdUpTo(ord: seq<int>, njumps: int, msl: int, k: nat): (g: Greedy)
    requires IsOrder(ord) && k <= |ord|
    ensures forall a :: 0 <= a < |g.ranks| ==> |ord| - k <= g.ranks[a] < |ord|
    ensures forall a, b :: 0 <= a < b < |g.ranks| ==> g.ranks[b] < g.ranks[a]
  {
    if k == 0 then Greedy([], false) else GreedyNext(ord, njumps, msl, k, SbdUpTo(ord, njumps, msl, k - 1))
  }

  /** Candidate k of the loop (rank |ord| - k) examined in state g: a
      stopped loop stays as it is; otherwise the candidate is accepted when
      admissible, and the loop stops once it has njumps jumps. */
  function GreedyNext(ord: seq<int>, njumps: int, msl: int, k: nat, g: Greedy): (g': Greedy)
    requires IsOrder(ord) && 0 < k <= |ord|
    requires forall a :: 0 <= a < |g.ranks| ==> 0 <= g.ranks[a] < |ord|
  {
    if g.stopped then g
    else
      var r := |ord| - k;
      var ranks := if Admissible(|ord|, msl, JumpsOf(ord, g.ranks), ord[r]) then g.ranks + [r] else g.ranks;
      Greedy(ranks, |ranks| == njumps)
  }

  /** `sbd_heuristic(v_diff, njumps, min_shot_len)`. */
  function Sbd(vDiff: seq<real>, njumps: int, msl: int): seq<int>
  {
    var ord := ArgSort(vDiff);
    JumpsOf(ord, SbdUpTo(ord, njumps, msl, |ord|).ranks)
  }

  /** The implementation of `sbd_heuristic`, with its nested loops. */
  method SbdHeuristic(vDiff: seq<real>, njumps: int, msl: int) returns (jump: seq<int>)
    ensures jump == Sbd(vDiff, njumps, msl)
  {
    var sortedIdx := ArgSort(vDiff);
    jump := SbdLoop(|vDiff|, sortedIdx, njumps, msl);
  }

  method SbdLoop(n: nat, sortedIdx: seq<int>, njumps: int, msl: int) returns (jump: seq<int>)
    requires |sortedIdx| == n && IsOrder(sortedIdx)
    ensures jump == JumpsOf(sortedIdx, SbdUpTo(sortedIdx, njumps, msl, n).ranks)
  {
    jump := [];
    ghost var ranks: seq<int> := [];
    var i := n - 1;
    while i >= 0
      invariant -1 <= i < n
      invariant SbdRunning(sortedIdx, njumps, msl, n - 1 - i, ranks)
      invariant jump == JumpsOf(sortedIdx, ranks)
    {
      var c := sortedIdx[i];
      var add := Accepts(n, msl, jump, c);
      SbdStep(sortedIdx, njumps, msl, n - 1 - i, ranks, add);
      if add {
        JumpsOfSnoc(sortedIdx, ranks, i);
        jump := jump + [c];
        ranks := ranks + [i];
      }
      if |jump| == njumps {
        return;
      }
      i := i - 1;
    }
  }

  /** The `add` flag of one iteration, with the inner loop and its `break`. */
  method Accepts(n: int, msl: int, jump: seq<int>, c: int) returns (add: bool)
    ensures add == Admissible(n, msl, jump, c)
  {
    add := true;
    if c + 1 < msl || n - c < msl {
      add := false;
    } else {
      var j := 0;
      while j < |jump|
        invariant 0 <= j <= |jump|
        invariant add && forall k :: 0 <= k < j ==> Abs(jump[k] - c) + 1 >= msl
      {
        var length := Abs(jump[j] - c) + 1;
        if length < msl {
          add := false;
          break;
        }
        j := j + 1;
      }
    }
  }

  /** The loop is still running after k candidates, with the given ranks. */
  predicate SbdRunning(ord: seq<int>, njumps: int, msl: int, k: nat, ranks: seq<int>)
    requires IsOrder(ord) && k <= |ord|
  {
    SbdUpTo(ord, njumps, msl, k) == Greedy(ranks, false)
  }

  /** One iteration of the loop: add says whether candidate k is accepted;
      either the loop runs on, or it stops with its final ranks. */
  lemma SbdStep(ord: seq<int>, njumps: int, msl: int, k: nat, ranks: seq<int>, add: bool)
    requires IsOrder(ord) && k < |ord| && SbdRunning(ord, njumps, msl, k, ranks)
    requires add == Admissible(|ord|, msl, JumpsOf(ord, ranks), ord[|ord| - 1 - k])
    ensures var ranks' := if add then ranks + [|ord| - 1 - k] else ranks;
      if |ranks'| == njumps then SbdUpTo(ord, njumps, msl, |ord|).ranks == ranks'
      else SbdRunning(ord, njumps, msl, k + 1, ranks')
  {
    var ranks' := if add then ranks + [|ord| - 1 - k] else ranks;
    assert SbdUpTo(ord, njumps, msl, k + 1) == Greedy(ranks', |ranks'| == njumps);
    if |ranks'| == njumps {
      StoppedStays(ord, njumps, msl, k + 1, |ord|);
    }
  }

  lemma JumpsOfSnoc(ord: seq<int>, ranks: seq<int>, r: int)
    requires forall a :: 0 <= a < |ranks| ==> 0 <= ranks[a] < |ord|
    requires 0 <= r < |ord|
    ensures JumpsOf(ord, ranks + [r]) == JumpsOf(ord, ranks) + [ord[r]]
  {
  }

  /** Once the loop has stopped, later candidates change nothing. */
  lemma {:induction false} StoppedStays(ord: seq<int>, njumps: int, msl: int, k: nat, m: nat)
    requires IsOrder(ord) && k <= m <= |ord| && SbdUpTo(ord, njumps, msl, k).stopped
    ensures SbdUpTo(ord, njumps, msl, m) == SbdUpTo(ord, njumps, msl, k)
    decreases m - k
  {
    if m > k {
      StoppedStays(ord, njumps, msl, k, m - 1);
    }
  }

  /** What holds of the greedy state after any number of candidates: every
      accepted jump fits the shot, any two accepted jumps a, b satisfy
      |a - b| >= msl - 1 (span counted inclusively), the loop stops exactly when
      it has njumps jumps, and before it stops every examined candidate was
      accepted or is not admissible against the accepted jumps. */
  predicate GreedyInvariant(ord: seq<int>, njumps: int, msl: int, k: nat)
    requires IsOrder(ord) && k <= |ord|
  {
    GreedyOk(ord, njumps, msl, k, SbdUpTo(ord, njumps, msl, k))
  }

  predicate GreedyOk(ord: seq<int>, njumps: int, msl: int, k: nat, g: Greedy)
    requires IsOrder(ord) && k <= |ord|
    requires forall a :: 0 <= a < |g.ranks| ==> 0 <= g.ranks[a] < |ord|
  {
    Spaced(ord, msl, g.ranks) && Counted(njumps, g) && Exhausted(ord, msl, k, g)
  }

  predicate Spaced(ord: seq<int>, msl: int, ranks: seq<int>)
    requires forall a :: 0 <= a < |ranks| ==> 0 <= ranks[a] < |ord|
  {
    var jump := JumpsOf(ord, ranks);
    && (forall a :: 0 <= a < |jump| ==> FitsShot(|ord|, msl, jump[a]))
    && (forall a, b :: 0 <= a < b < |jump| ==> Abs(jump[a] - jump[b]) + 1 >= msl)
  }

  predicate Counted(njumps: int, g: Greedy)
  {
    && (g.stopped ==> |g.ranks| == njumps)
    && (njumps >= 1 ==> |g.ranks| <= njumps && (!g.stopped ==> |g.ranks| < njumps))
  }

  predicate Exhausted(ord: seq<int>, msl: int, k: nat, g: Greedy)
    requires IsOrder(ord) && k <= |ord|
    requires forall a :: 0 <= a < |g.ranks| ==> 0 <= g.ranks[a] < |ord|
  {
    !g.stopped ==> forall x :: |ord| - k <= x < |ord| ==>
      x in g.ranks || !Admissible(|ord|, msl, JumpsOf(ord, g.ranks), ord[x])
  }

  lemma {:induction false} GreedyInvariantHolds(ord: seq<int>, njumps: int, msl: int, k: nat)
    requires IsOrder(ord) && k <= |ord|
    ensures GreedyInvariant(ord, njumps, msl, k)
  {
    if k > 0 {
      GreedyInvariantHolds(ord, njumps, msl, k - 1);
      GreedyNextOk(ord, njumps, msl, k, SbdUpTo(ord, njumps, msl, k - 1));
    }
  }

  /** Examining one more candidate keeps the invariant. */
  lemma GreedyNextOk(ord: seq<int>, njumps: int, msl: int, k: nat, g: Greedy)
    requires IsOrder(ord) && 0 < k <= |ord|
    requires forall a :: 0 <= a < |g.ranks| ==> |ord| - k < g.ranks[a] < |ord|
    requires forall a, b :: 0 <= a < b < |g.ranks| ==> g.ranks[b] < g.ranks[a]
    requires GreedyOk(ord, njumps, msl, k - 1, g)
    ensures GreedyOk(ord, njumps, msl, k, GreedyNext(ord, njumps, msl, k, g))
  {
    if !g.stopped {
      if Admissible(|ord|, msl, JumpsOf(ord, g.ranks), ord[|ord| - k]) {
        GreedyAccept(ord, njumps, msl, k, g.ranks);
      } else {
        GreedyReject(ord, njumps, msl, k, g.ranks);
      }
    }
  }

  lemma GreedyAccept(ord: seq<int>, njumps: int, msl: int, k: nat, ranks: seq<int>)
    requires IsOrder(ord) && 0 < k <= |ord|
    requires forall a :: 0 <= a < |ranks| ==> |ord| - k < ranks[a] < |ord|
    requires GreedyOk(ord, njumps, msl, k - 1, Greedy(ranks, false))
    requires Admissible(|ord|, msl, JumpsOf(ord, ranks), ord[|ord| - k])
    ensures var ranks' := ranks + [|ord| - k];
      GreedyOk(ord, njumps, msl, k, Greedy(ranks', |ranks'| == njumps))
  {
    var r := |ord| - k;
    JumpsOfSnoc(ord, ranks, r);
    SpacedSnoc(ord, msl, ranks, r);
    ExhaustedSnoc(ord, msl, k, ranks, r);
  }

  lemma GreedyReject(ord: seq<int>, njumps: int, msl: int, k: nat, ranks: seq<int>)
    requires IsOrder(ord) && 0 < k <= |ord|
    requires forall a :: 0 <= a < |ranks| ==> |ord| - k < ranks[a] < |ord|
    requires GreedyOk(ord, njumps, msl, k - 1, Greedy(ranks, false))
    requires !Admissible(|ord|, msl, JumpsOf(ord, ranks), ord[|ord| - k])
    ensures GreedyOk(ord, njumps, msl, k, Greedy(ranks, |ranks| == njumps))
  {
  }

  lemma SpacedSnoc(ord: seq<int>, msl: int, ranks: seq<int>, r: int)
    requires forall a :: 0 <= a < |ranks| ==> 0 <= ranks[a] < |ord|
    requires 0 <= r < |ord| && Spaced(ord, msl, ranks)
    requires Admissible(|ord|, msl, JumpsOf(ord, ranks), ord[r])
    ensures Spaced(ord, msl, ranks + [r])
  {
    JumpsOfSnoc(ord, ranks, r);
  }

  /** Accepting candidate rank r keeps every earlier rejected candidate
      rejected: a longer jump list only admits fewer candidates. */
  lemma ExhaustedSnoc(ord: seq<int>, msl: int, k: nat, ranks: seq<int>, r: int)
    requires IsOrder(ord) && 0 < k <= |ord| && r == |ord| - k
    requires forall a :: 0 <= a < |ranks| ==> |ord| - k < ranks[a] < |ord|
    requires Exhausted(ord, msl, k - 1, Greedy(ranks, false))
    ensures forall x :: |ord| - k <= x < |ord| ==>
      x in ranks + [r] || !Admissible(|ord|, msl, JumpsOf(ord, ranks + [r]), ord[x])
  {
    var jump := JumpsOf(ord, ranks);
    JumpsOfSnoc(ord, ranks, r);
    var jump' := jump + [ord[r]];
    forall x | |ord| - k <= x < |ord| && x !in ranks + [r]
      ensures !Admissible(|ord|, msl, jump', ord[x])
    {
      assert !Admissible(|ord|, msl, jump, ord[x]);
      if FitsShot(|ord|, msl, ord[x]) {
        var a :| 0 <= a < |jump| && Abs(jump[a] - ord[x]) + 1 < msl;
        assert jump'[a] == jump[a];
      }
    }
  }

  /** What `sbd_heuristic` promises about the jumps it returns: each lies
      at least min_shot_len - 1 from the start and leaves min_shot_len
      frames to the end of v_diff, any two a, b satisfy
      |a - b| >= min_shot_len - 1 (span counted inclusively), there are at most njumps of them (for a positive njumps), and
      they come in decreasing order of v_diff (ties: higher index first). */
  lemma SbdSpread(vDiff: seq<real>, njumps: int, msl: int)
    ensures var jump := Sbd(vDiff, njumps, msl);
      && (forall a :: 0 <= a < |jump| ==> 0 <= jump[a] < |vDiff| && msl - 1 <= jump[a] <= |vDiff| - msl)
      && (forall a, b :: 0 <= a < b < |jump| ==> Abs(jump[a] - jump[b]) + 1 >= msl)
      && (njumps >= 1 ==> |jump| <= njumps)
      && (forall a, b :: 0 <= a < b < |jump| ==> Before(vDiff, jump[b], jump[a]))
  {
    var ord := ArgSort(vDiff);
    GreedyInvariantHolds(ord, njumps, msl, |ord|);
    var ranks := SbdUpTo(ord, njumps, msl, |ord|).ranks;
    var jump := JumpsOf(ord, ranks);
    forall a, b | 0 <= a < b < |jump| ensures Before(vDiff, jump[b], jump[a]) {
      assert ranks[b] < ranks[a];
    }
  }

  /** The greedy choice is maximal: unless it found njumps jumps, every
      position of v_diff is a jump or is too close to an end or to a jump. */
  lemma SbdMaximal(vDiff: seq<real>, njumps: int, msl: int)
    ensures var jump := Sbd(vDiff, njumps, msl);
      |jump| != njumps ==>
        forall c :: 0 <= c < |vDiff| ==> c in jump || !Admissible(|vDiff|, msl, jump, c)
  {
    var ord := ArgSort(vDiff);
    GreedyInvariantHolds(ord, njumps, msl, |ord|);
    var ranks := SbdUpTo(ord, njumps, msl, |ord|).ranks;
    var jump := JumpsOf(ord, ranks);
    if |jump| != njumps {
      forall c | 0 <= c < |vDiff| ensures c in jump || !Admissible(|vDiff|, msl, jump, c) {
        assert c in ord;
        var x :| 0 <= x < |ord| && ord[x] == c;
        if x in ranks {
          var a :| 0 <= a < |ranks| && ranks[a] == x;
          assert jump[a] == c;
        }
      }
    }
  }

  // ---------------------------------------------------------------------
  // post_process

  /** Python's `xs[a:b]` for 0 <= a <= b: indices past the end are clamped. */
  function PySlice(xs: seq<real>, a: int, b: int): (r: seq<real>)
    requires 0 <= a <= b
    ensures |r| <= b - a
    ensures forall k :: 0 <= k < |r| ==> a + k < |xs| && r[k] == xs[a + k]
    ensures b <= |xs| ==> |r| == b - a
  {
    var lo := if a < |xs| then a else |xs|;
    var hi := if b < |xs| then b else |xs|;
    xs[lo..hi]
  }

  /** `info_list[start_idx + jump[k] - 1]` receives "[GFL] " for every k. */
  function GflMarksOf(s: int, jump: seq<int>): (ms: seq<MarkOp>)
    ensures |ms| == |jump|
    ensures forall k :: 0 <= k < |ms| ==> ms[k] == MarkOp(s + jump[k] - 1, Gfl)
  {
    seq(|jump|, k requires 0 <= k < |jump| => MarkOp(s + jump[k] - 1, Gfl))
  }

  /** The marks `post_process` makes for the segment from frame s to frame
      e: nothing below three minimum shot lengths, otherwise one GFL mark
      per jump that `sbd_heuristic` finds in the segment's stretch of
      X_diff. They lie at least msl - 2 frames after s and msl frames
      before e, any two a, b satisfy |a - b| >= msl - 1 (span counted
      inclusively), and they number at most
      the segment length over msl. */
  function SegmentMarks(xDiff: seq<real>, s: int, e: int, msl: int): (ms: seq<MarkOp>)
    requires 0 <= s <= e && msl >= 2
    ensures forall k :: 0 <= k < |ms| ==> ms[k].tag == Gfl && s + msl - 2 <= ms[k].frame <= e - msl
    ensures forall a, b :: 0 <= a < b < |ms| ==> Abs(ms[a].frame - ms[b].frame) + 1 >= msl
  {
    if e - s + 1 >= 3 * msl then LongSegmentMarks(xDiff, s, e, msl) else []
  }

  /** At most one mark per min_shot_len frames of the segment: njumps is
      `shotlen // min_shot_len`. */
  lemma SegmentMarksCount(xDiff: seq<real>, s: int, e: int, msl: int)
    requires 0 <= s <= e && msl >= 2
    ensures |SegmentMarks(xDiff, s, e, msl)| <= (e - s + 1) / msl
  {
    if e - s + 1 >= 3 * msl {
      var shotlen := e - s + 1;
      GflSpread(PySlice(xDiff, s, e + 1), shotlen / msl, msl, s, e);
    } else {
      assert (e - s + 1) / msl >= 0;
    }
  }

  /** `if shotlen >= max_shot_len`: a segment shorter than three minimum
      shot lengths gets no mark. */
  lemma ShortSegmentUnmarked(xDiff: seq<real>, s: int, e: int, msl: int)
    requires 0 <= s <= e && msl >= 2 && e - s + 1 < 3 * msl
    ensures SegmentMarks(xDiff, s, e, msl) == []
  {
  }

  /** The marks of a segment of at least three minimum shot lengths. */
  function LongSegmentMarks(xDiff: seq<real>, s: int, e: int, msl: int): (ms: seq<MarkOp>)
    requires 0 <= s <= e && msl >= 2 && e - s + 1 >= 3 * msl
    ensures forall k :: 0 <= k < |ms| ==> ms[k].tag == Gfl && s + msl - 2 <= ms[k].frame <= e - msl
    ensures forall a, b :: 0 <= a < b < |ms| ==> Abs(ms[a].frame - ms[b].frame) + 1 >= msl
  {
    var shotlen := e - s + 1;
    var v := PySlice(xDiff, s, e + 1);
    GflSpread(v, shotlen / msl, msl, s, e);
    GflMarksOf(s, Sbd(v, shotlen / msl, msl))
  }

  lemma GflSpread(v: seq<real>, njumps: int, msl: int, s: int, e: int)
    requires |v| <= e - s + 1 && msl >= 2 && njumps >= 1
    ensures var ms := GflMarksOf(s, Sbd(v, njumps, msl));
      && (forall k :: 0 <= k < |ms| ==> ms[k].tag == Gfl && s + msl - 2 <= ms[k].frame <= e - msl)
      && (forall a, b :: 0 <= a < b < |ms| ==> Abs(ms[a].frame - ms[b].frame) + 1 >= msl)
      && |ms| <= njumps
  {
    SbdSpread(v, njumps, msl);
    var jump := Sbd(v, njumps, msl);
    var ms := GflMarksOf(s, jump);
    forall a, b | 0 <= a < b < |ms| ensures Abs(ms[a].frame - ms[b].frame) + 1 >= msl {
      assert ms[a].frame - ms[b].frame == jump[a] - jump[b];
    }
  }

  /** The loop state of `post_process`: `start_idx` and the marks so far. */
  datatype Scan = Scan(start: int, marks: seq<MarkOp>)

  /** `post_process` after the first i frames of a video whose validity
      flags are valid. Every mark made so far lies msl frames before the
      current frame. */
  function PostUpTo(valid: seq<bool>, xDiff: seq<real>, msl: int, i: nat): (st: Scan)
    requires i <= |valid| && msl >= 2
    ensures -1 <= st.start < i
    ensures forall k :: 0 <= k < |st.marks| ==> 0 <= st.marks[k].frame && st.marks[k].frame + msl < i
  {
    if i == 0 then Scan(-1, []) else PostNext(valid, xDiff, msl, i - 1, PostUpTo(valid, xDiff, msl, i - 1))
  }

  /** Frame j of the loop in state st: a stretch opens at a valid frame and
      closes at the first invalid frame or at the last frame, when it gets
      the marks of its segment. */
  function PostNext(valid: seq<bool>, xDiff: seq<real>, msl: int, j: nat, st: Scan): (st': Scan)
    requires j < |valid| && msl >= 2 && st.start <= j
  {
    var start := if st.start < 0 && valid[j] then j else st.start;
    if start >= 0 && (!valid[j] || j + 1 == |valid|) then
      Scan(-1, st.marks + SegmentMarks(xDiff, start, j, msl))
    else Scan(start, st.marks)
  }

  /** All the marks of `post_process(frame_list, info_list, X_diff, msl)`. */
  function PostMarks(recs: seq<FrameInfo>, xDiff: seq<real>, msl: int): (ms: seq<MarkOp>)
    requires msl >= 2
  {
    PostUpTo(Validity(recs), xDiff, msl, |recs|).marks
  }

  /** `post_process`. Only the length of frame_list is used, and it is the
      length of info_list. */
  method PostProcess(info: array<FrameInfo>, xDiff: seq<real>, msl: int)
    requires msl >= 2
    modifies info
    ensures info[..] == ApplyMarks(old(info[..]), PostMarks(old(info[..]), xDiff, msl))
  {
    ghost var recs := info[..];
    ghost var valid := Validity(recs);
    var startIdx := -1;
    for i := 0 to info.Length
      invariant startIdx == PostUpTo(valid, xDiff, msl, i).start
      invariant info[..] == ApplyMarks(recs, PostUpTo(valid, xDiff, msl, i).marks)
    {
      startIdx := PostIteration(info, xDiff, msl, i, startIdx, recs);
    }
  }

  /** One iteration of the loop of `post_process`. */
  method PostIteration(info: array<FrameInfo>, xDiff: seq<real>, msl: int, i: int, startIdx: int,
                       ghost recs: seq<FrameInfo>) returns (startIdx': int)
    requires msl >= 2 && |recs| == info.Length && 0 <= i < info.Length
    requires startIdx == PostUpTo(Validity(recs), xDiff, msl, i).start
    requires info[..] == ApplyMarks(recs, PostUpTo(Validity(recs), xDiff, msl, i).marks)
    modifies info
    ensures startIdx' == PostUpTo(Validity(recs), xDiff, msl, i + 1).start
    ensures info[..] == ApplyMarks(recs, PostUpTo(Validity(recs), xDiff, msl, i + 1).marks)
  {
    ghost var valid := Validity(recs);
    ghost var done := PostUpTo(valid, xDiff, msl, i).marks;
    ApplyMarksElsewhere(recs, done, i);
    PostStep(valid, xDiff, msl, i);
    var maxShotLen := msl * 3;
    startIdx' := startIdx;
    if startIdx' < 0 && info[i].valid {
      startIdx' := i;
    }
    if startIdx' >= 0 && (!info[i].valid || i + 1 == info.Length) {
      var endIdx := i;
      var shotlen := endIdx - startIdx' + 1;
      if shotlen >= maxShotLen {
        var njumps := shotlen / msl;
        var vDiff := PySlice(xDiff, startIdx', endIdx + 1);
        var jump := SbdHeuristic(vDiff, njumps, msl);
        assert GflMarksOf(startIdx', jump) == SegmentMarks(xDiff, startIdx', endIdx, msl);
        MarkJumps(info, startIdx', jump, recs, done);
      } else {
        assert done + SegmentMarks(xDiff, startIdx', endIdx, msl) == done;
      }
      startIdx' := -1;
    }
  }

  lemma PostStep(valid: seq<bool>, xDiff: seq<real>, msl: int, i: nat)
    requires i < |valid| && msl >= 2
    ensures var st := PostUpTo(valid, xDiff, msl, i);
      var start := if st.start < 0 && valid[i] then i else st.start;
      PostUpTo(valid, xDiff, msl, i + 1) ==
        if start >= 0 && (!valid[i] || i + 1 == |valid|) then Scan(-1, st.marks + SegmentMarks(xDiff, start, i, msl))
        else Scan(start, st.marks)
  {
  }

  /** `for k in range(len(jump))`: mark frame start_idx + jump[k] - 1. */
  method MarkJumps(info: array<FrameInfo>, s: int, jump: seq<int>, ghost recs: seq<FrameInfo>, ghost done: seq<MarkOp>)
    requires |recs| == info.Length
    requires forall k :: 0 <= k < |jump| ==> 0 <= s + jump[k] - 1 < |recs|
    requires info[..] == ApplyMarks(recs, done)
    modifies info
    ensures info[..] == ApplyMarks(recs, done + GflMarksOf(s, jump))
  {
    ghost var gfl := GflMarksOf(s, jump);
    assert done + gfl[..0] == done;
    for k := 0 to |jump|
      invariant info[..] == ApplyMarks(recs, done + gfl[..k])
    {
      MarkFrame(info, MarkOp(s + jump[k] - 1, Gfl));
      assert (done + gfl[..k + 1])[..|done + gfl[..k + 1]| - 1] == done + gfl[..k];
    }
    assert gfl[..|jump|] == gfl;
  }

  /** Frame p and the frames around it, msl - 2 before and msl - 1 after,
      exist and are valid. */
  predicate Window(valid: seq<bool>, msl: int, p: int)
  {
    forall q :: p - msl + 2 <= q <= p + msl - 1 ==> 0 <= q < |valid| && valid[q]
  }

  predicate ScanOk(valid: seq<bool>, msl: int, i: nat, st: Scan)
    requires i <= |valid|
  {
    var front := if st.start >= 0 then st.start else i;
    && (st.start >= 0 ==> forall q :: st.start <= q < i ==> valid[q])
    && (forall k :: 0 <= k < |st.marks| ==>
          st.marks[k].tag == Gfl && Window(valid, msl, st.marks[k].frame) && st.marks[k].frame + msl < front)
    && (forall a, b :: 0 <= a < b < |st.marks| ==> Abs(st.marks[a].frame - st.marks[b].frame) + 1 >= msl)
  }

  lemma {:induction false} PostInvariantHolds(valid: seq<bool>, xDiff: seq<real>, msl: int, i: nat)
    requires i <= |valid| && msl >= 2
    ensures ScanOk(valid, msl, i, PostUpTo(valid, xDiff, msl, i))
  {
    if i > 0 {
      PostInvariantHolds(valid, xDiff, msl, i - 1);
      PostInvariantNext(valid, xDiff, msl, i);
    }
  }

  lemma PostInvariantNext(valid: seq<bool>, xDiff: seq<real>, msl: int, i: nat)
    requires 0 < i <= |valid| && msl >= 2
    requires ScanOk(valid, msl, i - 1, PostUpTo(valid, xDiff, msl, i - 1))
    ensures ScanOk(valid, msl, i, PostUpTo(valid, xDiff, msl, i))
  {
    var st := PostUpTo(valid, xDiff, msl, i - 1);
    PostInvariantStep(valid, xDiff, msl, i - 1, st);
    PostUpToUnfold(valid, xDiff, msl, i, st);
  }

  lemma PostUpToUnfold(valid: seq<bool>, xDiff: seq<real>, msl: int, i: nat, st: Scan)
    requires 0 < i <= |valid| && msl >= 2 && st == PostUpTo(valid, xDiff, msl, i - 1)
    ensures PostUpTo(valid, xDiff, msl, i) == PostNext(valid, xDiff, msl, i - 1, st)
  {
  }

  lemma PostInvariantStep(valid: seq<bool>, xDiff: seq<real>, msl: int, j: nat, st: Scan)
    requires j < |valid| && msl >= 2 && st.start <= j && ScanOk(valid, msl, j, st)
    ensures ScanOk(valid, msl, j + 1, PostNext(valid, xDiff, msl, j, st))
  {
    var start := if st.start < 0 && valid[j] then j else st.start;
    if start >= 0 && (!valid[j] || j + 1 == |valid|) {
      PostClose(valid, xDiff, msl, j, st, start);
    } else {
      PostOpen(valid, msl, j, st, start);
    }
  }

  /** Closing the stretch that starts at start. */
  lemma PostClose(valid: seq<bool>, xDiff: seq<real>, msl: int, j: nat, st: Scan, start: int)
    requires j < |valid| && msl >= 2 && ScanOk(valid, msl, j, st)
    requires start == (if st.start < 0 && valid[j] then j else st.start) && 0 <= start <= j
    ensures ScanOk(valid, msl, j + 1, Scan(-1, st.marks + SegmentMarks(xDiff, start, j, msl)))
  {
    SegmentJoin(valid, msl, st.marks, SegmentMarks(xDiff, start, j, msl), start, j);
  }

  /** Opening or extending a stretch, or passing an invalid frame. */
  lemma PostOpen(valid: seq<bool>, msl: int, j: nat, st: Scan, start: int)
    requires j < |valid| && msl >= 2 && st.start <= j && ScanOk(valid, msl, j, st)
    requires start == (if st.start < 0 && valid[j] then j else st.start)
    requires !(start >= 0 && (!valid[j] || j + 1 == |valid|))
    ensures ScanOk(valid, msl, j + 1, Scan(start, st.marks))
  {
  }

  /** Appending the marks of a segment from s to e whose frames before e
      are valid keeps every mark in a valid window and all marks apart. */
  lemma SegmentJoin(valid: seq<bool>, msl: int, old_: seq<MarkOp>, seg: seq<MarkOp>, s: int, e: int)
    requires msl >= 2 && 0 <= s <= e < |valid|
    requires forall q :: s <= q < e ==> valid[q]
    requires forall k :: 0 <= k < |old_| ==> old_[k].tag == Gfl && Window(valid, msl, old_[k].frame) && old_[k].frame + msl < s
    requires forall a, b :: 0 <= a < b < |old_| ==> Abs(old_[a].frame - old_[b].frame) + 1 >= msl
    requires forall k :: 0 <= k < |seg| ==> seg[k].tag == Gfl && s + msl - 2 <= seg[k].frame <= e - msl
    requires forall a, b :: 0 <= a < b < |seg| ==> Abs(seg[a].frame - seg[b].frame) + 1 >= msl
    ensures var all := old_ + seg;
      && (forall k :: 0 <= k < |all| ==> all[k].tag == Gfl && Window(valid, msl, all[k].frame) && all[k].frame + msl < e + 1)
      && (forall a, b :: 0 <= a < b < |all| ==> Abs(all[a].frame - all[b].frame) + 1 >= msl)
  {
    var all := old_ + seg;
    forall k | 0 <= k < |all|
      ensures all[k].tag == Gfl && Window(valid, msl, all[k].frame) && all[k].frame + msl < e + 1
    {
      if k >= |old_| {
        assert all[k] == seg[k - |old_|];
      }
    }
    forall a, b | 0 <= a < b < |all| ensures Abs(all[a].frame - all[b].frame) + 1 >= msl {
      if b >= |old_| && a < |old_| {
        assert all[b] == seg[b - |old_|];
      } else if a >= |old_| {
        assert all[a] == seg[a - |old_|] && all[b] == seg[b - |old_|];
      }
    }
  }

  /** What `post_process` promises about the frames it marks "[GFL] ":
      every such frame was valid and sits inside its stretch of valid
      frames, with at least min_shot_len - 2 valid frames before it and
      min_shot_len - 1 after it; no other reason is given; and any two of
      them, a and b, satisfy |a - b| >= min_shot_len - 1 (span counted
      inclusively). In particular each frame
      is marked at most once. */
  lemma GflEffect(recs: seq<FrameInfo>, xDiff: seq<real>, msl: int)
    requires msl >= 2
    ensures var ms := PostMarks(recs, xDiff, msl);
      && (forall k :: 0 <= k < |ms| ==> ms[k].tag == Gfl && Window(Validity(recs), msl, ms[k].frame))
      && (forall a, b :: 0 <= a < b < |ms| ==> Abs(ms[a].frame - ms[b].frame) + 1 >= msl)
  {
    PostInvariantHolds(Validity(recs), xDiff, msl, |recs|);
  }
}

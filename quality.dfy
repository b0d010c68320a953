/** The rank-and-threshold filters of video_parser.py: `filter_low_quality`
    and the CUT/ECR flagging at the end of `filter_transition`. Each ranks
    the frames with a stable sort, walks the first quota entries of the
    ranking, and marks those that also cross an absolute threshold. */
module Quality {
  import opened Sorting
  import opened Frames

  const DarkThreshold: real := 0.075
  const BlurThreshold: real := 0.08
  const UniformThreshold: real := 0.8
  /** `threshold[0]` and `threshold[1]` of `filter_transition`. */
  const CutThreshold: real := 0.5
  const EcrThreshold: real := 0.0

  /** `int(n * 0.15)`. */
  function QualityQuota(n: nat): (k: nat)
    ensures k <= n
  {
    n * 15 / 100
  }

  /** `int(n * 0.1)`. */
  function TransitionQuota(n: nat): (k: nat)
    ensures k <= n
  {
    n * 10 / 100
  }

  // ---------------------------------------------------------------------
  // A ranked threshold pass: for i < quota, mark ord[i] with tag when it hits.

  /** ord ranks positions of hit (a stable sort result, see Sorting). */
  predicate RankingOf(ord: seq<int>, hit: seq<bool>)
  {
    |ord| == |hit| && forall k :: 0 <= k < |ord| ==> 0 <= ord[k] < |hit|
  }

  /** The mark iteration i makes, if any. */
  function RankedStep(ord: seq<int>, hit: seq<bool>, tag: Tag, i: nat): (ms: seq<MarkOp>)
    requires RankingOf(ord, hit) && i < |ord|
  {
    if hit[ord[i]] then [MarkOp(ord[i], tag)] else []
  }

  /** The marks of iterations 0..i-1 of one pass. */
  function RankedMarks(ord: seq<int>, hit: seq<bool>, tag: Tag, i: nat): (ms: seq<MarkOp>)
    requires RankingOf(ord, hit) && i <= |ord|
  {
    if i == 0 then [] else RankedMarks(ord, hit, tag, i - 1) + RankedStep(ord, hit, tag, i - 1)
  }

  /** A pass over the first i ranks marks exactly the hit frames among them,
      each with the pass's tag. */
  lemma {:induction false} RankedMarksMeaning(ord: seq<int>, hit: seq<bool>, tag: Tag, i: nat, m: MarkOp)
    requires RankingOf(ord, hit) && i <= |ord|
    ensures m in RankedMarks(ord, hit, tag, i) <==>
      m.tag == tag && 0 <= m.frame < |hit| && hit[m.frame] && m.frame in ord[..i]
  {
    if i > 0 {
      RankedMarksMeaning(ord, hit, tag, i - 1, m);
      assert ord[..i] == ord[..i - 1] + [ord[i - 1]];
      assert m in RankedMarks(ord, hit, tag, i) <==>
        m in RankedMarks(ord, hit, tag, i - 1) || m in RankedStep(ord, hit, tag, i - 1);
    }
  }

  /** A pass over the first i ranks makes at most i marks. */
  lemma {:induction false} RankedMarksCount(ord: seq<int>, hit: seq<bool>, tag: Tag, i: nat)
    requires RankingOf(ord, hit) && i <= |ord|
    ensures CountTag(RankedMarks(ord, hit, tag, i), tag) <= i
  {
    if i > 0 {
      RankedMarksCount(ord, hit, tag, i - 1);
      var step := RankedStep(ord, hit, tag, i - 1);
      CountTagConcat(RankedMarks(ord, hit, tag, i - 1), step, tag);
      StepCount(step, tag);
    }
  }

  lemma StepCount(step: seq<MarkOp>, tag: Tag)
    requires |step| <= 1
    ensures CountTag(step, tag) <= 1
  {
    if |step| == 1 {
      assert step[..0] == [];
    }
  }

  // ---------------------------------------------------------------------
  // filter_low_quality

  function BrightnessKeys(recs: seq<FrameInfo>): (key: seq<real>)
    ensures |key| == |recs|
  {
    seq(|recs|, p requires 0 <= p < |recs| => recs[p].brightness)
  }

  function SharpnessKeys(recs: seq<FrameInfo>): (key: seq<real>)
    ensures |key| == |recs|
  {
    seq(|recs|, p requires 0 <= p < |recs| => recs[p].sharpness)
  }

  /** `key=lambda item: -item["uniformity"]`: most uniform first. */
  function UniformityKeys(recs: seq<FrameInfo>): (key: seq<real>)
    ensures |key| == |recs|
  {
    seq(|recs|, p requires 0 <= p < |recs| => -recs[p].uniformity)
  }

  function IsDark(recs: seq<FrameInfo>): (hit: seq<bool>)
    ensures |hit| == |recs|
    ensures forall p :: 0 <= p < |recs| ==> (hit[p] <==> recs[p].brightness < DarkThreshold)
  {
    seq(|recs|, p requires 0 <= p < |recs| => recs[p].brightness < DarkThreshold)
  }

  function IsBlurred(recs: seq<FrameInfo>): (hit: seq<bool>)
    ensures |hit| == |recs|
    ensures forall p :: 0 <= p < |recs| ==> (hit[p] <==> recs[p].sharpness < BlurThreshold)
  {
    seq(|recs|, p requires 0 <= p < |recs| => recs[p].sharpness < BlurThreshold)
  }

  function IsUniform(recs: seq<FrameInfo>): (hit: seq<bool>)
    ensures |hit| == |recs|
    ensures forall p :: 0 <= p < |recs| ==> (hit[p] <==> recs[p].uniformity > UniformThreshold)
  {
    seq(|recs|, p requires 0 <= p < |recs| => recs[p].uniformity > UniformThreshold)
  }

  /** The three rankings, built before the loop runs. */
  datatype Rankings = Rankings(byBrightness: seq<int>, bySharpness: seq<int>, byUniformity: seq<int>)

  predicate WellRanked(r: Rankings, n: nat)
  {
    && |r.byBrightness| == n && (forall k :: 0 <= k < n ==> 0 <= r.byBrightness[k] < n)
    && |r.bySharpness| == n && (forall k :: 0 <= k < n ==> 0 <= r.bySharpness[k] < n)
    && |r.byUniformity| == n && (forall k :: 0 <= k < n ==> 0 <= r.byUniformity[k] < n)
  }

  /** `sorted(info_list, key=...)` for the three keys. */
  function LowQualityRankings(recs: seq<FrameInfo>): (r: Rankings)
    ensures WellRanked(r, |recs|)
  {
    var r := Rankings(ArgSort(BrightnessKeys(recs)), ArgSort(SharpnessKeys(recs)), ArgSort(UniformityKeys(recs)));
    r
  }

  /** The marks of loop iteration i: DARK, then BLUR, then UNIFORM. */
  function LowQualityStep(recs: seq<FrameInfo>, r: Rankings, i: nat): (ms: seq<MarkOp>)
    requires WellRanked(r, |recs|) && i < |recs|
  {
    RankedStep(r.byBrightness, IsDark(recs), Dark, i)
      + RankedStep(r.bySharpness, IsBlurred(recs), Blur, i)
      + RankedStep(r.byUniformity, IsUniform(recs), Uniform, i)
  }

  function LowQualityMarksUpTo(recs: seq<FrameInfo>, r: Rankings, i: nat): (ms: seq<MarkOp>)
    requires WellRanked(r, |recs|) && i <= |recs|
  {
    if i == 0 then [] else LowQualityMarksUpTo(recs, r, i - 1) + LowQualityStep(recs, r, i - 1)
  }

  /** All marks `filter_low_quality` makes, in the order it makes them. */
  function LowQualityMarks(recs: seq<FrameInfo>): (ms: seq<MarkOp>)
  {
    LowQualityMarksUpTo(recs, LowQualityRankings(recs), QualityQuota(|recs|))
  }

  /** The interleaved loop makes, per tag, exactly the marks of one ranked pass. */
  lemma LowQualitySplit(recs: seq<FrameInfo>, r: Rankings, i: nat, m: MarkOp)
    requires WellRanked(r, |recs|) && i <= |recs|
    ensures m in LowQualityMarksUpTo(recs, r, i) <==>
        m in RankedMarks(r.byBrightness, IsDark(recs), Dark, i) ||
        m in RankedMarks(r.bySharpness, IsBlurred(recs), Blur, i) ||
        m in RankedMarks(r.byUniformity, IsUniform(recs), Uniform, i)
  {
    LowQualityPasses(recs, r);
    LowQualityIsMerged(recs, r, i);
    MergedSplit(r.byBrightness, IsDark(recs), r.bySharpness, IsBlurred(recs), r.byUniformity, IsUniform(recs), i, m);
  }

  /** The marks of the first i iterations of a loop that runs three ranked
      passes side by side, one step of each per iteration. */
  function Merged(oa: seq<int>, ha: seq<bool>, ob: seq<int>, hb: seq<bool>, oc: seq<int>, hc: seq<bool>, i: nat): seq<MarkOp>
    requires RankingOf(oa, ha) && RankingOf(ob, hb) && RankingOf(oc, hc)
    requires i <= |oa| && i <= |ob| && i <= |oc|
  {
    if i == 0 then []
    else
      var steps := RankedStep(oa, ha, Dark, i - 1) + RankedStep(ob, hb, Blur, i - 1) + RankedStep(oc, hc, Uniform, i - 1);
      Merged(oa, ha, ob, hb, oc, hc, i - 1) + steps
  }

  lemma {:induction false} LowQualityIsMerged(recs: seq<FrameInfo>, r: Rankings, i: nat)
    requires WellRanked(r, |recs|) && i <= |recs|
    requires RankingOf(r.byBrightness, IsDark(recs))
    requires RankingOf(r.bySharpness, IsBlurred(recs))
    requires RankingOf(r.byUniformity, IsUniform(recs))
    ensures LowQualityMarksUpTo(recs, r, i)
      == Merged(r.byBrightness, IsDark(recs), r.bySharpness, IsBlurred(recs), r.byUniformity, IsUniform(recs), i)
  {
    if i > 0 {
      LowQualityIsMerged(recs, r, i - 1);
    }
  }

  /** A mark of the merged loop is a mark of one of the three passes, and
      the other way round. */
  lemma {:induction false} MergedSplit(oa: seq<int>, ha: seq<bool>, ob: seq<int>, hb: seq<bool>, oc: seq<int>, hc: seq<bool>,
                                       i: nat, m: MarkOp)
    requires RankingOf(oa, ha) && RankingOf(ob, hb) && RankingOf(oc, hc)
    requires i <= |oa| && i <= |ob| && i <= |oc|
    ensures m in Merged(oa, ha, ob, hb, oc, hc, i) <==>
      m in RankedMarks(oa, ha, Dark, i) || m in RankedMarks(ob, hb, Blur, i) || m in RankedMarks(oc, hc, Uniform, i)
  {
    if i > 0 {
      MergedSplit(oa, ha, ob, hb, oc, hc, i - 1, m);
      MergeStep(m, Merged(oa, ha, ob, hb, oc, hc, i - 1),
        RankedStep(oa, ha, Dark, i - 1), RankedStep(ob, hb, Blur, i - 1), RankedStep(oc, hc, Uniform, i - 1),
        RankedMarks(oa, ha, Dark, i - 1), RankedMarks(ob, hb, Blur, i - 1), RankedMarks(oc, hc, Uniform, i - 1));
    }
  }

  /** Each ranking orders the frames its test reads. */
  lemma LowQualityPasses(recs: seq<FrameInfo>, r: Rankings)
    requires WellRanked(r, |recs|)
    ensures RankingOf(r.byBrightness, IsDark(recs))
    ensures RankingOf(r.bySharpness, IsBlurred(recs))
    ensures RankingOf(r.byUniformity, IsUniform(recs))
  {
  }

  /** Membership in one interleaved step against membership in the three
      separate passes. */
  lemma MergeStep(m: MarkOp, prev: seq<MarkOp>, a: seq<MarkOp>, b: seq<MarkOp>, c: seq<MarkOp>,
                  pa: seq<MarkOp>, pb: seq<MarkOp>, pc: seq<MarkOp>)
    requires m in prev <==> m in pa || m in pb || m in pc
    ensures m in prev + a + b + c <==> m in pa + a || m in pb + b || m in pc + c
  {
  }

  /** One iteration adds at most one mark of each reason. */
  lemma LowQualityStepCount(recs: seq<FrameInfo>, r: Rankings, i: nat, t: Tag)
    requires WellRanked(r, |recs|) && i < |recs|
    ensures CountTag(LowQualityStep(recs, r, i), t) <= 1
  {
    var a := RankedStep(r.byBrightness, IsDark(recs), Dark, i);
    var b := RankedStep(r.bySharpness, IsBlurred(recs), Blur, i);
    var c := RankedStep(r.byUniformity, IsUniform(recs), Uniform, i);
    RankedStepShape(r.byBrightness, IsDark(recs), Dark, i);
    RankedStepShape(r.bySharpness, IsBlurred(recs), Blur, i);
    RankedStepShape(r.byUniformity, IsUniform(recs), Uniform, i);
    ThreeStepsCount(a, b, c, t);
  }

  lemma RankedStepShape(ord: seq<int>, hit: seq<bool>, tag: Tag, i: nat)
    requires RankingOf(ord, hit) && i < |ord|
    ensures var ms := RankedStep(ord, hit, tag, i); |ms| <= 1 && forall k :: 0 <= k < |ms| ==> ms[k].tag == tag
  {
  }

  lemma ThreeStepsCount(a: seq<MarkOp>, b: seq<MarkOp>, c: seq<MarkOp>, t: Tag)
    requires |a| <= 1 && forall k :: 0 <= k < |a| ==> a[k].tag == Dark
    requires |b| <= 1 && forall k :: 0 <= k < |b| ==> b[k].tag == Blur
    requires |c| <= 1 && forall k :: 0 <= k < |c| ==> c[k].tag == Uniform
    ensures CountTag(a + b + c, t) <= 1
  {
    CountTagConcat(a + b, c, t);
    CountTagConcat(a, b, t);
    OneTagCount(a, Dark, t);
    OneTagCount(b, Blur, t);
    OneTagCount(c, Uniform, t);
  }

  lemma OneTagCount(step: seq<MarkOp>, tag: Tag, t: Tag)
    requires |step| <= 1 && forall k :: 0 <= k < |step| ==> step[k].tag == tag
    ensures CountTag(step, t) == if |step| == 1 && t == tag then 1 else 0
  {
    if |step| == 1 {
      assert step[..0] == [];
    }
  }

  lemma {:induction false} LowQualityCount(recs: seq<FrameInfo>, r: Rankings, i: nat, t: Tag)
    requires WellRanked(r, |recs|) && i <= |recs|
    ensures CountTag(LowQualityMarksUpTo(recs, r, i), t) <= i
  {
    if i > 0 {
      LowQualityCount(recs, r, i - 1, t);
      LowQualityStepCount(recs, r, i - 1, t);
      CountTagSnoc(LowQualityMarksUpTo(recs, r, i - 1), LowQualityStep(recs, r, i - 1), t, i - 1, 1);
    }
  }

  lemma CountTagSnoc(prev: seq<MarkOp>, step: seq<MarkOp>, t: Tag, x: nat, y: nat)
    requires CountTag(prev, t) <= x && CountTag(step, t) <= y
    ensures CountTag(prev + step, t) <= x + y
  {
    CountTagConcat(prev, step, t);
  }

  /** What `filter_low_quality` promises: a frame is marked DARK exactly when
      it is among the int(0.15 n) darkest and darker than 0.075 (likewise BLUR
      for sharpness below 0.08 and UNIFORM for uniformity above 0.8); so at
      most int(0.15 n) frames get each reason, and no other reason is added. */
  lemma LowQualityEffect(recs: seq<FrameInfo>, p: int)
    requires 0 <= p < |recs|
    ensures var ms := LowQualityMarks(recs); var k := QualityQuota(|recs|);
      var r := LowQualityRankings(recs);
      && (Dark in TagsFor(ms, p) <==> recs[p].brightness < DarkThreshold && p in r.byBrightness[..k])
      && (Blur in TagsFor(ms, p) <==> recs[p].sharpness < BlurThreshold && p in r.bySharpness[..k])
      && (Uniform in TagsFor(ms, p) <==> recs[p].uniformity > UniformThreshold && p in r.byUniformity[..k])
      && (forall t :: t in TagsFor(ms, p) ==> t == Dark || t == Blur || t == Uniform)
      && NumTagged(ms, Dark, |recs|) <= k
      && NumTagged(ms, Blur, |recs|) <= k
      && NumTagged(ms, Uniform, |recs|) <= k
  {
    LowQualityTagsAt(recs, p);
    LowQualityQuotaKept(recs);
  }

  /** The tags frame p receives from `filter_low_quality`. */
  lemma LowQualityTagsAt(recs: seq<FrameInfo>, p: int)
    requires 0 <= p < |recs|
    ensures var ms := LowQualityMarks(recs); var k := QualityQuota(|recs|);
      var r := LowQualityRankings(recs);
      && (Dark in TagsFor(ms, p) <==> recs[p].brightness < DarkThreshold && p in r.byBrightness[..k])
      && (Blur in TagsFor(ms, p) <==> recs[p].sharpness < BlurThreshold && p in r.bySharpness[..k])
      && (Uniform in TagsFor(ms, p) <==> recs[p].uniformity > UniformThreshold && p in r.byUniformity[..k])
      && (forall t :: t in TagsFor(ms, p) ==> t == Dark || t == Blur || t == Uniform)
  {
    var ms := LowQualityMarks(recs);
    var k := QualityQuota(|recs|);
    var r := LowQualityRankings(recs);
    forall t: Tag
      ensures t in TagsFor(ms, p) <==>
        || (t == Dark && IsDark(recs)[p] && p in r.byBrightness[..k])
        || (t == Blur && IsBlurred(recs)[p] && p in r.bySharpness[..k])
        || (t == Uniform && IsUniform(recs)[p] && p in r.byUniformity[..k])
    {
      TagsForIff(ms, p, t);
      LowQualityMarkAt(recs, p, t);
    }
  }

  /** Frame p gets tag t exactly when one of the three passes gives it. */
  lemma LowQualityMarkAt(recs: seq<FrameInfo>, p: int, t: Tag)
    requires 0 <= p < |recs|
    ensures var ms := LowQualityMarks(recs); var k := QualityQuota(|recs|);
      var r := LowQualityRankings(recs);
      MarkOp(p, t) in ms <==>
        || (t == Dark && IsDark(recs)[p] && p in r.byBrightness[..k])
        || (t == Blur && IsBlurred(recs)[p] && p in r.bySharpness[..k])
        || (t == Uniform && IsUniform(recs)[p] && p in r.byUniformity[..k])
  {
    var k := QualityQuota(|recs|);
    var r := LowQualityRankings(recs);
    var m := MarkOp(p, t);
    LowQualitySplit(recs, r, k, m);
    RankedMarksMeaning(r.byBrightness, IsDark(recs), Dark, k, m);
    RankedMarksMeaning(r.bySharpness, IsBlurred(recs), Blur, k, m);
    RankedMarksMeaning(r.byUniformity, IsUniform(recs), Uniform, k, m);
  }

  /** No reason marks more than the quota of frames. */
  lemma LowQualityQuotaKept(recs: seq<FrameInfo>)
    ensures var ms := LowQualityMarks(recs); var k := QualityQuota(|recs|);
      && NumTagged(ms, Dark, |recs|) <= k
      && NumTagged(ms, Blur, |recs|) <= k
      && NumTagged(ms, Uniform, |recs|) <= k
  {
    var ms := LowQualityMarks(recs);
    var k := QualityQuota(|recs|);
    var r := LowQualityRankings(recs);
    LowQualityCount(recs, r, k, Dark);
    LowQualityCount(recs, r, k, Blur);
    LowQualityCount(recs, r, k, Uniform);
    NumTaggedBound(ms, Dark, |recs|);
    NumTaggedBound(ms, Blur, |recs|);
    NumTaggedBound(ms, Uniform, |recs|);
  }

  /** `filter_low_quality(info_list)`: mutates the shared records in place. */
  method FilterLowQuality(info: array<FrameInfo>)
    modifies info
    ensures info[..] == ApplyMarks(old(info[..]), LowQualityMarks(old(info[..])))
  {
    ghost var recs := info[..];
    var r := LowQualityRankings(info[..]);
    var k := QualityQuota(info.Length);
    assert LowQualityDone(info[..], recs, r, 0);
    LowQualityLoop(info, recs, r, k);
  }

  /** `for i in range(int(len(info_list) * max_filter_percentage))`. */
  method LowQualityLoop(info: array<FrameInfo>, ghost recs: seq<FrameInfo>, r: Rankings, k: nat)
    requires WellRanked(r, |recs|) && k <= |recs| == info.Length
    requires LowQualityDone(info[..], recs, r, 0)
    modifies info
    ensures LowQualityDone(info[..], recs, r, k)
  {
    var i := 0;
    while i < k
      invariant 0 <= i <= k && info.Length == |recs|
      invariant LowQualityDone(info[..], recs, r, i)
    {
      LowQualityIteration(info, recs, r, i);
      i := i + 1;
    }
  }

  /** The records after the first i iterations of the loop. */
  predicate LowQualityDone(cur: seq<FrameInfo>, recs: seq<FrameInfo>, r: Rankings, i: nat)
    requires WellRanked(r, |recs|) && i <= |recs|
  {
    cur == ApplyMarks(recs, LowQualityMarksUpTo(recs, r, i))
  }

  /** One iteration of the loop of `filter_low_quality`. */
  method LowQualityIteration(info: array<FrameInfo>, ghost recs: seq<FrameInfo>, r: Rankings, i: nat)
    requires WellRanked(r, |recs|) && i < |recs| == info.Length
    requires LowQualityDone(info[..], recs, r, i)
    modifies info
    ensures LowQualityDone(info[..], recs, r, i + 1)
  {
    ghost var done := LowQualityMarksUpTo(recs, r, i);
    var b := r.byBrightness[i];
    ApplyMarksAt(recs, done, b);
    MarkWhen(info, info[b].brightness < DarkThreshold, r.byBrightness, IsDark(recs), Dark, i, recs, done);
    ghost var done1 := done + RankedStep(r.byBrightness, IsDark(recs), Dark, i);
    var s := r.bySharpness[i];
    ApplyMarksAt(recs, done1, s);
    MarkWhen(info, info[s].sharpness < BlurThreshold, r.bySharpness, IsBlurred(recs), Blur, i, recs, done1);
    ghost var done2 := done1 + RankedStep(r.bySharpness, IsBlurred(recs), Blur, i);
    var u := r.byUniformity[i];
    ApplyMarksAt(recs, done2, u);
    MarkWhen(info, info[u].uniformity > UniformThreshold, r.byUniformity, IsUniform(recs), Uniform, i, recs, done2);
    LowQualityUnfold(recs, r, i);
  }

  lemma LowQualityUnfold(recs: seq<FrameInfo>, r: Rankings, i: nat)
    requires WellRanked(r, |recs|) && i < |recs|
    ensures LowQualityMarksUpTo(recs, r, i + 1) ==
      LowQualityMarksUpTo(recs, r, i)
      + RankedStep(r.byBrightness, IsDark(recs), Dark, i)
      + RankedStep(r.bySharpness, IsBlurred(recs), Blur, i)
      + RankedStep(r.byUniformity, IsUniform(recs), Uniform, i)
  {
  }

  /** `if <ord[i] crosses the threshold>: mark ord[i] with tag`. */
  method MarkWhen(info: array<FrameInfo>, cond: bool, ord: seq<int>, ghost hit: seq<bool>, tag: Tag, i: nat,
                  ghost recs: seq<FrameInfo>, ghost done: seq<MarkOp>)
    requires RankingOf(ord, hit) && i < |ord| && |hit| == |recs| == info.Length
    requires cond == hit[ord[i]]
    requires info[..] == ApplyMarks(recs, done)
    modifies info
    ensures info[..] == ApplyMarks(recs, done + RankedStep(ord, hit, tag, i))
  {
    if cond {
      MarkFrame(info, MarkOp(ord[i], tag));
      assert (done + [MarkOp(ord[i], tag)])[..|done|] == done;
    } else {
      assert done + [] == done;
    }
  }

  // ---------------------------------------------------------------------
  // filter_transition: the shape of v_diff and the CUT / ECR flagging

  /** `v_diff` of `filter_transition`: 0 for the first and last frame, and for
      every interior frame i the mean of the norms of its two neighbouring
      frame differences over the frame area. stepNorm[i] stands for
      `cv.norm(frame_list[i + 1] - frame_list[i])`, computed by OpenCV. */
  function DiffSignal(stepNorm: seq<real>, area: nat): (v: seq<real>)
    requires area > 0
    ensures |v| == (if |stepNorm| >= 1 then |stepNorm| + 1 else 2)
    ensures v[0] == 0.0 && v[|v| - 1] == 0.0
  {
    var interior := if |stepNorm| >= 1 then |stepNorm| - 1 else 0;
    [0.0] + seq(interior, j requires 0 <= j < interior => (stepNorm[j] + stepNorm[j + 1]) / (2.0 * area as real)) + [0.0]
  }

  predicate IdsBelow(recs: seq<FrameInfo>, m: int)
  {
    forall p :: 0 <= p < |recs| ==> 0 <= recs[p].id < m
  }

  /** `key=lambda item: -v_diff[item["id"]]`: largest difference first. */
  function CutKeys(recs: seq<FrameInfo>, diff: seq<real>): (key: seq<real>)
    requires IdsBelow(recs, |diff|)
    ensures |key| == |recs|
  {
    seq(|recs|, p requires 0 <= p < |recs| => -diff[recs[p].id])
  }

  /** `key=lambda item: v_ecr[item["id"]]`: smallest ratio first. */
  function EcrKeys(recs: seq<FrameInfo>, ecr: seq<real>): (key: seq<real>)
    requires IdsBelow(recs, |ecr|)
    ensures |key| == |recs|
  {
    seq(|recs|, p requires 0 <= p < |recs| => ecr[recs[p].id])
  }

  function IsCut(recs: seq<FrameInfo>, diff: seq<real>): (hit: seq<bool>)
    requires IdsBelow(recs, |diff|)
    ensures |hit| == |recs|
    ensures forall p :: 0 <= p < |recs| ==> (hit[p] <==> diff[recs[p].id] >= CutThreshold)
  {
    seq(|recs|, p requires 0 <= p < |recs| => diff[recs[p].id] >= CutThreshold)
  }

  function IsTransition(recs: seq<FrameInfo>, ecr: seq<real>): (hit: seq<bool>)
    requires IdsBelow(recs, |ecr|)
    ensures |hit| == |recs|
    ensures forall p :: 0 <= p < |recs| ==> (hit[p] <==> ecr[recs[p].id] >= EcrThreshold)
  {
    seq(|recs|, p requires 0 <= p < |recs| => ecr[recs[p].id] >= EcrThreshold)
  }

  function CutRanking(recs: seq<FrameInfo>, diff: seq<real>): (ord: seq<int>)
    requires IdsBelow(recs, |diff|)
    ensures RankingOf(ord, IsCut(recs, diff))
  {
    ArgSort(CutKeys(recs, diff))
  }

  function EcrRanking(recs: seq<FrameInfo>, ecr: seq<real>): (ord: seq<int>)
    requires IdsBelow(recs, |ecr|)
    ensures RankingOf(ord, IsTransition(recs, ecr))
  {
    ArgSort(EcrKeys(recs, ecr))
  }

  /** The CUT marks, then the ECR marks, that `filter_transition` makes. */
  function TransitionMarks(recs: seq<FrameInfo>, diff: seq<real>, ecr: seq<real>): (ms: seq<MarkOp>)
    requires IdsBelow(recs, |diff|) && IdsBelow(recs, |ecr|)
  {
    var q := TransitionQuota(|recs|);
    RankedMarks(CutRanking(recs, diff), IsCut(recs, diff), Cut, q)
      + RankedMarks(EcrRanking(recs, ecr), IsTransition(recs, ecr), Ecr, q)
  }

  /** What the flagging of `filter_transition` promises: a frame is marked
      CUT exactly when it is among the int(0.1 n) frames of largest v_diff
      and its v_diff is at least 0.5; it is marked ECR exactly when it is
      among the int(0.1 n) frames of smallest v_ecr and its v_ecr is at
      least threshold[1]; each reason goes to at most int(0.1 n) frames. */
  lemma TransitionEffect(recs: seq<FrameInfo>, diff: seq<real>, ecr: seq<real>, p: int)
    requires IdsBelow(recs, |diff|) && IdsBelow(recs, |ecr|) && 0 <= p < |recs|
    ensures var ms := TransitionMarks(recs, diff, ecr); var q := TransitionQuota(|recs|);
      && (Cut in TagsFor(ms, p) <==> diff[recs[p].id] >= CutThreshold && p in CutRanking(recs, diff)[..q])
      && (Ecr in TagsFor(ms, p) <==> ecr[recs[p].id] >= EcrThreshold && p in EcrRanking(recs, ecr)[..q])
      && (forall t :: t in TagsFor(ms, p) ==> t == Cut || t == Ecr)
      && NumTagged(ms, Cut, |recs|) <= q
      && NumTagged(ms, Ecr, |recs|) <= q
  {
    var ms := TransitionMarks(recs, diff, ecr);
    var q := TransitionQuota(|recs|);
    var co, eo := CutRanking(recs, diff), EcrRanking(recs, ecr);
    var a := RankedMarks(co, IsCut(recs, diff), Cut, q);
    var b := RankedMarks(eo, IsTransition(recs, ecr), Ecr, q);
    forall t: Tag
      ensures t in TagsFor(ms, p) <==> MarkOp(p, t) in a || MarkOp(p, t) in b
      ensures MarkOp(p, t) in a <==> t == Cut && IsCut(recs, diff)[p] && p in co[..q]
      ensures MarkOp(p, t) in b <==> t == Ecr && IsTransition(recs, ecr)[p] && p in eo[..q]
    {
      TagsForIff(ms, p, t);
      RankedMarksMeaning(co, IsCut(recs, diff), Cut, q, MarkOp(p, t));
      RankedMarksMeaning(eo, IsTransition(recs, ecr), Ecr, q, MarkOp(p, t));
    }
    RankedMarksCount(co, IsCut(recs, diff), Cut, q);
    RankedMarksCount(eo, IsTransition(recs, ecr), Ecr, q);
    OnlyTagCount(a, Ecr, Cut, q, co, IsCut(recs, diff));
    OnlyTagCount(b, Cut, Ecr, q, eo, IsTransition(recs, ecr));
    CountTagConcat(a, b, Cut);
    CountTagConcat(a, b, Ecr);
    NumTaggedBound(ms, Cut, |recs|);
    NumTaggedBound(ms, Ecr, |recs|);
  }

  /** A pass with one tag makes no marks of another tag. */
  lemma {:induction false} OnlyTagCount(ms: seq<MarkOp>, t: Tag, tag: Tag, i: nat, ord: seq<int>, hit: seq<bool>)
    requires RankingOf(ord, hit) && i <= |ord| && ms == RankedMarks(ord, hit, tag, i) && t != tag
    ensures CountTag(ms, t) == 0
    decreases i
  {
    if i > 0 {
      var prev := RankedMarks(ord, hit, tag, i - 1);
      OnlyTagCount(prev, t, tag, i - 1, ord, hit);
      var step := RankedStep(ord, hit, tag, i - 1);
      CountTagConcat(prev, step, t);
      OneTagCount(step, tag, t);
    }
  }

  /** For a video of at least two frames whose ids are their positions,
      the first and the last frame are never marked CUT: their v_diff is 0. */
  lemma EndsNeverCut(recs: seq<FrameInfo>, stepNorm: seq<real>, area: nat, ecr: seq<real>)
    requires area > 0 && |recs| >= 2 && |stepNorm| == |recs| - 1
    requires forall p :: 0 <= p < |recs| ==> recs[p].id == p
    requires IdsBelow(recs, |ecr|)
    ensures var ms := TransitionMarks(recs, DiffSignal(stepNorm, area), ecr);
      Cut !in TagsFor(ms, 0) && Cut !in TagsFor(ms, |recs| - 1)
  {
    var diff := DiffSignal(stepNorm, area);
    TransitionEffect(recs, diff, ecr, 0);
    TransitionEffect(recs, diff, ecr, |recs| - 1);
  }

  /** What `filter_transition` returns: the two signals, or the IndexError
      that `frame_list[0]` raises on an empty video. */
  datatype TransitionResult = Signals(diff: seq<real>, ecr: seq<real>) | EmptyVideo

  /** The flagging part of `filter_transition(info_list, frame_list)`. The
      pixel work is given: stepNorm[i] is the norm of frame i+1 minus frame
      i, area the pixel count of frame 0, and ecr the edge change ratios. */
  method FilterTransition(info: array<FrameInfo>, stepNorm: seq<real>, area: nat, ecr: seq<real>)
    returns (res: TransitionResult)
    requires info.Length >= 1 ==> area > 0 && |stepNorm| == info.Length - 1
    requires |ecr| == info.Length && IdsBelow(info[..], info.Length)
    modifies info
    ensures info.Length == 0 ==> res == EmptyVideo && info[..] == old(info[..])
    ensures info.Length >= 1 ==>
      && res == Signals(DiffSignal(stepNorm, area), ecr)
      && info[..] == ApplyMarks(old(info[..]), TransitionMarks(old(info[..]), res.diff, ecr))
  {
    var n := info.Length;
    if n == 0 {
      return EmptyVideo;
    }
    var vDiff := DiffOf(stepNorm, area, n);
    ghost var recs := info[..];
    var q := TransitionQuota(n);
    // CUT detection
    var sortedCut := CutRanking(info[..], vDiff);
    ThresholdPass(info, vDiff, CutThreshold, sortedCut, q, Cut, IsCut(recs, vDiff), recs);
    ghost var cutMarks := RankedMarks(sortedCut, IsCut(recs, vDiff), Cut, q);
    // TRANSITION detection
    ghost var afterCut := info[..];
    ApplyMarksAll(recs, cutMarks);
    assert EcrKeys(afterCut, ecr) == EcrKeys(recs, ecr);
    var sortedTransition := EcrRanking(info[..], ecr);
    ThresholdPass(info, ecr, EcrThreshold, sortedTransition, q, Ecr, IsTransition(recs, ecr), afterCut);
    ApplyMarksConcat(recs, cutMarks, RankedMarks(sortedTransition, IsTransition(recs, ecr), Ecr, q));
    res := Signals(vDiff, ecr);
  }

  /** The loop that builds `v_diff`. */
  method DiffOf(stepNorm: seq<real>, area: nat, n: nat) returns (vDiff: seq<real>)
    requires n >= 1 && area > 0 && |stepNorm| == n - 1
    ensures vDiff == DiffSignal(stepNorm, area)
  {
    var imgSize := area;
    vDiff := [0.0];
    var i := 1;
    while i < n - 1
      invariant 1 <= i <= (if n >= 2 then n - 1 else 1)
      invariant vDiff == [0.0] + seq(i - 1, j requires 0 <= j < i - 1 => (stepNorm[j] + stepNorm[j + 1]) / (2.0 * imgSize as real))
    {
      vDiff := vDiff + [(stepNorm[i - 1] + stepNorm[i]) / (2.0 * imgSize as real)];
      i := i + 1;
    }
    vDiff := vDiff + [0.0];
  }

  /** One flagging loop of `filter_transition`: for the first q frames of
      the ranking, mark the frame with `tag` when its value reaches the
      threshold. Both the CUT loop (v_diff, threshold[0]) and the ECR loop
      (v_ecr, threshold[1]) have this shape. */
  method ThresholdPass(info: array<FrameInfo>, vals: seq<real>, threshold: real, ord: seq<int>, q: nat, tag: Tag,
                       ghost hit: seq<bool>, ghost start: seq<FrameInfo>)
    requires start == info[..] && |hit| == |start| && RankingOf(ord, hit) && q <= |ord|
    requires forall p :: 0 <= p < |start| ==> 0 <= start[p].id < |vals| && (hit[p] <==> vals[start[p].id] >= threshold)
    modifies info
    ensures info[..] == ApplyMarks(start, RankedMarks(ord, hit, tag, q))
  {
    var i := 0;
    while i < q
      invariant 0 <= i <= q
      invariant info[..] == ApplyMarks(start, RankedMarks(ord, hit, tag, i))
    {
      ThresholdIteration(info, vals, threshold, ord, i, tag, hit, start);
      i := i + 1;
    }
  }

  method ThresholdIteration(info: array<FrameInfo>, vals: seq<real>, threshold: real, ord: seq<int>, i: nat, tag: Tag,
                            ghost hit: seq<bool>, ghost start: seq<FrameInfo>)
    requires |hit| == |start| == info.Length && RankingOf(ord, hit) && i < |ord|
    requires forall p :: 0 <= p < |start| ==> 0 <= start[p].id < |vals| && (hit[p] <==> vals[start[p].id] >= threshold)
    requires info[..] == ApplyMarks(start, RankedMarks(ord, hit, tag, i))
    modifies info
    ensures info[..] == ApplyMarks(start, RankedMarks(ord, hit, tag, i + 1))
  {
    ghost var done := RankedMarks(ord, hit, tag, i);
    var c := ord[i];
    ApplyMarksAt(start, done, c);
    MarkWhen(info, vals[info[c].id] >= threshold, ord, hit, tag, i, start, done);
    RankedMarksUnfold(ord, hit, tag, i);
  }

  lemma RankedMarksUnfold(ord: seq<int>, hit: seq<bool>, tag: Tag, i: nat)
    requires RankingOf(ord, hit) && i < |ord|
    ensures RankedMarks(ord, hit, tag, i + 1) == RankedMarks(ord, hit, tag, i) + RankedStep(ord, hit, tag, i)
  {
  }
}

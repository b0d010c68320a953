/** The per-frame records of video_parser.py (the `info_list` dicts) and the
    one way every filtering stage changes them: a frame is marked invalid
    and a reason is appended to its flag. A stage is therefore described by
    the list of marks it makes, applied in order. */
module Frames {

  /** The reasons a stage appends to a frame's `flag` string. */
  datatype Tag = Dark | Blur | Uniform | Cut | Ecr | Gfl | Short

  /** The text the source appends for each reason. */
  function TagText(t: Tag): (s: string)
    ensures |s| > 0 && s[|s| - 1] == ' '
  {
    match t
    case Dark => "DARK "
    case Blur => "BLUR "
    case Uniform => "UNIFORM "
    case Cut => "CUT "
    case Ecr => "ECR "
    case Gfl => "[GFL] "
    case Short => "SHORT "
  }

  /** The `flag` string of a record whose reasons are tags. */
  function FlagText(tags: seq<Tag>): string
  {
    if |tags| == 0 then "" else FlagText(tags[..|tags| - 1]) + TagText(tags[|tags| - 1])
  }

  /** Appending a reason to the tag list appends its text to the flag string. */
  lemma {:induction false} FlagTextAppend(a: seq<Tag>, b: seq<Tag>)
    ensures FlagText(a + b) == FlagText(a) + FlagText(b)
    decreases |b|
  {
    if |b| == 0 {
      assert a + b == a;
    } else {
      var b', x := b[..|b| - 1], b[|b| - 1];
      assert (a + b)[..|a + b| - 1] == a + b';
      assert (a + b)[|a + b| - 1] == x;
      FlagTextAppend(a, b');
      calc {
        FlagText(a + b);
        FlagText(a + b') + TagText(x);
        (FlagText(a) + FlagText(b')) + TagText(x);
        FlagText(a) + (FlagText(b') + TagText(x));
        FlagText(a) + FlagText(b);
      }
    }
  }

  /** The metrics that OpenCV computes for one frame (given inputs here). */
  datatype Metrics = Metrics(brightness: real, sharpness: real, uniformity: real)

  /** `{"id", "brightness", "sharpness", "uniformity", "valid", "flag"}`. */
  datatype FrameInfo = FrameInfo(
    id: int,
    brightness: real,
    sharpness: real,
    uniformity: real,
    valid: bool,
    flag: seq<Tag>)

  /** The record `parse_frame_info` builds for frame idx. */
  function InitialInfo(idx: int, m: Metrics): FrameInfo
  {
    FrameInfo(idx, m.brightness, m.sharpness, m.uniformity, true, [])
  }

  /** The fields no filtering stage may touch. */
  predicate SameIdentity(a: FrameInfo, b: FrameInfo)
  {
    a.id == b.id && a.brightness == b.brightness &&
    a.sharpness == b.sharpness && a.uniformity == b.uniformity
  }

  /** A record is consistent when it is invalid exactly if it carries a reason. */
  predicate Consistent(r: FrameInfo)
  {
    r.valid <==> r.flag == []
  }

  predicate AllConsistent(recs: seq<FrameInfo>)
  {
    forall p :: 0 <= p < |recs| ==> Consistent(recs[p])
  }

  /** The validity column of the records. */
  function Validity(recs: seq<FrameInfo>): (v: seq<bool>)
    ensures |v| == |recs|
    ensures forall p :: 0 <= p < |recs| ==> v[p] == recs[p].valid
  {
    seq(|recs|, p requires 0 <= p < |recs| => recs[p].valid)
  }

  /** One mark: `info_list[frame]["valid"] = False; ...["flag"] += TagText(tag)`. */
  datatype MarkOp = MarkOp(frame: int, tag: Tag)

  /** The records after one mark. Every stage marks only frames of the list
      (its loops index the list), so the case of a mark naming no record,
      which leaves the list as it is, never arises from a stage. */
  function Mark(recs: seq<FrameInfo>, m: MarkOp): (r: seq<FrameInfo>)
    ensures |r| == |recs|
    ensures 0 <= m.frame < |recs| ==>
      && !r[m.frame].valid
      && r[m.frame].flag == recs[m.frame].flag + [m.tag]
      && SameIdentity(recs[m.frame], r[m.frame])
  {
    if 0 <= m.frame < |recs| then
      recs[m.frame := recs[m.frame].(valid := false, flag := recs[m.frame].flag + [m.tag])]
    else recs
  }

  /** A mark leaves every other record as it was. */
  lemma MarkElsewhere(recs: seq<FrameInfo>, m: MarkOp, p: int)
    requires 0 <= p < |recs| && p != m.frame
    ensures Mark(recs, m)[p] == recs[p]
  {
  }

  /** The records after the marks ms are made, first to last. */
  function ApplyMarks(recs: seq<FrameInfo>, ms: seq<MarkOp>): (r: seq<FrameInfo>)
    ensures |r| == |recs|
  {
    if |ms| == 0 then recs
    else Mark(ApplyMarks(recs, ms[..|ms| - 1]), ms[|ms| - 1])
  }

  /** The tags that the marks ms make on frame p, in order. */
  function TagsFor(ms: seq<MarkOp>, p: int): seq<Tag>
  {
    if |ms| == 0 then []
    else
      var last := ms[|ms| - 1];
      TagsFor(ms[..|ms| - 1], p) + (if last.frame == p then [last.tag] else [])
  }

  /** What a sequence of marks does to one frame: it keeps its identity and
      metrics, it loses validity exactly when some mark hits it, and its
      flag grows by the hitting marks' tags in order. */
  lemma {:induction false} ApplyMarksAt(recs: seq<FrameInfo>, ms: seq<MarkOp>, p: int)
    requires 0 <= p < |recs|
    ensures SameIdentity(recs[p], ApplyMarks(recs, ms)[p])
    ensures ApplyMarks(recs, ms)[p].valid == (recs[p].valid && TagsFor(ms, p) == [])
    ensures ApplyMarks(recs, ms)[p].flag == recs[p].flag + TagsFor(ms, p)
  {
    if |ms| > 0 {
      ApplyMarksAt(recs, ms[..|ms| - 1], p);
    }
  }

  lemma ApplyMarksAll(recs: seq<FrameInfo>, ms: seq<MarkOp>)
    ensures forall p :: 0 <= p < |recs| ==>
      SameIdentity(recs[p], ApplyMarks(recs, ms)[p]) &&
      ApplyMarks(recs, ms)[p].valid == (recs[p].valid && TagsFor(ms, p) == []) &&
      ApplyMarks(recs, ms)[p].flag == recs[p].flag + TagsFor(ms, p)
  {
    forall p | 0 <= p < |recs| {
      ApplyMarksAt(recs, ms, p);
    }
  }

  /** Marks made in two batches are the marks of the concatenation. */
  lemma {:induction false} ApplyMarksConcat(recs: seq<FrameInfo>, a: seq<MarkOp>, b: seq<MarkOp>)
    ensures ApplyMarks(recs, a + b) == ApplyMarks(ApplyMarks(recs, a), b)
    decreases |b|
  {
    if |b| == 0 {
      assert a + b == a;
    } else {
      assert (a + b)[..|a + b| - 1] == a + b[..|b| - 1];
      ApplyMarksConcat(recs, a, b[..|b| - 1]);
    }
  }

  /** A hit frame received the tag of some mark aimed at it. */
  lemma {:induction false} TagsForFrom(ms: seq<MarkOp>, p: int, t: Tag)
    requires t in TagsFor(ms, p)
    ensures exists k :: 0 <= k < |ms| && ms[k] == MarkOp(p, t)
  {
    var init := ms[..|ms| - 1];
    if t in TagsFor(init, p) {
      TagsForFrom(init, p, t);
      var k :| 0 <= k < |init| && init[k] == MarkOp(p, t);
      assert ms[k] == MarkOp(p, t);
    } else {
      assert ms[|ms| - 1] == MarkOp(p, t);
    }
  }

  /** Every mark aimed at p leaves its tag in p's flag. */
  lemma {:induction false} TagsForTo(ms: seq<MarkOp>, k: int)
    requires 0 <= k < |ms|
    ensures ms[k].tag in TagsFor(ms, ms[k].frame)
  {
    if k < |ms| - 1 {
      TagsForTo(ms[..|ms| - 1], k);
    }
  }

  /** A frame gets no tag exactly when no mark aims at it. */
  lemma {:induction false} TagsForEmpty(ms: seq<MarkOp>, p: int)
    ensures TagsFor(ms, p) == [] <==> forall k :: 0 <= k < |ms| ==> ms[k].frame != p
  {
    if |ms| > 0 {
      TagsForEmpty(ms[..|ms| - 1], p);
      if TagsFor(ms[..|ms| - 1], p) != [] {
        var k :| 0 <= k < |ms| - 1 && ms[..|ms| - 1][k].frame == p;
        assert ms[k].frame == p;
      }
    }
  }

  /** A frame that no mark aims at is left as it was. */
  lemma {:induction false} ApplyMarksElsewhere(recs: seq<FrameInfo>, ms: seq<MarkOp>, p: int)
    requires 0 <= p < |recs|
    requires forall k :: 0 <= k < |ms| ==> ms[k].frame != p
    ensures ApplyMarks(recs, ms)[p] == recs[p]
  {
    if |ms| > 0 {
      ApplyMarksElsewhere(recs, ms[..|ms| - 1], p);
    }
  }

  /** A frame's flag gains tag t exactly when the marks include (frame, t). */
  lemma TagsForIff(ms: seq<MarkOp>, p: int, t: Tag)
    ensures t in TagsFor(ms, p) <==> MarkOp(p, t) in ms
  {
    if t in TagsFor(ms, p) {
      TagsForFrom(ms, p, t);
    }
    if MarkOp(p, t) in ms {
      var k :| 0 <= k < |ms| && ms[k] == MarkOp(p, t);
      TagsForTo(ms, k);
    }
  }

  lemma {:induction false} CountTagConcat(a: seq<MarkOp>, b: seq<MarkOp>, t: Tag)
    ensures CountTag(a + b, t) == CountTag(a, t) + CountTag(b, t)
    decreases |b|
  {
    if |b| == 0 {
      assert a + b == a;
    } else {
      assert (a + b)[..|a + b| - 1] == a + b[..|b| - 1];
      CountTagConcat(a, b[..|b| - 1], t);
    }
  }

  /** The number of marks in ms that carry tag t. */
  function CountTag(ms: seq<MarkOp>, t: Tag): nat
  {
    if |ms| == 0 then 0
    else CountTag(ms[..|ms| - 1], t) + (if ms[|ms| - 1].tag == t then 1 else 0)
  }

  /** The number of frames among 0..n-1 whose flag gained tag t. */
  function NumTagged(ms: seq<MarkOp>, t: Tag, n: int): nat
  {
    if n <= 0 then 0 else NumTagged(ms, t, n - 1) + (if t in TagsFor(ms, n - 1) then 1 else 0)
  }

  /** No more frames gain tag t than there are marks with tag t. */
  lemma {:induction false} NumTaggedBound(ms: seq<MarkOp>, t: Tag, n: int)
    ensures NumTagged(ms, t, n) <= CountTag(ms, t)
  {
    if |ms| == 0 {
      NumTaggedNone(ms, t, n);
    } else {
      NumTaggedBound(ms[..|ms| - 1], t, n);
      NumTaggedStep(ms, t, n);
    }
  }

  lemma {:induction false} NumTaggedNone(ms: seq<MarkOp>, t: Tag, n: int)
    requires ms == []
    ensures NumTagged(ms, t, n) == 0
  {
    if n > 0 {
      NumTaggedNone(ms, t, n - 1);
    }
  }

  /** The last mark adds its tag to at most one frame. */
  lemma {:induction false} NumTaggedStep(ms: seq<MarkOp>, t: Tag, n: int)
    requires ms != []
    ensures NumTagged(ms, t, n) <= NumTagged(ms[..|ms| - 1], t, n) +
      (if ms[|ms| - 1].tag == t && 0 <= ms[|ms| - 1].frame < n then 1 else 0)
  {
    if n > 0 {
      NumTaggedStep(ms, t, n - 1);
    }
  }

  /** Marks never revalidate a frame, never touch identity or metrics, only
      append to flags, and keep records consistent. */
  lemma ApplyMarksMonotone(recs: seq<FrameInfo>, ms: seq<MarkOp>)
    ensures forall p :: 0 <= p < |recs| ==>
      SameIdentity(recs[p], ApplyMarks(recs, ms)[p]) &&
      (ApplyMarks(recs, ms)[p].valid ==> recs[p].valid) &&
      recs[p].flag <= ApplyMarks(recs, ms)[p].flag
    ensures AllConsistent(recs) ==> AllConsistent(ApplyMarks(recs, ms))
  {
    ApplyMarksAll(recs, ms);
    forall p | 0 <= p < |recs|
      ensures recs[p].flag <= ApplyMarks(recs, ms)[p].flag
    {
      assert recs[p].flag <= recs[p].flag + TagsFor(ms, p);
    }
  }

  /** The records of `parse_frame_info`. */
  function Initial(metrics: seq<Metrics>): (recs: seq<FrameInfo>)
    ensures |recs| == |metrics|
    ensures forall p :: 0 <= p < |recs| ==> recs[p] == InitialInfo(p, metrics[p])
  {
    seq(|metrics|, p requires 0 <= p < |metrics| => InitialInfo(p, metrics[p]))
  }

  /** Builds the per-frame records from the per-frame metrics (one record per
      frame, id = index, valid, no reason). */
  method ParseFrameInfo(metrics: seq<Metrics>) returns (info: array<FrameInfo>)
    ensures fresh(info)
    ensures info.Length == |metrics|
    ensures forall p :: 0 <= p < info.Length ==> info[p] == InitialInfo(p, metrics[p])
    ensures info[..] == Initial(metrics)
  {
    info := new FrameInfo[|metrics|](p requires 0 <= p < |metrics| => InitialInfo(p, metrics[p]));
  }

  /** The records `parse_frame_info` produces satisfy the record invariant. */
  lemma InitialConsistent(metrics: seq<Metrics>, recs: seq<FrameInfo>)
    requires |recs| == |metrics|
    requires forall p :: 0 <= p < |recs| ==> recs[p] == InitialInfo(p, metrics[p])
    ensures AllConsistent(recs)
    ensures forall p :: 0 <= p < |recs| ==> recs[p].id == p && recs[p].valid
  {
  }

  /** Makes one mark on the shared records in place. */
  method MarkFrame(info: array<FrameInfo>, m: MarkOp)
    requires 0 <= m.frame < info.Length
    modifies info
    ensures info[..] == Mark(old(info[..]), m)
  {
    info[m.frame] := info[m.frame].(valid := false, flag := info[m.frame].flag + [m.tag]);
  }
}

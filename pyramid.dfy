/** The spatial-pyramid histograms of video_parser.py. At pyramid level l
    an image is cut into a 2^l by 2^l grid of equal patches; a per-patch
    histogram (computed by OpenCV, given here as a function of the patch)
    is written for every patch of every level into one column vector, level
    by level, and within a level column by column, top to bottom. */
module Pyramid {
  import opened Frames

  function Pow2(l: nat): (r: nat)
    ensures r >= 1
  {
    if l == 0 then 1 else 2 * Pow2(l - 1)
  }

  function Pow4(l: nat): (r: nat)
    ensures r >= 1
  {
    if l == 0 then 1 else 4 * Pow4(l - 1)
  }

  /** p blocks of sz entries each take Offset(sz, p) entries. */
  function Offset(sz: nat, p: nat): nat
  {
    if p == 0 then 0 else Offset(sz, p - 1) + sz
  }

  lemma {:induction false} OffsetIsProduct(sz: nat, p: nat)
    ensures Offset(sz, p) == sz * p
  {
    if p > 0 {
      OffsetIsProduct(sz, p - 1);
    }
  }

  lemma {:induction false} OffsetMono(sz: nat, p: nat, n: nat)
    requires p <= n
    ensures Offset(sz, p) <= Offset(sz, n)
    decreases n - p
  {
    if p < n {
      OffsetMono(sz, p, n - 1);
    }
  }

  lemma Quadruple(s: nat)
    ensures (2 * s) * (2 * s) == 4 * (s * s)
  {
  }

  /** A level of the pyramid is a square grid: 4^l == 2^l * 2^l, written
      as 2^l columns of 2^l patches. */
  lemma {:induction false} Pow4Square(l: nat)
    ensures Pow4(l) == Offset(Pow2(l), Pow2(l))
  {
    if l > 0 {
      Pow4Square(l - 1);
      var s := Pow2(l - 1);
      OffsetIsProduct(s, s);
      OffsetIsProduct(2 * s, 2 * s);
      Quadruple(s);
    }
  }

  /** `npatches`: the number of patches of a pyramid with `level` levels,
      one patch at level 0, four at level 1, and so on. */
  function NPatches(level: nat): nat
  {
    if level == 0 then 0 else NPatches(level - 1) + Pow4(level - 1)
  }

  /** The closed form of the patch count: 3 * npatches + 1 == 4^level. */
  lemma {:induction false} NPatchesClosedForm(level: nat)
    ensures 3 * NPatches(level) + 1 == Pow4(level)
  {
    if level > 0 {
      NPatchesClosedForm(level - 1);
    }
  }

  /** `for i in range(level): npatches += 4 ** i`. */
  method CountPatches(level: nat) returns (npatches: nat)
    ensures npatches == NPatches(level)
  {
    npatches := 0;
    for i := 0 to level
      invariant npatches == NPatches(i)
    {
      npatches := npatches + Pow4(i);
    }
  }

  /** `img[y:y + height, x:x + width]`. */
  datatype Rect = Rect(x: int, y: int, width: int, height: int)

  /** Column x of the grid of level l: the patches at rows y = 0, 1, ... */
  function Column(w: nat, h: nat, l: nat, x: nat): (c: seq<Rect>)
    ensures |c| == Pow2(l)
  {
    seq(Pow2(l), y requires 0 <= y < Pow2(l) => Cell(w, h, Pow2(l), x, y))
  }

  /** The first x columns of level l, in the source's loop order. */
  function Columns(w: nat, h: nat, l: nat, x: nat): (c: seq<Rect>)
    ensures |c| == Offset(Pow2(l), x)
  {
    if x == 0 then [] else Columns(w, h, l, x - 1) + Column(w, h, l, x - 1)
  }

  /** The patches of all levels below `level`, in the order they are written. */
  function PatchRects(w: nat, h: nat, level: nat): (r: seq<Rect>)
    ensures |r| == NPatches(level)
  {
    if level == 0 then []
    else
      Pow4Square(level - 1);
      PatchRects(w, h, level - 1) + Columns(w, h, level - 1, Pow2(level - 1))
  }

  /** A patch lies inside the image. */
  predicate Inside(w: nat, h: nat, r: Rect)
  {
    0 <= r.x && r.x + r.width <= w && 0 <= r.y && r.y + r.height <= h && r.width >= 0 && r.height >= 0
  }

  lemma MulLe(a: nat, b: nat, c: nat)
    requires a <= b
    ensures a * c <= b * c
  {
    var d := b - a;
    assert b * c == a * c + d * c;
  }

  /** Cell i of a row of s cells of width n / s ends inside [0, n]. */
  lemma CellEnd(i: nat, s: nat, n: nat)
    requires i < s
    ensures i * (n / s) + n / s <= n
  {
    var q := n / s;
    assert i * q + q == (i + 1) * q;
    MulLe(i + 1, s, q);
    assert n == s * q + n % s;
  }

  /** Cells i < j of the same width do not overlap. */
  lemma CellsApart(i: nat, j: nat, q: nat)
    requires i < j
    ensures i * q + q <= j * q
  {
    assert i * q + q == (i + 1) * q;
    MulLe(i + 1, j, q);
  }

  /** Cell (x, y) of an s by s grid over a w by h image. */
  function Cell(w: nat, h: nat, s: nat, x: nat, y: nat): Rect
    requires s > 0
  {
    Rect(x * (w / s), y * (h / s), w / s, h / s)
  }

  lemma CellInside(w: nat, h: nat, s: nat, x: nat, y: nat)
    requires x < s && y < s
    ensures Inside(w, h, Cell(w, h, s, x, y))
  {
    CellEnd(x, s, w);
    CellEnd(y, s, h);
  }

  lemma ColumnInside(w: nat, h: nat, l: nat, x: nat)
    requires x < Pow2(l)
    ensures forall k :: 0 <= k < |Column(w, h, l, x)| ==> Inside(w, h, Column(w, h, l, x)[k])
  {
    forall y | 0 <= y < Pow2(l) ensures Inside(w, h, Column(w, h, l, x)[y]) {
      CellInside(w, h, Pow2(l), x, y);
    }
  }

  lemma {:induction false} ColumnsInside(w: nat, h: nat, l: nat, x: nat)
    requires x <= Pow2(l)
    ensures forall k :: 0 <= k < |Columns(w, h, l, x)| ==> Inside(w, h, Columns(w, h, l, x)[k])
  {
    if x > 0 {
      ColumnsInside(w, h, l, x - 1);
      ColumnInside(w, h, l, x - 1);
      var a, b := Columns(w, h, l, x - 1), Column(w, h, l, x - 1);
      forall k | 0 <= k < |a + b| ensures Inside(w, h, (a + b)[k]) {
        if k >= |a| {
          assert (a + b)[k] == b[k - |a|];
        }
      }
    }
  }

  /** Every patch the pyramid reads lies inside the image, so the slicing
      `img[p_y:p_y + p_height, p_x:p_x + p_width]` never clips. */
  lemma {:induction false} PatchesInside(w: nat, h: nat, level: nat)
    ensures forall k :: 0 <= k < |PatchRects(w, h, level)| ==> Inside(w, h, PatchRects(w, h, level)[k])
  {
    if level > 0 {
      PatchesInside(w, h, level - 1);
      ColumnsInside(w, h, level - 1, Pow2(level - 1));
      var a, b := PatchRects(w, h, level - 1), Columns(w, h, level - 1, Pow2(level - 1));
      forall k | 0 <= k < |a + b| ensures Inside(w, h, (a + b)[k]) {
        if k >= |a| {
          assert (a + b)[k] == b[k - |a|];
        }
      }
    }
  }

  /** Two rectangles share no pixel. */
  predicate Disjoint(a: Rect, b: Rect)
  {
    a.x + a.width <= b.x || b.x + b.width <= a.x || a.y + a.height <= b.y || b.y + b.height <= a.y
  }

  lemma CellsDisjoint(w: nat, h: nat, s: nat, x1: nat, y1: nat, x2: nat, y2: nat)
    requires s > 0 && (x1, y1) != (x2, y2)
    ensures Disjoint(Cell(w, h, s, x1, y1), Cell(w, h, s, x2, y2))
  {
    if x1 < x2 {
      CellsApart(x1, x2, w / s);
    } else if x2 < x1 {
      CellsApart(x2, x1, w / s);
    } else if y1 < y2 {
      CellsApart(y1, y2, h / s);
    } else {
      CellsApart(y2, y1, h / s);
    }
  }

  /** Two patches of one level do not overlap: they sit in different
      columns or in different rows of the grid. */
  lemma ColumnsDisjoint(w: nat, h: nat, l: nat, x1: nat, y1: nat, x2: nat, y2: nat)
    requires x1 < Pow2(l) && x2 < Pow2(l) && y1 < Pow2(l) && y2 < Pow2(l) && (x1, y1) != (x2, y2)
    ensures Disjoint(Column(w, h, l, x1)[y1], Column(w, h, l, x2)[y2])
  {
    CellsDisjoint(w, h, Pow2(l), x1, y1, x2, y2);
  }

  /** The histograms of the patches, one after the other. */
  function Blocks(hist: Rect -> seq<real>, rects: seq<Rect>): seq<real>
  {
    if |rects| == 0 then [] else Blocks(hist, rects[..|rects| - 1]) + hist(rects[|rects| - 1])
  }

  lemma {:induction false} BlocksConcat(hist: Rect -> seq<real>, a: seq<Rect>, b: seq<Rect>)
    ensures Blocks(hist, a + b) == Blocks(hist, a) + Blocks(hist, b)
    decreases |b|
  {
    if |b| == 0 {
      assert a + b == a;
    } else {
      var init := b[..|b| - 1];
      assert (a + b)[..|a + b| - 1] == a + init;
      assert (a + b)[|a + b| - 1] == b[|b| - 1];
      BlocksConcat(hist, a, init);
    }
  }

  /** With histograms of histSz values, patch p occupies the histSz
      entries from Offset(histSz, p) on, and they hold that patch's
      histogram: the blocks tile the vector without gap or overlap. */
  lemma BlocksLayout(hist: Rect -> seq<real>, histSz: nat, rects: seq<Rect>)
    requires forall r :: |hist(r)| == histSz
    ensures |Blocks(hist, rects)| == Offset(histSz, |rects|)
    ensures forall p :: 0 <= p < |rects| ==>
      Offset(histSz, p) + histSz <= |Blocks(hist, rects)| &&
      Blocks(hist, rects)[Offset(histSz, p)..Offset(histSz, p) + histSz] == hist(rects[p])
  {
    BlocksLength(hist, histSz, rects);
    forall p | 0 <= p < |rects|
      ensures Offset(histSz, p) + histSz <= |Blocks(hist, rects)|
      ensures Blocks(hist, rects)[Offset(histSz, p)..Offset(histSz, p) + histSz] == hist(rects[p])
    {
      BlockAt(hist, histSz, rects, p);
    }
  }

  lemma {:induction false} BlocksLength(hist: Rect -> seq<real>, histSz: nat, rects: seq<Rect>)
    requires forall r :: |hist(r)| == histSz
    ensures |Blocks(hist, rects)| == Offset(histSz, |rects|)
  {
    if |rects| > 0 {
      BlocksLength(hist, histSz, rects[..|rects| - 1]);
    }
  }

  lemma {:induction false} BlockAt(hist: Rect -> seq<real>, histSz: nat, rects: seq<Rect>, p: nat)
    requires forall r :: |hist(r)| == histSz
    requires p < |rects|
    ensures Offset(histSz, p) + histSz <= |Blocks(hist, rects)|
    ensures Blocks(hist, rects)[Offset(histSz, p)..Offset(histSz, p) + histSz] == hist(rects[p])
  {
    var init := rects[..|rects| - 1];
    var bi := Blocks(hist, init);
    BlocksLength(hist, histSz, init);
    var all := Blocks(hist, rects);
    assert all == bi + hist(rects[|rects| - 1]);
    if p < |init| {
      BlockAt(hist, histSz, init, p);
      assert rects[p] == init[p];
      assert all[Offset(histSz, p)..Offset(histSz, p) + histSz] == bi[Offset(histSz, p)..Offset(histSz, p) + histSz];
    } else {
      assert all[|bi|..|bi| + histSz] == hist(rects[p]);
    }
  }

  /** The pyramid vector the source builds. */
  function PyramidHist(hist: Rect -> seq<real>, w: nat, h: nat, level: nat): seq<real>
  {
    Blocks(hist, PatchRects(w, h, level))
  }

  /** The vector holds npatches blocks of histSz entries:
      `hist[hist_sz * p:hist_sz * p + hist_sz]` is the histogram of the
      p-th patch in loop order. */
  lemma PyramidLayout(hist: Rect -> seq<real>, histSz: nat, w: nat, h: nat, level: nat)
    requires forall r :: |hist(r)| == histSz
    ensures |PyramidHist(hist, w, h, level)| == histSz * NPatches(level)
    ensures forall p :: 0 <= p < NPatches(level) ==>
      histSz * p + histSz <= |PyramidHist(hist, w, h, level)| &&
      PyramidHist(hist, w, h, level)[histSz * p..histSz * p + histSz] == hist(PatchRects(w, h, level)[p])
  {
    var rects := PatchRects(w, h, level);
    BlocksLength(hist, histSz, rects);
    OffsetIsProduct(histSz, |rects|);
    forall p | 0 <= p < |rects|
      ensures histSz * p + histSz <= |PyramidHist(hist, w, h, level)|
      ensures PyramidHist(hist, w, h, level)[histSz * p..histSz * p + histSz] == hist(rects[p])
    {
      BlockAt(hist, histSz, rects, p);
      OffsetIsProduct(histSz, p);
    }
  }

  /** `hist[start:start + len(block)] = block`. */
  method WriteBlock(a: array<real>, start: nat, block: seq<real>)
    requires start + |block| <= a.Length
    modifies a
    ensures a[..start] == old(a[..start])
    ensures a[start..start + |block|] == block
    ensures a[start + |block|..] == old(a[start + |block|..])
  {
    for k := 0 to |block|
      invariant a[..start] == old(a[..start])
      invariant a[start..start + k] == block[..k]
      invariant a[start + |block|..] == old(a[start + |block|..])
    {
      a[start + k] := block[k];
    }
  }

  /** The loop nest shared by `calc_pyr_color_hist` and
      `calc_pyr_edge_hist`, with the per-patch histogram as a parameter. */
  method CalcPyrHist(w: nat, h: nat, level: nat, histSz: nat, patchHist: Rect -> seq<real>)
    returns (hist: array<real>)
    requires forall r :: |patchHist(r)| == histSz
    ensures fresh(hist)
    ensures hist[..] == PyramidHist(patchHist, w, h, level)
  {
    var npatches := CountPatches(level);
    hist := NewHist(histSz, npatches);
    var patch := 0;
    for l := 0 to level
      invariant patch == NPatches(l) <= NPatches(level)
      invariant BlocksWritten(hist[..], histSz, patchHist, PatchRects(w, h, l), patch)
    {
      LevelStep(w, h, level, l);
      patch := FillLevel(hist, w, h, l, histSz, patchHist, patch, npatches, PatchRects(w, h, l));
    }
    assert hist[..] == hist[..Offset(histSz, patch)];
  }

  /** The first n blocks of cur hold the histograms of the patches rects. */
  ghost predicate BlocksWritten(cur: seq<real>, histSz: nat, patchHist: Rect -> seq<real>, rects: seq<Rect>, n: nat)
  {
    Offset(histSz, n) <= |cur| && cur[..Offset(histSz, n)] == Blocks(patchHist, rects)
  }

  /** `np.ndarray([hist_sz * npatches, 1], np.float32)`. */
  method NewHist(histSz: nat, npatches: nat) returns (hist: array<real>)
    ensures fresh(hist) && hist.Length == Offset(histSz, npatches)
  {
    hist := new real[histSz * npatches];
    OffsetIsProduct(histSz, npatches);
  }

  /** Level l adds 2^l columns of 2^l patches to the levels below it. */
  lemma LevelStep(w: nat, h: nat, level: nat, l: nat)
    requires l < level
    ensures NPatches(l + 1) == NPatches(l) + Offset(Pow2(l), Pow2(l)) <= NPatches(level)
    ensures PatchRects(w, h, l + 1) == PatchRects(w, h, l) + Columns(w, h, l, Pow2(l))
  {
    NPatchesMono(l + 1, level);
    Pow4Square(l);
  }

  /** One iteration of the `l` loop: the 4^l patches of level l. */
  method FillLevel(hist: array<real>, w: nat, h: nat, l: nat, histSz: nat, patchHist: Rect -> seq<real>,
                   patch0: nat, ghost total: nat, ghost lower: seq<Rect>) returns (patch: nat)
    requires forall r :: |patchHist(r)| == histSz
    requires hist.Length == Offset(histSz, total) && patch0 + Offset(Pow2(l), Pow2(l)) <= total
    requires BlocksWritten(hist[..], histSz, patchHist, lower, patch0)
    modifies hist
    ensures patch == patch0 + Offset(Pow2(l), Pow2(l))
    ensures BlocksWritten(hist[..], histSz, patchHist, lower + Columns(w, h, l, Pow2(l)), patch)
  {
    var side := Pow2(l);
    patch := patch0;
    ColumnJoin(w, h, l, 0, lower);
    for x := 0 to side
      invariant patch == patch0 + Offset(side, x)
      invariant BlocksWritten(hist[..], histSz, patchHist, lower + Columns(w, h, l, x), patch)
    {
      OffsetMono(side, x + 1, side);
      patch := FillColumn(hist, w, h, l, x, histSz, patchHist, patch, total, lower);
    }
  }

  /** One iteration of the `x` loop: the 2^l patches of column x, after
      the columns before it. */
  method FillColumn(hist: array<real>, w: nat, h: nat, l: nat, x: nat, histSz: nat, patchHist: Rect -> seq<real>,
                    patch0: nat, ghost total: nat, ghost lower: seq<Rect>) returns (patch: nat)
    requires forall r :: |patchHist(r)| == histSz
    requires hist.Length == Offset(histSz, total) && patch0 + Pow2(l) <= total
    requires BlocksWritten(hist[..], histSz, patchHist, lower + Columns(w, h, l, x), patch0)
    modifies hist
    ensures patch == patch0 + Pow2(l)
    ensures BlocksWritten(hist[..], histSz, patchHist, lower + Columns(w, h, l, x + 1), patch)
  {
    var side := Pow2(l);
    ghost var done := lower + Columns(w, h, l, x);
    ghost var col := Column(w, h, l, x);
    patch := patch0;
    assert done + col[..0] == done;
    for y := 0 to side
      invariant patch == patch0 + y
      invariant BlocksWritten(hist[..], histSz, patchHist, done + col[..y], patch)
    {
      FillPatch(hist, w, h, l, x, y, histSz, patchHist, patch, total, done);
      patch := patch + 1;
    }
    assert col[..side] == col;
    ColumnJoin(w, h, l, x, lower);
  }

  lemma ColumnJoin(w: nat, h: nat, l: nat, x: nat, lower: seq<Rect>)
    ensures lower + Columns(w, h, l, 0) == lower
    ensures lower + Columns(w, h, l, x) + Column(w, h, l, x) == lower + Columns(w, h, l, x + 1)
  {
    assert lower + [] == lower;
  }

  /** One iteration of the `y` loop: patch (x, y) of level l. */
  method FillPatch(hist: array<real>, w: nat, h: nat, l: nat, x: nat, y: nat, histSz: nat,
                   patchHist: Rect -> seq<real>, patch: nat, ghost total: nat, ghost done: seq<Rect>)
    requires forall r :: |patchHist(r)| == histSz
    requires y < Pow2(l) && hist.Length == Offset(histSz, total) && patch < total
    requires BlocksWritten(hist[..], histSz, patchHist, done + Column(w, h, l, x)[..y], patch)
    modifies hist
    ensures BlocksWritten(hist[..], histSz, patchHist, done + Column(w, h, l, x)[..y + 1], patch + 1)
  {
    var side := Pow2(l);
    var rect := PatchAt(w, h, side, x, y);
    var block := patchHist(rect);
    var start := BlockStart(histSz, patch);
    OffsetMono(histSz, patch + 1, total);
    ghost var col := Column(w, h, l, x);
    WritePatch(hist, start, block, done + col[..y], patchHist);
    AppendBlock(patchHist, done, col, y);
  }

  /** `p_width`, `p_height`, `p_x`, `p_y` of patch (x, y) on a side by
      side grid; `int(np.floor(w / 2 ** l))` is integer division here. */
  method PatchAt(w: nat, h: nat, side: nat, x: nat, y: nat) returns (r: Rect)
    requires side > 0
    ensures r == Cell(w, h, side, x, y)
  {
    var pWidth := w / side;
    var pHeight := h / side;
    var pX := x * pWidth;
    var pY := y * pHeight;
    r := Rect(pX, pY, pWidth, pHeight);
  }

  /** `hist_sz * patch`, the first entry of block `patch`. */
  method BlockStart(histSz: nat, patch: nat) returns (start: nat)
    ensures start == Offset(histSz, patch)
  {
    start := histSz * patch;
    OffsetIsProduct(histSz, patch);
  }

  /** `hist[hist_sz * patch:hist_sz * patch + hist_sz] = patch_hist`, seen
      as extending the prefix of blocks written so far. */
  method WritePatch(hist: array<real>, start: nat, block: seq<real>,
                    ghost done: seq<Rect>, ghost patchHist: Rect -> seq<real>)
    requires start + |block| <= hist.Length
    requires hist[..start] == Blocks(patchHist, done)
    modifies hist
    ensures hist[..start + |block|] == Blocks(patchHist, done) + block
  {
    WriteBlock(hist, start, block);
    assert hist[..start + |block|] == hist[..start] + hist[start..start + |block|];
  }

  lemma {:induction false} NPatchesMono(a: nat, b: nat)
    requires a <= b
    ensures NPatches(a) <= NPatches(b)
    decreases b - a
  {
    if a < b {
      NPatchesMono(a, b - 1);
    }
  }

  lemma AppendBlock(hist: Rect -> seq<real>, done: seq<Rect>, col: seq<Rect>, y: nat)
    requires y < |col|
    ensures Blocks(hist, done + col[..y + 1]) == Blocks(hist, done + col[..y]) + hist(col[y])
  {
    assert done + col[..y + 1] == (done + col[..y]) + [col[y]];
    BlocksConcat(hist, done + col[..y], [col[y]]);
    assert [col[y]][..0] == [];
  }

  /** A decoded frame as the histogram code sees it: its size, and the
      OpenCV histograms of any patch of it. `hsv(r)` is `calc_hsv_hist` of
      the patch (three planes of nbins bins, concatenated); `edge(r)` is
      `calc_egde_hist` of the same patch of the blurred grey image, which
      has the frame's size. */
  datatype Frame = Frame(width: nat, height: nat, hsv: Rect -> seq<real>, edge: Rect -> seq<real>)

  /** `calc_pyr_color_hist(img, nbins, level)`. */
  method CalcPyrColorHist(img: Frame, nbins: nat, level: nat) returns (hist: array<real>)
    requires forall r :: |img.hsv(r)| == 3 * nbins
    ensures fresh(hist)
    ensures hist[..] == PyramidHist(img.hsv, img.width, img.height, level)
  {
    hist := CalcPyrHist(img.width, img.height, level, 3 * nbins, img.hsv);
  }

  /** `calc_pyr_edge_hist(to_gray(img), nbins_ori, nbins_mag, level)`. */
  method CalcPyrEdgeHist(img: Frame, nbinsOri: nat, nbinsMag: nat, level: nat) returns (hist: array<real>)
    requires forall r :: |img.edge(r)| == nbinsOri + nbinsMag
    ensures fresh(hist)
    ensures hist[..] == PyramidHist(img.edge, img.width, img.height, level)
  {
    hist := CalcPyrHist(img.width, img.height, level, nbinsOri + nbinsMag, img.edge);
  }

  /** One row of the feature matrix. The matrix is allocated with
      `np.ndarray`, which does not initialise it, so the row of a frame
      that is skipped holds whatever the memory held. */
  datatype Row = Written(features: seq<real>) | Unwritten

  /** What `extract_histo_features` returns, or the IndexError it raises
      when it must look up the validity of a frame the info list does not
      have. */
  datatype FeatureOutcome = Features(rows: seq<Row>) | InfoIndexError

  /** The colour pyramid followed by the edge pyramid of a frame. */
  function FrameFeatures(img: Frame, level: nat): seq<real>
  {
    PyramidHist(img.hsv, img.width, img.height, level) + PyramidHist(img.edge, img.width, img.height, level)
  }

  /** Whether the loop skips frame i. */
  predicate Skipped(info: seq<FrameInfo>, omitFiltered: bool, i: nat)
    requires omitFiltered ==> i < |info|
  {
    omitFiltered && !info[i].valid
  }

  function FeatureRows(frames: seq<Frame>, info: seq<FrameInfo>, level: nat, omitFiltered: bool): FeatureOutcome
  {
    if omitFiltered && |info| < |frames| then InfoIndexError
    else Features(seq(|frames|, i requires 0 <= i < |frames| =>
      if Skipped(info, omitFiltered, i) then Unwritten else Written(FrameFeatures(frames[i], level))))
  }

  /** `extract_histo_features`: one row per frame, colour histograms first. */
  method ExtractHistoFeatures(frames: seq<Frame>, info: seq<FrameInfo>, pyrLevel: nat, omitFiltered: bool,
                              nbinsColor: nat, nbinsEdgeOri: nat, nbinsEdgeMag: nat)
    returns (res: FeatureOutcome)
    requires forall i, r :: 0 <= i < |frames| ==>
      |frames[i].hsv(r)| == 3 * nbinsColor && |frames[i].edge(r)| == nbinsEdgeOri + nbinsEdgeMag
    ensures res == FeatureRows(frames, info, pyrLevel, omitFiltered)
  {
    var n := |frames|;
    var rows := new Row[n](_ => Unwritten);
    for i := 0 to n
      invariant omitFiltered ==> i <= |info|
      invariant forall k :: i <= k < n ==> rows[k] == Unwritten
      invariant forall k :: 0 <= k < i ==>
        rows[k] == if Skipped(info, omitFiltered, k) then Unwritten else Written(FrameFeatures(frames[k], pyrLevel))
    {
      if omitFiltered && i >= |info| {
        return InfoIndexError;
      }
      if !Skipped(info, omitFiltered, i) {
        var colorHist := CalcPyrColorHist(frames[i], nbinsColor, pyrLevel);
        var edgeHist := CalcPyrEdgeHist(frames[i], nbinsEdgeOri, nbinsEdgeMag, pyrLevel);
        rows[i] := Written(colorHist[..] + edgeHist[..]);
      }
    }
    res := Features(rows[..]);
  }

  /** The feature matrix: exactly the frames the filter kept (all frames
      when omitFiltered is off) have a written row. A written row holds
      npatches * (3 * nbins_color + nbins_edge) values: the colour pyramid
      of the frame, then its edge pyramid, each laid out as PyramidLayout
      states. */
  lemma FeatureLayout(frames: seq<Frame>, info: seq<FrameInfo>, level: nat, omitFiltered: bool,
                      nbinsColor: nat, nbinsEdge: nat, i: nat)
    requires forall i, r :: 0 <= i < |frames| ==>
      |frames[i].hsv(r)| == 3 * nbinsColor && |frames[i].edge(r)| == nbinsEdge
    requires FeatureRows(frames, info, level, omitFiltered).Features? && i < |frames|
    ensures var row := FeatureRows(frames, info, level, omitFiltered).rows[i];
      && (row.Written? <==> !omitFiltered || info[i].valid)
      && (row.Written? ==>
            var img, colorLen := frames[i], 3 * nbinsColor * NPatches(level);
            && |row.features| == colorLen + nbinsEdge * NPatches(level)
            && row.features[..colorLen] == PyramidHist(img.hsv, img.width, img.height, level)
            && row.features[colorLen..] == PyramidHist(img.edge, img.width, img.height, level))
  {
    var img := frames[i];
    PyramidLayout(img.hsv, 3 * nbinsColor, img.width, img.height, level);
    PyramidLayout(img.edge, nbinsEdge, img.width, img.height, level);
  }
}

/** The scan driver: the per-pixel step applied at every interior point, x outer
    and y inner, then the samples turned into bytes. */
module Dithering {
  import opened Bytes
  import opened Filters
  import opened VecImage

  datatype Point = Point(x: nat, y: nat)

  /** `p` is visited before `q` by a scan with x outer and y inner. */
  predicate Before(p: Point, q: Point)
  {
    p.x < q.x || (p.x == q.x && p.y < q.y)
  }

  predicate StrictlyIncreasing(pts: seq<Point>)
  {
    forall i, j :: 0 <= i < j < |pts| ==> Before(pts[i], pts[j])
  }

  lemma ConcatIncreasing(a: seq<Point>, b: seq<Point>)
    requires StrictlyIncreasing(a) && StrictlyIncreasing(b)
    requires forall i, j :: 0 <= i < |a| && 0 <= j < |b| ==> Before(a[i], b[j])
    ensures StrictlyIncreasing(a + b)
  {
    forall i, j | 0 <= i < j < |a + b| ensures Before((a + b)[i], (a + b)[j]) {
      if j < |a| {
        assert Before(a[i], a[j]);
      } else if i >= |a| {
        assert Before(b[i - |a|], b[j - |a|]);
      } else {
        assert Before(a[i], b[j - |a|]);
      }
    }
  }

  /** The inner loop's points: column `x`, rows `y0` up to `y1`, in order. */
  function ColumnPoints(x: nat, y0: nat, y1: nat): (pts: seq<Point>)
    ensures |pts| == if y1 <= y0 then 0 else y1 - y0
    decreases y1
  {
    if y1 <= y0 then [] else ColumnPoints(x, y0, y1 - 1) + [Point(x, y1 - 1)]
  }

  /** The nested loops' points: columns `x0` up to `x1`, each column's rows `y0`
      up to `y1`, in order. */
  function GridPoints(x0: nat, x1: nat, y0: nat, y1: nat): (pts: seq<Point>)
    decreases x1
  {
    if x1 <= x0 then [] else GridPoints(x0, x1 - 1, y0, y1) + ColumnPoints(x1 - 1, y0, y1)
  }

  /** The inner loop visits exactly the rows `y0` up to `y1` of column `x`. */
  lemma {:induction false} ColumnPointsMembers(x: nat, y0: nat, y1: nat)
    ensures forall p :: p in ColumnPoints(x, y0, y1) <==> p.x == x && y0 <= p.y < y1
    decreases y1
  {
    if y1 > y0 {
      ColumnPointsMembers(x, y0, y1 - 1);
    }
  }

  /** The nested loops visit exactly the points of the rectangle `[x0, x1) x [y0, y1)`. */
  lemma {:induction false} GridPointsMembers(x0: nat, x1: nat, y0: nat, y1: nat)
    ensures forall p :: p in GridPoints(x0, x1, y0, y1) <==> x0 <= p.x < x1 && y0 <= p.y < y1
    decreases x1
  {
    if x1 > x0 {
      GridPointsMembers(x0, x1 - 1, y0, y1);
      ColumnPointsMembers(x1 - 1, y0, y1);
    }
  }

  lemma {:induction false} ColumnPointsIncreasing(x: nat, y0: nat, y1: nat)
    ensures StrictlyIncreasing(ColumnPoints(x, y0, y1))
    decreases y1
  {
    if y1 > y0 {
      ColumnPointsIncreasing(x, y0, y1 - 1);
      ColumnPointsMembers(x, y0, y1 - 1);
      var pre := ColumnPoints(x, y0, y1 - 1);
      assert forall i :: 0 <= i < |pre| ==> pre[i] in pre;
      ConcatIncreasing(pre, [Point(x, y1 - 1)]);
    }
  }

  /** The nested loops visit their points in strictly increasing scan order, so
      none twice. */
  lemma {:induction false} GridPointsIncreasing(x0: nat, x1: nat, y0: nat, y1: nat)
    ensures StrictlyIncreasing(GridPoints(x0, x1, y0, y1))
    decreases x1
  {
    if x1 > x0 {
      GridPointsIncreasing(x0, x1 - 1, y0, y1);
      ColumnPointsIncreasing(x1 - 1, y0, y1);
      GridPointsMembers(x0, x1 - 1, y0, y1);
      ColumnPointsMembers(x1 - 1, y0, y1);
      var pre := GridPoints(x0, x1 - 1, y0, y1);
      var col := ColumnPoints(x1 - 1, y0, y1);
      forall i, j | 0 <= i < |pre| && 0 <= j < |col| ensures Before(pre[i], col[j]) {
        assert pre[i] in pre && col[j] in col;
      }
      ConcatIncreasing(pre, col);
    }
  }

  /** The loop bounds `w - size/2` and `h - size/2` are unsigned subtractions. The
      first is always evaluated; the second only when the x range is non-empty.
      Either one going below zero is an overflow panic. */
  predicate ScanPanics(w: nat, h: nat, c: nat)
  {
    w < c || (c < w - c && h < c)
  }

  /** The points visited by the nested loops, in visiting order. */
  function ScanOrder(w: nat, h: nat, c: nat): seq<Point>
    requires !ScanPanics(w, h, c)
  {
    if w - c <= c then [] else GridPoints(c, w - c, c, h - c)
  }

  /** Exactly the interior points, i.e. those whose window fits in the image, are
      visited; each one once, x outer and y inner. */
  lemma ScanOrderExact(w: nat, h: nat, f: Filter)
    requires !ScanPanics(w, h, f.size / 2)
    ensures forall p :: p in ScanOrder(w, h, f.size / 2) <==> WindowFits(w, h, p.x, p.y, f.size)
    ensures StrictlyIncreasing(ScanOrder(w, h, f.size / 2))
  {
    var c := f.size / 2;
    if c < w - c {
      GridPointsMembers(c, w - c, c, h - c);
      GridPointsIncreasing(c, w - c, c, h - c);
    }
  }

  /** Every sample the per-pixel step touches at a visited point lies inside the
      buffer: the window cell `(i, j)` of a scanned point has an in-bounds offset. */
  lemma ScanAccessesInBounds(w: nat, h: nat, f: Filter, p: Point, i: nat, j: nat)
    requires !ScanPanics(w, h, f.size / 2)
    requires p in ScanOrder(w, h, f.size / 2) && i < f.size && j < f.size
    ensures WindowFits(w, h, p.x, p.y, f.size)
    ensures p.x - f.size / 2 + i < w && p.y - f.size / 2 + j < h
    ensures Offset(w, p.x - f.size / 2 + i, p.y - f.size / 2 + j) < w * h
  {
    ScanOrderExact(w, h, f);
    WindowCellInBounds(w, h, p.x, p.y, f.size, i, j);
  }

  /** Every point of `pts` is one whose window fits in a `w` by `h` image. */
  predicate AllFit(w: nat, h: nat, n: nat, pts: seq<Point>)
    decreases |pts|
  {
    pts == [] ||
    (AllFit(w, h, n, pts[..|pts| - 1]) && WindowFits(w, h, pts[|pts| - 1].x, pts[|pts| - 1].y, n))
  }

  /** `AllFit` says the same as a statement about every member. */
  lemma {:induction false} AllFitMembers(w: nat, h: nat, n: nat, pts: seq<Point>)
    ensures AllFit(w, h, n, pts) <==> forall p :: p in pts ==> WindowFits(w, h, p.x, p.y, n)
    decreases |pts|
  {
    if pts != [] {
      var pre, last := pts[..|pts| - 1], pts[|pts| - 1];
      AllFitMembers(w, h, n, pre);
      assert pts == pre + [last];
    }
  }

  /** The buffer after applying the per-pixel step at each of `pts` in turn. */
  function ApplyAll(s: seq<real>, w: nat, h: nat, t: real, f: Filter, pts: seq<Point>): (r: seq<real>)
    requires |s| == w * h && WellFormed(f) && f.div != 0.0
    requires AllFit(w, h, f.size, pts)
    ensures |r| == |s|
    decreases |pts|
  {
    if pts == [] then s
    else
      var last := pts[|pts| - 1];
      Filtered(ApplyAll(s, w, h, t, f, pts[..|pts| - 1]), w, h, t, last.x, last.y, f)
  }

  /** One more point at the end is one more step. */
  lemma ApplyAllSnoc(s: seq<real>, w: nat, h: nat, t: real, f: Filter, pts: seq<Point>, p: Point)
    requires |s| == w * h && WellFormed(f) && f.div != 0.0
    requires AllFit(w, h, f.size, pts) && WindowFits(w, h, p.x, p.y, f.size)
    ensures AllFit(w, h, f.size, pts + [p])
    ensures ApplyAll(s, w, h, t, f, pts + [p]) == Filtered(ApplyAll(s, w, h, t, f, pts), w, h, t, p.x, p.y, f)
  {
    assert (pts + [p])[..|pts|] == pts;
  }

  /** Applying two runs of points one after the other is applying their concatenation. */
  lemma {:induction false} ApplyAllAppend(s: seq<real>, w: nat, h: nat, t: real, f: Filter, a: seq<Point>, b: seq<Point>)
    requires |s| == w * h && WellFormed(f) && f.div != 0.0
    requires AllFit(w, h, f.size, a) && AllFit(w, h, f.size, b)
    ensures AllFit(w, h, f.size, a + b)
    ensures ApplyAll(s, w, h, t, f, a + b) == ApplyAll(ApplyAll(s, w, h, t, f, a), w, h, t, f, b)
    decreases |b|
  {
    if b == [] {
      assert a + b == a;
    } else {
      var pre := b[..|b| - 1];
      ApplyAllAppend(s, w, h, t, f, a, pre);
      assert (a + b)[..|a + b| - 1] == a + pre;
    }
  }

  /** The buffer after the whole scan. */
  function Dithered(s: seq<real>, w: nat, h: nat, t: real, f: Filter): seq<real>
    requires |s| == w * h && WellFormed(f) && f.div != 0.0
    requires !ScanPanics(w, h, f.size / 2)
  {
    ScanOrderExact(w, h, f);
    AllFitMembers(w, h, f.size, ScanOrder(w, h, f.size / 2));
    ApplyAll(s, w, h, t, f, ScanOrder(w, h, f.size / 2))
  }

  /** The sample at `p` is in the buffer and is exactly 0 or 1. */
  predicate FinalisedAt(r: seq<real>, w: nat, p: Point)
  {
    Offset(w, p.x, p.y) < |r| && (r[Offset(w, p.x, p.y)] == 0.0 || r[Offset(w, p.x, p.y)] == 1.0)
  }

  /** A step at `p` leaves untouched the sample of any point visited before `p`,
      when the kernel diffuses only forward. */
  lemma FilteredKeepsEarlier(s: seq<real>, w: nat, h: nat, t: real, f: Filter, p: Point, q: Point)
    requires |s| == w * h && WellFormed(f) && f.div != 0.0 && DiffusesForward(f)
    requires WindowFits(w, h, p.x, p.y, f.size)
    requires q.x < w && q.y < h && Before(q, p)
    ensures Offset(w, q.x, q.y) < |s|
    ensures Filtered(s, w, h, t, p.x, p.y, f)[Offset(w, q.x, q.y)] == s[Offset(w, q.x, q.y)]
  {
    var k := Offset(w, q.x, q.y);
    var c := f.size / 2;
    OffsetInBounds(w, h, q.x, q.y);
    OffsetInBounds(w, h, p.x, p.y);
    OffsetRoundTrip(w, q.x, q.y);
    if k == Offset(w, p.x, p.y) {
      OffsetInjective(w, q.x, q.y, p.x, p.y);
    }
    if InWindow(w, p.x, p.y, f.size, k) {
      var i, j := q.x - (p.x - c), q.y - (p.y - c);
      assert !AtOrAfterCentre(i, j, c);
      assert f.matrix[i][j] == 0.0;
    }
  }

  /** Along any increasing sequence of interior points, every visited sample ends
      exactly 0 or 1. */
  lemma {:induction false} ApplyAllFinalises(s: seq<real>, w: nat, h: nat, t: real, f: Filter, pts: seq<Point>)
    requires |s| == w * h && WellFormed(f) && f.div != 0.0 && DiffusesForward(f)
    requires AllFit(w, h, f.size, pts) && StrictlyIncreasing(pts)
    ensures forall m :: 0 <= m < |pts| ==> FinalisedAt(ApplyAll(s, w, h, t, f, pts), w, pts[m])
  {
    if pts != [] {
      var pre, p := pts[..|pts| - 1], pts[|pts| - 1];
      AllFitMembers(w, h, f.size, pts);
      ApplyAllFinalises(s, w, h, t, f, pre);
      var r0 := ApplyAll(s, w, h, t, f, pre);
      FilteredCentre(r0, w, h, t, p.x, p.y, f);
      forall m | 0 <= m < |pts| ensures FinalisedAt(ApplyAll(s, w, h, t, f, pts), w, pts[m]) {
        if m < |pts| - 1 {
          assert pre[m] == pts[m] && pts[m] in pts;
          assert FinalisedAt(r0, w, pre[m]);
          FilteredKeepsEarlier(r0, w, h, t, f, p, pre[m]);
        }
      }
    }
  }

  /** After the scan, every interior sample is exactly 0 or 1. */
  lemma DitheredInteriorBinary(s: seq<real>, w: nat, h: nat, t: real, f: Filter, p: Point)
    requires |s| == w * h && WellFormed(f) && f.div != 0.0 && DiffusesForward(f)
    requires !ScanPanics(w, h, f.size / 2)
    requires WindowFits(w, h, p.x, p.y, f.size)
    ensures FinalisedAt(Dithered(s, w, h, t, f), w, p)
  {
    var pts := ScanOrder(w, h, f.size / 2);
    ScanOrderExact(w, h, f);
    AllFitMembers(w, h, f.size, pts);
    ApplyAllFinalises(s, w, h, t, f, pts);
    var m :| 0 <= m < |pts| && pts[m] == p;
  }

  /** Samples in the columns left of `size/2` never change: every window with a
      non-zero weight reaches only columns at or right of its centre. */
  lemma {:induction false} ApplyAllKeepsLeftColumns(s: seq<real>, w: nat, h: nat, t: real, f: Filter, pts: seq<Point>, k: nat)
    requires |s| == w * h && WellFormed(f) && f.div != 0.0 && DiffusesForward(f)
    requires AllFit(w, h, f.size, pts)
    requires k < |s| && k % w < f.size / 2
    ensures ApplyAll(s, w, h, t, f, pts)[k] == s[k]
  {
    if pts != [] {
      var pre, p := pts[..|pts| - 1], pts[|pts| - 1];
      ApplyAllKeepsLeftColumns(s, w, h, t, f, pre, k);
      var r0 := ApplyAll(s, w, h, t, f, pre);
      var c := f.size / 2;
      OffsetRoundTrip(w, p.x, p.y);
      if InWindow(w, p.x, p.y, f.size, k) {
        var i, j := k % w - (p.x - c), k / w - (p.y - c);
        assert !AtOrAfterCentre(i, j, c);
        assert f.matrix[i][j] == 0.0;
      } else {
        FilteredOutside(r0, w, h, t, p.x, p.y, f, k);
      }
    }
  }

  lemma DitheredKeepsLeftColumns(s: seq<real>, w: nat, h: nat, t: real, f: Filter, k: nat)
    requires |s| == w * h && WellFormed(f) && f.div != 0.0 && DiffusesForward(f)
    requires !ScanPanics(w, h, f.size / 2)
    requires k < |s| && k % w < f.size / 2
    ensures Dithered(s, w, h, t, f)[k] == s[k]
  {
    ScanOrderExact(w, h, f);
    AllFitMembers(w, h, f.size, ScanOrder(w, h, f.size / 2));
    ApplyAllKeepsLeftColumns(s, w, h, t, f, ScanOrder(w, h, f.size / 2), k);
  }

  /** An image at least `size/2` but at most `2 * (size/2)` wide has an empty x
      range: the scan neither panics nor changes anything. */
  lemma NarrowImageUnchanged(s: seq<real>, w: nat, h: nat, t: real, f: Filter)
    requires |s| == w * h && WellFormed(f) && f.div != 0.0
    requires f.size / 2 <= w <= 2 * (f.size / 2)
    ensures !ScanPanics(w, h, f.size / 2)
    ensures Dithered(s, w, h, t, f) == s
  {
  }

  /** Byte conversion maps 0 to 0 and 1 to 255. */
  lemma BinaryBytes(s: seq<real>, k: nat)
    requires k < |s| && (s[k] == 0.0 || s[k] == 1.0)
    ensures ScaleToBytes(s, 256.0)[k] == if s[k] == 0.0 then 0 else 255
  {
  }

  /** Every catalog kernel dithers every interior sample to byte 0 or byte 255. */
  lemma CatalogInteriorBytes(s: seq<real>, w: nat, h: nat, t: real, f: Filter, p: Point)
    requires f in Catalog && |s| == w * h
    requires !ScanPanics(w, h, f.size / 2)
    requires WindowFits(w, h, p.x, p.y, f.size)
    ensures WellFormed(f) && f.div != 0.0 && Offset(w, p.x, p.y) < w * h
    ensures FinalisedAt(Dithered(s, w, h, t, f), w, p)
    ensures var b := ScaleToBytes(Dithered(s, w, h, t, f), 256.0)[Offset(w, p.x, p.y)];
      b == 0 || b == 255
  {
    CatalogKernelsValid(f);
    DitheredInteriorBinary(s, w, h, t, f, p);
    BinaryBytes(Dithered(s, w, h, t, f), Offset(w, p.x, p.y));
  }

  /** The buffer after the inner loop has visited column `x`, rows `y0` up to `y1`. */
  function ColumnScan(s: seq<real>, w: nat, h: nat, t: real, f: Filter, x: nat, y0: nat, y1: nat): (r: seq<real>)
    requires |s| == w * h && WellFormed(f) && f.div != 0.0
    requires f.size / 2 <= x && x + f.size / 2 < w && f.size / 2 <= y0 && (y1 <= y0 || y1 + f.size / 2 <= h)
    ensures |r| == |s|
    decreases y1
  {
    if y1 <= y0 then s else Filtered(ColumnScan(s, w, h, t, f, x, y0, y1 - 1), w, h, t, x, y1 - 1, f)
  }

  /** The last row of a column is the last step: the inductive step of
      `ColumnScanIsApplyAll`. */
  lemma ColumnScanSnoc(s: seq<real>, w: nat, h: nat, t: real, f: Filter, x: nat, y0: nat, y1: nat)
    requires |s| == w * h && WellFormed(f) && f.div != 0.0
    requires f.size / 2 <= x && x + f.size / 2 < w && f.size / 2 <= y0 < y1 && y1 + f.size / 2 <= h
    requires AllFit(w, h, f.size, ColumnPoints(x, y0, y1 - 1))
    requires ColumnScan(s, w, h, t, f, x, y0, y1 - 1) == ApplyAll(s, w, h, t, f, ColumnPoints(x, y0, y1 - 1))
    ensures AllFit(w, h, f.size, ColumnPoints(x, y0, y1))
    ensures ColumnScan(s, w, h, t, f, x, y0, y1) == ApplyAll(s, w, h, t, f, ColumnPoints(x, y0, y1))
  {
    var pre, p := ColumnPoints(x, y0, y1 - 1), Point(x, y1 - 1);
    ApplyAllSnoc(s, w, h, t, f, pre, p);
    assert ColumnPoints(x, y0, y1) == pre + [p];
    assert p.x == x && p.y == y1 - 1;
    calc {
      ColumnScan(s, w, h, t, f, x, y0, y1);
      Filtered(ColumnScan(s, w, h, t, f, x, y0, y1 - 1), w, h, t, x, y1 - 1, f);
      Filtered(ApplyAll(s, w, h, t, f, pre), w, h, t, p.x, p.y, f);
      ApplyAll(s, w, h, t, f, pre + [p]);
    }
  }

  /** The inner loop applies the per-pixel step at the column's points, in order. */
  lemma {:induction false} ColumnScanIsApplyAll(s: seq<real>, w: nat, h: nat, t: real, f: Filter, x: nat, y0: nat, y1: nat)
    requires |s| == w * h && WellFormed(f) && f.div != 0.0
    requires f.size / 2 <= x && x + f.size / 2 < w && f.size / 2 <= y0 && (y1 <= y0 || y1 + f.size / 2 <= h)
    ensures AllFit(w, h, f.size, ColumnPoints(x, y0, y1))
    ensures ColumnScan(s, w, h, t, f, x, y0, y1) == ApplyAll(s, w, h, t, f, ColumnPoints(x, y0, y1))
    decreases y1
  {
    if y1 > y0 {
      ColumnScanIsApplyAll(s, w, h, t, f, x, y0, y1 - 1);
      ColumnScanSnoc(s, w, h, t, f, x, y0, y1);
    } else {
      assert ColumnPoints(x, y0, y1) == [];
    }
  }

  /** The buffer after the outer loop has visited columns `c` up to `x1`, each
      from row `c` up to `yEnd`. */
  function GridScan(s: seq<real>, w: nat, h: nat, t: real, f: Filter, x1: nat, yEnd: nat): (r: seq<real>)
    requires |s| == w * h && WellFormed(f) && f.div != 0.0
    requires x1 + f.size / 2 <= w && yEnd + f.size / 2 <= h
    ensures |r| == |s|
    decreases x1
  {
    var c := f.size / 2;
    if x1 <= c then s else ColumnScan(GridScan(s, w, h, t, f, x1 - 1, yEnd), w, h, t, f, x1 - 1, c, yEnd)
  }

  /** The last column is the last run of the inner loop: the inductive step of
      `GridScanIsApplyAll`. */
  lemma GridScanSnoc(s: seq<real>, w: nat, h: nat, t: real, f: Filter, x1: nat, yEnd: nat)
    requires |s| == w * h && WellFormed(f) && f.div != 0.0
    requires f.size / 2 < x1 && x1 + f.size / 2 <= w && yEnd + f.size / 2 <= h
    requires AllFit(w, h, f.size, GridPoints(f.size / 2, x1 - 1, f.size / 2, yEnd))
    requires GridScan(s, w, h, t, f, x1 - 1, yEnd) == ApplyAll(s, w, h, t, f, GridPoints(f.size / 2, x1 - 1, f.size / 2, yEnd))
    ensures AllFit(w, h, f.size, GridPoints(f.size / 2, x1, f.size / 2, yEnd))
    ensures GridScan(s, w, h, t, f, x1, yEnd) == ApplyAll(s, w, h, t, f, GridPoints(f.size / 2, x1, f.size / 2, yEnd))
  {
    var c := f.size / 2;
    var grid, col := GridPoints(c, x1 - 1, c, yEnd), ColumnPoints(x1 - 1, c, yEnd);
    var mid := ApplyAll(s, w, h, t, f, grid);
    ColumnScanIsApplyAll(mid, w, h, t, f, x1 - 1, c, yEnd);
    ApplyAllAppend(s, w, h, t, f, grid, col);
    assert GridPoints(c, x1, c, yEnd) == grid + col;
    calc {
      GridScan(s, w, h, t, f, x1, yEnd);
      ColumnScan(GridScan(s, w, h, t, f, x1 - 1, yEnd), w, h, t, f, x1 - 1, c, yEnd);
      ColumnScan(mid, w, h, t, f, x1 - 1, c, yEnd);
      ApplyAll(mid, w, h, t, f, col);
      ApplyAll(s, w, h, t, f, grid + col);
    }
  }

  /** The nested loops apply the per-pixel step at the grid's points, in order. */
  lemma {:induction false} GridScanIsApplyAll(s: seq<real>, w: nat, h: nat, t: real, f: Filter, x1: nat, yEnd: nat)
    requires |s| == w * h && WellFormed(f) && f.div != 0.0
    requires x1 + f.size / 2 <= w && yEnd + f.size / 2 <= h
    ensures AllFit(w, h, f.size, GridPoints(f.size / 2, x1, f.size / 2, yEnd))
    ensures GridScan(s, w, h, t, f, x1, yEnd) == ApplyAll(s, w, h, t, f, GridPoints(f.size / 2, x1, f.size / 2, yEnd))
    decreases x1
  {
    if x1 > f.size / 2 {
      GridScanIsApplyAll(s, w, h, t, f, x1 - 1, yEnd);
      GridScanSnoc(s, w, h, t, f, x1, yEnd);
    } else {
      assert GridPoints(f.size / 2, x1, f.size / 2, yEnd) == [];
    }
  }

  /** The whole scan is the outer loop over every interior column. */
  lemma DitheredIsGridScan(s: seq<real>, w: nat, h: nat, t: real, f: Filter)
    requires |s| == w * h && WellFormed(f) && f.div != 0.0
    requires !ScanPanics(w, h, f.size / 2) && f.size / 2 < w - f.size / 2
    ensures Dithered(s, w, h, t, f) == GridScan(s, w, h, t, f, w - f.size / 2, h - f.size / 2)
  {
    var c := f.size / 2;
    var grid := GridPoints(c, w - c, c, h - c);
    var order := ScanOrder(w, h, c);
    assert order == grid;
    GridScanIsApplyAll(s, w, h, t, f, w - c, h - c);
    var r := ApplyAll(s, w, h, t, f, grid);
    assert r == GridScan(s, w, h, t, f, w - c, h - c);
    assert r == ApplyAll(s, w, h, t, f, order);
  }

  datatype DitherResult = Output(bytes: seq<byte>) | UnderflowPanic

  /** The inner loop: the per-pixel step at column `x`, rows `y0` up to `y1`. */
  method ScanColumn(im: VecImg, f: Filter, x: nat, y0: nat, y1: nat)
    requires im.Valid() && WellFormed(f) && f.div != 0.0
    requires f.size / 2 <= x && x + f.size / 2 < im.w
    requires f.size / 2 <= y0 && y1 + f.size / 2 <= im.h
    modifies im.pixels
    ensures im.pixels[..] == ColumnScan(old(im.pixels[..]), im.w, im.h, im.threshold, f, x, y0, y1)
  {
    ghost var s, w, h, t := im.pixels[..], im.w, im.h, im.threshold;
    var y := y0;
    while y < y1
      invariant y0 <= y && (y == y0 || y <= y1)
      invariant im.pixels[..] == ColumnScan(s, w, h, t, f, x, y0, y)
    {
      im.ApplyFilter(x, y, f);
      y := y + 1;
    }
  }

  /** The outer loop: columns `c` up to `xEnd`, each scanned from row `c` up to `yEnd`. */
  method ScanGrid(im: VecImg, f: Filter, c: nat, xEnd: nat, yEnd: nat)
    requires im.Valid() && WellFormed(f) && f.div != 0.0
    requires c == f.size / 2 && c <= xEnd && xEnd + c <= im.w && yEnd + c <= im.h
    modifies im.pixels
    ensures im.pixels[..] == GridScan(old(im.pixels[..]), im.w, im.h, im.threshold, f, xEnd, yEnd)
  {
    ghost var s := im.pixels[..];
    var x := c;
    while x < xEnd
      invariant c <= x <= xEnd
      invariant im.pixels[..] == GridScan(s, im.w, im.h, im.threshold, f, x, yEnd)
    {
      ScanColumn(im, f, x, c, yEnd);
      x := x + 1;
    }
  }

  /** The interior scan and the byte conversion of one image with one kernel. */
  method DitherImage(im: VecImg, f: Filter) returns (r: DitherResult)
    requires im.Valid() && WellFormed(f) && f.div != 0.0
    modifies im.pixels
    ensures r.UnderflowPanic? <==> ScanPanics(im.w, im.h, f.size / 2)
    ensures r.UnderflowPanic? ==> im.pixels[..] == old(im.pixels[..])
    ensures r.Output? ==>
      im.pixels[..] == Dithered(old(im.pixels[..]), im.w, im.h, im.threshold, f) &&
      r.bytes == ScaleToBytes(im.pixels[..], 256.0)
  {
    var c := f.size / 2;
    if im.w < c {
      return UnderflowPanic;
    }
    var xEnd := im.w - c;
    if xEnd <= c {
      assert ScanOrder(im.w, im.h, c) == [];
      return Output(ScaleToBytes(im.pixels[..], 256.0));
    }
    if im.h < c {
      return UnderflowPanic;
    }
    DitheredIsGridScan(im.pixels[..], im.w, im.h, im.threshold, f);
    ScanGrid(im, f, c, xEnd, im.h - c);
    r := Output(ScaleToBytes(im.pixels[..], 256.0));
  }
}

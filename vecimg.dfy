/** The luminance image: a flat row-major buffer of linear-light samples, its
    width and height, and the threshold derived once from a 256-bucket histogram;
    plus the per-pixel quantize-and-diffuse step. */
module VecImage {
  import opened Bytes
  import opened Filters

  // ---------------------------------------------------------------------------
  // Histogram of bucketed luminances

  /** Occurrences of value `b` in `s`. */
  function Count(s: seq<byte>, b: int): nat
  {
    if s == [] then 0
    else Count(s[..|s| - 1], b) + (if s[|s| - 1] as int == b then 1 else 0)
  }

  /** 256 buckets, each starting at 1 and counting one more for every occurrence. */
  function Histogram(lum: seq<byte>): (bins: seq<nat>)
    ensures |bins| == 256
  {
    seq(256, k => 1 + Count(lum, k))
  }

  function Sum(s: seq<nat>): nat
  {
    if s == [] then 0 else Sum(s[..|s| - 1]) + s[|s| - 1]
  }

  /** The shape of every histogram the program builds. */
  predicate IsHistogram(bins: seq<nat>)
  {
    |bins| == 256 && forall k :: 0 <= k < |bins| ==> bins[k] >= 1
  }

  /** The bucket counter: one pass over the input, incrementing a fixed array. */
  method BinLum(pixels: seq<byte>) returns (bins: seq<nat>)
    ensures |bins| == 256
    ensures forall k :: 0 <= k < 256 ==> bins[k] == 1 + Count(pixels, k)
    ensures bins == Histogram(pixels)
  {
    var res := new nat[256](_ => 1);
    var i := 0;
    while i < |pixels|
      invariant 0 <= i <= |pixels|
      invariant forall k :: 0 <= k < 256 ==> res[k] == 1 + Count(pixels[..i], k)
    {
      assert pixels[..i + 1][..i] == pixels[..i];
      var p := pixels[i];
      res[p] := res[p] + 1;
      i := i + 1;
    }
    assert pixels[..i] == pixels;
    bins := res[..];
  }

  lemma {:induction false} SumIncrement(s: seq<nat>, i: nat)
    requires i < |s|
    ensures Sum(s[i := s[i] + 1]) == Sum(s) + 1
  {
    var t := s[i := s[i] + 1];
    assert t[..|t| - 1] == if i < |s| - 1 then s[..|s| - 1][i := s[i] + 1] else s[..|s| - 1];
    if i < |s| - 1 {
      SumIncrement(s[..|s| - 1], i);
    }
  }

  lemma {:induction false} SumOfOnes(s: seq<nat>)
    requires forall k :: 0 <= k < |s| ==> s[k] == 1
    ensures Sum(s) == |s|
  {
    if s != [] {
      SumOfOnes(s[..|s| - 1]);
    }
  }

  lemma {:induction false} SumAtLeastLength(s: seq<nat>)
    requires forall k :: 0 <= k < |s| ==> s[k] >= 1
    ensures Sum(s) >= |s|
  {
    if s != [] {
      SumAtLeastLength(s[..|s| - 1]);
    }
  }

  /** Every bucket is at least 1 and the buckets add up to 256 plus the input length. */
  lemma {:induction false} HistogramTotal(lum: seq<byte>)
    ensures IsHistogram(Histogram(lum))
    ensures Sum(Histogram(lum)) == 256 + |lum|
  {
    if lum == [] {
      SumOfOnes(Histogram(lum));
    } else {
      var pre, b := lum[..|lum| - 1], lum[|lum| - 1];
      HistogramTotal(pre);
      var hp := Histogram(pre);
      assert Histogram(lum) == hp[b as int := hp[b] + 1];
      SumIncrement(hp, b as int);
    }
  }

  // ---------------------------------------------------------------------------
  // Threshold

  /** The fold over the buckets in index order: the sum of `i / bins[i]` for `i < n`. */
  function IndexOverCount(bins: seq<nat>, n: nat): real
    requires n <= |bins|
    requires forall k :: 0 <= k < |bins| ==> bins[k] >= 1
  {
    if n == 0 then 0.0
    else IndexOverCount(bins, n - 1) + (n - 1) as real / bins[n - 1] as real
  }

  /** The threshold: the index-over-count fold divided by the total count. */
  function Threshold(bins: seq<nat>): real
    requires IsHistogram(bins)
  {
    SumAtLeastLength(bins);
    IndexOverCount(bins, 256) / Sum(bins) as real
  }

  lemma DivByAtLeastOne(i: real, b: real)
    requires i >= 0.0 && b >= 1.0
    ensures 0.0 <= i / b <= i
  {
    assert i / b * b == i;
    assert i / b * b >= i / b;
  }

  /** Each term `i / bins[i]` lies in `[0, i]`, so the first `n` terms add up to
      at most `0 + 1 + ... + (n - 1)`. */
  lemma {:induction false} IndexOverCountBounds(bins: seq<nat>, n: nat)
    requires n <= |bins|
    requires forall k :: 0 <= k < |bins| ==> bins[k] >= 1
    ensures 0.0 <= IndexOverCount(bins, n)
    ensures IndexOverCount(bins, n) * 2.0 <= (n * (n - 1)) as real
  {
    if n > 0 {
      IndexOverCountBounds(bins, n - 1);
      DivByAtLeastOne((n - 1) as real, bins[n - 1] as real);
      var m := n - 1;
      assert n * (n - 1) == m * (m - 1) + 2 * m;
    }
  }

  /** With every bucket at 1 the fold is exactly `0 + 1 + ... + (n - 1)`. */
  lemma {:induction false} IndexOverCountOnes(bins: seq<nat>, n: nat)
    requires n <= |bins|
    requires forall k :: 0 <= k < |bins| ==> bins[k] == 1
    ensures IndexOverCount(bins, n) * 2.0 == (n * (n - 1)) as real
  {
    if n > 0 {
      IndexOverCountOnes(bins, n - 1);
      var m := n - 1;
      assert n * (n - 1) == m * (m - 1) + 2 * m;
    }
  }

  /** The threshold lies between 0 and 32640 / (256 + n) for n bucketed samples. */
  lemma ThresholdBounds(lum: seq<byte>)
    ensures IsHistogram(Histogram(lum))
    ensures 0.0 <= Threshold(Histogram(lum)) <= 32640.0 / (256 + |lum|) as real
  {
    var bins := Histogram(lum);
    HistogramTotal(lum);
    IndexOverCountBounds(bins, 256);
    var total := (256 + |lum|) as real;
    var ioc := IndexOverCount(bins, 256);
    assert ioc <= 32640.0;
    assert ioc / total <= 32640.0 / total;
  }

  /** The threshold is not a value in [0, 1]: with no samples at all it is 127.5. */
  lemma EmptyImageThreshold()
    ensures IsHistogram(Histogram([]))
    ensures Threshold(Histogram([])) == 127.5
  {
    var bins := Histogram([]);
    HistogramTotal([]);
    IndexOverCountOnes(bins, 256);
  }

  // ---------------------------------------------------------------------------
  // Row-major addressing

  /** The buffer index of the sample at column `x`, row `y`. */
  function Offset(w: nat, x: nat, y: nat): nat
  {
    x + y * w
  }

  lemma OffsetInBounds(w: nat, h: nat, x: nat, y: nat)
    requires x < w && y < h
    ensures Offset(w, x, y) < w * h
  {
    assert y * w + w <= h * w by {
      assert (y + 1) * w <= h * w;
    }
  }

  lemma MulAtLeast(a: int, w: nat)
    requires a >= 1
    ensures a * w >= w
  {
    assert a * w == (a - 1) * w + w;
  }

  /** Euclidean division by a positive width has exactly one quotient and remainder. */
  lemma DivModUnique(k: int, w: nat, q: int, r: int)
    requires 0 <= r < w && k == q * w + r
    ensures k / w == q && k % w == r
  {
    var q', r' := k / w, k % w;
    assert k == q' * w + r' && 0 <= r' < w;
    assert (q' - q) * w == r - r';
    if q' > q {
      MulAtLeast(q' - q, w);
    } else if q' < q {
      MulAtLeast(q - q', w);
    }
  }

  /** The column and row are recovered from the offset by `% w` and `/ w`. */
  lemma OffsetRoundTrip(w: nat, x: nat, y: nat)
    requires x < w
    ensures Offset(w, x, y) % w == x && Offset(w, x, y) / w == y
  {
    DivModUnique(x + y * w, w, y, x);
  }

  /** Distinct in-row coordinates give distinct offsets. */
  lemma OffsetInjective(w: nat, x1: nat, y1: nat, x2: nat, y2: nat)
    requires x1 < w && x2 < w
    requires Offset(w, x1, y1) == Offset(w, x2, y2)
    ensures x1 == x2 && y1 == y2
  {
    OffsetRoundTrip(w, x1, y1);
    OffsetRoundTrip(w, x2, y2);
  }

  /** Every index is the offset of its own column and row. */
  lemma OffsetOfColumnRow(w: nat, k: nat)
    requires w > 0
    ensures k % w < w && k == Offset(w, k % w, k / w)
  {
  }

  // ---------------------------------------------------------------------------
  // Quantization and the diffusion window

  /** A sample becomes 0 when it is at most the threshold and 1 otherwise; the
      error is what was lost, so the two add back up to the sample. */
  function Quantize(threshold: real, p: real): (r: (real, real))
    ensures r.0 == 0.0 || r.0 == 1.0
    ensures r.0 + r.1 == p
    ensures r.0 == 0.0 <==> p <= threshold
  {
    if p <= threshold then (0.0, p) else (1.0, p - 1.0)
  }

  /** The `n x n` window centred on `(ax, ay)` lies inside the image: the bounds
      under which every access of the per-pixel step is valid. */
  predicate WindowFits(w: nat, h: nat, ax: nat, ay: nat, n: nat)
  {
    ax >= n / 2 && ay >= n / 2 && ax + n / 2 < w && ay + n / 2 < h
  }

  /** Index `k` is inside the window whose top-left cell is column `ax - n/2`, row `ay - n/2`. */
  predicate InWindow(w: nat, ax: nat, ay: nat, n: nat, k: nat)
    requires w > 0
  {
    ax - n / 2 <= k % w < ax - n / 2 + n && ay - n / 2 <= k / w < ay - n / 2 + n
  }

  /** Window cell `(i, j)` comes before `(ci, cj)` in the step's own i-outer, j-inner order. */
  predicate CellDone(i: int, j: int, ci: int, cj: int)
  {
    i < ci || (i == ci && j < cj)
  }

  /** What index `k` has gained once the window cells before `(ci, cj)` are applied. */
  function PartialGain(w: nat, ax: nat, ay: nat, f: Filter, e: real, k: nat, ci: int, cj: int): real
    requires w > 0 && WellFormed(f) && f.div != 0.0
  {
    var n := f.size;
    if InWindow(w, ax, ay, n, k) && CellDone(k % w - (ax - n / 2), k / w - (ay - n / 2), ci, cj)
    then f.matrix[k % w - (ax - n / 2)][k / w - (ay - n / 2)] * e / f.div
    else 0.0
  }

  /** What index `k` gains from diffusing error `e` over the whole window. */
  function Gain(w: nat, ax: nat, ay: nat, f: Filter, e: real, k: nat): real
    requires w > 0 && WellFormed(f) && f.div != 0.0
  {
    var n := f.size;
    if InWindow(w, ax, ay, n, k)
    then f.matrix[k % w - (ax - n / 2)][k / w - (ay - n / 2)] * e / f.div
    else 0.0
  }

  /** The buffer after one step at `(ax, ay)`: every window sample gains its share
      of the error, then the centre is overwritten with the quantized value. */
  function Filtered(s: seq<real>, w: nat, h: nat, t: real, ax: nat, ay: nat, f: Filter): (r: seq<real>)
    requires |s| == w * h && WellFormed(f) && f.div != 0.0
    requires WindowFits(w, h, ax, ay, f.size)
    ensures |r| == |s|
  {
    OffsetInBounds(w, h, ax, ay);
    var centre := Offset(w, ax, ay);
    var (q, e) := Quantize(t, s[centre]);
    seq(|s|, k requires 0 <= k < |s| => if k == centre then q else s[k] + Gain(w, ax, ay, f, e, k))
  }

  /** Every cell of a window that fits lies inside the buffer, in the column and row
      the cell designates. */
  lemma WindowCellInBounds(w: nat, h: nat, ax: nat, ay: nat, n: nat, i: nat, j: nat)
    requires WindowFits(w, h, ax, ay, n) && i < n && j < n
    ensures ax - n / 2 + i < w && ay - n / 2 + j < h
    ensures Offset(w, ax - n / 2 + i, ay - n / 2 + j) < w * h
  {
    OffsetInBounds(w, h, ax - n / 2 + i, ay - n / 2 + j);
  }

  /** After one step the centre holds the quantized value, whatever the centre weight. */
  lemma FilteredCentre(s: seq<real>, w: nat, h: nat, t: real, ax: nat, ay: nat, f: Filter)
    requires |s| == w * h && WellFormed(f) && f.div != 0.0
    requires WindowFits(w, h, ax, ay, f.size)
    ensures Offset(w, ax, ay) < |s|
    ensures Filtered(s, w, h, t, ax, ay, f)[Offset(w, ax, ay)] == Quantize(t, s[Offset(w, ax, ay)]).0
  {
    OffsetInBounds(w, h, ax, ay);
  }

  /** After one step every window cell other than the centre has gained exactly
      `matrix[i][j] * e / div`, `e` being the error of the centre's original sample. */
  lemma FilteredWindowCell(s: seq<real>, w: nat, h: nat, t: real, ax: nat, ay: nat, f: Filter, i: nat, j: nat)
    requires |s| == w * h && WellFormed(f) && f.div != 0.0
    requires WindowFits(w, h, ax, ay, f.size)
    requires i < f.size && j < f.size && (i, j) != (f.size / 2, f.size / 2)
    ensures Offset(w, ax, ay) < |s|
    ensures Offset(w, ax - f.size / 2 + i, ay - f.size / 2 + j) < |s|
    ensures var cell := Offset(w, ax - f.size / 2 + i, ay - f.size / 2 + j);
      Filtered(s, w, h, t, ax, ay, f)[cell] ==
        s[cell] + f.matrix[i][j] * Quantize(t, s[Offset(w, ax, ay)]).1 / f.div
  {
    var c := f.size / 2;
    OffsetInBounds(w, h, ax, ay);
    WindowCellInBounds(w, h, ax, ay, f.size, i, j);
    OffsetRoundTrip(w, ax - c + i, ay - c + j);
    if Offset(w, ax - c + i, ay - c + j) == Offset(w, ax, ay) {
      OffsetInjective(w, ax - c + i, ay - c + j, ax, ay);
    }
  }

  /** A step leaves every sample outside its window unchanged (the centre is inside
      the window of any non-empty kernel). */
  lemma FilteredOutside(s: seq<real>, w: nat, h: nat, t: real, ax: nat, ay: nat, f: Filter, k: nat)
    requires |s| == w * h && WellFormed(f) && f.div != 0.0
    requires WindowFits(w, h, ax, ay, f.size)
    requires k < |s| && !InWindow(w, ax, ay, f.size, k)
    ensures f.size > 0 ==> k != Offset(w, ax, ay)
    ensures k != Offset(w, ax, ay) ==> Filtered(s, w, h, t, ax, ay, f)[k] == s[k]
  {
    OffsetRoundTrip(w, ax, ay);
  }

  /** One more cell of the window applied: only the cell's own index changes. */
  lemma PartialGainStep(w: nat, ax: nat, ay: nat, f: Filter, e: real, ci: nat, cj: nat, k: nat)
    requires w > 0 && WellFormed(f) && f.div != 0.0
    requires ci < f.size && cj < f.size && ax >= f.size / 2 && ay >= f.size / 2
    requires ax - f.size / 2 + ci < w
    ensures var cell := Offset(w, ax - f.size / 2 + ci, ay - f.size / 2 + cj);
      PartialGain(w, ax, ay, f, e, k, ci, cj + 1) ==
        if k == cell then PartialGain(w, ax, ay, f, e, k, ci, cj) + f.matrix[ci][cj] * e / f.div
        else PartialGain(w, ax, ay, f, e, k, ci, cj)
  {
    var c := f.size / 2;
    var cell := Offset(w, ax - c + ci, ay - c + cj);
    OffsetRoundTrip(w, ax - c + ci, ay - c + cj);
    OffsetOfColumnRow(w, k);
  }

  // ---------------------------------------------------------------------------
  // The image

  class VecImg {
    const w: nat
    /** Recorded but never read by the program. */
    const h: nat
    var pixels: array<real>
    var threshold: real

    ghost predicate Valid()
      reads this
    {
      pixels.Length == w * h
    }

    /** Construction from precomputed luminances: the samples are stored as given and
        the threshold comes from the histogram of the samples scaled by 255 and cast
        to bytes. */
    constructor FromLuminance(w: nat, h: nat, lum: seq<real>)
      requires |lum| == w * h
      ensures Valid() && fresh(pixels)
      ensures this.w == w && this.h == h && pixels[..] == lum
      ensures IsHistogram(Histogram(ScaleToBytes(lum, 255.0)))
      ensures threshold == Threshold(Histogram(ScaleToBytes(lum, 255.0)))
    {
      var bins := BinLum(ScaleToBytes(lum, 255.0));
      HistogramTotal(ScaleToBytes(lum, 255.0));
      this.w, this.h := w, h;
      pixels := new real[|lum|](k requires 0 <= k < |lum| => lum[k]);
      threshold := Threshold(bins);
    }

    /** Read access by column and row. */
    method Get(x: nat, y: nat) returns (p: real)
      requires Offset(w, x, y) < pixels.Length
      ensures p == pixels[Offset(w, x, y)]
    {
      p := pixels[x + y * w];
    }

    /** Write access by column and row: exactly one sample changes. */
    method Set(x: nat, y: nat, v: real)
      requires Offset(w, x, y) < pixels.Length
      modifies pixels
      ensures pixels[..] == old(pixels[..])[Offset(w, x, y) := v]
    {
      pixels[x + y * w] := v;
    }

    /** The per-pixel step: quantize the sample at `(at_x, at_y)`, add
        `matrix[i][j] * e / div` to every sample of the window, then overwrite the
        centre with the quantized value. */
    method ApplyFilter(at_x: nat, at_y: nat, f: Filter)
      requires Valid() && WellFormed(f) && f.div != 0.0
      requires WindowFits(w, h, at_x, at_y, f.size)
      modifies pixels
      ensures pixels[..] == Filtered(old(pixels[..]), w, h, threshold, at_x, at_y, f)
    {
      var n := |f.matrix|;
      OffsetInBounds(w, h, at_x, at_y);
      var p := Get(at_x, at_y);
      var (q, e) := Quantize(threshold, p);
      ghost var s := pixels[..];
      for i := 0 to n
        invariant pixels.Length == |s|
        invariant forall k :: 0 <= k < |s| ==> pixels[k] == s[k] + PartialGain(w, at_x, at_y, f, e, k, i, 0)
      {
        for j := 0 to n
          invariant pixels.Length == |s|
          invariant forall k :: 0 <= k < |s| ==> pixels[k] == s[k] + PartialGain(w, at_x, at_y, f, e, k, i, j)
        {
          WindowCellInBounds(w, h, at_x, at_y, n, i, j);
          var x, y := at_x - n / 2 + i, at_y - n / 2 + j;
          var cur := Get(x, y);
          Set(x, y, cur + f.matrix[i][j] * e / f.div);
          forall k | 0 <= k < |s|
            ensures pixels[k] == s[k] + PartialGain(w, at_x, at_y, f, e, k, i, j + 1)
          {
            PartialGainStep(w, at_x, at_y, f, e, i, j, k);
          }
        }
        forall k | 0 <= k < |s|
          ensures PartialGain(w, at_x, at_y, f, e, k, i, n) == PartialGain(w, at_x, at_y, f, e, k, i + 1, 0)
        {
        }
      }
      forall k | 0 <= k < |s|
        ensures PartialGain(w, at_x, at_y, f, e, k, n, 0) == Gain(w, at_x, at_y, f, e, k)
      {
      }
      Set(at_x, at_y, q);
    }
  }
}

/** The kernel catalog: four constant error-diffusion filters.

    `matrix[i][j]` is the weight given to the sample at x-offset `i - size/2`
    and y-offset `j - size/2` from the pixel being quantized, so each row of a
    matrix as written is an image COLUMN. */
module Filters {

  datatype Filter = Filter(name: string, matrix: seq<seq<real>>, div: real, size: nat)

  /** The constructor: `size` is always the side length of the matrix. The
      source's `[[f32; N]; N]` parameter makes every row `N` weights long. */
  function NewFilter(name: string, div: real, matrix: seq<seq<real>>): (f: Filter)
    requires forall i | 0 <= i < |matrix| :: |matrix[i]| == |matrix|
    ensures f.size == |matrix| && WellFormed(f)
    ensures f.name == name && f.div == div && f.matrix == matrix
  {
    Filter(name, matrix, div, |matrix|)
  }

  /** The shape the source's `[[f32; N]; N]` type guarantees: N rows of N weights,
      and `size == N`. */
  predicate WellFormed(f: Filter)
  {
    f.size == |f.matrix| && forall i :: 0 <= i < |f.matrix| ==> |f.matrix[i]| == f.size
  }

  predicate NonNegative(f: Filter)
    requires WellFormed(f)
  {
    forall i, j :: 0 <= i < f.size && 0 <= j < f.size ==> f.matrix[i][j] >= 0.0
  }

  /** Cell `(i, j)` targets the pixel itself or one visited after it by a scan
      with x outer and y inner. */
  predicate AtOrAfterCentre(i: nat, j: nat, c: nat)
  {
    i > c || (i == c && j >= c)
  }

  /** Cell `(i, j)` targets a pixel strictly after the centre in scan order. */
  predicate AfterCentre(i: nat, j: nat, c: nat)
  {
    i > c || (i == c && j > c)
  }

  /** Every non-zero weight diffuses to the centre (which is then overwritten)
      or to a pixel not yet visited. */
  predicate DiffusesForward(f: Filter)
    requires WellFormed(f)
  {
    forall i, j :: 0 <= i < f.size && 0 <= j < f.size && f.matrix[i][j] != 0.0 ==>
      AtOrAfterCentre(i, j, f.size / 2)
  }

  /** Every non-zero weight diffuses to a pixel not yet visited; the centre too is zero. */
  predicate StrictlyForward(f: Filter)
    requires WellFormed(f)
  {
    forall i, j :: 0 <= i < f.size && 0 <= j < f.size && f.matrix[i][j] != 0.0 ==>
      AfterCentre(i, j, f.size / 2)
  }

  function RowSum(row: seq<real>): real
  {
    if row == [] then 0.0 else row[0] + RowSum(row[1..])
  }

  function MatrixSum(m: seq<seq<real>>): real
  {
    if m == [] then 0.0 else RowSum(m[0]) + MatrixSum(m[1..])
  }

  /** The sum of all weights, centre included. */
  function WeightSum(f: Filter): real
  {
    MatrixSum(f.matrix)
  }

  /** The share of the error that actually reaches other pixels: every weight but
      the centre one, whose target is overwritten with the quantized value. */
  function DiffusedSum(f: Filter): real
    requires WellFormed(f) && f.size > 0
  {
    WeightSum(f) - f.matrix[f.size / 2][f.size / 2]
  }

  const Atkinson: Filter := NewFilter(
    "atkinson",
    8.0,
    [
      [0.0, 0.0, 0.0, 0.0, 0.0],
      [0.0, 0.0, 0.0, 0.0, 0.0],
      [0.0, 0.0, 0.0, 1.0, 1.0],
      [0.0, 1.0, 1.0, 1.0, 0.0],
      [0.0, 0.0, 1.0, 0.0, 0.0]
    ])

  const FloydSteinberg: Filter := NewFilter(
    "floydsteinberg",
    16.0,
    [[0.0, 0.0, 0.0], [0.0, 1.0, 7.0], [3.0, 5.0, 1.0]])

  const Jjn: Filter := NewFilter(
    "jjn",
    48.0,
    [
      [0.0, 0.0, 0.0, 0.0, 0.0],
      [0.0, 0.0, 0.0, 0.0, 0.0],
      [0.0, 0.0, 0.0, 7.0, 5.0],
      [3.0, 5.0, 7.0, 5.0, 3.0],
      [1.0, 3.0, 5.0, 3.0, 1.0]
    ])

  const Stucki: Filter := NewFilter(
    "stucki",
    42.0,
    [
      [0.0, 0.0, 0.0, 0.0, 0.0],
      [0.0, 0.0, 0.0, 0.0, 0.0],
      [0.0, 0.0, 0.0, 8.0, 4.0],
      [2.0, 4.0, 8.0, 4.0, 2.0],
      [1.0, 2.0, 4.0, 2.0, 1.0]
    ])

  const Catalog: seq<Filter> := [Atkinson, FloydSteinberg, Jjn, Stucki]

  /** Atkinson diffuses six eighths of the error: six weights of 1 over a divisor of 8. */
  lemma AtkinsonWeights()
    ensures WellFormed(Atkinson) && Atkinson.size == 5 && Atkinson.div == 8.0
    ensures forall i, j :: 0 <= i < 5 && 0 <= j < 5 ==>
      Atkinson.matrix[i][j] == 0.0 || Atkinson.matrix[i][j] == 1.0
    ensures WeightSum(Atkinson) == 6.0 && DiffusedSum(Atkinson) == 6.0
    ensures DiffusedSum(Atkinson) == Atkinson.div * 3.0 / 4.0
  {
  }

  /** Floyd-Steinberg: the weights 7, 3, 5, 1 share out the whole error over 16;
      the centre carries a weight of 1 that the per-pixel step overwrites. */
  lemma FloydSteinbergWeights()
    ensures WellFormed(FloydSteinberg) && FloydSteinberg.size == 3 && FloydSteinberg.div == 16.0
    ensures FloydSteinberg.matrix[1][1] == 1.0
    ensures WeightSum(FloydSteinberg) == 17.0
    ensures DiffusedSum(FloydSteinberg) == FloydSteinberg.div
  {
  }

  lemma JjnWeights()
    ensures WellFormed(Jjn) && Jjn.size == 5 && Jjn.div == 48.0
    ensures WeightSum(Jjn) == Jjn.div && DiffusedSum(Jjn) == Jjn.div
  {
  }

  lemma StuckiWeights()
    ensures WellFormed(Stucki) && Stucki.size == 5 && Stucki.div == 42.0
    ensures WeightSum(Stucki) == Stucki.div && DiffusedSum(Stucki) == Stucki.div
  {
  }

  /** The 5x5 kernels never weight a cell at or before the centre in scan order. */
  lemma {:induction false} FiveByFiveForward(f: Filter)
    requires f in [Atkinson, Jjn, Stucki]
    ensures WellFormed(f) && StrictlyForward(f)
  {
    assert f.size == 5 && |f.matrix| == 5;
    assert forall j :: 0 <= j < 5 ==> f.matrix[0][j] == 0.0 && f.matrix[1][j] == 0.0;
    assert f.matrix[2][0] == 0.0 && f.matrix[2][1] == 0.0 && f.matrix[2][2] == 0.0;
  }

  /** The centre of Floyd-Steinberg is the one weight in the catalog that does not
      point past the current pixel. */
  lemma {:induction false} FloydSteinbergForward()
    ensures WellFormed(FloydSteinberg) && DiffusesForward(FloydSteinberg)
    ensures !StrictlyForward(FloydSteinberg)
    ensures forall i, j :: 0 <= i < 3 && 0 <= j < 3 && FloydSteinberg.matrix[i][j] != 0.0 ==>
      AfterCentre(i, j, 1) || (i == 1 && j == 1)
  {
    var f := FloydSteinberg;
    assert f.matrix[1][1] != 0.0 && !AfterCentre(1, 1, 1);
    assert forall j :: 0 <= j < 3 ==> f.matrix[0][j] == 0.0;
    assert f.matrix[1][0] == 0.0;
  }

  /** Every catalog kernel is well formed, has non-negative weights, a positive
      divisor, and diffuses only forward in scan order. */
  lemma {:induction false} CatalogKernelsValid(f: Filter)
    requires f in Catalog
    ensures WellFormed(f) && f.size > 0 && NonNegative(f) && f.div > 0.0
    ensures DiffusesForward(f)
  {
    if f == FloydSteinberg {
      FloydSteinbergForward();
    } else {
      FiveByFiveForward(f);
    }
    forall i, j | 0 <= i < f.size && 0 <= j < f.size ensures f.matrix[i][j] >= 0.0 {
      assert f.size == 3 || f.size == 5;
    }
  }
}

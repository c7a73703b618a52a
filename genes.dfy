/** Shared vocabulary of the real-coded genetic algorithm: the per-gene bound
    pairs, the uniform draw that numpy uses to sample inside a bound pair,
    and the rows of a population matrix. */
module Genes {

  /** One row of the chromosome-limits matrix: the lower and upper limit of a gene. */
  datatype Bound = Bound(lower: real, upper: real)

  /** `x` lies in the closed interval spanned by `a` and `b`, whichever is larger. */
  predicate Between(x: real, a: real, b: real) {
    (a <= x <= b) || (b <= x <= a)
  }

  /** A standard-uniform draw, as returned by numpy's `rand()`: a value in [0, 1). */
  predicate UnitDraw(u: real) {
    0.0 <= u < 1.0
  }

  /** One standard-uniform draw per cell of a `rows x cols` population: `grid[i][j]`. */
  predicate DrawGrid(grid: seq<seq<real>>, rows: nat, cols: nat) {
    |grid| == rows &&
    forall i :: 0 <= i < rows ==> |grid[i]| == cols && forall j :: 0 <= j < cols ==> UnitDraw(grid[i][j])
  }

  /** numpy's `uniform(low, high)` given the standard-uniform draw `u` it consumes:
      `low + (high - low) * u`. */
  function Uniform(low: real, high: real, u: real): (x: real)
    requires UnitDraw(u)
    ensures Between(x, low, high)
    ensures low < high ==> low <= x < high
  {
    low + Scale(high - low, u)
  }

  /** The offset `d * u` of a draw along a span `d`: between 0 and `d`, and strictly
      short of a positive `d`. */
  function Scale(d: real, u: real): (p: real)
    requires UnitDraw(u)
    ensures d >= 0.0 ==> 0.0 <= p <= d
    ensures d <= 0.0 ==> d <= p <= 0.0
    ensures d > 0.0 ==> p < d
  {
    // d * u and d * (1 - u) add up to d and share the sign of d.
    var v := 1.0 - u;
    assert d * u + d * v == d;
    if d > 0.0 then assert d * u >= 0.0 && d * v > 0.0; d * u
    else if d < 0.0 then assert d * u <= 0.0 && d * v < 0.0; d * u
    else assert d * u == 0.0; d * u
  }

  /** Row `i` of a population matrix, as the individual `pop[i]`. */
  function Row(pop: array2<real>, i: int): (r: seq<real>)
    requires 0 <= i < pop.Length0
    reads pop
    ensures |r| == pop.Length1
    ensures forall j :: 0 <= j < |r| ==> r[j] == pop[i, j]
  {
    seq(pop.Length1, j requires 0 <= j < pop.Length1 reads pop => pop[i, j])
  }
}

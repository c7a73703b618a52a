/** Arithmetic crossover of the value encoding: selected individuals are taken two
    at a time and each pair is replaced by two convex blends of its parents. */
module Crossover {
  import opened Genes

  /** The blend `alpha * a + (1 - alpha) * b`, gene by gene. */
  function Blend(alpha: real, a: seq<real>, b: seq<real>): (c: seq<real>)
    requires |a| == |b|
    ensures |c| == |a|
  {
    seq(|a|, j requires 0 <= j < |a| => alpha * a[j] + (1.0 - alpha) * b[j])
  }

  /** The two children of a pair together carry exactly what the parents carried. */
  lemma BlendConservesSum(alpha: real, a: seq<real>, b: seq<real>, j: int)
    requires |a| == |b| && 0 <= j < |a|
    ensures Blend(alpha, a, b)[j] + Blend(alpha, b, a)[j] == a[j] + b[j]
  {
  }

  /** With a weight in [0, 1] every child gene lies between the parents' genes. */
  lemma BlendBetween(alpha: real, a: seq<real>, b: seq<real>, j: int)
    requires |a| == |b| && 0 <= j < |a|
    requires 0.0 <= alpha <= 1.0
    ensures Between(Blend(alpha, a, b)[j], a[j], b[j])
  {
    var x := Blend(alpha, a, b)[j];
    var d := b[j] - a[j];
    var w := 1.0 - alpha;
    assert x == a[j] + w * d;
    if d >= 0.0 {
      assert 0.0 <= w * d <= d by { assert w * d + alpha * d == d; }
    } else {
      assert d <= w * d <= 0.0 by { assert w * d + alpha * d == d; }
    }
  }

  /** Each pair of the selection has one blend weight, a standard-uniform draw. */
  predicate PairDraws(alphas: seq<real>, n: nat) {
    |alphas| == n / 2 && forall p :: 0 <= p < |alphas| ==> UnitDraw(alphas[p])
  }

  /** The child at position `k` of the paired part of the offspring: an even position
      holds the first child of pair `k / 2`, an odd one the second. */
  function ChildAt(pop: array2<real>, sel: seq<int>, alphas: seq<real>, k: int): seq<real>
    requires forall i :: 0 <= i < |sel| ==> 0 <= sel[i] < pop.Length0
    requires |alphas| == |sel| / 2 && 0 <= k < |sel| - |sel| % 2
    reads pop
  {
    if k % 2 == 0 then Blend(alphas[k / 2], Row(pop, sel[k]), Row(pop, sel[k + 1]))
    else Blend(alphas[k / 2], Row(pop, sel[k]), Row(pop, sel[k - 1]))
  }

  /** The pair-indexed description of the offspring, restated by position. */
  lemma PairsByPosition(pop: array2<real>, sel: seq<int>, alphas: seq<real>, offspring: seq<seq<real>>)
    requires forall k :: 0 <= k < |sel| ==> 0 <= sel[k] < pop.Length0
    requires |alphas| == |sel| / 2 && |offspring| == |sel|
    requires forall p :: 0 <= p < |sel| / 2 ==>
      offspring[2 * p] == Blend(alphas[p], Row(pop, sel[2 * p]), Row(pop, sel[2 * p + 1])) &&
      offspring[2 * p + 1] == Blend(alphas[p], Row(pop, sel[2 * p + 1]), Row(pop, sel[2 * p]))
    ensures forall k :: 0 <= k < |sel| - |sel| % 2 ==> offspring[k] == ChildAt(pop, sel, alphas, k)
  {
    forall k | 0 <= k < |sel| - |sel| % 2
      ensures offspring[k] == ChildAt(pop, sel, alphas, k)
    {
      var p := k / 2;
      assert p < |sel| / 2;
      assert k == 2 * p || k == 2 * p + 1;
    }
  }

  /** `arithmetic_crossover`: for `i = 0, 2, 4, ...` the parents are the rows
      `pop[sel[i]]` and `pop[sel[i + 1]]`, blended with the weight drawn for that
      pair, `alphas[i / 2]`; a trailing unpaired individual is copied unchanged.
      Pair `p` thus yields the children `offspring[2p]` and `offspring[2p + 1]`. */
  method ArithmeticCrossover(pop: array2<real>, sel: seq<int>, alphas: seq<real>)
    returns (offspring: seq<seq<real>>)
    requires forall k :: 0 <= k < |sel| ==> 0 <= sel[k] < pop.Length0
    requires PairDraws(alphas, |sel|)
    ensures |offspring| == |sel|
    ensures forall k :: 0 <= k < |sel| ==> |offspring[k]| == pop.Length1
    ensures forall p :: 0 <= p < |sel| / 2 ==>
      offspring[2 * p] == Blend(alphas[p], Row(pop, sel[2 * p]), Row(pop, sel[2 * p + 1])) &&
      offspring[2 * p + 1] == Blend(alphas[p], Row(pop, sel[2 * p + 1]), Row(pop, sel[2 * p]))
    ensures forall k :: 0 <= k < |sel| - |sel| % 2 ==> offspring[k] == ChildAt(pop, sel, alphas, k)
    ensures |sel| % 2 == 1 ==> offspring[|sel| - 1] == Row(pop, sel[|sel| - 1])
    ensures forall p, j :: 0 <= p < |sel| / 2 && 0 <= j < pop.Length1 ==>
      offspring[2 * p][j] + offspring[2 * p + 1][j] == pop[sel[2 * p], j] + pop[sel[2 * p + 1], j]
    ensures forall p, j :: 0 <= p < |sel| / 2 && 0 <= j < pop.Length1 ==>
      Between(offspring[2 * p][j], pop[sel[2 * p], j], pop[sel[2 * p + 1], j]) &&
      Between(offspring[2 * p + 1][j], pop[sel[2 * p], j], pop[sel[2 * p + 1], j])
  {
    var n := |sel|;
    offspring := [];
    var i := 0;
    while i < n
      invariant 0 <= i <= n + 1 && i % 2 == 0
      invariant |offspring| == if i <= n then i else n
      invariant forall k :: 0 <= k < |offspring| ==> |offspring[k]| == pop.Length1
      invariant forall p :: 0 <= p < |offspring| / 2 ==>
        offspring[2 * p] == Blend(alphas[p], Row(pop, sel[2 * p]), Row(pop, sel[2 * p + 1])) &&
        offspring[2 * p + 1] == Blend(alphas[p], Row(pop, sel[2 * p + 1]), Row(pop, sel[2 * p]))
      invariant i > n ==> offspring[n - 1] == Row(pop, sel[n - 1])
    {
      if i + 1 < n {
        var parent1 := Row(pop, sel[i]);
        var parent2 := Row(pop, sel[i + 1]);
        var alpha := alphas[i / 2];
        var child1 := Blend(alpha, parent1, parent2);
        var child2 := Blend(alpha, parent2, parent1);
        offspring := offspring + [child1, child2];
      } else {
        offspring := offspring + [Row(pop, sel[i])];
      }
      i := i + 2;
    }
    forall p, j | 0 <= p < n / 2 && 0 <= j < pop.Length1
      ensures offspring[2 * p][j] + offspring[2 * p + 1][j] == pop[sel[2 * p], j] + pop[sel[2 * p + 1], j]
      ensures Between(offspring[2 * p][j], pop[sel[2 * p], j], pop[sel[2 * p + 1], j])
      ensures Between(offspring[2 * p + 1][j], pop[sel[2 * p], j], pop[sel[2 * p + 1], j])
    {
      var a, b := Row(pop, sel[2 * p]), Row(pop, sel[2 * p + 1]);
      BlendConservesSum(alphas[p], a, b, j);
      BlendBetween(alphas[p], a, b, j);
      BlendBetween(alphas[p], b, a, j);
    }
    PairsByPosition(pop, sel, alphas, offspring);
  }
}

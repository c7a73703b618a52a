/** Fitness of the value-encoded population. The objective (the eradication time
    to be minimised) is a parameter; fitness turns it into a score to maximise. */
module Evaluation {
  import opened Genes

  /** The constant added to the objective so that a zero time does not divide by zero. */
  const Epsilon: real := 0.000001

  /** Fitness of one individual whose objective value is `t`: `1 / (t + epsilon)`.
      For a non-negative time it is positive and at most `1 / epsilon`. */
  function FitnessOf(t: real): (f: real)
    requires t >= 0.0
    ensures 0.0 < f <= 1.0 / Epsilon
    ensures f * (t + Epsilon) == 1.0
  {
    1.0 / (t + Epsilon)
  }

  /** Taking reciprocals reverses the order of positive reals. */
  lemma ReciprocalDecreasing(a: real, b: real)
    requires 0.0 < a < b
    ensures 1.0 / b < 1.0 / a
  {
    var ra, rb := 1.0 / a, 1.0 / b;
    assert ra * a == 1.0 && rb * b == 1.0;
    assert rb * b - rb * a == rb * (b - a) > 0.0;
    assert (ra - rb) * a == ra * a - rb * a > 0.0;
  }

  /** A shorter time always scores higher, and an equal score means an equal time:
      maximising fitness is minimising the objective. */
  lemma FitnessReversesOrder(t1: real, t2: real)
    requires t1 >= 0.0 && t2 >= 0.0
    ensures t1 < t2 <==> FitnessOf(t1) > FitnessOf(t2)
    ensures t1 == t2 <==> FitnessOf(t1) == FitnessOf(t2)
  {
    if t1 < t2 {
      ReciprocalDecreasing(t1 + Epsilon, t2 + Epsilon);
    } else if t2 < t1 {
      ReciprocalDecreasing(t2 + Epsilon, t1 + Epsilon);
    }
  }

  /** `fitness`: one score per individual, written into a fresh vector in population
      order, from the objective value of that individual's row. */
  method Fitness(pop: array2<real>, objective: seq<real> -> real) returns (values: array<real>)
    requires forall x :: objective(x) >= 0.0
    ensures fresh(values)
    ensures values.Length == pop.Length0
    ensures forall i :: 0 <= i < pop.Length0 ==> values[i] == FitnessOf(objective(Row(pop, i)))
    ensures forall i :: 0 <= i < pop.Length0 ==> 0.0 < values[i] <= 1.0 / Epsilon
  {
    var nInd := pop.Length0;
    values := new real[nInd](_ => 0.0);
    var i := 0;
    while i < nInd
      invariant 0 <= i <= nInd
      invariant forall k :: 0 <= k < i ==> values[k] == FitnessOf(objective(Row(pop, k)))
    {
      var t := objective(Row(pop, i));
      values[i] := 1.0 / (t + Epsilon);
      i := i + 1;
    }
  }
}

/** Mutation of the value encoding: every gene independently has the chance
    `mutationRate` of being replaced by a fresh uniform draw from its bounds. */
module Mutation {
  import opened Genes

  /** `pop.copy()`: a new matrix of the same shape and contents. */
  method CopyPopulation(pop: array2<real>) returns (c: array2<real>)
    ensures fresh(c)
    ensures c.Length0 == pop.Length0 && c.Length1 == pop.Length1
    ensures forall i, j :: 0 <= i < pop.Length0 && 0 <= j < pop.Length1 ==> c[i, j] == pop[i, j]
  {
    c := new real[pop.Length0, pop.Length1]((_, _) => 0.0);
    var i := 0;
    while i < pop.Length0
      invariant 0 <= i <= pop.Length0
      invariant forall i', j :: 0 <= i' < i && 0 <= j < pop.Length1 ==> c[i', j] == pop[i', j]
    {
      var j := 0;
      while j < pop.Length1
        invariant 0 <= j <= pop.Length1
        invariant forall i', j' :: 0 <= i' < i && 0 <= j' < pop.Length1 ==> c[i', j'] == pop[i', j']
        invariant forall j' :: 0 <= j' < j ==> c[i, j'] == pop[i, j']
      {
        c[i, j] := pop[i, j];
        j := j + 1;
      }
      i := i + 1;
    }
  }

  /** `real_mutation`: copies the population, then for every cell `(i, j)` compares the
      trigger draw `triggers[i][j]` with the rate; below it, the gene becomes
      `uniform(lower_j, upper_j)` with the draw `draws[i][j]`. The limits of gene `j` are
      only read for a triggered cell. The input population is not modified. */
  method RealMutation(pop: array2<real>, mutationRate: real, cromLim: seq<Bound>,
                      triggers: seq<seq<real>>, draws: seq<seq<real>>)
    returns (newPop: array2<real>)
    requires DrawGrid(triggers, pop.Length0, pop.Length1)
    requires DrawGrid(draws, pop.Length0, pop.Length1)
    requires forall i, j :: 0 <= i < pop.Length0 && 0 <= j < pop.Length1 && triggers[i][j] < mutationRate ==>
      j < |cromLim|
    ensures fresh(newPop)
    ensures newPop.Length0 == pop.Length0 && newPop.Length1 == pop.Length1
    ensures forall i, j :: 0 <= i < pop.Length0 && 0 <= j < pop.Length1 && mutationRate <= triggers[i][j] ==>
      newPop[i, j] == pop[i, j]
    ensures forall i, j :: 0 <= i < pop.Length0 && 0 <= j < pop.Length1 && triggers[i][j] < mutationRate ==>
      newPop[i, j] == Uniform(cromLim[j].lower, cromLim[j].upper, draws[i][j]) &&
      Between(newPop[i, j], cromLim[j].lower, cromLim[j].upper)
    ensures mutationRate <= 0.0 ==>
      forall i, j :: 0 <= i < pop.Length0 && 0 <= j < pop.Length1 ==> newPop[i, j] == pop[i, j]
    ensures mutationRate >= 1.0 ==>
      forall i, j :: 0 <= i < pop.Length0 && 0 <= j < pop.Length1 ==>
        Between(newPop[i, j], cromLim[j].lower, cromLim[j].upper)
  {
    newPop := CopyPopulation(pop);
    var nInd, nCrom := pop.Length0, pop.Length1;
    var i := 0;
    while i < nInd
      invariant 0 <= i <= nInd
      invariant forall i', j :: 0 <= i' < nInd && 0 <= j < nCrom ==>
        newPop[i', j] == if i' < i && triggers[i'][j] < mutationRate
                         then Uniform(cromLim[j].lower, cromLim[j].upper, draws[i'][j])
                         else pop[i', j]
    {
      var j := 0;
      while j < nCrom
        invariant 0 <= j <= nCrom
        invariant forall i', j' :: 0 <= i' < nInd && 0 <= j' < nCrom ==>
          newPop[i', j'] == if (i' < i || (i' == i && j' < j)) && triggers[i'][j'] < mutationRate
                            then Uniform(cromLim[j'].lower, cromLim[j'].upper, draws[i'][j'])
                            else pop[i', j']
      {
        if triggers[i][j] < mutationRate {
          var inf := cromLim[j].lower;
          var sup := cromLim[j].upper;
          newPop[i, j] := Uniform(inf, sup, draws[i][j]);
        }
        j := j + 1;
      }
      i := i + 1;
    }
  }
}

/** Initial population for the value (real) encoding: an `nInd x nCrom` matrix
    whose gene `j` of every individual is drawn uniformly from the `j`-th bound pair. */
module Initialisation {
  import opened Genes

  /** `newpop`: allocates a zero matrix and fills it row by row, gene by gene, with
      `uniform(lower_j, upper_j)`; cell `(i, j)` consumes the draw `draws[i][j]`.
      The limits matrix is only read when there is at least one individual. */
  method NewPop(nInd: nat, nCrom: nat, cromLim: seq<Bound>, draws: seq<seq<real>>) returns (pop: array2<real>)
    requires nInd > 0 ==> nCrom <= |cromLim|
    requires DrawGrid(draws, nInd, nCrom)
    ensures fresh(pop)
    ensures pop.Length0 == nInd && pop.Length1 == nCrom
    ensures forall i, j :: 0 <= i < nInd && 0 <= j < nCrom ==>
      pop[i, j] == Uniform(cromLim[j].lower, cromLim[j].upper, draws[i][j])
    ensures forall i, j :: 0 <= i < nInd && 0 <= j < nCrom ==>
      Between(pop[i, j], cromLim[j].lower, cromLim[j].upper)
    ensures forall i, j :: 0 <= i < nInd && 0 <= j < nCrom && cromLim[j].lower < cromLim[j].upper ==>
      cromLim[j].lower <= pop[i, j] < cromLim[j].upper
  {
    pop := new real[nInd, nCrom]((_, _) => 0.0);
    var i := 0;
    while i < nInd
      invariant 0 <= i <= nInd
      invariant forall i', j :: 0 <= i' < i && 0 <= j < nCrom ==>
        pop[i', j] == Uniform(cromLim[j].lower, cromLim[j].upper, draws[i'][j])
    {
      var j := 0;
      while j < nCrom
        invariant 0 <= j <= nCrom
        invariant forall i', j' :: 0 <= i' < i && 0 <= j' < nCrom ==>
          pop[i', j'] == Uniform(cromLim[j'].lower, cromLim[j'].upper, draws[i'][j'])
        invariant forall j' :: 0 <= j' < j ==>
          pop[i, j'] == Uniform(cromLim[j'].lower, cromLim[j'].upper, draws[i][j'])
      {
        var inf := cromLim[j].lower;
        var sup := cromLim[j].upper;
        pop[i, j] := Uniform(inf, sup, draws[i][j]);
        j := j + 1;
      }
      i := i + 1;
    }
  }
}

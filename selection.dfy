/** Tournament selection: for each of the `N` rounds a sample of distinct
    competitor indices is drawn from `[0, N)` and the competitor with the
    strictly greatest fitness, the earliest one among equals, is selected. */
module Selection {

  /** Why a round cannot be played. With `N > 0`, sampling more competitors than there
      are individuals without replacement fails, and an empty sample has no first
      competitor to start from. */
  datatype SelectionError = SampleLargerThanPopulation | NoCompetitors

  datatype Result<T> = Success(value: T) | Failure(error: SelectionError)

  /** `comps` is a sample of `size` distinct indices of an `n`-individual population. */
  predicate Sample(comps: seq<int>, n: nat, size: nat) {
    |comps| == size &&
    (forall k :: 0 <= k < |comps| ==> 0 <= comps[k] < n) &&
    (forall k, m :: 0 <= k < m < |comps| ==> comps[k] != comps[m])
  }

  /** One sample per round, `n` rounds. */
  predicate Samples(competitors: seq<seq<int>>, n: nat, size: nat) {
    |competitors| == n && forall r :: 0 <= r < n ==> Sample(competitors[r], n, size)
  }

  /** Position `p` of the round holds a best competitor, and every competitor before it
      is strictly worse. */
  predicate FirstBestAt(fit: seq<real>, comps: seq<int>, p: int)
    requires forall k :: 0 <= k < |comps| ==> 0 <= comps[k] < |fit|
  {
    0 <= p < |comps| &&
    (forall k :: 0 <= k < |comps| ==> fit[comps[k]] <= fit[comps[p]]) &&
    (forall k :: 0 <= k < p ==> fit[comps[k]] < fit[comps[p]])
  }

  /** `w` is the winner of the round with competitors `comps`. */
  predicate Wins(fit: seq<real>, comps: seq<int>, w: int)
    requires forall k :: 0 <= k < |comps| ==> 0 <= comps[k] < |fit|
  {
    exists p :: 0 <= p < |comps| && FirstBestAt(fit, comps, p) && comps[p] == w
  }

  /** A round has at most one winner: the rule leaves nothing to chance. */
  lemma WinnerUnique(fit: seq<real>, comps: seq<int>, w1: int, w2: int)
    requires forall k :: 0 <= k < |comps| ==> 0 <= comps[k] < |fit|
    requires Wins(fit, comps, w1) && Wins(fit, comps, w2)
    ensures w1 == w2
  {
    var p1 :| 0 <= p1 < |comps| && FirstBestAt(fit, comps, p1) && comps[p1] == w1;
    var p2 :| 0 <= p2 < |comps| && FirstBestAt(fit, comps, p2) && comps[p2] == w2;
    // Neither position can precede the other: the earlier one would be strictly
    // worse than the later one, yet no competitor beats it.
    assert fit[comps[p2]] <= fit[comps[p1]] && fit[comps[p1]] <= fit[comps[p2]];
    assert p1 == p2;
  }

  /** The winner is one of the competitors, none of them is fitter, and any competitor
      exactly as fit stands at or after the winner's first position. */
  lemma WinnerIsEarliestBest(fit: seq<real>, comps: seq<int>, w: int)
    requires forall k :: 0 <= k < |comps| ==> 0 <= comps[k] < |fit|
    requires Wins(fit, comps, w)
    ensures w in comps
    ensures forall k :: 0 <= k < |comps| ==> fit[comps[k]] <= fit[w]
    ensures forall k :: 0 <= k < |comps| && fit[comps[k]] == fit[w] ==>
      exists p :: 0 <= p <= k && comps[p] == w
  {
    var p :| 0 <= p < |comps| && FirstBestAt(fit, comps, p) && comps[p] == w;
    forall k | 0 <= k < |comps| && fit[comps[k]] == fit[w]
      ensures exists p' :: 0 <= p' <= k && comps[p'] == w
    {
      assert !(k < p);
      assert 0 <= p <= k && comps[p] == w;
    }
  }

  /** A one-competitor round is won by that competitor. */
  lemma SingleCompetitorWins(fit: seq<real>, c: int, w: int)
    requires 0 <= c < |fit|
    requires Wins(fit, [c], w)
    ensures w == c
  {
    var p :| 0 <= p < 1 && FirstBestAt(fit, [c], p) && [c][p] == w;
    assert p == 0;
  }

  /** `tournament_selection`: plays `n = len(pop)` rounds; round `r` takes the sample
      `competitors[r]`, starts from its first competitor and replaces the current best
      only by a strictly fitter one, then appends the best index. */
  method TournamentSelection(n: nat, fit: array<real>, tournamentSize: nat, competitors: seq<seq<int>>)
    returns (r: Result<seq<int>>)
    requires n <= fit.Length
    requires n > 0 && 0 < tournamentSize <= n ==> Samples(competitors, n, tournamentSize)
    ensures r == Failure(SampleLargerThanPopulation) <==> n > 0 && tournamentSize > n
    ensures r == Failure(NoCompetitors) <==> n > 0 && tournamentSize == 0
    ensures r.Success? <==> !(n > 0 && (tournamentSize > n || tournamentSize == 0))
    ensures r.Success? ==> |r.value| == n
    ensures r.Success? ==> forall q :: 0 <= q < n ==>
      0 <= r.value[q] < n && Wins(fit[..], competitors[q], r.value[q])
  {
    if n > 0 && tournamentSize > n {
      return Failure(SampleLargerThanPopulation);
    }
    if n > 0 && tournamentSize == 0 {
      return Failure(NoCompetitors);
    }
    var selected: seq<int> := [];
    var round := 0;
    while round < n
      invariant 0 <= round <= n
      invariant |selected| == round
      invariant forall q :: 0 <= q < round ==>
        0 <= selected[q] < n && Wins(fit[..], competitors[q], selected[q])
    {
      var comps := competitors[round];
      var best := comps[0];
      ghost var pos := 0;
      var k := 0;
      while k < |comps|
        invariant 0 <= k <= |comps|
        invariant 0 <= pos < |comps| && pos <= k && best == comps[pos]
        invariant forall m :: 0 <= m < k ==> fit[comps[m]] <= fit[best]
        invariant forall m :: 0 <= m < pos ==> fit[comps[m]] < fit[best]
      {
        var idx := comps[k];
        if fit[idx] > fit[best] {
          best, pos := idx, k;
        }
        k := k + 1;
      }
      assert FirstBestAt(fit[..], comps, pos);
      selected := selected + [best];
      round := round + 1;
    }
    return Success(selected);
  }
}

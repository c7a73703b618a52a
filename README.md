# Real-coded genetic algorithm operators, modelled in Dafny

This project models the operators of a small real-valued genetic algorithm
(`Teste/teste.py`). An individual is a row of real genes. A population is an
`Nind x Ncrom` matrix. Each gene `j` has a lower and upper limit in the limits
matrix `CromLim`. The operators are:

- `newpop` builds the initial population. Every gene is drawn uniformly from its limits.
- `fitness` scores every individual as `1 / (t + 1e-6)`, where `t` is the eradication
  time to be minimised.
- `tournament_selection` plays one tournament per individual. Each tournament draws a
  sample of distinct indices and keeps the first of the fittest.
- `arithmetic_crossover` blends the selected individuals two by two.
- `real_mutation` replaces each gene, with probability `mutation_rate`, by a new uniform
  draw from its limits.

Every random draw is a parameter of the model:

- A standard-uniform draw `u` lies in `[0, 1)`, like numpy's `rand()`.
- `uniform(low, high)` is numpy's `low + (high - low) * u` (`Genes.Uniform`).
- A tournament sample is a sequence of distinct indices in `[0, N)`, like
  `choice(N, size, replace=False)`.

Bounds properties are therefore proved from the draws' range rather than assumed.
Reals are Dafny's mathematical reals.

Modules, one per operator, follow the sections of the source file:
`Genes` (limits, uniform draw, matrix rows), `Initialisation`, `Evaluation`,
`Selection`, `Crossover`, `Mutation`. Population matrices are `array2<real>`.
The fitness vector is an `array<real>`. The lists that the source grows by
`append`/`extend` (the selected indices, the offspring) are sequences that the loops
reassign. Each method's loop follows the source's loop.

## Model

| member | source | states |
|---|---|---|
| `Genes.Uniform` | Teste/teste.py:16-18 | a uniform draw from a limit pair lies between the two limits (in either order), and below the upper limit when lower < upper |
| `Initialisation.NewPop` | Teste/teste.py:5-19 | the result is a new matrix of `Nind` rows of `Ncrom` genes; gene `(i, j)` is the uniform draw from `CromLim[j]` with draw `(i, j)`, so it lies within `[lower_j, upper_j]`; the limits are needed only when `Nind > 0` |
| `Evaluation.FitnessOf` | Teste/teste.py:47-52 | for a non-negative time the score is positive, at most `1 / epsilon`, and is the reciprocal of `t + epsilon` |
| `Evaluation.FitnessReversesOrder` | Teste/teste.py:43-52 | a strictly shorter time gives a strictly higher score and conversely; equal scores mean equal times |
| `Evaluation.Fitness` | Teste/teste.py:40-53 | a new vector with one score per individual, in population order, each the score of that row's objective value, each in `(0, 1/epsilon]` |
| `Selection.TournamentSelection` | Teste/teste.py:57-75 | with `N > 0`, a tournament size above `N` or equal to 0 fails (and only then), and every other call succeeds with exactly `N` indices, each in `[0, N)` and each the winner of its round's competitors |
| `Selection.WinnerIsEarliestBest` | Teste/teste.py:70-74 | a round's winner is one of its competitors, none is fitter, and every equally fit competitor stands at or after the winner's first position |
| `Selection.WinnerUnique` | Teste/teste.py:70-73 | the winner rule determines a single index per round |
| `Selection.SingleCompetitorWins` | Teste/teste.py:69-73 | a one-competitor round selects that competitor |
| `Crossover.Blend` | Teste/teste.py:94-95 | the gene-wise blend `alpha * a + (1 - alpha) * b` of two parents, as long as its parents |
| `Crossover.BlendConservesSum` | Teste/teste.py:94-95 | the two children of a pair add up, gene by gene, to the two parents |
| `Crossover.BlendBetween` | Teste/teste.py:93-95 | with a weight in `[0, 1]` each child gene lies between the parents' genes |
| `Crossover.ArithmeticCrossover` | Teste/teste.py:79-99 | as many offspring as selected indices, each with the population's gene count; pair `p` gives the two blends of rows `sel[2p]` and `sel[2p+1]` with weight `alphas[p]` (restated by position: offspring `k` is the blend that starts from parent `sel[k]`), which conserve the parents' sum and stay between them; an odd last individual is copied unchanged |
| `Crossover.PairsByPosition` | Teste/teste.py:89-96 | when the offspring hold the two blends of every pair, each paired position `k` holds the child of pair `k / 2` that starts from parent `sel[k]` |
| `Mutation.CopyPopulation` | Teste/teste.py:112 | a new matrix with the same shape and contents |
| `Mutation.RealMutation` | Teste/teste.py:103-120 | a new matrix of the input's shape, input untouched; every gene whose trigger draw is not below the rate is unchanged; every triggered gene is the uniform draw from its limits and lies within them; a rate at or below 0 changes nothing; a rate at or above 1 puts every gene within its limits |

## Left out

- Random sampling itself (`np.random.uniform`, `rand`, `choice`): the draws are parameters
  with range and distinctness preconditions; distributional properties are not modelled.
- The objective `epidemic_eradication_time` and the `optimal` vector (Teste/teste.py:26-36):
  the objective is a parameter of `Evaluation.Fitness`, required to be non-negative, as the
  sum of squares in the source is.
- IEEE floating point: the division `1.0 / (t + 1e-6)` and the blends are computed over exact
  reals; rounding is not modelled.
- The driver script and its globals (Teste/teste.py:124-153), including its printing: it is
  top-level script code, not an operator.
- `Mutation.RealMutation`: the source consumes one sequential random stream, drawing a
  replacement only for a triggered gene; the model gives every cell a trigger draw and a
  replacement draw and reads the replacement only when triggered, so it does not model the
  order in which draws are consumed.
- `Initialisation.NewPop`: likewise one draw per cell instead of one stream in row-major order.
- `Initialisation.NewPop`: the IndexError that the source raises when `CromLim` has fewer rows
  than `Ncrom` (with at least one individual) is not modelled; the method requires enough limit rows.
- `Initialisation.NewPop`: the ValueError that `np.zeros` raises for a negative `Nind` or `Ncrom`
  is not modelled; both sizes are natural numbers.
- `Mutation.RealMutation`: the IndexError that the source raises when a triggered gene `j` has no
  row `j` in `CromLim` is not modelled; the method requires a limit row for every triggered gene.
- `Crossover.ArithmeticCrossover`: the final `np.array(...)` conversion is not modelled; the
  offspring are a sequence of rows. Negative (from-the-end) indices in `selected_indices`,
  which Python accepts, are not modelled; tournament selection never produces them.
- `Selection.TournamentSelection`: the IndexError that the source raises when a drawn competitor
  has no entry in `fitness_values` is not modelled; the method requires a score for every
  index in `[0, N)`, which `fitness(pop)` provides.
- `Crossover.ArithmeticCrossover`: the IndexError that the source raises for a selected index at
  or past `len(pop)` is not modelled; the method requires every selected index to name a row,
  which tournament selection's output does.
- `Selection.TournamentSelection`: the population is passed by its size, the only thing the
  operator reads of it; a negative tournament size is not modelled (the size is a natural number).
- The limits matrix is a sequence of (lower, upper) pairs; a limits matrix of any other
  shape is not modelled.

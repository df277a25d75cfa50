# Lotka-Volterra ecological simulator, modelled in Dafny

The `Ecological` class is a deterministic, discrete-time simulator for a small, fixed set of
species. Each species has a population `p`, a growth rate `r`, a baseline carrying capacity `K`
and a seasonal amplitude `A`. An interaction matrix `alpha` gives the signed effect of species
`j` on species `i`. A clock `t` starts at 1. Four time series record populations.

One step visits the species in index order and overwrites each population in place, then
advances the clock. The new population is computed in four stages:

1. A logistic increment `p + p*r*(1 - p/Keff)` is taken against the seasonal capacity
   `Keff = K*(1 + A*sin(pi/4*t))`.
2. The other species' effects `p_j*alpha[i][j]*p_i/K_i` are summed, leaving out `j = i`, and
   the sum is truncated toward zero.
3. That interaction term is added to the increment's result.
4. The total is truncated toward zero when positive, and set to zero otherwise.

Recording appends each species' current population to its series.

The project has five modules:

- `Truncation` (truncation.dfy): Python's `int(x)` on a float (truncation toward zero), and
  the clamp to a non-negative count.
- `Population` (population.dfy): the species record, the matrix, the shape requirements, and
  the built-in four-species preset (acorn, boar, wolf, human) with its matrix.
- `Growth` (growth.dfy): the growth law of one species as functions over `real`. Lemmas show:
  - the diagonal of the matrix is never read;
  - a zero row removes all interaction;
  - extinction is absorbing;
  - the growth of a species depends only on the species that act on it;
  - the interaction sum is truncated on its own before it is added.
- `StepOrder` (sweep.dfy): the in-place, index-ordered step as a specification function
  `Sweep`. Lemmas show that species `i` is grown from the new values of the species before it
  and the old values of the rest. Further lemmas cover non-negativity, record preservation,
  absorbing extinction over any number of steps, and when the in-place order agrees with
  growing every species from the pre-step populations.
- `LotkaVolterra` (ecological.dfy): the class `Ecological` with the source's fields and
  methods. Its methods are proved against the functions above.

The seasonal term `sin(pi/4*t)` is a value of type `Season`: a function from the clock to a
real in [-1, 1]. The constructor takes it as a parameter. The model uses nothing else about
sine.

Together with `K > 0` and `|A| < 1`, this bound keeps the seasonal capacity positive, so no
division by zero can occur. The constructor requires the species list and the matrix it
selects to satisfy these bounds, with a square matrix of the species count. The code validates
none of this.

The step updates in place: species `i` reads the already-updated populations of species
`j < i`. `StepSeesMixedState` states this order exactly. `SnapshotStep` is a reference
definition of the alternative order, in which every species is grown from the pre-step
populations; the simulator does not update that way. `InPlaceOrderDiffersFromSnapshot` shows
an input where the two orders differ. For the built-in matrix they agree, because it is zero
below the diagonal (`DefaultStepMatchesSnapshot`). A zero coefficient from `j` to `i` also does
not make `i` independent of `j` over a whole step (`InPlaceStepCouplesIndirectly`).

## Model

| member | source | states |
|---|---|---|
| `Truncation.Trunc` | Lotka-Volterra.py:41 | `int(x)` truncates toward zero: for `x >= 0` the result is the largest integer not above `x`; for `x < 0` it is the smallest integer not below `x` |
| `Truncation.Clamp` | Lotka-Volterra.py:34 | the stored population is non-negative; a positive value is truncated (result within 1 below it); a non-positive value gives 0 |
| `Truncation.TruncOdd` | Lotka-Volterra.py:41 | truncation commutes with negation, so -2.7 becomes -2 just as 2.7 becomes 2 (it is not floor) |
| `Population.DefaultSpecies` | Lotka-Volterra.py:16-20 | the preset has four species, each with a positive population, rate and capacity, an amplitude in (0, 1), and a population below its capacity |
| `Population.DefaultAlpha` | Lotka-Volterra.py:13-14 | the preset matrix is 4×4 with a zero diagonal, and its last row (humans) is all zero |
| `Population.DefaultsWellFormed` | Lotka-Volterra.py:7-9 | the preset species and matrix meet every shape and range requirement of the state |
| `Growth.Capacity` | Lotka-Volterra.py:32 | the seasonal capacity `K*(1+A*s)` is positive whenever `K > 0`, `abs(A) < 1` and `abs(s) <= 1`, and equals `K` when `A` or `s` is 0 |
| `Growth.Logistic` | Lotka-Volterra.py:32 | the logistic step keeps 0 at 0, holds a population at capacity fixed, raises a population below capacity and lowers one above it (for `r > 0`) |
| `Growth.Effect` | Lotka-Volterra.py:40 | one summand `p_j*alpha[i][j]*p_i/K_i` is 0 when the coefficient or either population is 0, and for non-negative populations has the sign of the coefficient |
| `Growth.InteractionSum` | Lotka-Volterra.py:37-40 | the accumulated sum over `j != i`; with non-negative populations, a row of non-negative coefficients gives a non-negative sum and a row of non-positive ones a non-positive sum |
| `Growth.InteractionTerm` | Lotka-Volterra.py:36-41 | the value `__interactions__` returns: the sum truncated toward zero, which is 0 exactly when the sum lies strictly between -1 and 1, and keeps the sum's sign otherwise |
| `Growth.NextPopulation` | Lotka-Volterra.py:27-34 | the new population of one species is a non-negative integer |
| `Growth.InteractionSumIgnoresDiagonal` | Lotka-Volterra.py:38-40 | changing `alpha[i][i]` never changes the interaction sum of species `i` |
| `Growth.InteractionSumZeroRow` | Lotka-Volterra.py:38-41 | a row that is zero off the diagonal gives an interaction sum of 0 |
| `Growth.InteractionSumExtinct` | Lotka-Volterra.py:40 | every interaction term is scaled by `p_i`, so with `p_i = 0` the sum is 0 |
| `Growth.InteractionSumFrame` | Lotka-Volterra.py:38-40 | the sum depends only on `p_i`, `K_i` and the populations of species with a non-zero coefficient in row `i` |
| `Growth.NextPopulationExtinct` | Lotka-Volterra.py:32-34 | a species with population 0 gets population 0 |
| `Growth.NextPopulationIgnoresDiagonal` | Lotka-Volterra.py:39-40 | the new population of species `i` does not depend on `alpha[i][i]` |
| `Growth.NextPopulationWithoutInteractions` | Lotka-Volterra.py:32-34 | with a zero row, the new population is exactly the clamped, truncated seasonal logistic step |
| `Growth.NextPopulationFrame` | Lotka-Volterra.py:27-41 | the new population of `i` depends only on its own record and the populations of the species acting on it |
| `Growth.NextPopulationIndependent` | Lotka-Volterra.py:40 | if `alpha[i][j] = 0` (for `j != i`), one growth evaluation of `i` from an otherwise fixed state gives the same result for any population of `j` |
| `Growth.InteractionTruncatedBeforeAdding` | Lotka-Volterra.py:33-41 | an interaction sum of -2.7 is truncated to -2 before it is added, so a species at 10 reaches 8, not the 7 that one truncation of 7.3 would give |
| `StepOrder.Sweep` | Lotka-Volterra.py:22-24 | updating the first `k` species in place keeps the species count, the matrix shape, and every field of every record except `p` |
| `StepOrder.StepAll` | Lotka-Volterra.py:23-24 | the whole in-place loop of a step keeps the species count, the shape requirements and every field but `p` |
| `StepOrder.SnapshotStep` | Lotka-Volterra.py:23-24 | a reference order the source does NOT use (every species grown from the pre-step populations); it keeps the count and the records' other fields and gives non-negative populations |
| `StepOrder.Run` | Lotka-Volterra.py:22-25 | any number of consecutive steps keeps the species count and the shape requirements |
| `StepOrder.SweepUntouched` | Lotka-Volterra.py:23-24 | after `k` updates, every species `j >= k` still holds its pre-step record |
| `StepOrder.SweepUpdated` | Lotka-Volterra.py:23-24 | after `k` updates, each species `j < k` holds the value grown from the state just before its turn, and later updates leave it alone |
| `StepOrder.SweepNonNegative` | Lotka-Volterra.py:23-24 | every species already updated holds a non-negative population |
| `StepOrder.SweepIsMixedState` | Lotka-Volterra.py:23-24 | the state species `k` is grown from is the finished step's values for indices below `k`, followed by the pre-step values |
| `StepOrder.StepSeesMixedState` | Lotka-Volterra.py:23-28 | after a step, species `i` holds the growth computed from the new populations of `j < i` and the old populations of `j >= i` |
| `StepOrder.StepShape` | Lotka-Volterra.py:22-25 | after a step, every population is non-negative, the count is unchanged, and `name`, `r`, `K` and `A` are unchanged |
| `StepOrder.StepExtinct` | Lotka-Volterra.py:22-34 | a species at 0 before a step is at 0 after it |
| `StepOrder.RunLast` | Lotka-Volterra.py:22-25 | `n + 1` steps are `n` steps followed by one step at the seasonal value of clock `t + n`, so each step uses the clock the previous steps left behind |
| `StepOrder.RunExtinct` | Lotka-Volterra.py:22-25 | a species at 0 stays at 0 through any number of steps |
| `StepOrder.StepMatchesSnapshotWhenUpperTriangular` | Lotka-Volterra.py:22-24 | if no species is affected by a species of lower index, the in-place step equals growing every species from the pre-step populations |
| `StepOrder.DefaultStepMatchesSnapshot` | Lotka-Volterra.py:14 | with the preset matrix, the in-place step equals the pre-step order |
| `StepOrder.InPlaceOrderDiffersFromSnapshot` | Lotka-Volterra.py:23-24 | with a coefficient below the diagonal, the in-place step gives 25 where the pre-step order gives 20 |
| `StepOrder.InPlaceStepCouplesIndirectly` | Lotka-Volterra.py:23-24 | with `alpha[2][0] = 0`, species 0 still changes species 2's new population through species 1, which is updated first (30 against 40) |
| `LotkaVolterra.Ecological.constructor` | Lotka-Volterra.py:7-11 | an empty species list or empty matrix selects the preset; the clock starts at 1 and there are four empty series |
| `LotkaVolterra.Ecological.Step` | Lotka-Volterra.py:22-25 | the new species list is the in-place sweep of the old one at the current season; the clock rises by exactly 1; `alpha` and `data` are unchanged; populations are non-negative; only `p` changes; extinct species stay extinct |
| `LotkaVolterra.Ecological.Advance` | Lotka-Volterra.py:22-25 | `n` consecutive calls of `step` leave exactly the species list of `n` steps of `Run` from the old state and clock, advance the clock by `n`, and change neither `alpha` nor `data` |
| `LotkaVolterra.Ecological.Grow` | Lotka-Volterra.py:27-34 | the loop-free growth computation returns exactly `NextPopulation` for the current state and season |
| `LotkaVolterra.Ecological.Interactions` | Lotka-Volterra.py:36-41 | the accumulator loop returns the truncated sum over all `j != i` of `p_j*alpha[i][j]*p_i/K_i` |
| `LotkaVolterra.Ecological.CollectData` | Lotka-Volterra.py:43-45 | series `i` gains exactly the current `p` of species `i`, for every species with a series; populations and the clock are unchanged; the call fails, after extending the four series, when there are more than four species |

## Left out

- The script entry point and all plotting (Lotka-Volterra.py:47-69). They only call `collect_Data` and `step` 70 times and draw the series.
- Floating-point arithmetic: the model computes in exact reals. IEEE-754 rounding, and so the exact numeric trajectories, are not captured.
- The value of `np.sin(np.pi / 4 * t)`: the model knows only that it lies in [-1, 1]. Its period of 8 in `t` is therefore not stated.
- `LotkaVolterra.Ecological.constructor`: requires a square matrix of the species count, `K > 0` and `abs(A) < 1`, which the source does not check. A smaller matrix raises `IndexError` at line 40. With two or more species, `K = 0` raises `ZeroDivisionError` at line 40. `K < 0` or `abs(A) >= 1` give finite results from a non-positive seasonal capacity, or NumPy infinity/NaN where that capacity is exactly 0. A larger matrix works. None of these cases is modelled.
- Aliasing: the source stores the caller's species list and dictionaries themselves, so a step also changes the caller's copy. The model keeps the species as a value sequence held by the object. If the caller's list holds the same dictionary twice (`[d, d]`), a step writes both entries through that one object, so the second update reads and overwrites the first; the model treats the two entries as independent records.
- Populations are integers. A caller-supplied floating-point initial population is not modelled, and the species records are taken as given (no check for missing keys).
- The `name` field is carried in each record, but nothing is computed from it.

# Metropolis Monte Carlo for the 2D Ising model, in Dafny

This project models the single-spin-flip Metropolis algorithm for the
ferromagnetic Ising model on an N x N periodic (toroidal) lattice, as
implemented in `metropolis.py`. Every cell of the lattice holds a spin,
normally -1 or +1. The model covers five parts:

- **Wrap-around neighbour lookup.** `neighbours_sum` becomes
  `Lattice.NeighboursSumAt`, specified by `Lattice.NeighboursSum`.
- **Flip energy change.** `get_dH` becomes `Metropolis.GetDH`. It loops
  over the four neighbour offsets and is proved equal to the closed form
  2 * s * (neighbour sum).
- **Accept/reject rule.** `maybe_flip` becomes `Metropolis.MaybeFlip`,
  which negates one cell in place.
- **Step.** `step` becomes `Metropolis.Step`, which chains the two
  operations above.
- **Observables.** `energy` becomes `Observables.Energy`, `calcEnergy`
  becomes `Observables.CalcEnergy` and `mag` becomes `Observables.MagOf`.

## Representation

The lattice is an `array2<int>` in every routine that reads or writes it.
Its contents are also available as a value, `Lattice.Cells(a)`, of type
`Grid = seq<seq<int>>`. The specification functions are defined on that
value:

- the periodic index `Wrap`;
- the neighbour sum;
- the closed-form delta `FlipDelta`;
- the single-site flip `Flip`;
- the energy sum;
- the nearest-neighbour Hamiltonian H = -(sum over the 2 N^2 bonds of s * s');
- the magnetization.

Python's `%` is floored and Dafny's is Euclidean. The two agree for a
positive modulus, and `Lattice.WrapIsMod` proves that `Wrap` is that `%`.

## Energy convention

Both energy routines add -s * (neighbour sum) over every site and divide
the total by 4. Each bond is seen from both of its ends, so the undivided
sum is exactly 2 H (`Observables.EnergyIsTwiceHamiltonian`). The value
returned is therefore H / 2. On the all-up 2 x 2 lattice that value is
-4.0, where H counts each of the 8 bonds once.

## Structure of the energy loops

In the source, `energy` and `calcEnergy` each have two nested loops. The
model keeps the outer loop over rows in `Energy` and `CalcEnergy`. The
inner loop over the columns of a row is a separate method, `EnergyRow` or
`CalcEnergyRow`, which returns that row's sum.

## Model

| member | source | states |
|---|---|---|
| Lattice.Wrap | metropolis.py:17-18 | a wrapped index lies in [0, N) for every integer index and every N >= 1, so every neighbour read is in bounds |
| Lattice.WrapIsMod | metropolis.py:28-31 | the periodic index equals the source's `x % N` for every x and every N >= 1 |
| Lattice.WrapInverse | metropolis.py:28-31 | stepping one cell back and then one forward around the torus, or forward then back, returns to the start |
| Lattice.WrapMovesOff | metropolis.py:17-18 | on a torus of side at least 2, a wrapped neighbour index is never the site's own index |
| Lattice.WrapForwardIff | metropolis.py:28-31 | the next index of x is a exactly when x is the previous index of a |
| Lattice.NeighboursSumOffsets | metropolis.py:25-32 | the neighbour sum is the cells at the offsets up, down, left and right, in that order |
| Lattice.NeighboursSumCells | metropolis.py:25-32 | the neighbour sum is g[i][(j-1)%N] + g[i][(j+1)%N] + g[(i-1)%N][j] + g[(i+1)%N][j] |
| Lattice.NeighboursSumAt | metropolis.py:25-32 | neighbours_sum on the array, with `%` indices, equals the neighbour sum of the lattice's grid |
| Lattice.NeighboursAtMod | metropolis.py:72 | calcEnergy's four inline reads add up to the same neighbour sum |
| Lattice.FlipOffsetsSum | metropolis.py:16-19 | get_dH's offset order (-1,0), (1,0), (0,-1), (0,1) visits the same four neighbours as neighbours_sum |
| Lattice.NeighboursSumBounds | metropolis.py:16-32 | on a lattice of spins, the neighbour sum lies in [-4, 4] and the delta lies in [-8, 8] |
| Lattice.OneSiteDelta | metropolis.py:16-32 | on the 1 x 1 torus, the site is its own neighbour four times, so the neighbour sum is 4 s and the delta is 8 s^2 >= 0 |
| Lattice.AllUpNeighbours | metropolis.py:25-32 | on the all-up lattice, the neighbour sum is 4 and the delta is 8 at every site |
| Lattice.Flip | metropolis.py:51 | the flipped grid negates cell (i, j), keeps every other cell and stays N x N |
| Lattice.FlipTwice | metropolis.py:51-53 | flipping the same site twice restores the grid |
| Lattice.FlipKeepsSpins | metropolis.py:51-53 | a flip keeps every cell equal to -1 or +1 |
| Metropolis.GetDH | metropolis.py:11-21 | the returned Hflip - H equals 2 * s * (neighbour sum), both for the grid spec and for neighbours_sum on the array |
| Metropolis.NeighbourRead | metropolis.py:17-19 | the read `lattice[(i+di)%N, (j+dj)%N]` is the neighbour at offset (di, dj) |
| Metropolis.FlipProductIsDelta | metropolis.py:21 | twice the spin times the neighbour total equals the closed-form delta |
| Metropolis.MaybeFlip | metropolis.py:47-54 | cell (i, j) is negated when dH < 0 or the Boltzmann test passes and kept otherwise; every other cell is unchanged; the test outcome given must be one it can have, so it passes at dH == 0 |
| Metropolis.Step | metropolis.py:34-43 | the lattice afterwards is the flipped lattice when the move is accepted and the unchanged lattice otherwise, for every test outcome possible at that dH |
| Metropolis.StepKeepsSpins | metropolis.py:34-54 | a step keeps a lattice of spins a lattice of spins |
| Metropolis.StepHamiltonian | metropolis.py:40-42 | for N >= 2, a step changes H by dH when it flips and by 0 when it does not |
| Metropolis.DownhillStepLowersEnergy | metropolis.py:50-51 | when dH < 0 the step flips whatever the random test says, and H strictly decreases, for every N (no 1 x 1 lattice has dH < 0) |
| Metropolis.NonPositiveStepFlips | metropolis.py:50-53 | a move with dH <= 0 is always taken, because the Boltzmann test cannot fail at dH == 0, and it never raises H, for every N |
| Metropolis.RejectedStepNeverRaises | metropolis.py:50-53 | a step whose random test fails never raises H, for every N, including the 1 x 1 torus where dH = 8 s^2 |
| Metropolis.StepMag | metropolis.py:47-54 | a flip changes the magnetization by -2 s, and a step that does not flip leaves it unchanged |
| Metropolis.StepUndo | metropolis.py:51-53 | an accepted flip is undone by flipping the same site again |
| Observables.Energy | metropolis.py:56-63 | energy returns the energy sum of the lattice divided by 4 |
| Observables.EnergyRow | metropolis.py:59-62 | energy's inner loop adds the site terms -nb * s of row i |
| Observables.CalcEnergy | metropolis.py:65-74 | calcEnergy returns the energy sum of the lattice divided by 4 |
| Observables.CalcEnergyRow | metropolis.py:70-73 | calcEnergy's inner loop, with inline neighbour reads, adds the same site terms of row i |
| Observables.EnergiesAgree | metropolis.py:56-74 | energy and calcEnergy return the same value on every N x N lattice |
| Observables.RowStep | metropolis.py:62 | one inner-loop update adds the next site term to the row sum |
| Observables.EnergySumIsSiteSum | metropolis.py:58-62 | the loops' row-by-row sum equals the sum of the site terms over the whole torus |
| Observables.SiteEnergyDirected | metropolis.py:61-62 | a site term is the sum of the four directed bonds -s * s' leaving the site |
| Observables.RowBondsBalance | metropolis.py:28-31 | the sum of the bonds to the next row equals the sum of the bonds to the previous row |
| Observables.ColBondsBalance | metropolis.py:28-31 | the sum of the bonds to the next column equals the sum of the bonds to the previous column |
| Observables.EnergyIsTwiceHamiltonian | metropolis.py:56-63 | the undivided energy sum is exactly twice H |
| Observables.EnergyOfIsHalfHamiltonian | metropolis.py:63 | the value energy and calcEnergy return is H / 2 |
| Observables.FlipKeepsFarBonds | metropolis.py:12 | a flip changes no bond except those at (i, j) |
| Observables.FlipNearBonds | metropolis.py:19-21 | the bond terms of the three sites that own a bond to (i, j) change by 2 s s' for each such bond; the term of (i, j) itself holds two of the four bonds |
| Observables.FlipChangesHamiltonian | metropolis.py:11-21 | for N >= 2, flipping (i, j) changes H by exactly the closed-form delta that get_dH returns |
| Observables.FlipChangesEnergySum | metropolis.py:50 | for N >= 2, a flip changes the undivided energy sum by 2 dH, so dH < 0 means the measured energy drops |
| Observables.OneSiteTorus | metropolis.py:16-21 | on the 1 x 1 torus, the delta is 8 while a flip leaves H at -2 |
| Observables.MagOf | metropolis.py:77-80 | mag, the sum of all array entries, equals the magnetization of a square lattice |
| Observables.GridTotalIsMag | metropolis.py:79 | adding the cells row by row gives the magnetization |
| Observables.MagFlip | metropolis.py:77-80 | flipping spin s changes the magnetization by -2 s |
| Observables.MagBounds | metropolis.py:77-80 | on a lattice of spins, the magnetization lies in [-N^2, N^2] |
| Observables.AllUpObservables | metropolis.py:56-80 | on the all-up lattice, the energy sum is -4 N^2, energy returns -N^2, H is -2 N^2 and the magnetization is N^2 |
| Observables.TwoByTwoAllUp | metropolis.py:56-63 | energy of [[1, 1], [1, 1]] is -4.0 |

None of the routines modelling `energy`, `calcEnergy` and `mag` can change
`config`. The methods have no `modifies` clause, and `MagOf` is a function.

## Left out

- `create_random_config` (metropolis.py:5-7) is not modelled. It only
  draws a random ±1 lattice from numpy's generator.
- The uniform random choice of the site in `step` (metropolis.py:37-38) is
  not modelled. The site (i, j) is a parameter with 0 <= i, j < N.
- The Boltzmann test `np.random.rand() < np.exp(-dH / T)` (metropolis.py:52)
  is not modelled, because it compares a uniform draw from [0, 1) with the
  floating-point value exp(-dH / T). Its outcome becomes the boolean
  parameter `accept`. The only constraint on `accept` is
  `Metropolis.PossibleOutcome`: at dH == 0 the threshold is exactly 1 and the
  test always passes. The temperature T is not modelled. At T == 0 the
  source divides by zero, and the dH == 0 constraint assumes T != 0.
- Metropolis.MaybeFlip: for dH > 0, `accept` is free. The model does not
  capture that the chance of acceptance is exp(-dH / T), which falls as dH
  grows.
- Metropolis.Step: the same holds for the step, whose test outcome is
  free for dH > 0.
- The return values of `maybe_flip` and `step` are not modelled. Both
  return the same array they mutate in place, and the model observes that
  array directly.
- numpy shapes are not modelled. The lattice is an `array2<int>` whose two
  lengths are equal, and `lattice.shape` and `len(config)` read those
  lengths. `mag` (`np.sum`) is defined for any shape, but it is tied to the
  magnetization only for square arrays.
- The float result of `/4.` is modelled as an exact `real`, so floating-point
  rounding is not modelled.
- Integer width is not modelled. numpy stores the spins in fixed-width
  integers, and the model uses unbounded integers. With entries of ±1
  every intermediate value is at most 4 N^2 in magnitude.
- Observables.FlipChangesHamiltonian: stated only for N >= 2. On the
  1 x 1 torus the site is its own neighbour in all four directions. A flip
  there leaves H unchanged while the closed form gives 8
  (Observables.OneSiteTorus).
- Observables.FlipChangesEnergySum: stated only for N >= 2, for the same
  reason.
- Metropolis.StepHamiltonian: stated only for N >= 2, for the same reason.
  Metropolis.DownhillStepLowersEnergy, Metropolis.NonPositiveStepFlips and
  Metropolis.RejectedStepNeverRaises hold for every N.

/**
 One Metropolis update of the lattice: the energy change of flipping a
 site, the accept-or-reject decision and the step that chains the two.

 The random choices of the source are inputs here: the site (i, j) that
 `step` draws uniformly, and `accept`, the outcome of the Boltzmann test
 `rand() < exp(-dH / T)` that `maybe_flip` makes when dH is not negative.
 */
module Metropolis {
  import opened Lattice
  import opened Observables

  /**
   get_dH: walks the four neighbours in the order (-1, 0), (1, 0), (0, -1),
   (0, 1), accumulating H = -(sum of s * s') and Hflip = sum of s * s', and
   returns Hflip - H, which is the closed-form delta 2 * s * (neighbour sum).
   */
  method GetDH(lattice: array2<int>, i: int, j: int) returns (dH: int)
    requires lattice.Length0 == lattice.Length1 && 0 <= i < lattice.Length0 && 0 <= j < lattice.Length0
    ensures dH == FlipDelta(Cells(lattice), i, j)
    ensures dH == 2 * lattice[i, j] * NeighboursSumAt(lattice, i, j)
  {
    ghost var g := Cells(lattice);
    var n := lattice.Length0;
    var h, hFlip := 0, 0;
    CellsAt(lattice, i, j);
    var k := 0;
    while k < |FlipOffsets|
      invariant 0 <= k <= |FlipOffsets|
      invariant hFlip == OffsetsSum(g, i, j, FlipOffsets, k) * g[i][j]
      invariant h == -hFlip
    {
      var (di, dj) := FlipOffsets[k];
      var ii := (i + di) % n;
      var jj := (j + dj) % n;
      NeighbourRead(lattice, i, j, (di, dj));
      OffsetsSumStep(g, i, j, k);
      h := h - lattice[ii, jj] * lattice[i, j];
      hFlip := hFlip + lattice[ii, jj] * lattice[i, j];
      k := k + 1;
    }
    FlipProductIsDelta(g, i, j, hFlip);
    dH := hFlip - h;
  }

  /** A read at offset d, each index taken with the floored `%`, is the neighbour at d. */
  lemma NeighbourRead(lattice: array2<int>, i: int, j: int, d: (int, int))
    requires lattice.Length0 == lattice.Length1 && 0 <= i < lattice.Length0 && 0 <= j < lattice.Length0
    ensures var n := lattice.Length0;
      lattice[(i + d.0) % n, (j + d.1) % n] == NeighbourAt(Cells(lattice), i, j, d)
  {
    var n := lattice.Length0;
    WrapIsMod(i + d.0, n);
    WrapIsMod(j + d.1, n);
    CellsAt(lattice, (i + d.0) % n, (j + d.1) % n);
  }

  /** One more offset adds its neighbour times the spin to the running product. */
  lemma OffsetsSumStep(g: Grid, i: int, j: int, k: nat)
    requires IsSquare(g) && 0 <= i < |g| && 0 <= j < |g| && k < |FlipOffsets|
    ensures OffsetsSum(g, i, j, FlipOffsets, k + 1) * g[i][j]
      == OffsetsSum(g, i, j, FlipOffsets, k) * g[i][j] + NeighbourAt(g, i, j, FlipOffsets[k]) * g[i][j]
  {
    var a, c := OffsetsSum(g, i, j, FlipOffsets, k), NeighbourAt(g, i, j, FlipOffsets[k]);
    assert OffsetsSum(g, i, j, FlipOffsets, k + 1) == a + c;
  }

  /** Twice the neighbour-times-spin total over the flip offsets is the closed-form delta. */
  lemma FlipProductIsDelta(g: Grid, i: int, j: int, p: int)
    requires IsSquare(g) && 0 <= i < |g| && 0 <= j < |g|
    requires p == OffsetsSum(g, i, j, FlipOffsets, |FlipOffsets|) * g[i][j]
    ensures p - -p == FlipDelta(g, i, j)
  {
    FlipOffsetsSum(g, i, j);
    var a, s := NeighboursSum(g, i, j), g[i][j];
    assert p == a * s;
    assert FlipDelta(g, i, j) == 2 * s * a;
    DoubleProduct(s, a);
  }

  lemma DoubleProduct(s: int, a: int)
    ensures 2 * s * a == a * s + a * s
  {
  }

  /** maybe_flip takes the flip when dH < 0, and otherwise when the Boltzmann test passes. */
  predicate Accepts(dH: int, accept: bool)
  {
    dH < 0 || accept
  }

  /**
   The outcomes the Boltzmann test can have. For dH == 0 the threshold
   exp(-dH / T) is exactly 1 and the uniform draw from [0, 1) lies below it,
   so the test always passes; for dH > 0 it may pass or fail.
   */
  predicate PossibleOutcome(dH: int, accept: bool)
  {
    dH == 0 ==> accept
  }

  /**
   maybe_flip: negates the spin at (i, j) when the move is accepted and
   touches no other cell.
   */
  method MaybeFlip(lattice: array2<int>, dH: int, i: int, j: int, accept: bool)
    requires 0 <= i < lattice.Length0 && 0 <= j < lattice.Length1
    requires PossibleOutcome(dH, accept)
    modifies lattice
    ensures lattice[i, j] == if Accepts(dH, accept) then -old(lattice[i, j]) else old(lattice[i, j])
    ensures forall x, y :: 0 <= x < lattice.Length0 && 0 <= y < lattice.Length1 && (x != i || y != j) ==>
      lattice[x, y] == old(lattice[x, y])
  {
    if dH < 0 {
      lattice[i, j] := -lattice[i, j];
    } else if accept {
      lattice[i, j] := -lattice[i, j];
    }
  }

  /** The lattice after one Metropolis step at (i, j), as a function of the lattice before. */
  function StepResult(g: Grid, i: int, j: int, accept: bool): (r: Grid)
    requires IsSquare(g) && 0 <= i < |g| && 0 <= j < |g|
    ensures IsSquare(r) && |r| == |g|
  {
    if Accepts(FlipDelta(g, i, j), accept) then Flip(g, i, j) else g
  }

  /**
   step, with the site drawn by the caller: computes dH at (i, j) and lets
   maybe_flip decide. The lattice afterwards is StepResult of the lattice
   before.
   */
  method Step(lattice: array2<int>, i: int, j: int, accept: bool)
    requires lattice.Length0 == lattice.Length1 && 0 <= i < lattice.Length0 && 0 <= j < lattice.Length0
    requires PossibleOutcome(FlipDelta(Cells(lattice), i, j), accept)
    modifies lattice
    ensures Cells(lattice) == StepResult(old(Cells(lattice)), i, j, accept)
  {
    ghost var before := Cells(lattice);
    CellsAll(lattice);
    var dH := GetDH(lattice, i, j);
    MaybeFlip(lattice, dH, i, j, accept);
    CellsAll(lattice);
    GridExt(Cells(lattice), StepResult(before, i, j, accept));
  }

  /** A step keeps every cell a spin. */
  lemma StepKeepsSpins(g: Grid, i: int, j: int, accept: bool)
    requires IsSpinGrid(g) && 0 <= i < |g| && 0 <= j < |g|
    ensures IsSpinGrid(StepResult(g, i, j, accept))
  {
    if Accepts(FlipDelta(g, i, j), accept) {
      FlipKeepsSpins(g, i, j);
    }
  }

  /**
   On a torus of side at least 2, a step changes the Hamiltonian by the
   delta when it flips and by nothing otherwise.
   */
  lemma StepHamiltonian(g: Grid, i: int, j: int, accept: bool)
    requires IsSquare(g) && 2 <= |g| && 0 <= i < |g| && 0 <= j < |g|
    ensures Hamiltonian(StepResult(g, i, j, accept)) ==
      Hamiltonian(g) + (if Accepts(FlipDelta(g, i, j), accept) then FlipDelta(g, i, j) else 0)
  {
    if Accepts(FlipDelta(g, i, j), accept) {
      FlipChangesHamiltonian(g, i, j);
    }
  }

  /**
   A downhill move is always taken: when the delta is negative the step
   strictly lowers the Hamiltonian, whatever the Boltzmann test says.
   */
  lemma DownhillStepLowersEnergy(g: Grid, i: int, j: int, accept: bool)
    requires IsSquare(g) && 0 <= i < |g| && 0 <= j < |g|
    requires FlipDelta(g, i, j) < 0
    ensures StepResult(g, i, j, accept) == Flip(g, i, j)
    ensures Hamiltonian(StepResult(g, i, j, accept)) < Hamiltonian(g)
  {
    if |g| == 1 {
      OneSiteDelta(g);
      assert false;
    }
    StepHamiltonian(g, i, j, accept);
  }

  /**
   A move that costs nothing or lowers the energy is always taken, since
   the Boltzmann test cannot fail at dH == 0, and it never raises the
   Hamiltonian.
   */
  lemma NonPositiveStepFlips(g: Grid, i: int, j: int, accept: bool)
    requires IsSquare(g) && 0 <= i < |g| && 0 <= j < |g|
    requires FlipDelta(g, i, j) <= 0 && PossibleOutcome(FlipDelta(g, i, j), accept)
    ensures StepResult(g, i, j, accept) == Flip(g, i, j)
    ensures Hamiltonian(StepResult(g, i, j, accept)) <= Hamiltonian(g)
  {
    if |g| == 1 {
      OneSiteDelta(g);
      ZeroSquare(g[0][0]);
      GridExt(Flip(g, 0, 0), g);
    } else {
      StepHamiltonian(g, i, j, accept);
    }
  }

  lemma ZeroSquare(s: int)
    requires s * s <= 0
    ensures s == 0
  {
  }

  /** Without a passed Boltzmann test a step never raises the Hamiltonian. */
  lemma RejectedStepNeverRaises(g: Grid, i: int, j: int)
    requires IsSquare(g) && 0 <= i < |g| && 0 <= j < |g|
    ensures Hamiltonian(StepResult(g, i, j, false)) <= Hamiltonian(g)
  {
    if |g| == 1 {
      OneSiteDelta(g);
    } else {
      StepHamiltonian(g, i, j, false);
    }
  }

  /** A step that flips changes the magnetization by -2 * s, one that does not leaves it. */
  lemma StepMag(g: Grid, i: int, j: int, accept: bool)
    requires IsSquare(g) && 0 <= i < |g| && 0 <= j < |g|
    ensures Mag(StepResult(g, i, j, accept)) ==
      Mag(g) - (if Accepts(FlipDelta(g, i, j), accept) then 2 * g[i][j] else 0)
  {
    if Accepts(FlipDelta(g, i, j), accept) {
      MagFlip(g, i, j);
    }
  }

  /** An accepted flip is undone by flipping the same site again. */
  lemma StepUndo(g: Grid, i: int, j: int, accept: bool)
    requires IsSquare(g) && 0 <= i < |g| && 0 <= j < |g|
    requires Accepts(FlipDelta(g, i, j), accept)
    ensures Flip(StepResult(g, i, j, accept), i, j) == g
  {
    FlipTwice(g, i, j);
  }
}

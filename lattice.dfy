/**
 The N x N Ising lattice on a torus: spins, periodic indexing, the four
 nearest neighbours of a site and the single-spin flip.

 Specifications are stated on the value `Grid` (row-major, grid[i][j]);
 the routines of modules Observables and Metropolis work on the lattice
 as an `array2<int>` and are tied to these functions through `Cells`.
 */
module Lattice {

  type Grid = seq<seq<int>>

  /** Every row has as many cells as there are rows. */
  predicate IsSquare(g: Grid)
  {
    forall x :: 0 <= x < |g| ==> |g[x]| == |g|
  }

  predicate IsSpin(s: int)
  {
    s == -1 || s == 1
  }

  /** A square grid whose every cell holds a spin of -1 or +1. */
  predicate IsSpinGrid(g: Grid)
  {
    IsSquare(g) && forall x, y :: 0 <= x < |g| && 0 <= y < |g| ==> IsSpin(g[x][y])
  }

  /** A square grid whose every spin is +1 (the ferromagnetic ground state). */
  predicate AllUp(g: Grid)
  {
    IsSquare(g) && forall x, y :: 0 <= x < |g| && 0 <= y < |g| ==> g[x][y] == 1
  }

  /**
   Periodic index: the representative of x modulo n in [0, n), found by
   moving x by whole periods. This is Python's floored `x % n` for n >= 1,
   which is also Dafny's Euclidean `x % n` there (WrapIsMod).
   */
  function Wrap(x: int, n: int): (r: int)
    requires n >= 1
    ensures 0 <= r < n
    decreases if x < 0 then n - x else x
  {
    if x < 0 then Wrap(x + n, n) else if x >= n then Wrap(x - n, n) else x
  }

  lemma MulAtLeast(d: int, n: int)
    requires d >= 1 && n >= 1
    ensures d * n >= n
  {
    assert d * n == (d - 1) * n + n;
  }

  /** The remainder is the only r in [0, n) with x == q * n + r. */
  lemma ModUnique(x: int, n: int, q: int, r: int)
    requires n >= 1 && 0 <= r < n && x == q * n + r
    ensures x % n == r
  {
    var q', r' := x / n, x % n;
    assert x == q' * n + r';
    assert (q - q') * n == r' - r;
    if q > q' {
      MulAtLeast(q - q', n);
    } else if q < q' {
      MulAtLeast(q' - q, n);
    }
  }

  lemma ModShift(x: int, n: int)
    requires n >= 1
    ensures (x + n) % n == x % n
  {
    ModUnique(x + n, n, x / n + 1, x % n);
  }

  /** Wrap is the `%` the source writes, for every x. */
  lemma {:induction false} WrapIsMod(x: int, n: int)
    requires n >= 1
    ensures Wrap(x, n) == x % n
    decreases if x < 0 then n - x else x
  {
    if x < 0 {
      WrapIsMod(x + n, n);
      ModShift(x, n);
    } else if x >= n {
      WrapIsMod(x - n, n);
      ModShift(x - n, n);
    } else {
      ModUnique(x, n, 0, x);
    }
  }

  /**
   Wrapping leaves an index already in range alone and sends the two
   positions just outside the grid to the opposite edge.
   */
  lemma WrapEdges(x: int, n: int)
    requires n >= 1
    ensures 0 <= x < n ==> Wrap(x, n) == x
    ensures Wrap(-1, n) == n - 1
    ensures Wrap(n, n) == 0
  {
  }

  /** On a torus of side at least two, a site's wrapped neighbours are never the site itself. */
  lemma WrapMovesOff(x: int, n: int)
    requires 2 <= n && 0 <= x < n
    ensures Wrap(x - 1, n) != x && Wrap(x + 1, n) != x
  {
    WrapEdges(x - 1, n);
    WrapEdges(x + 1, n);
  }

  /** One step back and one step forward around the torus return to the start. */
  lemma WrapInverse(x: int, n: int)
    requires 1 <= n && 0 <= x < n
    ensures Wrap(Wrap(x - 1, n) + 1, n) == x && Wrap(Wrap(x + 1, n) - 1, n) == x
  {
    WrapEdges(x - 1, n);
    WrapEdges(x, n);
    WrapEdges(x + 1, n);
  }

  /** Stepping forward lands on a iff one started one step behind a. */
  lemma WrapForwardIff(x: int, a: int, n: int)
    requires 1 <= n && 0 <= x < n && 0 <= a < n
    ensures Wrap(x + 1, n) == a <==> x == Wrap(a - 1, n)
  {
    WrapEdges(x + 1, n);
    WrapEdges(a - 1, n);
  }

  /** The first k cells of row x of the lattice array. */
  function RowCells(a: array2<int>, x: int, k: nat): (r: seq<int>)
    reads a
    requires 0 <= x < a.Length0 && k <= a.Length1
    ensures |r| == k
    ensures forall y :: 0 <= y < k ==> r[y] == a[x, y]
  {
    if k == 0 then [] else RowCells(a, x, k - 1) + [a[x, k - 1]]
  }

  /** The first k rows of the lattice array. */
  function RowsCells(a: array2<int>, k: nat): (g: Grid)
    reads a
    requires k <= a.Length0
    ensures |g| == k
    ensures forall x :: 0 <= x < k ==> g[x] == RowCells(a, x, a.Length1)
  {
    if k == 0 then [] else RowsCells(a, k - 1) + [RowCells(a, k - 1, a.Length1)]
  }

  /** The value of the lattice array, as a grid. */
  function Cells(a: array2<int>): (g: Grid)
    reads a
    ensures |g| == a.Length0
    ensures forall x :: 0 <= x < |g| ==> |g[x]| == a.Length1
  {
    RowsCells(a, a.Length0)
  }

  lemma CellsAt(a: array2<int>, x: int, y: int)
    requires 0 <= x < a.Length0 && 0 <= y < a.Length1
    ensures Cells(a)[x][y] == a[x, y]
  {
  }

  /** Two square grids of one size that agree on every cell are equal. */
  lemma GridExt(g: Grid, h: Grid)
    requires IsSquare(g) && IsSquare(h) && |g| == |h|
    requires forall x, y :: 0 <= x < |g| && 0 <= y < |g| ==> g[x][y] == h[x][y]
    ensures g == h
  {
    forall x | 0 <= x < |g|
      ensures g[x] == h[x]
    {
      assert |g[x]| == |h[x]|;
    }
  }

  /** Every cell of the grid view is the array cell. */
  lemma CellsAll(a: array2<int>)
    ensures forall x, y :: 0 <= x < a.Length0 && 0 <= y < a.Length1 ==> Cells(a)[x][y] == a[x, y]
  {
    forall x, y | 0 <= x < a.Length0 && 0 <= y < a.Length1
      ensures Cells(a)[x][y] == a[x, y]
    {
      CellsAt(a, x, y);
    }
  }

  /** The grid with the spin at (i, j) negated. */
  function Flip(g: Grid, i: int, j: int): (r: Grid)
    requires IsSquare(g) && 0 <= i < |g| && 0 <= j < |g|
    ensures IsSquare(r) && |r| == |g|
    ensures r[i][j] == -g[i][j]
    ensures forall x, y :: 0 <= x < |g| && 0 <= y < |g| && (x != i || y != j) ==> r[x][y] == g[x][y]
  {
    g[i := g[i][j := -g[i][j]]]
  }

  /** Flipping the same site twice gives back the grid. */
  lemma FlipTwice(g: Grid, i: int, j: int)
    requires IsSquare(g) && 0 <= i < |g| && 0 <= j < |g|
    ensures Flip(Flip(g, i, j), i, j) == g
  {
    var h := Flip(Flip(g, i, j), i, j);
    forall x | 0 <= x < |g|
      ensures h[x] == g[x]
    {
      assert |h[x]| == |g[x]|;
    }
  }

  /** A flip keeps every cell a spin. */
  lemma FlipKeepsSpins(g: Grid, i: int, j: int)
    requires IsSpinGrid(g) && 0 <= i < |g| && 0 <= j < |g|
    ensures IsSpinGrid(Flip(g, i, j))
  {
  }

  /**
   The neighbours of (i, j) in the order neighbours_sum adds them: the
   cells one column before ("up") and after ("down") in the same row, then
   one row before ("left") and after ("right") in the same column.
   */
  const NeighbourOffsets: seq<(int, int)> := [(0, -1), (0, 1), (-1, 0), (1, 0)]

  /** The neighbour offsets in the order the flip-energy loop visits them. */
  const FlipOffsets: seq<(int, int)> := [(-1, 0), (1, 0), (0, -1), (0, 1)]

  /** The cell at offset d from (i, j), each index taken modulo N. */
  function NeighbourAt(g: Grid, i: int, j: int, d: (int, int)): int
    requires IsSquare(g) && 0 <= i < |g| && 0 <= j < |g|
  {
    g[Wrap(i + d.0, |g|)][Wrap(j + d.1, |g|)]
  }

  /** The cells at the first k offsets of the list, added up. */
  function OffsetsSum(g: Grid, i: int, j: int, offsets: seq<(int, int)>, k: nat): int
    requires IsSquare(g) && 0 <= i < |g| && 0 <= j < |g| && k <= |offsets|
  {
    if k == 0 then 0 else OffsetsSum(g, i, j, offsets, k - 1) + NeighbourAt(g, i, j, offsets[k - 1])
  }

  /** The sum of the four periodic neighbours of (i, j). */
  function NeighboursSum(g: Grid, i: int, j: int): int
    requires IsSquare(g) && 0 <= i < |g| && 0 <= j < |g|
  {
    OffsetsSum(g, i, j, NeighbourOffsets, |NeighbourOffsets|)
  }

  /** The neighbour sum is the cells at the four offsets, in neighbours_sum order. */
  lemma NeighboursSumOffsets(g: Grid, i: int, j: int)
    requires IsSquare(g) && 0 <= i < |g| && 0 <= j < |g|
    ensures NeighboursSum(g, i, j) ==
      NeighbourAt(g, i, j, (0, -1)) + NeighbourAt(g, i, j, (0, 1)) +
      NeighbourAt(g, i, j, (-1, 0)) + NeighbourAt(g, i, j, (1, 0))
  {
    var o := NeighbourOffsets;
    assert OffsetsSum(g, i, j, o, 1) == NeighbourAt(g, i, j, (0, -1));
    assert OffsetsSum(g, i, j, o, 2) == OffsetsSum(g, i, j, o, 1) + NeighbourAt(g, i, j, (0, 1));
    assert OffsetsSum(g, i, j, o, 3) == OffsetsSum(g, i, j, o, 2) + NeighbourAt(g, i, j, (-1, 0));
    assert OffsetsSum(g, i, j, o, 4) == OffsetsSum(g, i, j, o, 3) + NeighbourAt(g, i, j, (1, 0));
  }

  /** The neighbour sum written out cell by cell, with the wrapped indices. */
  lemma NeighboursSumCells(g: Grid, i: int, j: int)
    requires IsSquare(g) && 0 <= i < |g| && 0 <= j < |g|
    ensures var n := |g|;
      NeighboursSum(g, i, j) ==
        g[i][Wrap(j - 1, n)] + g[i][Wrap(j + 1, n)] + g[Wrap(i - 1, n)][j] + g[Wrap(i + 1, n)][j]
  {
    WrapEdges(i, |g|);
    WrapEdges(j, |g|);
    NeighboursSumOffsets(g, i, j);
  }

  /** The flip-energy loop visits the same four neighbours as neighbours_sum, in another order. */
  lemma FlipOffsetsSum(g: Grid, i: int, j: int)
    requires IsSquare(g) && 0 <= i < |g| && 0 <= j < |g|
    ensures OffsetsSum(g, i, j, FlipOffsets, |FlipOffsets|) == NeighboursSum(g, i, j)
  {
    var n := |g|;
    WrapEdges(i, n);
    WrapEdges(j, n);
    NeighboursSumCells(g, i, j);
    var o := FlipOffsets;
    assert OffsetsSum(g, i, j, o, 1) == g[Wrap(i - 1, n)][j];
    assert OffsetsSum(g, i, j, o, 2) == OffsetsSum(g, i, j, o, 1) + g[Wrap(i + 1, n)][j];
    assert OffsetsSum(g, i, j, o, 3) == OffsetsSum(g, i, j, o, 2) + g[i][Wrap(j - 1, n)];
    assert OffsetsSum(g, i, j, o, 4) == OffsetsSum(g, i, j, o, 3) + g[i][Wrap(j + 1, n)];
  }

  /**
   neighbours_sum on the lattice array: the cells up (previous column),
   down (next column), left (previous row) and right (next row) of (i, j),
   each index taken with the floored `%`.
   */
  function NeighboursSumAt(config: array2<int>, i: int, j: int): (nb: int)
    reads config
    requires config.Length0 == config.Length1 && 0 <= i < config.Length0 && 0 <= j < config.Length0
    ensures nb == NeighboursSum(Cells(config), i, j)
  {
    var n := config.Length0;
    var r := config[i, (j - 1) % n] + config[i, (j + 1) % n] + config[(i - 1) % n, j] + config[(i + 1) % n, j];
    NeighboursAtMod(config, i, j);
    r
  }

  lemma NeighboursAtMod(config: array2<int>, i: int, j: int)
    requires config.Length0 == config.Length1 && 0 <= i < config.Length0 && 0 <= j < config.Length0
    ensures var n := config.Length0;
      config[i, (j - 1) % n] + config[i, (j + 1) % n] + config[(i - 1) % n, j] + config[(i + 1) % n, j]
        == NeighboursSum(Cells(config), i, j)
  {
    var n := config.Length0;
    var g := Cells(config);
    WrapIsMod(i + 1, n);
    WrapIsMod(j + 1, n);
    WrapIsMod(i - 1, n);
    WrapIsMod(j - 1, n);
    NeighboursSumCells(g, i, j);
    CellsAt(config, (i + 1) % n, j);
    CellsAt(config, (i - 1) % n, j);
    CellsAt(config, i, (j + 1) % n);
    CellsAt(config, i, (j - 1) % n);
  }

  /**
   The closed form of the energy change of flipping the spin at (i, j)
   under H = -(sum over nearest-neighbour bonds of s*s'):
   2 * s * (sum of the four neighbours).
   */
  function FlipDelta(g: Grid, i: int, j: int): int
    requires IsSquare(g) && 0 <= i < |g| && 0 <= j < |g|
  {
    2 * g[i][j] * NeighboursSum(g, i, j)
  }

  lemma NeighboursSumBounds(g: Grid, i: int, j: int)
    requires IsSpinGrid(g) && 0 <= i < |g| && 0 <= j < |g|
    ensures -4 <= NeighboursSum(g, i, j) <= 4
    ensures -8 <= FlipDelta(g, i, j) <= 8
  {
    NeighboursSumCells(g, i, j);
    var s := g[i][j];
    var nb := NeighboursSum(g, i, j);
    assert IsSpin(s);
    assert -4 <= nb <= 4;
    if s == 1 {
      assert FlipDelta(g, i, j) == 2 * nb;
    } else {
      assert FlipDelta(g, i, j) == -2 * nb;
    }
  }

  /**
   On the 1 x 1 torus the site is its own neighbour in all four directions,
   so the delta is 8 * s * s and never negative.
   */
  lemma OneSiteDelta(g: Grid)
    requires IsSquare(g) && |g| == 1
    ensures NeighboursSum(g, 0, 0) == 4 * g[0][0]
    ensures FlipDelta(g, 0, 0) == 8 * (g[0][0] * g[0][0]) >= 0
  {
    WrapEdges(-1, 1);
    WrapEdges(1, 1);
    NeighboursSumCells(g, 0, 0);
  }

  lemma AllUpNeighbours(g: Grid, i: int, j: int)
    requires AllUp(g) && 0 <= i < |g| && 0 <= j < |g|
    ensures NeighboursSum(g, i, j) == 4
    ensures FlipDelta(g, i, j) == 8
  {
    NeighboursSumCells(g, i, j);
  }
}

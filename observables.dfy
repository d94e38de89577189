/**
 Whole-lattice observables: the energy (in its two source spellings,
 `energy` and `calcEnergy`) and the magnetization, together with the
 nearest-neighbour Hamiltonian they are measured against.

 Both energy routines add -s * (sum of the four neighbours) over every
 site and divide by 4. Every bond is seen from both of its ends, so the
 undivided sum is twice the Hamiltonian H = -(sum over bonds of s * s')
 (EnergyIsTwiceHamiltonian), and the value returned is H / 2.
 */
module Observables {
  import opened Sums
  import opened Lattice

  /** The term one site adds to the energy sum: -(neighbour sum) * spin. */
  function SiteEnergy(g: Grid, x: int, y: int): int
    requires IsSquare(g)
  {
    if 0 <= x < |g| && 0 <= y < |g| then -NeighboursSum(g, x, y) * g[x][y] else 0
  }

  function SiteEnergies(g: Grid): (int, int) -> int
    requires IsSquare(g)
  {
    (x, y) => SiteEnergy(g, x, y)
  }

  /** The site terms of row x over its first k columns. */
  function RowEnergy(g: Grid, x: int, k: nat): int
    requires IsSquare(g) && 0 <= x < |g| && k <= |g|
  {
    if k == 0 then 0 else RowEnergy(g, x, k - 1) + SiteEnergy(g, x, k - 1)
  }

  /** The site terms of the first k rows. */
  function RowsEnergy(g: Grid, k: nat): int
    requires IsSquare(g) && k <= |g|
  {
    if k == 0 then 0 else RowsEnergy(g, k - 1) + RowEnergy(g, k - 1, |g|)
  }

  /** The undivided energy sum: the site terms added over the whole lattice, row by row. */
  function EnergySum(g: Grid): int
    requires IsSquare(g)
  {
    RowsEnergy(g, |g|)
  }

  /** The row-by-row energy sum is the sum of the site terms over the square. */
  lemma EnergySumIsSiteSum(g: Grid)
    requires IsSquare(g)
    ensures EnergySum(g) == Sum2(|g|, SiteEnergies(g))
  {
    var n := |g|;
    var f := SiteEnergies(g);
    forall x | 0 <= x < n
      ensures RowTotals(n, f)(x) == RowEnergy(g, x, n)
    {
      RowEnergyIsSum(g, x, n);
    }
    RowsEnergyIsSum(g, n);
  }

  lemma {:induction false} RowEnergyIsSum(g: Grid, x: int, k: nat)
    requires IsSquare(g) && 0 <= x < |g| && k <= |g|
    ensures RowEnergy(g, x, k) == Sum(k, Row(SiteEnergies(g), x))
  {
    if k > 0 {
      RowEnergyIsSum(g, x, k - 1);
    }
  }

  lemma {:induction false} RowsEnergyIsSum(g: Grid, k: nat)
    requires IsSquare(g) && k <= |g|
    requires forall x :: 0 <= x < |g| ==> RowTotals(|g|, SiteEnergies(g))(x) == RowEnergy(g, x, |g|)
    ensures RowsEnergy(g, k) == Sum(k, RowTotals(|g|, SiteEnergies(g)))
  {
    if k > 0 {
      RowsEnergyIsSum(g, k - 1);
    }
  }

  /** One more site term of row i: the step of the inner loop of both energy routines. */
  lemma RowStep(g: Grid, i: int, j: nat, acc: int, nb: int, s: int)
    requires IsSquare(g) && 0 <= i < |g| && j < |g|
    requires acc == RowEnergy(g, i, j)
    requires nb == NeighboursSum(g, i, j) && s == g[i][j]
    ensures acc + -nb * s == RowEnergy(g, i, j + 1)
  {
  }

  /** The value the energy routines return: the energy sum divided by 4. */
  function EnergyOf(g: Grid): real
    requires IsSquare(g)
  {
    EnergySum(g) as real / 4.0
  }

  /**
   The bonds owned by site (x, y): to the next row and to the next column,
   with periodic wrap. Every bond of the torus is owned by exactly one site.
   */
  function Bond(g: Grid, x: int, y: int): int
    requires IsSquare(g)
  {
    if 0 <= x < |g| && 0 <= y < |g| then
      var n := |g|;
      -(g[x][y] * g[Wrap(x + 1, n)][y] + g[x][y] * g[x][Wrap(y + 1, n)])
    else 0
  }

  function Bonds(g: Grid): (int, int) -> int
    requires IsSquare(g)
  {
    (x, y) => Bond(g, x, y)
  }

  /** The Ising Hamiltonian H = -(sum over nearest-neighbour bonds of s * s'). */
  function Hamiltonian(g: Grid): int
    requires IsSquare(g)
  {
    Sum2(|g|, Bonds(g))
  }

  function Spin(g: Grid, x: int, y: int): int
    requires IsSquare(g)
  {
    if 0 <= x < |g| && 0 <= y < |g| then g[x][y] else 0
  }

  function Spins(g: Grid): (int, int) -> int
    requires IsSquare(g)
  {
    (x, y) => Spin(g, x, y)
  }

  /** The magnetization: the plain sum of every spin of the lattice. */
  function Mag(g: Grid): int
    requires IsSquare(g)
  {
    Sum2(|g|, Spins(g))
  }

  /**
   energy: adds the site terms of every row and divides the total by 4.
   The loop over the columns of a row is EnergyRow.
   */
  method Energy(config: array2<int>) returns (e: real)
    requires config.Length0 == config.Length1
    ensures e == EnergyOf(Cells(config))
  {
    ghost var g := Cells(config);
    var n := config.Length0;
    var energy := 0;
    var i := 0;
    while i < n
      invariant 0 <= i <= n
      invariant energy == RowsEnergy(g, i)
    {
      var rowEnergy := EnergyRow(config, g, i);
      energy := energy + rowEnergy;
      i := i + 1;
    }
    e := energy as real / 4.0;
  }

  /** The inner loop of energy: the site terms of row i, each with its neighbour sum from neighbours_sum. */
  method EnergyRow(config: array2<int>, ghost g: Grid, i: int) returns (r: int)
    requires config.Length0 == config.Length1 && g == Cells(config) && 0 <= i < |g|
    ensures r == RowEnergy(g, i, |g|)
  {
    var n := config.Length0;
    r := 0;
    var j := 0;
    while j < n
      invariant 0 <= j <= n
      invariant r == RowEnergy(g, i, j)
    {
      var entry := config[i, j];
      CellsAt(config, i, j);
      var nb := NeighboursSumAt(config, i, j);
      RowStep(g, i, j, r, nb, entry);
      r := r + -nb * entry;
      j := j + 1;
    }
  }

  /**
   calcEnergy: the same rows-then-columns sum divided by 4; the loop over the
   columns of a row is CalcEnergyRow.
   */
  method CalcEnergy(config: array2<int>) returns (e: real)
    requires config.Length0 == config.Length1
    ensures e == EnergyOf(Cells(config))
  {
    ghost var g := Cells(config);
    var n := config.Length0;
    var energy := 0;
    var i := 0;
    while i < n
      invariant 0 <= i <= n
      invariant energy == RowsEnergy(g, i)
    {
      var rowEnergy := CalcEnergyRow(config, g, i);
      energy := energy + rowEnergy;
      i := i + 1;
    }
    e := energy as real / 4.0;
  }

  /**
   The inner loop of calcEnergy: the four wrapped neighbours are read from
   the array inline, in the order next row, next column, previous row,
   previous column.
   */
  method CalcEnergyRow(config: array2<int>, ghost g: Grid, i: int) returns (r: int)
    requires config.Length0 == config.Length1 && g == Cells(config) && 0 <= i < |g|
    ensures r == RowEnergy(g, i, |g|)
  {
    var n := config.Length0;
    r := 0;
    var j := 0;
    while j < n
      invariant 0 <= j <= n
      invariant r == RowEnergy(g, i, j)
    {
      var s := config[i, j];
      var nb := config[(i + 1) % n, j] + config[i, (j + 1) % n] + config[(i - 1) % n, j] + config[i, (j - 1) % n];
      CellsAt(config, i, j);
      NeighboursAtMod(config, i, j);
      RowStep(g, i, j, r, nb, s);
      r := r + -nb * s;
      j := j + 1;
    }
  }

  /** energy and calcEnergy return the same value on every square lattice. */
  method EnergiesAgree(config: array2<int>) returns (e1: real, e2: real)
    requires config.Length0 == config.Length1
    ensures e1 == e2 == EnergyOf(Cells(config))
  {
    e1 := Energy(config);
    e2 := CalcEnergy(config);
  }

  /** The directed bond from (x, y) to its neighbour at offset d: -s * s'. */
  function DirBond(g: Grid, x: int, y: int, d: (int, int)): int
    requires IsSquare(g)
  {
    if 0 <= x < |g| && 0 <= y < |g| then -(g[x][y] * NeighbourAt(g, x, y, d)) else 0
  }

  function DirBonds(g: Grid, d: (int, int)): (int, int) -> int
    requires IsSquare(g)
  {
    (x, y) => DirBond(g, x, y, d)
  }

  function PairBonds(g: Grid, d: (int, int), e: (int, int)): (int, int) -> int
    requires IsSquare(g)
  {
    (x, y) => DirBond(g, x, y, d) + DirBond(g, x, y, e)
  }

  /** A site term is the sum of the four directed bonds leaving the site. */
  lemma SiteEnergyDirected(g: Grid, x: int, y: int)
    requires IsSquare(g) && 0 <= x < |g| && 0 <= y < |g|
    ensures SiteEnergy(g, x, y) ==
      DirBond(g, x, y, (0, -1)) + DirBond(g, x, y, (0, 1)) + DirBond(g, x, y, (-1, 0)) + DirBond(g, x, y, (1, 0))
  {
    NeighboursSumOffsets(g, x, y);
    var s := g[x][y];
    var a, b := NeighbourAt(g, x, y, (0, -1)), NeighbourAt(g, x, y, (0, 1));
    var c, d := NeighbourAt(g, x, y, (-1, 0)), NeighbourAt(g, x, y, (1, 0));
    assert -(a + b + c + d) * s == -(s * a) + -(s * b) + -(s * c) + -(s * d);
  }

  /** The energy sum splits into the sums of the four kinds of directed bond. */
  lemma EnergySumDirected(g: Grid)
    requires IsSquare(g)
    ensures var n := |g|;
      EnergySum(g) ==
        Sum2(n, DirBonds(g, (0, -1))) + Sum2(n, DirBonds(g, (0, 1))) +
        Sum2(n, DirBonds(g, (-1, 0))) + Sum2(n, DirBonds(g, (1, 0)))
  {
    var n := |g|;
    EnergySumIsSiteSum(g);
    var cols, rows := PairBonds(g, (0, -1), (0, 1)), PairBonds(g, (-1, 0), (1, 0));
    forall x, y | 0 <= x < n && 0 <= y < n
      ensures SiteEnergies(g)(x, y) == cols(x, y) + rows(x, y)
    {
      SiteEnergyDirected(g, x, y);
    }
    Sum2Add(n, cols, rows, SiteEnergies(g));
    Sum2Add(n, DirBonds(g, (0, -1)), DirBonds(g, (0, 1)), cols);
    Sum2Add(n, DirBonds(g, (-1, 0)), DirBonds(g, (1, 0)), rows);
  }

  /** The bond to the next row is the next row's bond back: both directions sum alike. */
  lemma RowBondsBalance(g: Grid)
    requires IsSquare(g) && |g| >= 1
    ensures Sum2(|g|, DirBonds(g, (1, 0))) == Sum2(|g|, DirBonds(g, (-1, 0)))
  {
    var n := |g|;
    forall x, y | 0 <= x < n && 0 <= y < n
      ensures DirBonds(g, (1, 0))(x, y) == DirBonds(g, (-1, 0))(if x + 1 < n then x + 1 else 0, y)
    {
      WrapEdges(x + 1, n);
      WrapEdges(y, n);
      WrapInverse(x, n);
      var x' := Wrap(x + 1, n);
      assert g[x][y] * g[x'][y] == g[x'][y] * g[x][y];
    }
    Sum2RotateRows(n, DirBonds(g, (-1, 0)), DirBonds(g, (1, 0)));
  }

  /** The bond to the next column is the next column's bond back. */
  lemma ColBondsBalance(g: Grid)
    requires IsSquare(g) && |g| >= 1
    ensures Sum2(|g|, DirBonds(g, (0, 1))) == Sum2(|g|, DirBonds(g, (0, -1)))
  {
    var n := |g|;
    forall x, y | 0 <= x < n && 0 <= y < n
      ensures DirBonds(g, (0, 1))(x, y) == DirBonds(g, (0, -1))(x, if y + 1 < n then y + 1 else 0)
    {
      WrapEdges(y + 1, n);
      WrapEdges(x, n);
      WrapInverse(y, n);
      var y' := Wrap(y + 1, n);
      assert g[x][y] * g[x][y'] == g[x][y'] * g[x][y];
    }
    Sum2RotateCols(n, DirBonds(g, (0, -1)), DirBonds(g, (0, 1)));
  }

  /** The bonds a site owns are its directed bonds to the next row and the next column. */
  lemma HamiltonianDirected(g: Grid)
    requires IsSquare(g)
    ensures Hamiltonian(g) == Sum2(|g|, DirBonds(g, (1, 0))) + Sum2(|g|, DirBonds(g, (0, 1)))
  {
    var n := |g|;
    forall x, y | 0 <= x < n && 0 <= y < n
      ensures Bonds(g)(x, y) == DirBonds(g, (1, 0))(x, y) + DirBonds(g, (0, 1))(x, y)
    {
      WrapEdges(x, n);
      WrapEdges(y, n);
    }
    Sum2Add(n, DirBonds(g, (1, 0)), DirBonds(g, (0, 1)), Bonds(g));
  }

  /** Each bond is counted from both of its ends, so the energy sum is 2 * H. */
  lemma EnergyIsTwiceHamiltonian(g: Grid)
    requires IsSquare(g)
    ensures EnergySum(g) == 2 * Hamiltonian(g)
  {
    EnergySumDirected(g);
    HamiltonianDirected(g);
    if |g| >= 1 {
      RowBondsBalance(g);
      ColBondsBalance(g);
    }
  }

  /** The value energy and calcEnergy return is half the Hamiltonian. */
  lemma EnergyOfIsHalfHamiltonian(g: Grid)
    requires IsSquare(g)
    ensures EnergyOf(g) == Hamiltonian(g) as real / 2.0
  {
    EnergyIsTwiceHamiltonian(g);
  }

  /** Away from (a, b) and the two sites owning a bond to it, a flip leaves the owned bonds alone. */
  lemma FlipKeepsFarBonds(g: Grid, a: int, b: int, x: int, y: int)
    requires IsSquare(g) && 2 <= |g| && 0 <= a < |g| && 0 <= b < |g| && 0 <= x < |g| && 0 <= y < |g|
    requires (x != a || y != b) && (x != Wrap(a - 1, |g|) || y != b) && (x != a || y != Wrap(b - 1, |g|))
    ensures Bond(Flip(g, a, b), x, y) == Bond(g, x, y)
  {
    WrapForwardIff(x, a, |g|);
    WrapForwardIff(y, b, |g|);
  }

  /**
   A flip at (a, b) changes the bond terms of the three sites owning a bond
   to (a, b): its own term, which holds two of the four bonds, and the terms
   of the sites above and to the left. Each bond changes by 2 * s * s'.
   */
  lemma FlipNearBonds(g: Grid, a: int, b: int)
    requires IsSquare(g) && 2 <= |g| && 0 <= a < |g| && 0 <= b < |g|
    ensures var n, h, s := |g|, Flip(g, a, b), g[a][b];
      var pa, qb := Wrap(a - 1, n), Wrap(b - 1, n);
      && Bond(h, a, b) - Bond(g, a, b) == 2 * s * g[Wrap(a + 1, n)][b] + 2 * s * g[a][Wrap(b + 1, n)]
      && Bond(h, pa, b) - Bond(g, pa, b) == 2 * s * g[pa][b]
      && Bond(h, a, qb) - Bond(g, a, qb) == 2 * s * g[a][qb]
  {
    var n, h, s := |g|, Flip(g, a, b), g[a][b];
    var pa, qb := Wrap(a - 1, n), Wrap(b - 1, n);
    var na, nb := Wrap(a + 1, n), Wrap(b + 1, n);
    WrapMovesOff(a, n);
    WrapMovesOff(b, n);
    WrapInverse(a, n);
    WrapInverse(b, n);
    assert h[a][b] == -s && h[na][b] == g[na][b] && h[a][nb] == g[a][nb];
    OwnBondsChange(s, g[na][b], g[a][nb]);
    assert Wrap(pa + 1, n) == a && h[pa][b] == g[pa][b] && h[pa][nb] == g[pa][nb];
    NeighbourBondChanges(s, g[pa][b], g[pa][nb]);
    assert Wrap(qb + 1, n) == b && h[a][qb] == g[a][qb] && h[Wrap(a + 1, n)][qb] == g[na][qb];
    NeighbourBondChanges(s, g[a][qb], g[na][qb]);
  }

  /** The flipped site's own two bonds change by 2 * s times each neighbour. */
  lemma OwnBondsChange(s: int, u: int, v: int)
    ensures -((-s) * u + (-s) * v) - -(s * u + s * v) == 2 * s * u + 2 * s * v
  {
  }

  /** A neighbour's bond to the flipped site changes by 2 * s times the neighbour. */
  lemma NeighbourBondChanges(s: int, x: int, y: int)
    ensures -(x * (-s) + x * y) - -(x * s + x * y) == 2 * s * x
    ensures -(x * y + x * (-s)) - -(x * y + x * s) == 2 * s * x
  {
  }

  /**
   On a torus of side at least 2, flipping the spin at (a, b) changes the
   Hamiltonian by exactly the closed-form delta 2 * s * (neighbour sum).
   */
  lemma FlipChangesHamiltonian(g: Grid, a: int, b: int)
    requires IsSquare(g) && 2 <= |g| && 0 <= a < |g| && 0 <= b < |g|
    ensures Hamiltonian(Flip(g, a, b)) == Hamiltonian(g) + FlipDelta(g, a, b)
  {
    var n, h := |g|, Flip(g, a, b);
    var pa, qb := Wrap(a - 1, n), Wrap(b - 1, n);
    WrapMovesOff(a, n);
    WrapMovesOff(b, n);
    forall x, y | 0 <= x < n && 0 <= y < n && (x != a || y != b) && (x != pa || y != b) && (x != a || y != qb)
      ensures Bonds(h)(x, y) == Bonds(g)(x, y)
    {
      FlipKeepsFarBonds(g, a, b, x, y);
    }
    Sum2Point3(n, Bonds(g), Bonds(h), a, b, pa, b, a, qb);
    FlipNearBonds(g, a, b);
    NeighboursSumCells(g, a, b);
    var s := g[a][b];
    var u, d, l, r := g[pa][b], g[Wrap(a + 1, n)][b], g[a][qb], g[a][Wrap(b + 1, n)];
    assert FlipDelta(g, a, b) == 2 * s * (l + r + u + d);
    DeltaSplit(s, u, d, l, r);
  }

  lemma DeltaSplit(s: int, u: int, d: int, l: int, r: int)
    ensures 2 * s * (l + r + u + d) == 2 * s * d + 2 * s * r + 2 * s * u + 2 * s * l
  {
  }

  /**
   Flipping a spin changes the undivided energy sum by twice the delta, so
   a negative delta always lowers the energy the observables report.
   */
  lemma FlipChangesEnergySum(g: Grid, a: int, b: int)
    requires IsSquare(g) && 2 <= |g| && 0 <= a < |g| && 0 <= b < |g|
    ensures EnergySum(Flip(g, a, b)) == EnergySum(g) + 2 * FlipDelta(g, a, b)
  {
    EnergyIsTwiceHamiltonian(g);
    EnergyIsTwiceHamiltonian(Flip(g, a, b));
    FlipChangesHamiltonian(g, a, b);
  }

  /**
   On the 1 x 1 torus the site is its own neighbour in all four directions:
   the closed-form delta is 8 while the flip leaves the Hamiltonian unchanged.
   */
  lemma OneSiteTorus(g: Grid)
    requires IsSpinGrid(g) && |g| == 1
    ensures FlipDelta(g, 0, 0) == 8
    ensures Hamiltonian(Flip(g, 0, 0)) == Hamiltonian(g) == -2
  {
    var h := Flip(g, 0, 0);
    WrapEdges(-1, 1);
    WrapEdges(1, 1);
    NeighboursSumCells(g, 0, 0);
    assert IsSpin(g[0][0]);
    assert Hamiltonian(g) == Bonds(g)(0, 0);
    assert Hamiltonian(h) == Bonds(h)(0, 0);
  }

  /** The total of a row of cells, last cell last. */
  function RowTotal(s: seq<int>): int
  {
    if |s| == 0 then 0 else RowTotal(s[..|s| - 1]) + s[|s| - 1]
  }

  /** The total of every cell of a grid, row by row. */
  function GridTotal(g: Grid): int
  {
    if |g| == 0 then 0 else GridTotal(g[..|g| - 1]) + RowTotal(g[|g| - 1])
  }

  /** mag: np.sum over the lattice array, which on a square lattice is the magnetization. */
  function MagOf(config: array2<int>): (m: int)
    reads config
    ensures config.Length0 == config.Length1 ==> m == Mag(Cells(config))
  {
    var g := Cells(config);
    if config.Length0 == config.Length1 then GridTotalIsMag(g); GridTotal(g) else GridTotal(g)
  }

  lemma {:induction false} RowTotalIsSum(g: Grid, x: int, k: nat)
    requires IsSquare(g) && 0 <= x < |g| && k <= |g|
    ensures RowTotal(g[x][..k]) == Sum(k, Row(Spins(g), x))
  {
    if k > 0 {
      assert g[x][..k][..k - 1] == g[x][..k - 1];
      RowTotalIsSum(g, x, k - 1);
    }
  }

  lemma {:induction false} GridTotalIsSum(g: Grid, k: nat)
    requires IsSquare(g) && k <= |g|
    ensures GridTotal(g[..k]) == Sum(k, RowTotals(|g|, Spins(g)))
  {
    if k > 0 {
      assert g[..k][..k - 1] == g[..k - 1];
      GridTotalIsSum(g, k - 1);
      RowTotalIsSum(g, k - 1, |g|);
      assert g[k - 1][..|g|] == g[k - 1];
    }
  }

  /** Adding the cells row by row gives the magnetization. */
  lemma GridTotalIsMag(g: Grid)
    requires IsSquare(g)
    ensures GridTotal(g) == Mag(g)
  {
    GridTotalIsSum(g, |g|);
    assert g[..|g|] == g;
  }

  /** Flipping a spin s changes the magnetization by -2 * s. */
  lemma MagFlip(g: Grid, a: int, b: int)
    requires IsSquare(g) && 0 <= a < |g| && 0 <= b < |g|
    ensures Mag(Flip(g, a, b)) == Mag(g) - 2 * g[a][b]
  {
    Sum2Point(|g|, Spins(g), Spins(Flip(g, a, b)), a, b);
  }

  lemma MagBounds(g: Grid)
    requires IsSpinGrid(g)
    ensures -(|g| * |g|) <= Mag(g) <= |g| * |g|
  {
    Sum2Bounds(|g|, Spins(g), 1);
  }

  /**
   On the all-up lattice every site term is -4, so the energy is -N * N,
   the Hamiltonian -2 * N * N and the magnetization N * N.
   */
  lemma AllUpObservables(g: Grid)
    requires AllUp(g)
    ensures EnergySum(g) == -4 * (|g| * |g|)
    ensures EnergyOf(g) == -((|g| * |g|) as real)
    ensures Hamiltonian(g) == -2 * (|g| * |g|)
    ensures Mag(g) == |g| * |g|
  {
    var n := |g|;
    EnergySumIsSiteSum(g);
    forall x, y | 0 <= x < n && 0 <= y < n
      ensures SiteEnergies(g)(x, y) == -4
    {
      AllUpNeighbours(g, x, y);
    }
    Sum2Const(n, SiteEnergies(g), -4);
    Sum2Const(n, Bonds(g), -2);
    Sum2Const(n, Spins(g), 1);
  }

  /** The 2 x 2 all-up lattice has energy -16 / 4 = -4.0. */
  lemma TwoByTwoAllUp()
    ensures EnergyOf([[1, 1], [1, 1]]) == -4.0
  {
    AllUpObservables([[1, 1], [1, 1]]);
  }
}

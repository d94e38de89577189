/**
 Finite sums over an index range [0, k) and over the square [0, n) x [0, n).
 The lattice observables are all sums of a per-site term over the whole
 torus; the lemmas here are the reindexing and point-update facts that the
 energy proofs need.
 */
module Sums {

  /** The sum of f(y) for 0 <= y < k. */
  function Sum(k: nat, f: int -> int): int
  {
    if k == 0 then 0 else Sum(k - 1, f) + f(k - 1)
  }

  /** Row x of a two-argument term, as a function of the column. */
  function Row(f: (int, int) -> int, x: int): int -> int
  {
    y => f(x, y)
  }

  /** The row totals of f over n columns, as a function of the row. */
  function RowTotals(n: nat, f: (int, int) -> int): int -> int
  {
    x => Sum(n, Row(f, x))
  }

  /** The sum of f(x, y) over the n x n square, row by row. */
  function Sum2(n: nat, f: (int, int) -> int): int
  {
    Sum(n, RowTotals(n, f))
  }

  lemma {:induction false} SumExt(k: nat, f: int -> int, g: int -> int)
    requires forall y :: 0 <= y < k ==> f(y) == g(y)
    ensures Sum(k, f) == Sum(k, g)
  {
    if k > 0 {
      SumExt(k - 1, f, g);
    }
  }

  lemma {:induction false} SumAdd(k: nat, f: int -> int, g: int -> int, h: int -> int)
    requires forall y :: 0 <= y < k ==> h(y) == f(y) + g(y)
    ensures Sum(k, h) == Sum(k, f) + Sum(k, g)
  {
    if k > 0 {
      SumAdd(k - 1, f, g, h);
    }
  }

  /** Changing a term at one index changes the sum by exactly that difference. */
  lemma {:induction false} SumPoint(k: nat, f: int -> int, g: int -> int, p: int)
    requires 0 <= p < k
    requires forall y :: 0 <= y < k && y != p ==> g(y) == f(y)
    ensures Sum(k, g) == Sum(k, f) + (g(p) - f(p))
  {
    if p == k - 1 {
      SumExt(k - 1, f, g);
    } else {
      SumPoint(k - 1, f, g, p);
    }
  }

  lemma {:induction false} SumConst(k: nat, f: int -> int, c: int)
    requires forall y :: 0 <= y < k ==> f(y) == c
    ensures Sum(k, f) == k * c
  {
    if k > 0 {
      SumConst(k - 1, f, c);
    }
  }

  lemma {:induction false} SumBounds(k: nat, f: int -> int, c: int)
    requires forall y :: 0 <= y < k ==> -c <= f(y) <= c
    ensures -(k * c) <= Sum(k, f) <= k * c
  {
    if k > 0 {
      SumBounds(k - 1, f, c);
      assert k * c == (k - 1) * c + c;
    }
  }

  /** Splitting off the first term: g is f shifted down by one index. */
  lemma {:induction false} SumFront(k: nat, f: int -> int, g: int -> int)
    requires forall y :: 0 <= y < k ==> g(y) == f(y + 1)
    ensures Sum(k + 1, f) == f(0) + Sum(k, g)
  {
    if k > 0 {
      SumFront(k - 1, f, g);
    }
  }

  /** A cyclic rotation by one place does not change a sum over [0, n). */
  lemma SumRotate(n: nat, f: int -> int, g: int -> int)
    requires n >= 1
    requires forall y :: 0 <= y < n ==> g(y) == f(if y + 1 < n then y + 1 else 0)
    ensures Sum(n, g) == Sum(n, f)
  {
    SumFront(n - 1, f, g);
  }

  lemma Sum2Add(n: nat, f: (int, int) -> int, g: (int, int) -> int, h: (int, int) -> int)
    requires forall x, y :: 0 <= x < n && 0 <= y < n ==> h(x, y) == f(x, y) + g(x, y)
    ensures Sum2(n, h) == Sum2(n, f) + Sum2(n, g)
  {
    forall x | 0 <= x < n
      ensures RowTotals(n, h)(x) == RowTotals(n, f)(x) + RowTotals(n, g)(x)
    {
      SumAdd(n, Row(f, x), Row(g, x), Row(h, x));
    }
    SumAdd(n, RowTotals(n, f), RowTotals(n, g), RowTotals(n, h));
  }

  /** Changing a term at one site changes the sum over the square by exactly that difference. */
  lemma Sum2Point(n: nat, f: (int, int) -> int, g: (int, int) -> int, a: int, b: int)
    requires 0 <= a < n && 0 <= b < n
    requires forall x, y :: 0 <= x < n && 0 <= y < n && (x != a || y != b) ==> g(x, y) == f(x, y)
    ensures Sum2(n, g) == Sum2(n, f) + (g(a, b) - f(a, b))
  {
    forall x | 0 <= x < n && x != a
      ensures RowTotals(n, g)(x) == RowTotals(n, f)(x)
    {
      SumExt(n, Row(f, x), Row(g, x));
    }
    SumPoint(n, Row(f, a), Row(g, a), b);
    SumPoint(n, RowTotals(n, f), RowTotals(n, g), a);
  }

  /** Changing the terms at three distinct sites changes the sum by the three differences. */
  lemma Sum2Point3(n: nat, f: (int, int) -> int, g: (int, int) -> int,
                   a1: int, b1: int, a2: int, b2: int, a3: int, b3: int)
    requires 0 <= a1 < n && 0 <= b1 < n && 0 <= a2 < n && 0 <= b2 < n && 0 <= a3 < n && 0 <= b3 < n
    requires (a1 != a2 || b1 != b2) && (a1 != a3 || b1 != b3) && (a2 != a3 || b2 != b3)
    requires forall x, y ::
      0 <= x < n && 0 <= y < n && (x != a1 || y != b1) && (x != a2 || y != b2) && (x != a3 || y != b3)
      ==> g(x, y) == f(x, y)
    ensures Sum2(n, g) == Sum2(n, f) + (g(a1, b1) - f(a1, b1)) + (g(a2, b2) - f(a2, b2)) + (g(a3, b3) - f(a3, b3))
  {
    var m1 := (x: int, y: int) => if x == a1 && y == b1 then g(x, y) else f(x, y);
    var m2 := (x: int, y: int) => if (x == a1 && y == b1) || (x == a2 && y == b2) then g(x, y) else f(x, y);
    Sum2Point(n, f, m1, a1, b1);
    Sum2Point(n, m1, m2, a2, b2);
    Sum2Point(n, m2, g, a3, b3);
  }

  lemma Sum2Const(n: nat, f: (int, int) -> int, c: int)
    requires forall x, y :: 0 <= x < n && 0 <= y < n ==> f(x, y) == c
    ensures Sum2(n, f) == n * n * c
  {
    forall x | 0 <= x < n
      ensures RowTotals(n, f)(x) == n * c
    {
      SumConst(n, Row(f, x), c);
    }
    SumConst(n, RowTotals(n, f), n * c);
    assert n * (n * c) == n * n * c;
  }

  lemma Sum2Bounds(n: nat, f: (int, int) -> int, c: int)
    requires forall x, y :: 0 <= x < n && 0 <= y < n ==> -c <= f(x, y) <= c
    ensures -(n * n * c) <= Sum2(n, f) <= n * n * c
  {
    forall x | 0 <= x < n
      ensures -(n * c) <= RowTotals(n, f)(x) <= n * c
    {
      SumBounds(n, Row(f, x), c);
    }
    SumBounds(n, RowTotals(n, f), n * c);
    assert n * (n * c) == n * n * c;
  }

  /** Rotating the rows of the torus by one does not change the sum. */
  lemma Sum2RotateRows(n: nat, f: (int, int) -> int, g: (int, int) -> int)
    requires n >= 1
    requires forall x, y :: 0 <= x < n && 0 <= y < n ==> g(x, y) == f(if x + 1 < n then x + 1 else 0, y)
    ensures Sum2(n, g) == Sum2(n, f)
  {
    forall x | 0 <= x < n
      ensures RowTotals(n, g)(x) == RowTotals(n, f)(if x + 1 < n then x + 1 else 0)
    {
      SumExt(n, Row(g, x), Row(f, if x + 1 < n then x + 1 else 0));
    }
    SumRotate(n, RowTotals(n, f), RowTotals(n, g));
  }

  /** Rotating the columns of the torus by one does not change the sum. */
  lemma Sum2RotateCols(n: nat, f: (int, int) -> int, g: (int, int) -> int)
    requires n >= 1
    requires forall x, y :: 0 <= x < n && 0 <= y < n ==> g(x, y) == f(x, if y + 1 < n then y + 1 else 0)
    ensures Sum2(n, g) == Sum2(n, f)
  {
    forall x | 0 <= x < n
      ensures RowTotals(n, g)(x) == RowTotals(n, f)(x)
    {
      SumRotate(n, Row(f, x), Row(g, x));
    }
    SumExt(n, RowTotals(n, g), RowTotals(n, f));
  }
}

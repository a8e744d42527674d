/**
 * The distance table as a value: a flat, row-major sequence of `n * n`
 * cells, where cell (y, x) is the best known length from waypoint y to
 * waypoint x. This module gives the meaning of each table operation as a
 * function on such sequences, and proves what one pass of the relaxation
 * and a series of passes do to the table.
 */
module Tables {
  import opened Distances

  /** Row-major position of cell (i, j) in a table with `n` columns. */
  function Idx(n: nat, i: nat, j: nat): (p: nat) {
    i * n + j
  }

  lemma IdxInRange(n: nat, i: nat, j: nat)
    requires i < n && j < n
    ensures Idx(n, i, j) < n * n
  {
    assert i * n + n == (i + 1) * n;
    assert (i + 1) * n <= n * n by {
      MulLeRight(i + 1, n, n);
    }
  }

  lemma MulLeRight(a: nat, b: nat, c: nat)
    requires a <= b
    ensures a * c <= b * c
  {
  }

  lemma IdxDivMod(n: nat, i: nat, j: nat)
    requires j < n
    ensures Idx(n, i, j) / n == i && Idx(n, i, j) % n == j
  {
    var p := i * n + j;
    var q, r := p / n, p % n;
    assert p == q * n + r;
    assert 0 <= r < n;
    if q < i {
      MulLeRight(q + 1, i, n);
    } else if q > i {
      MulLeRight(i + 1, q, n);
    }
  }

  /** Every position of the flat table is the position of exactly one cell. */
  lemma IdxDecompose(n: nat, p: nat)
    requires p < n * n
    ensures p / n < n && p % n < n && Idx(n, p / n, p % n) == p
  {
    assert n > 0;
    var q := p / n;
    if q >= n {
      MulLeRight(n, q, n);
    }
  }

  lemma IdxInjective(n: nat, i: nat, j: nat, i': nat, j': nat)
    requires j < n && j' < n
    ensures Idx(n, i, j) == Idx(n, i', j') <==> i == i' && j == j'
  {
    IdxDivMod(n, i, j);
    IdxDivMod(n, i', j');
  }

  /** A table of `n` waypoints. */
  predicate IsTable(d: seq<Dist>, n: nat) {
    |d| == n * n
  }

  /** Cell (i, j): the best known length from i to j. */
  function At(d: seq<Dist>, n: nat, i: nat, j: nat): (r: Dist)
    requires IsTable(d, n) && i < n && j < n
  {
    IdxInRange(n, i, j);
    d[Idx(n, i, j)]
  }

  /** Two tables of `n` waypoints with the same cells are the same table. */
  lemma TableExt(d: seq<Dist>, e: seq<Dist>, n: nat)
    requires IsTable(d, n) && IsTable(e, n)
    requires forall i: nat, j: nat :: i < n && j < n ==> At(d, n, i, j) == At(e, n, i, j)
    ensures d == e
  {
    forall p | 0 <= p < n * n
      ensures d[p] == e[p]
    {
      IdxDecompose(n, p);
      assert At(d, n, p / n, p % n) == At(e, n, p / n, p % n);
    }
  }

  ghost predicate ZeroDiagonal(d: seq<Dist>, n: nat)
    requires IsTable(d, n)
  {
    forall i: nat :: i < n ==> At(d, n, i, i) == Fin(0)
  }

  ghost predicate Symmetric(d: seq<Dist>, n: nat)
    requires IsTable(d, n)
  {
    forall i: nat, j: nat :: i < n && j < n ==> At(d, n, i, j) == At(d, n, j, i)
  }

  /** `e` is nowhere longer than `d`. */
  ghost predicate NoLonger(e: seq<Dist>, d: seq<Dist>, n: nat)
    requires IsTable(d, n) && IsTable(e, n)
  {
    forall i: nat, j: nat :: i < n && j < n ==> Le(At(e, n, i, j), At(d, n, i, j))
  }

  // ---------------------------------------------------------------------
  // Construction

  function InitialCell(n: nat, p: nat): (r: Dist)
    requires p < n * n
  {
    if p / n == p % n then Fin(0) else Inf
  }

  /** The table a fresh engine holds. */
  function Initial(n: nat): (d: seq<Dist>)
    ensures IsTable(d, n)
  {
    seq(n * n, p requires 0 <= p < n * n => InitialCell(n, p))
  }

  /** A fresh table has 0 on the diagonal and no path anywhere else. */
  lemma InitialAt(n: nat, i: nat, j: nat)
    requires i < n && j < n
    ensures At(Initial(n), n, i, j) == if i == j then Fin(0) else Inf
  {
    IdxInRange(n, i, j);
    IdxDivMod(n, i, j);
  }

  lemma InitialShape(n: nat)
    ensures ZeroDiagonal(Initial(n), n) && Symmetric(Initial(n), n)
  {
    forall i: nat, j: nat | i < n && j < n
      ensures At(Initial(n), n, i, j) == if i == j then Fin(0) else Inf
    {
      InitialAt(n, i, j);
    }
  }

  // ---------------------------------------------------------------------
  // Writing a cell and recording an undirected edge

  /** The table after writing `v` through the reference to cell (s, t). */
  function Write(d: seq<Dist>, n: nat, s: nat, t: nat, v: Dist): (e: seq<Dist>)
    requires IsTable(d, n) && s < n && t < n
    ensures IsTable(e, n)
  {
    IdxInRange(n, s, t);
    d[Idx(n, s, t) := v]
  }

  /** Writing cell (s, t) changes that cell and no other. */
  lemma WriteAt(d: seq<Dist>, n: nat, s: nat, t: nat, v: Dist, i: nat, j: nat)
    requires IsTable(d, n) && s < n && t < n && i < n && j < n
    ensures At(Write(d, n, s, t, v), n, i, j) == if i == s && j == t then v else At(d, n, i, j)
  {
    IdxInRange(n, s, t);
    IdxInRange(n, i, j);
    IdxInjective(n, s, t, i, j);
  }

  /** An undirected edge of weight `w` between `s` and `t`. */
  function WithEdge(d: seq<Dist>, n: nat, s: nat, t: nat, w: Dist): (e: seq<Dist>)
    requires IsTable(d, n) && s < n && t < n
    ensures IsTable(e, n)
  {
    Write(Write(d, n, t, s, w), n, s, t, w)
  }

  lemma WithEdgeAt(d: seq<Dist>, n: nat, s: nat, t: nat, w: Dist, i: nat, j: nat)
    requires IsTable(d, n) && s < n && t < n && i < n && j < n
    ensures At(WithEdge(d, n, s, t, w), n, i, j) ==
            if (i == s && j == t) || (i == t && j == s) then w else At(d, n, i, j)
  {
    WriteAt(d, n, t, s, w, i, j);
    WriteAt(Write(d, n, t, s, w), n, s, t, w, i, j);
  }

  /** Recording an edge between two distinct waypoints keeps the diagonal and the symmetry. */
  lemma WithEdgeKeepsShape(d: seq<Dist>, n: nat, s: nat, t: nat, w: Dist)
    requires IsTable(d, n) && s < n && t < n && s != t
    ensures ZeroDiagonal(d, n) ==> ZeroDiagonal(WithEdge(d, n, s, t, w), n)
    ensures Symmetric(d, n) ==> Symmetric(WithEdge(d, n, s, t, w), n)
  {
    forall i: nat, j: nat | i < n && j < n
      ensures At(WithEdge(d, n, s, t, w), n, i, j) ==
              if (i == s && j == t) || (i == t && j == s) then w else At(d, n, i, j)
    {
      WithEdgeAt(d, n, s, t, w, i, j);
    }
  }

  // ---------------------------------------------------------------------
  // One pass of the relaxation, and the series of passes

  /**
   * New value of cell (y, x) in the pass whose intermediate waypoint is `k`:
   * row k, column k and the diagonal are skipped, every other cell is relaxed
   * through k.
   */
  function Relaxed(d: seq<Dist>, n: nat, k: nat, y: nat, x: nat): (r: Dist)
    requires IsTable(d, n) && k < n && y < n && x < n
  {
    if y == k || x == y || x == k then At(d, n, y, x)
    else Relax(At(d, n, y, x), At(d, n, y, k), At(d, n, k, x))
  }

  function RelaxedFlat(d: seq<Dist>, n: nat, k: nat, p: nat): (r: Dist)
    requires IsTable(d, n) && k < n && p < n * n
  {
    IdxDecompose(n, p);
    Relaxed(d, n, k, p / n, p % n)
  }

  /** The table after the pass with intermediate waypoint `k`. */
  function Step(d: seq<Dist>, n: nat, k: nat): (e: seq<Dist>)
    requires IsTable(d, n) && k < n
    ensures IsTable(e, n)
  {
    seq(n * n, p requires 0 <= p < n * n => RelaxedFlat(d, n, k, p))
  }

  lemma StepAt(d: seq<Dist>, n: nat, k: nat, y: nat, x: nat)
    requires IsTable(d, n) && k < n && y < n && x < n
    ensures At(Step(d, n, k), n, y, x) == Relaxed(d, n, k, y, x)
  {
    IdxInRange(n, y, x);
    IdxDivMod(n, y, x);
  }

  /**
   * A pass leaves the diagonal, row k and column k as they were, never
   * lengthens a cell, and leaves a cell alone when a leg through k is
   * unreachable.
   */
  lemma StepFrame(d: seq<Dist>, n: nat, k: nat, y: nat, x: nat)
    requires IsTable(d, n) && k < n && y < n && x < n
    ensures y == x || y == k || x == k ==> At(Step(d, n, k), n, y, x) == At(d, n, y, x)
    ensures Le(At(Step(d, n, k), n, y, x), At(d, n, y, x))
    ensures At(d, n, y, k).Inf? || At(d, n, k, x).Inf? ==> At(Step(d, n, k), n, y, x) == At(d, n, y, x)
  {
    StepAt(d, n, k, y, x);
  }

  /** Once the pass through `k` is done, no route through k is shorter than the cell. */
  lemma StepTriangle(d: seq<Dist>, n: nat, k: nat, y: nat, x: nat)
    requires IsTable(d, n) && k < n && y < n && x < n && ZeroDiagonal(d, n)
    ensures Le(At(Step(d, n, k), n, y, x), Add(At(Step(d, n, k), n, y, k), At(Step(d, n, k), n, k, x)))
  {
    StepAt(d, n, k, y, x);
    StepAt(d, n, k, y, k);
    StepAt(d, n, k, k, x);
    assert At(d, n, k, k) == Fin(0);
  }

  /** The value of the pass at (y, x) is the shorter of the cell and the route through k. */
  lemma StepIsMin(d: seq<Dist>, n: nat, k: nat, y: nat, x: nat)
    requires IsTable(d, n) && k < n && y < n && x < n && ZeroDiagonal(d, n)
    ensures Le(At(Step(d, n, k), n, y, x), At(d, n, y, x))
    ensures Le(At(Step(d, n, k), n, y, x), Add(At(d, n, y, k), At(d, n, k, x)))
    ensures At(Step(d, n, k), n, y, x) == At(d, n, y, x) ||
            At(Step(d, n, k), n, y, x) == Add(At(d, n, y, k), At(d, n, k, x))
  {
    StepAt(d, n, k, y, x);
    assert At(d, n, k, k) == Fin(0) && At(d, n, y, y) == Fin(0);
  }

  lemma StepKeepsShape(d: seq<Dist>, n: nat, k: nat)
    requires IsTable(d, n) && k < n
    ensures ZeroDiagonal(d, n) ==> ZeroDiagonal(Step(d, n, k), n)
    ensures Symmetric(d, n) ==> Symmetric(Step(d, n, k), n)
  {
    forall y: nat, x: nat | y < n && x < n
      ensures At(Step(d, n, k), n, y, x) == Relaxed(d, n, k, y, x)
    {
      StepAt(d, n, k, y, x);
    }
  }

  /** The table after the passes with intermediates 0, 1, ..., k - 1, in that order. */
  function Passes(g: seq<Dist>, n: nat, k: nat): (d: seq<Dist>)
    requires IsTable(g, n) && k <= n
    ensures IsTable(d, n)
  {
    if k == 0 then g else Step(Passes(g, n, k - 1), n, k - 1)
  }

  lemma {:induction false} PassesKeepShape(g: seq<Dist>, n: nat, k: nat)
    requires IsTable(g, n) && k <= n
    ensures ZeroDiagonal(g, n) ==> ZeroDiagonal(Passes(g, n, k), n)
    ensures Symmetric(g, n) ==> Symmetric(Passes(g, n, k), n)
  {
    if k > 0 {
      PassesKeepShape(g, n, k - 1);
      StepKeepsShape(Passes(g, n, k - 1), n, k - 1);
    }
  }

  /** No pass ever lengthens a cell. */
  lemma {:induction false} PassesNoLonger(g: seq<Dist>, n: nat, k: nat)
    requires IsTable(g, n) && k <= n
    ensures NoLonger(Passes(g, n, k), g, n)
  {
    if k > 0 {
      PassesNoLonger(g, n, k - 1);
      forall i: nat, j: nat | i < n && j < n
        ensures Le(At(Passes(g, n, k), n, i, j), At(g, n, i, j))
      {
        StepFrame(Passes(g, n, k - 1), n, k - 1, i, j);
        LeTrans(At(Passes(g, n, k), n, i, j), At(Passes(g, n, k - 1), n, i, j), At(g, n, i, j));
      }
    }
  }
}

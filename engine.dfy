/**
 * The `Floyd` class: an all-pairs shortest-path engine over a flat,
 * row-major table of `count * count` cells, filled in place by the
 * constructor and relaxed in place, one intermediate waypoint per pass.
 * The edge-recording step of the interactive front end (range check,
 * self-loop check, symmetric write) is kept as `RecordEdge`.
 */
module Engine {
  import opened Distances
  import opened Tables
  import opened Paths

  datatype EdgeError = IndexOutOfRange | SamePlace

  datatype Outcome = Pass | Fail(error: EdgeError)

  /** An edge line of the front end: source index, destination index, length. */
  datatype Edge = Edge(src: nat, dst: nat, weight: SizeT)

  /**
   * The front end's check of an edge line: an index outside the table is
   * reported before a line that joins a waypoint to itself.
   */
  function CheckEdge(n: nat, src: nat, dst: nat): (r: Outcome)
    ensures r.Pass? <==> src < n && dst < n && src != dst
    ensures r == Fail(IndexOutOfRange) <==> src >= n || dst >= n
  {
    if src >= n || dst >= n then Fail(IndexOutOfRange)
    else if src == dst then Fail(SamePlace)
    else Pass
  }

  /** The table of a fresh engine after the front end has handled `edges` in order. */
  function Recorded(n: nat, edges: seq<Edge>): (d: seq<Dist>)
    ensures IsTable(d, n)
  {
    if edges == [] then Initial(n)
    else
      var d := Recorded(n, edges[..|edges| - 1]);
      var e := edges[|edges| - 1];
      if CheckEdge(n, e.src, e.dst).Pass? then WithEdge(d, n, e.src, e.dst, FromSizeT(e.weight)) else d
  }

  /** Whatever edge lines are entered, the table keeps a zero diagonal and stays symmetric. */
  lemma {:induction false} RecordedShape(n: nat, edges: seq<Edge>)
    ensures ZeroDiagonal(Recorded(n, edges), n) && Symmetric(Recorded(n, edges), n)
  {
    if edges == [] {
      InitialShape(n);
    } else {
      var e := edges[|edges| - 1];
      RecordedShape(n, edges[..|edges| - 1]);
      if CheckEdge(n, e.src, e.dst).Pass? {
        WithEdgeKeepsShape(Recorded(n, edges[..|edges| - 1]), n, e.src, e.dst, FromSizeT(e.weight));
      }
    }
  }

  /** The relaxed table of the front end is symmetric and holds shortest route lengths. */
  lemma RecordedThenRelaxed(n: nat, edges: seq<Edge>, i: nat, j: nat)
    requires i < n && j < n
    ensures Symmetric(Passes(Recorded(n, edges), n, n), n)
    ensures forall p :: IsPath(n, p, i, j, n) ==>
              Le(At(Passes(Recorded(n, edges), n, n), n, i, j), Weight(Recorded(n, edges), n, p))
    ensures At(Passes(Recorded(n, edges), n, n), n, i, j).Fin? ==>
              exists p :: IsPath(n, p, i, j, n) &&
                          Weight(Recorded(n, edges), n, p) == At(Passes(Recorded(n, edges), n, n), n, i, j)
  {
    RecordedShape(n, edges);
    PassesKeepShape(Recorded(n, edges), n, n);
    ShortestPaths(Recorded(n, edges), n, i, j);
  }

  lemma NextRow(n: nat, y: nat)
    ensures Idx(n, y, 0) + n == Idx(n, y + 1, 0)
    ensures y < n ==> Idx(n, y + 1, 0) <= n * n
    ensures y == n ==> Idx(n, y, 0) == n * n
  {
    if y < n {
      MulLeRight(y + 1, n, n);
    }
  }

  /**
   * The buffer part-way through the pass through k: the first m positions
   * already hold their new value, the others still hold the old one.
   */
  function Done(d: seq<Dist>, n: nat, k: nat, m: nat): (t: seq<Dist>)
    requires IsTable(d, n) && k < n && m <= n * n
    ensures IsTable(t, n)
    decreases m
  {
    if m == 0 then d else Done(d, n, k, m - 1)[m - 1 := Step(d, n, k)[m - 1]]
  }

  /** The first m positions of `Done` come from the new table, the rest from the old one. */
  lemma {:induction false} DoneSplit(d: seq<Dist>, n: nat, k: nat, m: nat)
    requires IsTable(d, n) && k < n && m <= n * n
    ensures Done(d, n, k, m) == Step(d, n, k)[..m] + d[m..]
    decreases m
  {
    if m > 0 {
      DoneSplit(d, n, k, m - 1);
    }
  }

  /**
   * Visiting a cell (y, x) off the diagonal, row k and column k: relaxing
   * it through k in the partly updated buffer, whose legs through k still
   * hold their old values, moves the pass one position on.
   */
  lemma DoneRelax(d: seq<Dist>, n: nat, k: nat, y: nat, x: nat, m: nat)
    requires IsTable(d, n) && k < n && y < n && x < n && m == Idx(n, y, x)
    requires y != k && x != y && x != k
    ensures m < n * n
    ensures var t := Done(d, n, k, m);
            Done(d, n, k, m + 1) == Write(t, n, y, x, Relax(At(t, n, y, x), At(t, n, y, k), At(t, n, k, x)))
  {
    IdxInRange(n, y, x);
    DoneAt(d, n, k, m, m);
    StepAt(d, n, k, y, x);
    IdxInRange(n, y, k);
    DoneAt(d, n, k, m, Idx(n, y, k));
    StepFrame(d, n, k, y, k);
    IdxInRange(n, k, x);
    DoneAt(d, n, k, m, Idx(n, k, x));
    StepFrame(d, n, k, k, x);
  }

  lemma DoneAt(d: seq<Dist>, n: nat, k: nat, m: nat, p: nat)
    requires IsTable(d, n) && k < n && m <= n * n && p < n * n
    ensures Done(d, n, k, m)[p] == if p < m then Step(d, n, k)[p] else d[p]
  {
    DoneSplit(d, n, k, m);
  }

  /** Visiting a cell on the diagonal, row k or column k leaves the buffer as it is. */
  lemma DoneSkip(d: seq<Dist>, n: nat, k: nat, y: nat, x: nat, m: nat)
    requires IsTable(d, n) && k < n && y < n && x < n && m == Idx(n, y, x)
    requires y == k || x == y || x == k
    ensures m < n * n
    ensures Done(d, n, k, m + 1) == Done(d, n, k, m)
  {
    IdxInRange(n, y, x);
    StepFrame(d, n, k, y, x);
    DoneSplit(d, n, k, m);
  }

  /** Position p of row k, which starts at `row`, is left alone by the pass through k. */
  lemma StepPivotCell(d: seq<Dist>, n: nat, k: nat, row: nat, p: nat)
    requires IsTable(d, n) && k < n && row == Idx(n, k, 0) && row <= p < row + n
    ensures p < n * n && Step(d, n, k)[p] == d[p]
  {
    var x := p - row;
    assert Idx(n, k, x) == p;
    IdxInRange(n, k, x);
    StepFrame(d, n, k, k, x);
  }

  /** The pass through k leaves row k, a run of n cells, as it was. */
  lemma DonePivotRow(d: seq<Dist>, n: nat, k: nat, row: nat)
    requires IsTable(d, n) && k < n && row == Idx(n, k, 0)
    ensures row + n <= n * n
    ensures Done(d, n, k, row + n) == Done(d, n, k, row)
  {
    NextRow(n, k);
    DoneSplit(d, n, k, row);
    DoneSplit(d, n, k, row + n);
    var e := Step(d, n, k);
    var a, b := e[..row + n] + d[row + n..], e[..row] + d[row..];
    forall p | 0 <= p < n * n
      ensures a[p] == b[p]
    {
      if row <= p < row + n {
        StepPivotCell(d, n, k, row, p);
      }
    }
    assert a == b;
  }

  lemma DoneAll(d: seq<Dist>, n: nat, k: nat)
    requires IsTable(d, n) && k < n
    ensures Done(d, n, k, 0) == d && Done(d, n, k, n * n) == Step(d, n, k)
  {
    DoneSplit(d, n, k, n * n);
  }

  class Floyd {
    /** Number of waypoints; the table has `count * count` cells. */
    const count: nat
    /** Row-major cells: cell (src, dst) is at `src * count + dst`. */
    const table: array<Dist>

    ghost predicate Valid() {
      table.Length == count * count
    }

    /** The cells of the table, as a value. */
    ghost function Cells(): (d: seq<Dist>)
      requires Valid()
      reads table
      ensures IsTable(d, count)
    {
      table[..]
    }

    /** Allocates the table and fills it: 0 on the diagonal, no path elsewhere. */
    constructor (wpCount: nat)
      ensures Valid() && fresh(table)
      ensures count == wpCount
      ensures Cells() == Initial(wpCount)
    {
      count := wpCount;
      table := new Dist[wpCount * wpCount];
      new;
      var n := wpCount;
      var y, row := 0, 0;
      while y < n
        invariant y <= n && row == Idx(n, y, 0) && row <= n * n
        invariant forall p {:trigger table[p]} :: 0 <= p < row ==> table[p] == Initial(n)[p]
      {
        var x := 0;
        while x < n
          invariant x <= n && row + x <= n * n
          invariant forall p {:trigger table[p]} :: 0 <= p < row + x ==> table[p] == Initial(n)[p]
        {
          IdxInRange(n, y, x);
          IdxDivMod(n, y, x);
          table[row + x] := if x == y then Fin(0) else Inf;
          x := x + 1;
        }
        y, row := y + 1, row + n;
      }
      NextRow(n, y);
    }

    method GetWpCount() returns (c: nat)
      ensures c == count
    {
      c := count;
    }

    /** Reads cell (src, dst). */
    method GetLong(src: nat, dst: nat) returns (v: Dist)
      requires Valid() && src < count && dst < count
      ensures v == At(Cells(), count, src, dst)
    {
      IdxInRange(count, src, dst);
      v := table[Idx(count, src, dst)];
    }

    /** Writes cell (src, dst) through the reference `GetLong` returns. */
    method SetLong(src: nat, dst: nat, v: Dist)
      requires Valid() && src < count && dst < count
      modifies table
      ensures Cells() == Write(old(Cells()), count, src, dst, v)
    {
      IdxInRange(count, src, dst);
      table[Idx(count, src, dst)] := v;
    }

    /**
     * The front end's handling of one edge line: rejects an index outside
     * the table or a line from a waypoint to itself, and otherwise writes
     * the length to both (dst, src) and (src, dst).
     */
    method RecordEdge(src: nat, dst: nat, weight: SizeT) returns (r: Outcome)
      requires Valid()
      modifies table
      ensures r == CheckEdge(count, src, dst)
      ensures Cells() == if r.Pass? then WithEdge(old(Cells()), count, src, dst, FromSizeT(weight)) else old(Cells())
    {
      if src >= count || dst >= count {
        return Fail(IndexOutOfRange);
      }
      if src == dst {
        return Fail(SamePlace);
      }
      SetLong(dst, src, FromSizeT(weight));
      SetLong(src, dst, FromSizeT(weight));
      r := Pass;
    }

    /** Runs the passes with intermediate waypoints 0, 1, ..., count - 1, in that order. */
    method CalculateShortestLong()
      requires Valid()
      modifies table
      ensures Cells() == Passes(old(Cells()), count, count)
    {
      ghost var g := table[..];
      var i := 0;
      while i < count
        invariant i <= count
        invariant table[..] == Passes(g, count, i)
      {
        IterationFloydTable(i);
        i := i + 1;
      }
    }

    /**
     * The body of the inner loop of a pass for a cell (y, x) off the
     * diagonal, row k and column k: both legs through k must be reachable,
     * and their sum replaces the cell only when it is strictly shorter.
     */
    method RelaxCell(k: nat, y: nat, x: nat)
      requires Valid() && k < count && y < count && x < count
      modifies table
      ensures Cells() == Write(old(Cells()), count, y, x,
                Relax(At(old(Cells()), count, y, x), At(old(Cells()), count, y, k), At(old(Cells()), count, k, x)))
    {
      IdxInRange(count, k, x);
      IdxInRange(count, y, k);
      IdxInRange(count, y, x);
      var legX := table[Idx(count, k, x)];
      var legY := table[Idx(count, y, k)];
      if legX != Inf && legY != Inf {
        var newDistance := Add(legX, legY);
        if Lt(newDistance, table[Idx(count, y, x)]) {
          table[Idx(count, y, x)] := newDistance;
        }
      }
    }

    /**
     * The inner loop of the pass through k for a row y other than k: cells
     * left to right, skipping the diagonal and column k. `d` is the table
     * before the pass and `row` the position of (y, 0).
     */
    method RelaxRow(k: nat, y: nat, ghost d: seq<Dist>, ghost row: nat)
      requires Valid() && k < count && y < count && y != k
      requires IsTable(d, count) && row == Idx(count, y, 0) && row + count <= count * count
      requires table[..] == Done(d, count, k, row)
      modifies table
      ensures table[..] == Done(d, count, k, row + count)
    {
      var n := count;
      ghost var pos := row;
      var x := 0;
      while x < n
        invariant x <= n && pos == Idx(n, y, x) && pos <= n * n
        invariant table[..] == Done(d, n, k, pos)
      {
        if x != y && x != k {
          DoneRelax(d, n, k, y, x, pos);
          RelaxCell(k, y, x);
        } else {
          DoneSkip(d, n, k, y, x, pos);
        }
        x, pos := x + 1, pos + 1;
      }
    }

    /**
     * One pass with intermediate waypoint k, in place: rows top to bottom,
     * cells left to right, skipping row k, column k and the diagonal.
     */
    method IterationFloydTable(k: nat)
      requires Valid() && k < count
      modifies table
      ensures Cells() == Step(old(Cells()), count, k)
    {
      var n := count;
      ghost var d := table[..];
      ghost var pos := 0;
      DoneAll(d, n, k);
      var y := 0;
      while y < n
        invariant y <= n && pos == Idx(n, y, 0) && pos <= n * n
        invariant table[..] == Done(d, n, k, pos)
      {
        NextRow(n, y);
        if y != k {
          RelaxRow(k, y, d, pos);
        } else {
          DonePivotRow(d, n, k, pos);
        }
        y, pos := y + 1, pos + n;
      }
      NextRow(n, y);
    }
  }
}

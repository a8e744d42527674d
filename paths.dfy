/**
 * What the relaxation computes. A route is a sequence of waypoints; its
 * length is the sum of the table cells between consecutive waypoints of
 * the input table. After the passes through 0 .. k - 1, cell (i, j) is the
 * shortest length of a route from i to j whose intermediate waypoints are
 * all below k; after all n passes it is the shortest route length overall,
 * and `Inf` exactly when no route of finite length exists.
 */
module Paths {
  import opened Distances
  import opened Tables

  /** `p` is a route from i to j in a table of n waypoints whose intermediate waypoints are below k. */
  ghost predicate IsPath(n: nat, p: seq<nat>, i: nat, j: nat, k: nat) {
    && |p| >= 1
    && p[0] == i
    && p[|p| - 1] == j
    && InRange(p, n)
    && (forall t :: 0 < t < |p| - 1 ==> p[t] < k)
  }

  /** Length of route `p` in table `g`. */
  ghost function Weight(g: seq<Dist>, n: nat, p: seq<nat>): (w: Dist)
    requires IsTable(g, n) && InRange(p, n)
    decreases |p|
  {
    if |p| <= 1 then Fin(0) else Add(At(g, n, p[0], p[1]), Weight(g, n, p[1..]))
  }

  /** Every waypoint of `p` is one of the n waypoints of the table. */
  ghost predicate InRange(p: seq<nat>, n: nat) {
    forall t :: 0 <= t < |p| ==> p[t] < n
  }

  lemma JoinInRange(p: seq<nat>, q: seq<nat>, n: nat)
    requires |q| >= 1 && InRange(p, n) && InRange(q, n)
    ensures InRange(p + q[1..], n)
  {
    var r := p + q[1..];
    forall t | 0 <= t < |r| ensures r[t] < n {
      if t >= |p| { assert r[t] == q[t - |p| + 1]; }
    }
  }

  /** The length of two joined routes is the sum of their lengths. */
  lemma {:induction false} WeightJoin(g: seq<Dist>, n: nat, p: seq<nat>, q: seq<nat>)
    requires IsTable(g, n)
    requires |p| >= 1 && |q| >= 1 && p[|p| - 1] == q[0]
    requires InRange(p, n) && InRange(q, n)
    ensures InRange(p + q[1..], n)
    ensures Weight(g, n, p + q[1..]) == Add(Weight(g, n, p), Weight(g, n, q))
    decreases |p|
  {
    JoinInRange(p, q, n);
    var r := p + q[1..];
    if |p| == 1 {
      assert r == q;
    } else {
      WeightJoin(g, n, p[1..], q);
      assert r[1..] == p[1..] + q[1..];
      assert r[0] == p[0] && r[1] == p[1];
    }
  }

  /** Splitting a route at one of its waypoints splits its length. */
  lemma WeightSplit(g: seq<Dist>, n: nat, p: seq<nat>, m: nat)
    requires IsTable(g, n) && m < |p| && InRange(p, n)
    ensures Weight(g, n, p) == Add(Weight(g, n, p[..m + 1]), Weight(g, n, p[m..]))
  {
    WeightJoin(g, n, p[..m + 1], p[m..]);
    assert p[..m + 1] + p[m..][1..] == p;
  }

  /** No route through the first k waypoints is shorter than cell (i, j) after k passes. */
  lemma {:induction false} PassesSound(g: seq<Dist>, n: nat, k: nat, i: nat, j: nat, p: seq<nat>)
    requires IsTable(g, n) && ZeroDiagonal(g, n) && k <= n && i < n && j < n
    requires IsPath(n, p, i, j, k)
    ensures Le(At(Passes(g, n, k), n, i, j), Weight(g, n, p))
    decreases k, |p|
  {
    if k == 0 {
      if |p| == 1 {
        assert At(g, n, i, i) == Fin(0);
      } else if |p| == 2 {
        assert p[1..] == [j];
      } else {
        assert false;
      }
    } else {
      var c := k - 1;
      var prev := Passes(g, n, c);
      PassesKeepShape(g, n, c);
      if t :| 0 < t < |p| - 1 && p[t] == c {
        // The route visits c: bound each half by the cells through c.
        var p1, p2 := p[..t + 1], p[t..];
        assert IsPath(n, p1, i, c, k);
        assert IsPath(n, p2, c, j, k);
        PassesSound(g, n, k, i, c, p1);
        PassesSound(g, n, k, c, j, p2);
        WeightSplit(g, n, p, t);
        StepFrame(prev, n, c, i, c);
        StepFrame(prev, n, c, c, j);
        StepIsMin(prev, n, c, i, j);
        AddMono(At(prev, n, i, c), At(prev, n, c, j), Weight(g, n, p1), Weight(g, n, p2));
      } else {
        // The route stays below c: the previous passes already bound it.
        assert IsPath(n, p, i, j, c);
        PassesSound(g, n, c, i, j, p);
        StepFrame(prev, n, c, i, j);
        LeTrans(At(Passes(g, n, k), n, i, j), At(prev, n, i, j), Weight(g, n, p));
      }
    }
  }

  /** A finite cell after k passes is the length of some route through the first k waypoints. */
  lemma {:induction false} PassesWitness(g: seq<Dist>, n: nat, k: nat, i: nat, j: nat) returns (p: seq<nat>)
    requires IsTable(g, n) && ZeroDiagonal(g, n) && k <= n && i < n && j < n
    requires At(Passes(g, n, k), n, i, j).Fin?
    ensures IsPath(n, p, i, j, k) && Weight(g, n, p) == At(Passes(g, n, k), n, i, j)
  {
    if k == 0 {
      p := [i, j];
      assert p[1..] == [j];
    } else {
      var c := k - 1;
      var prev := Passes(g, n, c);
      PassesKeepShape(g, n, c);
      StepIsMin(prev, n, c, i, j);
      if At(Passes(g, n, k), n, i, j) == At(prev, n, i, j) {
        p := PassesWitness(g, n, c, i, j);
      } else {
        var p1 := PassesWitness(g, n, c, i, c);
        var p2 := PassesWitness(g, n, c, c, j);
        p := p1 + p2[1..];
        WeightJoin(g, n, p1, p2);
        forall t | 0 < t < |p| - 1 ensures p[t] < k {
          if t >= |p1| { assert p[t] == p2[t - |p1| + 1]; }
        }
      }
    }
  }

  /**
   * After all n passes, cell (i, j) is the length of a shortest route from i
   * to j: no route is shorter, and a finite cell is the length of some route.
   */
  lemma ShortestPaths(g: seq<Dist>, n: nat, i: nat, j: nat)
    requires IsTable(g, n) && ZeroDiagonal(g, n) && i < n && j < n
    ensures forall p :: IsPath(n, p, i, j, n) ==> Le(At(Passes(g, n, n), n, i, j), Weight(g, n, p))
    ensures At(Passes(g, n, n), n, i, j).Fin? ==>
              exists p :: IsPath(n, p, i, j, n) && Weight(g, n, p) == At(Passes(g, n, n), n, i, j)
  {
    forall p | IsPath(n, p, i, j, n)
      ensures Le(At(Passes(g, n, n), n, i, j), Weight(g, n, p))
    {
      PassesSound(g, n, n, i, j, p);
    }
    if At(Passes(g, n, n), n, i, j).Fin? {
      var p := PassesWitness(g, n, n, i, j);
    }
  }

  /** A pair stays unreachable exactly when every route between them has an unreachable leg. */
  lemma Unreachable(g: seq<Dist>, n: nat, i: nat, j: nat)
    requires IsTable(g, n) && ZeroDiagonal(g, n) && i < n && j < n
    ensures At(Passes(g, n, n), n, i, j).Inf? <==> forall p :: IsPath(n, p, i, j, n) ==> Weight(g, n, p).Inf?
  {
    if At(Passes(g, n, n), n, i, j).Inf? {
      forall p | IsPath(n, p, i, j, n) ensures Weight(g, n, p).Inf? {
        PassesSound(g, n, n, i, j, p);
      }
    } else {
      var p := PassesWitness(g, n, n, i, j);
    }
  }

  /** No route through a third waypoint beats a cell. */
  ghost predicate Closed(d: seq<Dist>, n: nat)
    requires IsTable(d, n)
  {
    forall y: nat, k: nat, x: nat :: y < n && k < n && x < n ==>
      Le(At(d, n, y, x), Add(At(d, n, y, k), At(d, n, k, x)))
  }

  /** The fully relaxed table satisfies the triangle inequality everywhere. */
  lemma PassesClosed(g: seq<Dist>, n: nat)
    requires IsTable(g, n) && ZeroDiagonal(g, n)
    ensures Closed(Passes(g, n, n), n)
  {
    var d := Passes(g, n, n);
    forall y: nat, k: nat, x: nat | y < n && k < n && x < n
      ensures Le(At(d, n, y, x), Add(At(d, n, y, k), At(d, n, k, x)))
    {
      if At(d, n, y, k).Fin? && At(d, n, k, x).Fin? {
        var p1 := PassesWitness(g, n, n, y, k);
        var p2 := PassesWitness(g, n, n, k, x);
        WeightJoin(g, n, p1, p2);
        PassesSound(g, n, n, y, x, p1 + p2[1..]);
      }
    }
  }

  /** A pass over a table that satisfies the triangle inequality changes nothing. */
  lemma StepClosed(d: seq<Dist>, n: nat, k: nat)
    requires IsTable(d, n) && k < n && Closed(d, n)
    ensures Step(d, n, k) == d
  {
    forall y: nat, x: nat | y < n && x < n
      ensures At(Step(d, n, k), n, y, x) == At(d, n, y, x)
    {
      StepAt(d, n, k, y, x);
      assert Le(At(d, n, y, x), Add(At(d, n, y, k), At(d, n, k, x)));
    }
    TableExt(Step(d, n, k), d, n);
  }

  lemma {:induction false} PassesOfClosed(d: seq<Dist>, n: nat, k: nat)
    requires IsTable(d, n) && k <= n && Closed(d, n)
    ensures Passes(d, n, k) == d
  {
    if k > 0 {
      PassesOfClosed(d, n, k - 1);
      StepClosed(d, n, k - 1);
    }
  }

  /** Running the whole relaxation a second time changes nothing. */
  lemma PassesIdempotent(g: seq<Dist>, n: nat)
    requires IsTable(g, n) && ZeroDiagonal(g, n)
    ensures Passes(Passes(g, n, n), n, n) == Passes(g, n, n)
  {
    PassesClosed(g, n);
    PassesOfClosed(Passes(g, n, n), n, n);
  }
}

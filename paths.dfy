/** Reachability in the residual network over records with positive residual capacity. */
module Paths {
  import opened Residual

  /** Every record points at a vertex of the network. */
  ghost predicate InRange(net: Net) {
    forall u, i | 0 <= u < |net| && 0 <= i < |net[u]| :: 0 <= net[u][i].to < |net|
  }

  lemma LinkedInRange(net: Net)
    requires Linked(net)
    ensures InRange(net)
  {
    forall u, i | 0 <= u < |net| && 0 <= i < |net[u]| ensures 0 <= net[u][i].to < |net| {
      assert Paired(net, u, i);
    }
  }

  /** Some record u -> v still has residual capacity. */
  ghost predicate ResEdge(net: Net, u: int, v: int)
    requires 0 <= u < |net|
  {
    exists i | 0 <= i < |net[u]| :: net[u][i].to == v && net[u][i].cap > 0
  }

  /** A walk through the residual network: consecutive vertices are joined by a residual edge. */
  ghost predicate ResPath(net: Net, p: seq<int>) {
    && |p| >= 1
    && (forall k | 0 <= k < |p| :: 0 <= p[k] < |net|)
    && forall k | 0 <= k < |p| - 1 :: ResEdge(net, p[k], p[k + 1])
  }

  ghost predicate Reachable(net: Net, s: int, v: int) {
    exists p :: ResPath(net, p) && p[0] == s && p[|p| - 1] == v
  }

  lemma ReachableSelf(net: Net, s: int)
    requires 0 <= s < |net|
    ensures Reachable(net, s, s)
  {
    assert ResPath(net, [s]);
  }

  /** Following one more residual record keeps a vertex reachable. */
  lemma ReachableStep(net: Net, s: int, u: int, i: int)
    requires 0 <= u < |net| && 0 <= i < |net[u]| && 0 <= net[u][i].to < |net|
    requires net[u][i].cap > 0 && Reachable(net, s, u)
    ensures Reachable(net, s, net[u][i].to)
  {
    var p :| ResPath(net, p) && p[0] == s && p[|p| - 1] == u;
    var q := p + [net[u][i].to];
    forall k | 0 <= k < |q| - 1 ensures ResEdge(net, q[k], q[k + 1]) {
      if k < |p| - 1 {
        assert q[k] == p[k] && q[k + 1] == p[k + 1];
        assert ResEdge(net, p[k], p[k + 1]);
      } else {
        assert q[k] == u && net[u][i].to == q[k + 1];
      }
    }
    assert ResPath(net, q);
  }

  /** The vertices of a hop path whose records all have residual capacity form a residual walk. */
  lemma HopsResPath(net: Net, p: seq<int>, idx: seq<int>)
    requires HopsIn(net, p, idx)
    requires forall k | 0 <= k < |idx| :: net[p[k]][idx[k]].cap > 0
    ensures ResPath(net, p)
  {
    forall k | 0 <= k < |p| - 1 ensures ResEdge(net, p[k], p[k + 1]) {
      assert net[p[k]][idx[k]].to == p[k + 1];
    }
  }

  /** Every residual record out of u leads into S. */
  ghost predicate ClosedAt(net: Net, S: set<int>, u: int)
    requires 0 <= u < |net|
  {
    forall i | 0 <= i < |net[u]| && net[u][i].cap > 0 :: net[u][i].to in S
  }

  /** S is closed under residual records. */
  ghost predicate Closed(net: Net, S: set<int>) {
    forall u | u in S :: 0 <= u < |net| && ClosedAt(net, S, u)
  }

  lemma {:induction false} ClosedAlong(net: Net, S: set<int>, p: seq<int>, k: int)
    requires Closed(net, S) && ResPath(net, p) && p[0] in S && 0 <= k < |p|
    ensures p[k] in S
    decreases k
  {
    if k > 0 {
      ClosedAlong(net, S, p, k - 1);
      assert ResEdge(net, p[k - 1], p[k]);
      var i :| 0 <= i < |net[p[k - 1]]| && net[p[k - 1]][i].to == p[k] && net[p[k - 1]][i].cap > 0;
      assert ClosedAt(net, S, p[k - 1]);
    }
  }

  /** A closed set that contains s contains every vertex reachable from s. */
  lemma ReachableClosed(net: Net, S: set<int>, s: int, v: int)
    requires Closed(net, S) && s in S && Reachable(net, s, v)
    ensures v in S
  {
    var p :| ResPath(net, p) && p[0] == s && p[|p| - 1] == v;
    ClosedAlong(net, S, p, |p| - 1);
  }

  /** Adding a new element grows a set by exactly one. */
  lemma GrowCard(S: set<int>, v: int)
    requires v !in S
    ensures |S + {v}| == |S| + 1
  {
  }

  /** A set of vertex numbers below n has at most n elements. */
  lemma {:induction false} BoundedCard(S: set<int>, n: nat)
    requires forall x | x in S :: 0 <= x < n
    ensures |S| <= n
  {
    if n == 0 {
      assert forall x :: x !in S;
      assert S == {};
    } else {
      var rest := S - {n - 1};
      BoundedCard(rest, n - 1);
      if n - 1 in S {
        assert S == rest + {n - 1};
      } else {
        assert S == rest;
      }
    }
  }
}

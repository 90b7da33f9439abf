/** Read-only checks on a finished residual network: capacity constraints on original
    records, flow conservation at inner vertices, and the saturated-cut certificate. */
module Validators {
  import opened Residual
  import opened Paths
  import opened Conservation
  import opened FlowGraph

  /** An original record (origCap > 0) carries between 0 and origCap units; reverse records
      are not capacity constraints of the input. */
  predicate WithinCapacity(e: Edge) {
    e.origCap > 0 ==> 0 <= e.flow <= e.origCap
  }

  ghost predicate CapacityOK(net: Net) {
    forall u, i | 0 <= u < |net| && 0 <= i < |net[u]| :: WithinCapacity(net[u][i])
  }

  /** No original record from the reachable side S to the other side has residual capacity,
      and t is not in S. */
  ghost predicate SaturatedCut(net: Net, s: int, t: int) {
    && !Reachable(net, s, t)
    && forall u, i | 0 <= u < |net| && 0 <= i < |net[u]| ::
         Reachable(net, s, u) && net[u][i].origCap > 0 && !Reachable(net, s, net[u][i].to)
         ==> net[u][i].cap <= 0
  }

  method CapacityConstraints(g: Graph) returns (ok: bool)
    requires g.Shaped()
    ensures ok == CapacityOK(g.adj[..])
  {
    ghost var net: Net := g.adj[..];
    var n := g.Size();
    for u := 0 to n
      invariant forall x, i | 0 <= x < u && 0 <= i < |net[x]| :: WithinCapacity(net[x][i])
    {
      var row := g.Adj(u);
      for i := 0 to |row|
        invariant forall x, j | 0 <= x < u && 0 <= j < |net[x]| :: WithinCapacity(net[x][j])
        invariant forall j | 0 <= j < i :: WithinCapacity(row[j])
      {
        var e := row[i];
        if e.origCap <= 0 {
          continue;
        }
        var f := e.flow;
        var c := e.origCap;
        if f < 0 {
          assert !WithinCapacity(net[u][i]);
          return false;
        }
        if f > c {
          assert !WithinCapacity(net[u][i]);
          return false;
        }
      }
    }
    return true;
  }

  method FlowConservation(g: Graph, s: int, t: int) returns (ok: bool)
    requires g.Shaped() && InRange(g.adj[..])
    ensures ok == Conserved(g.adj[..], s, t)
  {
    ghost var net: Net := g.adj[..];
    var n := g.Size();
    var acc := new int[n](_ => 0);
    for u := 0 to n
      invariant forall x | 0 <= x < n :: acc[x] == BalanceUpTo(net, u, x)
    {
      var row := g.Adj(u);
      for i := 0 to |row|
        invariant forall x | 0 <= x < n :: acc[x] == BalanceUpTo(net, u, x) + RowBalance(row[..i], u, x)
      {
        var e := row[i];
        if e.origCap > 0 {
          var f := e.flow;
          var v := e.to;
          acc[u] := acc[u] - f;
          acc[v] := acc[v] + f;
        }
        assert row[..i + 1][..i] == row[..i];
      }
      assert row[..|row|] == row;
    }
    for u := 0 to n
      invariant forall x | 0 <= x < u && x != s && x != t :: acc[x] == 0
    {
      if u == s || u == t {
        continue;
      }
      if acc[u] != 0 {
        assert Balance(net, u) != 0;
        return false;
      }
    }
    return true;
  }

  /** The state of the breadth-first search between two steps: `mark` flags exactly the
      discovered vertices, each discovered vertex is reachable from s and is finished (every
      residual record out of it leads to a discovered vertex), queued, or one of `open`. */
  ghost predicate Frontier(net: Net, s: int, mark: seq<bool>, q: seq<int>, seen: set<int>,
                           done: set<int>, open: set<int>)
  {
    && s in seen && |mark| == |net|
    && (forall v | 0 <= v < |net| :: mark[v] <==> v in seen)
    && (forall v | v in seen :: 0 <= v < |net| && Reachable(net, s, v))
    && (forall k | 0 <= k < |q| :: q[k] in seen)
    && (forall v | v in seen :: v in done || v in q || v in open)
    && (forall v | v in done :: v in seen && ClosedAt(net, seen, v))
  }

  lemma FrontierStart(net: Net, s: int, mark: seq<bool>)
    requires 0 <= s < |net| && |mark| == |net| && forall v | 0 <= v < |net| :: mark[v] == (v == s)
    ensures Frontier(net, s, mark, [s], {s}, {}, {})
  {
    ReachableSelf(net, s);
  }

  /** Dequeuing the head u opens it for scanning. */
  lemma FrontierPoll(net: Net, s: int, mark: seq<bool>, q: seq<int>, seen: set<int>, done: set<int>)
    requires Frontier(net, s, mark, q, seen, done, {}) && q != []
    ensures Frontier(net, s, mark, q[1..], seen, done, {q[0]}) && q[0] in seen
  {
    forall v | v in seen ensures v in done || v in q[1..] || v in {q[0]} {
      if v in q && v != q[0] {
        var k :| 0 <= k < |q| && q[k] == v;
        assert q[1..][k - 1] == v;
      }
    }
    forall k | 0 <= k < |q| - 1 ensures q[1..][k] in seen {
      assert q[1..][k] == q[k + 1];
    }
  }

  /** Part-way through the list of the open vertex u: the first i records are scanned, and
      the queue has only grown since u was dequeued from q0. */
  ghost predicate Scanning(net: Net, s: int, mark: seq<bool>, q: seq<int>, seen: set<int>,
                           done: set<int>, u: int, i: int, seen0: set<int>, q0: seq<int>)
  {
    && Frontier(net, s, mark, q, seen, done, {u}) && u in seen && 0 <= u < |net|
    && 0 <= i <= |net[u]| && seen0 <= seen && q0 != []
    && (forall j | 0 <= j < i && net[u][j].cap > 0 :: net[u][j].to in seen)
    && |seen| >= |seen0| && (|seen| == |seen0| ==> q == q0[1..])
  }

  lemma ScanStart(net: Net, s: int, mark: seq<bool>, q: seq<int>, seen: set<int>, done: set<int>)
    requires Frontier(net, s, mark, q, seen, done, {}) && q != []
    ensures Scanning(net, s, mark, q[1..], seen, done, q[0], 0, seen, q)
  {
    FrontierPoll(net, s, mark, q, seen, done);
  }

  /** Scanning record i of u: an unmarked head of a residual record is marked and enqueued,
      and any other record is passed over. */
  lemma ScanStep(net: Net, s: int, mark: seq<bool>, q: seq<int>, seen: set<int>, done: set<int>,
                 u: int, i: int, seen0: set<int>, q0: seq<int>)
    requires Scanning(net, s, mark, q, seen, done, u, i, seen0, q0) && InRange(net) && i < |net[u]|
    ensures var v := net[u][i].to;
            if net[u][i].cap > 0 && !mark[v] then
              && v !in seen
              && Scanning(net, s, mark[v := true], q + [v], seen + {v}, done, u, i + 1, seen0, q0)
            else Scanning(net, s, mark, q, seen, done, u, i + 1, seen0, q0)
  {
    var v := net[u][i].to;
    if net[u][i].cap > 0 && !mark[v] {
      ReachableStep(net, s, u, i);
      var q' := q + [v];
      forall k | 0 <= k < |q'| ensures q'[k] in seen + {v} {
        if k < |q| {
          assert q'[k] == q[k];
        }
      }
      forall w | w in seen ensures w in done || w in q' || w in {u} {
        if w in q {
          var k :| 0 <= k < |q| && q[k] == w;
          assert q'[k] == w;
        }
      }
      assert q'[|q|] == v;
      assert |seen + {v}| > |seen0| by {
        assert seen0 <= seen < seen + {v};
      }
    }
  }

  /** The open vertex u is finished once its whole list is scanned. */
  lemma ScanFinish(net: Net, s: int, mark: seq<bool>, q: seq<int>, seen: set<int>, done: set<int>,
                   u: int, seen0: set<int>, q0: seq<int>)
    requires 0 <= u < |net| && Scanning(net, s, mark, q, seen, done, u, |net[u]|, seen0, q0)
    ensures Frontier(net, s, mark, q, seen, done + {u}, {})
  {
  }

  /** An empty queue leaves every discovered vertex finished: the marked set is closed, so
      it holds exactly the vertices reachable from s. */
  lemma FrontierExhausted(net: Net, s: int, mark: seq<bool>, seen: set<int>, done: set<int>)
    requires Frontier(net, s, mark, [], seen, done, {})
    ensures forall v | 0 <= v < |net| :: mark[v] <==> Reachable(net, s, v)
  {
    assert Closed(net, seen);
    forall v | 0 <= v < |net| && Reachable(net, s, v) ensures mark[v] {
      ReachableClosed(net, seen, s, v);
    }
  }

  /** Breadth-first search from s over records with cap > 0; the result marks exactly the
      vertices reachable from s. */
  method ResidualReachable(g: Graph, s: int) returns (vis: seq<bool>)
    requires g.Shaped() && InRange(g.adj[..]) && 0 <= s < g.n
    ensures |vis| == g.n && vis[s]
    ensures forall v | 0 <= v < g.n :: vis[v] <==> Reachable(g.adj[..], s, v)
  {
    ghost var net: Net := g.adj[..];
    var n := g.Size();
    var mark := new bool[n](_ => false);
    var q: seq<int> := [];
    mark[s] := true;
    q := q + [s];
    ghost var seen: set<int> := {s};
    ghost var done: set<int> := {};
    FrontierStart(net, s, mark[..]);
    while q != []
      invariant Frontier(net, s, mark[..], q, seen, done, {})
      decreases n - |seen|, |q|
    {
      BoundedCard(seen, n);
      ghost var seen0, q0 := seen, q;
      ScanStart(net, s, mark[..], q, seen, done);
      var u := q[0];
      q := q[1..];
      var row := g.Adj(u);
      for i := 0 to |row|
        invariant Scanning(net, s, mark[..], q, seen, done, u, i, seen0, q0)
      {
        var e := row[i];
        ScanStep(net, s, mark[..], q, seen, done, u, i, seen0, q0);
        if e.cap > 0 && !mark[e.to] {
          ghost var flags := mark[..][e.to := true];
          mark[e.to] := true;
          assert mark[..] == flags;
          q := q + [e.to];
          seen := seen + {e.to};
        }
      }
      ScanFinish(net, s, mark[..], q, seen, done, u, seen0, q0);
      done := done + {u};
      BoundedCard(seen, n);
    }
    vis := mark[..];
    FrontierExhausted(net, s, vis, seen, done);
  }

  method SaturatedCutExists(g: Graph, s: int, t: int) returns (ok: bool)
    requires g.Shaped() && InRange(g.adj[..]) && 0 <= s < g.n && 0 <= t < g.n
    ensures ok == SaturatedCut(g.adj[..], s, t)
  {
    ghost var net: Net := g.adj[..];
    var inS := ResidualReachable(g, s);
    if inS[t] {
      return false;
    }
    var n := g.Size();
    for u := 0 to n
      invariant forall x, i | 0 <= x < u && 0 <= i < |net[x]| ::
                  inS[x] && net[x][i].origCap > 0 && !inS[net[x][i].to] ==> net[x][i].cap <= 0
    {
      if !inS[u] {
        continue;
      }
      var row := g.Adj(u);
      for i := 0 to |row|
        invariant forall x, j | 0 <= x < u && 0 <= j < |net[x]| ::
                    inS[x] && net[x][j].origCap > 0 && !inS[net[x][j].to] ==> net[x][j].cap <= 0
        invariant forall j | 0 <= j < i :: row[j].origCap > 0 && !inS[row[j].to] ==> row[j].cap <= 0
      {
        var e := row[i];
        if e.origCap <= 0 {
          continue;
        }
        if !inS[e.to] && e.cap > 0 {
          return false;
        }
      }
    }
    return true;
  }

  /** The certificate reduces to "t is unreachable": the reachable set is closed under
      residual records, so no record out of it has capacity left. */
  lemma SaturatedCutIff(net: Net, s: int, t: int)
    requires InRange(net) && 0 <= s < |net|
    ensures SaturatedCut(net, s, t) <==> !Reachable(net, s, t)
  {
    forall u, i | 0 <= u < |net| && 0 <= i < |net[u]| && Reachable(net, s, u) && net[u][i].cap > 0
      ensures Reachable(net, s, net[u][i].to)
    {
      ReachableStep(net, s, u, i);
    }
  }

  /** In a valid residual network every original record satisfies its capacity constraint:
      its flow is origCap - cap <= origCap, and the negated flow of its reverse record, which
      is the reverse record's residual capacity, is at least 0. */
  lemma ValidCapacity(net: Net)
    requires ValidNet(net)
    ensures CapacityOK(net)
  {
    forall u, i | 0 <= u < |net| && 0 <= i < |net[u]| ensures WithinCapacity(net[u][i]) {
      assert ValidAt(net, u, i);
      var e := net[u][i];
      assert ValidAt(net, e.to, e.rev);
    }
  }

  /** Raising one original record's flow to origCap + 123 breaks the capacity check. */
  lemma OverfilledFails(net: Net, u: int, i: int)
    requires 0 <= u < |net| && 0 <= i < |net[u]| && net[u][i].origCap > 0
    ensures !CapacityOK(net[u := net[u][i := net[u][i].(flow := net[u][i].origCap + 123)]])
  {
    var bad := net[u := net[u][i := net[u][i].(flow := net[u][i].origCap + 123)]];
    assert !WithinCapacity(bad[u][i]);
  }

  /** What the three validators accept after any of the algorithms here: a valid network in
      which t is unreachable from s, obtained by sending `value` units from s to t out of a
      network that conserved flow. */
  lemma MaxFlowCertified(init: Net, final: Net, s: int, t: int, value: int)
    requires ValidNet(final) && 0 <= s < |final| && !Reachable(final, s, t)
    requires FlowMoved(init, final, s, t, value) && Conserved(init, s, t)
    ensures CapacityOK(final) && Conserved(final, s, t) && SaturatedCut(final, s, t)
  {
    ValidCapacity(final);
    MovedConserved(init, final, s, t, value);
    ValidIsLinked(final);
    LinkedInRange(final);
    SaturatedCutIff(final, s, t);
  }
}

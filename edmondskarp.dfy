/** Edmonds-Karp: Ford-Fulkerson with a breadth-first search that stops as soon as it
    discovers t, so every augmenting path is a shortest one in the current residual network. */
module EdmondsKarp {
  import opened Residual
  import opened Paths
  import opened Conservation
  import opened FlowGraph
  import opened AugmentingPaths
  import opened Layers

  /** Discovering t over record i of u: t hangs below u, and no residual walk reaches t in
      fewer hops, because every vertex above t's layer was discovered before it. */
  lemma BfsReachT(net: Net, s: int, t: int, pn: seq<int>, pe: seq<int>, depth: seq<int>,
                  q: seq<int>, seen: set<int>, done: set<int>, u: int, i: int,
                  seen0: set<int>, q0: seq<int>)
    requires Scan(net, s, t, pn, pe, depth, q, seen, done, u, i, seen0, q0)
    requires InRange(net) && i < |net[u]|
    requires net[u][i].cap > 0 && net[u][i].to == t
    ensures pn[t] == -1
    ensures var d' := depth[t := depth[u] + 1];
            && Tree(net, s, pn[t := u], pe[t := i], d')
            && Reachable(net, s, t) && NoShorterPath(net, s, t, d'[t])
  {
    var d' := depth[t := depth[u] + 1];
    DiscoverKeepsTree(net, s, pn, pe, depth, u, i);
    TreeReach(net, s, pn[t := u], pe[t := i], d', t);
    assert ChainLink(s, pn, depth, s);
    LayerBound(net, s, seen, depth, done, depth[u], t);
  }

  /** An empty queue leaves every discovered vertex finished: the discovered set is closed
      under residual records and does not contain t. */
  lemma BfsExhausted(net: Net, s: int, t: int, pn: seq<int>, pe: seq<int>, depth: seq<int>,
                     seen: set<int>, done: set<int>, F: int)
    requires BfsAt(net, s, t, pn, pe, depth, [], seen, done, F, {})
    ensures !Reachable(net, s, t)
  {
    assert Closed(net, seen) by {
      forall v | v in seen ensures 0 <= v < |net| && ClosedAt(net, seen, v) {
        assert DoneAt(net, seen, depth, v);
      }
    }
    if Reachable(net, s, t) {
      ReachableClosed(net, seen, s, t);
    }
  }

  /** The breadth-first search of one round: fresh parent arrays, prevNode filled with -1 and
      prevNode[s] = s, then a FIFO scan that stops when it discovers t. */
  method Bfs(g: Graph, s: int, t: int) returns (prevNode: array<int>, prevEdge: array<int>,
                                                reachedT: bool, ghost depth: seq<int>)
    requires g.Shaped() && InRange(g.adj[..]) && 0 <= s < g.n && 0 <= t < g.n && s != t
    ensures fresh(prevNode) && fresh(prevEdge) && prevNode.Length == g.n && prevEdge.Length == g.n
    ensures Tree(g.adj[..], s, prevNode[..], prevEdge[..], depth)
    ensures reachedT <==> Reachable(g.adj[..], s, t)
    ensures reachedT ==> prevNode[t] != -1 && NoShorterPath(g.adj[..], s, t, depth[t])
  {
    ghost var net: Net := g.adj[..];
    var n := g.Size();
    prevNode := new int[n](_ => 0);
    prevEdge := new int[n](_ => 0);
    forall v | 0 <= v < n {
      prevNode[v] := -1;
    }
    prevNode[s] := s;
    var q: seq<int> := [s];
    reachedT := false;
    depth := seq(n, _ => 0);
    ghost var seen: set<int> := {s};
    ghost var done: set<int> := {};
    ghost var F := 0;
    BfsStart(net, s, t, prevNode[..], prevEdge[..], depth);
    while q != []
      invariant g.adj[..] == net
      invariant BfsAt(net, s, t, prevNode[..], prevEdge[..], depth, q, seen, done, F, {}) && !reachedT
      decreases n - |seen|, |q|
    {
      BoundedCard(seen, n);
      ghost var seen0, q0 := seen, q;
      BfsPoll(net, s, t, prevNode[..], prevEdge[..], depth, q, seen, done, F);
      var u := q[0];
      q := q[1..];
      F := depth[u];
      reachedT, q, depth, seen := ScanAdjacency(g, s, t, prevNode, prevEdge, u, q, net, depth, seen, done, seen0, q0);
      if reachedT {
        break;
      }
      BfsFinish(net, s, t, prevNode[..], prevEdge[..], depth, q, seen, done, u, seen0, q0);
      done := done + {u};
    }
    if !reachedT {
      BfsExhausted(net, s, t, prevNode[..], prevEdge[..], depth, seen, done, F);
    }
  }

  /** The inner loop of the search at the dequeued vertex u: every record with cap > 0 to an
      undiscovered vertex v gives v the parent u; v is enqueued, unless it is t, in which case
      the whole search stops at once. */
  method ScanAdjacency(g: Graph, s: int, t: int, prevNode: array<int>, prevEdge: array<int>, u: int,
                       q: seq<int>, ghost net: Net, ghost depth: seq<int>, ghost seen: set<int>,
                       ghost done: set<int>, ghost seen0: set<int>, ghost q0: seq<int>)
    returns (reachedT: bool, q': seq<int>, ghost depth': seq<int>, ghost seen': set<int>)
    requires g.Shaped() && net == g.adj[..] && InRange(net) && 0 <= t < |net| && prevNode != prevEdge
    requires Scan(net, s, t, prevNode[..], prevEdge[..], depth, q, seen, done, u, 0, seen0, q0)
    modifies prevNode, prevEdge
    ensures reachedT ==>
              && Tree(net, s, prevNode[..], prevEdge[..], depth') && prevNode[t] != -1
              && Reachable(net, s, t) && NoShorterPath(net, s, t, depth'[t])
    ensures !reachedT ==>
              && |depth'| == |net| && depth'[u] == depth[u]
              && Scan(net, s, t, prevNode[..], prevEdge[..], depth', q', seen', done, u, |net[u]|, seen0, q0)
  {
    q', depth', seen' := q, depth, seen;
    var row := g.Adj(u);
    for i := 0 to |row|
      invariant Scan(net, s, t, prevNode[..], prevEdge[..], depth', q', seen', done, u, i, seen0, q0)
      invariant depth'[u] == depth[u]
    {
      var e := row[i];
      if e.cap <= 0 {
        BfsSkip(net, s, t, prevNode[..], prevEdge[..], depth', q', seen', done, u, i, seen0, q0);
        continue;
      }
      if prevNode[e.to] != -1 {
        BfsSkip(net, s, t, prevNode[..], prevEdge[..], depth', q', seen', done, u, i, seen0, q0);
        continue;
      }
      var v := e.to;
      if v == t {
        BfsReachT(net, s, t, prevNode[..], prevEdge[..], depth', q', seen', done, u, i, seen0, q0);
      } else {
        BfsDiscover(net, s, t, prevNode[..], prevEdge[..], depth', q', seen', done, u, i, seen0, q0);
      }
      ghost var parents, edges := prevNode[..][v := u], prevEdge[..][v := i];
      prevNode[v] := u;
      prevEdge[v] := i;
      assert prevNode[..] == parents && prevEdge[..] == edges;
      depth' := depth'[v := depth'[u] + 1];
      if v == t {
        return true, q', depth', seen';
      }
      seen' := seen' + {v};
      q' := q' + [v];
    }
    reachedT := false;
  }

  /** The maximum s-t flow value, augmenting g in place along shortest paths found by Bfs.
      On exit t is unreachable from s in the residual network. */
  method MaxFlow(g: Graph, s: int, t: int) returns (flow: int)
    requires g.Valid() && 0 <= s < g.n && 0 <= t < g.n
    modifies g.adj
    ensures g.Valid() && flow >= 0
    ensures FlowMoved(old(g.adj[..]), g.adj[..], s, t, flow)
    ensures s == t ==> flow == 0 && g.adj[..] == old(g.adj[..])
    ensures s != t ==> !Reachable(g.adj[..], s, t)
  {
    ghost var init: Net := g.adj[..];
    MovedNothing(init, s, t);
    if s == t {
      return 0;
    }
    flow := 0;
    CapOutNonneg(init, s);
    while true
      invariant g.Valid() && flow >= 0
      invariant FlowMoved(init, g.adj[..], s, t, flow)
      invariant CapOut(g.adj[..], s) >= 0
      decreases CapOut(g.adj[..], s)
    {
      ghost var cur: Net := g.adj[..];
      ValidIsLinked(cur);
      LinkedInRange(cur);
      var prevNode, prevEdge, reachedT, depth := Bfs(g, s, t);
      if !reachedT {
        break;
      }
      ghost var p := TreePath(s, prevNode[..], depth, t);
      ghost var idx := TreeIdx(s, prevNode[..], prevEdge[..], depth, t);
      TreePathFacts(cur, s, prevNode[..], prevEdge[..], depth, t);
      TreeFollows(cur, s, prevNode[..], prevEdge[..], depth, t);
      var bottleneck := Bottleneck(g, s, t, prevNode[..], prevEdge[..], p, idx);
      Augment(g, s, t, prevNode[..], prevEdge[..], p, idx, bottleneck);
      AugmentRound(cur, p, idx, bottleneck);
      MovedTrans(init, cur, g.adj[..], s, t, flow, bottleneck);
      flow := flow + bottleneck;
    }
  }

  /** What the tracing overload records for one augmenting path: the node sequence from s to
      t read off the parent links. */
  datatype PathFrame = PathFrame(path: seq<int>)

  method MakePathFrame(prev: seq<int>, s: int, t: int, ghost depth: seq<int>) returns (f: PathFrame)
    requires Chain(s, prev, depth) && 0 <= t < |prev| && prev[t] != -1
    ensures f.path == TreePath(s, prev, depth, t)
    ensures |f.path| == depth[t] + 1 && f.path[0] == s && f.path[|f.path| - 1] == t
  {
    var nodes := BuildPathNodes(s, t, prev, depth);
    f := PathFrame(nodes);
  }

  /** The path Bfs leaves behind is a shortest augmenting path: it has depth[t] hops and no
      residual walk from s to t has fewer. */
  lemma BfsPathShortest(net: Net, s: int, t: int, pn: seq<int>, pe: seq<int>, depth: seq<int>)
    requires Tree(net, s, pn, pe, depth) && 0 <= t < |net| && pn[t] != -1
    requires NoShorterPath(net, s, t, depth[t])
    ensures var p := TreePath(s, pn, depth, t);
            && ResPath(net, p) && p[0] == s && p[|p| - 1] == t
            && forall p' | ResPath(net, p') && p'[0] == s && p'[|p'| - 1] == t :: |p| <= |p'|
  {
    TreePathFacts(net, s, pn, pe, depth, t);
    HopsResPath(net, TreePath(s, pn, depth, t), TreeIdx(s, pn, pe, depth, t));
  }
}

/** Ford-Fulkerson: repeatedly find any augmenting path with an iterative depth-first search
    and augment by its bottleneck, until t is unreachable in the residual network. */
module FordFulkerson {
  import opened Residual
  import opened Paths
  import opened Conservation
  import opened FlowGraph
  import opened AugmentingPaths

  /** The state of the iterative DFS between two steps. `it` is the per-vertex cursor into
      the adjacency list, the stack holds the current DFS path with its top at the end, and
      `seen` (ghost) is the set of discovered vertices:
      - prevNode marks exactly the seen vertices and forms a search tree;
      - a seen vertex whose cursor is not at the end of its list is still on the stack;
      - every residual record behind a cursor leads to a seen vertex;
      - once t is seen it is on top of the stack. */
  ghost predicate DfsInv(net: Net, s: int, t: int, pn: seq<int>, pe: seq<int>, depth: seq<int>,
                         it: seq<int>, stack: seq<int>, seen: set<int>)
  {
    && |pn| == |net| && |it| == |net|
    && s in seen && (forall v | v in seen :: 0 <= v < |net|)
    && (forall v | 0 <= v < |net| :: pn[v] != -1 <==> v in seen)
    && Tree(net, s, pn, pe, depth)
    && (forall k | 0 <= k < |stack| :: stack[k] in seen)
    && (forall v | 0 <= v < |net| :: 0 <= it[v] <= |net[v]| && (v !in seen ==> it[v] == 0))
    && (forall v | v in seen && it[v] < |net[v]| :: v in stack)
    && (forall v, j | v in seen && 0 <= j < it[v] && net[v][j].cap > 0 :: net[v][j].to in seen)
    && (t in seen ==> stack != [] && stack[|stack| - 1] == t)
  }

  /** Iterative DFS from s over records with cap > 0. The arrays receive the DFS tree
      (prevNode[v] == -1 for undiscovered v); the result says whether t is reachable. */
  method FindAugmentingPathDFS(g: Graph, s: int, t: int, prevNode: array<int>, prevEdge: array<int>)
    returns (found: bool, ghost depth: seq<int>)
    requires g.Shaped() && InRange(g.adj[..]) && 0 <= s < g.n && 0 <= t < g.n
    requires prevNode.Length == g.n && prevEdge.Length == g.n && prevNode != prevEdge
    modifies prevNode, prevEdge
    ensures Tree(g.adj[..], s, prevNode[..], prevEdge[..], depth)
    ensures found <==> Reachable(g.adj[..], s, t)
    ensures found ==> prevNode[t] != -1
  {
    ghost var net: Net := g.adj[..];
    var n := g.Size();
    forall v | 0 <= v < n {
      prevNode[v] := -1;
    }
    forall v | 0 <= v < n {
      prevEdge[v] := -1;
    }
    var it := new int[n](_ => 0);
    var stack: seq<int> := [s];
    prevNode[s] := s;
    depth := seq(n, _ => 0);
    ghost var seen: set<int> := {s};
    DfsStart(net, s, t, prevNode[..], prevEdge[..], depth, it[..]);
    while stack != []
      invariant g.adj[..] == net
      invariant DfsInv(net, s, t, prevNode[..], prevEdge[..], depth, it[..], stack, seen)
      decreases n - |seen|, |stack|
    {
      BoundedCard(seen, n);
      var u := stack[|stack| - 1];
      if u == t {
        TreeReach(net, s, prevNode[..], prevEdge[..], depth, t);
        return true, depth;
      }
      var advanced, v := TryAdvance(g, s, t, prevNode, prevEdge, it, u, net, depth, stack, seen);
      if advanced {
        GrowCard(seen, v);
        depth := depth[v := depth[u] + 1];
        seen := seen + {v};
        stack := stack + [v];
      } else {
        DfsPop(net, s, t, prevNode[..], prevEdge[..], depth, it[..], stack, seen);
        stack := stack[..|stack| - 1];
      }
    }
    DfsExhausted(net, s, t, prevNode[..], prevEdge[..], depth, it[..], seen);
    return false, depth;
  }

  /** The inner loop of the DFS at the top vertex u: move u's cursor over its list until a
      record with cap > 0 leads to an undiscovered vertex v, which then gets u as its parent.
      The caller pushes v, or pops u when the list is exhausted. */
  method TryAdvance(g: Graph, s: int, t: int, prevNode: array<int>, prevEdge: array<int>,
                    it: array<int>, u: int, ghost net: Net, ghost depth: seq<int>,
                    ghost stack: seq<int>, ghost seen: set<int>)
    returns (advanced: bool, v: int)
    requires g.Shaped() && net == g.adj[..] && InRange(net) && 0 <= u < |net| && u != t
    requires prevNode != prevEdge && it != prevNode && it != prevEdge
    requires DfsInv(net, s, t, prevNode[..], prevEdge[..], depth, it[..], stack, seen)
    requires stack != [] && stack[|stack| - 1] == u
    modifies prevNode, prevEdge, it
    ensures advanced ==>
              && 0 <= v < |net| && v !in seen
              && DfsInv(net, s, t, prevNode[..], prevEdge[..], depth[v := depth[u] + 1], it[..],
                        stack + [v], seen + {v})
    ensures !advanced ==>
              && it[u] >= |net[u]|
              && DfsInv(net, s, t, prevNode[..], prevEdge[..], depth, it[..], stack, seen)
  {
    var row := g.Adj(u);
    while it[u] < |row|
      invariant DfsInv(net, s, t, prevNode[..], prevEdge[..], depth, it[..], stack, seen)
      decreases |row| - it[u]
    {
      var i := it[u];
      ghost var cursors := it[..];
      it[u] := i + 1;
      assert it[..] == cursors[u := i + 1];
      var e := row[i];
      if e.cap <= 0 {
        DfsSkip(net, s, t, prevNode[..], prevEdge[..], depth, cursors, stack, seen, u);
        continue;
      }
      v := e.to;
      if prevNode[v] != -1 {
        DfsSkip(net, s, t, prevNode[..], prevEdge[..], depth, cursors, stack, seen, u);
        continue;
      }
      DfsDiscover(net, s, t, prevNode[..], prevEdge[..], depth, cursors, stack, seen, u, i, v);
      ghost var parents, edges := prevNode[..][v := u], prevEdge[..][v := i];
      prevNode[v] := u;
      prevEdge[v] := i;
      assert prevNode[..] == parents && prevEdge[..] == edges && it[..] == cursors[u := i + 1];
      return true, v;
    }
    return false, 0;
  }

  lemma DfsStart(net: Net, s: int, t: int, pn: seq<int>, pe: seq<int>, depth: seq<int>, it: seq<int>)
    requires 0 <= s < |net| && |pn| == |net| && |pe| == |net| && |it| == |net| && |depth| == |net|
    requires forall v | 0 <= v < |net| :: pn[v] == (if v == s then s else -1) && it[v] == 0 && depth[v] == 0
    ensures DfsInv(net, s, t, pn, pe, depth, it, [s], {s})
  {
    forall v | 0 <= v < |net| ensures ChainLink(s, pn, depth, v) && TreeLink(net, s, pn, pe, v) {
    }
  }

  /** Advancing u's cursor past a record that is saturated or leads to a seen vertex. */
  lemma DfsSkip(net: Net, s: int, t: int, pn: seq<int>, pe: seq<int>, depth: seq<int>,
                it: seq<int>, stack: seq<int>, seen: set<int>, u: int)
    requires DfsInv(net, s, t, pn, pe, depth, it, stack, seen)
    requires stack != [] && u == stack[|stack| - 1] && 0 <= it[u] < |net[u]|
    requires var e := net[u][it[u]]; e.cap <= 0 || (0 <= e.to < |net| && pn[e.to] != -1)
    ensures DfsInv(net, s, t, pn, pe, depth, it[u := it[u] + 1], stack, seen)
  {
    assert u in seen;
  }

  /** Taking the record at u's cursor to an undiscovered vertex v: v hangs below u in the
      tree and goes on top of the stack. */
  lemma DfsDiscover(net: Net, s: int, t: int, pn: seq<int>, pe: seq<int>, depth: seq<int>,
                    it: seq<int>, stack: seq<int>, seen: set<int>, u: int, i: int, v: int)
    requires DfsInv(net, s, t, pn, pe, depth, it, stack, seen) && InRange(net)
    requires stack != [] && u == stack[|stack| - 1] && u != t && 0 <= it[u] < |net[u]|
    requires i == it[u] && v == net[u][i].to && net[u][i].cap > 0 && pn[v] == -1
    ensures 0 <= v < |net| && v !in seen
    ensures DfsInv(net, s, t, pn[v := u], pe[v := i], depth[v := depth[u] + 1],
                   it[u := i + 1], stack + [v], seen + {v})
  {
    assert u in seen;
    DiscoverKeepsTree(net, s, pn, pe, depth, u, i);
    var stack' := stack + [v];
    forall w | w in seen + {v} && it[u := i + 1][w] < |net[w]| ensures w in stack' {
      if w != v {
        assert w in stack;
        var k :| 0 <= k < |stack| && stack[k] == w;
        assert stack'[k] == w;
      }
    }
  }

  /** Popping u once its cursor has passed its whole list. */
  lemma DfsPop(net: Net, s: int, t: int, pn: seq<int>, pe: seq<int>, depth: seq<int>,
               it: seq<int>, stack: seq<int>, seen: set<int>)
    requires DfsInv(net, s, t, pn, pe, depth, it, stack, seen)
    requires stack != [] && stack[|stack| - 1] != t
    requires it[stack[|stack| - 1]] >= |net[stack[|stack| - 1]]|
    ensures DfsInv(net, s, t, pn, pe, depth, it, stack[..|stack| - 1], seen)
  {
    var u := stack[|stack| - 1];
    var stack' := stack[..|stack| - 1];
    forall w | w in seen && it[w] < |net[w]| ensures w in stack' {
      assert w in stack;
      var k :| 0 <= k < |stack| && stack[k] == w;
      assert k < |stack| - 1 && stack'[k] == w;
    }
  }

  /** An empty stack means every seen vertex is finished: the seen set is closed under
      residual records, so it holds every vertex reachable from s, and t is not among them. */
  lemma DfsExhausted(net: Net, s: int, t: int, pn: seq<int>, pe: seq<int>, depth: seq<int>,
                     it: seq<int>, seen: set<int>)
    requires DfsInv(net, s, t, pn, pe, depth, it, [], seen)
    ensures !Reachable(net, s, t)
  {
    assert Closed(net, seen) by {
      forall v | v in seen ensures 0 <= v < |net| && ClosedAt(net, seen, v) {
        assert it[v] == |net[v]|;
      }
    }
    forall v | 0 <= v < |net| && Reachable(net, s, v) ensures v in seen {
      ReachableClosed(net, seen, s, v);
    }
    assert t !in seen;
  }

  /** The maximum s-t flow value, augmenting g in place along paths found by DFS. On exit t
      is unreachable from s in the residual network, which MaxFlowCertified turns into the
      validators' certificate. */
  method MaxFlow(g: Graph, s: int, t: int) returns (flow: int)
    requires g.Valid() && 0 <= s < g.n && 0 <= t < g.n
    modifies g.adj
    ensures g.Valid() && flow >= 0
    ensures FlowMoved(old(g.adj[..]), g.adj[..], s, t, flow)
    ensures s == t ==> flow == 0 && g.adj[..] == old(g.adj[..])
    ensures s != t ==> !Reachable(g.adj[..], s, t)
  {
    ghost var init: Net := g.adj[..];
    MovedNothing(init, s, t);
    if s == t {
      return 0;
    }
    var n := g.Size();
    flow := 0;
    var prevNode := new int[n];
    var prevEdge := new int[n];
    CapOutNonneg(init, s);
    while true
      invariant g.Valid() && flow >= 0
      invariant FlowMoved(init, g.adj[..], s, t, flow)
      invariant CapOut(g.adj[..], s) >= 0
      decreases CapOut(g.adj[..], s)
    {
      ghost var cur: Net := g.adj[..];
      ValidIsLinked(cur);
      LinkedInRange(cur);
      var found, depth := FindAugmentingPathDFS(g, s, t, prevNode, prevEdge);
      if !found {
        break;
      }
      ghost var p := TreePath(s, prevNode[..], depth, t);
      ghost var idx := TreeIdx(s, prevNode[..], prevEdge[..], depth, t);
      TreePathFacts(cur, s, prevNode[..], prevEdge[..], depth, t);
      TreeFollows(cur, s, prevNode[..], prevEdge[..], depth, t);
      var bottleneck := Bottleneck(g, s, t, prevNode[..], prevEdge[..], p, idx);
      Augment(g, s, t, prevNode[..], prevEdge[..], p, idx, bottleneck);
      AugmentRound(cur, p, idx, bottleneck);
      MovedTrans(init, cur, g.adj[..], s, t, flow, bottleneck);
      flow := flow + bottleneck;
    }
  }
}

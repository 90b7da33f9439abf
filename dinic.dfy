/** Dinic's algorithm: a breadth-first level graph per phase, then depth-first blocking flow
    along records that climb exactly one level, with a current-arc pointer per vertex and
    pruning of dead ends. */
module Dinic {
  import opened Residual
  import opened Paths
  import opened Conservation
  import opened FlowGraph
  import opened AugmentingPaths
  import opened Layers
  import opened BlockingFlow

  // ---------------------------------------------------------------------------------------
  // The level graph (buildLevelGraph)
  // ---------------------------------------------------------------------------------------

  /** During the level search, the ghost parent links and the level array mark the same
      vertices as discovered. */
  ghost predicate Marks(pn: seq<int>, level: seq<int>) {
    && |pn| == |level|
    && forall v | 0 <= v < |pn| :: pn[v] == -1 <==> level[v] == -1
  }

  /** Distinct vertices of an n-vertex network number at most n. */
  lemma {:induction false} DistinctBound(p: seq<int>, n: nat)
    requires forall k | 0 <= k < |p| :: 0 <= p[k] < n
    requires forall k, l | 0 <= k < l < |p| :: p[k] != p[l]
    ensures |p| <= n
  {
    var S := set k | 0 <= k < |p| :: p[k];
    DistinctCard(p);
    BoundedCard(S, n);
  }

  lemma {:induction false} DistinctCard(p: seq<int>)
    requires forall k, l | 0 <= k < l < |p| :: p[k] != p[l]
    ensures |set k | 0 <= k < |p| :: p[k]| == |p|
    decreases |p|
  {
    if |p| > 0 {
      var q := p[..|p| - 1];
      DistinctCard(q);
      var S := set k | 0 <= k < |p| :: p[k];
      var T := set k | 0 <= k < |q| :: q[k];
      assert S == T + {p[|p| - 1]} by {
        forall x | x in S ensures x in T + {p[|p| - 1]} {
          var k :| 0 <= k < |p| && p[k] == x;
          if k < |q| {
            assert q[k] == x;
          }
        }
      }
      assert p[|p| - 1] !in T;
    }
  }

  /** Once the queue is empty every discovered vertex is finished, and the discovered set is
      closed under residual records. */
  lemma LevelsClosed(net: Net, s: int, pn: seq<int>, pe: seq<int>, level: seq<int>,
                     seen: set<int>, done: set<int>, F: int)
    requires BfsAt(net, s, -1, pn, pe, level, [], seen, done, F, {})
    ensures FinishedBelow(net, seen, level, seen, 0) && Closed(net, seen)
  {
    forall v | v in seen ensures v in done && 0 <= v < |net| && ClosedAt(net, seen, v) {
      assert v in done || v in [] || v in {};
      assert DoneAt(net, seen, level, v);
    }
  }

  /** Once the queue is empty, a vertex has a level exactly when it is reachable, its level
      is its residual distance from s, and levels stay below the number of vertices. */
  lemma LevelsDone(net: Net, s: int, pn: seq<int>, pe: seq<int>, level: seq<int>,
                   seen: set<int>, done: set<int>, F: int)
    requires BfsAt(net, s, -1, pn, pe, level, [], seen, done, F, {}) && Marks(pn, level)
    ensures forall v | 0 <= v < |net| :: level[v] != -1 <==> Reachable(net, s, v)
    ensures forall v | 0 <= v < |net| && level[v] != -1 :: NoShorterPath(net, s, v, level[v])
    ensures forall v | 0 <= v < |net| :: -1 <= level[v] < |net|
  {
    LevelsClosed(net, s, pn, pe, level, seen, done, F);
    forall v | 0 <= v < |net| ensures level[v] != -1 <==> Reachable(net, s, v) {
      LevelReach(net, s, pn, pe, level, seen, v);
    }
    forall v | 0 <= v < |net| && level[v] != -1 ensures NoShorterPath(net, s, v, level[v]) {
      assert v in seen;
      LayerBoundAll(net, s, seen, level, v);
    }
    forall v | 0 <= v < |net| ensures -1 <= level[v] < |net| {
      LevelBelowSize(net, s, pn, pe, level, v);
    }
  }

  lemma LevelReach(net: Net, s: int, pn: seq<int>, pe: seq<int>, level: seq<int>, seen: set<int>, v: int)
    requires Tree(net, s, pn, pe, level) && Marks(pn, level) && Closed(net, seen) && s in seen
    requires forall x | 0 <= x < |net| :: pn[x] != -1 <==> x in seen
    requires 0 <= v < |net|
    ensures level[v] != -1 <==> Reachable(net, s, v)
  {
    if level[v] != -1 {
      TreeReach(net, s, pn, pe, level, v);
    }
    if Reachable(net, s, v) {
      ReachableClosed(net, seen, s, v);
    }
  }

  /** A level is the length of a simple tree path, so it is below the number of vertices. */
  lemma LevelBelowSize(net: Net, s: int, pn: seq<int>, pe: seq<int>, level: seq<int>, v: int)
    requires Tree(net, s, pn, pe, level) && Marks(pn, level) && 0 <= v < |net|
    ensures -1 <= level[v] < |net|
  {
    if pn[v] != -1 {
      TreePathFacts(net, s, pn, pe, level, v);
      DistinctBound(TreePath(s, pn, level, v), |net|);
    }
  }

  /** A discovery keeps level and parent links marking the same vertices: the new level is
      one more than that of a discovered vertex, so it is not -1. */
  lemma MarksDiscover(s: int, pn: seq<int>, level: seq<int>, u: int, v: int)
    requires Chain(s, pn, level) && Marks(pn, level)
    requires 0 <= u < |pn| && pn[u] != -1 && 0 <= v < |pn|
    ensures Marks(pn[v := u], level[v := level[u] + 1])
  {
    assert ChainLink(s, pn, level, u);
  }

  /** buildLevelGraph: level[v] becomes the residual distance from s (-1 when unreachable)
      by a FIFO search over records with cap > 0; the result says whether t got a level.
      The ghost parent links pn/pe record a shortest path to every vertex with a level. */
  method BuildLevelGraph(g: Graph, s: int, t: int, level: array<int>)
    returns (reached: bool, ghost pn: seq<int>, ghost pe: seq<int>)
    requires g.Shaped() && InRange(g.adj[..]) && 0 <= s < g.n && 0 <= t < g.n && level.Length == g.n
    modifies level
    ensures level[s] == 0 && Tree(g.adj[..], s, pn, pe, level[..]) && Marks(pn, level[..])
    ensures forall v | 0 <= v < g.n :: level[v] != -1 <==> Reachable(g.adj[..], s, v)
    ensures forall v | 0 <= v < g.n && level[v] != -1 :: NoShorterPath(g.adj[..], s, v, level[v])
    ensures forall v | 0 <= v < g.n :: -1 <= level[v] < g.n
    ensures reached <==> level[t] != -1
    ensures reached <==> Reachable(g.adj[..], s, t)
  {
    ghost var net: Net := g.adj[..];
    var n := g.Size();
    forall v | 0 <= v < n {
      level[v] := -1;
    }
    level[s] := 0;
    var q: seq<int> := [s];
    pn := seq(n, v => if v == s then s else -1);
    pe := seq(n, _ => 0);
    ghost var seen: set<int> := {s};
    ghost var done: set<int> := {};
    ghost var F := 0;
    BfsStart(net, s, -1, pn, pe, level[..]);
    while q != []
      invariant g.adj[..] == net
      invariant BfsAt(net, s, -1, pn, pe, level[..], q, seen, done, F, {}) && Marks(pn, level[..])
      decreases n - |seen|, |q|
    {
      BoundedCard(seen, n);
      ghost var seen0, q0 := seen, q;
      BfsPoll(net, s, -1, pn, pe, level[..], q, seen, done, F);
      var u := q[0];
      q := q[1..];
      F := level[u];
      q, pn, pe, seen := ScanLevels(g, s, level, u, q, net, pn, pe, seen, done, seen0, q0);
      BfsFinish(net, s, -1, pn, pe, level[..], q, seen, done, u, seen0, q0);
      done := done + {u};
    }
    LevelsDone(net, s, pn, pe, level[..], seen, done, F);
    reached := level[t] != -1;
  }

  /** The inner loop of buildLevelGraph at the dequeued vertex u: every record with cap > 0 to
      a vertex without a level gives that vertex level[u] + 1 and enqueues it. */
  method ScanLevels(g: Graph, s: int, level: array<int>, u: int, q: seq<int>, ghost net: Net,
                    ghost pn: seq<int>, ghost pe: seq<int>, ghost seen: set<int>,
                    ghost done: set<int>, ghost seen0: set<int>, ghost q0: seq<int>)
    returns (q': seq<int>, ghost pn': seq<int>, ghost pe': seq<int>, ghost seen': set<int>)
    requires g.Shaped() && net == g.adj[..] && InRange(net) && level.Length == |net|
    requires Scan(net, s, -1, pn, pe, level[..], q, seen, done, u, 0, seen0, q0)
    requires Marks(pn, level[..])
    modifies level
    ensures Scan(net, s, -1, pn', pe', level[..], q', seen', done, u, |net[u]|, seen0, q0)
    ensures Marks(pn', level[..]) && level[u] == old(level[u])
  {
    q', pn', pe', seen' := q, pn, pe, seen;
    var row := g.Adj(u);
    for i := 0 to |row|
      invariant Scan(net, s, -1, pn', pe', level[..], q', seen', done, u, i, seen0, q0)
      invariant Marks(pn', level[..]) && level[u] == old(level[u])
    {
      var e := row[i];
      if e.cap > 0 && level[e.to] == -1 {
        var v := e.to;
        BfsDiscover(net, s, -1, pn', pe', level[..], q', seen', done, u, i, seen0, q0);
        MarksDiscover(s, pn', level[..], u, v);
        ghost var levels := level[..][v := level[u] + 1];
        level[v] := level[u] + 1;
        assert level[..] == levels;
        pn', pe' := pn'[v := u], pe'[v := i];
        seen' := seen' + {v};
        q' := q' + [v];
      } else {
        BfsSkip(net, s, -1, pn', pe', level[..], q', seen', done, u, i, seen0, q0);
      }
    }
  }

  /** dfsBlockingFlow: from u, follow the current arc of each vertex along records that climb
      one level; at t the amount is `pushed`; on the way back every record of the route is
      updated by the amount. A vertex whose records are all used up is pruned (level -1) and 0
      is returned. `path` is what the tracing variant keeps in pathStack: the route from u to t
      on success, nothing on failure. */
  method DfsBlockingFlow(g: Graph, u: int, t: int, pushed: int, level: array<int>, ptr: array<int>)
    returns (amt: int, path: seq<int>, ghost idx: seq<int>)
    requires g.Valid() && Linked(g.adj[..]) && level != ptr && level.Length == g.n && ptr.Length == g.n
    requires 0 <= u < g.n && level[u] >= 0 && pushed >= 1
    requires PhaseInv(g.adj[..], level[..], ptr[..], t)
    modifies g.adj, level, ptr
    ensures g.Valid() && Linked(g.adj[..])
    ensures DfsPost(old(g.adj[..]), old(level[..]), old(ptr[..]), g.adj[..], level[..], ptr[..],
                    u, t, pushed, amt, path, idx)
    ensures amt == 0 ==> level[u] == -1
    decreases g.n - level[u], 1
  {
    ghost var net0, l0, p0 := g.adj[..], level[..], ptr[..];
    if u == t {
      DfsAtSink(net0, l0, p0, t, pushed);
      amt, path, idx := pushed, [t], [];
      return;
    }
    ArcStart(net0, l0, p0, u, t);
    while ptr[u] < |g.Adj(u)|
      invariant g.Valid() && g.adj[..] == net0 && ArcLoop(net0, l0, p0, level[..], ptr[..], u, t)
      decreases |net0[u]| - ptr[u]
    {
      amt, path, idx := TryArc(g, u, t, pushed, level, ptr, net0, l0, p0);
      if amt > 0 {
        return;
      }
    }
    ghost var ll := level[..];
    ArcExhausted(net0, l0, p0, ll, ptr[..], u, t, pushed);
    level[u] := -1;
    assert level[..] == ll[u := -1];
    amt, path, idx := 0, [], [];
  }

  /** One turn of the loop of dfsBlockingFlow at u, over its current arc: a record outside the
      level graph is skipped; otherwise the search goes on from its head with `pushed` capped
      by the record's capacity, and either the record is updated by the amount that came back
      and that amount returned, or the arc is left behind. */
  method TryArc(g: Graph, u: int, t: int, pushed: int, level: array<int>, ptr: array<int>,
                ghost net0: Net, ghost l0: seq<int>, ghost p0: seq<int>)
    returns (amt: int, path: seq<int>, ghost idx: seq<int>)
    requires g.Valid() && g.adj[..] == net0 && Linked(net0)
    requires level != ptr && level.Length == g.n && ptr.Length == g.n && pushed >= 1
    requires ArcLoop(net0, l0, p0, level[..], ptr[..], u, t) && ptr[u] < |net0[u]|
    modifies g.adj, level, ptr
    ensures g.Valid() && Linked(g.adj[..])
    ensures amt > 0 ==> DfsPost(net0, l0, p0, g.adj[..], level[..], ptr[..], u, t, pushed, amt, path, idx)
    ensures amt <= 0 ==>
              && g.adj[..] == net0 && ArcLoop(net0, l0, p0, level[..], ptr[..], u, t)
              && ptr[u] == old(ptr[u]) + 1
    decreases g.n - level[u], 0
  {
    LinkedInRange(net0);
    var i := ptr[u];
    var e := g.Adj(u)[i];
    ghost var lk, pk := level[..], ptr[..];
    if e.cap <= 0 || level[e.to] != level[u] + 1 {
      ArcSkip(net0, l0, p0, lk, pk, u, t);
      ptr[u] := i + 1;
      assert ptr[..] == pk[u := i + 1];
      return 0, [], [];
    }
    var c, pw, idxw := DfsBlockingFlow(g, e.to, t, if pushed < e.cap then pushed else e.cap, level, ptr);
    if c > 0 {
      ArcSucceed(net0, l0, p0, lk, pk, g.adj[..], level[..], ptr[..], u, t, pushed, c, pw, idxw);
      SendBack(g, u, i, t, pushed, c, [u] + pw, [i] + idxw, level, ptr, net0, l0, p0);
      return c, [u] + pw, [i] + idxw;
    }
    ghost var pc := ptr[..];
    ArcFail(net0, l0, p0, lk, pk, level[..], pc, u, t, if pushed < e.cap then pushed else e.cap);
    ptr[u] := i + 1;
    assert ptr[..] == pc[u := i + 1];
    amt, path, idx := 0, [], [];
  }

  /** The way back over the current arc i of u after the search from its head returned c > 0:
      the record and its pair are updated by c, which completes the route of u. */
  method SendBack(g: Graph, u: int, i: int, t: int, pushed: int, c: int, path: seq<int>,
                  ghost idx: seq<int>, level: array<int>, ptr: array<int>,
                  ghost net0: Net, ghost l0: seq<int>, ghost p0: seq<int>)
    requires g.Shaped() && IsEdge(g.adj[..], u, i) && Paired(g.adj[..], u, i)
    requires var r := PushNet(g.adj[..], u, i, c);
             && ValidNet(r) && Linked(r)
             && DfsPost(net0, l0, p0, r, level[..], ptr[..], u, t, pushed, c, path, idx)
    modifies g.adj
    ensures g.Valid() && Linked(g.adj[..])
    ensures DfsPost(net0, l0, p0, g.adj[..], level[..], ptr[..], u, t, pushed, c, path, idx)
  {
    ghost var r, l, p := PushNet(g.adj[..], u, i, c), level[..], ptr[..];
    UpdateResidual(g, u, i, c);
    assert g.adj[..] == r && level[..] == l && ptr[..] == p;
  }

  /** The inner loop of maxFlow: searches from s with INF until one returns 0. The phase
      starts with a level graph in which t is reachable from s, so its first search sends
      something; every search sends along a level-graph walk, so the phase as a whole moves
      `total` units from s to t, and it ends with a blocking flow: no walk of the pruned level
      graph leads from s to t any more. */
  method BlockingPhase(g: Graph, s: int, t: int, level: array<int>, ptr: array<int>) returns (total: int)
    requires g.Valid() && level != ptr && level.Length == g.n && ptr.Length == g.n
    requires 0 <= s < g.n && s != t && level[s] >= 0
    requires PhaseInv(g.adj[..], level[..], ptr[..], t) && !NoPath(g.adj[..], level[..], s, t)
    modifies g.adj, level, ptr
    ensures g.Valid() && total >= 1
    ensures FlowMoved(old(g.adj[..]), g.adj[..], s, t, total)
    ensures CapOut(g.adj[..], s) == CapOut(old(g.adj[..]), s) - total
    ensures PhaseInv(g.adj[..], level[..], ptr[..], t) && Grow(old(ptr[..]), ptr[..])
    ensures Shrinks(old(g.adj[..]), old(level[..]), g.adj[..], level[..], t)
    ensures NoPath(g.adj[..], level[..], s, t)
  {
    ghost var net0, l0, p0 := g.adj[..], level[..], ptr[..];
    MovedNothing(net0, s, t);
    total := 0;
    CapOutNonneg(net0, s);
    while true
      invariant g.Valid() && total >= 0 && level[s] >= 0
      invariant FlowMoved(net0, g.adj[..], s, t, total)
      invariant CapOut(g.adj[..], s) == CapOut(net0, s) - total >= 0
      invariant PhaseInv(g.adj[..], level[..], ptr[..], t) && Grow(p0, ptr[..])
      invariant Shrinks(net0, l0, g.adj[..], level[..], t)
      invariant total == 0 ==> g.adj[..] == net0 && level[..] == l0
      decreases CapOut(g.adj[..], s)
    {
      ghost var cur, lv, pv := g.adj[..], level[..], ptr[..];
      ValidIsLinked(cur);
      var pushed, path, idx := DfsBlockingFlow(g, s, t, INF, level, ptr);
      ShrinkTrans(net0, l0, cur, lv, g.adj[..], level[..], t);
      if pushed == 0 {
        ShrinkNoPath(cur, lv, g.adj[..], level[..], t, s);
        break;
      }
      LevelAugPath(cur, lv, path, idx, pushed);
      AugmentRound(cur, path, idx, pushed);
      MovedTrans(net0, cur, g.adj[..], s, t, total, pushed);
      total := total + pushed;
    }
  }

  /** The head of a phase: the level graph is built, and when it reaches t every current-arc
      pointer is reset to 0, which gives a phase state in which s reaches t. */
  method StartPhase(g: Graph, s: int, t: int, level: array<int>, ptr: array<int>) returns (more: bool)
    requires g.Valid() && level != ptr && level.Length == g.n && ptr.Length == g.n
    requires 0 <= s < g.n && 0 <= t < g.n
    modifies level, ptr
    ensures more <==> Reachable(g.adj[..], s, t)
    ensures more ==> level[s] >= 0 && PhaseInv(g.adj[..], level[..], ptr[..], t)
                     && !NoPath(g.adj[..], level[..], s, t)
                     && forall v | 0 <= v < g.n :: ptr[v] == 0
  {
    ghost var net: Net := g.adj[..];
    ValidIsLinked(net);
    LinkedInRange(net);
    ghost var pn: seq<int>, pe: seq<int>;
    more, pn, pe := BuildLevelGraph(g, s, t, level);
    assert g.adj[..] == net;
    if !more {
      return;
    }
    ghost var lv := level[..];
    assert pn[t] != -1;
    assert forall v | 0 <= v < |net| :: -1 <= lv[v] < |net|;
    TreeLevelPath(net, s, pn, pe, lv, t);
    ResetArcs(ptr);
    ghost var pv := ptr[..];
    assert forall v | 0 <= v < |net| :: pv[v] == 0;
    FreshPhase(net, lv, pv, t);
    assert level[..] == lv && ptr[..] == pv && g.adj[..] == net;
  }

  /** Arrays.fill(ptr, 0). */
  method ResetArcs(ptr: array<int>)
    modifies ptr
    ensures forall v | 0 <= v < ptr.Length :: ptr[v] == 0
  {
    forall v | 0 <= v < ptr.Length {
      ptr[v] := 0;
    }
  }

  /** With every current arc at 0 no record is behind a pointer yet, so any levels in range
      form a phase state. */
  lemma FreshPhase(net: Net, level: seq<int>, ptr: seq<int>, t: int)
    requires |level| == |net| && |ptr| == |net| && 0 <= t < |net|
    requires forall v | 0 <= v < |net| :: -1 <= level[v] < |net|
    requires forall v | 0 <= v < |net| :: ptr[v] == 0
    ensures PhaseInv(net, level, ptr, t)
  {
  }

  /** maxFlow has no guard for s == t. Then buildLevelGraph reaches t (it is s), and every
      search from s is at t at once: it returns INF and leaves the network as it was, so the
      inner loop's exit `pushed == 0` is never taken and maxFlow does not return. */
  lemma SourceIsSinkNeverBlocks(net0: Net, l0: seq<int>, p0: seq<int>, net: Net, l: seq<int>,
                                p: seq<int>, t: int, amt: int, path: seq<int>, idx: seq<int>)
    requires DfsPost(net0, l0, p0, net, l, p, t, t, INF, amt, path, idx)
    ensures Reachable(net0, t, t)
    ensures amt == INF && amt != 0 && path == [t] && net == net0
  {
    ReachableSelf(net0, t);
  }

  /** The maximum s-t flow value: phases of a fresh level graph and a blocking flow in it,
      until buildLevelGraph no longer reaches t. With s == t it returns 0 at once, as the other
      augmenting-path algorithms do. */
  method MaxFlow(g: Graph, s: int, t: int) returns (flow: int)
    requires g.Valid() && 0 <= s < g.n && 0 <= t < g.n
    modifies g.adj
    ensures g.Valid() && flow >= 0
    ensures FlowMoved(old(g.adj[..]), g.adj[..], s, t, flow)
    ensures s == t ==> flow == 0 && g.adj[..] == old(g.adj[..])
    ensures s != t ==> !Reachable(g.adj[..], s, t)
  {
    ghost var init: Net := g.adj[..];
    MovedNothing(init, s, t);
    if s == t {
      return 0;
    }
    flow := 0;
    var n := g.Size();
    var level := new int[n];
    var ptr := new int[n];
    CapOutNonneg(init, s);
    while true
      invariant g.Valid() && flow >= 0
      invariant FlowMoved(init, g.adj[..], s, t, flow)
      invariant CapOut(g.adj[..], s) >= 0
      decreases CapOut(g.adj[..], s)
    {
      ghost var cur: Net := g.adj[..];
      var more := StartPhase(g, s, t, level, ptr);
      if !more {
        break;
      }
      var pushed := BlockingPhase(g, s, t, level, ptr);
      MovedTrans(init, cur, g.adj[..], s, t, flow, pushed);
      CapOutNonneg(g.adj[..], s);
      flow := flow + pushed;
    }
  }
}

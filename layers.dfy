/** Breadth-first layers: the distance argument and the FIFO search state shared by the
    Edmonds-Karp search and Dinic's level graph. A vertex is finished at depth d once every
    residual record out of it leads to a discovered vertex at most one layer further down. */
module Layers {
  import opened Residual
  import opened Paths
  import opened AugmentingPaths

  /** Every residual record out of x leads into `seen`, at most one layer below x. */
  ghost predicate DoneAt(net: Net, seen: set<int>, depth: seq<int>, x: int)
    requires 0 <= x < |net| && |depth| == |net|
  {
    forall j | 0 <= j < |net[x]| && net[x][j].cap > 0 ::
      && net[x][j].to in seen && 0 <= net[x][j].to < |net|
      && depth[net[x][j].to] <= depth[x] + 1
  }

  /** Every residual walk from s to v has at least d hops. */
  ghost predicate NoShorterPath(net: Net, s: int, v: int, d: int) {
    forall p | ResPath(net, p) && p[0] == s && p[|p| - 1] == v :: |p| - 1 >= d
  }

  /** The layers are finished up to F: every discovered vertex below layer F is finished. */
  ghost predicate FinishedBelow(net: Net, seen: set<int>, depth: seq<int>, done: set<int>, F: int) {
    && |depth| == |net|
    && (forall x | x in done :: x in seen && 0 <= x < |net| && DoneAt(net, seen, depth, x))
    && (forall x | x in seen && 0 <= x < |net| && depth[x] < F :: x in done)
  }

  /** Walking a residual path from s: its k-th vertex is discovered at depth at most k, unless
      the walk has already gone past the finished layers. */
  lemma {:induction false} LayerBoundAt(net: Net, s: int, seen: set<int>, depth: seq<int>,
                                        done: set<int>, F: int, p: seq<int>, k: int)
    requires FinishedBelow(net, seen, depth, done, F) && 0 <= s < |net| && s in seen && depth[s] == 0
    requires ResPath(net, p) && p[0] == s && 0 <= k < |p|
    ensures (p[k] in seen && depth[p[k]] <= k) || k > F
    decreases k
  {
    if k > 0 {
      LayerBoundAt(net, s, seen, depth, done, F, p, k - 1);
      var x := p[k - 1];
      if x in seen && depth[x] <= k - 1 && depth[x] < F {
        assert ResEdge(net, x, p[k]);
        var j :| 0 <= j < |net[x]| && net[x][j].to == p[k] && net[x][j].cap > 0;
        assert DoneAt(net, seen, depth, x);
      }
    }
  }

  /** A vertex that is not discovered while the layers below F are finished is more than F
      hops away from s. */
  lemma LayerBound(net: Net, s: int, seen: set<int>, depth: seq<int>, done: set<int>, F: int, v: int)
    requires FinishedBelow(net, seen, depth, done, F) && 0 <= s < |net| && s in seen && depth[s] == 0
    requires v !in seen
    ensures NoShorterPath(net, s, v, F + 1)
  {
    forall p | ResPath(net, p) && p[0] == s && p[|p| - 1] == v ensures |p| - 1 >= F + 1 {
      LayerBoundAt(net, s, seen, depth, done, F, p, |p| - 1);
    }
  }

  /** Once every discovered vertex is finished, depth is a lower bound on the distance of
      every vertex that can be reached at all. */
  lemma LayerBoundAll(net: Net, s: int, seen: set<int>, depth: seq<int>, v: int)
    requires FinishedBelow(net, seen, depth, seen, 0) && 0 <= s < |net| && s in seen && depth[s] == 0
    requires 0 <= v < |net| && v in seen
    ensures NoShorterPath(net, s, v, depth[v])
  {
    forall p | ResPath(net, p) && p[0] == s && p[|p| - 1] == v ensures |p| - 1 >= depth[v] {
      LayerBoundAt(net, s, seen, depth, seen, |p|, p, |p| - 1);
    }
  }

  /** The state of the search between two steps. prevNode marks exactly the discovered vertices
      and forms a search tree; the vertex t the search stops at is not discovered yet (Dinic's
      search never stops early and passes t = -1); the queue holds discovered vertices in
      nondecreasing depth, none above F + 1 and none below F, where F is the depth of the vertex
      dequeued last; every discovered vertex is finished, queued, or in `open`; and the layers
      below F are finished. */
  ghost predicate BfsAt(net: Net, s: int, t: int, pn: seq<int>, pe: seq<int>, depth: seq<int>,
                        q: seq<int>, seen: set<int>, done: set<int>, F: int, open: set<int>)
  {
    && Tree(net, s, pn, pe, depth)
    && (forall v | v in seen :: 0 <= v < |net|)
    && (forall v | 0 <= v < |net| :: pn[v] != -1 <==> v in seen)
    && s in seen && t !in seen
    && (forall k | 0 <= k < |q| :: q[k] in seen && F <= depth[q[k]])
    && (forall k, l | 0 <= k < l < |q| :: depth[q[k]] <= depth[q[l]])
    && (forall v | v in seen :: depth[v] <= F + 1)
    && (forall v | v in seen :: v in done || v in q || v in open)
    && FinishedBelow(net, seen, depth, done, F)
  }

  /** Part-way through the list of the dequeued vertex u: records before i are scanned, and
      the queue has only grown since u left the old queue q0. */
  ghost predicate Scan(net: Net, s: int, t: int, pn: seq<int>, pe: seq<int>, depth: seq<int>,
                       q: seq<int>, seen: set<int>, done: set<int>, u: int, i: int,
                       seen0: set<int>, q0: seq<int>)
  {
    && 0 <= u < |net| && |depth| == |net|
    && BfsAt(net, s, t, pn, pe, depth, q, seen, done, depth[u], {u})
    && u in seen && 0 <= i <= |net[u]|
    && (forall j | 0 <= j < i && net[u][j].cap > 0 :: net[u][j].to in seen)
    && seen0 <= seen && |seen| >= |seen0| && q0 != [] && (|seen| == |seen0| ==> q == q0[1..])
  }

  lemma BfsStart(net: Net, s: int, t: int, pn: seq<int>, pe: seq<int>, depth: seq<int>)
    requires 0 <= s < |net| && s != t
    requires |pn| == |net| && |pe| == |net| && |depth| == |net|
    requires forall v | 0 <= v < |net| :: pn[v] == (if v == s then s else -1)
    requires depth[s] == 0
    ensures BfsAt(net, s, t, pn, pe, depth, [s], {s}, {}, 0, {})
  {
    forall v | 0 <= v < |net| ensures ChainLink(s, pn, depth, v) && TreeLink(net, s, pn, pe, v) {
    }
  }

  /** Dequeuing u = q[0]: its depth becomes F, and every discovered vertex above that depth is
      already finished, because the queue is sorted by depth. */
  lemma BfsPoll(net: Net, s: int, t: int, pn: seq<int>, pe: seq<int>, depth: seq<int>,
                q: seq<int>, seen: set<int>, done: set<int>, F: int)
    requires BfsAt(net, s, t, pn, pe, depth, q, seen, done, F, {}) && q != []
    ensures Scan(net, s, t, pn, pe, depth, q[1..], seen, done, q[0], 0, seen, q)
  {
    var u := q[0];
    var F' := depth[u];
    forall k | 0 <= k < |q| - 1 ensures q[1..][k] in seen && F' <= depth[q[1..][k]] {
      assert q[1..][k] == q[k + 1];
    }
    forall k, l | 0 <= k < l < |q| - 1 ensures depth[q[1..][k]] <= depth[q[1..][l]] {
      assert q[1..][k] == q[k + 1] && q[1..][l] == q[l + 1];
    }
    forall v | v in seen ensures v in done || v in q[1..] || v in {u} {
      if v in q && v != u {
        var k :| 0 <= k < |q| && q[k] == v;
        assert q[1..][k - 1] == v;
      }
    }
    forall x | x in seen && 0 <= x < |net| && depth[x] < F' ensures x in done {
      assert x !in q;
    }
  }

  /** Passing over a record that is saturated or leads to a discovered vertex. */
  lemma BfsSkip(net: Net, s: int, t: int, pn: seq<int>, pe: seq<int>, depth: seq<int>,
                q: seq<int>, seen: set<int>, done: set<int>, u: int, i: int,
                seen0: set<int>, q0: seq<int>)
    requires Scan(net, s, t, pn, pe, depth, q, seen, done, u, i, seen0, q0)
    requires InRange(net) && i < |net[u]|
    requires net[u][i].cap <= 0 || pn[net[u][i].to] != -1
    ensures Scan(net, s, t, pn, pe, depth, q, seen, done, u, i + 1, seen0, q0)
  {
  }

  /** Discovering v != t over record i of u: v hangs below u one layer further down and is
      enqueued; the queue stays sorted and the finished layers stay finished. */
  lemma BfsDiscover(net: Net, s: int, t: int, pn: seq<int>, pe: seq<int>, depth: seq<int>,
                    q: seq<int>, seen: set<int>, done: set<int>, u: int, i: int,
                    seen0: set<int>, q0: seq<int>)
    requires Scan(net, s, t, pn, pe, depth, q, seen, done, u, i, seen0, q0)
    requires InRange(net) && i < |net[u]|
    requires net[u][i].cap > 0 && pn[net[u][i].to] == -1 && net[u][i].to != t
    ensures var v := net[u][i].to;
            Scan(net, s, t, pn[v := u], pe[v := i], depth[v := depth[u] + 1], q + [v], seen + {v},
                 done, u, i + 1, seen0, q0)
  {
    var v := net[u][i].to;
    var F := depth[u];
    var pn', pe', d', q', seen' := pn[v := u], pe[v := i], depth[v := F + 1], q + [v], seen + {v};
    DiscoverKeepsTree(net, s, pn, pe, depth, u, i);
    assert v !in seen;
    forall k | 0 <= k < |q'| ensures q'[k] in seen' && F <= d'[q'[k]] {
      if k < |q| {
        assert q'[k] == q[k];
      }
    }
    forall k, l | 0 <= k < l < |q'| ensures d'[q'[k]] <= d'[q'[l]] {
      assert q'[k] == q[k];
      if l < |q| {
        assert q'[l] == q[l];
      }
    }
    forall w | w in seen' ensures w in done || w in q' || w in {u} {
      if w in q {
        var k :| 0 <= k < |q| && q[k] == w;
        assert q'[k] == w;
      }
      if w == v {
        assert q'[|q|] == v;
      }
    }
    forall x | x in done ensures x in seen' && 0 <= x < |net| && DoneAt(net, seen', d', x) {
      assert DoneAt(net, seen, depth, x);
    }
    assert |seen'| > |seen0| by {
      assert seen0 <= seen < seen';
    }
  }

  /** u is finished once its whole list is scanned. */
  lemma BfsFinish(net: Net, s: int, t: int, pn: seq<int>, pe: seq<int>, depth: seq<int>,
                  q: seq<int>, seen: set<int>, done: set<int>, u: int, seen0: set<int>, q0: seq<int>)
    requires 0 <= u < |net| && Scan(net, s, t, pn, pe, depth, q, seen, done, u, |net[u]|, seen0, q0)
    requires InRange(net)
    ensures BfsAt(net, s, t, pn, pe, depth, q, seen, done + {u}, depth[u], {})
  {
    assert DoneAt(net, seen, depth, u);
  }
}

/** The search tree that Ford-Fulkerson's DFS and Edmonds-Karp's BFS leave in the arrays
    prevNode/prevEdge, the s -> t path it encodes, and the two walks from t back to s that
    both algorithms run over it: the bottleneck and the residual update. */
module AugmentingPaths {
  import opened Residual
  import opened Paths
  import opened Conservation
  import opened FlowGraph

  /** The parent link of one vertex: a discovered vertex other than s hangs below a
      discovered parent one level up. */
  ghost predicate ChainLink(s: int, pn: seq<int>, depth: seq<int>, v: int)
    requires 0 <= v < |pn| && |depth| == |pn|
  {
    v != s && pn[v] != -1 ==>
      && 0 <= pn[v] < |pn| && pn[pn[v]] != -1
      && depth[pn[v]] >= 0 && depth[v] == depth[pn[v]] + 1
  }

  /** prevNode marks discovered vertices (-1 = undiscovered) and s is its own parent;
      `depth` is ghost. */
  ghost predicate Chain(s: int, pn: seq<int>, depth: seq<int>) {
    && |depth| == |pn| && 0 <= s < |pn| && pn[s] == s && depth[s] == 0
    && forall v | 0 <= v < |pn| :: ChainLink(s, pn, depth, v)
  }

  /** The record behind a parent link: prevEdge[v] is the position, in the list of
      prevNode[v], of a record to v with positive capacity. */
  ghost predicate TreeLink(net: Net, s: int, pn: seq<int>, pe: seq<int>, v: int)
    requires 0 <= v < |net| && |pn| == |net| && |pe| == |net|
  {
    v != s && pn[v] != -1 ==>
      && 0 <= pn[v] < |net| && 0 <= pe[v] < |net[pn[v]]|
      && net[pn[v]][pe[v]].to == v && net[pn[v]][pe[v]].cap > 0
  }

  ghost predicate Tree(net: Net, s: int, pn: seq<int>, pe: seq<int>, depth: seq<int>) {
    && |pn| == |net| && |pe| == |net| && Chain(s, pn, depth)
    && forall v | 0 <= v < |net| :: TreeLink(net, s, pn, pe, v)
  }

  /** The vertices from s down to v along the parent links: it starts at s, ends at v, has
      depth[v] hops, puts the vertex of depth k at position k, and follows the parent links. */
  ghost function TreePath(s: int, pn: seq<int>, depth: seq<int>, v: int): (p: seq<int>)
    requires Chain(s, pn, depth) && 0 <= v < |pn| && pn[v] != -1
    ensures |p| >= 1 && |p| == depth[v] + 1 && p[0] == s && p[|p| - 1] == v
    ensures forall k | 0 <= k < |p| :: 0 <= p[k] < |pn| && depth[p[k]] == k
    ensures forall k {:trigger pn[p[k]]} | 0 < k < |p| :: pn[p[k]] == p[k - 1]
    decreases depth[v]
  {
    if v == s then [s]
    else
      assert ChainLink(s, pn, depth, v);
      TreePath(s, pn, depth, pn[v]) + [v]
  }

  /** The record positions used by TreePath: hop k is prevEdge of the vertex it reaches. */
  ghost function TreeIdx(s: int, pn: seq<int>, pe: seq<int>, depth: seq<int>, v: int): (idx: seq<int>)
    requires Chain(s, pn, depth) && |pe| == |pn| && 0 <= v < |pn| && pn[v] != -1
    ensures |idx| == depth[v]
    ensures forall k | 0 <= k < |idx| :: idx[k] == pe[TreePath(s, pn, depth, v)[k + 1]]
    decreases depth[v]
  {
    if v == s then []
    else
      assert ChainLink(s, pn, depth, v);
      TreeIdx(s, pn, pe, depth, pn[v]) + [pe[v]]
  }

  /** Hop k of the tree path to v is the parent record of its (k+1)-th vertex. */
  lemma TreeHops(net: Net, s: int, pn: seq<int>, pe: seq<int>, depth: seq<int>, v: int)
    requires Tree(net, s, pn, pe, depth) && 0 <= v < |net| && pn[v] != -1
    ensures var p := TreePath(s, pn, depth, v);
            var idx := TreeIdx(s, pn, pe, depth, v);
            HopsIn(net, p, idx) && forall k | 0 <= k < |idx| :: net[p[k]][idx[k]].cap >= 1
  {
    var p := TreePath(s, pn, depth, v);
    var idx := TreeIdx(s, pn, pe, depth, v);
    forall k | 0 <= k < |idx|
      ensures IsEdge(net, p[k], idx[k]) && net[p[k]][idx[k]].to == p[k + 1] && net[p[k]][idx[k]].cap >= 1
    {
      assert depth[p[k + 1]] == k + 1 && TreeLink(net, s, pn, pe, p[k + 1]);
    }
  }

  /** No vertex repeats on a tree path: its depth is its position. */
  lemma TreeSimple(s: int, pn: seq<int>, depth: seq<int>, v: int)
    requires Chain(s, pn, depth) && 0 <= v < |pn| && pn[v] != -1
    ensures var p := TreePath(s, pn, depth, v);
            forall k, l | 0 <= k < l < |p| :: p[k] != p[l]
  {
    var p := TreePath(s, pn, depth, v);
    forall k, l | 0 <= k < l < |p| ensures p[k] != p[l] {
      assert depth[p[k]] == k && depth[p[l]] == l;
    }
  }

  /** The tree path to v is a simple path of residual records, each with capacity at least 1. */
  lemma TreePathFacts(net: Net, s: int, pn: seq<int>, pe: seq<int>, depth: seq<int>, v: int)
    requires Tree(net, s, pn, pe, depth) && 0 <= v < |net| && pn[v] != -1
    ensures AugPath(net, TreePath(s, pn, depth, v), TreeIdx(s, pn, pe, depth, v), 1)
  {
    TreeHops(net, s, pn, pe, depth, v);
    TreeSimple(s, pn, depth, v);
  }

  /** A discovered vertex is reachable from s. */
  lemma TreeReach(net: Net, s: int, pn: seq<int>, pe: seq<int>, depth: seq<int>, v: int)
    requires Tree(net, s, pn, pe, depth) && 0 <= v < |net| && pn[v] != -1
    ensures Reachable(net, s, v)
  {
    TreePathFacts(net, s, pn, pe, depth, v);
    HopsResPath(net, TreePath(s, pn, depth, v), TreeIdx(s, pn, pe, depth, v));
  }

  lemma HopsInFrom(net: Net, p: seq<int>, idx: seq<int>, k: int)
    requires HopsIn(net, p, idx) && 0 <= k < |p|
    ensures HopsIn(net, p[k..], idx[k..])
  {
    forall j | 0 <= j < |idx| - k
      ensures IsEdge(net, p[k..][j], idx[k..][j]) && net[p[k..][j]][idx[k..][j]].to == p[k..][j + 1]
    {
      assert p[k..][j] == p[k + j] && idx[k..][j] == idx[k + j] && p[k..][j + 1] == p[k + j + 1];
    }
  }

  /** Hanging an undiscovered head v of a residual record (u, i) below a discovered u keeps
      the tree a tree. */
  lemma DiscoverKeepsTree(net: Net, s: int, pn: seq<int>, pe: seq<int>, depth: seq<int>, u: int, i: int)
    requires Tree(net, s, pn, pe, depth) && 0 <= u < |net| && pn[u] != -1 && 0 <= i < |net[u]|
    requires 0 <= net[u][i].to < |net| && pn[net[u][i].to] == -1 && net[u][i].cap > 0
    ensures var v := net[u][i].to;
            Tree(net, s, pn[v := u], pe[v := i], depth[v := depth[u] + 1])
  {
    var v := net[u][i].to;
    var pn', pe', d' := pn[v := u], pe[v := i], depth[v := depth[u] + 1];
    assert ChainLink(s, pn, depth, u);
    forall w | 0 <= w < |pn'| ensures ChainLink(s, pn', d', w) && TreeLink(net, s, pn', pe', w) {
      assert ChainLink(s, pn, depth, w) && TreeLink(net, s, pn, pe, w);
    }
  }

  /** p and idx are what walking prevNode/prevEdge back from the last vertex of p visits:
      each vertex after the first has its predecessor as parent and its hop as parent record. */
  ghost predicate Follows(pn: seq<int>, pe: seq<int>, p: seq<int>, idx: seq<int>) {
    && |p| >= 1 && |idx| == |p| - 1 && |pe| == |pn|
    && forall k | 0 < k < |p| :: FollowsAt(pn, pe, p, idx, k)
  }

  /** Position k of p (k > 0) was entered from position k-1 over hop idx[k-1]. */
  ghost predicate FollowsAt(pn: seq<int>, pe: seq<int>, p: seq<int>, idx: seq<int>, k: int) {
    && 0 < k < |p| && |idx| == |p| - 1 && |pe| == |pn|
    && 0 <= p[k] < |pn| && pn[p[k]] == p[k - 1] && pe[p[k]] == idx[k - 1]
  }

  lemma TreeFollows(net: Net, s: int, pn: seq<int>, pe: seq<int>, depth: seq<int>, v: int)
    requires Tree(net, s, pn, pe, depth) && 0 <= v < |net| && pn[v] != -1
    ensures Follows(pn, pe, TreePath(s, pn, depth, v), TreeIdx(s, pn, pe, depth, v))
  {
    var p := TreePath(s, pn, depth, v);
    var idx := TreeIdx(s, pn, pe, depth, v);
    forall k | 0 < k < |p| ensures FollowsAt(pn, pe, p, idx, k) {
    }
  }

  /** One hop of the walk from t back to s along prevNode/prevEdge: the walk is back at s
      exactly at the first position, and before that it visits p[k-1] over the hop idx[k-1]. */
  lemma WalkBack(net: Net, pn: seq<int>, pe: seq<int>, p: seq<int>, idx: seq<int>, k: int)
    requires AugPath(net, p, idx, 1) && Follows(pn, pe, p, idx) && 0 <= k < |p|
    ensures k == 0 <==> p[k] == p[0]
    ensures k > 0 ==> 0 <= p[k] < |pn| && pn[p[k]] == p[k - 1] && pe[p[k]] == idx[k - 1] && IsEdge(net, p[k - 1], idx[k - 1])
  {
    if k > 0 {
      assert FollowsAt(pn, pe, p, idx, k);
    }
  }

  /** The minimum residual capacity along the path p that prevNode/prevEdge encode, walking
      t -> s; it starts from INF, so it is INF when every record on p has at least INF. */
  method Bottleneck(g: Graph, s: int, t: int, prevNode: seq<int>, prevEdge: seq<int>, ghost p: seq<int>, ghost idx: seq<int>)
    returns (b: int)
    requires g.Shaped() && AugPath(g.adj[..], p, idx, 1) && Follows(prevNode, prevEdge, p, idx)
    requires p[0] == s && p[|p| - 1] == t
    ensures var net := g.adj[..];
            && 0 < b <= INF && AugPath(net, p, idx, b)
            && (b == INF || exists k | 0 <= k < |idx| :: b == net[p[k]][idx[k]].cap)
  {
    ghost var net: Net := g.adj[..];
    ghost var caps := HopCaps(net, p, idx);
    b := INF;
    var v := t;
    ghost var k := |p| - 1;
    ghost var at := 0;
    WalkBack(net, prevNode, prevEdge, p, idx, k);
    while v != s
      invariant 0 <= k < |p| && v == p[k] && (k == 0 <==> v == s)
      invariant 0 < b <= INF
      invariant forall j | k <= j < |caps| :: b <= caps[j]
      invariant b == INF || (k <= at < |caps| && b == caps[at])
      decreases k
    {
      WalkBack(net, prevNode, prevEdge, p, idx, k);
      WalkBack(net, prevNode, prevEdge, p, idx, k - 1);
      var u := prevNode[v];
      var e := g.adj[u][prevEdge[v]];
      if e.cap < b {
        b := e.cap;
        at := k - 1;
      }
      v := u;
      k := k - 1;
    }
  }

  /** The residual capacities of the hops of p, in order. */
  ghost function HopCaps(net: Net, p: seq<int>, idx: seq<int>): (caps: seq<int>)
    requires HopsIn(net, p, idx)
    ensures |caps| == |idx| && forall j | 0 <= j < |idx| :: caps[j] == net[p[j]][idx[j]].cap
  {
    seq(|idx|, j requires 0 <= j < |idx| => net[p[j]][idx[j]].cap)
  }

  /** Sends b units along the path p that prevNode/prevEdge encode, walking t -> s: on each
      hop the record loses b of capacity and gains b of flow, and its reverse record gets the
      opposite update. */
  method Augment(g: Graph, s: int, t: int, prevNode: seq<int>, prevEdge: seq<int>, ghost p: seq<int>, ghost idx: seq<int>, b: int)
    requires g.Shaped() && Linked(g.adj[..]) && AugPath(g.adj[..], p, idx, 1) && Follows(prevNode, prevEdge, p, idx)
    requires p[0] == s && p[|p| - 1] == t
    modifies g.adj
    ensures g.adj[..] == AugmentPath(old(g.adj[..]), p, idx, b)
  {
    ghost var net: Net := g.adj[..];
    var v := t;
    ghost var k := |p| - 1;
    AugmentFromLast(net, p, idx, b);
    WalkBack(net, prevNode, prevEdge, p, idx, k);
    while v != s
      invariant 0 <= k < |p| && v == p[k] && (k == 0 <==> v == s)
      invariant HopsIn(net, p[k..], idx[k..])
      invariant g.adj[..] == AugmentPath(net, p[k..], idx[k..], b)
      decreases k
    {
      WalkBack(net, prevNode, prevEdge, p, idx, k);
      WalkBack(net, prevNode, prevEdge, p, idx, k - 1);
      AugmentStep(net, p, idx, b, k);
      var u := prevNode[v];
      var i := prevEdge[v];
      UpdateResidual(g, u, i, b);
      v := u;
      k := k - 1;
    }
    assert p[k..] == p && idx[k..] == idx;
  }

  /** Augmenting from the last vertex of a path changes nothing. */
  lemma AugmentFromLast(net: Net, p: seq<int>, idx: seq<int>, b: int)
    requires Linked(net) && HopsIn(net, p, idx)
    ensures HopsIn(net, p[|p| - 1..], idx[|p| - 1..])
    ensures AugmentPath(net, p[|p| - 1..], idx[|p| - 1..], b) == net
  {
    assert p[|p| - 1..] == [p[|p| - 1]] && idx[|p| - 1..] == [];
  }

  /** One step of the t -> s walk: augmenting from p[k-1] is augmenting from p[k] and then
      pushing over hop k-1. */
  lemma AugmentStep(net: Net, p: seq<int>, idx: seq<int>, b: int, k: int)
    requires Linked(net) && HopsIn(net, p, idx) && 0 < k < |p|
    ensures HopsIn(net, p[k..], idx[k..]) && HopsIn(net, p[k - 1..], idx[k - 1..])
    ensures var cur := AugmentPath(net, p[k..], idx[k..], b);
            && IsEdge(cur, p[k - 1], idx[k - 1]) && Paired(cur, p[k - 1], idx[k - 1])
            && cur[p[k - 1]][idx[k - 1]].to == p[k]
            && AugmentPath(net, p[k - 1..], idx[k - 1..], b) == PushNet(cur, p[k - 1], idx[k - 1], b)
  {
    HopsInFrom(net, p, idx, k);
    HopsInFrom(net, p, idx, k - 1);
    var cur := AugmentPath(net, p[k..], idx[k..], b);
    assert IsEdge(net, p[k - 1], idx[k - 1]);
    assert Paired(cur, p[k - 1], idx[k - 1]);
    assert p[k - 1..][1..] == p[k..] && idx[k - 1..][1..] == idx[k..];
  }

  /** The vertices of the tree path to t in s -> t order, written back to front into an
      array of exactly the right length. */
  method BuildPathNodes(s: int, t: int, prev: seq<int>, ghost depth: seq<int>) returns (nodes: seq<int>)
    requires Chain(s, prev, depth) && 0 <= t < |prev| && prev[t] != -1
    ensures nodes == TreePath(s, prev, depth, t)
    ensures |nodes| >= 1 && nodes[0] == s && nodes[|nodes| - 1] == t
    ensures forall k | 0 <= k < |nodes| :: 0 <= nodes[k] < |prev|
    ensures forall k {:trigger prev[nodes[k]]} | 0 < k < |nodes| :: prev[nodes[k]] == nodes[k - 1]
  {
    ghost var p := TreePath(s, prev, depth, t);
    var len := PathLength(s, t, prev, depth);
    var path := new int[len + 1];
    var idx := len;
    var v := t;
    while true
      invariant 0 <= idx <= len && v == p[idx]
      invariant forall k | idx < k <= len :: path[k] == p[k]
      decreases idx
    {
      path[idx] := v;
      idx := idx - 1;
      if v == s {
        break;
      }
      v := prev[v];
    }
    assert idx == -1;
    nodes := path[..];
    assert forall k | 0 <= k < |p| :: nodes[k] == p[k];
  }

  /** The first walk of the source's reconstruction: the number of parent links from t up
      to s. */
  method PathLength(s: int, t: int, prev: seq<int>, ghost depth: seq<int>) returns (len: int)
    requires Chain(s, prev, depth) && 0 <= t < |prev| && prev[t] != -1
    ensures len == |TreePath(s, prev, depth, t)| - 1
  {
    ghost var p := TreePath(s, prev, depth, t);
    len := 0;
    var v := t;
    while v != s
      invariant 0 <= len < |p| && v == p[|p| - 1 - len] && depth[v] == |p| - 1 - len
      decreases depth[v]
    {
      len := len + 1;
      v := prev[v];
    }
  }

  /** One round of an augmenting-path algorithm: sending b >= 1 units along a simple s-t path
      with at least b units everywhere keeps the network valid, sends b units from s to t, and
      takes b units of residual capacity away from s (the measure that bounds the rounds). */
  lemma AugmentRound(net: Net, p: seq<int>, idx: seq<int>, b: int)
    requires ValidNet(net) && AugPath(net, p, idx, b) && b >= 1 && p[0] != p[|p| - 1]
    ensures Linked(net)
    ensures var r := AugmentPath(net, p, idx, b);
            && ValidNet(r) && FlowMoved(net, r, p[0], p[|p| - 1], b)
            && 0 <= CapOut(r, p[0]) == CapOut(net, p[0]) - b
  {
    AugmentMoves(net, p, idx, b);
    AugmentSums(net, p, idx, b);
    CapOutNonneg(AugmentPath(net, p, idx, b), p[0]);
  }
}

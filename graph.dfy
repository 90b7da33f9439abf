/** The residual network object every algorithm mutates in place. */
module FlowGraph {
  import opened Residual
  import opened Conservation

  /** The two records addEdge(u, v, cap) appends: a forward record u -> v with capacity cap at
      the end of adj[u], then a reverse record v -> u with capacity 0 at the end of adj[v]. Both
      `rev` fields are the list lengths taken before either record is added. */
  function AddPair(net: Net, u: int, v: int, cap: int): Net
    requires 0 <= u < |net| && 0 <= v < |net|
  {
    var fwd := NewEdge(v, |net[v]|, cap, cap);
    var rev := NewEdge(u, |net[u]|, 0, 0);
    var mid := net[u := net[u] + [fwd]];
    mid[v := mid[v] + [rev]]
  }

  /** Appending a pair between distinct vertices, with a capacity that is not negative, to a
      valid network gives a valid network: the new records point at each other, and the
      existing records keep their positions and their partners. */
  lemma AddPairValid(net: Net, u: int, v: int, cap: int)
    requires ValidNet(net) && 0 <= u < |net| && 0 <= v < |net| && u != v && cap >= 0
    ensures ValidNet(AddPair(net, u, v, cap))
  {
    var r: Net := AddPair(net, u, v, cap);
    assert r[u] == net[u] + [NewEdge(v, |net[v]|, cap, cap)];
    assert r[v] == net[v] + [NewEdge(u, |net[u]|, 0, 0)];
    forall x, k | 0 <= x < |r| && 0 <= k < |r[x]| ensures ValidAt(r, x, k) {
      if (x, k) == (u, |net[u]|) {
        assert r[v][|net[v]|] == NewEdge(u, |net[u]|, 0, 0);
      } else if (x, k) == (v, |net[v]|) {
        assert r[u][|net[u]|] == NewEdge(v, |net[v]|, cap, cap);
      } else {
        assert r[x][k] == net[x][k];
        assert ValidAt(net, x, k);
        var y, l := net[x][k].to, net[x][k].rev;
        assert r[y][l] == net[y][l];
      }
    }
  }

  /** addEdge(u, u, cap) is not guarded against: both new records sit in adj[u], and the
      forward record names its own position as that of its reverse record, so the pairing
      breaks. Every algorithm therefore works on networks without such records. */
  lemma SelfLoopUnpaired(net: Net, u: int, cap: int)
    requires 0 <= u < |net|
    ensures var r := AddPair(net, u, u, cap);
            && |r[u]| == |net[u]| + 2
            && r[u][|net[u]|].to == u && r[u][|net[u]|].rev == |net[u]|
            && r[u][|net[u]| + 1].rev == |net[u]|
            && !Linked(r)
  {
    var r := AddPair(net, u, u, cap);
    assert r[u] == net[u] + [NewEdge(u, |net[u]|, cap, cap), NewEdge(u, |net[u]|, 0, 0)];
    assert !Paired(r, u, |net[u]|);
  }

  /** New records carry no flow, so a network built by addEdge alone carries none. */
  lemma AddPairNoFlow(net: Net, u: int, v: int, cap: int)
    requires NoFlow(net) && 0 <= u < |net| && 0 <= v < |net|
    ensures NoFlow(AddPair(net, u, v, cap))
  {
    var r: Net := AddPair(net, u, v, cap);
    var mid: Net := net[u := net[u] + [NewEdge(v, |net[v]|, cap, cap)]];
    forall x, k | 0 <= x < |mid| && 0 <= k < |mid[x]| ensures mid[x][k].flow == 0 {
      if k < |net[x]| {
        assert mid[x][k] == net[x][k];
      }
    }
    forall x, k | 0 <= x < |r| && 0 <= k < |r[x]| ensures r[x][k].flow == 0 {
      if k < |mid[x]| {
        assert r[x][k] == mid[x][k];
      }
    }
  }

  class Graph {
    /** Number of vertices; vertices are 0 .. n-1. */
    const n: nat
    /** adj[u] is the list of residual records out of u. */
    const adj: array<seq<Edge>>

    ghost predicate Shaped() {
      adj.Length == n
    }

    /** The class invariant: one list per vertex, forming a valid residual network. */
    ghost predicate Valid()
      reads adj
    {
      Shaped() && ValidNet(adj[..])
    }

    /** n vertices, no records. */
    constructor (n: nat)
      ensures this.n == n && Shaped() && fresh(adj)
      ensures forall u | 0 <= u < n :: adj[u] == []
      ensures Valid() && NoFlow(adj[..])
    {
      this.n := n;
      var lists := new seq<Edge>[n];
      for i := 0 to n
        invariant forall k | 0 <= k < i :: lists[k] == []
      {
        lists[i] := [];
      }
      adj := lists;
    }

    /** Wraps lists built by CloneGraph. */
    constructor FromLists(n: nat, lists: array<seq<Edge>>)
      requires lists.Length == n
      ensures this.n == n && adj == lists
    {
      this.n := n;
      adj := lists;
    }

    function Size(): nat {
      n
    }

    function Adj(u: int): seq<Edge>
      reads adj
      requires 0 <= u < adj.Length
    {
      adj[u]
    }

    /** addEdge: appends the forward record to adj[u], then the reverse record to adj[v]. */
    method AddEdge(u: int, v: int, cap: int)
      requires Shaped() && 0 <= u < n && 0 <= v < n
      modifies adj
      ensures u != v ==> adj[u] == old(adj[u]) + [NewEdge(v, |old(adj[v])|, cap, cap)]
      ensures u != v ==> adj[v] == old(adj[v]) + [NewEdge(u, |old(adj[u])|, 0, 0)]
      ensures u == v ==> adj[u] == old(adj[u]) + [NewEdge(u, |old(adj[u])|, cap, cap),
                                                  NewEdge(u, |old(adj[u])|, 0, 0)]
      ensures forall x | 0 <= x < n && x != u && x != v :: adj[x] == old(adj[x])
      ensures adj[..] == AddPair(old(adj[..]), u, v, cap)
      ensures old(Valid()) && u != v && cap >= 0 ==> Valid()
    {
      ghost var before := adj[..];
      var fwd := NewEdge(v, |adj[v]|, cap, cap);
      var rev := NewEdge(u, |adj[u]|, 0, 0);
      adj[u] := adj[u] + [fwd];
      adj[v] := adj[v] + [rev];
      assert adj[..] == AddPair(before, u, v, cap);
      if ValidNet(before) && u != v && cap >= 0 {
        AddPairValid(before, u, v, cap);
      }
    }

    /** A deep snapshot: new lists holding records equal in every field. */
    method CloneGraph() returns (c: Graph)
      requires Shaped()
      ensures fresh(c) && fresh(c.adj) && c.n == n && c.Shaped()
      ensures c.adj[..] == adj[..]
    {
      var copy := new seq<Edge>[n];
      for u := 0 to n
        invariant forall k | 0 <= k < u :: copy[k] == []
      {
        copy[u] := [];
      }
      for u := 0 to n
        invariant forall k | 0 <= k < u :: copy[k] == adj[k]
        invariant forall k | u <= k < n :: copy[k] == []
      {
        var rowOrig := adj[u];
        for i := 0 to |rowOrig|
          invariant copy[u] == rowOrig[..i]
          invariant forall k | 0 <= k < u :: copy[k] == adj[k]
          invariant forall k | u < k < n :: copy[k] == []
        {
          var e := rowOrig[i];
          var ne := NewEdge(e.to, e.rev, e.cap, e.origCap);
          ne := ne.(flow := e.flow);
          copy[u] := copy[u] + [ne];
        }
      }
      c := new Graph.FromLists(n, copy);
    }
  }

  /** The four field updates every algorithm does when it sends amt units over the record at
      (u, i): e.cap -= amt, e.flow += amt on the record, the opposite on its reverse record. */
  method UpdateResidual(g: Graph, u: int, i: int, amt: int)
    requires g.Shaped() && IsEdge(g.adj[..], u, i) && Paired(g.adj[..], u, i)
    modifies g.adj
    ensures g.adj[..] == PushNet(old(g.adj[..]), u, i, amt)
  {
    ghost var cur: Net := g.adj[..];
    var e := g.adj[u][i];
    var rv := g.adj[e.to][e.rev];
    var rowU := g.adj[u][i := e.(cap := e.cap - amt, flow := e.flow + amt)];
    var rowV := g.adj[e.to][e.rev := rv.(cap := rv.cap + amt, flow := rv.flow - amt)];
    g.adj[u] := rowU;
    g.adj[e.to] := rowV;
    assert g.adj[..] == cur[u := rowU][e.to := rowV];
  }
}

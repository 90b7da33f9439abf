/** The residual network shared by every algorithm: edge records, the invariants that pair a
    forward record with its reverse record, and the one residual update all algorithms do. */
module Residual {

  /** Long.MAX_VALUE / 4, the "unbounded" start value of every bottleneck and of Dinic's DFS. */
  const INF: int := 0x7FFF_FFFF_FFFF_FFFF / 4

  /** One directed residual record u -> to, stored in the adjacency list of u. `rev` is the
      position of the paired record in the adjacency list of `to`. */
  datatype Edge = Edge(to: int, rev: int, cap: int, flow: int, origCap: int)

  /** The Edge constructor: stores the four given fields and starts with no flow. */
  function NewEdge(to: int, rev: int, cap: int, origCap: int): (e: Edge)
    ensures e.to == to && e.rev == rev && e.cap == cap && e.origCap == origCap
    ensures e.flow == 0
  {
    Edge(to, rev, cap, 0, origCap)
  }

  /** The value of a residual network: adjacency list of vertex u at position u. */
  type Net = seq<seq<Edge>>

  ghost predicate IsEdge(net: Net, u: int, i: int) {
    0 <= u < |net| && 0 <= i < |net[u]|
  }

  /** The record at (u, i) and the record its `rev` names point at each other, and the record
      is not a self-loop (addEdge is only used with distinct end points). */
  ghost predicate Paired(net: Net, u: int, i: int)
    requires IsEdge(net, u, i)
  {
    var e := net[u][i];
    && 0 <= e.to < |net| && e.to != u && 0 <= e.rev < |net[e.to]|
    && net[e.to][e.rev].to == u && net[e.to][e.rev].rev == i
  }

  /** Every record is paired. */
  ghost predicate Linked(net: Net) {
    forall u, i | 0 <= u < |net| && 0 <= i < |net[u]| :: Paired(net, u, i)
  }

  /** The residual invariants at one record: capacity never negative, cap + flow
      constant (equal to origCap), the pair's total capacity constant, and at most one side of
      a pair is an original edge. */
  ghost predicate RecordOK(net: Net, u: int, i: int)
    requires IsEdge(net, u, i) && Paired(net, u, i)
  {
    var e := net[u][i];
    var p := net[e.to][e.rev];
    && e.cap >= 0 && e.origCap >= 0 && e.cap + e.flow == e.origCap
    && e.cap + p.cap == e.origCap + p.origCap
    && (e.origCap == 0 || p.origCap == 0)
  }

  ghost predicate ValidAt(net: Net, u: int, i: int) {
    IsEdge(net, u, i) && Paired(net, u, i) && RecordOK(net, u, i)
  }

  /** The invariant of a residual network. */
  ghost predicate ValidNet(net: Net) {
    forall u, i | 0 <= u < |net| && 0 <= i < |net[u]| :: ValidAt(net, u, i)
  }

  /** Same lists, same record positions and the same `to`, `rev` and `origCap` everywhere:
      only `cap` and `flow` may differ. */
  ghost predicate SameShape(a: Net, b: Net) {
    && |a| == |b|
    && (forall u | 0 <= u < |a| :: |a[u]| == |b[u]|)
    && forall u, i | 0 <= u < |a| && 0 <= i < |a[u]| ::
         && a[u][i].to == b[u][i].to && a[u][i].rev == b[u][i].rev
         && a[u][i].origCap == b[u][i].origCap
  }

  lemma SameShapeLinked(a: Net, b: Net)
    requires Linked(a) && SameShape(a, b)
    ensures Linked(b)
  {
    forall u, i | 0 <= u < |b| && 0 <= i < |b[u]| ensures Paired(b, u, i) {
      assert Paired(a, u, i);
      var e := a[u][i];
      assert b[e.to][e.rev].to == a[e.to][e.rev].to;
    }
  }

  lemma SameShapeTrans(a: Net, b: Net, c: Net)
    requires SameShape(a, b) && SameShape(b, c)
    ensures SameShape(a, c)
  {
  }

  lemma ValidIsLinked(net: Net)
    requires ValidNet(net)
    ensures Linked(net)
  {
    forall u, i | 0 <= u < |net| && 0 <= i < |net[u]| ensures Paired(net, u, i) {
      assert ValidAt(net, u, i);
    }
  }

  /** Sending `amt` units over the record at (u, i): its cap goes down and its flow up by `amt`,
      and the paired record gets the opposite update. */
  function PushNet(net: Net, u: int, i: int, amt: int): (r: Net)
    requires IsEdge(net, u, i) && Paired(net, u, i)
    ensures SameShape(net, r)
    ensures forall x | 0 <= x < |net| && x != u && x != net[u][i].to :: r[x] == net[x]
  {
    var e := net[u][i];
    var p := net[e.to][e.rev];
    net[u := net[u][i := e.(cap := e.cap - amt, flow := e.flow + amt)]]
       [e.to := net[e.to][e.rev := p.(cap := p.cap + amt, flow := p.flow - amt)]]
  }

  /** The tail's list after a push: only the pushed record changed. */
  lemma PushRow(net: Net, u: int, i: int, amt: int)
    requires IsEdge(net, u, i) && Paired(net, u, i) && net[u][i].to != u
    ensures var e := net[u][i];
            PushNet(net, u, i, amt)[u] == net[u][i := e.(cap := e.cap - amt, flow := e.flow + amt)]
  {
  }

  /** A push that does not exceed the residual capacity keeps the network valid. */
  lemma PushKeepsValid(net: Net, u: int, i: int, amt: int)
    requires ValidNet(net) && IsEdge(net, u, i) && 0 <= amt <= net[u][i].cap
    ensures Paired(net, u, i) && ValidNet(PushNet(net, u, i, amt))
  {
    assert ValidAt(net, u, i);
    var r := PushNet(net, u, i, amt);
    var v, j := net[u][i].to, net[u][i].rev;
    forall x, k | 0 <= x < |r| && 0 <= k < |r[x]| ensures ValidAt(r, x, k) {
      assert ValidAt(net, x, k);
      var y, l := net[x][k].to, net[x][k].rev;
      assert ValidAt(net, y, l);
      if (x, k) == (u, i) {
      } else if (x, k) == (v, j) {
      } else {
        assert (y, l) != (u, i) && (y, l) != (v, j);
        assert r[x][k] == net[x][k] && r[y][l] == net[y][l];
      }
    }
  }

  /** Sum of the residual capacities of one adjacency list. */
  function SumCap(row: seq<Edge>): int {
    if row == [] then 0 else SumCap(row[..|row| - 1]) + row[|row| - 1].cap
  }

  /** Sum of the flows of one adjacency list: the net flow out of its vertex, because every
      reverse record carries the negated flow of its forward record. */
  function SumFlow(row: seq<Edge>): int {
    if row == [] then 0 else SumFlow(row[..|row| - 1]) + row[|row| - 1].flow
  }

  /** Net flow out of vertex x. */
  function FlowOut(net: Net, x: int): int
    requires 0 <= x < |net|
  {
    SumFlow(net[x])
  }

  /** Residual capacity out of vertex x. */
  function CapOut(net: Net, x: int): int
    requires 0 <= x < |net|
  {
    SumCap(net[x])
  }

  lemma {:induction false} SumUpdate(row: seq<Edge>, k: int, e: Edge)
    requires 0 <= k < |row|
    ensures SumCap(row[k := e]) == SumCap(row) - row[k].cap + e.cap
    ensures SumFlow(row[k := e]) == SumFlow(row) - row[k].flow + e.flow
  {
    var m := |row| - 1;
    if k < m {
      SumUpdate(row[..m], k, e);
      assert row[k := e][..m] == row[..m][k := e];
    } else {
      assert row[k := e][..m] == row[..m];
    }
  }

  lemma {:induction false} SumCapNonneg(row: seq<Edge>)
    requires forall k | 0 <= k < |row| :: row[k].cap >= 0
    ensures SumCap(row) >= 0
  {
    if row != [] {
      SumCapNonneg(row[..|row| - 1]);
    }
  }

  lemma CapOutNonneg(net: Net, x: int)
    requires ValidNet(net) && 0 <= x < |net|
    ensures CapOut(net, x) >= 0
  {
    forall k | 0 <= k < |net[x]| ensures net[x][k].cap >= 0 {
      assert ValidAt(net, x, k);
    }
    SumCapNonneg(net[x]);
  }

  /** A push moves `amt` of net outflow from the tail to the head and `amt` of residual
      capacity the other way; every other vertex keeps its sums. */
  lemma PushSums(net: Net, u: int, i: int, amt: int)
    requires IsEdge(net, u, i) && Paired(net, u, i)
    ensures var r := PushNet(net, u, i, amt);
            forall x | 0 <= x < |net| ::
              && SumFlow(r[x]) == SumFlow(net[x]) + (if x == u then amt else 0)
                                                  - (if x == net[u][i].to then amt else 0)
              && SumCap(r[x]) == SumCap(net[x]) - (if x == u then amt else 0)
                                                + (if x == net[u][i].to then amt else 0)
  {
    var e := net[u][i];
    var p := net[e.to][e.rev];
    var ru := net[u][i := e.(cap := e.cap - amt, flow := e.flow + amt)];
    var rv := net[e.to][e.rev := p.(cap := p.cap + amt, flow := p.flow - amt)];
    SumUpdate(net[u], i, e.(cap := e.cap - amt, flow := e.flow + amt));
    SumUpdate(net[e.to], e.rev, p.(cap := p.cap + amt, flow := p.flow - amt));
    var r := PushNet(net, u, i, amt);
    assert r[u] == ru && r[e.to] == rv;
  }

  /** The records of a node path p: hop k is the record idx[k] of p[k], and it leads to p[k+1]. */
  ghost predicate HopsIn(net: Net, p: seq<int>, idx: seq<int>) {
    && |p| >= 1 && |idx| == |p| - 1
    && (forall k | 0 <= k < |p| :: 0 <= p[k] < |net|)
    && forall k | 0 <= k < |idx| :: IsEdge(net, p[k], idx[k]) && net[p[k]][idx[k]].to == p[k + 1]
  }

  /** p is a simple path whose every record has at least `b` units of residual capacity. */
  ghost predicate AugPath(net: Net, p: seq<int>, idx: seq<int>, b: int) {
    && HopsIn(net, p, idx)
    && (forall k, l | 0 <= k < l < |p| :: p[k] != p[l])
    && forall k | 0 <= k < |idx| :: net[p[k]][idx[k]].cap >= b
  }

  lemma HopsInSuffix(net: Net, p: seq<int>, idx: seq<int>)
    requires HopsIn(net, p, idx) && |p| > 1
    ensures HopsIn(net, p[1..], idx[1..])
  {
    forall k | 0 <= k < |idx| - 1
      ensures IsEdge(net, p[1..][k], idx[1..][k]) && net[p[1..][k]][idx[1..][k]].to == p[1..][k + 1]
    {
      assert p[1..][k] == p[k + 1] && idx[1..][k] == idx[k + 1] && p[1..][k + 1] == p[k + 2];
    }
  }

  lemma HopsInShape(a: Net, b: Net, p: seq<int>, idx: seq<int>)
    requires HopsIn(a, p, idx) && SameShape(a, b)
    ensures HopsIn(b, p, idx)
  {
    forall k | 0 <= k < |idx| ensures IsEdge(b, p[k], idx[k]) && b[p[k]][idx[k]].to == p[k + 1] {
      assert IsEdge(a, p[k], idx[k]);
    }
  }

  /** The residual update of augmenting by `b` along the path p: the hops nearest the end are
      applied first, the first hop last, the order in which every algorithm here writes them. */
  function AugmentPath(net: Net, p: seq<int>, idx: seq<int>, b: int): (r: Net)
    requires Linked(net) && HopsIn(net, p, idx)
    ensures SameShape(net, r) && Linked(r)
    ensures forall x | 0 <= x < |net| && x !in p :: r[x] == net[x]
    decreases |p|
  {
    if |p| == 1 then net
    else
      HopsInSuffix(net, p, idx);
      var rest := AugmentPath(net, p[1..], idx[1..], b);
      assert IsEdge(net, p[0], idx[0]) && net[p[0]][idx[0]].to == p[1];
      var r := PushNet(rest, p[0], idx[0], b);
      SameShapeTrans(net, rest, r);
      SameShapeLinked(net, r);
      r
  }

  /** Augmenting along a simple path whose capacities are all at least b keeps the network valid. */
  lemma {:induction false} AugmentKeepsValid(net: Net, p: seq<int>, idx: seq<int>, b: int)
    requires ValidNet(net) && AugPath(net, p, idx, b) && b >= 0
    ensures Linked(net) && ValidNet(AugmentPath(net, p, idx, b))
    decreases |p|
  {
    ValidIsLinked(net);
    if |p| > 1 {
      HopsInSuffix(net, p, idx);
      assert AugPath(net, p[1..], idx[1..], b) by {
        forall k, l | 0 <= k < l < |p| - 1 ensures p[1..][k] != p[1..][l] {
          assert p[1..][k] == p[k + 1] && p[1..][l] == p[l + 1];
        }
        forall k | 0 <= k < |idx| - 1 ensures net[p[1..][k]][idx[1..][k]].cap >= b {
          assert p[1..][k] == p[k + 1] && idx[1..][k] == idx[k + 1];
        }
      }
      AugmentKeepsValid(net, p[1..], idx[1..], b);
      var rest := AugmentPath(net, p[1..], idx[1..], b);
      assert p[0] !in p[1..] by {
        forall k | 0 <= k < |p| - 1 ensures p[1..][k] != p[0] {
          assert p[1..][k] == p[k + 1];
        }
      }
      assert rest[p[0]] == net[p[0]];
      PushKeepsValid(rest, p[0], idx[0], b);
    }
  }

  /** Augmenting along a path adds b to the net outflow of its first vertex and takes b from
      that of its last vertex (and the reverse for residual capacity); inner vertices keep
      their sums. */
  lemma {:induction false} AugmentSums(net: Net, p: seq<int>, idx: seq<int>, b: int)
    requires Linked(net) && HopsIn(net, p, idx)
    ensures var r := AugmentPath(net, p, idx, b);
            forall x | 0 <= x < |net| ::
              && FlowOut(r, x) == FlowOut(net, x) + (if x == p[0] then b else 0)
                                                  - (if x == p[|p| - 1] then b else 0)
              && CapOut(r, x) == CapOut(net, x) - (if x == p[0] then b else 0)
                                                + (if x == p[|p| - 1] then b else 0)
    decreases |p|
  {
    if |p| > 1 {
      HopsInSuffix(net, p, idx);
      AugmentSums(net, p[1..], idx[1..], b);
      var rest := AugmentPath(net, p[1..], idx[1..], b);
      HopsInShape(net, rest, p, idx);
      PushSums(rest, p[0], idx[0], b);
      assert p[1..][0] == p[1] && p[1..][|p| - 2] == p[|p| - 1];
    }
  }
}

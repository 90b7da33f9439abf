/** The flow balance the validators check, and how augmentation moves it. Only original
    records (origCap > 0) take part: the tail loses their flow and the head gains it. */
module Conservation {
  import opened Residual

  /** What one record adds to the balance of vertex x when it sits in the list of vertex u. */
  function Contribution(e: Edge, u: int, x: int): int {
    if e.origCap > 0 then (if e.to == x then e.flow else 0) - (if u == x then e.flow else 0)
    else 0
  }

  function RowBalance(row: seq<Edge>, u: int, x: int): int {
    if row == [] then 0 else RowBalance(row[..|row| - 1], u, x) + Contribution(row[|row| - 1], u, x)
  }

  /** Balance of x over the adjacency lists of the vertices below k. */
  function BalanceUpTo(net: Net, k: int, x: int): int
    requires 0 <= k <= |net|
  {
    if k == 0 then 0 else BalanceUpTo(net, k - 1, x) + RowBalance(net[k - 1], k - 1, x)
  }

  /** Flow into x minus flow out of x, over original records. */
  function Balance(net: Net, x: int): int {
    BalanceUpTo(net, |net|, x)
  }

  /** Flow conservation at every vertex other than s and t. */
  ghost predicate Conserved(net: Net, s: int, t: int) {
    forall x | 0 <= x < |net| && x != s && x != t :: Balance(net, x) == 0
  }

  /** No record carries flow: the state addEdge builds. */
  ghost predicate NoFlow(net: Net) {
    forall u, i | 0 <= u < |net| && 0 <= i < |net[u]| :: net[u][i].flow == 0
  }

  lemma {:induction false} RowBalanceUpdate(row: seq<Edge>, u: int, k: int, e: Edge, x: int)
    requires 0 <= k < |row|
    ensures RowBalance(row[k := e], u, x)
         == RowBalance(row, u, x) - Contribution(row[k], u, x) + Contribution(e, u, x)
  {
    var m := |row| - 1;
    if k < m {
      RowBalanceUpdate(row[..m], u, k, e, x);
      assert row[k := e][..m] == row[..m][k := e];
    } else {
      assert row[k := e][..m] == row[..m];
    }
  }

  lemma {:induction false} BalanceUpToUpdate(net: Net, w: int, k: int, e: Edge, x: int, K: int)
    requires IsEdge(net, w, k) && 0 <= K <= |net|
    ensures BalanceUpTo(net[w := net[w][k := e]], K, x)
         == BalanceUpTo(net, K, x)
            + (if w < K then Contribution(e, w, x) - Contribution(net[w][k], w, x) else 0)
    decreases K
  {
    if K > 0 {
      BalanceUpToUpdate(net, w, k, e, x, K - 1);
      if K - 1 == w {
        RowBalanceUpdate(net[w], w, k, e, x);
      }
    }
  }

  /** Changing one record changes each balance by the difference of its contributions. */
  lemma BalanceUpdate(net: Net, w: int, k: int, e: Edge, x: int)
    requires IsEdge(net, w, k)
    ensures Balance(net[w := net[w][k := e]], x)
         == Balance(net, x) - Contribution(net[w][k], w, x) + Contribution(e, w, x)
  {
    BalanceUpToUpdate(net, w, k, e, x, |net|);
  }

  /** A push of amt over u -> v moves amt of balance from u to v, whichever side of the pair is
      the original record. */
  lemma PushBalance(net: Net, u: int, i: int, amt: int)
    requires ValidNet(net) && IsEdge(net, u, i) && 0 <= amt <= net[u][i].cap
    ensures Paired(net, u, i)
    ensures forall x | 0 <= x < |net| ::
              Balance(PushNet(net, u, i, amt), x)
              == Balance(net, x) - (if x == u then amt else 0) + (if x == net[u][i].to then amt else 0)
  {
    assert ValidAt(net, u, i);
    var e := net[u][i];
    var v, j := e.to, e.rev;
    var p := net[v][j];
    assert ValidAt(net, v, j);
    var e' := e.(cap := e.cap - amt, flow := e.flow + amt);
    var p' := p.(cap := p.cap + amt, flow := p.flow - amt);
    var mid := net[u := net[u][i := e']];
    assert mid[v] == net[v];
    assert PushNet(net, u, i, amt) == mid[v := mid[v][j := p']];
    forall x | 0 <= x < |net|
      ensures Balance(PushNet(net, u, i, amt), x)
              == Balance(net, x) - (if x == u then amt else 0) + (if x == v then amt else 0)
    {
      BalanceUpdate(net, u, i, e', x);
      BalanceUpdate(mid, v, j, p', x);
    }
  }

  /** Augmenting a simple path by b moves b of balance from its first to its last vertex. */
  lemma {:induction false} AugmentBalance(net: Net, p: seq<int>, idx: seq<int>, b: int)
    requires ValidNet(net) && AugPath(net, p, idx, b) && b >= 0
    ensures Linked(net)
    ensures forall x | 0 <= x < |net| ::
              Balance(AugmentPath(net, p, idx, b), x)
              == Balance(net, x) - (if x == p[0] then b else 0) + (if x == p[|p| - 1] then b else 0)
    decreases |p|
  {
    ValidIsLinked(net);
    if |p| > 1 {
      HopsInSuffix(net, p, idx);
      assert AugPath(net, p[1..], idx[1..], b) by {
        forall k, l | 0 <= k < l < |p| - 1 ensures p[1..][k] != p[1..][l] {
          assert p[1..][k] == p[k + 1] && p[1..][l] == p[l + 1];
        }
        forall k | 0 <= k < |idx| - 1 ensures net[p[1..][k]][idx[1..][k]].cap >= b {
          assert p[1..][k] == p[k + 1] && idx[1..][k] == idx[k + 1];
        }
      }
      AugmentBalance(net, p[1..], idx[1..], b);
      AugmentKeepsValid(net, p[1..], idx[1..], b);
      var rest := AugmentPath(net, p[1..], idx[1..], b);
      assert p[0] !in p[1..] by {
        forall k | 0 <= k < |p| - 1 ensures p[1..][k] != p[0] {
          assert p[1..][k] == p[k + 1];
        }
      }
      assert rest[p[0]] == net[p[0]];
      PushBalance(rest, p[0], idx[0], b);
      assert p[1..][0] == p[1] && p[1..][|p| - 2] == p[|p| - 1];
    }
  }

  lemma {:induction false} NoFlowRow(row: seq<Edge>, u: int, x: int)
    requires forall i | 0 <= i < |row| :: row[i].flow == 0
    ensures RowBalance(row, u, x) == 0
  {
    if row != [] {
      NoFlowRow(row[..|row| - 1], u, x);
    }
  }

  lemma {:induction false} NoFlowUpTo(net: Net, k: int, x: int)
    requires NoFlow(net) && 0 <= k <= |net|
    ensures BalanceUpTo(net, k, x) == 0
    decreases k
  {
    if k > 0 {
      NoFlowUpTo(net, k - 1, x);
      NoFlowRow(net[k - 1], k - 1, x);
    }
  }

  /** A network that carries no flow conserves flow everywhere. */
  lemma NoFlowConserved(net: Net, s: int, t: int)
    requires NoFlow(net)
    ensures Conserved(net, s, t)
  {
    forall x | 0 <= x < |net| && x != s && x != t ensures Balance(net, x) == 0 {
      NoFlowUpTo(net, |net|, x);
    }
  }

  /** b is obtained from a by sending `value` units from s to t: the net outflow of s grows
      by `value`, that of t shrinks by `value`, and the balance of every inner vertex and the
      record layout stay as they were. */
  ghost predicate FlowMoved(a: Net, b: Net, s: int, t: int, value: int) {
    && SameShape(a, b)
    && forall x | 0 <= x < |a| ::
         && FlowOut(b, x) == FlowOut(a, x) + (if x == s then value else 0) - (if x == t then value else 0)
         && Balance(b, x) == Balance(a, x) - (if x == s then value else 0) + (if x == t then value else 0)
  }

  lemma MovedNothing(a: Net, s: int, t: int)
    ensures FlowMoved(a, a, s, t, 0)
  {
  }

  lemma MovedTrans(a: Net, b: Net, c: Net, s: int, t: int, v: int, w: int)
    requires FlowMoved(a, b, s, t, v) && FlowMoved(b, c, s, t, w)
    ensures FlowMoved(a, c, s, t, v + w)
  {
    SameShapeTrans(a, b, c);
  }

  /** Augmenting a simple s-t path by b sends b units from s to t. */
  lemma AugmentMoves(net: Net, p: seq<int>, idx: seq<int>, b: int)
    requires ValidNet(net) && AugPath(net, p, idx, b) && b >= 0
    ensures Linked(net) && ValidNet(AugmentPath(net, p, idx, b))
    ensures FlowMoved(net, AugmentPath(net, p, idx, b), p[0], p[|p| - 1], b)
  {
    AugmentKeepsValid(net, p, idx, b);
    AugmentSums(net, p, idx, b);
    AugmentBalance(net, p, idx, b);
  }

  /** Conservation at inner vertices survives any amount sent from s to t. */
  lemma MovedConserved(a: Net, b: Net, s: int, t: int, value: int)
    requires FlowMoved(a, b, s, t, value) && Conserved(a, s, t)
    ensures Conserved(b, s, t)
  {
    forall x | 0 <= x < |b| && x != s && x != t ensures Balance(b, x) == 0 {
      assert Balance(a, x) == 0;
    }
  }
}

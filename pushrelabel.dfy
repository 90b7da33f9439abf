/** The preflow theory behind Goldberg-Tarjan push-relabel, stated on the values of the
    algorithm's fields: the step functions push and relabel stand for, the invariants every
    step keeps (a preflow whose excesses sum to 0, a valid height labelling with current-arc
    pointers, a FIFO queue holding exactly the active vertices), and what an empty queue
    means (a maximum flow: t can no longer be reached from s). */
module PushRelabel {
  import opened Residual
  import opened Paths
  import opened Conservation

  /** The values of the fields of one run, together with the network: height, excess, the
      FIFO activeQ, inQ and the current-arc pointers ptr. */
  datatype PR = PR(net: Net, height: seq<int>, excess: seq<int>, queue: seq<int>, inQ: seq<bool>,
                   ptr: seq<int>)

  function Min(a: int, b: int): int {
    if a < b then a else b
  }

  /** The sum of all excesses. */
  function Total(ex: seq<int>): int {
    if ex == [] then 0 else Total(ex[..|ex| - 1]) + ex[|ex| - 1]
  }

  lemma {:induction false} TotalUpdate(ex: seq<int>, k: int, v: int)
    requires 0 <= k < |ex|
    ensures Total(ex[k := v]) == Total(ex) - ex[k] + v
    decreases |ex|
  {
    var n := |ex|;
    if k < n - 1 {
      assert ex[k := v][..n - 1] == ex[..n - 1][k := v];
      TotalUpdate(ex[..n - 1], k, v);
    } else {
      assert ex[k := v][..n - 1] == ex[..n - 1];
    }
  }

  /** When every entry other than those at s and t is 0, the sum is made of those two. */
  lemma {:induction false} TotalSupport(ex: seq<int>, s: int, t: int)
    requires forall x | 0 <= x < |ex| && x != s && x != t :: ex[x] == 0
    ensures Total(ex) == (if 0 <= s < |ex| then ex[s] else 0) + (if 0 <= t < |ex| && t != s then ex[t] else 0)
    decreases |ex|
  {
    if ex != [] {
      var n := |ex|;
      assert forall x | 0 <= x < n - 1 :: ex[..n - 1][x] == ex[x];
      TotalSupport(ex[..n - 1], s, t);
    }
  }

  /** The record at (u, i) is admissible: residual capacity left and one height step down. */
  ghost predicate Admissible(net: Net, h: seq<int>, u: int, i: int) {
    && 0 <= u < |net| && 0 <= i < |net[u]| && |h| == |net| && 0 <= net[u][i].to < |net|
    && net[u][i].cap > 0 && h[u] == h[net[u][i].to] + 1
  }

  /** Some record of u at position k or later is admissible. */
  ghost predicate AdmissibleFrom(net: Net, h: seq<int>, u: int, k: int) {
    exists j | k <= j :: Admissible(net, h, u, j)
  }

  /** The number of residual records in a list. */
  function ResCount(row: seq<Edge>): nat {
    if row == [] then 0 else ResCount(row[..|row| - 1]) + (if row[|row| - 1].cap > 0 then 1 else 0)
  }

  lemma {:induction false} ResCountDrop(row: seq<Edge>, i: int, e: Edge)
    requires 0 <= i < |row| && row[i].cap > 0 && e.cap <= 0
    ensures ResCount(row[i := e]) == ResCount(row) - 1
    decreases |row|
  {
    var n := |row|;
    if i < n - 1 {
      assert row[i := e][..n - 1] == row[..n - 1][i := e];
      ResCountDrop(row[..n - 1], i, e);
    } else {
      assert row[i := e][..n - 1] == row[..n - 1];
    }
  }

  /** m is the least height over the residual records of row. */
  ghost predicate IsLowest(row: seq<Edge>, h: seq<int>, m: int) {
    && (exists j | 0 <= j < |row| && row[j].cap > 0 && 0 <= row[j].to < |h| :: h[row[j].to] == m)
    && (forall j | 0 <= j < |row| && row[j].cap > 0 && 0 <= row[j].to < |h| :: m <= h[row[j].to])
  }

  // ---------------------------------------------------------------------------------------
  // The steps
  // ---------------------------------------------------------------------------------------

  /** Activation after v gained excess: v joins the queue unless it is s or t, is queued
      already, or has no excess. */
  function Activate(st: PR, v: int, s: int, t: int): PR
    requires 0 <= v < |st.inQ| && v < |st.excess|
  {
    if v != s && v != t && !st.inQ[v] && st.excess[v] > 0
    then st.(queue := st.queue + [v], inQ := st.inQ[v := true])
    else st
  }

  /** Sending amt over the record at (u, i): the residual update of the record and its pair,
      amt of excess from u to the head v, and the activation of v. */
  function SendStep(st: PR, u: int, i: int, amt: int, s: int, t: int): PR
    requires IsEdge(st.net, u, i) && Paired(st.net, u, i)
    requires |st.excess| == |st.net| && |st.inQ| == |st.net|
  {
    var v := st.net[u][i].to;
    var ex := st.excess[u := st.excess[u] - amt];
    Activate(st.(net := PushNet(st.net, u, i, amt), excess := ex[v := ex[v] + amt]), v, s, t)
  }

  /** push: send min(excess[u], cap) over the record, nothing if that is not positive. */
  function PushStep(st: PR, u: int, i: int, s: int, t: int): PR
    requires IsEdge(st.net, u, i) && Paired(st.net, u, i)
    requires |st.excess| == |st.net| && |st.inQ| == |st.net|
  {
    var send := Min(st.excess[u], st.net[u][i].cap);
    if send <= 0 then st else SendStep(st, u, i, send, s, t)
  }

  // ---------------------------------------------------------------------------------------
  // The invariants
  // ---------------------------------------------------------------------------------------

  ghost predicate Sized(st: PR, s: int, t: int) {
    && |st.height| == |st.net| && |st.excess| == |st.net| && |st.inQ| == |st.net|
    && |st.ptr| == |st.net| && 0 <= s < |st.net| && 0 <= t < |st.net|
  }

  /** The excesses account for the flow moved since init: the net outflow of every vertex went
      down by its excess and its balance up by it; they sum to 0, and only s can be in debt. */
  ghost predicate Preflow(init: Net, st: PR, s: int) {
    PreflowOf(init, st.net, st.excess, s)
  }

  ghost predicate PreflowOf(init: Net, net: Net, ex: seq<int>, s: int) {
    && ValidNet(init) && ValidNet(net) && SameShape(init, net) && |ex| == |init|
    && (forall x | 0 <= x < |init| ::
          && FlowOut(net, x) == FlowOut(init, x) - ex[x]
          && Balance(net, x) == Balance(init, x) + ex[x])
    && Total(ex) == 0
    && (forall x | 0 <= x < |init| && x != s :: ex[x] >= 0)
  }

  /** inQ marks exactly the queued vertices; the queue holds no vertex twice and never s or t;
      every other vertex with excess is queued, except `exempt`, the vertex being discharged. */
  ghost predicate Queued(st: PR, s: int, t: int, exempt: int) {
    && |st.inQ| == |st.net| && |st.excess| == |st.net|
    && (forall v | 0 <= v < |st.net| :: st.inQ[v] <==> v in st.queue)
    && (forall k | 0 <= k < |st.queue| :: 0 <= st.queue[k] < |st.net| && st.queue[k] != s && st.queue[k] != t)
    && (forall k, l | 0 <= k < l < |st.queue| :: st.queue[k] != st.queue[l])
    && (forall v | 0 <= v < |st.net| && v != s && v != t && v != exempt && st.excess[v] > 0 :: st.inQ[v])
  }

  /** A valid labelling: a residual record never climbs more than one step down; no record
      behind a current-arc pointer is admissible; s stays at height n, t at 0. */
  ghost predicate Labelled(st: PR, s: int, t: int) {
    LabelledOf(st.net, st.height, st.ptr, s, t)
  }

  ghost predicate LabelledOf(net: Net, h: seq<int>, ptr: seq<int>, s: int, t: int) {
    && InRange(net) && |h| == |net| && |ptr| == |net| && 0 <= s < |net| && 0 <= t < |net|
    && (forall u, i | 0 <= u < |net| && 0 <= i < |net[u]| && net[u][i].cap > 0 :: h[u] <= h[net[u][i].to] + 1)
    && (forall v | 0 <= v < |net| :: 0 <= ptr[v] <= |net[v]|)
    && (forall v, j | 0 <= v < |net| && 0 <= j < ptr[v] :: !Admissible(net, h, v, j))
    && h[s] == |net| && (s != t ==> h[t] == 0)
  }

  ghost predicate Inv(init: Net, st: PR, s: int, t: int, exempt: int) {
    Sized(st, s, t) && Preflow(init, st, s) && Queued(st, s, t, exempt) && Labelled(st, s, t)
  }

  // ---------------------------------------------------------------------------------------
  // One send
  // ---------------------------------------------------------------------------------------

  /** A send within the residual capacity, and within the excess of u unless u is s, keeps
      the preflow: the excess moves with the flow and the total stays 0. */
  lemma SendPreflow(init: Net, st: PR, u: int, i: int, amt: int, s: int, t: int)
    requires Preflow(init, st, s) && |st.inQ| == |st.net| && IsEdge(st.net, u, i)
    requires 0 <= amt <= st.net[u][i].cap && (u == s || amt <= st.excess[u])
    ensures Paired(st.net, u, i)
    ensures Preflow(init, SendStep(st, u, i, amt, s, t), s)
  {
    assert ValidAt(st.net, u, i);
    var net: Net := st.net;
    var v := net[u][i].to;
    var ex1 := st.excess[u := st.excess[u] - amt];
    var ex2 := ex1[v := ex1[v] + amt];
    MovedPreflow(init, net, ex1, ex2, st.excess, u, i, amt, s);
    SendFields(st, u, i, amt, s, t);
  }

  /** What a send changes: the network by the push, the excess of u and of the head; the
      heights and pointers stay. */
  lemma SendFields(st: PR, u: int, i: int, amt: int, s: int, t: int)
    requires IsEdge(st.net, u, i) && Paired(st.net, u, i)
    requires |st.excess| == |st.net| && |st.inQ| == |st.net|
    ensures var r := SendStep(st, u, i, amt, s, t);
            var v := st.net[u][i].to;
            var ex := st.excess[u := st.excess[u] - amt];
            && r.net == PushNet(st.net, u, i, amt) && r.excess == ex[v := ex[v] + amt]
            && r.height == st.height && r.ptr == st.ptr && |r.inQ| == |st.inQ|
  {
  }

  lemma MovedPreflow(init: Net, net: Net, ex1: seq<int>, ex2: seq<int>, ex: seq<int>, u: int, i: int,
                     amt: int, s: int)
    requires PreflowOf(init, net, ex, s) && IsEdge(net, u, i) && Paired(net, u, i)
    requires 0 <= amt <= net[u][i].cap && (u == s || amt <= ex[u])
    requires ex1 == ex[u := ex[u] - amt] && ex2 == ex1[net[u][i].to := ex1[net[u][i].to] + amt]
    ensures PreflowOf(init, PushNet(net, u, i, amt), ex2, s)
  {
    var v := net[u][i].to;
    var r := PushNet(net, u, i, amt);
    PushKeepsValid(net, u, i, amt);
    PushSums(net, u, i, amt);
    PushBalance(net, u, i, amt);
    SameShapeTrans(init, net, r);
    TotalMove(ex, ex1, ex2, u, v, amt);
    forall x | 0 <= x < |init|
      ensures FlowOut(r, x) == FlowOut(init, x) - ex2[x]
      ensures Balance(r, x) == Balance(init, x) + ex2[x]
      ensures x != s ==> ex2[x] >= 0
    {
    }
    assert ValidNet(init) && ValidNet(r) && SameShape(init, r) && |ex2| == |init|;
    assert Total(ex2) == 0;
  }

  /** Moving amt from u to v leaves the sum unchanged. */
  lemma TotalMove(ex: seq<int>, ex1: seq<int>, ex2: seq<int>, u: int, v: int, amt: int)
    requires 0 <= u < |ex| && 0 <= v < |ex|
    requires ex1 == ex[u := ex[u] - amt] && ex2 == ex1[v := ex1[v] + amt]
    ensures Total(ex2) == Total(ex)
  {
    TotalUpdate(ex, u, ex[u] - amt);
    TotalUpdate(ex1, v, ex1[v] + amt);
  }

  /** A send keeps the queue bookkeeping: the head is queued exactly when it became active. */
  lemma SendQueued(st: PR, u: int, i: int, amt: int, s: int, t: int, exempt: int)
    requires Queued(st, s, t, exempt) && IsEdge(st.net, u, i) && Paired(st.net, u, i) && amt >= 0
    ensures Queued(SendStep(st, u, i, amt, s, t), s, t, exempt)
  {
    var v := st.net[u][i].to;
    var r := SendStep(st, u, i, amt, s, t);
    forall w | 0 <= w < |r.net| ensures r.inQ[w] <==> w in r.queue {
      assert st.inQ[w] <==> w in st.queue;
    }
  }

  /** A send over an admissible record keeps the labelling: the reverse record it opens leads
      one step up, and no record behind a pointer becomes admissible. */
  lemma SendLabelled(st: PR, u: int, i: int, amt: int, s: int, t: int)
    requires Labelled(st, s, t) && |st.excess| == |st.net| && |st.inQ| == |st.net|
    requires Admissible(st.net, st.height, u, i) && Paired(st.net, u, i) && amt >= 0
    ensures Labelled(SendStep(st, u, i, amt, s, t), s, t)
  {
    PushLabelled(st.net, st.height, st.ptr, u, i, amt, s, t);
    SendFields(st, u, i, amt, s, t);
  }

  lemma PushLabelled(net: Net, h: seq<int>, ptr: seq<int>, u: int, i: int, amt: int, s: int, t: int)
    requires LabelledOf(net, h, ptr, s, t) && Admissible(net, h, u, i) && Paired(net, u, i) && amt >= 0
    ensures LabelledOf(PushNet(net, u, i, amt), h, ptr, s, t)
  {
    var v, j := net[u][i].to, net[u][i].rev;
    var r: Net := PushNet(net, u, i, amt);
    forall x, k | 0 <= x < |r| && 0 <= k < |r[x]|
      ensures 0 <= r[x][k].to < |r|
      ensures r[x][k].cap > 0 ==> h[x] <= h[r[x][k].to] + 1
      ensures !Admissible(r, h, x, k) || Admissible(net, h, x, k) || (x, k) == (v, j)
    {
      if (x, k) == (v, j) {
        assert r[x][k].to == u;
      } else if (x, k) != (u, i) {
        assert r[x][k] == net[x][k];
      }
    }
    forall x, k | 0 <= x < |r| && 0 <= k < ptr[x] ensures !Admissible(r, h, x, k) {
      assert !Admissible(net, h, x, k);
      if (x, k) == (v, j) {
        assert r[x][k].to == u;
      }
    }
  }

  // ---------------------------------------------------------------------------------------
  // The steps of discharge
  // ---------------------------------------------------------------------------------------

  /** The measure discharge decreases, read lexicographically: whether u still has excess,
      the number of residual records of u, whether no admissible record of u lies at or after
      its current arc, and the number of records the arc has yet to pass. */
  function Active(st: PR, u: int): nat {
    if 0 <= u < |st.excess| && st.excess[u] > 0 then 1 else 0
  }

  function Res(st: PR, u: int): nat {
    if 0 <= u < |st.net| then ResCount(st.net[u]) else 0
  }

  ghost function Stuck(st: PR, u: int): nat {
    if 0 <= u < |st.ptr| && AdmissibleFrom(st.net, st.height, u, st.ptr[u]) then 0 else 1
  }

  function Left(st: PR, u: int): int {
    if 0 <= u < |st.net| && u < |st.ptr| then |st.net[u]| - st.ptr[u] else 0
  }

  /** One step of discharge at u from a to b decreases the measure. */
  ghost predicate Progress(a: PR, b: PR, u: int) {
    || Active(b, u) < Active(a, u)
    || (Active(b, u) == Active(a, u) && Res(b, u) < Res(a, u))
    || (Active(b, u) == Active(a, u) && Res(b, u) == Res(a, u) && Stuck(b, u) < Stuck(a, u))
    || (Active(b, u) == Active(a, u) && Res(b, u) == Res(a, u) && Stuck(b, u) == Stuck(a, u)
        && 0 <= Left(b, u) < Left(a, u))
  }

  /** push on an admissible record of the vertex being discharged keeps the invariant, and
      either uses up the excess of u or saturates the record, so u has one residual record
      fewer. */
  lemma PushKeeps(init: Net, st: PR, u: int, i: int, s: int, t: int)
    requires Inv(init, st, s, t, u) && u != s && Admissible(st.net, st.height, u, i) && st.excess[u] > 0
    ensures Paired(st.net, u, i)
    ensures var r := PushStep(st, u, i, s, t);
            && Inv(init, r, s, t, u) && r.height == st.height && r.ptr == st.ptr
            && r.inQ[u] == st.inQ[u] && |r.net[u]| == |st.net[u]|
            && (r.excess[u] == 0 || ResCount(r.net[u]) < ResCount(st.net[u]))
  {
    assert ValidAt(st.net, u, i);
    var send := Min(st.excess[u], st.net[u][i].cap);
    SendKeeps(init, st, u, i, send, s, t);
    PushMeasure(st, u, i, send, s, t);
  }

  /** A send of a positive amount over an admissible record keeps the invariant. */
  lemma SendKeeps(init: Net, st: PR, u: int, i: int, amt: int, s: int, t: int)
    requires Inv(init, st, s, t, u) && u != s && Admissible(st.net, st.height, u, i)
    requires Paired(st.net, u, i) && 0 <= amt <= st.net[u][i].cap && amt <= st.excess[u]
    ensures Inv(init, SendStep(st, u, i, amt, s, t), s, t, u)
  {
    SendPreflow(init, st, u, i, amt, s, t);
    SendQueued(st, u, i, amt, s, t, u);
    SendLabelled(st, u, i, amt, s, t);
  }

  /** Sending min(excess[u], cap) > 0 over a record of u leaves heights, pointers and the mark
      of u alone, and empties u or saturates the record. */
  lemma PushMeasure(st: PR, u: int, i: int, send: int, s: int, t: int)
    requires IsEdge(st.net, u, i) && Paired(st.net, u, i) && st.net[u][i].to != u
    requires |st.excess| == |st.net| && |st.inQ| == |st.net|
    requires send == Min(st.excess[u], st.net[u][i].cap) && send > 0
    ensures var r := PushStep(st, u, i, s, t);
            && r == SendStep(st, u, i, send, s, t)
            && r.height == st.height && r.ptr == st.ptr
            && r.inQ[u] == st.inQ[u] && |r.net[u]| == |st.net[u]|
            && (r.excess[u] == 0 || ResCount(r.net[u]) < ResCount(st.net[u]))
  {
    var e := st.net[u][i];
    var e' := e.(cap := e.cap - send, flow := e.flow + send);
    PushRow(st.net, u, i, send);
    if send == e.cap {
      ResCountDrop(st.net[u], i, e');
    }
  }

  /** Moving the current arc of u past a record that is not admissible keeps the invariant
      and does not change whether an admissible record lies ahead. */
  lemma AdvanceKeeps(init: Net, st: PR, u: int, s: int, t: int, exempt: int)
    requires Inv(init, st, s, t, exempt) && 0 <= u < |st.net| && st.ptr[u] < |st.net[u]|
    requires !Admissible(st.net, st.height, u, st.ptr[u])
    ensures Inv(init, st.(ptr := st.ptr[u := st.ptr[u] + 1]), s, t, exempt)
    ensures AdmissibleFrom(st.net, st.height, u, st.ptr[u] + 1) == AdmissibleFrom(st.net, st.height, u, st.ptr[u])
  {
    if AdmissibleFrom(st.net, st.height, u, st.ptr[u]) {
      var j :| st.ptr[u] <= j && Admissible(st.net, st.height, u, j);
      assert j != st.ptr[u];
    }
  }

  lemma {:induction false} FlowDrop(a: seq<Edge>, b: seq<Edge>) returns (j: int)
    requires |a| == |b| && SumFlow(b) < SumFlow(a)
    ensures 0 <= j < |a| && b[j].flow < a[j].flow
    decreases |a|
  {
    var n := |a|;
    if b[n - 1].flow < a[n - 1].flow {
      j := n - 1;
    } else {
      j := FlowDrop(a[..n - 1], b[..n - 1]);
    }
  }

  /** A vertex with excess has a residual record: its net outflow went down, so some record
      of it carries less flow than at the start and has more residual capacity than then. This
      is what the source's relabel assumes of every call. */
  lemma ExcessResidual(init: Net, st: PR, s: int, u: int)
    requires Preflow(init, st, s) && 0 <= u < |init| && st.excess[u] > 0
    ensures exists j | 0 <= j < |st.net[u]| :: st.net[u][j].cap > 0
  {
    var j := FlowDrop(init[u], st.net[u]);
    assert ValidAt(init, u, j) && ValidAt(st.net, u, j);
  }

  /** relabel followed by ptr[u] = 0: u climbs to one above its lowest residual neighbour,
      strictly higher than before because no record of u was admissible; the labelling stays
      valid and an admissible record of u now exists. */
  lemma RelabelKeeps(init: Net, st: PR, u: int, m: int, s: int, t: int)
    requires Inv(init, st, s, t, u) && 0 <= u < |st.net| && u != s && u != t
    requires st.ptr[u] >= |st.net[u]| && IsLowest(st.net[u], st.height, m)
    ensures var r := st.(height := st.height[u := m + 1], ptr := st.ptr[u := 0]);
            && Inv(init, r, s, t, u) && AdmissibleFrom(r.net, r.height, u, 0) && m + 1 > st.height[u]
  {
    RelabelLabelled(st.net, st.height, st.ptr, u, m, s, t);
  }

  lemma RelabelLabelled(net: Net, h: seq<int>, ptr: seq<int>, u: int, m: int, s: int, t: int)
    requires LabelledOf(net, h, ptr, s, t) && ValidNet(net) && 0 <= u < |net| && u != s && u != t
    requires ptr[u] >= |net[u]| && IsLowest(net[u], h, m)
    ensures LabelledOf(net, h[u := m + 1], ptr[u := 0], s, t)
    ensures AdmissibleFrom(net, h[u := m + 1], u, 0) && m + 1 > h[u]
  {
    var h' := h[u := m + 1];
    var w :| 0 <= w < |net[u]| && net[u][w].cap > 0 && 0 <= net[u][w].to < |h| && h[net[u][w].to] == m;
    assert !Admissible(net, h, u, w);
    assert ValidAt(net, u, w);
    assert Admissible(net, h', u, w);
    forall x, k | 0 <= x < |net| && 0 <= k < |net[x]| && net[x][k].cap > 0
      ensures h'[x] <= h'[net[x][k].to] + 1
    {
      if x == u {
        assert !Admissible(net, h, u, k);
      }
    }
    forall x, k | 0 <= x < |net| && 0 <= k < ptr[u := 0][x] ensures !Admissible(net, h', x, k) {
      assert !Admissible(net, h, x, k);
    }
  }

  /** Polling the queue: the first vertex leaves it and is no longer marked; it is neither s
      nor t, and it is the one vertex with excess that may be out of the queue. */
  lemma PollKeeps(init: Net, st: PR, s: int, t: int)
    requires Inv(init, st, s, t, -1) && st.queue != []
    ensures var u := st.queue[0];
            && 0 <= u < |st.net| && u != s && u != t && st.inQ[u]
            && Inv(init, st.(queue := st.queue[1..], inQ := st.inQ[u := false]), s, t, u)
  {
    var u := st.queue[0];
    var q := st.queue[1..];
    forall v | 0 <= v < |st.net| ensures st.inQ[u := false][v] <==> v in q {
      if v in q {
        var k :| 0 <= k < |q| && q[k] == v;
        assert st.queue[k + 1] == v;
      }
      if v in st.queue && v != u {
        var k :| 0 <= k < |st.queue| && st.queue[k] == v;
        assert q[k - 1] == v;
      }
    }
    forall k, l | 0 <= k < l < |q| ensures q[k] != q[l] {
      assert q[k] == st.queue[k + 1] && q[l] == st.queue[l + 1];
    }
  }

  /** Once u has no excess, it needs no exemption. */
  lemma Settled(init: Net, st: PR, u: int, s: int, t: int)
    requires Inv(init, st, s, t, u) && 0 <= u < |st.net| && st.excess[u] <= 0
    ensures Inv(init, st, s, t, -1)
  {
  }

  // ---------------------------------------------------------------------------------------
  // The initial preflow
  // ---------------------------------------------------------------------------------------

  /** The heights maxFlow starts from: n at s, 0 everywhere else. */
  function StartHeights(n: nat, s: int): (h: seq<int>)
    ensures |h| == n
  {
    seq(n, v => if v == s then n else 0)
  }

  /** Part-way through the saturation of the records of s: those before i have no residual
      capacity left, the heights are the starting ones and every pointer is at the front. */
  ghost predicate Saturating(init: Net, st: PR, s: int, t: int, i: int) {
    && Sized(st, s, t) && Preflow(init, st, s) && Queued(st, s, t, -1) && InRange(st.net)
    && 0 <= i <= |st.net[s]| && st.height == StartHeights(|st.net|, s)
    && (forall v | 0 <= v < |st.net| :: st.ptr[v] == 0)
    && (forall j | 0 <= j < i :: st.net[s][j].cap <= 0)
  }

  lemma TotalZero(ex: seq<int>)
    requires forall x | 0 <= x < |ex| :: ex[x] == 0
    ensures Total(ex) == 0
  {
    TotalSupport(ex, -1, -1);
  }

  /** The fresh arrays: no excess, nothing queued, heights n at s and 0 elsewhere. */
  lemma SaturateStart(init: Net, st: PR, s: int, t: int)
    requires ValidNet(init) && 0 <= s < |init| && 0 <= t < |init|
    requires st.net == init && st.height == StartHeights(|init|, s) && st.queue == []
    requires st.excess == seq(|init|, _ => 0) && st.inQ == seq(|init|, _ => false)
    requires st.ptr == seq(|init|, _ => 0)
    ensures Saturating(init, st, s, t, 0)
  {
    TotalZero(st.excess);
    ValidIsLinked(init);
    LinkedInRange(init);
  }

  /** A record of s without residual capacity is passed over. */
  lemma SaturateSkip(init: Net, st: PR, s: int, t: int, i: int)
    requires Saturating(init, st, s, t, i) && i < |st.net[s]| && st.net[s][i].cap <= 0
    ensures Saturating(init, st, s, t, i + 1)
  {
  }

  /** Sending the whole residual capacity of record i of s to its head. */
  lemma SaturateSend(init: Net, st: PR, s: int, t: int, i: int)
    requires Saturating(init, st, s, t, i) && i < |st.net[s]| && st.net[s][i].cap > 0
    ensures Paired(st.net, s, i)
    ensures Saturating(init, SendStep(st, s, i, st.net[s][i].cap, s, t), s, t, i + 1)
  {
    var net: Net := st.net;
    assert ValidAt(net, s, i);
    var e := net[s][i];
    SendPreflow(init, st, s, i, e.cap, s, t);
    SendQueued(st, s, i, e.cap, s, t, -1);
    var r := SendStep(st, s, i, e.cap, s, t);
    assert r.net == PushNet(net, s, i, e.cap) && r.height == st.height && r.ptr == st.ptr;
    PushRow(net, s, i, e.cap);
    ValidIsLinked(r.net);
    LinkedInRange(r.net);
    assert forall j | 0 <= j < i + 1 :: r.net[s][j].cap <= 0;
  }

  /** At the end of the saturation every record of s has residual capacity exactly 0. */
  lemma SaturatedRecords(init: Net, st: PR, s: int, t: int)
    requires 0 <= s < |st.net| && Saturating(init, st, s, t, |st.net[s]|)
    ensures forall j | 0 <= j < |st.net[s]| :: st.net[s][j].cap == 0
  {
    forall j | 0 <= j < |st.net[s]| ensures st.net[s][j].cap == 0 {
      assert ValidAt(st.net, s, j);
    }
  }

  /** Once every record of s is saturated the starting heights are a valid labelling: the
      only records leaving height n are those of s, and they carry no residual capacity. */
  lemma SaturateDone(init: Net, st: PR, s: int, t: int)
    requires 0 <= s < |st.net| && Saturating(init, st, s, t, |st.net[s]|)
    ensures Inv(init, st, s, t, -1)
  {
    var net: Net, h := st.net, st.height;
    forall u, i | 0 <= u < |net| && 0 <= i < |net[u]| && net[u][i].cap > 0
      ensures h[u] <= h[net[u][i].to] + 1
    {
      assert u != s;
    }
  }

  // ---------------------------------------------------------------------------------------
  // An empty queue
  // ---------------------------------------------------------------------------------------

  /** With no active vertex left the preflow is a flow: every vertex other than s and t
      balances, excess[t] is the value that left s, and t is out of reach of s. */
  lemma Finished(init: Net, st: PR, s: int, t: int)
    requires Inv(init, st, s, t, -1) && st.queue == []
    ensures forall x | 0 <= x < |st.net| && x != s && x != t :: st.excess[x] == 0
    ensures st.excess[t] >= 0 && (s == t ==> st.excess[t] == 0)
    ensures FlowMoved(init, st.net, s, t, st.excess[t])
    ensures s != t ==> !Reachable(st.net, s, t)
  {
    var ex := st.excess;
    forall x | 0 <= x < |st.net| && x != s && x != t ensures ex[x] == 0 {
      assert !st.inQ[x];
    }
    TotalSupport(ex, s, t);
    if s != t {
      NoResidualPath(st, s, t);
    }
  }

  /** Some height between 1 and n - 1 is taken by no vertex other than s and t: there are
      n - 1 such heights and only n - 2 such vertices. */
  lemma Gap(h: seq<int>, s: int, t: int) returns (k: int)
    requires 0 <= s < |h| && 0 <= t < |h| && s != t
    ensures 1 <= k < |h|
    ensures forall v | 0 <= v < |h| && v != s && v != t :: h[v] != k
  {
    var n := |h|;
    RangeCard(0, n);
    RangeCard(1, n);
    var inner := Range(0, n) - {s, t};
    var taken := Image(inner, h);
    assert Range(0, n) == inner + {s, t};
    ImageCard(inner, h);
    if Range(1, n) <= taken {
      SubsetCard(Range(1, n), taken);
      assert false;
    }
    k :| k in Range(1, n) && k !in taken;
    forall v | 0 <= v < n && v != s && v != t ensures h[v] != k {
      assert v in inner;
    }
  }

  /** The integers from lo up to hi, hi excluded. */
  function Range(lo: int, hi: int): set<int>
    decreases hi - lo
  {
    if lo < hi then {lo} + Range(lo + 1, hi) else {}
  }

  lemma {:induction false} RangeCard(lo: int, hi: int)
    requires lo <= hi
    ensures |Range(lo, hi)| == hi - lo
    ensures forall x :: x in Range(lo, hi) <==> lo <= x < hi
    decreases hi - lo
  {
    if lo < hi {
      RangeCard(lo + 1, hi);
    }
  }

  /** The heights of the vertices of V. */
  function Image(V: set<int>, h: seq<int>): set<int>
    requires forall v | v in V :: 0 <= v < |h|
  {
    set v | v in V :: h[v]
  }

  lemma {:induction false} ImageCard(V: set<int>, h: seq<int>)
    requires forall v | v in V :: 0 <= v < |h|
    ensures |Image(V, h)| <= |V|
    decreases |V|
  {
    if w :| w in V {
      var rest := V - {w};
      ImageCard(rest, h);
      assert Image(V, h) == Image(rest, h) + {h[w]};
    } else {
      assert forall x :: x !in V;
      assert V == {};
      assert Image(V, h) == {};
    }
  }

  lemma SubsetCard(A: set<int>, B: set<int>)
    requires A <= B
    ensures |A| <= |B|
  {
    assert B == A + (B - A);
  }

  /** A height labelling with s at n and t at 0 leaves no residual path from s to t: the
      vertices above the empty level k form a closed set that holds s but not t. */
  lemma NoResidualPath(st: PR, s: int, t: int)
    requires Labelled(st, s, t) && s != t
    ensures !Reachable(st.net, s, t)
  {
    var net: Net, h := st.net, st.height;
    var k := Gap(h, s, t);
    var S := set v | 0 <= v < |net| && h[v] > k;
    forall u | u in S ensures 0 <= u < |net| && ClosedAt(net, S, u) {
      forall i | 0 <= i < |net[u]| && net[u][i].cap > 0 ensures net[u][i].to in S {
        var y := net[u][i].to;
        assert h[u] <= h[y] + 1;
      }
    }
    if Reachable(net, s, t) {
      ReachableClosed(net, S, s, t);
    }
  }
}

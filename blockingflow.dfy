/** The level-graph theory behind Dinic's blocking-flow search: which records the search may
    follow, the walks they form, the phase state kept by the current-arc pointers, and the
    steps of dfsBlockingFlow stated on values. */
module BlockingFlow {
  import opened Residual
  import opened AugmentingPaths

  /** The record at (u, i) is in the level graph: u has a level, the record has residual
      capacity, and it climbs exactly one level. */
  ghost predicate Adm(net: Net, level: seq<int>, u: int, i: int) {
    && 0 <= u < |net| && 0 <= i < |net[u]| && |level| == |net| && 0 <= net[u][i].to < |net|
    && level[u] >= 0 && net[u][i].cap > 0 && level[net[u][i].to] == level[u] + 1
  }

  /** A walk all of whose records are in the level graph. */
  ghost predicate LevelPath(net: Net, level: seq<int>, p: seq<int>, idx: seq<int>) {
    && HopsIn(net, p, idx)
    && forall k | 0 <= k < |idx| :: Adm(net, level, p[k], idx[k])
  }

  /** No level-graph walk leads from v to t. */
  ghost predicate NoPath(net: Net, level: seq<int>, v: int, t: int) {
    forall p, idx | LevelPath(net, level, p, idx) && p[0] == v :: p[|p| - 1] != t
  }

  /** The record at (v, j) cannot help: it is not in the level graph, or no level-graph walk
      leads from its head to t. */
  ghost predicate Useless(net: Net, level: seq<int>, t: int, v: int, j: int)
    requires 0 <= v < |net| && 0 <= j < |net[v]|
  {
    !Adm(net, level, v, j) || NoPath(net, level, net[v][j].to, t)
  }

  /** The state of a blocking-flow phase: levels and current-arc pointers in range, and every
      record behind the current arc of its vertex useless. */
  ghost predicate PhaseInv(net: Net, level: seq<int>, ptr: seq<int>, t: int) {
    && |level| == |net| && |ptr| == |net| && 0 <= t < |net|
    && (forall v | 0 <= v < |net| :: -1 <= level[v] < |net| && 0 <= ptr[v] <= |net[v]|)
    && forall v, j | 0 <= v < |net| && 0 <= j < ptr[v] && j < |net[v]| :: Useless(net, level, t, v, j)
  }

  /** The level graph of (b, lb) is part of that of (a, la): same record layout, levels kept
      or pruned to -1 (never at t), and no record is in the new level graph that was not in
      the old one. */
  ghost predicate Shrinks(a: Net, la: seq<int>, b: Net, lb: seq<int>, t: int) {
    && SameShape(a, b) && |la| == |a| && |lb| == |a| && 0 <= t < |a| && lb[t] == la[t]
    && (forall v | 0 <= v < |a| :: lb[v] == la[v] || lb[v] == -1)
    && forall u, i | Adm(b, lb, u, i) :: Adm(a, la, u, i)
  }

  /** Every level-graph walk to t under la is still one under lb. */
  ghost predicate Keeps(net: Net, la: seq<int>, lb: seq<int>, t: int) {
    forall p, idx | LevelPath(net, la, p, idx) && p[|p| - 1] == t :: LevelPath(net, lb, p, idx)
  }

  /** What one successful search returns: a level-graph walk from u to t whose every record
      has at least amt units, where amt is the smallest of `pushed` and those capacities. */
  ghost predicate Route(net: Net, level: seq<int>, p: seq<int>, idx: seq<int>, u: int, t: int,
                        pushed: int, amt: int) {
    && LevelPath(net, level, p, idx) && p[0] == u && p[|p| - 1] == t
    && (forall k | 0 <= k < |idx| :: amt <= net[p[k]][idx[k]].cap)
    && (amt == pushed || exists k | 0 <= k < |idx| :: amt == net[p[k]][idx[k]].cap)
  }

  lemma LevelPathSuffix(net: Net, level: seq<int>, p: seq<int>, idx: seq<int>, k: int)
    requires LevelPath(net, level, p, idx) && 0 <= k < |p|
    ensures LevelPath(net, level, p[k..], idx[k..])
  {
    HopsInFrom(net, p, idx, k);
    forall j | 0 <= j < |idx| - k ensures Adm(net, level, p[k..][j], idx[k..][j]) {
      assert p[k..][j] == p[k + j] && idx[k..][j] == idx[k + j];
    }
  }

  /** Along a level-graph walk the level goes up by one per record. */
  lemma {:induction false} LevelAlong(net: Net, level: seq<int>, p: seq<int>, idx: seq<int>, k: int)
    requires LevelPath(net, level, p, idx) && |level| == |net| && 0 <= k < |p|
    ensures level[p[k]] == level[p[0]] + k
    decreases k
  {
    if k > 0 {
      LevelAlong(net, level, p, idx, k - 1);
      assert Adm(net, level, p[k - 1], idx[k - 1]);
    }
  }

  /** A level-graph walk is simple, and one whose records all carry at least b is an
      augmenting path for b. */
  lemma LevelAugPath(net: Net, level: seq<int>, p: seq<int>, idx: seq<int>, b: int)
    requires LevelPath(net, level, p, idx) && |level| == |net|
    requires forall k | 0 <= k < |idx| :: b <= net[p[k]][idx[k]].cap
    ensures AugPath(net, p, idx, b)
  {
    forall k, l | 0 <= k < l < |p| ensures p[k] != p[l] {
      LevelAlong(net, level, p, idx, k);
      LevelAlong(net, level, p, idx, l);
    }
  }

  /** The tree path that the level search leaves to t lies in the level graph. */
  lemma TreeLevelPath(net: Net, s: int, pn: seq<int>, pe: seq<int>, level: seq<int>, t: int)
    requires Tree(net, s, pn, pe, level) && 0 <= t < |net| && pn[t] != -1
    ensures LevelPath(net, level, TreePath(s, pn, level, t), TreeIdx(s, pn, pe, level, t))
    ensures !NoPath(net, level, s, t)
  {
    var p := TreePath(s, pn, level, t);
    var idx := TreeIdx(s, pn, pe, level, t);
    TreeHops(net, s, pn, pe, level, t);
    forall k | 0 <= k < |idx| ensures Adm(net, level, p[k], idx[k]) {
      assert IsEdge(net, p[k], idx[k]) && net[p[k]][idx[k]].to == p[k + 1];
    }
  }

  lemma ShrinkPath(a: Net, la: seq<int>, b: Net, lb: seq<int>, t: int, p: seq<int>, idx: seq<int>)
    requires Shrinks(a, la, b, lb, t) && LevelPath(b, lb, p, idx)
    ensures LevelPath(a, la, p, idx)
  {
    forall k | 0 <= k < |idx| ensures IsEdge(a, p[k], idx[k]) && a[p[k]][idx[k]].to == p[k + 1] {
      assert Adm(b, lb, p[k], idx[k]);
    }
  }

  lemma ShrinkNoPath(a: Net, la: seq<int>, b: Net, lb: seq<int>, t: int, v: int)
    requires Shrinks(a, la, b, lb, t) && NoPath(a, la, v, t)
    ensures NoPath(b, lb, v, t)
  {
    forall p, idx | LevelPath(b, lb, p, idx) && p[0] == v ensures p[|p| - 1] != t {
      ShrinkPath(a, la, b, lb, t, p, idx);
    }
  }

  /** A phase state stays one when its level graph shrinks: useless records stay useless. */
  lemma ShrinkPhase(a: Net, la: seq<int>, b: Net, lb: seq<int>, ptr: seq<int>, t: int)
    requires Shrinks(a, la, b, lb, t) && PhaseInv(a, la, ptr, t)
    ensures PhaseInv(b, lb, ptr, t)
  {
    forall v, j | 0 <= v < |b| && 0 <= j < ptr[v] && j < |b[v]| ensures Useless(b, lb, t, v, j) {
      assert Useless(a, la, t, v, j);
      if Adm(b, lb, v, j) {
        ShrinkNoPath(a, la, b, lb, t, a[v][j].to);
      }
    }
  }

  lemma ShrinkTrans(a: Net, la: seq<int>, b: Net, lb: seq<int>, c: Net, lc: seq<int>, t: int)
    requires Shrinks(a, la, b, lb, t) && Shrinks(b, lb, c, lc, t)
    ensures Shrinks(a, la, c, lc, t)
  {
    SameShapeTrans(a, b, c);
  }

  /** Pruning a vertex from which t cannot be reached keeps every walk to t and only removes
      records from the level graph. */
  lemma PruneDead(net: Net, level: seq<int>, t: int, u: int)
    requires |level| == |net| && 0 <= t < |net| && 0 <= u < |net| && u != t
    requires NoPath(net, level, u, t)
    ensures Keeps(net, level, level[u := -1], t) && Shrinks(net, level, net, level[u := -1], t)
  {
    var level' := level[u := -1];
    forall p, idx | LevelPath(net, level, p, idx) && p[|p| - 1] == t ensures LevelPath(net, level', p, idx) {
      forall k | 0 <= k < |idx| ensures Adm(net, level', p[k], idx[k]) {
        LevelPathSuffix(net, level, p, idx, k);
        LevelPathSuffix(net, level, p, idx, k + 1);
        assert p[k..][0] == p[k] && p[k..][|p[k..]| - 1] == t;
        assert p[k + 1..][0] == p[k + 1] && p[k + 1..][|p[k + 1..]| - 1] == t;
      }
    }
  }

  /** When every record of u is useless, no level-graph walk leads from u to t. */
  lemma AllUseless(net: Net, level: seq<int>, t: int, u: int)
    requires 0 <= u < |net| && u != t && |level| == |net|
    requires forall j | 0 <= j < |net[u]| :: Useless(net, level, t, u, j)
    ensures NoPath(net, level, u, t)
  {
    forall p, idx | LevelPath(net, level, p, idx) && p[0] == u ensures p[|p| - 1] != t {
      if |p| > 1 {
        assert Useless(net, level, t, u, idx[0]) && Adm(net, level, u, idx[0]);
        LevelPathSuffix(net, level, p, idx, 1);
        assert p[1..][0] == net[u][idx[0]].to && p[1..][|p[1..]| - 1] == p[|p| - 1];
      }
    }
  }

  /** Uselessness under the pruned levels l carries back to the levels l0 of the start of the
      search at u, as l keeps every walk to t and u itself is not pruned. */
  lemma UselessBack(net: Net, l0: seq<int>, l: seq<int>, t: int, u: int, j: int)
    requires 0 <= u < |net| && 0 <= j < |net[u]|
    requires Shrinks(net, l0, net, l, t) && Keeps(net, l0, l, t) && l[u] == l0[u]
    requires Useless(net, l, t, u, j)
    ensures Useless(net, l0, t, u, j)
  {
    var w := net[u][j].to;
    if Adm(net, l0, u, j) {
      forall p, idx | LevelPath(net, l0, p, idx) && p[0] == w ensures p[|p| - 1] != t {
        assert p[|p| - 1] == t ==> LevelPath(net, l, p, idx);
        if |p| > 1 {
          var first := idx[0];
          assert p[|p| - 1] == t ==> Adm(net, l, w, first);
        }
      }
    }
  }

  /** Sending flow over a record that climbs one level keeps the level graph or shrinks it:
      the record may lose capacity, and its reverse, which gains some, descends a level. */
  lemma PushShrinks(net: Net, level: seq<int>, t: int, u: int, i: int, amt: int)
    requires IsEdge(net, u, i) && Paired(net, u, i) && |level| == |net| && 0 <= t < |net|
    requires level[u] >= 0 && level[net[u][i].to] == level[u] + 1 && amt >= 0
    ensures Shrinks(net, level, PushNet(net, u, i, amt), level, t)
  {
  }

  /** The current arc of u moves past a useless record. */
  lemma PhaseStep(net: Net, level: seq<int>, ptr: seq<int>, t: int, u: int)
    requires PhaseInv(net, level, ptr, t) && 0 <= u < |net| && ptr[u] < |net[u]|
    requires Useless(net, level, t, u, ptr[u])
    ensures PhaseInv(net, level, ptr[u := ptr[u] + 1], t)
  {
  }

  /** Putting the record (u, i) in front of the route its head returned gives a route from u
      with the same amount, capped by `pushed` and the capacity of (u, i). */
  lemma RouteExtend(net: Net, l0: seq<int>, lk: seq<int>, t: int, u: int, i: int,
                    pushed: int, c: int, pw: seq<int>, idxw: seq<int>)
    requires Shrinks(net, l0, net, lk, t) && Adm(net, lk, u, i)
    requires c <= pushed && c <= net[u][i].cap
    requires Route(net, lk, pw, idxw, net[u][i].to, t,
                   if pushed < net[u][i].cap then pushed else net[u][i].cap, c)
    ensures Route(net, l0, [u] + pw, [i] + idxw, u, t, pushed, c)
  {
    var p, idx := [u] + pw, [i] + idxw;
    ShrinkPath(net, l0, net, lk, t, pw, idxw);
    assert Adm(net, l0, u, i);
    forall k | 0 <= k < |idx|
      ensures IsEdge(net, p[k], idx[k]) && net[p[k]][idx[k]].to == p[k + 1]
      ensures Adm(net, l0, p[k], idx[k]) && c <= net[p[k]][idx[k]].cap
    {
      if k > 0 {
        assert p[k] == pw[k - 1] && idx[k] == idxw[k - 1] && p[k + 1] == pw[k];
      }
    }
    if c != pushed && c != net[u][i].cap {
      var k :| 0 <= k < |idxw| && c == net[pw[k]][idxw[k]].cap;
      assert p[k + 1] == pw[k] && idx[k + 1] == idxw[k];
    }
  }

  /** The residual update of (u, i) after its head returned c completes the augmentation
      along the extended route and keeps the network valid. */
  lemma PushCompletes(net0: Net, l0: seq<int>, netc: Net, t: int, u: int, i: int, pushed: int,
                      c: int, pw: seq<int>, idxw: seq<int>)
    requires ValidNet(net0) && Linked(net0) && c >= 0
    requires Route(net0, l0, [u] + pw, [i] + idxw, u, t, pushed, c)
    requires HopsIn(net0, pw, idxw) && netc == AugmentPath(net0, pw, idxw, c)
    ensures IsEdge(netc, u, i) && Paired(netc, u, i)
    ensures var r := PushNet(netc, u, i, c);
            r == AugmentPath(net0, [u] + pw, [i] + idxw, c) && ValidNet(r)
  {
    var p, idx := [u] + pw, [i] + idxw;
    assert p[1..] == pw && idx[1..] == idxw;
    assert IsEdge(net0, u, i);
    LevelAugPath(net0, l0, p, idx, c);
    AugmentKeepsValid(net0, p, idx, c);
  }

  /** The same update only shrinks the level graph, so the phase state survives it. */
  lemma PushKeepsPhase(net0: Net, l0: seq<int>, lk: seq<int>, netc: Net, lc: seq<int>,
                       ptrc: seq<int>, t: int, u: int, i: int, c: int)
    requires Shrinks(net0, l0, net0, lk, t) && Shrinks(net0, lk, netc, lc, t)
    requires PhaseInv(netc, lc, ptrc, t) && IsEdge(netc, u, i) && Paired(netc, u, i) && c >= 0
    requires lc[u] >= 0 && lc[netc[u][i].to] == lc[u] + 1
    ensures var r := PushNet(netc, u, i, c);
            Shrinks(net0, l0, r, lc, t) && PhaseInv(r, lc, ptrc, t)
  {
    var r := PushNet(netc, u, i, c);
    PushShrinks(netc, lc, t, u, i, c);
    ShrinkTrans(net0, l0, net0, lk, netc, lc, t);
    ShrinkTrans(net0, l0, netc, lc, r, lc, t);
    ShrinkPhase(netc, lc, r, lc, ptrc, t);
  }

  /** Every record of u scanned without success: t is out of reach from u, and pruning u
      keeps the phase state, keeps every walk to t, and shrinks the level graph. */
  lemma DfsExhausted(net: Net, l0: seq<int>, l: seq<int>, ptr: seq<int>, t: int, u: int)
    requires PhaseInv(net, l, ptr, t) && 0 <= u < |net| && u != t && ptr[u] >= |net[u]|
    requires Shrinks(net, l0, net, l, t) && Keeps(net, l0, l, t) && l[u] == l0[u]
    ensures NoPath(net, l0, u, t)
    ensures PhaseInv(net, l[u := -1], ptr, t)
    ensures Shrinks(net, l0, net, l[u := -1], t) && Keeps(net, l0, l[u := -1], t)
  {
    forall j | 0 <= j < |net[u]| ensures Useless(net, l0, t, u, j) {
      UselessBack(net, l0, l, t, u, j);
    }
    AllUseless(net, l0, t, u);
    ShrinkNoPath(net, l0, net, l, t, u);
    PruneDead(net, l, t, u);
    ShrinkPhase(net, l, net, l[u := -1], ptr, t);
    ShrinkTrans(net, l0, net, l, net, l[u := -1], t);
  }

  /** Current-arc pointers only move forward. */
  ghost predicate Grow(p0: seq<int>, p: seq<int>) {
    |p| == |p0| && forall v | 0 <= v < |p0| :: p0[v] <= p[v]
  }

  /** Only vertices whose level was at least `floor` got a new level or a new current arc. */
  ghost predicate Touched(l0: seq<int>, p0: seq<int>, l: seq<int>, p: seq<int>, floor: int) {
    && |l| == |l0| && |p| == |l0| && |p0| == |l0|
    && forall v | 0 <= v < |l0| && (l[v] != l0[v] || p[v] != p0[v]) :: l0[v] >= floor
  }

  /** What dfsBlockingFlow from u leaves behind, from network net0, levels l0 and current
      arcs p0 to net, l, p: a phase state whose level graph has only shrunk, pointers that only
      moved forward, changes only at u and deeper vertices, and an amount of at most `pushed`.
      At t the amount is `pushed`. A positive amount comes with a route from u to t in the old
      level graph whose bottleneck it is, and net is net0 augmented along it. Zero comes with
      the network unchanged, every walk to t kept, and no walk from u to t in the old level
      graph. */
  ghost predicate DfsPost(net0: Net, l0: seq<int>, p0: seq<int>, net: Net, l: seq<int>, p: seq<int>,
                          u: int, t: int, pushed: int, amt: int, path: seq<int>, idx: seq<int>) {
    && 0 <= u < |l0|
    && PhaseInv(net, l, p, t) && Shrinks(net0, l0, net, l, t) && Grow(p0, p)
    && Touched(l0, p0, l, p, l0[u])
    && 0 <= amt <= pushed
    && (u == t ==> amt == pushed && path == [t])
    && (amt > 0 ==>
          && l[u] == l0[u] && Route(net0, l0, path, idx, u, t, pushed, amt)
          && Linked(net0) && net == AugmentPath(net0, path, idx, amt))
    && (amt == 0 ==>
          && path == [] && net == net0 && Keeps(net0, l0, l, t) && NoPath(net0, l0, u, t))
  }

  /** The state of the arc loop at u, started from net0, l0, p0: no flow sent yet, a phase
      state whose levels are only pruned below u, every walk to t kept, u itself not pruned,
      and changes only at u and deeper vertices. */
  ghost predicate ArcLoop(net0: Net, l0: seq<int>, p0: seq<int>, l: seq<int>, p: seq<int>, u: int, t: int) {
    && 0 <= u < |net0| && u != t
    && PhaseInv(net0, l, p, t) && Shrinks(net0, l0, net0, l, t) && Keeps(net0, l0, l, t)
    && l[u] == l0[u] >= 0 && Grow(p0, p) && Touched(l0, p0, l, p, l0[u])
  }

  lemma DfsAtSink(net: Net, l: seq<int>, p: seq<int>, t: int, pushed: int)
    requires PhaseInv(net, l, p, t) && Linked(net) && pushed >= 1
    ensures DfsPost(net, l, p, net, l, p, t, t, pushed, pushed, [t], [])
  {
  }

  lemma ArcStart(net: Net, l: seq<int>, p: seq<int>, u: int, t: int)
    requires PhaseInv(net, l, p, t) && 0 <= u < |net| && u != t && l[u] >= 0
    ensures ArcLoop(net, l, p, l, p, u, t)
  {
  }

  /** Skipping the current arc of u when it is not in the level graph. */
  lemma ArcSkip(net0: Net, l0: seq<int>, p0: seq<int>, l: seq<int>, p: seq<int>, u: int, t: int)
    requires ArcLoop(net0, l0, p0, l, p, u, t) && p[u] < |net0[u]|
    requires !Adm(net0, l, u, p[u])
    ensures ArcLoop(net0, l0, p0, l, p[u := p[u] + 1], u, t)
  {
    PhaseStep(net0, l, p, t, u);
  }

  /** Moving past the current arc of u after its head returned 0. */
  lemma ArcFail(net0: Net, l0: seq<int>, p0: seq<int>, lk: seq<int>, pk: seq<int>,
                l: seq<int>, p: seq<int>, u: int, t: int, m: int)
    requires ArcLoop(net0, l0, p0, lk, pk, u, t) && pk[u] < |net0[u]| && Adm(net0, lk, u, pk[u])
    requires DfsPost(net0, lk, pk, net0, l, p, net0[u][pk[u]].to, t, m, 0, [], [])
    ensures p[u] == pk[u] && ArcLoop(net0, l0, p0, l, p[u := p[u] + 1], u, t)
  {
    var w := net0[u][pk[u]].to;
    ShrinkNoPath(net0, lk, net0, l, t, w);
    PhaseStep(net0, l, p, t, u);
    ShrinkTrans(net0, l0, net0, lk, net0, l, t);
  }

  /** Returning the amount c that the head of the current arc of u sent: the arc is updated
      and the route extended by it. */
  lemma ArcSucceed(net0: Net, l0: seq<int>, p0: seq<int>, lk: seq<int>, pk: seq<int>,
                   netc: Net, l: seq<int>, p: seq<int>, u: int, t: int, pushed: int, c: int,
                   pw: seq<int>, idxw: seq<int>)
    requires ValidNet(net0) && Linked(net0)
    requires ArcLoop(net0, l0, p0, lk, pk, u, t) && pk[u] < |net0[u]| && Adm(net0, lk, u, pk[u])
    requires 0 < c && c <= pushed
    requires var e := net0[u][pk[u]];
             DfsPost(net0, lk, pk, netc, l, p, e.to, t, if pushed < e.cap then pushed else e.cap, c, pw, idxw)
    ensures IsEdge(netc, u, pk[u]) && Paired(netc, u, pk[u])
    ensures var r := PushNet(netc, u, pk[u], c);
            && ValidNet(r) && Linked(r)
            && DfsPost(net0, l0, p0, r, l, p, u, t, pushed, c, [u] + pw, [pk[u]] + idxw)
  {
    var i := pk[u];
    RouteExtend(net0, l0, lk, t, u, i, pushed, c, pw, idxw);
    PushCompletes(net0, l0, netc, t, u, i, pushed, c, pw, idxw);
    PushKeepsPhase(net0, l0, lk, netc, l, p, t, u, i, c);
    ValidIsLinked(PushNet(netc, u, i, c));
  }

  /** Pruning u once all its records are scanned. */
  lemma ArcExhausted(net0: Net, l0: seq<int>, p0: seq<int>, l: seq<int>, p: seq<int>, u: int,
                     t: int, pushed: int)
    requires ArcLoop(net0, l0, p0, l, p, u, t) && p[u] >= |net0[u]| && pushed >= 0
    ensures DfsPost(net0, l0, p0, net0, l[u := -1], p, u, t, pushed, 0, [], [])
  {
    DfsExhausted(net0, l0, l, p, t, u);
  }
}

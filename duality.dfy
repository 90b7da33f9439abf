/** Why the value every algorithm returns is the maximum flow value, and so the same for all of
    them: the flow moved from s to t equals the capacity it used up on the records leaving any
    s-t cut, so it never exceeds the cut's capacity, and a final network in which t is
    unreachable saturates the cut formed by the vertices s still reaches. */
module Duality {
  import opened Residual
  import opened Conservation
  import opened Paths

  /** A weight on record positions (u, i): the record at position i of the list of u. */
  type Weight = (int, int) -> int

  /** Sum of w over the first k records of the list of u. */
  ghost function RowW(a: Net, w: Weight, u: int, k: int): int
    requires 0 <= u < |a| && 0 <= k <= |a[u]|
  {
    if k == 0 then 0 else RowW(a, w, u, k - 1) + w(u, k - 1)
  }

  /** Sum of w over every record of the first m lists. */
  ghost function NetW(a: Net, w: Weight, m: int): int
    requires 0 <= m <= |a|
  {
    if m == 0 then 0 else NetW(a, w, m - 1) + RowW(a, w, m - 1, |a[m - 1]|)
  }

  /** The sum over all records. */
  ghost function TotalW(a: Net, w: Weight): int {
    NetW(a, w, |a|)
  }

  ghost predicate PointsIn(a: Net, p: int, q: int) {
    0 <= p < |a| && 0 <= q < |a[p]|
  }

  /** Record sums grow with the weights. */
  lemma {:induction false} RowMono(a: Net, w1: Weight, w2: Weight, u: int, k: int)
    requires 0 <= u < |a| && 0 <= k <= |a[u]|
    requires forall q | 0 <= q < |a[u]| :: w1(u, q) <= w2(u, q)
    ensures RowW(a, w1, u, k) <= RowW(a, w2, u, k)
  {
    if k > 0 {
      RowMono(a, w1, w2, u, k - 1);
    }
  }

  lemma {:induction false} NetMono(a: Net, w1: Weight, w2: Weight, m: int)
    requires 0 <= m <= |a|
    requires forall p, q | PointsIn(a, p, q) :: w1(p, q) <= w2(p, q)
    ensures NetW(a, w1, m) <= NetW(a, w2, m)
  {
    if m > 0 {
      NetMono(a, w1, w2, m - 1);
      RowMono(a, w1, w2, m - 1, |a[m - 1]|);
    }
  }

  /** Record sums add up pointwise. */
  lemma {:induction false} RowSplit(a: Net, w: Weight, w1: Weight, w2: Weight, u: int, k: int)
    requires 0 <= u < |a| && 0 <= k <= |a[u]|
    requires forall q | 0 <= q < |a[u]| :: w(u, q) == w1(u, q) + w2(u, q)
    ensures RowW(a, w, u, k) == RowW(a, w1, u, k) + RowW(a, w2, u, k)
  {
    if k > 0 {
      RowSplit(a, w, w1, w2, u, k - 1);
    }
  }

  lemma {:induction false} NetSplit(a: Net, w: Weight, w1: Weight, w2: Weight, m: int)
    requires 0 <= m <= |a|
    requires forall p, q | PointsIn(a, p, q) :: w(p, q) == w1(p, q) + w2(p, q)
    ensures NetW(a, w, m) == NetW(a, w1, m) + NetW(a, w2, m)
  {
    if m > 0 {
      NetSplit(a, w, w1, w2, m - 1);
      RowSplit(a, w, w1, w2, m - 1, |a[m - 1]|);
    }
  }

  /** Changing the weight of one record changes the sum by the difference. */
  lemma {:induction false} RowPoint(a: Net, w: Weight, w1: Weight, u: int, i: int, k: int)
    requires 0 <= u < |a| && 0 <= k <= |a[u]|
    requires forall q | 0 <= q < |a[u]| && q != i :: w1(u, q) == w(u, q)
    ensures RowW(a, w1, u, k) == RowW(a, w, u, k) + (if 0 <= i < k then w1(u, i) - w(u, i) else 0)
  {
    if k > 0 {
      RowPoint(a, w, w1, u, i, k - 1);
    }
  }

  lemma {:induction false} NetPoint(a: Net, w: Weight, w1: Weight, u: int, i: int, m: int)
    requires PointsIn(a, u, i) && 0 <= m <= |a|
    requires forall p, q | PointsIn(a, p, q) && (p, q) != (u, i) :: w1(p, q) == w(p, q)
    ensures NetW(a, w1, m) == NetW(a, w, m) + (if u < m then w1(u, i) - w(u, i) else 0)
  {
    if m > 0 {
      NetPoint(a, w, w1, u, i, m - 1);
      var x := m - 1;
      if x == u {
        RowPoint(a, w, w1, x, i, |a[x]|);
      } else {
        RowPoint(a, w, w1, x, -1, |a[x]|);
      }
    }
  }

  /** w is zero on every record. */
  lemma {:induction false} NetZero(a: Net, w: Weight, m: int)
    requires 0 <= m <= |a|
    requires forall p, q | PointsIn(a, p, q) :: w(p, q) == 0
    ensures NetW(a, w, m) == 0
  {
    NetMono(a, w, (p: int, q: int) => 0, m);
    NetMono(a, (p: int, q: int) => 0, w, m);
    NetZero0(a, m);
  }

  lemma {:induction false} NetZero0(a: Net, m: int)
    requires 0 <= m <= |a|
    ensures NetW(a, (p: int, q: int) => 0, m) == 0
  {
    if m > 0 {
      NetZero0(a, m - 1);
      RowZero0(a, m - 1, |a[m - 1]|);
    }
  }

  lemma {:induction false} RowZero0(a: Net, u: int, k: int)
    requires 0 <= u < |a| && 0 <= k <= |a[u]|
    ensures RowW(a, (p: int, q: int) => 0, u, k) == 0
  {
    if k > 0 {
      RowZero0(a, u, k - 1);
    }
  }

  /** w takes opposite values on a record and its paired record. */
  ghost predicate Antisymmetric(a: Net, w: Weight)
    requires Linked(a)
  {
    forall p, q | PointsIn(a, p, q) :: Paired(a, p, q) && w(p, q) == -w(a[p][q].to, a[p][q].rev)
  }

  /** The weight w with the records at (x, i) and (y, j) set to zero. */
  ghost function Without(w: Weight, x: int, i: int, y: int, j: int): Weight {
    (p: int, q: int) => if (p, q) == (x, i) || (p, q) == (y, j) then 0 else w(p, q)
  }

  /** An antisymmetric weight sums to zero over a linked network: its records cancel in pairs.
      NZ covers every record whose weight is not zero; each step removes one pair. */
  lemma {:induction false} AntisymmetricZero(a: Net, w: Weight, NZ: set<(int, int)>)
    requires Linked(a) && Antisymmetric(a, w)
    requires forall p, q | PointsIn(a, p, q) && w(p, q) != 0 :: (p, q) in NZ
    ensures TotalW(a, w) == 0
    decreases |NZ|
  {
    if NZ == {} {
      NetZero(a, w, |a|);
    } else {
      var pr :| pr in NZ;
      var x, i := pr.0, pr.1;
      if !PointsIn(a, x, i) || w(x, i) == 0 {
        AntisymmetricZero(a, w, NZ - {pr});
      } else {
        assert Paired(a, x, i);
        var y, j := a[x][i].to, a[x][i].rev;
        assert PointsIn(a, y, j) && Paired(a, y, j);
        var w1 := Without(w, x, i, y, j);
        forall p, q | PointsIn(a, p, q)
          ensures Paired(a, p, q) && w1(p, q) == -w1(a[p][q].to, a[p][q].rev)
        {
          assert Paired(a, p, q);
          var r, l := a[p][q].to, a[p][q].rev;
          if (p, q) != (x, i) && (p, q) != (y, j) {
            assert (r, l) != (x, i) && (r, l) != (y, j);
          }
        }
        AntisymmetricZero(a, w1, NZ - {pr});
        var w2 := Without(w, y, j, y, j);
        NetPoint(a, w1, w2, x, i, |a|);
        NetPoint(a, w2, w, y, j, |a|);
      }
    }
  }

  /** The residual capacity each record lost between a and b. */
  ghost function Used(a: Net, b: Net): Weight {
    (p: int, q: int) =>
      if 0 <= p < |a| && 0 <= q < |a[p]| && p < |b| && q < |b[p]| then a[p][q].cap - b[p][q].cap else 0
  }

  lemma UsedAt(a: Net, b: Net, p: int, q: int)
    requires SameShape(a, b) && PointsIn(a, p, q)
    ensures Used(a, b)(p, q) == a[p][q].cap - b[p][q].cap
  {
    assert |b[p]| == |a[p]|;
  }

  /** Used, restricted to the records whose tail lies in S, split by where their head lies. */
  ghost function FromSide(a: Net, b: Net, S: set<int>): Weight {
    (p: int, q: int) => if p in S then Used(a, b)(p, q) else 0
  }

  ghost function Inside(a: Net, b: Net, S: set<int>): Weight {
    (p: int, q: int) =>
      if p in S && 0 <= p < |a| && 0 <= q < |a[p]| && a[p][q].to in S then Used(a, b)(p, q) else 0
  }

  ghost function Crossing(a: Net, b: Net, S: set<int>): Weight {
    (p: int, q: int) =>
      if p in S && 0 <= p < |a| && 0 <= q < |a[p]| && a[p][q].to !in S then Used(a, b)(p, q) else 0
  }

  /** The capacity in a of the records leaving S. */
  ghost function CutWeight(a: Net, S: set<int>): Weight {
    (p: int, q: int) =>
      if p in S && 0 <= p < |a| && 0 <= q < |a[p]| && a[p][q].to !in S then a[p][q].cap else 0
  }

  /** The capacity of the cut (S, V \ S) in a. */
  ghost function CutCapacity(a: Net, S: set<int>): int {
    TotalW(a, CutWeight(a, S))
  }

  /** Residual capacity and flow of a list add up to the list's original capacity, which two
      networks of the same shape share. */
  lemma {:induction false} CapFlowRow(r1: seq<Edge>, r2: seq<Edge>)
    requires |r1| == |r2|
    requires forall k | 0 <= k < |r1| ::
               r1[k].cap + r1[k].flow == r1[k].origCap == r2[k].origCap == r2[k].cap + r2[k].flow
    ensures SumCap(r1) + SumFlow(r1) == SumCap(r2) + SumFlow(r2)
  {
    if r1 != [] {
      CapFlowRow(r1[..|r1| - 1], r2[..|r2| - 1]);
    }
  }

  /** The record sum of Used over the list of u is the residual capacity u lost. */
  lemma {:induction false} UsedRow(a: Net, b: Net, u: int, k: int)
    requires SameShape(a, b) && 0 <= u < |a| && 0 <= k <= |a[u]|
    ensures RowW(a, Used(a, b), u, k) == SumCap(a[u][..k]) - SumCap(b[u][..k])
  {
    if k > 0 {
      UsedRow(a, b, u, k - 1);
      assert a[u][..k][..k - 1] == a[u][..k - 1];
      assert b[u][..k][..k - 1] == b[u][..k - 1];
    }
  }

  /** Summed over the lists of S, the capacity used is the flow S sent out: `value` when S
      holds s but not t. */
  lemma {:induction false} FromSideSum(a: Net, b: Net, s: int, t: int, value: int, S: set<int>, m: int)
    requires ValidNet(a) && ValidNet(b) && FlowMoved(a, b, s, t, value)
    requires 0 <= m <= |a|
    ensures NetW(a, FromSide(a, b, S), m)
            == (if 0 <= s < m && s in S then value else 0) - (if 0 <= t < m && t in S then value else 0)
  {
    if m > 0 {
      FromSideSum(a, b, s, t, value, S, m - 1);
      var x := m - 1;
      var w := FromSide(a, b, S);
      if x in S {
        RowSplit(a, w, Used(a, b), (p: int, q: int) => 0, x, |a[x]|);
        RowZero0(a, x, |a[x]|);
        UsedRow(a, b, x, |a[x]|);
        assert a[x][..|a[x]|] == a[x] && b[x][..|b[x]|] == b[x];
        forall k | 0 <= k < |a[x]|
          ensures a[x][k].cap + a[x][k].flow == a[x][k].origCap == b[x][k].origCap == b[x][k].cap + b[x][k].flow
        {
          assert ValidAt(a, x, k) && ValidAt(b, x, k);
        }
        CapFlowRow(a[x], b[x]);
        assert RowW(a, w, x, |a[x]|) == CapOut(a, x) - CapOut(b, x);
        assert CapOut(a, x) - CapOut(b, x) == FlowOut(b, x) - FlowOut(a, x);
      } else {
        RowSplit(a, w, (p: int, q: int) => 0, (p: int, q: int) => 0, x, |a[x]|);
        RowZero0(a, x, |a[x]|);
      }
    }
  }

  /** The flow value equals the capacity used on the records leaving any s-t cut. */
  lemma FlowAcrossCut(a: Net, b: Net, s: int, t: int, value: int, S: set<int>)
    requires ValidNet(a) && ValidNet(b) && FlowMoved(a, b, s, t, value)
    requires 0 <= s < |a| && 0 <= t < |a| && s in S && t !in S
    ensures value == TotalW(a, Crossing(a, b, S))
  {
    ValidIsLinked(a);
    FromSideSum(a, b, s, t, value, S, |a|);
    NetSplit(a, FromSide(a, b, S), Inside(a, b, S), Crossing(a, b, S), |a|);
    var w := Inside(a, b, S);
    forall p, q | PointsIn(a, p, q) ensures Paired(a, p, q) && w(p, q) == -w(a[p][q].to, a[p][q].rev) {
      assert ValidAt(a, p, q) && ValidAt(b, p, q);
      var r, l := a[p][q].to, a[p][q].rev;
      UsedAt(a, b, p, q);
      UsedAt(a, b, r, l);
    }
    AntisymmetricZero(a, w, set p, q | 0 <= p < |a| && 0 <= q < |a[p]| :: (p, q));
  }

  /** Weak duality: no flow moves more than the capacity of an s-t cut. */
  lemma WeakDuality(a: Net, b: Net, s: int, t: int, value: int, S: set<int>)
    requires ValidNet(a) && ValidNet(b) && FlowMoved(a, b, s, t, value)
    requires 0 <= s < |a| && 0 <= t < |a| && s in S && t !in S
    ensures value <= CutCapacity(a, S)
  {
    FlowAcrossCut(a, b, s, t, value, S);
    forall p, q | PointsIn(a, p, q) ensures Crossing(a, b, S)(p, q) <= CutWeight(a, S)(p, q) {
      assert PointsIn(b, p, q) && ValidAt(b, p, q);
      UsedAt(a, b, p, q);
    }
    NetMono(a, Crossing(a, b, S), CutWeight(a, S), |a|);
  }

  /** The vertices s reaches in the residual network b. */
  ghost function ReachSet(b: Net, s: int): set<int> {
    set v | 0 <= v < |b| && Reachable(b, s, v)
  }

  /** When t is unreachable in b, the flow value is the capacity of the cut formed by the
      vertices s reaches: every record leaving that set is saturated. */
  lemma MinCut(a: Net, b: Net, s: int, t: int, value: int)
    requires ValidNet(a) && ValidNet(b) && FlowMoved(a, b, s, t, value)
    requires 0 <= s < |a| && 0 <= t < |a| && !Reachable(b, s, t)
    ensures s in ReachSet(b, s) && t !in ReachSet(b, s)
    ensures value == CutCapacity(a, ReachSet(b, s))
  {
    var S := ReachSet(b, s);
    ReachableSelf(b, s);
    FlowAcrossCut(a, b, s, t, value, S);
    forall p, q | PointsIn(a, p, q) ensures Crossing(a, b, S)(p, q) == CutWeight(a, S)(p, q) {
      assert PointsIn(b, p, q) && ValidAt(b, p, q);
      UsedAt(a, b, p, q);
      if p in S && a[p][q].to !in S && b[p][q].cap > 0 {
        ReachableStep(b, s, p, q);
        assert false;
      }
    }
    NetMono(a, Crossing(a, b, S), CutWeight(a, S), |a|);
    NetMono(a, CutWeight(a, S), Crossing(a, b, S), |a|);
  }

  /** A final network in which t is unreachable carries a maximum flow: any valid network
      reached from the same start moves at most as much from s to t. */
  lemma MaxFlowIsMaximum(a: Net, b: Net, c: Net, s: int, t: int, value: int, other: int)
    requires ValidNet(a) && ValidNet(b) && ValidNet(c)
    requires FlowMoved(a, b, s, t, value) && FlowMoved(a, c, s, t, other)
    requires 0 <= s < |a| && 0 <= t < |a| && !Reachable(b, s, t)
    ensures other <= value
  {
    MinCut(a, b, s, t, value);
    WeakDuality(a, c, s, t, other, ReachSet(b, s));
  }

  /** Any two runs that end with t unreachable from the same start return the same value:
      Ford-Fulkerson, Edmonds-Karp, Dinic and push-relabel agree on clones of one network. */
  lemma MaxFlowUnique(a: Net, b: Net, c: Net, s: int, t: int, v1: int, v2: int)
    requires ValidNet(a) && ValidNet(b) && ValidNet(c)
    requires FlowMoved(a, b, s, t, v1) && FlowMoved(a, c, s, t, v2)
    requires 0 <= s < |a| && 0 <= t < |a| && !Reachable(b, s, t) && !Reachable(c, s, t)
    ensures v1 == v2
  {
    MaxFlowIsMaximum(a, b, c, s, t, v1, v2);
    MaxFlowIsMaximum(a, c, b, s, t, v2, v1);
  }
}

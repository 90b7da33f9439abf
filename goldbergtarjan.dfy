/** Goldberg-Tarjan push-relabel with a FIFO queue of active vertices: the initial preflow
    saturates every record of s, then each polled vertex is discharged by pushing along
    admissible records behind a current-arc pointer and relabelling once the pointer has
    run off the end of its list. */
module GoldbergTarjan {
  import opened Residual
  import opened Paths
  import opened Conservation
  import opened FlowGraph
  import opened PushRelabel

  class GoldbergTarjan {
    var height: array<int>
    var excess: array<int>
    var activeQ: seq<int>
    var inQ: array<bool>
    var ptr: array<int>

    constructor ()
      ensures Fields(0) && activeQ == []
    {
      height := new int[0];
      excess := new int[0];
      activeQ := [];
      inQ := new bool[0];
      ptr := new int[0];
    }

    /** One entry per vertex in each array, and three distinct integer arrays. */
    ghost predicate Fields(n: int)
      reads this`height, this`excess, this`inQ, this`ptr
    {
      && height.Length == n && excess.Length == n && inQ.Length == n && ptr.Length == n
      && height != excess && height != ptr && excess != ptr
    }

    /** The values of the fields, with the network. */
    ghost function State(g: Graph): PR
      reads this, g.adj, height, excess, inQ, ptr
    {
      PR(g.adj[..], height[..], excess[..], activeQ, inQ[..], ptr[..])
    }

    /** The residual update, the excess transfer and the activation shared by push and the
        initial saturation of the records of s. */
    method Send(g: Graph, u: int, i: int, amt: int, s: int, t: int)
      requires g.Shaped() && Fields(g.n) && IsEdge(g.adj[..], u, i) && Paired(g.adj[..], u, i)
      modifies g.adj, excess, inQ, this`activeQ
      ensures State(g) == SendStep(old(State(g)), u, i, amt, s, t)
    {
      ghost var st := State(g);
      var v := g.adj[u][i].to;
      UpdateResidual(g, u, i, amt);
      excess[u] := excess[u] - amt;
      excess[v] := excess[v] + amt;
      if v != s && v != t && !inQ[v] && excess[v] > 0 {
        activeQ := activeQ + [v];
        inQ[v] := true;
      }
      assert State(g) == SendStep(st, u, i, amt, s, t);
    }

    /** push: send min(excess[u], cap) over record i of u, if that is positive. */
    method Push(g: Graph, u: int, i: int, s: int, t: int)
      requires g.Shaped() && Fields(g.n) && IsEdge(g.adj[..], u, i) && Paired(g.adj[..], u, i)
      modifies g.adj, excess, inQ, this`activeQ
      ensures State(g) == PushStep(old(State(g)), u, i, s, t)
    {
      var send := Min(excess[u], g.adj[u][i].cap);
      if send <= 0 {
        return;
      }
      Send(g, u, i, send, s, t);
    }

    /** The scan of relabel: the lowest height among the heads of the residual records of u.
        The source starts from Integer.MAX_VALUE; here `found` says whether a residual record
        has been seen yet. */
    method LowestResidual(g: Graph, u: int) returns (minH: int)
      requires g.Shaped() && Fields(g.n) && 0 <= u < g.n && InRange(g.adj[..])
      requires exists j | 0 <= j < |g.adj[u]| :: g.adj[u][j].cap > 0
      ensures IsLowest(g.adj[u], height[..], minH)
    {
      var row := g.Adj(u);
      var found := false;
      minH := 0;
      for j := 0 to |row|
        invariant found <==> exists k | 0 <= k < j :: row[k].cap > 0
        invariant found ==> IsLowest(row[..j], height[..], minH)
      {
        assert row[..j + 1] == row[..j] + [row[j]];
        if row[j].cap > 0 {
          var h := height[row[j].to];
          if !found || h < minH {
            minH := h;
          }
          found := true;
        }
      }
      assert row[..|row|] == row;
    }

    /** relabel: u climbs to one above its lowest residual neighbour. */
    method Relabel(g: Graph, u: int)
      requires g.Shaped() && Fields(g.n) && 0 <= u < g.n && InRange(g.adj[..])
      requires exists j | 0 <= j < |g.adj[u]| :: g.adj[u][j].cap > 0
      modifies height
      ensures IsLowest(g.adj[u], old(height[..]), height[u] - 1)
      ensures height[..] == old(height[..])[u := height[u]]
    {
      var minH := LowestResidual(g, u);
      height[u] := minH + 1;
    }

    /** discharge: push along admissible records from the current arc on, move the arc past
        the others, and relabel when it runs off the end, until u has no excess left. */
    method Discharge(g: Graph, u: int, s: int, t: int, ghost init: Net)
      requires g.Shaped() && Fields(g.n) && 0 <= u < g.n && u != s && u != t
      requires Inv(init, State(g), s, t, u) && !inQ[u]
      modifies g.adj, height, excess, inQ, ptr, this`activeQ
      ensures Inv(init, State(g), s, t, -1) && excess[u] == 0 && !inQ[u]
    {
      while excess[u] > 0
        invariant Inv(init, State(g), s, t, u) && !inQ[u]
        decreases Active(State(g), u), Res(State(g), u), Stuck(State(g), u), Left(State(g), u)
      {
        DischargeStep(g, u, s, t, init);
      }
      Settled(init, State(g), u, s, t);
    }

    /** One pass of the loop of discharge: relabel when the current arc has run off the end,
        otherwise push along it if it is admissible and move past it if not. */
    method DischargeStep(g: Graph, u: int, s: int, t: int, ghost init: Net)
      requires g.Shaped() && Fields(g.n) && 0 <= u < g.n && u != s && u != t
      requires Inv(init, State(g), s, t, u) && !inQ[u] && excess[u] > 0
      modifies g.adj, height, excess, inQ, ptr, this`activeQ
      ensures Inv(init, State(g), s, t, u) && !inQ[u]
      ensures Progress(old(State(g)), State(g), u)
    {
      if ptr[u] >= |g.adj[u]| {
        RelabelArc(g, u, s, t, init);
        return;
      }
      var e := g.adj[u][ptr[u]];
      if e.cap > 0 && height[u] == height[e.to] + 1 {
        PushArc(g, u, s, t, init);
      } else {
        AdvanceArc(g, u, s, t, init);
      }
    }

    /** relabel(g, u) followed by ptr[u] = 0: an admissible record of u now lies ahead. */
    method RelabelArc(g: Graph, u: int, s: int, t: int, ghost init: Net)
      requires g.Shaped() && Fields(g.n) && 0 <= u < g.n && u != s && u != t
      requires Inv(init, State(g), s, t, u) && excess[u] > 0 && ptr[u] >= |g.adj[u]|
      modifies height, ptr
      ensures Inv(init, State(g), s, t, u) && AdmissibleFrom(g.adj[..], height[..], u, ptr[u])
      ensures Active(State(g), u) == Active(old(State(g)), u) && Res(State(g), u) == Res(old(State(g)), u)
      ensures Stuck(State(g), u) < Stuck(old(State(g)), u)
    {
      ghost var st := State(g);
      assert !AdmissibleFrom(st.net, st.height, u, st.ptr[u]);
      ExcessResidual(init, st, s, u);
      Relabel(g, u);
      ghost var m := height[u] - 1;
      ptr[u] := 0;
      RelabelKeeps(init, st, u, m, s, t);
      assert State(g) == st.(height := st.height[u := m + 1], ptr := st.ptr[u := 0]);
    }

    /** push along the current arc of u, which is admissible: u runs out of excess or loses a
        residual record. */
    method PushArc(g: Graph, u: int, s: int, t: int, ghost init: Net)
      requires g.Shaped() && Fields(g.n) && 0 <= u < g.n && u != s
      requires Inv(init, State(g), s, t, u) && excess[u] > 0
      requires Admissible(g.adj[..], height[..], u, ptr[u])
      modifies g.adj, excess, inQ, this`activeQ
      ensures Inv(init, State(g), s, t, u) && inQ[u] == old(inQ[u])
      ensures Active(State(g), u) < Active(old(State(g)), u)
              || (Active(State(g), u) == Active(old(State(g)), u) && Res(State(g), u) < Res(old(State(g)), u))
    {
      ghost var st := State(g);
      PushKeeps(init, st, u, ptr[u], s, t);
      Push(g, u, ptr[u], s, t);
    }

    /** ptr[u]++ past a record that is not admissible. */
    method AdvanceArc(g: Graph, u: int, s: int, t: int, ghost init: Net)
      requires g.Shaped() && Fields(g.n) && 0 <= u < g.n
      requires Inv(init, State(g), s, t, u) && ptr[u] < |g.adj[u]|
      requires !Admissible(g.adj[..], height[..], u, ptr[u])
      modifies ptr
      ensures Inv(init, State(g), s, t, u) && ptr[u] == old(ptr[u]) + 1
      ensures Active(State(g), u) == Active(old(State(g)), u) && Res(State(g), u) == Res(old(State(g)), u)
      ensures Stuck(State(g), u) == Stuck(old(State(g)), u)
      ensures 0 <= Left(State(g), u) < Left(old(State(g)), u)
    {
      ghost var st := State(g);
      AdvanceKeeps(init, st, u, s, t, u);
      ptr[u] := ptr[u] + 1;
      assert State(g) == st.(ptr := st.ptr[u := st.ptr[u] + 1]);
    }

    /** The maximum s-t flow value by FIFO push-relabel. The main loop runs for at most
        `fuel` polls; `done` says that the queue emptied within them, and then the flow moved
        is excess[t], every other vertex balances and t is out of reach of s. */
    method MaxFlow(g: Graph, s: int, t: int, fuel: nat) returns (flow: int, done: bool)
      requires g.Valid() && 0 <= s < g.n && 0 <= t < g.n
      modifies this, g.adj
      ensures g.Valid() && Fields(g.n) && SameShape(old(g.adj[..]), g.adj[..])
      ensures done ==> && flow == excess[t] && flow >= 0 && (s == t ==> flow == 0)
                       && FlowMoved(old(g.adj[..]), g.adj[..], s, t, flow)
                       && (forall x | 0 <= x < g.n && x != s && x != t :: excess[x] == 0)
                       && (s != t ==> !Reachable(g.adj[..], s, t))
    {
      ghost var init: Net := g.adj[..];
      Allocate(g.Size(), s);
      SaturateStart(init, State(g), s, t);
      SaturateSource(g, s, t, init);
      done := Drain(g, s, t, fuel, init);
      flow := excess[t];
      ghost var st := State(g);
      if done {
        Finished(init, st, s, t);
      }
      assert st.net == g.adj[..] && st.excess == excess[..];
    }

    /** The fresh arrays of one run: height n at s and 0 elsewhere, no excess, nothing queued,
        every current arc at the front. */
    method Allocate(n: nat, s: int)
      requires 0 <= s < n
      modifies this
      ensures Fields(n) && fresh(height) && fresh(excess) && fresh(inQ) && fresh(ptr)
      ensures height[..] == StartHeights(n, s) && excess[..] == seq(n, _ => 0)
      ensures activeQ == [] && inQ[..] == seq(n, _ => false) && ptr[..] == seq(n, _ => 0)
    {
      height := new int[n](_ => 0);
      excess := new int[n](_ => 0);
      activeQ := [];
      inQ := new bool[n](_ => false);
      ptr := new int[n](_ => 0);
      height[s] := n;
      assert height[..] == StartHeights(n, s);
    }

    /** The initial preflow: every record of s with residual capacity is saturated, and the
        starting heights and current arcs stay as they were. */
    method SaturateSource(g: Graph, s: int, t: int, ghost init: Net)
      requires g.Shaped() && Fields(g.n) && 0 <= s < g.n && Saturating(init, State(g), s, t, 0)
      modifies g.adj, excess, inQ, this`activeQ
      ensures Saturating(init, State(g), s, t, |g.adj[s]|)
      ensures forall j | 0 <= j < |g.adj[s]| :: g.adj[s][j].cap == 0
      ensures height[..] == StartHeights(g.n, s) && forall v | 0 <= v < g.n :: ptr[v] == 0
      ensures Inv(init, State(g), s, t, -1)
    {
      var deg := |g.Adj(s)|;
      for i := 0 to deg
        invariant |g.adj[s]| == deg && Saturating(init, State(g), s, t, i)
      {
        var e := g.adj[s][i];
        if e.cap <= 0 {
          SaturateSkip(init, State(g), s, t, i);
          continue;
        }
        SaturateSend(init, State(g), s, t, i);
        Send(g, s, i, e.cap, s, t);
      }
      SaturatedRecords(init, State(g), s, t);
      SaturateDone(init, State(g), s, t);
    }

    /** activeQ.poll() and inQ[u] = false: the polled vertex is the one left out of the queue. */
    method Poll(g: Graph, s: int, t: int, ghost init: Net) returns (u: int)
      requires g.Shaped() && Fields(g.n) && Inv(init, State(g), s, t, -1) && activeQ != []
      modifies inQ, this`activeQ
      ensures 0 <= u < g.n && u != s && u != t && !inQ[u] && u == old(activeQ[0])
      ensures activeQ == old(activeQ[1..])
      ensures Inv(init, State(g), s, t, u)
    {
      ghost var st := State(g);
      PollKeeps(init, st, s, t);
      u := activeQ[0];
      activeQ := activeQ[1..];
      inQ[u] := false;
      assert State(g) == st.(queue := st.queue[1..], inQ := st.inQ[u := false]);
    }

    /** The FIFO main loop, for at most `fuel` polls: the polled vertex leaves the queue and
        is discharged. The result says whether the queue emptied. */
    method Drain(g: Graph, s: int, t: int, fuel: nat, ghost init: Net) returns (done: bool)
      requires g.Shaped() && Fields(g.n) && Inv(init, State(g), s, t, -1)
      modifies g.adj, height, excess, inQ, ptr, this`activeQ
      ensures Inv(init, State(g), s, t, -1) && (done <==> activeQ == [])
    {
      var steps := fuel;
      while activeQ != [] && steps > 0
        invariant Inv(init, State(g), s, t, -1)
        decreases steps
      {
        steps := steps - 1;
        var u := Poll(g, s, t, init);
        if u == s || u == t {
          continue;
        }
        Discharge(g, u, s, t, init);
        // The source re-queues u when it still has excess; discharge leaves it none.
      }
      done := activeQ == [];
    }
  }
}

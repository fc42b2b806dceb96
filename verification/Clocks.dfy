/** How the clocks of an execution graph relate to the order in which its events were created. */
module Clocks {
  import opened VectorClock
  import opened MemoryGraph

  /** The event at position `p` of thread `t`. */
  ghost predicate Placed(g: Graph, t: nat, p: nat)
    requires t < |g.perThread| && p < |g.perThread[t]|
  {
    var e := g.perThread[t][p];
    && e < |g.events| && g.events[e].thread == t && t < |g.events[e].clock| && g.events[e].clock[t] == p
    && (p == 0 <==> g.events[e].kind.Dummy?)
  }

  /** An event's own clock entry is its position in its thread, and threads list events in creation order. */
  ghost predicate Layout(g: Graph) {
    && |g.perThread| == g.threads && ClocksOk(g)
    && (forall t :: 0 <= t < g.threads ==> |g.perThread[t]| > 0)
    && (forall t, p :: 0 <= t < g.threads && 0 <= p < |g.perThread[t]| ==> Placed(g, t, p))
    && (forall t, p, q :: 0 <= t < g.threads && 0 <= p < q < |g.perThread[t]| ==> Earlier(g.perThread, t, p, q))
    && (forall e :: 0 <= e < |g.events| ==> Listed(g, e))
  }

  ghost predicate Earlier(perThread: seq<seq<nat>>, t: nat, p: nat, q: nat)
    requires t < |perThread| && p < q < |perThread[t]|
  {
    perThread[t][p] < perThread[t][q]
  }

  ghost predicate Listed(g: Graph, e: nat)
    requires e < |g.events| && |g.events[e].clock| == g.threads == |g.perThread|
  {
    var t := g.events[e].thread;
    t < g.threads && g.events[e].clock[t] < |g.perThread[t]| && g.perThread[t][g.events[e].clock[t]] == e
  }

  /** A clock covers, of each thread, a prefix of its events, and all those know. What it covers beyond the
      thread's dummy was created no later. */
  ghost predicate Knows(g: Graph, e: nat)
    requires Layout(g) && e < |g.events|
  {
    forall t :: 0 <= t < g.threads ==>
      && g.events[e].clock[t] < |g.perThread[t]|
      && (g.events[e].clock[t] > 0 ==> g.perThread[t][g.events[e].clock[t]] <= e)
      && forall p :: 0 <= p <= g.events[e].clock[t] ==>
         Placed(g, t, p) && Leq(g.events[g.perThread[t][p]].clock, g.events[e].clock)
  }

  ghost predicate Clocked(g: Graph) {
    Layout(g) && forall e :: 0 <= e < |g.events| ==> Knows(g, e)
  }

  /** Happens-before respects creation order. */
  lemma HbEarlier(g: Graph, a: nat, b: nat)
    requires Clocked(g) && a < |g.events| && b < |g.events| && Hb(g.events, a, b) && !g.events[a].kind.Dummy?
    ensures a <= b
  {
    assert Listed(g, a) && Knows(g, b);
    assert Placed(g, g.events[a].thread, g.events[a].clock[g.events[a].thread]);
    var t := g.events[a].thread;
    var p, q := g.events[a].clock[t], g.events[b].clock[t];
    assert p < q ==> Earlier(g.perThread, t, p, q);
  }

  /** Later events of a thread have larger clocks. */
  lemma ThreadHb(g: Graph, t: nat, p: nat, q: nat)
    requires Clocked(g) && t < g.threads && p <= q < |g.perThread[t]|
    ensures g.perThread[t][p] < |g.events| && g.perThread[t][q] < |g.events|
    ensures Hb(g.events, g.perThread[t][p], g.perThread[t][q])
  {
    assert Placed(g, t, p) && Placed(g, t, q);
    assert Knows(g, g.perThread[t][q]);
  }

  lemma LayoutRange(g: Graph)
    requires Layout(g)
    ensures ThreadsInRange(|g.events|, g.perThread)
  {
    forall t, k | 0 <= t < |g.perThread| && 0 <= k < |g.perThread[t]| ensures g.perThread[t][k] < |g.events| {
      assert Placed(g, t, k);
    }
  }

  ghost predicate Appendable(g: Graph, thread: nat) {
    Defined(g) && Clocked(g) && thread < g.threads && CanAppend(g, thread)
  }

  lemma AppendLayout(g: Graph, kind: Kind, location: int, thread: nat, order: Order)
    requires Appendable(g, thread) && !kind.Dummy?
    ensures Layout(Append(g, kind, location, thread, order))
  {
    var g' := Append(g, kind, location, thread, order);
    var id := |g.events|;
    var last := |g.perThread[thread]| - 1;
    assert Placed(g, thread, last);
    forall t, p | 0 <= t < g.threads && 0 <= p < |g'.perThread[t]| ensures Placed(g', t, p) {
      if t != thread || p <= last { assert Placed(g, t, p) && g'.perThread[t][p] == g.perThread[t][p]; }
    }
    forall e | 0 <= e < |g'.events| ensures Listed(g', e) {
      if e < id { assert Listed(g, e); }
    }
    forall t, p, q | 0 <= t < g.threads && 0 <= p < q < |g'.perThread[t]| ensures Earlier(g'.perThread, t, p, q) {
      if t == thread && q == last + 1 {
        assert Placed(g, t, p);
      } else {
        assert Earlier(g.perThread, t, p, q);
      }
    }
  }

  lemma AppendClocked(g: Graph, kind: Kind, location: int, thread: nat, order: Order)
    requires Appendable(g, thread) && !kind.Dummy?
    ensures Clocked(Append(g, kind, location, thread, order))
  {
    AppendLayout(g, kind, location, thread, order);
    var g' := Append(g, kind, location, thread, order);
    forall e | 0 <= e < |g.events| ensures Knows(g', e) {
      assert Knows(g, e);
      AppendKnows(g, g', e, thread);
    }
    AppendKnowsNewest(g, g', thread);
  }

  lemma AppendKnowsNewest(g: Graph, g': Graph, thread: nat)
    requires Clocked(g) && Layout(g') && thread < g.threads == g'.threads
    requires |g'.events| == |g.events| + 1 && g'.events[..|g.events|] == g.events
    requires g'.perThread == g.perThread[thread := g.perThread[thread] + [|g.events|]]
    requires Last(g, thread) < |g.events|
      && g'.events[|g.events|].clock == Increment(g.events[Last(g, thread)].clock, thread)
    ensures Knows(g', |g.events|)
  {
    var id, last := |g.events|, Last(g, thread);
    var clock := g'.events[id].clock;
    assert Placed(g, thread, |g.perThread[thread]| - 1) && Knows(g, last);
    assert Leq(g.events[last].clock, clock);
    forall t | 0 <= t < g.threads
      ensures clock[t] < |g'.perThread[t]| && (clock[t] > 0 ==> g'.perThread[t][clock[t]] <= id)
    {
    }
    forall t, p | 0 <= t < g.threads && 0 <= p <= clock[t]
      ensures Placed(g', t, p) && Leq(g'.events[g'.perThread[t][p]].clock, clock)
    {
      assert Placed(g', t, p);
      if p <= g.events[last].clock[t] {
        assert Placed(g, t, p) && g'.perThread[t][p] == g.perThread[t][p];
        assert Leq(g.events[g.perThread[t][p]].clock, g.events[last].clock);
      }
    }
  }

  lemma AppendKnows(g: Graph, g': Graph, e: nat, thread: nat)
    requires Clocked(g) && Layout(g') && e < |g.events| && Knows(g, e) && thread < g.threads == g'.threads
    requires |g'.events| == |g.events| + 1 && g'.events[..|g.events|] == g.events
    requires g'.perThread == g.perThread[thread := g.perThread[thread] + [|g.events|]]
    ensures Knows(g', e)
  {
    forall t, p | 0 <= t < g.threads && 0 <= p <= g.events[e].clock[t]
      ensures p < |g'.perThread[t]| && g'.perThread[t][p] == g.perThread[t][p] && g.perThread[t][p] < |g.events|
    {
      assert Placed(g, t, p);
    }
  }

  lemma PositionOrder(g: Graph, t: nat, p: nat, q: nat)
    requires Layout(g) && t < g.threads && p < |g.perThread[t]| && q < |g.perThread[t]|
    requires g.perThread[t][p] <= g.perThread[t][q]
    ensures p <= q
  {
    assert q < p ==> Earlier(g.perThread, t, q, p);
  }

  /** The newest event may take over the knowledge of any earlier one. */
  lemma JoinClocked(g: Graph, id: nat, w: nat)
    requires Clocked(g) && id == |g.events| - 1 && w < id && !g.events[id].kind.Dummy?
    ensures Clocked(g.(events := g.events[id := g.events[id].(clock := Join(g.events[id].clock, g.events[w].clock))]))
  {
    var clock := Join(g.events[id].clock, g.events[w].clock);
    var g' := g.(events := g.events[id := g.events[id].(clock := clock)]);
    var own := g.events[id].thread;
    assert Knows(g, id) && Knows(g, w) && Listed(g, id);
    assert clock[own] == g.events[id].clock[own] by {
      var p := g.events[w].clock[own];
      if p > 0 { PositionOrder(g, own, p, g.events[id].clock[own]); }
    }
    forall t, p | 0 <= t < g.threads && 0 <= p < |g.perThread[t]| ensures Placed(g', t, p) {
      assert Placed(g, t, p);
    }
    forall e | 0 <= e < |g.events| ensures Listed(g', e) {
      assert Listed(g, e);
    }
    assert Layout(g');
    forall e | 0 <= e < id ensures Knows(g', e) {
      assert Knows(g, e);
      JoinKnows(g, g', e);
    }
    assert Knows(g', id) by { JoinKnowsNewest(g, g', id, w); }
  }

  lemma JoinKnows(g: Graph, g': Graph, e: nat)
    requires Clocked(g) && Layout(g') && e < |g.events| - 1 && Knows(g, e) && !g.events[|g.events| - 1].kind.Dummy?
    requires |g'.events| == |g.events| && g' == g.(events := g'.events)
    requires forall k :: 0 <= k < |g.events| - 1 ==> g'.events[k] == g.events[k]
    ensures Knows(g', e)
  {
    forall t, p | 0 <= t < g.threads && 0 <= p <= g.events[e].clock[t] ensures g.perThread[t][p] < |g.events| - 1 {
      assert Placed(g, t, p);
      assert p < g.events[e].clock[t] ==> Earlier(g.perThread, t, p, g.events[e].clock[t]);
    }
  }

  lemma JoinKnowsNewest(g: Graph, g': Graph, id: nat, w: nat)
    requires Clocked(g) && Layout(g') && id == |g.events| - 1 && w < id
    requires |g'.events| == |g.events| && g' == g.(events := g'.events)
    requires g'.events == g.events[id := g.events[id].(clock := Join(g.events[id].clock, g.events[w].clock))]
    ensures Knows(g', id)
  {
    assert Knows(g, id) && Knows(g, w);
    var clock := g'.events[id].clock;
    assert Leq(g.events[id].clock, clock) && Leq(g.events[w].clock, clock);
    forall t | 0 <= t < g.threads
      ensures clock[t] < |g.perThread[t]| && (clock[t] > 0 ==> g.perThread[t][clock[t]] <= id)
      ensures forall p :: 0 <= p <= clock[t] ==> Placed(g', t, p) && Leq(g'.events[g.perThread[t][p]].clock, clock)
    {
      forall p | 0 <= p <= clock[t] ensures Placed(g', t, p) && Leq(g'.events[g.perThread[t][p]].clock, clock) {
        assert Placed(g, t, p);
        if p <= g.events[w].clock[t] {
          assert Leq(g.events[g.perThread[t][p]].clock, g.events[w].clock);
        } else {
          assert Leq(g.events[g.perThread[t][p]].clock, g.events[id].clock);
        }
      }
    }
  }
}

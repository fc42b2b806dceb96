/** Where the execution graph falls short of what it stands for. A read-modify-write whose source already has a
    successor leaves an edge that bypasses another, which the cycle check may reject; and a compare-exchange with one
    seq_cst order may keep a clock entry that no happens-before path explains. */
module GraphLimits {
  import opened Options
  import opened VectorClock
  import opened Relations
  import opened MemoryGraph
  import opened Clocks
  import opened Coherence
  import opened GraphInvariant
  import opened GraphOperations
  import opened GraphSteps
  import opened GraphRuns
  import opened CycleCheck
  import opened CycleBypass

  // ---- Every read-modify-write on a write with a successor -----------------------------------------------------

  /** A modifying attempt on `w` leads from `w` to `r` and on to every `b` that `w` was ordered before. */
  lemma {:induction false} RmwDetour(g: Graph, g1: Graph, w: nat, b: nat) returns (i: nat, j: nat)
    requires Invariant(g) && Readable(g, g1, w) && Resolved(g1, w, |g.events|).IsModifyRmw() && (w, b) in ModOrder(g)
    ensures var edges := ReadDone(g1, w, |g.events|).edges;
            && Detour(edges, i, j) && edges[i] == Edge(Mo, w, b) && edges[j] == Edge(Mo, w, |g.events|)
  {
    var id := |g.events|;
    var edges := ReadDone(g1, w, id).edges;
    RmwBetween(g, g1, w, b);
    EdgesBefore(g, g1, w);
    assert Edge(Mo, w, b) in g.edges && Edge(Mo, w, id) in edges && Edge(Mo, id, b) in edges;
    i, j := InOrder(g.edges, edges, Edge(Mo, w, b), Edge(Mo, w, id));
  }

  lemma {:induction false} EdgesBefore(g: Graph, g1: Graph, w: nat)
    requires Defined(g) && Readable(g, g1, w)
    ensures var edges := ReadDone(g1, w, |g.events|).edges; |g.edges| <= |edges| && edges[..|g.edges|] == g.edges
    ensures Edge(Mo, w, |g.events|) !in g.edges
  {
    var edges := ReadDone(g1, w, |g.events|).edges;
    DonePrefix(g1, w, |g.events|);
    assert g1.edges[..|g.edges|] == g.edges && edges[..|g1.edges|][..|g.edges|] == edges[..|g.edges|];
  }

  lemma {:induction false} InOrder(before: seq<Edge>, edges: seq<Edge>, x: Edge, y: Edge) returns (i: nat, j: nat)
    requires |before| <= |edges| && edges[..|before|] == before && x in before && y in edges && y !in before
    ensures i < j < |edges| && edges[i] == x && edges[j] == y
  {
    i :| 0 <= i < |before| && before[i] == x;
    j :| 0 <= j < |edges| && edges[j] == y;
    assert edges[i] == edges[..|before|][i];
    assert edges[i] in before && forall k :: 0 <= k < |before| ==>
      edges[..|before|][k] == edges[k] && edges[k] in before;
  }

  /** So its graph bypasses an edge, and nothing guarantees that an acyclic one is accepted. */
  lemma {:induction false} RmwShortcut(g: Graph, g1: Graph, w: nat, b: nat)
    requires Invariant(g) && Readable(g, g1, w) && Resolved(g1, w, |g.events|).IsModifyRmw() && (w, b) in ModOrder(g)
    ensures Shortcut(ReadDone(g1, w, |g.events|).edges)
  {
    var edges := ReadDone(g1, w, |g.events|).edges;
    var i, j := RmwDetour(g, g1, w, b);
    PlusEdge(MoPairs(edges), |g.events|, b);
    assert Bypasses(edges, i, j);
  }

  /** It is rejected as soon as the search enters `w` before it has finished `b` and the new event. */
  lemma {:induction false} RmwRejected(g: Graph, g1: Graph, w: nat, b: nat, colors: seq<Color>, stack: seq<Entry>)
    requires Invariant(g) && Readable(g, g1, w) && Resolved(g1, w, |g.events|).IsModifyRmw() && (w, b) in ModOrder(g)
    requires |colors| == |g.events| + 1 && StackInRange(|colors|, stack) && b < |g.events|
    requires stack != [] && stack[|stack| - 1] == Entry(w, false)
    requires colors[b] != Visited && colors[|g.events|] != Visited
    ensures var g' := ReadDone(g1, w, |g.events|);
            && Linked(g'.edges, g'.outs) && |g'.outs| == |colors|
            && Explore(g'.edges, g'.outs, colors, stack).None?
  {
    var g' := ReadDone(g1, w, |g.events|);
    var i, j := RmwDetour(g, g1, w, b);
    ReadLinked(g, g1, w);
    DetourRejects(g'.edges, g'.outs, colors, stack, i, j);
  }

  lemma {:induction false} ReadLinked(g: Graph, g1: Graph, w: nat)
    requires Invariant(g) && Readable(g, g1, w)
    ensures var g' := ReadDone(g1, w, |g.events|); Linked(g'.edges, g'.outs) && |g'.outs| == |g.events| + 1
  {
    var id := |g.events|;
    var e := Resolved(g1, w, id);
    ReadFinished(g, g1, w);
    FinishedDefined(g, g1, e, LastScAfter(g.lastSc, e, id), ReadEdges(g1, w, id), ReadDone(g1, w, id));
  }

  /** In particular when no earlier event leads to `w`, to `b` or to the new event: then it is never accepted. */
  lemma {:induction false} RmwInconsistent(g: Graph, g1: Graph, w: nat, b: nat)
    requires Invariant(g) && Readable(g, g1, w) && Resolved(g1, w, |g.events|).IsModifyRmw() && (w, b) in ModOrder(g)
    requires var edges := ReadDone(g1, w, |g.events|).edges;
      && FirstAt(edges, w, w) && FirstAt(edges, w, b) && FirstAt(edges, w, |g.events|)
    ensures !Passes(ReadDone(g1, w, |g.events|))
  {
    var g' := ReadDone(g1, w, |g.events|);
    var i, j := RmwDetour(g, g1, w, b);
    ReadLinked(g, g1, w);
    DetourInconsistent(g'.edges, g'.outs, i, j);
  }

  // ---- Adding edges ---------------------------------------------------------------------------------

  /** Edges that are not there yet are appended in order. */
  lemma {:induction false} AddAllFresh(g: Graph, es: seq<Edge>)
    requires InRange(|g.outs|, es)
    requires forall k :: 0 <= k < |es| && es[k].kind.Mo? ==> es[k] !in g.edges && es[k] !in es[..k]
    ensures AddAll(g, es).edges == g.edges + es
  {
    if es != [] {
      var last := |es| - 1;
      forall k | 0 <= k < last && es[..last][k].kind.Mo? ensures es[..last][k] !in es[..last][..k] {
        assert es[..last][..k] == es[..k];
      }
      AddAllFresh(g, es[..last]);
      assert g.edges + es == g.edges + es[..last] + [es[last]];
    }
  }

  lemma {:induction false} TwoThreads(events: seq<Event>, a: seq<nat>, b: seq<nat>, rule: Rule)
    requires Subject(rule) < |events| && IdsInRange(|events|, a) && IdsInRange(|events|, b)
    ensures ThreadsInRange(|events|, [a, b])
    ensures RuleEdges(events, [a, b], rule) == RuleEdgesOf(events, a, rule) + RuleEdgesOf(events, b, rule)
  {
    assert [a, b][..1] == [a] && [a][..0] == [];
    assert RuleEdges(events, [a], rule) == RuleEdges(events, [], rule) + RuleEdgesOf(events, a, rule);
    assert RuleEdges(events, [a, b], rule) == RuleEdges(events, [a], rule) + RuleEdgesOf(events, b, rule);
  }

  /** The last match of a thread is its `k`-th event, or there is none. */
  lemma {:induction false} LastMatch(events: seq<Event>, ids: seq<nat>, rule: Rule, k: nat)
    requires Subject(rule) < |events| && IdsInRange(|events|, ids) && k <= |ids|
    requires forall j :: k <= j < |ids| ==> !Matches(events, rule, ids[j])
    requires k > 0 ==> Matches(events, rule, ids[k - 1])
    ensures MostRecent(events, ids, rule) == if k > 0 then Some(ids[k - 1]) else None
  {
    if k < |ids| { LastMatch(events, ids[..|ids| - 1], rule, k); }
  }

  // ---- A run of four stores ---------------------------------------------------------------------------------------

  /** Thread 0 of two stores 0, 1, 2 and 3 to one location, the first and the third time seq_cst. */
  ghost function OrderAt(id: nat): Order { if id % 2 == 0 then SeqCst else Relaxed }

  ghost function EventAt(id: nat): Event {
    if id < 2 then Event(Dummy, -1, id, Relaxed, [0, 0], None, 0)
    else Event(Write(id - 2), 0, 0, OrderAt(id), [id - 1, 0], None, 0)
  }

  const EDGES: seq<Edge> := [Edge(Po, 0, 2), Edge(Po, 2, 3), Edge(Mo, 2, 3), Edge(Po, 3, 4), Edge(Sc, 2, 4),
                             Edge(Mo, 2, 4),
                             Edge(Mo, 3, 4), Edge(Po, 4, 5), Edge(Mo, 4, 5)]

  ghost function Added(n: nat): nat {
    if n == 0 then 0 else if n == 1 then 1 else if n == 2 then 3 else if n == 3 then 7 else 9
  }

  ghost predicate ById(ids: seq<nat>, n: nat) {
    |ids| == n + 1 && ids[0] == 0 && forall p :: 1 <= p <= n ==> ids[p] == p + 1
  }

  /** The graph after the first `n` of them, but for its lists of outgoing edges. */
  ghost predicate Stores(g: Graph, n: nat) {
    && n <= 4 && g.threads == 2 && |g.events| == n + 2 && (forall k :: 0 <= k < n + 2 ==> g.events[k] == EventAt(k))
    && |g.perThread| == 2 && ById(g.perThread[0], n) && g.perThread[1] == [1]
    && g.edges == EDGES[..Added(n)] && g.lastSc == if n == 0 then map[] else if n < 3 then map[0 := 2] else map[0 := 4]
  }

  /** The rules for the store `n`, the last event: it follows the store before it. */
  lemma {:induction false} StoreRules(events: seq<Event>, ids: seq<nat>, n: nat)
    requires 2 <= n && |events| == n + 1 && ById(ids, n - 1) && forall k :: 0 <= k <= n ==> events[k] == EventAt(k)
    ensures ThreadsInRange(n + 1, [ids, [1]])
    ensures WriteRules(events, [ids, [1]], n) == if n > 2 then [Edge(Mo, n - 1, n)] else []
  {
    TwoThreads(events, ids, [1], ReadWrite(n));
    TwoThreads(events, ids, [1], WriteWrite(n));
    LastMatch(events, ids, ReadWrite(n), 0);
    LastMatch(events, [1], ReadWrite(n), 0);
    LastMatch(events, [1], WriteWrite(n), 0);
    LastMatch(events, ids, WriteWrite(n), if n > 2 then n - 1 else 0);
  }

  lemma {:induction false} StoreAppended(g: Graph, n: nat)
    requires Stores(g, n) && n < 4 && CanAppend(g, 0)
    ensures var g1 := Append(g, Write(n), 0, 0, OrderAt(n + 2));
            && |g1.events| == n + 3 && (forall k :: 0 <= k < n + 3 ==> g1.events[k] == EventAt(k))
            && |g1.perThread| == 2 && ById(g1.perThread[0], n + 1) && g1.perThread[1] == [1]
            && g1.edges == g.edges + [PoEdge(n)] && g1.threads == 2 && g1.lastSc == g.lastSc
  {
    assert Increment(EventAt(if n == 0 then 0 else n + 1).clock, 0) == [n + 1, 0];
  }

  ghost function PoEdge(n: nat): Edge { Edge(Po, if n == 0 then 0 else n + 1, n + 2) }

  ghost function MoreEdges(n: nat): seq<Edge> {
    if n == 0 then [] else if n == 2 then [Edge(Sc, 2, 4), Edge(Mo, 2, 4), Edge(Mo, 3, 4)] else [Edge(Mo, n + 1, n + 2)]
  }

  lemma {:induction false} EdgesGrow(n: nat)
    requires n < 4
    ensures var edges := EDGES[..Added(n)] + [PoEdge(n)];
            && edges + MoreEdges(n) == EDGES[..Added(n + 1)]
            && forall k :: 0 <= k < |MoreEdges(n)| ==>
               MoreEdges(n)[k] !in edges && MoreEdges(n)[k] !in MoreEdges(n)[..k]
  {
  }

  /** A store that has been appended and not yet ordered. */
  ghost predicate Storing0(g: Graph, n: nat) {
    && n < 4 && Defined(g) && g.threads == 2 && |g.events| == n + 3
       && (forall k :: 0 <= k < n + 3 ==> g.events[k] == EventAt(k))
    && g.perThread == [g.perThread[0], [1]] && ById(g.perThread[0], n + 1)
    && g.edges == EDGES[..Added(n)] + [PoEdge(n)]
    && g.lastSc == if n == 0 then map[] else if n < 3 then map[0 := 2] else map[0 := 4]
  }

  lemma {:induction false} StoreEdgesAre(g: Graph, n: nat)
    requires Storing0(g, n)
    ensures StoreEvents(g, n + 2) == g.events && StoreEdges(g, n + 2) == MoreEdges(n)
  {
    var id, events := n + 2, g.events;
    assert StoreEvents(g, id) == events by { StoreScIs(g, n); }
    assert WriteRules(events, g.perThread, id) == if id > 2 then [Edge(Mo, id - 1, id)] else [] by {
      StoreRules(events, g.perThread[0], id);
    }
    if OrderAt(id) == SeqCst { StoreScIs(g, n); }
  }

  lemma {:induction false} StoreScIs(g: Graph, n: nat)
    requires Storing0(g, n)
    ensures StoreEvents(g, n + 2) == g.events
    ensures OrderAt(n + 2) == SeqCst ==> ScEdge(g, n + 2) + ScMoEdge(g, 0, n + 2)
                                         == if n == 0 then [] else [Edge(Sc, 2, 4), Edge(Mo, 2, 4)]
  {
    assert Join([3, 0], [1, 0]) == [3, 0];
    assert g.events[n + 2] == EventAt(n + 2);
  }

  lemma {:induction false} StoredIs(g: Graph, id: nat, es: seq<Edge>)
    requires Defined(g) && id < |g.events| && StoreEvents(g, id) == g.events && StoreEdges(g, id) == es
    requires forall k :: 0 <= k < |es| ==> es[k] !in g.edges && es[k] !in es[..k]
    ensures var g', e := Stored(g, id), g.events[id];
            && g'.edges == g.edges + es && g'.events == g.events && g'.threads == g.threads
               && g'.perThread == g.perThread
            && g'.lastSc == if e.order == SeqCst then g.lastSc[e.location := id] else g.lastSc
  {
    var e := g.events[id];
    StoreInRange(g, id);
    AddAllFresh(g.(lastSc := if e.order == SeqCst then g.lastSc[e.location := id] else g.lastSc), es);
  }

  lemma {:induction false} StoreDone(g: Graph, n: nat)
    requires Storing0(g, n)
    ensures Stores(Stored(g, n + 2), n + 1)
  {
    StoreEdgesAre(g, n);
    EdgesGrow(n);
    StoredIs(g, n + 2, MoreEdges(n));
  }

  lemma {:induction false} StoreStep(g: Graph, n: nat)
    requires Stores(g, n) && n < 4 && Appendable(g, 0)
    ensures Defined(Append(g, Write(n), 0, 0, OrderAt(n + 2)))
    ensures Stores(Stored(Append(g, Write(n), 0, 0, OrderAt(n + 2)), n + 2), n + 1)
  {
    StoreAppended(g, n);
    AppendDefined(g, Write(n), 0, 0, OrderAt(n + 2));
    StoreDone(Append(g, Write(n), 0, 0, OrderAt(n + 2)), n);
  }

  lemma {:induction false} StoresRun(n: nat) returns (graphs: seq<Graph>, ops: seq<Operation>)
    requires n <= 4
    ensures IsRun(2, graphs, ops) && |ops| == n && Stores(graphs[n], n)
  {
    if n == 0 {
      graphs, ops := [Initial(2)], [];
    } else {
      graphs, ops := StoresRun(n - 1);
      graphs, ops := StoreMore(graphs, ops, n - 1);
    }
  }

  lemma {:induction false} StoreMore(graphs: seq<Graph>, ops: seq<Operation>, n: nat)
    returns (graphs': seq<Graph>, ops': seq<Operation>)
    requires IsRun(2, graphs, ops) && |ops| == n < 4 && Stores(graphs[n], n)
    ensures IsRun(2, graphs', ops') && |ops'| == n + 1 && Stores(graphs'[n + 1], n + 1)
  {
    var g, op := graphs[n], Storing(0, 0, OrderAt(n + 2), n);
    RunAppendable(2, graphs, ops, 0);
    StoreStep(g, n);
    var g' := Stored(Append(g, Write(n), 0, 0, OrderAt(n + 2)), n + 2);
    RunExtends(2, graphs, ops, op, g');
    graphs', ops' := graphs + [g'], ops + [op];
  }

  // ---- A read on the other thread -------------------------------------------------------------------

  /** After `n` stores, an event of thread 1 on the same location has been appended. */
  ghost predicate Reads(g: Graph, n: nat, kind: Kind, order: Order, clock: seq<nat>) {
    && 3 <= n <= 4 && Defined(g) && g.threads == 2 && |g.events| == n + 3
    && (forall k :: 0 <= k < n + 2 ==> g.events[k] == EventAt(k))
    && g.events[n + 2] == Event(kind, 0, 1, order, clock, None, 0)
    && g.perThread == [g.perThread[0], [1, n + 2]] && ById(g.perThread[0], n)
    && g.edges == EDGES[..Added(n)] + [Edge(Po, 1, n + 2)] && g.lastSc == map[0 := 4]
  }

  lemma {:induction false} ReadStarted(g: Graph, n: nat, kind: Kind, order: Order, joined: bool)
    requires Stores(g, n) && n >= 3 && Appendable(g, 1) && !kind.Dummy?
    ensures var g1 := Started(g, kind, 0, 1, order, joined);
            Begun(g, g1) && Reads(g1, n, kind, order, if joined then [3, 1] else [0, 1])
  {
    StartedBegun(g, kind, 0, 1, order, joined);
    assert Increment([0, 0], 1) == [0, 1] && Join([0, 1], [3, 0]) == [3, 1] && [1] + [n + 2] == [1, n + 2];
  }

  /** Without a join the event knows of no store, and no rule applies. */
  lemma {:induction false} NoRules(events: seq<Event>, ids: seq<nat>, n: nat, rule: Rule)
    requires |events| == n + 3 && ById(ids, n) && forall k :: 0 <= k < n + 2 ==> events[k] == EventAt(k)
    requires events[n + 2].location == 0 && events[n + 2].clock == [0, 1] && Subject(rule) == n + 2
    ensures ThreadsInRange(|events|, [ids, [1, n + 2]]) && RuleEdges(events, [ids, [1, n + 2]], rule) == []
  {
    TwoThreads(events, ids, [1, n + 2], rule);
    forall j | 0 <= j < |ids| ensures !Matches(events, rule, ids[j]) {
      assert ids[j] >= 2 ==> events[ids[j]].clock[0] > events[n + 2].clock[0];
    }
    LastMatch(events, ids, rule, 0);
    LastMatch(events, [1, n + 2], rule, 0);
  }

  /** An increasing list of all the edges that leave an event is its list of outgoing edges. */
  lemma {:induction false} OutgoingIs(edges: seq<Edge>, a: nat, ids: seq<nat>)
    requires forall j, k :: 0 <= j < k < |ids| ==> ids[j] < ids[k]
    requires forall k :: 0 <= k < |ids| ==> ids[k] < |edges| && edges[ids[k]].from == a
    requires forall id: nat :: id < |edges| && edges[id].from == a ==> id in ids
    ensures Outgoing(edges, a) == ids
  {
    if edges != [] {
      var last := |edges| - 1;
      if edges[last].from == a {
        LastOf(ids, last);
        var rest := ids[..|ids| - 1];
        forall id: nat | id < last && edges[..last][id].from == a ensures id in rest {
          assert id in ids;
          var k :| 0 <= k < |ids| && ids[k] == id;
          assert rest[k] == id;
        }
        OutgoingIs(edges[..last], a, rest);
      } else {
        OutgoingIs(edges[..last], a, ids);
      }
    }
  }

  lemma {:induction false} LastOf(ids: seq<nat>, last: nat)
    requires last in ids && (forall k :: 0 <= k < |ids| ==> ids[k] <= last)
    requires forall j, k :: 0 <= j < k < |ids| ==> ids[j] < ids[k]
    ensures ids != [] && ids[|ids| - 1] == last && ids == ids[..|ids| - 1] + [last]
  {
    var k :| 0 <= k < |ids| && ids[k] == last;
    var m := |ids| - 1;
    assert ids[m] <= ids[k];
  }

  const RMW_ON_2: seq<Edge> := [Edge(Rf, 2, 5), Edge(Mo, 2, 5), Edge(Mo, 5, 3), Edge(Mo, 5, 4)]
  const RMW_ON_3: seq<Edge> := [Edge(Rf, 3, 5), Edge(Mo, 3, 5), Edge(Mo, 5, 4)]

  lemma {:induction false} AtomicityOn2(edges: seq<Edge>)
    requires edges == EDGES[..7] + [Edge(Po, 1, 5)]
    ensures Outgoing(edges, 2) == [1, 2, 4, 5] && AtomicityEdges(edges, [1, 2, 4, 5], 5) == [Edge(Mo, 5, 3),
        Edge(Mo, 5, 4)]
  {
    OutgoingIs(edges, 2, [1, 2, 4, 5]);
    assert [1, 2, 4, 5][..3] == [1, 2, 4] && [1, 2, 4][..2] == [1, 2] && [1, 2][..1] == [1] && [1][..0] == [];
    assert AtomicityEdges(edges, [1], 5) == [];
    assert AtomicityEdges(edges, [1, 2], 5) == [Edge(Mo, 5, 3)] == AtomicityEdges(edges, [1, 2, 4], 5);
  }

  lemma {:induction false} AtomicityOn3(edges: seq<Edge>)
    requires edges == EDGES[..7] + [Edge(Po, 1, 5)]
    ensures Outgoing(edges, 3) == [3, 6] && AtomicityEdges(edges, [3, 6], 5) == [Edge(Mo, 5, 4)]
  {
    OutgoingIs(edges, 3, [3, 6]);
    assert [3, 6][..1] == [3] && [3][..0] == [];
    assert AtomicityEdges(edges, [3], 5) == [];
  }

  lemma {:induction false} RmwTail(g: Graph, update: int -> int, w: nat)
    requires Reads(g, 3, Rmw(update), Relaxed, [0, 1]) && (w == 2 || w == 3)
    ensures CanRead(g, w, 5) && ReadSc(g, w, 5) == [] && ReadTail(g, w, 5) == []
  {
    var events := ReadEvents(g, w, 5);
    NoRules(events, g.perThread[0], 3, WriteRead(w, 5));
    NoRules(events, g.perThread[0], 3, ReadRead(w, 5));
    NoRules(events, g.perThread[0], 3, ReadWrite(5));
    NoRules(events, g.perThread[0], 3, WriteWrite(5));
  }

  lemma {:induction false} RmwHead(g: Graph, update: int -> int, w: nat)
    requires Reads(g, 3, Rmw(update), Relaxed, [0, 1]) && (w == 2 || w == 3)
    ensures CanRead(g, w, 5) && Resolved(g, w, 5).IsModifyRmw()
    ensures ReadHead(g, w, 5) == if w == 2 then RMW_ON_2 else RMW_ON_3
  {
    if w == 2 { AtomicityOn2(g.edges); } else { AtomicityOn3(g.edges); }
  }

  lemma {:induction false} RmwFresh(edges: seq<Edge>, w: nat)
    requires edges == EDGES[..7] + [Edge(Po, 1, 5)] && (w == 2 || w == 3)
    ensures var es := if w == 2 then RMW_ON_2 else RMW_ON_3;
            forall k :: 0 <= k < |es| && es[k].kind.Mo? ==> es[k] !in edges && es[k] !in es[..k]
  {
  }

  lemma {:induction false} ReadIs(g: Graph, w: nat, r: nat, es: seq<Edge>)
    requires Defined(g) && CanRead(g, w, r) && ReadEdges(g, w, r) == es
    requires forall k :: 0 <= k < |es| && es[k].kind.Mo? ==> es[k] !in g.edges && es[k] !in es[..k]
    ensures ReadDone(g, w, r).edges == g.edges + es
  {
    var e := Resolved(g, w, r);
    ReadInRange(g, w, r);
    var lastSc := if e.IsModifyRmw() && e.IsSeqCst() then g.lastSc[e.location := r] else g.lastSc;
    AddAllFresh(g.(events := ReadEvents(g, w, r), lastSc := lastSc), es);
  }

  lemma {:induction false} RmwDone(g: Graph, update: int -> int, w: nat)
    requires Reads(g, 3, Rmw(update), Relaxed, [0, 1]) && (w == 2 || w == 3)
    ensures CanRead(g, w, 5) && Resolved(g, w, 5).IsModifyRmw()
    ensures ReadDone(g, w, 5).edges == g.edges + if w == 2 then RMW_ON_2 else RMW_ON_3
  {
    var es := if w == 2 then RMW_ON_2 else RMW_ON_3;
    RmwHead(g, update, w);
    RmwTail(g, update, w);
    assert ReadEdges(g, w, 5) == es;
    RmwFresh(g.edges, w);
    ReadIs(g, w, 5, es);
  }

  // ---- Rejected although acyclic --------------------------------------------------------------------

  lemma {:induction false} NoneBelow(edges: seq<Edge>, w: nat, x: nat)
    requires w <= x && forall e :: e in edges && e.kind.Mo? ==> e.from >= w
    ensures FirstAt(edges, w, x)
  {
    forall e: nat | Plus(MoPairs(edges), e, x) ensures e >= w {
      var c := PlusFirst(MoPairs(edges), e, x);
      assert Edge(Mo, e, c) in edges;
    }
  }

  lemma {:induction false} EdgesOn2(edges: seq<Edge>)
    requires edges == EDGES[..7] + [Edge(Po, 1, 5)] + RMW_ON_2
    ensures Acyclic(MoPairs(edges))
    ensures FirstAt(edges, 2, 2) && FirstAt(edges, 2, 3) && FirstAt(edges, 2, 5)
  {
    NoneBelow(edges, 2, 2);
    NoneBelow(edges, 2, 3);
    NoneBelow(edges, 2, 5);
    var rank := (v: nat) => if v == 2 then 0 else if v == 5 then 1 else if v == 3 then 2 else 3;
    RankedAcyclic(MoPairs(edges), rank);
  }

  lemma {:induction false} RejectsOn2(g: Graph, update: int -> int)
    requires Invariant(g) && Stores(g, 3) && Appendable(g, 1)
    ensures var g1 := Started(g, Rmw(update), 0, 1, Relaxed, false);
            && Readable(g, g1, 2) && Acyclic(ModOrder(ReadDone(g1, 2, |g.events|)))
            && !Passes(ReadDone(g1, 2, |g.events|))
  {
    var g1 := Started(g, Rmw(update), 0, 1, Relaxed, false);
    RmwReady(g, g1, update, 2);
    EdgesOn2(ReadDone(g1, 2, 5).edges);
    BaseOrder(g);
    RmwInconsistent(g, g1, 2, 3);
  }

  lemma {:induction false} RmwReady(g: Graph, g1: Graph, update: int -> int, w: nat)
    requires Stores(g, 3) && Appendable(g, 1) && g1 == Started(g, Rmw(update), 0, 1, Relaxed, false)
      && (w == 2 || w == 3)
    ensures Readable(g, g1, w) && Resolved(g1, w, 5).IsModifyRmw()
    ensures ReadDone(g1, w, 5).edges == EDGES[..7] + [Edge(Po, 1, 5)] + if w == 2 then RMW_ON_2 else RMW_ON_3
  {
    ReadStarted(g, 3, Rmw(update), Relaxed, false);
    RmwDone(g1, update, w);
  }

  /** After three stores of one thread, a relaxed read-modify-write of another cannot read the first, although this
      would close no cycle. */
  lemma {:induction false} OverRejects(update: int -> int) returns (graphs: seq<Graph>, ops: seq<Operation>)
    ensures IsRun(2, graphs, ops) && |ops| == 3 && Appendable(graphs[3], 1)
    ensures var g, g1 := graphs[3], Started(graphs[3], Rmw(update), 0, 1, Relaxed, false);
            Readable(g, g1, 2) && Acyclic(ModOrder(ReadDone(g1, 2, |g.events|))) && !Passes(ReadDone(g1, 2, |g.events|))
  {
    graphs, ops := StoresRun(3);
    RunAppendable(2, graphs, ops, 1);
    RunKeeps(2, graphs, ops, 3);
    RejectsOn2(graphs[3], update);
  }

  // ---- Accepted although bypassed -------------------------------------------------------------------

  /** An event all of whose successors are visited is entered and left. */
  lemma {:induction false} Passed(edges: seq<Edge>, outs: seq<seq<nat>>, colors: seq<Color>, stack: seq<Entry>, v: nat)
    requires Linked(edges, outs) && |colors| == |outs| && v < |outs| && StackInRange(|outs|, stack)
    requires forall b: nat :: b < |outs| && Successor(edges, v, b) ==> colors[b] == Visited
    ensures Explore(edges, outs, colors, stack + [Entry(v, false)])
         == Explore(edges, outs, colors[v := Visited], stack)
  {
    OutgoingInRange(edges, v);
    var before, after := stack + [Entry(v, false)], stack + [Entry(v, true)];
    assert before[|stack| := Entry(v, true)] == after && after[..|stack|] == stack;
    FollowsNothing(edges, outs[v], 0, colors, after, v);
    assert Explore(edges, outs, colors, after) == Explore(edges, outs, colors[v := Visited], stack);
  }

  lemma {:induction false} FollowsNothing(edges: seq<Edge>, ids: seq<nat>, i: nat, colors: seq<Color>,
                                          stack: seq<Entry>, v: nat)
    requires InRange(|colors|, edges) && IdsInRange(|edges|, ids) && i <= |ids| && ids == Outgoing(edges, v)
    requires forall b: nat :: b < |colors| && Successor(edges, v, b) ==> colors[b] == Visited
    ensures Follow(edges, ids, i, colors, stack) == Some((colors, stack))
    decreases |ids| - i
  {
    if i < |ids| {
      var edge := edges[ids[i]];
      OutgoingExact(edges, v, ids[i]);
      assert edge in edges && (edge.kind.Mo? ==> Successor(edges, v, edge.to));
      FollowsNothing(edges, ids, i + 1, colors, stack, v);
    }
  }

  ghost predicate On3(edges: seq<Edge>) {
    && |edges| == 11 && edges[0] == Edge(Po, 0, 2) && edges[1] == Edge(Po, 2, 3) && edges[2] == Edge(Mo, 2, 3)
    && edges[3] == Edge(Po, 3, 4) && edges[4] == Edge(Sc, 2, 4) && edges[5] == Edge(Mo, 2, 4)
       && edges[6] == Edge(Mo, 3, 4)
    && edges[7] == Edge(Po, 1, 5) && edges[8] == Edge(Rf, 3, 5) && edges[9] == Edge(Mo, 3, 5)
       && edges[10] == Edge(Mo, 5, 4)
  }

  lemma {:induction false} AcceptsOn3(edges: seq<Edge>, outs: seq<seq<nat>>)
    requires On3(edges) && |outs| == 6 && Linked(edges, outs)
    ensures Consistent(edges, outs)
  {
    var c0 := Uncolored(6);
    Passed(edges, outs, c0, [], 0);
    var c1 := c0[0 := Visited];
    Passed(edges, outs, c1, [], 1);
    var c2 := c1[1 := Visited];
    ExploreOn3(edges, outs, c2);
    assert [] + [Entry(0, false)] == [Entry(0, false)];
    assert [] + [Entry(1, false)] == [Entry(1, false)];
    var c3 := Explore(edges, outs, c2, [Entry(2, false)]).value;
    assert Accepts(edges, outs, c3, 6);
    assert Accepts(edges, outs, c3, 5);
    assert Accepts(edges, outs, c3, 4);
    assert Accepts(edges, outs, c3, 3);
    assert Accepts(edges, outs, c2, 2);
    assert Accepts(edges, outs, c1, 1);
  }

  lemma {:induction false} FollowOn2(edges: seq<Edge>, colors: seq<Color>)
    requires On3(edges) && |colors| == 6 && InRange(6, edges)
    requires colors[3] == NotVisited && colors[4] == NotVisited
    ensures Follow(edges, [1, 2, 4, 5], 0, colors, [Entry(2, true)])
         == Some((colors[3 := InStack][4 := InStack],
                  [Entry(2, true), Entry(3, false), Entry(4, false)]))
  {
    var ids := [1, 2, 4, 5];
    var s2, s3 := [Entry(2, true)], [Entry(2, true), Entry(3, false)];
    var s4 := [Entry(2, true), Entry(3, false), Entry(4, false)];
    var c3 := colors[3 := InStack];
    var c4 := c3[4 := InStack];
    assert s3 == s2 + [Entry(3, false)] && s4 == s3 + [Entry(4, false)];
    assert Follow(edges, ids, 4, c4, s4) == Some((c4, s4));
    assert Follow(edges, ids, 3, c3, s3) == Some((c4, s4));
    assert Follow(edges, ids, 2, c3, s3) == Some((c4, s4));
    assert Follow(edges, ids, 1, colors, s2) == Some((c4, s4));
  }

  lemma {:induction false} ExploreOn3(edges: seq<Edge>, outs: seq<seq<nat>>, colors: seq<Color>)
    requires On3(edges) && |outs| == 6 == |colors| && Linked(edges, outs)
    requires forall v :: 2 <= v < 6 ==> colors[v] == NotVisited
    ensures var r := Explore(edges, outs, colors, [Entry(2, false)]);
            r.Some? && forall v :: 2 <= v < 6 ==> r.value[v] == Visited
  {
    OutgoingIs(edges, 2, [1, 2, 4, 5]);
    FollowOn2(edges, colors);
    var c4 := colors[3 := InStack][4 := InStack];
    var s3 := [Entry(2, true), Entry(3, false)];
    assert [Entry(2, false)][0 := Entry(2, true)] == [Entry(2, true)];
    assert s3 + [Entry(4, false)] == [Entry(2, true), Entry(3, false), Entry(4, false)] && outs[2] == [1, 2, 4, 5];
    assert Explore(edges, outs, colors, [Entry(2, false)]) == Explore(edges, outs, c4, s3 + [Entry(4, false)]);
    Passed(edges, outs, c4, s3, 4);
    EnterOn3(edges, outs, c4[4 := Visited], s3);
  }

  lemma {:induction false} EnterOn3(edges: seq<Edge>, outs: seq<seq<nat>>, colors: seq<Color>, stack: seq<Entry>)
    requires On3(edges) && |outs| == 6 == |colors| && Linked(edges, outs)
    requires stack == [Entry(2, true), Entry(3, false)]
    requires colors[4] == Visited && colors[5] == NotVisited
    ensures Explore(edges, outs, colors, stack)
         == Some(colors[5 := Visited][3 := Visited][2 := Visited])
  {
    OutgoingIs(edges, 3, [3, 6, 8, 9]);
    var ids := [3, 6, 8, 9];
    var s3 := [Entry(2, true), Entry(3, true)];
    var s5 := s3 + [Entry(5, false)];
    var c5 := colors[5 := InStack];
    assert Follow(edges, ids, 4, c5, s5) == Some((c5, s5));
    assert Follow(edges, ids, 3, colors, s3) == Some((c5, s5));
    assert Follow(edges, ids, 2, colors, s3) == Some((c5, s5));
    assert Follow(edges, ids, 1, colors, s3) == Some((c5, s5));
    assert Follow(edges, ids, 0, colors, s3) == Some((c5, s5));
    assert stack[1 := Entry(3, true)] == s3;
    assert Explore(edges, outs, colors, stack) == Explore(edges, outs, c5, s5);
    Passed(edges, outs, c5, s3, 5);
    var c := c5[5 := Visited];
    assert c == colors[5 := Visited];
    assert s3[..1] == [Entry(2, true)] && s3[..1][..0] == [];
    assert Explore(edges, outs, c, s3) == Explore(edges, outs, c[3 := Visited], s3[..1]);
    assert Explore(edges, outs, c[3 := Visited], s3[..1])
        == Explore(edges, outs, c[3 := Visited][2 := Visited], s3[..1][..0]);
  }

  lemma {:induction false} PassesOn3(g: Graph, update: int -> int)
    requires Invariant(g) && Stores(g, 3) && Appendable(g, 1)
    ensures var g1 := Started(g, Rmw(update), 0, 1, Relaxed, false);
            Readable(g, g1, 3) && Passes(ReadDone(g1, 3, |g.events|)) && Shortcut(ReadDone(g1, 3, |g.events|).edges)
  {
    var g1 := Started(g, Rmw(update), 0, 1, Relaxed, false);
    RmwReady(g, g1, update, 3);
    assert Passes(ReadDone(g1, 3, 5)) by {
      ReadLinked(g, g1, 3);
      ListedOn3(ReadDone(g1, 3, 5));
    }
    BaseOrder(g);
    RmwShortcut(g, g1, 3, 4);
  }

  lemma {:induction false} ListedOn3(g: Graph)
    requires g.edges == EDGES[..7] + [Edge(Po, 1, 5)] + RMW_ON_3 && |g.outs| == 6 && Linked(g.edges, g.outs)
    ensures Passes(g)
  {
    AcceptsOn3(g.edges, g.outs);
  }

  lemma {:induction false} BaseOrder(g: Graph)
    requires Stores(g, 3)
    ensures (2, 3) in ModOrder(g) && (3, 4) in ModOrder(g)
  {
    assert EDGES[..7][2] == Edge(Mo, 2, 3) && EDGES[..7][6] == Edge(Mo, 3, 4);
  }

  /** In the same run the second store can be read, although its edge to the third is bypassed as well: the search
      has finished the third by the time it enters the second. */
  lemma {:induction false} BypassAccepted(update: int -> int) returns (graphs: seq<Graph>, ops: seq<Operation>)
    ensures IsRun(2, graphs, ops) && |ops| == 3 && Appendable(graphs[3], 1)
    ensures var g, g1 := graphs[3], Started(graphs[3], Rmw(update), 0, 1, Relaxed, false);
            Readable(g, g1, 3) && Passes(ReadDone(g1, 3, |g.events|)) && Shortcut(ReadDone(g1, 3, |g.events|).edges)
  {
    graphs, ops := StoresRun(3);
    RunAppendable(2, graphs, ops, 1);
    RunKeeps(2, graphs, ops, 3);
    PassesOn3(graphs[3], update);
  }

  // ---- A clock entry without a path -----------------------------------------------------------------

  /** A compare-exchange that is seq_cst on the first store, and is not on the last one. */
  ghost function MixedCas(success: Order, failure: Order, desired: int): Kind {
    Cas(if success == SeqCst then 0 else 3, desired, failure)
  }

  /** The attempt to read the first store closes a cycle with the last seq_cst store, and leaves its mark. */
  lemma {:induction false} MixedMarked(g: Graph, success: Order, failure: Order, desired: int)
    requires Invariant(g) && Stores(g, 4) && Appendable(g, 1) && Mixed(success, failure)
    ensures Marked(g, MixedCas(success, failure, desired), 0, 1, success)
  {
    var kind := MixedCas(success, failure, desired);
    var g1 := Started(g, kind, 0, 1, success, false);
    assert Readable(g, g1, 2) && LeavesJoin(g1, 2, |g.events|) && !Passes(ReadDone(g1, 2, |g.events|)) by {
      ReadStarted(g, 4, kind, success, false);
      MixedLeaves(g1, success, failure, desired);
      MixedBack(g);
      BackEdge(g, g1, 2);
    }
    assert MarkedBy(g, kind, 0, 1, success, 2);
  }

  lemma {:induction false} MixedBack(g: Graph)
    requires Stores(g, 4)
    ensures g.lastSc == map[0 := 4] && Edge(Mo, 2, 4) in g.edges
  {
    assert EDGES[..9][5] == Edge(Mo, 2, 4);
  }

  lemma {:induction false} MixedLeaves(g: Graph, success: Order, failure: Order, desired: int)
    requires Mixed(success, failure) && Reads(g, 4, MixedCas(success, failure, desired), success, [0, 1])
    ensures CanRead(g, 2, 6) && LeavesJoin(g, 2, 6) && Resolved(g, 2, 6).IsSeqCst()
  {
  }

  /** A seq_cst attempt on an older write than the last seq_cst one is rejected. */
  lemma {:induction false} BackEdge(g: Graph, g1: Graph, w: nat)
    requires Invariant(g) && Readable(g, g1, w) && Resolved(g1, w, |g.events|).IsSeqCst()
    requires var x := g1.events[|g.events|].location;
      x in g.lastSc && Edge(Mo, w, g.lastSc[x]) in g.edges && g.lastSc[x] != w
    ensures !Passes(ReadDone(g1, w, |g.events|))
  {
    var id, last := |g.events|, g.lastSc[g1.events[|g.events|].location];
    var g' := ReadDone(g1, w, id);
    var e := Resolved(g1, w, id);
    ReadFinished(g, g1, w);
    FinishedDefined(g, g1, e, LastScAfter(g.lastSc, e, id), ReadEdges(g1, w, id), g');
    ReadParts(g1, w, id);
    assert Edge(Mo, last, w) in ReadSc(g1, w, id);
    assert (w, last) in MoPairs(g'.edges) && (last, w) in MoPairs(g'.edges);
    PlusEdge(MoPairs(g'.edges), w, last);
    PlusEdge(MoPairs(g'.edges), last, w);
    PlusTrans(MoPairs(g'.edges), w, last, w);
    if Passes(g') { ConsistentAcyclic(g'.edges, g'.outs); }
  }

  /** With the joined clock the event knows of the first three stores. */
  lemma {:induction false} JoinedRules(events: seq<Event>, ids: seq<nat>)
    requires |events| == 7 && ById(ids, 4) && forall k :: 0 <= k < 6 ==> events[k] == EventAt(k)
    requires events[6].location == 0 && events[6].clock == [3, 1]
    ensures ThreadsInRange(7, [ids, [1, 6]]) && ReadRules(events, [ids, [1, 6]], 5, 6) == [Edge(Mo, 4, 5)]
    ensures WriteRules(events, [ids, [1, 6]], 6) == [Edge(Mo, 4, 6)]
  {
    assert forall k :: 2 <= k < 6 ==> EventAt(k).clock == [k - 1, 0];
    assert events[5].clock[0] > events[6].clock[0];
    RuleAt(events, ids, WriteRead(5, 6), 4);
    RuleAt(events, ids, ReadRead(5, 6), 0);
    RuleAt(events, ids, ReadWrite(6), 0);
    RuleAt(events, ids, WriteWrite(6), 4);
  }

  lemma {:induction false} RuleAt(events: seq<Event>, ids: seq<nat>, rule: Rule, k: nat)
    requires |events| == 7 && ById(ids, 4) && Subject(rule) == 6 && k <= 5 && events[1] == EventAt(1)
      && events[6].location == 0
    requires forall j :: k <= j < 5 ==> !Matches(events, rule, ids[j])
    requires k > 0 ==> Matches(events, rule, ids[k - 1])
    ensures ThreadsInRange(7, [ids, [1, 6]])
    ensures RuleEdges(events, [ids, [1, 6]], rule) == if k > 0 then [RuleEdge(events, rule, ids[k - 1])] else []
  {
    TwoThreads(events, ids, [1, 6], rule);
    LastMatch(events, ids, rule, k);
    LastMatch(events, [1, 6], rule, 0);
  }

  /** On the last store the compare-exchange is not seq_cst and synchronizes with nothing. */
  lemma {:induction false} MixedResolved(g: Graph, success: Order, failure: Order, desired: int)
    requires Mixed(success, failure) && Reads(g, 4, MixedCas(success, failure, desired), success, [3, 1])
    ensures CanRead(g, 5, 6) && Resolved(g, 5, 6).clock == [3, 1] && !Resolved(g, 5, 6).IsSeqCst()
    ensures Resolved(g, 5, 6).IsModifyRmw() <==> failure == SeqCst
    ensures !Synchronizes(g.events[5], Resolved(g, 5, 6)) && Resolved(g, 5, 6).location == 0
  {
  }

  lemma {:induction false} MixedHead(g: Graph, success: Order, failure: Order, desired: int)
    requires Mixed(success, failure) && Reads(g, 4, MixedCas(success, failure, desired), success, [3, 1])
    ensures CanRead(g, 5, 6)
    ensures ReadHead(g, 5, 6) == [Edge(Rf, 5, 6)] + if failure == SeqCst then [Edge(Mo, 5, 6)] else []
    ensures ReadSc(g, 5, 6) == []
  {
    MixedResolved(g, success, failure, desired);
    NotYet(g.edges);
  }

  lemma {:induction false} MixedTail(g: Graph, success: Order, failure: Order, desired: int)
    requires Mixed(success, failure) && Reads(g, 4, MixedCas(success, failure, desired), success, [3, 1])
    ensures CanRead(g, 5, 6)
    ensures ReadTail(g, 5, 6) == [Edge(Mo, 4, 5)] + if failure == SeqCst then [Edge(Mo, 4, 6)] else []
  {
    MixedResolved(g, success, failure, desired);
    JoinedRules(ReadEvents(g, 5, 6), g.perThread[0]);
  }

  ghost function MixedAdded(failure: Order): seq<Edge> {
    if failure == SeqCst then [Edge(Rf, 5, 6), Edge(Mo, 5, 6), Edge(Mo, 4, 6)] else [Edge(Rf, 5, 6)]
  }

  /** The edges after the compare-exchange; one of those it asks for is there already. */
  lemma {:induction false} MixedDone(g: Graph, success: Order, failure: Order, desired: int)
    requires Mixed(success, failure) && Reads(g, 4, MixedCas(success, failure, desired), success, [3, 1])
    ensures CanRead(g, 5, 6) && ReadDone(g, 5, 6).edges == g.edges + MixedAdded(failure)
  {
    MixedResolved(g, success, failure, desired);
    var es := ReadEdges(g, 5, 6);
    assert es == ([Edge(Rf, 5, 6)] + if failure == SeqCst then [Edge(Mo, 5, 6)] else [])
                 + ([Edge(Mo, 4, 5)] + if failure == SeqCst then [Edge(Mo, 4, 6)] else []) by {
      MixedHead(g, success, failure, desired);
      MixedTail(g, success, failure, desired);
    }
    ReadInRange(g, 5, 6);
    NotYet(g.edges);
    MixedAround(g.(events := ReadEvents(g, 5, 6)), failure, es);
  }

  lemma {:induction false} MixedAround(g: Graph, failure: Order, es: seq<Edge>)
    requires Edge(Mo, 4, 5) in g.edges && Edge(Mo, 5, 6) !in g.edges && Edge(Mo, 4, 6) !in g.edges
      && InRange(|g.outs|, es)
    requires es == ([Edge(Rf, 5, 6)] + if failure == SeqCst then [Edge(Mo, 5, 6)] else [])
                   + ([Edge(Mo, 4, 5)] + if failure == SeqCst then [Edge(Mo, 4, 6)] else [])
    ensures AddAll(g, es).edges == g.edges + MixedAdded(failure)
  {
    var a := if failure == SeqCst then [Edge(Rf, 5, 6), Edge(Mo, 5, 6)] else [Edge(Rf, 5, 6)];
    var c := if failure == SeqCst then [Edge(Mo, 4, 6)] else [];
    assert es == a + [Edge(Mo, 4, 5)] + c;
    AddAround(g, a, Edge(Mo, 4, 5), c);
    assert g.edges + a + c == g.edges + MixedAdded(failure);
  }

  lemma {:induction false} NotYet(edges: seq<Edge>)
    requires edges == EDGES[..9] + [Edge(Po, 1, 6)]
    ensures Edge(Mo, 4, 5) in edges && Edge(Mo, 5, 6) !in edges && Edge(Mo, 4, 6) !in edges && Outgoing(edges, 5) == []
  {
    assert edges[8] == Edge(Mo, 4, 5);
    assert Outgoing(edges, 5) == [] by { NoneFrom(edges, 5); }
  }

  lemma {:induction false} NoneFrom(edges: seq<Edge>, a: nat)
    requires forall k :: 0 <= k < |edges| ==> edges[k].from != a
    ensures Outgoing(edges, a) == []
  {
    OutgoingIs(edges, a, []);
  }

  /** The targets of the modification-order edges by source, in the order in which these were added. */
  lemma {:induction false} MixedAscends(edges: seq<Edge>, failure: Order)
    requires edges == EDGES[..9] + [Edge(Po, 1, 6)] + MixedAdded(failure)
    ensures forall i :: 0 <= i < |edges| && edges[i].kind.Mo? ==> edges[i].from < edges[i].to
    ensures forall i, j ::
      0 <= i < j < |edges| && edges[i].kind.Mo? && edges[j].kind.Mo? && edges[i].from == edges[j].from ==>
      edges[i].to < edges[j].to
  {
    forall i | 0 <= i < |edges| && edges[i].kind.Mo? ensures MoAt(edges[i], i) {
      if i < 9 { assert edges[i] == EDGES[i]; } else { assert i > 9 ==> edges[i] == MixedAdded(failure)[i - 10]; }
    }
  }

  ghost predicate MoAt(e: Edge, i: nat) {
    match i
    case 2 => e == Edge(Mo, 2, 3)
    case 5 => e == Edge(Mo, 2, 4)
    case 6 => e == Edge(Mo, 3, 4)
    case 8 => e == Edge(Mo, 4, 5)
    case 11 => e == Edge(Mo, 5, 6)
    case 12 => e == Edge(Mo, 4, 6)
    case _ => false
  }

  /** An edge that is there already is skipped. */
  lemma {:induction false} AddAround(g: Graph, a: seq<Edge>, b: Edge, c: seq<Edge>)
    requires InRange(|g.outs|, a + [b] + c) && b.kind.Mo? && b in g.edges
    requires forall k :: 0 <= k < |a| && a[k].kind.Mo? ==> a[k] !in g.edges && a[k] !in a[..k]
    requires forall k :: 0 <= k < |c| && c[k].kind.Mo? ==> c[k] !in g.edges && c[k] !in a && c[k] !in c[..k]
    ensures AddAll(g, a + [b] + c).edges == g.edges + a + c
  {
    assert forall x :: x in a || x == b || x in c ==> x in a + [b] + c;
    AddAllConcat(g, a + [b], c);
    AddAllConcat(g, a, [b]);
    AddAllFresh(g, a);
    AddOne(AddAll(g, a), b);
    AddAllFresh(AddAll(g, a), c);
  }

  /** Edges that lead upwards, and from each event in the order of their targets, pass. */
  lemma {:induction false} AscendingConsistent(edges: seq<Edge>, outs: seq<seq<nat>>)
    requires Linked(edges, outs) && forall i :: 0 <= i < |edges| && edges[i].kind.Mo? ==> edges[i].from < edges[i].to
    requires forall i, j ::
      0 <= i < j < |edges| && edges[i].kind.Mo? && edges[j].kind.Mo? && edges[i].from == edges[j].from ==>
      edges[i].to < edges[j].to
    ensures Consistent(edges, outs)
  {
    var rank := (v: nat) => v;
    RankedAcyclic(MoPairs(edges), rank);
    forall i, j | 0 <= i < j < |edges| ensures !Bypasses(edges, i, j) {
      if Bypasses(edges, i, j) { PlusRanks(MoPairs(edges), rank, edges[j].to, edges[i].to); }
    }
    ConsistentAcyclic(edges, outs);
  }

  lemma {:induction false} MixedPasses(g: Graph, success: Order, failure: Order, desired: int)
    requires Mixed(success, failure) && Reads(g, 4, MixedCas(success, failure, desired), success, [3, 1])
    requires CanRead(g, 5, 6) && Linked(ReadDone(g, 5, 6).edges, ReadDone(g, 5, 6).outs)
    ensures Passes(ReadDone(g, 5, 6))
  {
    MixedDone(g, success, failure, desired);
    MixedAscends(ReadDone(g, 5, 6).edges, failure);
    AscendingConsistent(ReadDone(g, 5, 6).edges, ReadDone(g, 5, 6).outs);
  }

  /** Only the dummy of its thread comes before the compare-exchange. */
  lemma {:induction false} MixedAlone(g: Graph, failure: Order, a: nat)
    requires |g.events| == 7 && g.edges == EDGES[..9] + [Edge(Po, 1, 6)] + MixedAdded(failure) && a > 1
    requires !Synchronizes(g.events[5], g.events[6])
    ensures !Plus(HbPairs(g), a, 6)
  {
    if Plus(HbPairs(g), a, 6) {
      var b := PlusLast(HbPairs(g), a, 6);
      MixedInto(g, failure, b, 6);
      var c := PlusLast(HbPairs(g), a, 1);
      MixedInto(g, failure, c, 1);
    }
  }

  lemma {:induction false} MixedInto(g: Graph, failure: Order, a: nat, b: nat)
    requires |g.events| == 7 && g.edges == EDGES[..9] + [Edge(Po, 1, 6)] + MixedAdded(failure)
    requires !Synchronizes(g.events[5], g.events[6]) && (a, b) in HbPairs(g) && (b == 1 || b == 6)
    ensures b == 6 && a == 1
  {
    MixedTargets(g.edges, failure);
    var e :| e in g.edges && HbEdge(g, e) && e.from == a && e.to == b;
  }

  lemma {:induction false} MixedTargets(edges: seq<Edge>, failure: Order)
    requires edges == EDGES[..9] + [Edge(Po, 1, 6)] + MixedAdded(failure)
    ensures forall e :: e in edges ==>
      e.to != 1 && (e.to == 6 ==> e == Edge(Po, 1, 6) || e == Edge(Rf, 5, 6) || e.kind.Mo?)
  {
    forall i | 0 <= i < |edges|
      ensures edges[i].to != 1
      ensures edges[i].to == 6 ==> edges[i] == Edge(Po, 1, 6) || edges[i] == Edge(Rf, 5, 6) || edges[i].kind.Mo?
    {
      if i < 9 { assert edges[i] == EDGES[i]; } else { assert i > 9 ==> edges[i] == MixedAdded(failure)[i - 10]; }
    }
  }

  lemma {:induction false} MixedStep(g: Graph, success: Order, failure: Order, desired: int)
    requires Invariant(g) && Stores(g, 4) && Appendable(g, 1) && Mixed(success, failure)
    ensures var kind := MixedCas(success, failure, desired);
            var g1 := Started(g, kind, 0, 1, success, true);
            Readable(g, g1, 5) && Step(g, Reading(kind, 0, 1, success, 5), ReadDone(g1, 5, 6))
  {
    var kind := MixedCas(success, failure, desired);
    var g1 := Started(g, kind, 0, 1, success, true);
    ReadStarted(g, 4, kind, success, true);
    assert Readable(g, g1, 5) by { MixedResolved(g1, success, failure, desired); }
    assert Passes(ReadDone(g1, 5, 6)) by {
      ReadLinked(g, g1, 5);
      MixedPasses(g1, success, failure, desired);
    }
    assert Marked(g, kind, 0, 1, success) by { MixedMarked(g, success, failure, desired); }
    assert ReadOf(g, ReadDone(g1, 5, 6), kind, 0, 1, success, true, 5);
  }

  lemma {:induction false} MixedGap(g: Graph, success: Order, failure: Order, desired: int)
    requires Mixed(success, failure) && Reads(g, 4, MixedCas(success, failure, desired), success, [3, 1])
      && CanRead(g, 5, 6)
    ensures var g' := ReadDone(g, 5, 6); |g'.events| == 7 && Hb(g'.events, 4, 6) && !Plus(HbPairs(g'), 4, 6)
  {
    MixedResolved(g, success, failure, desired);
    MixedDone(g, success, failure, desired);
    DonePrefix(g, 5, 6);
    MixedAlone(ReadDone(g, 5, 6), failure, 4);
  }

  /** For every pair of orders of which one is seq_cst, some run has a compare-exchange with them whose clock includes
      that of a store from which no path leads to it. */
  lemma {:induction false} MixedInexact(success: Order, failure: Order, desired: int)
    returns (graphs: seq<Graph>, ops: seq<Operation>)
    requires Mixed(success, failure)
    ensures IsRun(2, graphs, ops) && |ops| == 5
    ensures ops[4] == Reading(MixedCas(success, failure, desired), 0, 1, success, 5)
    ensures |graphs[5].events| == 7 && Hb(graphs[5].events, 4, 6) && !Plus(HbPairs(graphs[5]), 4, 6)
  {
    graphs, ops := StoresRun(4);
    var op := Reading(MixedCas(success, failure, desired), 0, 1, success, 5);
    var g' := MixedRun(graphs, ops, success, failure, desired);
    graphs, ops := graphs + [g'], ops + [op];
  }

  lemma {:induction false} MixedRun(graphs: seq<Graph>, ops: seq<Operation>, success: Order, failure: Order,
                                    desired: int)
    returns (g': Graph)
    requires IsRun(2, graphs, ops) && |ops| == 4 && Stores(graphs[4], 4) && Mixed(success, failure)
    ensures IsRun(2, graphs + [g'], ops + [Reading(MixedCas(success, failure, desired), 0, 1, success, 5)])
    ensures |g'.events| == 7 && Hb(g'.events, 4, 6) && !Plus(HbPairs(g'), 4, 6)
  {
    RunKeeps(2, graphs, ops, 4);
    g' := MixedEnds(graphs[4], success, failure, desired);
    RunExtends(2, graphs, ops, Reading(MixedCas(success, failure, desired), 0, 1, success, 5), g');
  }

  lemma {:induction false} MixedEnds(g: Graph, success: Order, failure: Order, desired: int) returns (g': Graph)
    requires Invariant(g) && Stores(g, 4) && Mixed(success, failure)
    ensures Step(g, Reading(MixedCas(success, failure, desired), 0, 1, success, 5), g')
    ensures |g'.events| == 7 && Hb(g'.events, 4, 6) && !Plus(HbPairs(g'), 4, 6)
  {
    CanAppendAny(g, 1);
    MixedStep(g, success, failure, desired);
    var kind := MixedCas(success, failure, desired);
    ReadStarted(g, 4, kind, success, true);
    g' := ReadDone(Started(g, kind, 0, 1, success, true), 5, 6);
    MixedGap(Started(g, kind, 0, 1, success, true), success, failure, desired);
  }
}

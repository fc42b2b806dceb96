/** The execution graph as the runtime keeps it: one object, changed in place, with a snapshot of the edges that
    a tentative reads-from edge brings along. */
module LiveGraph {
  import opened Options
  import opened VectorClock
  import opened Relations
  import opened MemoryGraph
  import opened Clocks
  import opened Coherence
  import opened GraphInvariant
  import opened GraphOperations
  import opened GraphSteps
  import opened GraphRuns
  import opened CycleCheck
  import ReadProgress

  class LiveGraph {
    var nThreads: nat
    var events: seq<Event>
    var outs: seq<seq<nat>>
    var edges: seq<Edge>
    var eventsPerThread: seq<seq<nat>>
    var lastSeqCstWriteEvents: map<int, nat>
    var snapshotEdges: set<nat>
    var inSnapshotMode: bool
    ghost var start: nat
    ghost var graphs: seq<Graph>
    ghost var ops: seq<Operation>

    ghost function View(): Graph
      reads this
    {
      Graph(nThreads, events, edges, outs, eventsPerThread, lastSeqCstWriteEvents)
    }

    /** The snapshot holds the edges added since it was started. */
    ghost predicate Tracked()
      reads this
    {
      if inSnapshotMode then start <= |edges| && forall k: nat :: k in snapshotEdges <==>
        start <= k < |edges| else snapshotEdges == {}
    }

    ghost predicate Linked()
      reads this
    {
      InRange(|events|, edges) && OutsOk(View())
    }

    method ExistsEdge(e: Edge) returns (found: bool)
      requires Linked() && e.from < |events|
      ensures found <==> e in edges
    {
      OutgoingInRange(edges, e.from);
      for i := 0 to |outs[e.from]|
        invariant forall k :: 0 <= k < i ==> edges[outs[e.from][k]] != e
      {
        if edges[outs[e.from][i]] == e {
          return true;
        }
      }
      EdgeListed(edges, e);
      return false;
    }

    method AddEdge(e: Edge)
      requires Linked() && Tracked() && e.from < |events| && e.to < |events|
      modifies `edges, `outs, `snapshotEdges
      ensures View() == AddAll(old(View()), [e])
      ensures Linked() && Tracked()
    {
      AddOne(View(), e);
      AddEdgeOuts(View(), e);
      if e.kind.Mo? {
        var found := ExistsEdge(e);
        if found {
          return;
        }
      }
      var id := |edges|;
      edges := edges + [e];
      outs := outs[e.from := outs[e.from] + [id]];
      if inSnapshotMode {
        snapshotEdges := snapshotEdges + {id};
      }
    }

    // ---- Snapshots ------------------------------------------------------------------------------------------

    method StartSnapshot()
      requires !inSnapshotMode && Tracked()
      modifies `inSnapshotMode, `start
      ensures inSnapshotMode && Tracked() && start == |edges|
    {
      inSnapshotMode := true;
      start := |edges|;
    }

    method ApplySnapshot()
      requires inSnapshotMode
      modifies `inSnapshotMode, `snapshotEdges
      ensures !inSnapshotMode && Tracked()
    {
      inSnapshotMode := false;
      snapshotEdges := {};
    }

    /** Removes every edge added since the snapshot was started. */
    method DiscardSnapshot()
      requires inSnapshotMode && Tracked() && Linked()
      modifies `edges, `outs, `inSnapshotMode, `snapshotEdges
      ensures !inSnapshotMode && Tracked() && Linked()
      ensures edges == old(edges)[..start]
    {
      while edges != [] && |edges| - 1 in snapshotEdges
        invariant start <= |edges| <= |old(edges)| && edges == old(edges)[..|edges|]
        invariant snapshotEdges == old(snapshotEdges) && outs == old(outs)
        decreases |edges|
      {
        edges := edges[..|edges| - 1];
      }
      for a := 0 to |events|
        invariant |outs| == |events| && edges == old(edges)[..start] && snapshotEdges == old(snapshotEdges)
        invariant forall b: nat :: b < a ==> outs[b] == Outgoing(edges, b)
        invariant forall b: nat :: a <= b < |outs| ==> outs[b] == old(outs)[b]
      {
        var kept := Unsnapshot(outs[a], a, old(edges));
        outs := outs[a := kept];
      }
      inSnapshotMode := false;
      snapshotEdges := {};
    }

    method Unsnapshot(ids: seq<nat>, a: nat, ghost all: seq<Edge>) returns (kept: seq<nat>)
      requires start <= |all| && (forall k: nat :: k in snapshotEdges <==> start <= k < |all|)
        && ids == Outgoing(all, a)
      ensures kept == Outgoing(all[..start], a)
    {
      kept := ids;
      OutgoingPrefix(all, start, a);
      while kept != [] && kept[|kept| - 1] in snapshotEdges
        invariant |Outgoing(all[..start], a)| <= |kept| <= |ids| && kept == ids[..|kept|]
        decreases |kept|
      {
        kept := kept[..|kept| - 1];
      }
    }

    // ---- Edges of an operation ------------------------------------------------------------------------------

    /** Appends an event to its thread. */
    method CreatePoEdgeToEvent(kind: Kind, location: int, thread: nat, order: Order)
      requires Linked() && Tracked() && CanAppend(View(), thread)
      modifies `events, `outs, `edges, `eventsPerThread, `snapshotEdges
      ensures View() == Append(old(View()), kind, location, thread, order)
      ensures Linked() && Tracked()
    {
      var id := |events|;
      var last := eventsPerThread[thread][|eventsPerThread[thread]| - 1];
      var clock := Increment(events[last].clock, thread);
      eventsPerThread := eventsPerThread[thread := eventsPerThread[thread] + [id]];
      NoneOutgoing(edges, id);
      events := events + [Event(kind, location, thread, order, clock, None, 0)];
      outs := outs + [[]];
      AddOne(View(), Edge(Po, last, id));
      AddEdge(Edge(Po, last, id));
    }

    method CreateScEdgeToEvent(id: nat)
      requires Defined(View()) && Tracked() && id < |events|
      modifies `events, `outs, `edges, `snapshotEdges
      ensures View() == ScJoined(old(View()), id)
      ensures Linked() && Tracked()
    {
      var e := events[id];
      if e.location in lastSeqCstWriteEvents {
        var last := lastSeqCstWriteEvents[e.location];
        var clock := UniteWith(e.clock, events[last].clock);
        events := events[id := e.(clock := clock)];
        AddEdge(Edge(Sc, last, id));
      } else {
        assert events[id := e] == events;
      }
    }

    /** Orders the last seq_cst write of the location before `to`, unless it is `to`. */
    method CreateSeqCstMoEdge(location: int, to: nat)
      requires Linked() && LastScOk(View()) && Tracked() && to < |events|
      modifies `outs, `edges, `snapshotEdges
      ensures View() == AddAll(old(View()), ScMoEdge(old(View()), location, to))
      ensures Linked() && Tracked()
    {
      if location in lastSeqCstWriteEvents && lastSeqCstWriteEvents[location] != to {
        AddEdge(Edge(Mo, lastSeqCstWriteEvents[location], to));
      }
    }

    method CreateRmwAtomicityEdges(w: nat, r: nat)
      requires Linked() && Tracked() && w < |events| && r < |events| && w != r
      modifies `outs, `edges, `snapshotEdges
      ensures IdsInRange(old(|edges|), old(outs[w]))
      ensures InRange(|events|, AtomicityEdges(old(edges), old(outs[w]), r))
      ensures View() == AddAll(old(View()), AtomicityEdges(old(edges), old(outs[w]), r))
      ensures Linked() && Tracked()
    {
      ghost var g := View();
      var ids := outs[w];
      OutgoingInRange(edges, w);
      for i := 0 to |ids|
        invariant IdsInRange(|g.edges|, ids[..i]) && InRange(|events|, AtomicityEdges(g.edges, ids[..i], r))
        invariant View() == AddAll(g, AtomicityEdges(g.edges, ids[..i], r))
        invariant Linked() && Tracked()
      {
        AtomicityStep(g, ids, i, r);
        var edge := edges[ids[i]];
        if edge.kind.Mo? && edge.to != r {
          AddEdge(Edge(Mo, r, edge.to));
        }
      }
      assert ids[..|ids|] == ids;
    }

    // ---- Coherence rules --------------------------------------------------------------------------------------

    ghost predicate RuleReady(rule: Rule)
      reads this
    {
      && Ruled(nThreads, events, eventsPerThread, Subject(rule))
      && (rule.WriteRead? || rule.ReadRead? ==> rule.write < |events|)
    }

    method IsMatch(rule: Rule, o: nat) returns (matches: bool)
      requires RuleReady(rule) && o < |events|
      ensures matches <==> Matches(events, rule, o)
    {
      var subject := Subject(rule);
      if o == subject || events[o].location != events[subject].location {
        return false;
      }
      var ofKind := match rule
        case WriteRead(write, _) => o != write && events[o].Writes()
        case ReadRead(write, _) => o != write && events[o].IsReadOrRmw() && events[o].source.Some?
          && events[o].source != Some(write)
        case ReadWrite(_) => events[o].IsReadOrRmw()
        case WriteWrite(_) => events[o].Writes();
      var before := IsSubsetOf(events[o].clock, events[subject].clock);
      return ofKind && before;
    }

    method FindMostRecent(ids: seq<nat>, rule: Rule) returns (found: Option<nat>)
      requires RuleReady(rule) && IdsInRange(|events|, ids)
      ensures found == MostRecent(events, ids, rule)
    {
      var i := |ids|;
      assert ids[..i] == ids;
      while i > 0
        invariant 0 <= i <= |ids| && MostRecent(events, ids, rule) == MostRecent(events, ids[..i], rule)
      {
        assert ids[..i][..i - 1] == ids[..i - 1];
        var matches := IsMatch(rule, ids[i - 1]);
        if matches {
          return Some(ids[i - 1]);
        }
        i := i - 1;
      }
      return None;
    }

    method ApplyRuleTo(ids: seq<nat>, rule: Rule)
      requires RuleReady(rule) && Linked() && Tracked() && IdsInRange(|events|, ids)
        && InRange(|events|, RuleEdgesOf(events, ids, rule))
      modifies `outs, `edges, `snapshotEdges
      ensures View() == AddAll(old(View()), RuleEdgesOf(events, ids, rule))
      ensures Linked() && Tracked()
    {
      var other := FindMostRecent(ids, rule);
      if other.Some? {
        MostRecentMatches(events, ids, rule);
        ghost var here := RuleEdgesOf(events, ids, rule);
        assert here[0] in here;
        AddEdge(RuleEdge(events, rule, other.value));
      }
    }

    /** Adds the edge for the most recent matching event of each thread. */
    method ApplyRule(rule: Rule)
      requires RuleReady(rule) && Linked() && Tracked()
      modifies `outs, `edges, `snapshotEdges
      ensures InRange(|events|, RuleEdges(events, eventsPerThread, rule))
      ensures View() == AddAll(old(View()), RuleEdges(events, eventsPerThread, rule))
      ensures Linked() && Tracked()
    {
      ghost var g := View();
      for t := 0 to nThreads
        invariant InRange(|events|, RuleEdges(events, eventsPerThread[..t], rule))
        invariant View() == AddAll(g, RuleEdges(events, eventsPerThread[..t], rule))
        invariant Linked() && Tracked()
      {
        RuleStep(g, rule, t);
        ApplyRuleTo(eventsPerThread[t], rule);
      }
      assert eventsPerThread[..nThreads] == eventsPerThread;
    }

    // ---- Reading ---------------------------------------------------------------------------------------------

    /** Adds the reads-from edge, resolves the reading event, and joins its clock if it synchronizes. */
    method LinkSource(w: nat, r: nat, ghost g: Graph) returns (oldClock: Option<seq<nat>>)
      requires Defined(g) && View() == g && Tracked() && CanRead(g, w, r)
      modifies `events, `outs, `edges, `snapshotEdges
      ensures InRange(|g.outs|, [Edge(Rf, w, r)])
      ensures View() == Built(g, g.events[r := Synced(g, w, r)], g.lastSc, [Edge(Rf, w, r)]) && Linked() && Tracked()
      ensures oldClock == SavedClock(g, w, r)
    {
      oldClock := None;
      AddEdge(Edge(Rf, w, r));
      assert View() == Built(g, events, lastSeqCstWriteEvents, [Edge(Rf, w, r)]);
      BuiltFrame(g, events, lastSeqCstWriteEvents, [Edge(Rf, w, r)], g.events[r := Synced(g, w, r)],
                 lastSeqCstWriteEvents);
      events := events[r := events[r].ReadFrom(w, events[w].Written())];
      if Synchronizes(events[w], events[r]) {
        oldClock := Some(events[r].clock);
        var clock := UniteWith(events[r].clock, events[w].clock);
        events := events[r := events[r].(clock := clock)];
      }
    }

    /** For a modifying event, the edges around its source. */
    method OrderRmw(w: nat, r: nat, ghost g: Graph, ghost changed: seq<Event>)
      requires Defined(g) && CanRead(g, w, r) && changed == g.events[r := Synced(g, w, r)] && Linked() && Tracked()
      requires InRange(|g.outs|, [Edge(Rf, w, r)]) && View() == Built(g, changed, g.lastSc, [Edge(Rf, w, r)])
      modifies `outs, `edges, `snapshotEdges
      ensures InRange(|g.outs|, ReadHead(g, w, r)) && View() == Built(g, changed, g.lastSc, ReadHead(g, w, r))
      ensures Linked() && Tracked()
    {
      ResolvedFrom(g, w, r);
      if events[r].IsModifyRmw() {
        AddEdge(Edge(Mo, w, r));
        HeadBuilt(g, events, w, r, View());
        CreateRmwAtomicityEdges(w, r);
      } else {
        assert ReadHead(g, w, r) == [Edge(Rf, w, r)];
      }
    }

    /** For a seq_cst event, the edges from the last seq_cst write of its location. */
    method OrderSeqCst(w: nat, r: nat, ghost g: Graph, ghost es: seq<Edge>)
      requires Defined(g) && CanRead(g, w, r) && (forall x :: x in g.lastSc ==> g.lastSc[x] != r) && Linked()
        && Tracked()
      requires InRange(|g.outs|, es) && View() == Built(g, g.events[r := Synced(g, w, r)], g.lastSc, es)
      modifies `events, `outs, `edges, `snapshotEdges, `lastSeqCstWriteEvents
      ensures InRange(|g.outs|, es + ReadSc(g, w, r))
      ensures View() == Built(g, ReadEvents(g, w, r), LastScAfter(g.lastSc, Resolved(g, w, r), r), es + ReadSc(g, w, r))
      ensures Linked() && Tracked()
    {
      if events[r].IsSeqCst() {
        ScWhole(g, w, r, es, View());
        CreateScEdgeToEvent(r);
        OrderAfterLast(events[r].location, w, r, events[r].IsModifyRmw());
      } else {
        ScNone(g, w, r, es);
      }
    }

    /** Orders the last seq_cst write before the source and, if modifying, before the event, which becomes the last. */
    method OrderAfterLast(location: int, w: nat, r: nat, modifying: bool)
      requires Linked() && LastScOk(View()) && Tracked() && w < |events| && r < |events|
      modifies `outs, `edges, `snapshotEdges, `lastSeqCstWriteEvents
      ensures View() == AfterLast(old(View()), location, w, r, modifying)
      ensures Linked() && Tracked()
    {
      CreateSeqCstMoEdge(location, w);
      if modifying {
        CreateSeqCstMoEdge(location, r);
        lastSeqCstWriteEvents := lastSeqCstWriteEvents[location := r];
      }
    }

    method ApplyRules(w: nat, r: nat)
      requires RuleReady(WriteRead(w, r)) && Defined(View()) && Tracked()
      modifies `outs, `edges, `snapshotEdges
      ensures InRange(|events|, RulesFor(events, eventsPerThread, w, r, events[r].IsModifyRmw()))
      ensures View() == AddAll(old(View()), RulesFor(events, eventsPerThread, w, r, events[r].IsModifyRmw()))
      ensures Linked() && Tracked()
    {
      RulesOneByOne(View(), w, r);
      ApplyRule(WriteRead(w, r));
      ApplyRule(ReadRead(w, r));
      if events[r].IsModifyRmw() {
        ApplyRule(ReadWrite(r));
        ApplyRule(WriteWrite(r));
      }
    }

    /** Adds the edges around the source and those of a seq_cst access. */
    method LinkRead(w: nat, r: nat, ghost g: Graph) returns (oldClock: Option<seq<nat>>)
      requires Attemptable(g, w, r) && View() == g && Tracked()
      modifies `events, `outs, `edges, `snapshotEdges, `lastSeqCstWriteEvents
      ensures InRange(|g.outs|, ReadHead(g, w, r) + ReadSc(g, w, r)) && Linked() && Tracked()
      ensures View() == Built(g, ReadEvents(g, w, r), LastScAfter(g.lastSc, Resolved(g, w, r), r),
                              ReadHead(g, w, r) + ReadSc(g, w, r))
      ensures oldClock == SavedClock(g, w, r)
    {
      oldClock := LinkSource(w, r, g);
      ghost var changed := g.events[r := Synced(g, w, r)];
      OrderRmw(w, r, g, changed);
      OrderSeqCst(w, r, g, ReadHead(g, w, r));
    }

    /** Adds everything reading from `w` brings along. */
    method Attempt(w: nat, r: nat, ghost g: Graph) returns (oldClock: Option<seq<nat>>)
      requires Attemptable(g, w, r) && View() == g && Tracked()
      modifies `events, `outs, `edges, `snapshotEdges, `lastSeqCstWriteEvents
      ensures View() == ReadDone(g, w, r) && Linked() && Tracked()
      ensures oldClock == SavedClock(g, w, r)
    {
      oldClock := LinkRead(w, r, g);
      ghost var g1 := View();
      ReadWhole(g, w, r, g1);
      ReadRuled(g, w, r, g1);
      ApplyRules(w, r);
    }

    /** Tries to read from `w`. A rejected attempt leaves no edge behind, and no source. */
    method TryCreateRfEdge(w: nat, r: nat, ghost g: Graph) returns (ok: bool)
      requires Attemptable(g, w, r) && View() == g && Tracked() && !inSnapshotMode
      modifies `events, `outs, `edges, `snapshotEdges, `lastSeqCstWriteEvents, `inSnapshotMode, `start
      ensures ok <==> Passes(ReadDone(g, w, r))
      ensures View() == if ok then ReadDone(g, w, r) else RejectedAt(g, w, r)
      ensures ok ==> Acyclic(ModOrder(View()))
      ensures !ok ==> var es := ReadDone(g, w, r).edges; !Acyclic(MoPairs(es)) || Shortcut(es)
      ensures Tracked() && !inSnapshotMode
    {
      var location := events[r].location;
      var oldLast := lastSeqCstWriteEvents[location];
      StartSnapshot();
      var oldClock := Attempt(w, r, g);
      DonePrefix(g, w, r);
      ok := IsConsistent(edges, outs);
      if ok {
        ApplySnapshot();
      } else {
        Undo(r, oldClock, location, oldLast, w, g);
      }
    }

    method Undo(r: nat, oldClock: Option<seq<nat>>, location: int, oldLast: nat, ghost w: nat, ghost g: Graph)
      requires Attemptable(g, w, r) && inSnapshotMode && Tracked() && Linked() && start == |g.edges|
      requires edges[..start] == g.edges && events == ReadEvents(g, w, r) && nThreads == g.threads
        && eventsPerThread == g.perThread
      requires location == g.events[r].location && oldLast == g.lastSc[location]
      requires lastSeqCstWriteEvents == LastScAfter(g.lastSc, Resolved(g, w, r), r)
      requires oldClock == SavedClock(g, w, r)
      modifies `events, `outs, `edges, `snapshotEdges, `lastSeqCstWriteEvents, `inSnapshotMode, `start
      ensures View() == RejectedAt(g, w, r) && Tracked() && !inSnapshotMode
    {
      DiscardSnapshot();
      assert outs == g.outs;
      UndoneEvent(g, w, r, oldClock);
      var e := events[r];
      events := events[r := e.(source := None, readValue := 0, clock := if oldClock.Some? then oldClock.value
                               else e.clock)];
      lastSeqCstWriteEvents := lastSeqCstWriteEvents[location := oldLast];
      assert lastSeqCstWriteEvents == g.lastSc;
    }

    // ---- Operations ---------------------------------------------------------------------------------------------

    /** Between operations: what has been done so far is a run, and it led here. */
    ghost predicate Valid()
      reads this
    {
      IsRun(nThreads, graphs, ops) && graphs[|ops|] == View() && Tracked() && !inSnapshotMode
    }

    constructor (n: nat)
      ensures Valid() && View() == Initial(n) && ops == []
    {
      nThreads := n;
      events := seq(n, (t: nat) => Event(Dummy, -1, t, Relaxed, seq(n, _ => 0), None, 0));
      outs := seq(n, _ => []);
      edges := [];
      eventsPerThread := seq(n, (t: nat) => [t]);
      lastSeqCstWriteEvents := map[];
      snapshotEdges := {};
      inSnapshotMode := false;
      start := 0;
      graphs := [Initial(n)];
      ops := [];
    }

    /** The edges of a store whose event is in place. */
    method CompleteStore(id: nat)
      requires Defined(View()) && Tracked() && id < |events|
      requires forall x :: x in lastSeqCstWriteEvents ==> lastSeqCstWriteEvents[x] != id
      requires forall o :: 0 <= o < |events| && o != id && events[o].IsReadOrRmw() ==> events[o].source.Some?
      modifies `events, `outs, `edges, `snapshotEdges, `lastSeqCstWriteEvents
      ensures View() == Stored(old(View()), id) && Tracked()
    {
      StoreWhole(View(), id, StoreSc(View(), id));
      OrderStore(id);
      ApplyRule(ReadWrite(id));
      ApplyRule(WriteWrite(id));
    }

    method OrderStore(id: nat)
      requires Defined(View()) && Tracked() && id < |events|
      modifies `events, `outs, `edges, `snapshotEdges, `lastSeqCstWriteEvents
      ensures View() == StoreSc(old(View()), id) && Linked() && Tracked()
      ensures forall o :: 0 <= o < |events| ==> events[o] == old(events[o]).(clock := events[o].clock)
    {
      var location := events[id].location;
      if events[id].order == SeqCst {
        CreateScEdgeToEvent(id);
        CreateSeqCstMoEdge(location, id);
        lastSeqCstWriteEvents := lastSeqCstWriteEvents[location := id];
      }
    }

    method AddWriteEvent(location: int, thread: nat, order: Order, value: int)
      requires Valid() && thread < nThreads
      modifies this
      ensures Valid() && ops == old(ops) + [Storing(location, thread, order, value)]
      ensures nThreads == old(nThreads) && graphs == old(graphs) + [View()]
      ensures lastSeqCstWriteEvents == if order == SeqCst then old(lastSeqCstWriteEvents)[location := old(|events|)]
                                       else old(lastSeqCstWriteEvents)
    {
      RunAppendable(nThreads, graphs, ops, thread);
      RunStores(nThreads, graphs, ops, location, thread, order, value);
      var id := |events|;
      CreatePoEdgeToEvent(Write(value), location, thread, order);
      CompleteStore(id);
      graphs, ops := graphs + [View()], ops + [Storing(location, thread, order, value)];
    }

    /** One attempt of an operation started on `g`. */
    method TryWrite(w: nat, kind: Kind, location: int, thread: nat, order: Order, ghost g: Graph, ghost joined: bool)
      returns (ok: bool, ghost joined': bool)
      requires IsRun(nThreads, graphs, ops) && graphs[|ops|] == g && Appendable(g, thread)
      requires Candidate(g, kind, location, w) && (joined ==> Marked(g, kind, location, thread, order))
      requires View() == Started(g, kind, location, thread, order, joined) && !inSnapshotMode && Tracked()
      modifies `events, `outs, `edges, `snapshotEdges, `lastSeqCstWriteEvents, `inSnapshotMode, `start
      ensures !inSnapshotMode && Tracked()
      ensures ok ==> IsRun(nThreads, graphs + [View()], ops + [Reading(kind, location, thread, order, w)])
      ensures ok ==> Resulted(g.events, events, kind, w)
      ensures !ok ==> View() == Started(g, kind, location, thread, order, joined')
      ensures !ok ==> Unreadable(g, kind, location, thread, order, w)
      ensures joined' ==> Marked(g, kind, location, thread, order)
    {
      ghost var g1 := View();
      RunAttempts(nThreads, graphs, ops, kind, location, thread, order, joined, w, g1);
      var r := |events| - 1;
      ok := TryCreateRfEdge(w, r, g1);
      joined' := RunAttempted(nThreads, graphs, ops, kind, location, thread, order, joined, w, r, g1, View(), ok);
    }

    /** Tries the candidates in any order until one passes. */
    method TryWrites(writes: set<nat>, kind: Kind, location: int, thread: nat, order: Order, ghost g: Graph)
      returns (source: Option<nat>)
      requires IsRun(nThreads, graphs, ops) && graphs[|ops|] == g && Appendable(g, thread)
      requires forall w :: w in writes ==> Candidate(g, kind, location, w)
      requires View() == Started(g, kind, location, thread, order, false) && !inSnapshotMode && Tracked()
      modifies `events, `outs, `edges, `snapshotEdges, `lastSeqCstWriteEvents, `inSnapshotMode, `start
      ensures !inSnapshotMode && Tracked() && (source.Some? ==> source.value in writes)
      ensures source.Some? ==>
                IsRun(nThreads, graphs + [View()], ops + [Reading(kind, location, thread, order, source.value)])
      ensures source.Some? ==> Resulted(g.events, events, kind, source.value)
      ensures source.None? ==> forall w :: w in writes ==> Unreadable(g, kind, location, thread, order, w)
    {
      ghost var joined := false;
      var candidates := writes;
      while candidates != {}
        invariant View() == Started(g, kind, location, thread, order, joined) && !inSnapshotMode && Tracked()
        invariant (joined ==> Marked(g, kind, location, thread, order)) && candidates <= writes
        invariant forall w :: w in writes && w !in candidates ==> Unreadable(g, kind, location, thread, order, w)
        decreases |candidates|
      {
        var w :| w in candidates;
        var ok;
        ok, joined := TryWrite(w, kind, location, thread, order, g, joined);
        if ok {
          return Some(w);
        }
        candidates := candidates - {w};
      }
      return None;
    }

    /** Collects the writes of the location and appends the reading event. */
    method StartReading(kind: Kind, location: int, thread: nat, order: Order) returns (writes: set<nat>)
      requires Valid() && thread < nThreads && (kind.Read? || kind.Cas? || kind.Rmw?)
        && location in lastSeqCstWriteEvents
      modifies `events, `outs, `edges, `eventsPerThread, `snapshotEdges
      ensures Appendable(old(View()), thread) && Tracked()
      ensures View() == Started(old(View()), kind, location, thread, order, false)
      ensures forall w: nat :: w in writes <==> Candidate(old(View()), kind, location, w)
    {
      RunAppendable(nThreads, graphs, ops, thread);
      var id := |events|;
      writes := set w: nat | w < id && events[w].Writes() && events[w].location == location;
      CreatePoEdgeToEvent(kind, location, thread, order);
    }

    /** Appends a reading event and tries the writes of its location. One of them is always accepted. */
    method AddReading(kind: Kind, location: int, thread: nat, order: Order) returns (source: nat)
      requires Valid() && thread < nThreads && (kind.Read? || kind.Cas? || kind.Rmw?)
        && location in lastSeqCstWriteEvents
      modifies this
      ensures Valid() && nThreads == old(nThreads)
      ensures ops == old(ops) + [Reading(kind, location, thread, order, source)] && graphs == old(graphs) + [View()]
      ensures Candidate(old(View()), kind, location, source) && Resulted(old(events), events, kind, source)
    {
      ghost var g := View();
      var writes := StartReading(kind, location, thread, order);
      ReadProgress.ReadsSomething(nThreads, graphs, ops, kind, location, thread, order, writes);
      var found := TryWrites(writes, kind, location, thread, order, g);
      assert found.Some?;
      source := found.value;
      graphs, ops := graphs + [View()], ops + [Reading(kind, location, thread, order, source)];
    }

    /** A load returns what its source wrote. */
    method AddReadEvent(location: int, thread: nat, order: Order) returns (value: int, ghost w: nat)
      requires Valid() && thread < nThreads && location in lastSeqCstWriteEvents
      modifies this
      ensures Valid() && ops == old(ops) + [Reading(Read, location, thread, order, w)]
      ensures nThreads == old(nThreads) && graphs == old(graphs) + [View()]
      ensures Candidate(old(View()), Read, location, w) && value == old(events)[w].Written()
    {
      var source := AddReading(Read, location, thread, order);
      return events[source].Written(), source;
    }

    /** An unconditional read-modify-write returns the value it replaces. */
    method AddUnconditionalRMWEvent(location: int, thread: nat, update: int -> int, order: Order)
      returns (value: int, ghost w: nat)
      requires Valid() && thread < nThreads && location in lastSeqCstWriteEvents
      modifies this
      ensures Valid() && ops == old(ops) + [Reading(Rmw(update), location, thread, order, w)]
      ensures nThreads == old(nThreads) && graphs == old(graphs) + [View()]
      ensures Candidate(old(View()), Rmw(update), location, w) && value == old(events)[w].Written()
      ensures old(|events|) < |events| && events[old(|events|)].Written() == update(value)
    {
      var source := AddReading(Rmw(update), location, thread, order);
      return events[|events| - 1].readValue, source;
    }

    /** A compare-exchange says whether it wrote, and what it read; a failed one writes the latter back to
        `expected`. */
    method AddRMWEvent(location: int, thread: nat, expected: int, desired: int, success: Order, failure: Order)
      returns (result: (bool, int), expected': int, ghost w: nat)
      requires Valid() && thread < nThreads && location in lastSeqCstWriteEvents
      modifies this
      ensures Valid() && ops == old(ops) + [Reading(Cas(expected, desired, failure), location, thread, success, w)]
      ensures nThreads == old(nThreads) && graphs == old(graphs) + [View()]
      ensures Candidate(old(View()), Cas(expected, desired, failure), location, w)
      ensures result.1 == old(events)[w].Written() == expected' && (result.0 <==> expected' == expected)
      ensures old(|events|) < |events| && (events[old(|events|)].Writes() <==> result.0)
      ensures result.0 ==> events[old(|events|)].Written() == desired
    {
      var source := AddReading(Cas(expected, desired, failure), location, thread, success);
      w := source;
      var e := events[|events| - 1];
      result := (e.IsModifyRmw(), e.readValue);
      expected' := e.ExpectedAfter();
    }

    /** A new location starts with a seq_cst write on the first thread, so that it can be read. */
    method RegisterLocation(location: int, value: int)
      requires Valid() && nThreads > 0
      modifies this
      ensures Valid() && ops == old(ops) + [Storing(location, 0, SeqCst, value)]
      ensures lastSeqCstWriteEvents == old(lastSeqCstWriteEvents)[location := old(|events|)]
    {
      AddWriteEvent(location, 0, SeqCst, value);
    }
  }
}

/** Stores keep the graph invariant; so do loads and read-modify-writes that pass the cycle check. */
module GraphOperations {
  import opened Options
  import opened VectorClock
  import opened Relations
  import opened MemoryGraph
  import opened Clocks
  import opened Coherence
  import opened GraphInvariant

  lemma ClockedFrame(g: Graph, g': Graph)
    requires Clocked(g) && g'.threads == g.threads && g'.events == g.events && g'.perThread == g.perThread
    ensures Clocked(g')
  {
    forall t, p | 0 <= t < g.threads && 0 <= p < |g.perThread[t]| ensures Placed(g', t, p) {
      assert Placed(g, t, p);
    }
    forall e | 0 <= e < |g.events| ensures Listed(g', e) {
      assert Listed(g, e);
    }
    forall e | 0 <= e < |g.events| ensures Knows(g', e) {
      assert Knows(g, e);
    }
  }

  /** `g'` is the begun operation `g1` with its new event completed and `es` added. */
  ghost predicate Finished(g: Graph, g1: Graph, e: Event, lastSc: map<int, nat>, es: seq<Edge>, g': Graph) {
    var id := |g.events|;
    && Begun(g, g1) && InRange(id + 1, es)
    && e == g1.events[id].(clock := e.clock, source := e.source, readValue := e.readValue)
    && (e.source.Some? ==> e.source.value < id)
    && (forall x :: x in lastSc ==> lastSc[x] < id + 1)
    && g' == AddAll(g1.(events := g1.events[id := e], lastSc := lastSc), es)
    && Clocked(g') && Hb(g'.events, Last(g, e.thread), id)
  }

  lemma FinishedBy(g: Graph, g1: Graph, e: Event, lastSc: map<int, nat>, es: seq<Edge>)
    requires Begun(g, g1) && InRange(|g.events| + 1, es) && (forall x :: x in lastSc ==> lastSc[x] <= |g.events|)
    requires e == g1.events[|g.events|].(clock := e.clock, source := e.source, readValue := e.readValue)
    requires e.source.Some? ==> e.source.value < |g.events|
    requires Clocked(g1.(events := g1.events[|g.events| := e])) && Leq(g.events[Last(g, e.thread)].clock, e.clock)
    ensures Finished(g, g1, e, lastSc, es, AddAll(g1.(events := g1.events[|g.events| := e], lastSc := lastSc), es))
  {
    BegunOld(g, g1, Last(g, e.thread));
    ClockedFrame(g1.(events := g1.events[|g.events| := e]),
                 AddAll(g1.(events := g1.events[|g.events| := e], lastSc := lastSc), es));
  }

  lemma FinishedDefined(g: Graph, g1: Graph, e: Event, lastSc: map<int, nat>, es: seq<Edge>, g': Graph)
    requires Defined(g) && Clocked(g) && Finished(g, g1, e, lastSc, es, g')
    ensures Defined(g') && |g'.events| == |g.events| + 1 && g'.events[..|g.events|] == g.events
      && g'.events[|g.events|] == e
    ensures forall x :: x in g'.edges <==> x in g1.edges || x in es
    ensures ModOrder(g') == ModOrder(g) + MoPairs(es)
  {
    AddAllOuts(g1.(events := g1.events[|g.events| := e], lastSc := lastSc), es);
    AddAllMembers(g1.(events := g1.events[|g.events| := e], lastSc := lastSc), es);
    assert ModOrder(g') == ModOrder(g) + MoPairs(es);
  }

  lemma FinishedSourced(g: Graph, g1: Graph, e: Event, lastSc: map<int, nat>, es: seq<Edge>, g': Graph)
    requires Invariant(g) && Finished(g, g1, e, lastSc, es, g')
    requires e.IsReadOrRmw() ==>
      e.source.Some? && g.events[e.source.value].Writes() && g.events[e.source.value].location == e.location
    ensures Extends(g, g')
  {
    FinishedDefined(g, g1, e, lastSc, es, g');
    forall a | 0 <= a < |g'.events| && g'.events[a].IsReadOrRmw() ensures HasSource(g', a) {
      assert a < |g.events| ==> g'.events[a] == g'.events[..|g.events|][a] && HasSource(g, a);
      assert g'.events[g'.events[a].source.value] == g'.events[..|g.events|][g'.events[a].source.value];
    }
  }

  lemma FinishedCoherent(g: Graph, g1: Graph, e: Event, lastSc: map<int, nat>, es: seq<Edge>, g': Graph)
    requires Invariant(g) && Finished(g, g1, e, lastSc, es, g') && Extends(g, g')
    requires e.IsModifyRmw() ==> Edge(Mo, e.source.value, |g.events|) in es
    requires var events, threads := g1.events[|g.events| := e], g1.perThread;
      && (e.Writes() ==> forall x :: x in WriteRules(events, threads, |g.events|) ==> x in es)
      && (e.IsReadOrRmw() ==> forall x :: x in ReadRules(events, threads, e.source.value, |g.events|) ==> x in es)
    ensures Coherent(g')
  {
    var id := |g.events|;
    FinishedDefined(g, g1, e, lastSc, es, g');
    if e.Writes() {
      assert Applied(g', WriteWrite(id)) && Applied(g', ReadWrite(id));
    }
    if e.IsReadOrRmw() {
      assert Applied(g', WriteRead(e.source.value, id)) && Applied(g', ReadRead(e.source.value, id));
    }
    WriteWriteStep(g, g');
    ReadWriteStep(g, g');
    WriteReadStep(g, g');
    ReadReadStep(g, g');
    forall b | 0 <= b < |g'.events| && g'.events[b].IsModifyRmw() ensures (Source(g', b), b) in ModOrder(g') {
      if b < id {
        OldEvent(g, g', b);
      } else {
        assert Edge(Mo, e.source.value, id) in g'.edges;
      }
    }
  }

  lemma FinishedPo(g: Graph, g1: Graph, e: Event, lastSc: map<int, nat>, es: seq<Edge>, g': Graph)
    requires Invariant(g) && Finished(g, g1, e, lastSc, es, g')
    ensures PoLinked(g')
  {
    FinishedDefined(g, g1, e, lastSc, es, g');
    forall t, p | 0 <= t < g'.threads && 0 < p < |g'.perThread[t]|
      ensures PoAt(g', t, p)
    {
      if p < |g.perThread[t]| {
        assert PoAt(g, t, p);
        assert g'.perThread[t][p - 1] == g.perThread[t][p - 1] && g'.perThread[t][p] == g.perThread[t][p];
      } else {
        assert t == e.thread && g'.perThread[t][p] == |g.events| && g'.perThread[t][p - 1] == Last(g, t);
      }
    }
  }

  /** Where the new event's happens-before edges come from. */
  ghost predicate LinkedFrom(events: seq<Event>, last: nat, e: Event, es: seq<Edge>, preds: set<nat>) {
    last in preds && Included(events, e, preds) && LinksPresent(events, last, e, es, preds)
      && LinksOnly(events, e, es, preds)
  }

  ghost predicate Included(events: seq<Event>, e: Event, preds: set<nat>) {
    forall x :: x in preds ==> x < |events| && Leq(events[x].clock, e.clock)
  }

  ghost predicate LinksPresent(events: seq<Event>, last: nat, e: Event, es: seq<Edge>, preds: set<nat>) {
    forall x :: x in preds && x != last ==>
      Edge(Sc, x, |events|) in es || (Edge(Rf, x, |events|) in es && x < |events| && Synchronizes(events[x], e))
  }

  ghost predicate LinksOnly(events: seq<Event>, e: Event, es: seq<Edge>, preds: set<nat>) {
    && (forall x :: x in es && !x.kind.Mo? ==> x.to == |events| && x.from < |events|)
    && (forall x :: x in es && !x.kind.Mo? && (x.kind.Rf? ==> Synchronizes(events[x.from], e)) ==> x.from in preds)
  }

  lemma FinishedHb(g: Graph, g1: Graph, e: Event, lastSc: map<int, nat>, es: seq<Edge>, g': Graph, preds: set<nat>)
    requires Invariant(g) && Finished(g, g1, e, lastSc, es, g') && Extends(g, g')
      && LinkedFrom(g.events, Last(g, e.thread), e, es, preds)
    ensures HbSound(g') && HbUpdated(g, g', preds)
    ensures forall x :: x in preds ==> (x, |g.events|) in HbPairs(g')
  {
    FinishedDefined(g, g1, e, lastSc, es, g');
    forall x | x in preds ensures x < |g.events| && Hb(g'.events, x, |g.events|) && (x, |g.events|) in HbPairs(g') {
      PredLinked(g, g', e, es, preds, x);
    }
    forall x | x in g'.edges && x !in g.edges && HbEdge(g', x) ensures x.to == |g.events| && x.from in preds {
      if x in es { NewHbEdge(g, g', e, es, preds, x); }
    }
    HbSoundStep(g, g', preds);
  }

  lemma PredLinked(g: Graph, g': Graph, e: Event, es: seq<Edge>, preds: set<nat>, x: nat)
    requires Extends(g, g') && Layout(g) && e.thread < g.threads && g.perThread[e.thread] != []
      && LinkedFrom(g.events, Last(g, e.thread), e, es, preds) && x in preds
    requires g'.events[|g.events|] == e && (forall y :: y in es ==> y in g'.edges)
    requires Edge(Po, Last(g, e.thread), |g.events|) in g'.edges
    ensures x < |g.events| && Hb(g'.events, x, |g.events|) && (x, |g.events|) in HbPairs(g')
  {
    var id := |g.events|;
    OldEvent(g, g', x);
    var edge := if x == Last(g, e.thread) then Edge(Po, x, id) else if Edge(Sc, x, id) in es then Edge(Sc, x, id)
      else Edge(Rf, x, id);
    assert edge in g'.edges && HbEdge(g', edge);
  }

  lemma NewHbEdge(g: Graph, g': Graph, e: Event, es: seq<Edge>, preds: set<nat>, x: Edge)
    requires Extends(g, g') && Layout(g) && e.thread < g.threads && g.perThread[e.thread] != []
      && LinkedFrom(g.events, Last(g, e.thread), e, es, preds)
    requires x in es && HbEdge(g', x) && g'.events[|g.events|] == e
    ensures x.to == |g.events| && x.from in preds
  {
    if x.kind.Rf? { OldEvent(g, g', x.from); }
  }

  /** The new event's clock is built from those of `preds`, entry by entry. */
  ghost predicate BuiltFrom(g: Graph, e: Event, preds: set<nat>)
    requires Layout(g) && |e.clock| == g.threads
  {
    forall t: nat :: t < g.threads && t != e.thread ==>
      exists x: nat :: x in preds && x < |g.events| && g.events[x].clock[t] == e.clock[t]
  }

  lemma FinishedComplete(g: Graph, g1: Graph, e: Event, lastSc: map<int, nat>, es: seq<Edge>, g': Graph,
                         preds: set<nat>)
    requires Invariant(g) && Finished(g, g1, e, lastSc, es, g') && Extends(g, g')
      && LinkedFrom(g.events, Last(g, e.thread), e, es, preds)
    requires |e.clock| == g.threads && BuiltFrom(g, e, preds) && HbComplete(g)
    ensures HbComplete(g')
  {
    FinishedDefined(g, g1, e, lastSc, es, g');
    FinishedHb(g, g1, e, lastSc, es, g', preds);
    assert ClockFrom(g, g', preds);
    HbCompleteStep(g, g', preds);
  }

  /** A seq_cst access is ordered after the last seq_cst write of its location, and so is what it reads. */
  ghost predicate ScLinked(lastSc: map<int, nat>, e: Event, id: nat, es: seq<Edge>) {
    e.IsSeqCst() && e.location in lastSc ==>
      var last := lastSc[e.location];
      && Edge(Sc, last, id) in es
      && (e.Writes() && last != id ==> Edge(Mo, last, id) in es)
      && (e.IsReadOrRmw() && e.source.Some? && e.source.value != last ==> Edge(Mo, last, e.source.value) in es)
  }

  ghost function LastScAfter(lastSc: map<int, nat>, e: Event, id: nat): map<int, nat> {
    if e.Writes() && e.IsSeqCst() then lastSc[e.location := id] else lastSc
  }

  lemma FinishedSc(g: Graph, g1: Graph, e: Event, lastSc: map<int, nat>, es: seq<Edge>, g': Graph)
    requires Defined(g) && Clocked(g) && Finished(g, g1, e, lastSc, es, g')
    requires ScLinked(g.lastSc, e, |g.events|, es) && lastSc == LastScAfter(g.lastSc, e, |g.events|)
    ensures ScUpdated(g, g')
  {
    FinishedDefined(g, g1, e, lastSc, es, g');
  }

  ghost predicate RulesIn(events: seq<Event>, perThread: seq<seq<nat>>, id: nat, es: seq<Edge>)
    requires id < |events| && ThreadsInRange(|events|, perThread)
  {
    var e := events[id];
    && (e.Writes() ==> forall x :: x in WriteRules(events, perThread, id) ==> x in es)
    && (e.IsReadOrRmw() && e.source.Some? ==>
        forall x ::
          x in ReadRules(events, perThread, e.source.value, id) ==> x in es) && (e.IsModifyRmw() ==>
            Edge(Mo, e.source.value, id) in es)
  }

  /** An operation that adds its rules' edges, closes no cycle, and links its event to the events its
      clock was built from keeps the invariant. */
  lemma FinishedKeeps(g: Graph, g1: Graph, e: Event, lastSc: map<int, nat>, es: seq<Edge>, g': Graph, preds: set<nat>)
    requires Invariant(g) && Finished(g, g1, e, lastSc, es, g') && Acyclic(ModOrder(g'))
    requires ScLinked(g.lastSc, e, |g.events|, es) && lastSc == LastScAfter(g.lastSc, e, |g.events|)
    requires RulesIn(g1.events[|g.events| := e], g1.perThread, |g.events|, es)
    requires e.IsReadOrRmw() ==>
      e.source.Some? && g.events[e.source.value].Writes() && g.events[e.source.value].location == e.location
    requires LinkedFrom(g.events, Last(g, e.thread), e, es, preds)
    requires SettledEvent(e) ==> |e.clock| == g.threads && BuiltFrom(g, e, preds)
    ensures Invariant(g')
  {
    FinishedDefined(g, g1, e, lastSc, es, g');
    FinishedSourced(g, g1, e, lastSc, es, g');
    assert Coherent(g') by { FinishedCoherent(g, g1, e, lastSc, es, g'); }
    FinishedSc(g, g1, e, lastSc, es, g');
    assert ScChain(g') by { ScChainStep(g, g'); }
    assert ScLatest(g') by { ScLatestStep(g, g'); }
    assert PoLinked(g') by { FinishedPo(g, g1, e, lastSc, es, g'); }
    assert HbSound(g') by { FinishedHb(g, g1, e, lastSc, es, g', preds); }
    if Settled(g') {
      OldSettled(g, g');
      FinishedComplete(g, g1, e, lastSc, es, g', preds);
    }
  }

  // ---- Stores --------------------------------------------------------------------------------------------------

  ghost function ScPred(g: Graph, location: int): set<nat> {
    if location in g.lastSc then {g.lastSc[location]} else {}
  }

  ghost function StorePreds(g: Graph, last: nat, e: Event): set<nat> {
    {last} + if e.order == SeqCst then ScPred(g, e.location) else {}
  }

  lemma BegunOld(g: Graph, g1: Graph, x: nat)
    requires Begun(g, g1) && x < |g.events|
    ensures g1.events[x] == g.events[x]
  {
    assert g1.events[x] == g1.events[..|g.events|][x];
  }

  lemma StoreClocked(g: Graph, g1: Graph)
    requires Defined(g) && Clocked(g) && Begun(g, g1)
    ensures var id, events := |g.events|, StoreEvents(g1, |g.events|);
            |events| == id + 1 && events == g1.events[id := events[id]] && Clocked(g1.(events := events))
            && Leq(g.events[Last(g, events[id].thread)].clock, events[id].clock)
  {
    var id, e := |g.events|, g1.events[|g.events|];
    BegunOld(g, g1, Last(g, e.thread));
    if e.order == SeqCst && e.location in g.lastSc {
      JoinClocked(g1, id, g.lastSc[e.location]);
    } else {
      assert StoreEvents(g1, id) == g1.events;
    }
  }

  lemma StoreFinished(g: Graph, g1: Graph)
    requires Defined(g) && Clocked(g) && Begun(g, g1) && g1.events[|g.events|].kind.Write?
    ensures Finished(g, g1, StoreEvents(g1, |g.events|)[|g.events|],
                     LastScAfter(g.lastSc, g1.events[|g.events|], |g.events|), StoreEdges(g1, |g.events|),
                       Stored(g1, |g.events|))
  {
    var id := |g.events|;
    StoreInRange(g1, id);
    StoreClocked(g, g1);
    FinishedBy(g, g1, StoreEvents(g1, id)[id], LastScAfter(g.lastSc, g1.events[id], id), StoreEdges(g1, id));
  }

  /** Every modification-order edge of a store leads into the new event. */
  lemma StoreSinks(g: Graph, g1: Graph, x: Edge)
    requires Invariant(g) && Begun(g, g1) && x in StoreEdges(g1, |g.events|) && x.kind.Mo?
    ensures x.to == |g.events| && x.from < |g.events|
  {
    var id, events := |g.events|, StoreEvents(g1, |g.events|);
    if x in RuleEdges(events, g1.perThread, ReadWrite(id)) {
      var o := RuleEdgesOnly(events, g1.perThread, ReadWrite(id), x);
      BegunOld(g, g1, o);
      assert HasSource(g, o);
    } else if x in RuleEdges(events, g1.perThread, WriteWrite(id)) {
      var o := RuleEdgesOnly(events, g1.perThread, WriteWrite(id), x);
    }
  }

  lemma StoreAcyclic(g: Graph, g1: Graph)
    requires Invariant(g) && Begun(g, g1) && g1.events[|g.events|].kind.Write?
    ensures Acyclic(ModOrder(Stored(g1, |g.events|)))
  {
    var id, es := |g.events|, StoreEdges(g1, |g.events|);
    StoreFinished(g, g1);
    FinishedDefined(g, g1, StoreEvents(g1, id)[id], LastScAfter(g.lastSc, g1.events[|g.events|], |g.events|), es,
                    Stored(g1, id));
    forall a: nat, b: nat | (a, b) in MoPairs(es) ensures b == id && a != id {
      StoreSinks(g, g1, Edge(Mo, a, b));
    }
    SinkAcyclic(ModOrder(g), MoPairs(es), id);
  }

  lemma RuleIsMo(events: seq<Event>, perThread: seq<seq<nat>>, rule: Rule, x: Edge)
    requires Subject(rule) < |events| && ThreadsInRange(|events|, perThread) && x in RuleEdges(events, perThread, rule)
    ensures x.kind.Mo?
  {
    var o := RuleEdgesOnly(events, perThread, rule, x);
  }

  lemma WriteRulesAreMo(events: seq<Event>, perThread: seq<seq<nat>>, id: nat)
    requires id < |events| && ThreadsInRange(|events|, perThread)
    ensures forall x :: x in WriteRules(events, perThread, id) ==> x.kind.Mo?
  {
    forall x | x in WriteRules(events, perThread, id) ensures x.kind.Mo? {
      RuleIsMo(events, perThread, if x in RuleEdges(events, perThread, ReadWrite(id)) then ReadWrite(id)
               else WriteWrite(id), x);
    }
  }

  lemma ReadRulesAreMo(events: seq<Event>, perThread: seq<seq<nat>>, w: nat, id: nat)
    requires id < |events| && ThreadsInRange(|events|, perThread)
    ensures forall x :: x in ReadRules(events, perThread, w, id) ==> x.kind.Mo?
  {
    forall x | x in ReadRules(events, perThread, w, id) ensures x.kind.Mo? {
      RuleIsMo(events, perThread, if x in RuleEdges(events, perThread, WriteRead(w, id)) then WriteRead(w, id)
               else ReadRead(w, id), x);
    }
  }

  /** The events older than `id`. */
  ghost predicate Newest(g: Graph, last: nat, id: nat) {
    && Defined(g) && |g.events| == id + 1 && last < id && Hb(g.events, last, id)
    && forall x :: x in g.lastSc ==> g.lastSc[x] < id
  }

  lemma StoreScLinked(g: Graph, id: nat)
    requires Defined(g) && id < |g.events| && g.events[id].kind.Write?
    ensures ScLinked(g.lastSc, StoreEvents(g, id)[id], id, StoreEdges(g, id))
  {
    var e := g.events[id];
    if e.order == SeqCst && e.location in g.lastSc {
      assert Edge(Sc, g.lastSc[e.location], id) in ScEdge(g, id);
      assert g.lastSc[e.location] != id ==> Edge(Mo, g.lastSc[e.location], id) in ScMoEdge(g, e.location, id);
    }
  }

  lemma StoreLinked(g: Graph, last: nat, id: nat)
    requires Newest(g, last, id)
    ensures var e := StoreEvents(g, id)[id];
      LinkedFrom(g.events[..id], last, e, StoreEdges(g, id), StorePreds(g, last, e))
  {
    forall x | x in StoreEdges(g, id) && !x.kind.Mo? ensures g.events[id].order == SeqCst && x in ScEdge(g, id) {
      WriteRulesAreMo(StoreEvents(g, id), g.perThread, id);
    }
  }

  /** The clock of the new event before any join. */
  ghost predicate Fresh(g: Graph, g1: Graph)
    requires Begun(g, g1)
  {
    var e := g1.events[|g.events|];
    e.thread < |g.events[Last(g, e.thread)].clock| && e.clock == Increment(g.events[Last(g, e.thread)].clock, e.thread)
  }

  lemma StoreBuilt(g: Graph, g1: Graph)
    requires Defined(g) && Clocked(g) && Begun(g, g1) && Fresh(g, g1)
    ensures var e := StoreEvents(g1, |g.events|)[|g.events|];
      |e.clock| == g.threads && BuiltFrom(g, e, StorePreds(g1, Last(g, e.thread), e))
  {
    var id := |g.events|;
    var e := StoreEvents(g1, id)[id];
    var last, preds := Last(g, e.thread), StorePreds(g1, Last(g, e.thread), e);
    if e.location in g.lastSc { BegunOld(g, g1, g.lastSc[e.location]); }
    forall t: nat | t < g.threads && t != e.thread
      ensures exists x: nat :: x in preds && x < id && g.events[x].clock[t] == e.clock[t]
    {
      var x := if g.events[last].clock[t] == e.clock[t] then last else g.lastSc[e.location];
      assert x in preds && g.events[x].clock[t] == e.clock[t];
    }
  }

  lemma StoreShape(g: Graph, last: nat, id: nat)
    requires Newest(g, last, id) && g.events[id].kind.Write?
    ensures var e, es := StoreEvents(g, id)[id], StoreEdges(g, id);
            ScLinked(g.lastSc, e, id, es) && RulesIn(g.events[id := e], g.perThread, id, es)
  {
    StoreScLinked(g, id);
    assert g.events[id := StoreEvents(g, id)[id]] == StoreEvents(g, id);
  }

  /** Stores keep the invariant. They run no cycle check. */
  lemma StoreKeeps(g: Graph, g1: Graph)
    requires Invariant(g) && Begun(g, g1) && Fresh(g, g1) && g1.events[|g.events|].kind.Write?
    ensures Invariant(Stored(g1, |g.events|))
  {
    var id := |g.events|;
    var e, es, g' := StoreEvents(g1, id)[id], StoreEdges(g1, id), Stored(g1, id);
    StoreFinished(g, g1);
    assert Acyclic(ModOrder(g')) by { StoreAcyclic(g, g1); }
    StoreShape(g1, Last(g, e.thread), id);
    StoreLinked(g1, Last(g, e.thread), id);
    StoreBuilt(g, g1);
    FinishedKeeps(g, g1, e, LastScAfter(g.lastSc, g1.events[id], id), es, g', StorePreds(g1, Last(g, e.thread), e));
  }

  // ---- Loads and read-modify-writes ---------------------------------------------------------------------------------

  ghost predicate Readable(g: Graph, g1: Graph, w: nat) {
    Begun(g, g1) && w < |g.events| && CanRead(g1, w, |g.events|)
  }

  ghost function ReadPreds(g: Graph, last: nat, w: nat, e: Event): set<nat>
    requires w < |g.events|
  {
    {last} + (if Synchronizes(g.events[w], e) then {w} else {}) + if e.IsSeqCst() then ScPred(g, e.location) else {}
  }

  lemma ReadClocked(g: Graph, g1: Graph, w: nat)
    requires Defined(g) && Clocked(g) && Readable(g, g1, w)
    ensures var id, events := |g.events|, ReadEvents(g1, w, |g.events|);
            Clocked(g1.(events := events)) && Leq(g.events[Last(g, events[id].thread)].clock, events[id].clock)
  {
    var id, r := |g.events|, g1.events[|g.events|].ReadFrom(w, g1.events[w].Written());
    BegunOld(g, g1, w);
    BegunOld(g, g1, Last(g, r.thread));
    var g2 := g1.(events := g1.events[id := r]);
    SameClocks(g1, g2);
    var g3 := g2;
    if Synchronizes(g.events[w], r) {
      JoinClocked(g2, id, w);
      g3 := g2.(events := g2.events[id := r.(clock := Join(r.clock, g2.events[w].clock))]);
    }
    assert Clocked(g3);
    var g4 := g1.(events := ReadEvents(g1, w, id));
    if r.IsSeqCst() && r.location in g.lastSc {
      JoinClocked(g3, id, g.lastSc[r.location]);
      var e := g3.events[id];
      assert g4.events == g3.events[id := e.(clock := Join(e.clock, g3.events[g.lastSc[r.location]].clock))];
    } else {
      assert g4.events == g3.events;
    }
  }

  lemma SameClocks(g: Graph, g': Graph)
    requires Clocked(g) && g' == g.(events := g'.events) && |g'.events| == |g.events|
    requires forall e :: 0 <= e < |g.events| ==>
      && g'.events[e].clock == g.events[e].clock && g'.events[e].thread == g.events[e].thread
      && (g'.events[e].kind.Dummy? <==> g.events[e].kind.Dummy?)
    ensures Clocked(g')
  {
    forall t, p | 0 <= t < g.threads && 0 <= p < |g.perThread[t]| ensures Placed(g', t, p) {
      assert Placed(g, t, p);
    }
    forall e | 0 <= e < |g.events| ensures Listed(g', e) {
      assert Listed(g, e);
    }
    forall e | 0 <= e < |g.events| ensures Knows(g', e) {
      assert Knows(g, e);
    }
  }

  lemma ReadFinished(g: Graph, g1: Graph, w: nat)
    requires Defined(g) && Clocked(g) && Readable(g, g1, w)
    ensures Finished(g, g1, Resolved(g1, w, |g.events|),
                     LastScAfter(g.lastSc, Resolved(g1, w, |g.events|), |g.events|), ReadEdges(g1, w, |g.events|),
                       ReadDone(g1, w, |g.events|))
  {
    var id := |g.events|;
    ReadInRange(g1, w, id);
    ReadClocked(g, g1, w);
    FinishedBy(g, g1, Resolved(g1, w, id), LastScAfter(g.lastSc, Resolved(g1, w, id), id), ReadEdges(g1, w, id));
  }

  lemma HeadEdges(g: Graph, w: nat, r: nat, x: Edge)
    requires Defined(g) && CanRead(g, w, r) && x in ReadHead(g, w, r)
    ensures x.kind.Mo? || x == Edge(Rf, w, r)
  {
    OutgoingInRange(g.edges, w);
    AtomicityOnly(g.edges, Outgoing(g.edges, w), r, |g.events|);
  }

  lemma TailEdges(g: Graph, w: nat, r: nat, x: Edge)
    requires Defined(g) && CanRead(g, w, r) && x in ReadTail(g, w, r)
    ensures x.kind.Mo?
  {
    ReadRulesAreMo(ReadEvents(g, w, r), g.perThread, w, r);
    WriteRulesAreMo(ReadEvents(g, w, r), g.perThread, r);
  }

  lemma ReadNonMo(g: Graph, w: nat, r: nat, x: Edge)
    requires Defined(g) && CanRead(g, w, r) && x in ReadEdges(g, w, r) && !x.kind.Mo?
    ensures x == Edge(Rf, w, r) || (Resolved(g, w, r).IsSeqCst() && x in ScEdge(g, r))
  {
    if x in ReadHead(g, w, r) {
      HeadEdges(g, w, r, x);
    } else if x in ReadTail(g, w, r) {
      TailEdges(g, w, r, x);
    }
  }

  lemma ReadScLinked(g: Graph, w: nat, r: nat)
    requires Defined(g) && CanRead(g, w, r)
    ensures ScLinked(g.lastSc, Resolved(g, w, r), r, ReadSc(g, w, r))
  {
  }

  lemma ReadParts(g: Graph, w: nat, r: nat)
    requires Defined(g) && CanRead(g, w, r)
    ensures Edge(Rf, w, r) in ReadEdges(g, w, r)
    ensures Resolved(g, w, r).IsModifyRmw() ==> Edge(Mo, w, r) in ReadEdges(g, w, r)
    ensures forall x :: x in ReadSc(g, w, r) ==> x in ReadEdges(g, w, r)
    ensures forall x :: x in ReadTail(g, w, r) ==> x in ReadEdges(g, w, r)
  {
    var head := ReadHead(g, w, r);
    assert head[0] == Edge(Rf, w, r);
    assert Resolved(g, w, r).IsModifyRmw() ==> head[1] == Edge(Mo, w, r);
  }

  lemma ReadIncluded(g: Graph, last: nat, w: nat, id: nat)
    requires Newest(g, last, id) && CanRead(g, w, id)
    ensures var e := Resolved(g, w, id); Included(g.events[..id], e, ReadPreds(g, last, w, e))
  {
    var e := Resolved(g, w, id);
    var events := g.events[..id];
    assert Leq(g.events[id].clock, e.clock);
    forall x | x in ReadPreds(g, last, w, e) ensures x < |events| && Leq(events[x].clock, e.clock) {
      assert events[x] == g.events[x];
    }
  }

  lemma LinksFrom(g: Graph, last: nat, w: nat, id: nat, e: Event, es: seq<Edge>)
    requires Newest(g, last, id) && w < id && Edge(Rf, w, id) in es && ScLinked(g.lastSc, e, id, es)
    ensures LinksPresent(g.events[..id], last, e, es, ReadPreds(g, last, w, e))
  {
  }

  lemma ReadLinksOnly(g: Graph, last: nat, w: nat, id: nat)
    requires Newest(g, last, id) && CanRead(g, w, id)
    ensures var e := Resolved(g, w, id); LinksOnly(g.events[..id], e, ReadEdges(g, w, id), ReadPreds(g, last, w, e))
  {
    var e, es := Resolved(g, w, id), ReadEdges(g, w, id);
    forall x | x in es && !x.kind.Mo? ensures x == Edge(Rf, w, id) || (e.IsSeqCst() && x in ScEdge(g, id)) {
      ReadNonMo(g, w, id, x);
    }
  }

  lemma ReadBuilt(g: Graph, g1: Graph, w: nat)
    requires Defined(g) && Clocked(g) && Readable(g, g1, w) && Fresh(g, g1)
    ensures var e := Resolved(g1, w, |g.events|);
      |e.clock| == g.threads && BuiltFrom(g, e, ReadPreds(g1, Last(g, e.thread), w, e))
  {
    var id := |g.events|;
    var e := Resolved(g1, w, id);
    var last, preds := Last(g, e.thread), ReadPreds(g1, Last(g, e.thread), w, e);
    BegunOld(g, g1, w);
    if e.location in g.lastSc { BegunOld(g, g1, g.lastSc[e.location]); }
    forall t: nat | t < g.threads && t != e.thread
      ensures exists x: nat :: x in preds && x < id && g.events[x].clock[t] == e.clock[t]
    {
      var x := if g.events[last].clock[t] == e.clock[t] then last
               else if Synchronizes(g.events[w], e) && g.events[w].clock[t] == e.clock[t] then w
               else g.lastSc[e.location];
      assert x in preds && g.events[x].clock[t] == e.clock[t];
    }
  }

  lemma ReadShape(g: Graph, last: nat, w: nat, id: nat)
    requires Newest(g, last, id) && CanRead(g, w, id)
    ensures var e, es := Resolved(g, w, id), ReadEdges(g, w, id);
            && ScLinked(g.lastSc, e, id, es) && RulesIn(g.events[id := e], g.perThread, id, es)
            && LinkedFrom(g.events[..id], last, e, es, ReadPreds(g, last, w, e))
  {
    var e, es := Resolved(g, w, id), ReadEdges(g, w, id);
    ReadParts(g, w, id);
    ReadScLinked(g, w, id);
    LinksFrom(g, last, w, id, e, es);
    assert LinkedFrom(g.events[..id], last, e, es, ReadPreds(g, last, w, e)) by {
      ReadIncluded(g, last, w, id);
      ReadLinksOnly(g, last, w, id);
    }
  }

  /** A load or read-modify-write whose graph passes the cycle check keeps the invariant. */
  lemma ReadKeeps(g: Graph, g1: Graph, w: nat)
    requires Invariant(g) && Readable(g, g1, w) && (SettledEvent(Resolved(g1, w, |g.events|)) ==> Fresh(g, g1))
    requires Acyclic(ModOrder(ReadDone(g1, w, |g.events|)))
    ensures Invariant(ReadDone(g1, w, |g.events|))
  {
    var id := |g.events|;
    var e, es, g' := Resolved(g1, w, id), ReadEdges(g1, w, id), ReadDone(g1, w, id);
    ReadFinished(g, g1, w);
    BegunOld(g, g1, w);
    ReadShape(g1, Last(g, e.thread), w, id);
    if SettledEvent(e) { ReadBuilt(g, g1, w); }
    FinishedKeeps(g, g1, e, LastScAfter(g.lastSc, e, id), es, g', ReadPreds(g1, Last(g, e.thread), w, e));
  }

  lemma {:induction false} AtomicityHas(edges: seq<Edge>, ids: seq<nat>, r: nat, j: nat)
    requires IdsInRange(|edges|, ids) && j < |ids| && edges[ids[j]].kind.Mo? && edges[ids[j]].to != r
    ensures Edge(Mo, r, edges[ids[j]].to) in AtomicityEdges(edges, ids, r)
  {
    if j < |ids| - 1 { AtomicityHas(edges, ids[..|ids| - 1], r, j); }
  }

  /** A modifying event comes after its source and before everything that came directly after it then. */
  lemma RmwBetween(g: Graph, g1: Graph, w: nat, b: nat)
    requires Invariant(g) && Readable(g, g1, w) && Resolved(g1, w, |g.events|).IsModifyRmw()
    ensures (w, |g.events|) in ModOrder(ReadDone(g1, w, |g.events|))
    ensures (w, b) in ModOrder(g) ==> (|g.events|, b) in ModOrder(ReadDone(g1, w, |g.events|))
  {
    var id := |g.events|;
    var es, g' := ReadEdges(g1, w, id), ReadDone(g1, w, id);
    ReadFinished(g, g1, w);
    FinishedDefined(g, g1, Resolved(g1, w, id), LastScAfter(g.lastSc, Resolved(g1, w, id), id), es, g');
    ReadParts(g1, w, id);
    assert Edge(Mo, w, id) in g'.edges;
    if (w, b) in ModOrder(g) {
      SuccessorEdge(g1, w, id, b);
      assert Edge(Mo, id, b) in g'.edges;
    }
  }

  lemma SuccessorEdge(g: Graph, w: nat, r: nat, b: nat)
    requires Defined(g) && CanRead(g, w, r) && Resolved(g, w, r).IsModifyRmw() && Edge(Mo, w, b) in g.edges && b != r
    ensures Edge(Mo, r, b) in ReadEdges(g, w, r)
  {
    var k: nat :| k < |g.edges| && g.edges[k] == Edge(Mo, w, b);
    OutgoingInRange(g.edges, w);
    OutgoingExact(g.edges, w, k);
    var ids := Outgoing(g.edges, w);
    var j: nat :| j < |ids| && ids[j] == k;
    AtomicityHas(g.edges, ids, r, j);
    assert Edge(Mo, r, b) in ReadHead(g, w, r);
  }

  /** An acquire read from a release write happens after it: through the join with the write's clock, or, between
      two seq_cst events, through the sc edge from the last seq_cst write, which is the one read. */
  ghost predicate Synchronized(g: Graph)
    requires Sourced(g)
  {
    forall r :: 0 <= r < |g.events| && g.events[r].IsReadOrRmw() ==> SyncedWith(g, Source(g, r), r)
  }

  ghost predicate SyncedWith(g: Graph, w: nat, r: nat)
    requires w < |g.events| && r < |g.events|
  {
    g.events[r].IsAtLeastAcquire() && g.events[w].IsAtLeastRelease() ==> Hb(g.events, w, r)
  }

  lemma OldSynchronized(g: Graph, g': Graph, r: nat)
    requires Invariant(g) && Synchronized(g) && Extends(g, g') && r < |g.events| && g'.events[r].IsReadOrRmw()
    ensures SyncedWith(g', Source(g', r), r)
  {
    OldEvent(g, g', r);
    assert HasSource(g, r);
    OldEvent(g, g', Source(g, r));
    assert SyncedWith(g, Source(g, r), r);
  }

  lemma ReadSynchronized(g: Graph, g1: Graph, w: nat)
    requires Invariant(g) && Readable(g, g1, w) && Invariant(ReadDone(g1, w, |g.events|)) && Synchronized(g)
    ensures Synchronized(ReadDone(g1, w, |g.events|))
  {
    var id, g' := |g.events|, ReadDone(g1, w, |g.events|);
    ReadExtends(g, g1, w);
    forall r: nat | r < |g'.events| && g'.events[r].IsReadOrRmw() ensures SyncedWith(g', Source(g', r), r) {
      if r < id { OldSynchronized(g, g', r); } else { NewSynchronized(g, g1, w, g'); }
    }
  }

  lemma ReadExtends(g: Graph, g1: Graph, w: nat)
    requires Invariant(g) && Readable(g, g1, w) && Invariant(ReadDone(g1, w, |g.events|))
    ensures Extends(g, ReadDone(g1, w, |g.events|))
    ensures ReadDone(g1, w, |g.events|).events[|g.events|] == Resolved(g1, w, |g.events|)
  {
    var id, g' := |g.events|, ReadDone(g1, w, |g.events|);
    var e := Resolved(g1, w, id);
    ReadFinished(g, g1, w);
    FinishedDefined(g, g1, e, LastScAfter(g.lastSc, e, id), ReadEdges(g1, w, id), g');
  }

  lemma NewSynchronized(g: Graph, g1: Graph, w: nat, g': Graph)
    requires Invariant(g) && Readable(g, g1, w) && g' == ReadDone(g1, w, |g.events|) && Invariant(g') && Extends(g, g')
    requires g'.events[|g.events|] == Resolved(g1, w, |g.events|)
    ensures SyncedWith(g', w, |g.events|)
  {
    var id, e := |g.events|, Resolved(g1, w, |g.events|);
    ReadIncluded(g1, Last(g, e.thread), w, id);
    OldEvent(g, g', w);
    BegunOld(g, g1, w);
    if e.IsAtLeastAcquire() && g.events[w].IsAtLeastRelease() {
      if !Synchronizes(g.events[w], e) {
        assert ScRead(g', id) && ScWrite(g, w);
        ReadScUpdated(g, g1, w);
        NewestRead(g, g', w);
      }
      assert w in ReadPreds(g1, Last(g, e.thread), w, e);
      assert g1.events[..id][w] == g.events[w];
    }
  }

  lemma ReadScUpdated(g: Graph, g1: Graph, w: nat)
    requires Invariant(g) && Readable(g, g1, w)
    ensures ScUpdated(g, ReadDone(g1, w, |g.events|))
  {
    var id, e := |g.events|, Resolved(g1, w, |g.events|);
    var es := ReadEdges(g1, w, id);
    ReadFinished(g, g1, w);
    assert ScLinked(g.lastSc, e, id, es) by {
      ReadParts(g1, w, id);
      ReadScLinked(g1, w, id);
    }
    FinishedSc(g, g1, e, LastScAfter(g.lastSc, e, id), es, ReadDone(g1, w, id));
  }

  lemma StoreSynchronized(g: Graph, g1: Graph)
    requires Invariant(g) && Begun(g, g1) && g1.events[|g.events|].kind.Write? && Invariant(Stored(g1, |g.events|))
      && Synchronized(g)
    ensures Synchronized(Stored(g1, |g.events|))
  {
    var id, g' := |g.events|, Stored(g1, |g.events|);
    StoreFinished(g, g1);
    FinishedDefined(g, g1, StoreEvents(g1, id)[id], LastScAfter(g.lastSc, g1.events[id], id), StoreEdges(g1, id), g');
    assert Extends(g, g');
    forall r: nat | r < |g'.events| && g'.events[r].IsReadOrRmw() ensures SyncedWith(g', Source(g', r), r) {
      OldSynchronized(g, g', r);
    }
  }

  lemma OldSettled(g: Graph, g': Graph)
    requires Extends(g, g') && Settled(g') && |g'.events| == |g.events| + 1
    ensures Settled(g) && SettledEvent(g'.events[|g.events|])
  {
    forall e | 0 <= e < |g.events| ensures SettledEvent(g.events[e]) {
      OldEvent(g, g', e);
    }
  }
}

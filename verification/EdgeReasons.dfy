/** The modification order has no more pairs than the rules ask for: each pair has one of seven reasons. */
module EdgeReasons {
  import opened Options
  import opened MemoryGraph
  import opened Clocks
  import opened Coherence
  import opened GraphInvariant
  import opened GraphOperations
  import opened GraphSteps
  import opened GraphRuns
  import opened ReadProgress

  type Pairs = set<(nat, nat)>

  // ---- Reasons ---------------------------------------------------------------------------------------------------

  /** `a` happens before `b`, on one location. */
  ghost predicate Before(events: seq<Event>, a: nat, b: nat) {
    a < |events| && b < |events| && a != b && events[a].location == events[b].location && Hb(events, a, b)
  }

  ghost predicate IsWrite(events: seq<Event>, a: nat) { a < |events| && events[a].Writes() }

  ghost predicate ReadsFrom(events: seq<Event>, r: nat, w: nat) {
    r < |events| && events[r].IsReadOrRmw() && events[r].source == Some(w)
  }

  ghost predicate SeqCstWrite(events: seq<Event>, a: nat) { IsWrite(events, a) && events[a].IsSeqCst() }

  /** An earlier seq_cst write of the location of a seq_cst access. */
  ghost predicate SeqCstBefore(events: seq<Event>, a: nat, b: nat) {
    SeqCstWrite(events, a) && a < b < |events| && events[b].IsSeqCst() && events[a].location == events[b].location
  }

  /** One write happens before the other; or before a read of the other; or a read of the one happens before the other
      write; or before a read of the other. */
  ghost predicate CoherenceReason(events: seq<Event>, a: nat, b: nat) {
    || (IsWrite(events, a) && IsWrite(events, b) && Before(events, a, b))
    || (IsWrite(events, a) && exists r: nat :: ReadsFrom(events, r, b) && Before(events, a, r))
    || (IsWrite(events, b) && exists r: nat :: ReadsFrom(events, r, a) && Before(events, r, b))
    || (exists r: nat, q: nat :: ReadsFrom(events, r, a) && ReadsFrom(events, q, b) && Before(events, r, q))
  }

  /** `b` modifies what it reads from `a`; or `a` modifies what it reads from a write that `b` follows. */
  ghost predicate AtomicityReason(events: seq<Event>, pairs: Pairs, a: nat, b: nat) {
    || (IsWrite(events, b) && ReadsFrom(events, b, a))
    || (IsWrite(events, a) && exists w: nat :: ReadsFrom(events, a, w) && (w, b) in pairs)
  }

  /** `a` is a seq_cst write before the seq_cst write `b`, or before a seq_cst read of `b`. */
  ghost predicate SeqCstReason(events: seq<Event>, a: nat, b: nat) {
    || (IsWrite(events, b) && SeqCstBefore(events, a, b))
    || (exists r: nat :: ReadsFrom(events, r, b) && SeqCstBefore(events, a, r))
  }

  ghost predicate Reason(events: seq<Event>, pairs: Pairs, a: nat, b: nat) {
    CoherenceReason(events, a, b) || AtomicityReason(events, pairs, a, b) || SeqCstReason(events, a, b)
  }

  ghost predicate AllReasoned(events: seq<Event>, pairs: Pairs, es: seq<Edge>) {
    forall e :: e in es && e.kind.Mo? ==> Reason(events, pairs, e.from, e.to)
  }

  // ---- Reasons last ------------------------------------------------------------------------------------------------

  ghost predicate Longer(events: seq<Event>, events': seq<Event>) {
    |events| <= |events'| && events'[..|events|] == events
  }

  lemma {:induction false} LongerBefore(events: seq<Event>, events': seq<Event>)
    requires Longer(events, events')
    ensures forall a: nat, b: nat :: Before(events, a, b) ==> Before(events', a, b)
    ensures forall a: nat :: IsWrite(events, a) ==> IsWrite(events', a)
    ensures forall r: nat, w: nat :: ReadsFrom(events, r, w) ==> ReadsFrom(events', r, w)
    ensures forall a: nat, b: nat :: SeqCstBefore(events, a, b) ==> SeqCstBefore(events', a, b)
  {
    assert forall a :: 0 <= a < |events| ==> events[a] == events'[..|events|][a] == events'[a];
  }

  lemma {:induction false} CoherenceLasts(events: seq<Event>, events': seq<Event>, a: nat, b: nat)
    requires Longer(events, events') && CoherenceReason(events, a, b)
    ensures CoherenceReason(events', a, b)
  {
    LongerBefore(events, events');
    if r: nat :| ReadsFrom(events, r, b) && Before(events, a, r) {
      assert ReadsFrom(events', r, b) && Before(events', a, r);
    }
    if r: nat :| ReadsFrom(events, r, a) && Before(events, r, b) {
      assert ReadsFrom(events', r, a) && Before(events', r, b);
    }
    if r: nat, q: nat :| ReadsFrom(events, r, a) && ReadsFrom(events, q, b) && Before(events, r, q) {
      assert ReadsFrom(events', r, a) && ReadsFrom(events', q, b) && Before(events', r, q);
    }
  }

  lemma {:induction false} ReasonLasts(events: seq<Event>, events': seq<Event>, pairs: Pairs, pairs': Pairs, a: nat,
                                       b: nat)
    requires Longer(events, events') && pairs <= pairs' && Reason(events, pairs, a, b)
    ensures Reason(events', pairs', a, b)
  {
    LongerBefore(events, events');
    if CoherenceReason(events, a, b) {
      CoherenceLasts(events, events', a, b);
    } else if AtomicityReason(events, pairs, a, b) {
      if w: nat :| ReadsFrom(events, a, w) && (w, b) in pairs {
        assert ReadsFrom(events', a, w) && (w, b) in pairs';
      }
    } else {
      if r: nat :| ReadsFrom(events, r, b) && SeqCstBefore(events, a, r) {
        assert ReadsFrom(events', r, b) && SeqCstBefore(events', a, r);
      }
    }
  }

  // ---- Reasons of new edges -------------------------------------------------------------------------------------

  /** A rule for the new event has its reason in the event that matches. */
  lemma {:induction false} RuleReason(g: Graph, events: seq<Event>, perThread: seq<seq<nat>>, rule: Rule, e: Edge)
    requires Sourced(g) && OneMore(g, events) && ThreadsInRange(|events|, perThread) && Subject(rule) == |g.events|
    requires rule.WriteRead? || rule.ReadRead? ==> ReadsFrom(events, |g.events|, rule.write)
    requires rule.ReadWrite? || rule.WriteWrite? ==> IsWrite(events, |g.events|)
    requires e in RuleEdges(events, perThread, rule)
    ensures CoherenceReason(events, e.from, e.to)
  {
    var o := RuleEdgesOnly(events, perThread, rule, e);
    OldOne(g, events, o);
    assert Before(events, o, |g.events|);
    if rule.ReadRead? || rule.ReadWrite? {
      assert HasSource(g, o);
      assert ReadsFrom(events, o, e.from);
    }
  }

  lemma {:induction false} TailReasons(g: Graph, g1: Graph, w: nat, pairs: Pairs)
    requires Sourced(g) && Readable(g, g1, w)
    ensures AllReasoned(ReadEvents(g1, w, |g.events|), pairs, ReadTail(g1, w, |g.events|))
  {
    var id, events := |g.events|, ReadEvents(g1, w, |g.events|);
    ReadOneMore(g, g1, w);
    assert ReadsFrom(events, id, w);
    forall e | e in ReadTail(g1, w, id) ensures CoherenceReason(events, e.from, e.to) {
      if e in RuleEdges(events, g1.perThread, WriteRead(w, id)) {
        RuleReason(g, events, g1.perThread, WriteRead(w, id), e);
      } else if e in RuleEdges(events, g1.perThread, ReadRead(w, id)) {
        RuleReason(g, events, g1.perThread, ReadRead(w, id), e);
      } else if e in RuleEdges(events, g1.perThread, ReadWrite(id)) {
        RuleReason(g, events, g1.perThread, ReadWrite(id), e);
      } else {
        RuleReason(g, events, g1.perThread, WriteWrite(id), e);
      }
    }
  }

  lemma {:induction false} HeadReasons(g: Graph, g1: Graph, w: nat, pairs: Pairs)
    requires Readable(g, g1, w) && ModOrder(g) <= pairs
    ensures AllReasoned(ReadEvents(g1, w, |g.events|), pairs, ReadHead(g1, w, |g.events|))
  {
    var id, events := |g.events|, ReadEvents(g1, w, |g.events|);
    ReadOneMore(g, g1, w);
    assert ReadsFrom(events, id, w);
    OutgoingInRange(g1.edges, w);
    forall e | e in ReadHead(g1, w, id) && e.kind.Mo? ensures AtomicityReason(events, pairs, e.from, e.to) {
      if e != Edge(Mo, w, id) {
        AtomicityOnly(g1.edges, Outgoing(g1.edges, w), id, id + 1);
        AtomicityTo(g1.edges, w, id, e);
        assert Edge(Mo, w, e.to) in g.edges;
        assert (w, e.to) in pairs;
      }
    }
  }

  lemma {:induction false} LastSeqCstBefore(g: Graph, events: seq<Event>)
    requires ScChain(g) && LastScOk(g) && OneMore(g, events) && events[|g.events|].IsSeqCst()
    requires events[|g.events|].location in g.lastSc
    ensures SeqCstBefore(events, g.lastSc[events[|g.events|].location], |g.events|)
  {
    var last := g.lastSc[events[|g.events|].location];
    assert ScWrite(g, last);
    OldOne(g, events, last);
  }

  lemma {:induction false} ScReasons(g: Graph, g1: Graph, w: nat, pairs: Pairs)
    requires ScChain(g) && LastScOk(g) && Readable(g, g1, w)
    ensures AllReasoned(ReadEvents(g1, w, |g.events|), pairs, ReadSc(g1, w, |g.events|))
  {
    var id, events := |g.events|, ReadEvents(g1, w, |g.events|);
    ReadOneMore(g, g1, w);
    assert ReadsFrom(events, id, w);
    if events[id].IsSeqCst() && events[id].location in g.lastSc {
      LastSeqCstBefore(g, events);
    }
  }

  lemma {:induction false} StoreReasons(g: Graph, g1: Graph, pairs: Pairs)
    requires Sourced(g) && ScChain(g) && LastScOk(g) && Begun(g, g1) && g1.events[|g.events|].kind.Write?
    ensures AllReasoned(StoreEvents(g1, |g.events|), pairs, StoreEdges(g1, |g.events|))
  {
    var id, events := |g.events|, StoreEvents(g1, |g.events|);
    StoreOneMore(g, g1);
    forall e | e in WriteRules(events, g1.perThread, id) ensures CoherenceReason(events, e.from, e.to) {
      if e in RuleEdges(events, g1.perThread, ReadWrite(id)) {
        RuleReason(g, events, g1.perThread, ReadWrite(id), e);
      } else {
        RuleReason(g, events, g1.perThread, WriteWrite(id), e);
      }
    }
    if events[id].IsSeqCst() && events[id].location in g.lastSc {
      LastSeqCstBefore(g, events);
    }
  }

  // ---- Runs -----------------------------------------------------------------------------------------------------

  ghost predicate Reasoned(g: Graph) { AllReasoned(g.events, ModOrder(g), g.edges) }

  lemma {:induction false} OldReasons(g: Graph, events: seq<Event>, edges: seq<Edge>, es: seq<Edge>, edges': seq<Edge>)
    requires Reasoned(g) && OneMore(g, events) && AllReasoned(events, MoPairs(edges'), es)
    requires forall e :: e in g.edges ==> e in edges
    requires forall e :: e in edges && e.kind.Mo? ==> e in g.edges
    requires forall e :: e in edges' <==> e in edges || e in es
    ensures AllReasoned(events, MoPairs(edges'), edges')
  {
    forall e | e in edges' && e.kind.Mo? ensures Reason(events, MoPairs(edges'), e.from, e.to) {
      if e in edges {
        ReasonLasts(g.events, events, ModOrder(g), MoPairs(edges'), e.from, e.to);
      }
    }
  }

  lemma {:induction false} ReadReasoned(g: Graph, g1: Graph, w: nat)
    requires Invariant(g) && Reasoned(g) && Readable(g, g1, w)
    ensures Reasoned(ReadDone(g1, w, |g.events|))
  {
    var id := |g.events|;
    var e, g' := Resolved(g1, w, id), ReadDone(g1, w, id);
    ReadOneMore(g, g1, w);
    ReadInRange(g1, w, id);
    AddAllMembers(g1.(events := ReadEvents(g1, w, id), lastSc := LastScAfter(g1.lastSc, e, id)), ReadEdges(g1, w, id));
    HeadReasons(g, g1, w, ModOrder(g'));
    ScReasons(g, g1, w, ModOrder(g'));
    TailReasons(g, g1, w, ModOrder(g'));
    OldReasons(g, g'.events, g1.edges, ReadEdges(g1, w, id), g'.edges);
  }

  lemma {:induction false} StoreReasoned(g: Graph, g1: Graph)
    requires Invariant(g) && Reasoned(g) && Begun(g, g1) && g1.events[|g.events|].kind.Write?
    ensures Reasoned(Stored(g1, |g.events|))
  {
    var id := |g.events|;
    var g' := Stored(g1, id);
    StoreOneMore(g, g1);
    StoreInRange(g1, id);
    AddAllMembers(g1.(events := StoreEvents(g1, id), lastSc := g'.lastSc), StoreEdges(g1, id));
    StoreReasons(g, g1, ModOrder(g'));
    OldReasons(g, g'.events, g1.edges, StoreEdges(g1, id), g'.edges);
  }

  lemma {:induction false} StepReasoned(g: Graph, op: Operation, g': Graph)
    requires Invariant(g) && Step(g, op, g') && Reasoned(g)
    ensures Reasoned(g')
  {
    if op.Reading? {
      var joined := StepReads(g, op, g');
      ReadReasoned(g, Started(g, op.kind, op.location, op.thread, op.order, joined), op.source);
    } else {
      StartedFresh(g, Write(op.value), op.location, op.thread, op.order);
      StoreReasoned(g, Append(g, Write(op.value), op.location, op.thread, op.order));
    }
  }

  lemma {:induction false} RunStepReasoned(threads: nat, graphs: seq<Graph>, ops: seq<Operation>, k: nat)
    requires IsRun(threads, graphs, ops) && k < |ops| && Reasoned(graphs[k])
    ensures Reasoned(graphs[k + 1])
  {
    RunKeeps(threads, graphs, ops, k);
    assert StepAt(graphs, ops, k);
    StepReasoned(graphs[k], ops[k], graphs[k + 1]);
  }

  lemma {:induction false} RunReasoned(threads: nat, graphs: seq<Graph>, ops: seq<Operation>, k: nat)
    requires IsRun(threads, graphs, ops) && k < |graphs|
    ensures Reasoned(graphs[k])
  {
    if k > 0 {
      RunReasoned(threads, graphs, ops, k - 1);
      RunStepReasoned(threads, graphs, ops, k - 1);
    }
  }

  /** In every graph of every run, each pair of the modification order relates two writes of one location and has a
      reason: coherence with happens-before, atomicity of a read-modify-write, or the order of seq_cst accesses. */
  lemma {:induction false} OrderedForReason(threads: nat, graphs: seq<Graph>, ops: seq<Operation>, k: nat, a: nat,
                                            b: nat)
    requires IsRun(threads, graphs, ops) && k < |graphs| && (a, b) in ModOrder(graphs[k])
    ensures Located(graphs[k].events, a, b) && Reason(graphs[k].events, ModOrder(graphs[k]), a, b)
  {
    RunConsistent(threads, graphs, ops, k);
    RunReasoned(threads, graphs, ops, k);
    assert Edge(Mo, a, b) in graphs[k].edges;
  }
}

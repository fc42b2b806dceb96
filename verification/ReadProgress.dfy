/** Every read finds a write to read from: in every graph of every run some write of the location passes the check,
    although the check rejects some acyclic graphs. */
module ReadProgress {
  import opened Options
  import opened Relations
  import opened MemoryGraph
  import opened Clocks
  import opened Coherence
  import opened GraphInvariant
  import opened GraphOperations
  import opened GraphSteps
  import opened GraphRuns
  import opened CycleWalk
  import opened CycleFirst
  import opened CycleGrowth
  import CycleCheck

  // ---- The modification order relates writes of one location ----------------------------------------------------

  ghost predicate Located(events: seq<Event>, a: nat, b: nat) {
    && a < |events| && b < |events| && events[a].Writes() && events[b].Writes()
    && events[a].location == events[b].location
  }

  ghost predicate AllLocated(events: seq<Event>, es: seq<Edge>) {
    forall e :: e in es && e.kind.Mo? ==> Located(events, e.from, e.to)
  }

  /** The events of `g` and the new one. */
  ghost predicate OneMore(g: Graph, events: seq<Event>) {
    |events| == |g.events| + 1 && events[..|g.events|] == g.events
  }

  lemma OldOne(g: Graph, events: seq<Event>, a: nat)
    requires OneMore(g, events) && a < |g.events|
    ensures events[a] == g.events[a]
  {
    assert events[a] == events[..|g.events|][a];
  }

  /** `w` is an earlier write of the location of the newest event. */
  ghost predicate EarlierWrite(events: seq<Event>, w: nat) {
    w + 1 < |events| && events[w].Writes() && events[w].location == events[|events| - 1].location
  }

  /** A rule for the new event relates writes of its location. */
  lemma {:induction false} RuleLocated(g: Graph, events: seq<Event>, perThread: seq<seq<nat>>, rule: Rule)
    requires Sourced(g) && OneMore(g, events) && ThreadsInRange(|events|, perThread) && Subject(rule) == |g.events|
    requires rule.WriteRead? || rule.ReadRead? ==> EarlierWrite(events, rule.write)
    requires rule.ReadWrite? || rule.WriteWrite? ==> events[|g.events|].Writes()
    ensures AllLocated(events, RuleEdges(events, perThread, rule))
    ensures forall e :: e in RuleEdges(events, perThread, rule) ==> e.kind.Mo? && e.from < |g.events|
    ensures rule.ReadWrite? || rule.WriteWrite? ==> IntoNew(RuleEdges(events, perThread, rule), |g.events|)
    ensures rule.WriteRead? || rule.ReadRead? ==>
              IntoSource(RuleEdges(events, perThread, rule), rule.write, |g.events|)
  {
    forall e | e in RuleEdges(events, perThread, rule)
      ensures e.kind.Mo? && e.from < |g.events| && Located(events, e.from, e.to)
      ensures rule.ReadWrite? || rule.WriteWrite? ==> e.to == |g.events|
      ensures rule.WriteRead? || rule.ReadRead? ==> e.to == rule.write && e.from != rule.write
    {
      var o := RuleEdgesOnly(events, perThread, rule, e);
      OldOne(g, events, o);
      if rule.ReadRead? || rule.ReadWrite? {
        assert HasSource(g, o);
        OldOne(g, events, g.events[o].source.value);
      }
    }
  }

  lemma {:induction false} AtomicityFrom(edges: seq<Edge>, ids: seq<nat>, r: nat, e: Edge)
    requires IdsInRange(|edges|, ids) && e in AtomicityEdges(edges, ids, r)
    ensures exists k :: 0 <= k < |ids| && edges[ids[k]].kind.Mo? && edges[ids[k]].to == e.to
  {
    var last := |ids| - 1;
    if e in AtomicityEdges(edges, ids[..last], r) {
      AtomicityFrom(edges, ids[..last], r, e);
      var k :| 0 <= k < last && edges[ids[..last][k]].kind.Mo? && edges[ids[..last][k]].to == e.to;
      assert ids[k] == ids[..last][k];
    } else {
      assert edges[ids[last]].kind.Mo? && edges[ids[last]].to == e.to;
    }
  }

  /** An atomicity edge leads to a successor of the source. */
  lemma {:induction false} AtomicityTo(edges: seq<Edge>, w: nat, r: nat, e: Edge)
    requires IdsInRange(|edges|, Outgoing(edges, w)) && e in AtomicityEdges(edges, Outgoing(edges, w), r)
    ensures Edge(Mo, w, e.to) in edges
  {
    var ids := Outgoing(edges, w);
    AtomicityFrom(edges, ids, r, e);
    var k :| 0 <= k < |ids| && edges[ids[k]].kind.Mo? && edges[ids[k]].to == e.to;
    OutgoingExact(edges, w, ids[k]);
    assert edges[ids[k]] == Edge(Mo, w, e.to);
  }

  ghost predicate OneLocation(g: Graph) { AllLocated(g.events, g.edges) }

  lemma {:induction false} ReadOneMore(g: Graph, g1: Graph, w: nat)
    requires Readable(g, g1, w)
    ensures var events := ReadEvents(g1, w, |g.events|);
      && OneMore(g, events) && EarlierWrite(events, w) && events[|g.events|] == Resolved(g1, w, |g.events|)
      && events[|g.events|].location == g1.events[|g.events|].location
  {
    BegunOld(g, g1, w);
    assert ReadEvents(g1, w, |g.events|)[..|g.events|] == g.events;
  }

  lemma {:induction false} HeadLocated(g: Graph, g1: Graph, w: nat)
    requires OneLocation(g) && Readable(g, g1, w)
    ensures AllLocated(ReadEvents(g1, w, |g.events|), ReadHead(g1, w, |g.events|))
  {
    var id, events := |g.events|, ReadEvents(g1, w, |g.events|);
    ReadOneMore(g, g1, w);
    OutgoingInRange(g1.edges, w);
    forall e | e in ReadHead(g1, w, id) && e.kind.Mo? ensures Located(events, e.from, e.to) {
      if e != Edge(Mo, w, id) {
        AtomicityOnly(g1.edges, Outgoing(g1.edges, w), id, id + 1);
        AtomicityTo(g1.edges, w, id, e);
        assert Edge(Mo, w, e.to) in g.edges;
        assert Located(g.events, w, e.to);
        OldOne(g, events, e.to);
      }
    }
  }

  lemma {:induction false} ScLocated(g: Graph, g1: Graph, w: nat)
    requires ScChain(g) && Readable(g, g1, w)
    ensures AllLocated(ReadEvents(g1, w, |g.events|), ReadSc(g1, w, |g.events|))
  {
    var id, events := |g.events|, ReadEvents(g1, w, |g.events|);
    ReadOneMore(g, g1, w);
    var x := events[id].location;
    if x in g.lastSc {
      assert ScWrite(g, g.lastSc[x]);
      OldOne(g, events, g.lastSc[x]);
    }
  }

  lemma {:induction false} TailLocated(g: Graph, g1: Graph, w: nat)
    requires Sourced(g) && Readable(g, g1, w)
    ensures AllLocated(ReadEvents(g1, w, |g.events|), ReadTail(g1, w, |g.events|))
  {
    var id, events := |g.events|, ReadEvents(g1, w, |g.events|);
    ReadOneMore(g, g1, w);
    RuleLocated(g, events, g1.perThread, WriteRead(w, id));
    RuleLocated(g, events, g1.perThread, ReadRead(w, id));
    if events[id].IsModifyRmw() {
      RuleLocated(g, events, g1.perThread, ReadWrite(id));
      RuleLocated(g, events, g1.perThread, WriteWrite(id));
    }
  }

  lemma {:induction false} OldLocated(g: Graph, events: seq<Event>, edges: seq<Edge>, es: seq<Edge>, edges': seq<Edge>)
    requires OneLocation(g) && OneMore(g, events) && AllLocated(events, es)
    requires forall e :: e in edges && e.kind.Mo? ==> e in g.edges
    requires forall e :: e in edges' <==> e in edges || e in es
    ensures AllLocated(events, edges')
  {
    forall e | e in edges' && e.kind.Mo? ensures Located(events, e.from, e.to) {
      if e in edges {
        assert Located(g.events, e.from, e.to);
        OldOne(g, events, e.from);
        OldOne(g, events, e.to);
      }
    }
  }

  lemma {:induction false} ReadOneLocation(g: Graph, g1: Graph, w: nat)
    requires Invariant(g) && OneLocation(g) && Readable(g, g1, w)
    ensures OneLocation(ReadDone(g1, w, |g.events|))
  {
    var id := |g.events|;
    var e, g' := Resolved(g1, w, id), ReadDone(g1, w, id);
    ReadOneMore(g, g1, w);
    HeadLocated(g, g1, w);
    ScLocated(g, g1, w);
    TailLocated(g, g1, w);
    ReadInRange(g1, w, id);
    AddAllMembers(g1.(events := ReadEvents(g1, w, id), lastSc := LastScAfter(g1.lastSc, e, id)), ReadEdges(g1, w, id));
    OldLocated(g, g'.events, g1.edges, ReadEdges(g1, w, id), g'.edges);
  }

  lemma {:induction false} StoreOneMore(g: Graph, g1: Graph)
    requires Begun(g, g1) && g1.events[|g.events|].kind.Write?
    ensures OneMore(g, StoreEvents(g1, |g.events|)) && StoreEvents(g1, |g.events|)[|g.events|].kind.Write?
  {
    assert StoreEvents(g1, |g.events|)[..|g.events|] == g.events;
  }

  lemma {:induction false} StoreLocated(g: Graph, g1: Graph)
    requires Sourced(g) && ScChain(g) && LastScOk(g) && Begun(g, g1) && g1.events[|g.events|].kind.Write?
    ensures AllLocated(StoreEvents(g1, |g.events|), StoreEdges(g1, |g.events|))
    ensures IntoNew(StoreEdges(g1, |g.events|), |g.events|)
  {
    var id, events := |g.events|, StoreEvents(g1, |g.events|);
    StoreOneMore(g, g1);
    RuleLocated(g, events, g1.perThread, ReadWrite(id));
    RuleLocated(g, events, g1.perThread, WriteWrite(id));
    var x := events[id].location;
    if x in g.lastSc {
      assert ScWrite(g, g.lastSc[x]);
      OldOne(g, events, g.lastSc[x]);
    }
  }

  lemma {:induction false} StoreOneLocation(g: Graph, g1: Graph)
    requires Invariant(g) && OneLocation(g) && Begun(g, g1) && g1.events[|g.events|].kind.Write?
    ensures OneLocation(Stored(g1, |g.events|))
  {
    var id := |g.events|;
    var g' := Stored(g1, id);
    StoreOneMore(g, g1);
    StoreLocated(g, g1);
    StoreInRange(g1, id);
    AddAllMembers(g1.(events := StoreEvents(g1, id), lastSc := g'.lastSc), StoreEdges(g1, id));
    OldLocated(g, g'.events, g1.edges, StoreEdges(g1, id), g'.edges);
  }

  // ---- What an operation adds to the successor lists ------------------------------------------------------------

  lemma {:induction false} PoLists(edges: seq<Edge>, po: Edge, n: nat)
    requires InRange(n, edges) && !po.kind.Mo?
    ensures Lists(edges + [po], n + 1) == Lists(edges, n) + [[]]
  {
    forall a: nat | a <= n ensures Lists(edges + [po], n + 1)[a] == (Lists(edges, n) + [[]])[a] {
      ListsAdd(edges, po, n + 1, a);
      NoneOutgoing(edges, n);
    }
  }

  /** A started operation has an event without successors and no edge to it in the modification order. */
  lemma {:induction false} BegunLists(g: Graph, g1: Graph)
    requires Defined(g) && Begun(g, g1)
    ensures |ListsOf(g)| == |g.events| && ListsOf(g1) == ListsOf(g) + [[]]
  {
    PoLists(g.edges, Edge(Po, Last(g, g1.events[|g.events|].thread), |g.events|), |g.events|);
  }

  lemma {:induction false} DefinedLists(g: Graph)
    requires Defined(g)
    ensures CycleCheck.Linked(g.edges, g.outs) && ListsInRange(ListsOf(g)) && |ListsOf(g)| == |g.events|
    ensures CycleCheck.Passes(g) <==> AcceptedLists(ListsOf(g))
  {
    ListsRange(g.edges, |g.outs|);
    PassesAccepted(g);
  }

  /** A store adds the new event as the last successor of some events. */
  lemma {:induction false} StorePasses(g: Graph, g1: Graph)
    requires Invariant(g) && Begun(g, g1) && g1.events[|g.events|].kind.Write? && CycleCheck.Passes(g)
    requires Defined(Stored(g1, |g.events|))
    ensures CycleCheck.Passes(Stored(g1, |g.events|))
  {
    var id := |g.events|;
    var g' := Stored(g1, id);
    BegunLists(g, g1);
    StoreLocated(g, g1);
    StoreInRange(g1, id);
    var base := g1.(events := StoreEvents(g1, id), lastSc := g'.lastSc);
    assert ListsOf(base) == ListsOf(g1);
    AddAllFollowed(ListsOf(g), base, StoreEdges(g1, id));
    DefinedLists(g);
    FollowedFresh(ListsOf(g), ListsOf(g'));
    DefinedLists(g');
  }

  lemma {:induction false} NoAtomicity(edges: seq<Edge>, w: nat, n: nat, r: nat)
    requires w < n && Lists(edges, n)[w] == [] && IdsInRange(|edges|, Outgoing(edges, w))
    ensures AtomicityEdges(edges, Outgoing(edges, w), r) == []
  {
    var es := AtomicityEdges(edges, Outgoing(edges, w), r);
    if es != [] {
      AtomicityTo(edges, w, r, es[0]);
      ListsMember(edges, n, w, es[0].to);
      assert false;
    }
  }

  /** The reads-from edge and, if it writes, the edge from the source. */
  lemma {:induction false} HeadGrown(lists: seq<seq<nat>>, g: Graph, base: Graph, w: nat, id: nat)
    requires Defined(g) && CanRead(g, w, id) && |lists| == id && |g.events| == id + 1 && |base.outs| == id + 1
    requires ListsInRange(lists) && Grown(lists, ListsOf(g), w, true) && ListsOf(g)[w] == [] && base.edges == g.edges
    requires InRange(id + 1, ReadHead(g, w, id))
    ensures Grown(lists, ListsOf(AddAll(base, ReadHead(g, w, id))), w, true)
  {
    OutgoingInRange(g.edges, w);
    NoAtomicity(g.edges, w, id + 1, id);
    var rf, mo := Edge(Rf, w, id), Edge(Mo, w, id);
    assert ListsOf(base) == ListsOf(g);
    AddOne(base, rf);
    AddToNew(lists, base, w, rf, true);
    if Resolved(g, w, id).IsModifyRmw() {
      assert ReadHead(g, w, id) == [rf, mo] && [rf, mo][..1] == [rf];
      AddToNew(lists, AddEdge(base, rf), w, mo, true);
    } else {
      assert ReadHead(g, w, id) == [rf];
    }
  }

  /** The edge from the last seq_cst write to the source and, if it writes, to the new event. */
  lemma {:induction false} LastGrown(lists: seq<seq<nat>>, g: Graph, w: nat, last: nat, modifying: bool)
    requires ListsInRange(lists) && |g.outs| == |lists| + 1 && Grown(lists, ListsOf(g), w, true) && last < |lists|
    ensures var id, toSource := |lists|, if last != w then [Edge(Mo, last, w)] else [];
            var toNew := if modifying then [Edge(Mo, last, id)] else [];
      && InRange(id + 1, toSource) && InRange(id + 1, toNew)
      && Grown(lists, ListsOf(AddAll(AddAll(g, toSource), toNew)), w, true)
  {
    var id, toSource := |lists|, if last != w then [Edge(Mo, last, w)] else [];
    AddAllToSource(lists, g, w, toSource);
    AddAllMembers(g, toSource);
    ListsMember(AddAll(g, toSource).edges, id + 1, last, w);
    if modifying {
      AddToNew(lists, AddAll(g, toSource), w, Edge(Mo, last, id), true);
      AddOne(AddAll(g, toSource), Edge(Mo, last, id));
    }
  }

  /** The edges of a seq_cst access. */
  lemma {:induction false} ScGrown(lists: seq<seq<nat>>, g: Graph, base: Graph, w: nat, id: nat)
    requires Defined(g) && CanRead(g, w, id) && |lists| == id && |base.outs| == id + 1
    requires ListsInRange(lists) && Grown(lists, ListsOf(base), w, true)
    requires (forall x :: x in g.lastSc ==> g.lastSc[x] < id) && InRange(id + 1, ReadSc(g, w, id))
    ensures Grown(lists, ListsOf(AddAll(base, ReadSc(g, w, id))), w, true)
  {
    var e := Resolved(g, w, id);
    if e.IsSeqCst() && e.location in g.lastSc {
      var last := g.lastSc[e.location];
      var sc := [Edge(Sc, last, id)];
      var toSource, toNew := if last != w then [Edge(Mo, last, w)] else [], if e.IsModifyRmw() then [Edge(Mo, last, id)]
        else [];
      assert ReadSc(g, w, id) == sc + toSource + toNew;
      AddAllToSource(lists, base, w, sc);
      LastGrown(lists, AddAll(base, sc), w, last, e.IsModifyRmw());
      AddAllConcat(base, sc, toSource);
      AddAllConcat(base, sc + toSource, toNew);
    } else {
      assert ReadSc(g, w, id) == [];
    }
  }

  lemma {:induction false} Loosened(before: seq<seq<nat>>, after: seq<seq<nat>>, w: nat)
    requires Grown(before, after, w, true)
    ensures Grown(before, after, w, false)
  {
  }

  /** The edges of the rules. */
  lemma {:induction false} TailGrown(lists: seq<seq<nat>>, g: Graph, g1: Graph, base: Graph, w: nat)
    requires Sourced(g) && Readable(g, g1, w) && |lists| == |g.events| && |base.outs| == |g.events| + 1
    requires ListsInRange(lists) && Grown(lists, ListsOf(base), w, true)
    requires InRange(|g.events| + 1, ReadTail(g1, w, |g.events|))
    ensures Grown(lists, ListsOf(AddAll(base, ReadTail(g1, w, |g.events|))), w, false)
  {
    var id, events := |g.events|, ReadEvents(g1, w, |g.events|);
    ReadOneMore(g, g1, w);
    RulesInRange(events, g1.perThread, w, id);
    var toSource, toNew := ReadRules(events, g1.perThread, w, id), WriteRules(events, g1.perThread, id);
    RuleLocated(g, events, g1.perThread, WriteRead(w, id));
    RuleLocated(g, events, g1.perThread, ReadRead(w, id));
    AddAllToSource(lists, base, w, toSource);
    Loosened(lists, ListsOf(AddAll(base, toSource)), w);
    if events[id].IsModifyRmw() {
      RuleLocated(g, events, g1.perThread, ReadWrite(id));
      RuleLocated(g, events, g1.perThread, WriteWrite(id));
      AddAllToNew(lists, AddAll(base, toSource), w, toNew);
      AddAllConcat(base, toSource, toNew);
    } else {
      assert ReadTail(g1, w, id) == toSource;
    }
  }

  /** Reading a write without successors makes it, and the new event behind it, a last successor of some events. */
  lemma {:induction false} ReadGrown(g: Graph, g1: Graph, w: nat)
    requires Defined(g) && Sourced(g) && Readable(g, g1, w) && ListsInRange(ListsOf(g)) && |ListsOf(g)| == |g.events|
    requires ListsOf(g)[w] == []
    ensures Grown(ListsOf(g), ListsOf(ReadDone(g1, w, |g.events|)), w, false)
  {
    var id, lists := |g.events|, ListsOf(g);
    var head, sc, tail := ReadHead(g1, w, id), ReadSc(g1, w, id), ReadTail(g1, w, id);
    var base := g1.(events := ReadEvents(g1, w, id), lastSc := ReadDone(g1, w, id).lastSc);
    ReadInRange(g1, w, id);
    BegunLists(g, g1);
    HeadGrown(lists, g1, base, w, id);
    ScGrown(lists, g1, AddAll(base, head), w, id);
    AddAllConcat(base, head, sc);
    TailGrown(lists, g, g1, AddAll(base, head + sc), w);
    AddAllConcat(base, head + sc, tail);
  }

  // ---- Some write passes ----------------------------------------------------------------------------------------

  ghost function WritesOf(g: Graph, location: int): set<nat> {
    set w: nat | w < |g.events| && g.events[w].Writes() && g.events[w].location == location
  }

  /** The successors of a write are writes of its location. */
  lemma {:induction false} GroupClosed(g: Graph, location: int, a: nat, b: nat)
    requires Defined(g) && OneLocation(g) && a in WritesOf(g, location) && |g.outs| == |g.events|
    requires b in ListsOf(g)[a]
    ensures b in WritesOf(g, location)
  {
    ListsMember(g.edges, |g.outs|, a, b);
    assert Located(g.events, a, b);
  }

  /** What is newly followed by the source is a write of its location. */
  lemma {:induction false} LaterInGroup(g: Graph, g': Graph, location: int, w: nat, a: nat)
    requires Defined(g) && OneMore(g, g'.events) && OneLocation(g') && |g'.outs| == |g.outs| + 1 == |g'.events|
    requires w in WritesOf(g, location) && a < |g.events| && w in ListsOf(g')[a]
    ensures a in WritesOf(g, location)
  {
    ListsMember(g'.edges, |g'.outs|, a, w);
    assert Located(g'.events, a, w);
    OldOne(g, g'.events, a);
    OldOne(g, g'.events, w);
  }

  /** The lists allow to read from `w`, whatever the operation. */
  ghost predicate Open(lists: seq<seq<nat>>, group: set<nat>, w: nat) {
    && w < |lists| && w in group && lists[w] == []
    && forall before: set<nat> :: Placeable(lists, group, before, w) ==> AcceptedLists(WithLater(lists, before, w))
  }

  lemma {:induction false} OpenExists(g: Graph, location: int, v: nat) returns (w: nat)
    requires Defined(g) && OneLocation(g) && CycleCheck.Passes(g) && v in WritesOf(g, location)
    ensures Open(ListsOf(g), WritesOf(g, location), w)
  {
    var lists, group := ListsOf(g), WritesOf(g, location);
    DefinedLists(g);
    forall a, b | a in group && a < |lists| && b in lists[a] ensures b in group {
      GroupClosed(g, location, a, b);
    }
    w := SafeTarget(lists, group, v);
  }

  lemma {:induction false} GrownAccepted(g: Graph, g': Graph, location: int, w: nat)
    requires Defined(g) && ListsInRange(ListsOf(g)) && |ListsOf(g)| == |g.events| && OneMore(g, g'.events)
    requires OneLocation(g') && |g'.outs| == |g.outs| + 1 == |g'.events|
    requires Open(ListsOf(g), WritesOf(g, location), w) && Grown(ListsOf(g), ListsOf(g'), w, false)
    ensures AcceptedLists(ListsOf(g'))
  {
    var lists, after, group := ListsOf(g), ListsOf(g'), WritesOf(g, location);
    var later := set a: nat | a < |lists| && w in after[a] && w !in lists[a];
    var followed := set a: nat | a < |lists| && |lists| in after[a];
    GrownFrom(lists, after, w);
    forall a | a in later ensures a in group {
      LaterInGroup(g, g', location, w, a);
    }
    assert Placeable(lists, group, later, w);
    FreshAccepted(WithLater(lists, later, w), followed);
  }

  lemma {:induction false} OpenPasses(g: Graph, g1: Graph, location: int, w: nat)
    requires Invariant(g) && OneLocation(g) && Readable(g, g1, w) && Open(ListsOf(g), WritesOf(g, location), w)
    ensures CycleCheck.Passes(ReadDone(g1, w, |g.events|))
  {
    var id := |g.events|;
    var e, g' := Resolved(g1, w, id), ReadDone(g1, w, id);
    DefinedLists(g);
    ReadGrown(g, g1, w);
    ReadOneLocation(g, g1, w);
    ReadOneMore(g, g1, w);
    ReadFinished(g, g1, w);
    FinishedDefined(g, g1, e, LastScAfter(g.lastSc, e, id), ReadEdges(g1, w, id), g');
    GrownAccepted(g, g', location, w);
    DefinedLists(g');
  }

  // ---- Runs -----------------------------------------------------------------------------------------------------

  lemma {:induction false} StepProgress(g: Graph, op: Operation, g': Graph)
    requires Invariant(g) && Step(g, op, g') && Invariant(g') && OneLocation(g) && CycleCheck.Passes(g)
    ensures OneLocation(g') && CycleCheck.Passes(g')
  {
    if op.Reading? {
      var joined := StepReads(g, op, g');
      ReadOneLocation(g, Started(g, op.kind, op.location, op.thread, op.order, joined), op.source);
    } else {
      var g1 := Append(g, Write(op.value), op.location, op.thread, op.order);
      StartedFresh(g, Write(op.value), op.location, op.thread, op.order);
      StoreOneLocation(g, g1);
      StorePasses(g, g1);
    }
  }

  lemma {:induction false} InitialProgress(n: nat)
    ensures OneLocation(Initial(n)) && CycleCheck.Passes(Initial(n))
  {
    InitialInvariant(n);
    var lists := Lists([], n);
    DefinedLists(Initial(n));
    AllFinished(lists, CycleCheck.Uncolored(n), 0);
  }

  /** Without edges nothing is rejected. */
  lemma {:induction false} AllFinished(lists: seq<seq<nat>>, colors: seq<CycleCheck.Color>, e: nat)
    requires ListsInRange(lists) && |colors| == |lists| && e <= |lists|
    requires forall a :: 0 <= a < |lists| ==> lists[a] == []
    ensures WalkAll(lists, colors, e)
    decreases |lists| - e
  {
    if e < |lists| {
      if colors[e] == CycleCheck.Visited {
        AllFinished(lists, colors, e + 1);
      } else {
        assert [] + [CycleCheck.Entry(e, false)] == [CycleCheck.Entry(e, false)];
        SinkDone(lists, colors, [], e);
        AllFinished(lists, colors[e := CycleCheck.Visited], e + 1);
      }
    }
  }

  lemma {:induction false} RunStepPasses(threads: nat, graphs: seq<Graph>, ops: seq<Operation>, k: nat)
    requires IsRun(threads, graphs, ops) && k < |ops| && OneLocation(graphs[k]) && CycleCheck.Passes(graphs[k])
    ensures OneLocation(graphs[k + 1]) && CycleCheck.Passes(graphs[k + 1])
  {
    RunKeeps(threads, graphs, ops, k);
    RunKeeps(threads, graphs, ops, k + 1);
    assert StepAt(graphs, ops, k);
    StepProgress(graphs[k], ops[k], graphs[k + 1]);
  }

  /** Every graph of a run passes the check, also after a store, which does not run it. */
  lemma {:induction false} RunConsistent(threads: nat, graphs: seq<Graph>, ops: seq<Operation>, k: nat)
    requires IsRun(threads, graphs, ops) && k < |graphs|
    ensures OneLocation(graphs[k]) && CycleCheck.Passes(graphs[k])
  {
    if k == 0 {
      InitialProgress(threads);
    } else {
      RunConsistent(threads, graphs, ops, k - 1);
      RunStepPasses(threads, graphs, ops, k - 1);
    }
  }

  /** The attempt on `w` passes, also after rejected attempts on other writes. */
  ghost predicate AlwaysPasses(g: Graph, kind: Kind, location: int, thread: nat, order: Order, w: nat)
    requires Appendable(g, thread)
  {
    forall joined: bool {:trigger Started(g, kind, location, thread, order, joined)} ::
      var g1 := Started(g, kind, location, thread, order, joined);
      Readable(g, g1, w) && CycleCheck.Passes(ReadDone(g1, w, |g.events|))
  }

  /** At the end of every run, for every load and read-modify-write of a known location, some write of the location
      passes the check. */
  lemma {:induction false} SomeWritePasses(threads: nat, graphs: seq<Graph>, ops: seq<Operation>, kind: Kind,
                                           location: int, thread: nat, order: Order) returns (w: nat)
    requires IsRun(threads, graphs, ops) && Appendable(graphs[|ops|], thread)
    requires (kind.Read? || kind.Cas? || kind.Rmw?) && location in graphs[|ops|].lastSc
    ensures Candidate(graphs[|ops|], kind, location, w)
    ensures AlwaysPasses(graphs[|ops|], kind, location, thread, order, w)
  {
    var g := graphs[|ops|];
    RunKeeps(threads, graphs, ops, |ops|);
    RunConsistent(threads, graphs, ops, |ops|);
    assert ScWrite(g, g.lastSc[location]);
    w := OpenExists(g, location, g.lastSc[location]);
    forall joined: bool
      ensures var g1 := Started(g, kind, location, thread, order, joined);
              Readable(g, g1, w) && CycleCheck.Passes(ReadDone(g1, w, |g.events|))
    {
      StartedAttemptable(g, kind, location, thread, order, joined, w);
      OpenPasses(g, Started(g, kind, location, thread, order, joined), location, w);
    }
  }

  /** So an operation that tries all writes of its location finds one. */
  lemma {:induction false} ReadsSomething(threads: nat, graphs: seq<Graph>, ops: seq<Operation>, kind: Kind,
                                          location: int, thread: nat, order: Order, writes: set<nat>)
    requires IsRun(threads, graphs, ops) && Appendable(graphs[|ops|], thread)
    requires (kind.Read? || kind.Cas? || kind.Rmw?) && location in graphs[|ops|].lastSc
    requires forall w: nat :: w in writes <==> Candidate(graphs[|ops|], kind, location, w)
    ensures exists w: nat :: w in writes && !Unreadable(graphs[|ops|], kind, location, thread, order, w)
  {
    var g := graphs[|ops|];
    var w := SomeWritePasses(threads, graphs, ops, kind, location, thread, order);
    forall joined: bool ensures !RejectedOn(g, kind, location, thread, order, joined, w) {
      assert CycleCheck.Passes(ReadDone(Started(g, kind, location, thread, order, joined), w, |g.events|));
    }
    assert w in writes;
  }
}

/** How the partial results of an operation compose, and what a rejected attempt leaves behind. */
module GraphSteps {
  import opened Options
  import opened VectorClock
  import opened Relations
  import opened MemoryGraph
  import opened Clocks
  import opened Coherence
  import opened GraphInvariant
  import opened GraphOperations
  import CycleCheck

  /** `g` with other events and last seq_cst writes, and `es` added. */
  ghost function Built(g: Graph, events: seq<Event>, lastSc: map<int, nat>, es: seq<Edge>): Graph
    requires InRange(|g.outs|, es)
  {
    AddAll(g.(events := events, lastSc := lastSc), es)
  }

  lemma BuiltMore(g: Graph, events: seq<Event>, lastSc: map<int, nat>, es: seq<Edge>, more: seq<Edge>)
    requires InRange(|g.outs|, es) && InRange(|g.outs|, more)
    ensures InRange(|g.outs|, es + more)
    ensures AddAll(Built(g, events, lastSc, es), more) == Built(g, events, lastSc, es + more)
  {
    AddAllConcat(g.(events := events, lastSc := lastSc), es, more);
  }

  lemma BuiltFrame(g: Graph, events: seq<Event>, lastSc: map<int, nat>, es: seq<Edge>, events': seq<Event>,
                   lastSc': map<int, nat>)
    requires InRange(|g.outs|, es)
    ensures Built(g, events, lastSc, es).(events := events', lastSc := lastSc') == Built(g, events', lastSc', es)
  {
    AddAllFrame(g.(events := events, lastSc := lastSc), es, events', lastSc');
  }

  lemma BuiltTwice(g: Graph, events: seq<Event>, lastSc: map<int, nat>, es: seq<Edge>, x: seq<Edge>, y: seq<Edge>,
                   lastSc': map<int, nat>)
    requires InRange(|g.outs|, es) && InRange(|g.outs|, x) && InRange(|g.outs|, y)
    ensures InRange(|g.outs|, es + (x + y))
    ensures AddAll(AddAll(Built(g, events, lastSc, es), x), y).(lastSc := lastSc') == Built(g, events, lastSc',
        es + (x + y))
  {
    AddAllConcat(Built(g, events, lastSc, es), x, y);
    BuiltMore(g, events, lastSc, es, x + y);
    BuiltFrame(g, events, lastSc, es + (x + y), events, lastSc');
  }

  lemma AddOne(g: Graph, e: Edge)
    requires InRange(|g.outs|, [e])
    ensures e in [e] && AddEdge(g, e) == AddAll(g, [e])
  {
    assert [e][..0] == [];
    assert AddAll(g, [e][..0]) == g;
  }

  // ---- Atomicity edges ------------------------------------------------------------------------------------

  /** Edges added later do not matter, nor do those that are not in modification order or lead to `r`. */
  lemma {:induction false} AtomicityFrame(edges: seq<Edge>, edges': seq<Edge>, ids: seq<nat>, r: nat)
    requires IdsInRange(|edges|, ids) && |edges| <= |edges'| && edges'[..|edges|] == edges
    ensures AtomicityEdges(edges, ids, r) == AtomicityEdges(edges', ids, r)
  {
    if ids != [] {
      AtomicityFrame(edges, edges', ids[..|ids| - 1], r);
      assert edges'[ids[|ids| - 1]] == edges'[..|edges|][ids[|ids| - 1]];
    }
  }

  lemma AtomicitySkips(edges: seq<Edge>, ids: seq<nat>, r: nat, e: Edge)
    requires IdsInRange(|edges|, ids) && (!e.kind.Mo? || e.to == r)
    ensures AtomicityEdges(edges + [e], ids + [|edges|], r) == AtomicityEdges(edges, ids, r)
  {
    assert (ids + [|edges|])[..|ids|] == ids;
    AtomicityFrame(edges, edges + [e], ids, r);
  }

  lemma AtomicityStep(g: Graph, ids: seq<nat>, i: nat, r: nat)
    requires IdsInRange(|g.edges|, ids) && i < |ids| && InRange(|g.outs|, g.edges) && r < |g.outs|
    requires InRange(|g.outs|, AtomicityEdges(g.edges, ids[..i], r))
    ensures var e := g.edges[ids[i]];
            var more := if e.kind.Mo? && e.to != r then [Edge(Mo, r, e.to)] else [];
            && ids[i] < |AddAll(g, AtomicityEdges(g.edges, ids[..i], r)).edges|
            && AddAll(g, AtomicityEdges(g.edges, ids[..i], r)).edges[ids[i]] == e && e.to < |g.outs|
            && AtomicityEdges(g.edges, ids[..i + 1], r) == AtomicityEdges(g.edges, ids[..i], r) + more
               && InRange(|g.outs|, more)
            && InRange(|g.outs|, AtomicityEdges(g.edges, ids[..i + 1], r))
            && AddAll(AddAll(g, AtomicityEdges(g.edges, ids[..i], r)), more) == AddAll(g,
                AtomicityEdges(g.edges, ids[..i + 1], r))
  {
    var e := g.edges[ids[i]];
    assert e in g.edges;
    var now := AddAll(g, AtomicityEdges(g.edges, ids[..i], r)).edges;
    assert now[ids[i]] == e by {
      AddAllPrefix(g, AtomicityEdges(g.edges, ids[..i], r));
      assert now[..|g.edges|][ids[i]] == e;
    }
    assert ids[..i + 1][..i] == ids[..i];
    AddAllConcat(g, AtomicityEdges(g.edges, ids[..i], r), if e.kind.Mo? && e.to != r then [Edge(Mo, r, e.to)] else []);
  }

  lemma RuleStep(g: Graph, rule: Rule, t: nat)
    requires Subject(rule) < |g.events| == |g.outs| && ThreadsInRange(|g.events|, g.perThread) && t < |g.perThread|
      && SourcesOk(g)
    requires rule.WriteRead? || rule.ReadRead? ==> rule.write < |g.events|
    ensures var before, here := RuleEdges(g.events, g.perThread[..t], rule),
      RuleEdgesOf(g.events, g.perThread[t], rule);
            && InRange(|g.outs|, before) && InRange(|g.outs|, here)
               && InRange(|g.outs|, RuleEdges(g.events, g.perThread[..t + 1], rule))
            && AddAll(AddAll(g, before), here) == AddAll(g, RuleEdges(g.events, g.perThread[..t + 1], rule))
  {
    RuleInRange(g.events, g.perThread[..t], rule);
    RuleInRange(g.events, g.perThread[..t + 1], rule);
    assert g.perThread[..t + 1][..t] == g.perThread[..t];
    var here := RuleEdgesOf(g.events, g.perThread[t], rule);
    assert forall e :: e in here ==> e in RuleEdges(g.events, g.perThread[..t + 1], rule);
    AddAllConcat(g, RuleEdges(g.events, g.perThread[..t], rule), here);
  }

  /** Every edge is among the outgoing edges of its origin. */
  lemma EdgeListed(edges: seq<Edge>, e: Edge)
    ensures IdsInRange(|edges|, Outgoing(edges, e.from))
    ensures e in edges ==> exists k :: 0 <= k < |Outgoing(edges, e.from)| && edges[Outgoing(edges, e.from)[k]] == e
  {
    OutgoingInRange(edges, e.from);
    if e in edges {
      var id :| 0 <= id < |edges| && edges[id] == e;
      OutgoingExact(edges, e.from, id);
      var k :| 0 <= k < |Outgoing(edges, e.from)| && Outgoing(edges, e.from)[k] == id;
    }
  }

  // ---- Parts of a read ---------------------------------------------------------------------------------------

  /** The reading event after the synchronizes-with join only. */
  ghost function Synced(g: Graph, w: nat, r: nat): Event
    requires Defined(g) && CanRead(g, w, r)
  {
    var e := g.events[r].ReadFrom(w, g.events[w].Written());
    if Synchronizes(g.events[w], e) then e.(clock := Join(e.clock, g.events[w].clock)) else e
  }

  lemma ResolvedFrom(g: Graph, w: nat, r: nat)
    requires Defined(g) && CanRead(g, w, r)
    ensures var e := Synced(g, w, r);
            Resolved(g, w, r) == if e.IsSeqCst() then e.(clock := JoinLastSc(g, e.location, e.clock)) else e
  {
  }

  /** Listing the edges of the source after the reads-from and modification-order edges to `r` changes nothing. */
  lemma AtomicityAfter(g: Graph, w: nat, r: nat)
    requires Defined(g) && CanRead(g, w, r)
    ensures IdsInRange(|g.edges|, Outgoing(g.edges, w))
    ensures var es := g.edges + [Edge(Rf, w, r)];
            && IdsInRange(|es|, Outgoing(es, w))
            && AtomicityEdges(es, Outgoing(es, w), r) == AtomicityEdges(g.edges, Outgoing(g.edges, w), r)
            && IdsInRange(|es| + 1, Outgoing(es + [Edge(Mo, w, r)], w))
            && AtomicityEdges(es + [Edge(Mo, w, r)], Outgoing(es + [Edge(Mo, w, r)], w), r) == AtomicityEdges(es,
                Outgoing(es, w), r)
  {
    var es := g.edges + [Edge(Rf, w, r)];
    OutgoingInRange(g.edges, w);
    OutgoingInRange(es, w);
    OutgoingInRange(es + [Edge(Mo, w, r)], w);
    assert es[..|g.edges|] == g.edges && (es + [Edge(Mo, w, r)])[..|es|] == es;
    AtomicitySkips(g.edges, Outgoing(g.edges, w), r, Edge(Rf, w, r));
    AtomicitySkips(es, Outgoing(es, w), r, Edge(Mo, w, r));
  }

  /** `AtomicityEdges` at the point where they are added. */
  lemma HeadAtomicity(g: Graph, w: nat, r: nat, edges: seq<Edge>)
    requires Defined(g) && CanRead(g, w, r)
    requires InRange(|g.outs|, [Edge(Rf, w, r), Edge(Mo, w, r)])
      && edges == AddAll(g, [Edge(Rf, w, r), Edge(Mo, w, r)]).edges
    ensures IdsInRange(|g.edges|, Outgoing(g.edges, w)) && IdsInRange(|edges|, Outgoing(edges, w))
    ensures AtomicityEdges(edges, Outgoing(edges, w), r) == AtomicityEdges(g.edges, Outgoing(g.edges, w), r)
  {
    AtomicityAfter(g, w, r);
    var both := [Edge(Rf, w, r), Edge(Mo, w, r)];
    assert both[..1] == [Edge(Rf, w, r)];
    AddOne(g, Edge(Rf, w, r));
  }

  lemma AtomicityBuilt(g: Graph, events: seq<Event>, w: nat, r: nat, g1: Graph)
    requires Defined(g) && CanRead(g, w, r) && |events| == |g.events|
    requires InRange(|g.outs|, [Edge(Rf, w, r), Edge(Mo, w, r)])
    requires g1 == Built(g, events, g.lastSc, [Edge(Rf, w, r), Edge(Mo, w, r)])
    ensures IdsInRange(|g.edges|, Outgoing(g.edges, w)) && w < |g1.outs| && IdsInRange(|g1.edges|, g1.outs[w])
    ensures AtomicityEdges(g1.edges, g1.outs[w], r) == AtomicityEdges(g.edges, Outgoing(g.edges, w), r)
  {
    var both := [Edge(Rf, w, r), Edge(Mo, w, r)];
    AddAllFrame(g, both, events, g.lastSc);
    HeadAtomicity(g, w, r, g1.edges);
    AddAllOuts(g.(events := events), both);
  }

  lemma HeadShape(g: Graph, w: nat, r: nat)
    requires Defined(g) && CanRead(g, w, r) && Resolved(g, w, r).IsModifyRmw()
    ensures IdsInRange(|g.edges|, Outgoing(g.edges, w)) && InRange(|g.outs|, ReadHead(g, w, r))
    ensures var atomicity := AtomicityEdges(g.edges, Outgoing(g.edges, w), r);
            InRange(|g.outs|, atomicity) && ReadHead(g, w, r) == [Edge(Rf, w, r), Edge(Mo, w, r)] + atomicity
  {
    OutgoingInRange(g.edges, w);
    AtomicityOnly(g.edges, Outgoing(g.edges, w), r, |g.events|);
    var atomicity := AtomicityEdges(g.edges, Outgoing(g.edges, w), r);
    assert [Edge(Rf, w, r)] + ([Edge(Mo, w, r)] + atomicity) == [Edge(Rf, w, r), Edge(Mo, w, r)] + atomicity;
  }

  /** The reads-from edge, the edge from the source and the atomicity edges, added one after another. */
  lemma HeadBuilt(g: Graph, events: seq<Event>, w: nat, r: nat, g1: Graph)
    requires Defined(g) && CanRead(g, w, r) && |events| == |g.events| && Resolved(g, w, r).IsModifyRmw()
    requires InRange(|g.outs|, [Edge(Rf, w, r)]) && InRange(|g.outs|, [Edge(Mo, w, r)])
    requires g1 == AddAll(Built(g, events, g.lastSc, [Edge(Rf, w, r)]), [Edge(Mo, w, r)])
    ensures w < |g1.outs| && IdsInRange(|g1.edges|, g1.outs[w])
      && InRange(|g.outs|, AtomicityEdges(g1.edges, g1.outs[w], r))
    ensures InRange(|g.outs|, ReadHead(g, w, r))
    ensures AddAll(g1, AtomicityEdges(g1.edges, g1.outs[w], r)) == Built(g, events, g.lastSc, ReadHead(g, w, r))
  {
    var both := [Edge(Rf, w, r), Edge(Mo, w, r)];
    assert both == [Edge(Rf, w, r)] + [Edge(Mo, w, r)];
    BuiltMore(g, events, g.lastSc, [Edge(Rf, w, r)], [Edge(Mo, w, r)]);
    AtomicityBuilt(g, events, w, r, g1);
    HeadShape(g, w, r);
    BuiltMore(g, events, g.lastSc, both, AtomicityEdges(g.edges, Outgoing(g.edges, w), r));
  }

  lemma BuiltDefined(g: Graph, events: seq<Event>, lastSc: map<int, nat>, es: seq<Edge>)
    requires Defined(g) && InRange(|g.outs|, es) && |events| == |g.events|
      && (forall x :: x in lastSc ==> lastSc[x] < |events|)
    requires forall e :: 0 <= e < |events| ==> |events[e].clock| == g.threads
    requires forall e :: 0 <= e < |events| && events[e].source.Some? ==> events[e].source.value < |events|
    ensures Defined(Built(g, events, lastSc, es))
  {
    AddAllOuts(g.(events := events, lastSc := lastSc), es);
    AddAllMembers(g.(events := events, lastSc := lastSc), es);
  }

  /** The seq_cst edges are those of the graph before the attempt. */
  lemma ScStep(g: Graph, w: nat, r: nat, es: seq<Edge>, g1: Graph)
    requires Defined(g) && CanRead(g, w, r) && InRange(|g.outs|, es) && Synced(g, w, r).IsSeqCst()
    requires forall x :: x in g.lastSc ==> g.lastSc[x] != r
    requires g1 == Built(g, g.events[r := Synced(g, w, r)], g.lastSc, es)
    ensures Defined(g1) && InRange(|g.outs|, ScEdge(g, r)) && InRange(|g.outs|, es + ScEdge(g, r))
    ensures var e := Synced(g, w, r);
            var joined := g1.events[r := e.(clock := JoinLastSc(g1, e.location, e.clock))];
            AddAll(g1.(events := joined), ScEdge(g1, r)) == Built(g, ReadEvents(g, w, r), g.lastSc, es + ScEdge(g, r))
  {
    var e, events := Synced(g, w, r), g.events[r := Synced(g, w, r)];
    BuiltDefined(g, events, g.lastSc, es);
    ResolvedFrom(g, w, r);
    assert g1.events[r := e.(clock := JoinLastSc(g1, e.location, e.clock))] == ReadEvents(g, w, r);
    BuiltFrame(g, events, g.lastSc, es, ReadEvents(g, w, r), g.lastSc);
    BuiltMore(g, ReadEvents(g, w, r), g.lastSc, es, ScEdge(g, r));
  }

  /** The two modification-order edges of a seq_cst access, and the new last seq_cst write. */
  lemma ScComposed(g: Graph, w: nat, r: nat, es: seq<Edge>, g1: Graph)
    requires Defined(g) && CanRead(g, w, r) && InRange(|g.outs|, es + ScEdge(g, r)) && Resolved(g, w, r).IsSeqCst()
    requires g1 == Built(g, ReadEvents(g, w, r), g.lastSc, es + ScEdge(g, r))
    ensures var e := Resolved(g, w, r);
            var x, y := ScMoEdge(g, e.location, w), if e.IsModifyRmw() then ScMoEdge(g, e.location, r) else [];
            && InRange(|g.outs|, x) && InRange(|g.outs|, y) && InRange(|g.outs|, es + ReadSc(g, w, r))
            && AddAll(AddAll(g1, x), y).(lastSc := LastScAfter(g.lastSc, e, r))
            == Built(g, ReadEvents(g, w, r), LastScAfter(g.lastSc, e, r), es + ReadSc(g, w, r))
  {
    var e := Resolved(g, w, r);
    var x, y := ScMoEdge(g, e.location, w), if e.IsModifyRmw() then ScMoEdge(g, e.location, r) else [];
    BuiltTwice(g, ReadEvents(g, w, r), g.lastSc, es + ScEdge(g, r), x, y, LastScAfter(g.lastSc, e, r));
    assert es + ScEdge(g, r) + (x + y) == es + ReadSc(g, w, r);
  }

  ghost function ScJoined(g: Graph, id: nat): Graph
    requires Defined(g) && id < |g.events|
  {
    var e := g.events[id];
    AddAll(g.(events := g.events[id := e.(clock := JoinLastSc(g, e.location, e.clock))]), ScEdge(g, id))
  }

  ghost function AfterLast(g: Graph, location: int, w: nat, r: nat, modifying: bool): Graph
    requires LastScOk(g) && w < |g.events| && r < |g.events| && |g.outs| == |g.events|
  {
    AddAll(AddAll(g, ScMoEdge(g, location, w)), if modifying then ScMoEdge(g, location, r) else [])
      .(lastSc := if modifying then g.lastSc[location := r] else g.lastSc)
  }

  /** The seq_cst part of a read, in the order in which it is carried out. */
  lemma ScWhole(g: Graph, w: nat, r: nat, es: seq<Edge>, g1: Graph)
    requires Defined(g) && CanRead(g, w, r) && InRange(|g.outs|, es) && Synced(g, w, r).IsSeqCst()
    requires forall x :: x in g.lastSc ==> g.lastSc[x] != r
    requires g1 == Built(g, g.events[r := Synced(g, w, r)], g.lastSc, es)
    ensures Defined(g1) && LastScOk(ScJoined(g1, r)) && |ScJoined(g1, r).outs| == |ScJoined(g1, r).events| == |g.events|
    ensures var e := Synced(g, w, r);
            && InRange(|g.outs|, es + ReadSc(g, w, r))
            && AfterLast(ScJoined(g1, r), e.location, w, r, e.IsModifyRmw())
            == Built(g, ReadEvents(g, w, r), LastScAfter(g.lastSc, Resolved(g, w, r), r), es + ReadSc(g, w, r))
  {
    ScStep(g, w, r, es, g1);
    ResolvedFrom(g, w, r);
    ScComposed(g, w, r, es, ScJoined(g1, r));
  }

  /** An access that is not seq_cst has no such part. */
  lemma ScNone(g: Graph, w: nat, r: nat, es: seq<Edge>)
    requires Defined(g) && CanRead(g, w, r) && InRange(|g.outs|, es) && !Synced(g, w, r).IsSeqCst()
    ensures ReadEvents(g, w, r) == g.events[r := Synced(g, w, r)] && es + ReadSc(g, w, r) == es
    ensures LastScAfter(g.lastSc, Resolved(g, w, r), r) == g.lastSc
  {
    ResolvedFrom(g, w, r);
  }

  ghost function RulesFor(events: seq<Event>, perThread: seq<seq<nat>>, w: nat, r: nat, modifying: bool): seq<Edge>
    requires r < |events| && ThreadsInRange(|events|, perThread)
  {
    ReadRules(events, perThread, w, r) + if modifying then WriteRules(events, perThread, r) else []
  }

  /** Two or four rules, applied one after another. */
  lemma RulesOneByOne(g: Graph, w: nat, r: nat)
    requires Defined(g) && w < |g.events| && r < |g.events|
    ensures var wr, rr := RuleEdges(g.events, g.perThread, WriteRead(w, r)),
      RuleEdges(g.events, g.perThread, ReadRead(w, r));
            var rw, ww := RuleEdges(g.events, g.perThread, ReadWrite(r)),
              RuleEdges(g.events, g.perThread, WriteWrite(r));
            && InRange(|g.outs|, wr) && InRange(|g.outs|, rr) && InRange(|g.outs|, rw) && InRange(|g.outs|, ww)
            && InRange(|g.outs|, RulesFor(g.events, g.perThread, w, r, false))
               && InRange(|g.outs|, RulesFor(g.events, g.perThread, w, r, true))
            && AddAll(AddAll(g, wr), rr) == AddAll(g, RulesFor(g.events, g.perThread, w, r, false))
            && AddAll(AddAll(AddAll(AddAll(g, wr), rr), rw), ww) == AddAll(g,
                RulesFor(g.events, g.perThread, w, r, true))
  {
    var wr, rr := RuleEdges(g.events, g.perThread, WriteRead(w, r)), RuleEdges(g.events, g.perThread, ReadRead(w, r));
    var rw, ww := RuleEdges(g.events, g.perThread, ReadWrite(r)), RuleEdges(g.events, g.perThread, WriteWrite(r));
    RulesInRange(g.events, g.perThread, w, r);
    assert InRange(|g.outs|, wr) && InRange(|g.outs|, rr) && InRange(|g.outs|, rw) && InRange(|g.outs|, ww) by {
      RuleInRange(g.events, g.perThread, WriteRead(w, r));
      RuleInRange(g.events, g.perThread, ReadRead(w, r));
      RuleInRange(g.events, g.perThread, ReadWrite(r));
      RuleInRange(g.events, g.perThread, WriteWrite(r));
    }
    FourParts(g, wr, rr, rw, ww);
  }

  lemma FourParts(g: Graph, a: seq<Edge>, b: seq<Edge>, c: seq<Edge>, d: seq<Edge>)
    requires InRange(|g.outs|, a) && InRange(|g.outs|, b) && InRange(|g.outs|, c) && InRange(|g.outs|, d)
    ensures AddAll(AddAll(g, a), b) == AddAll(g, a + b + [])
    ensures AddAll(AddAll(AddAll(AddAll(g, a), b), c), d) == AddAll(g, a + b + (c + d))
  {
    AddAllConcat(g, a, b);
    assert a + b + [] == a + b;
    AddAllConcat(AddAll(g, a + b), c, d);
    AddAllConcat(g, a + b, c + d);
  }

  /** The newest event, not yet resolved, may try the write `w`. */
  ghost predicate Attemptable(g: Graph, w: nat, r: nat) {
    && Defined(g) && CanRead(g, w, r) && r == |g.events| - 1
    && g.events[r].source.None? && g.events[r].readValue == 0 && g.events[r].location in g.lastSc
    && (forall x :: x in g.lastSc ==> g.lastSc[x] < r)
    && (forall o :: 0 <= o < r && g.events[o].IsReadOrRmw() ==> g.events[o].source.Some?)
  }

  /** Head, seq_cst part and rules make up the whole attempt. */
  lemma ReadWhole(g: Graph, w: nat, r: nat, g1: Graph)
    requires Defined(g) && CanRead(g, w, r) && InRange(|g.outs|, ReadHead(g, w, r) + ReadSc(g, w, r))
    requires g1 == Built(g, ReadEvents(g, w, r), LastScAfter(g.lastSc, Resolved(g, w, r), r),
                         ReadHead(g, w, r) + ReadSc(g, w, r))
    ensures Defined(g1)
    ensures InRange(|g.outs|, RulesFor(g1.events, g1.perThread, w, r, g1.events[r].IsModifyRmw()))
    ensures AddAll(g1, RulesFor(g1.events, g1.perThread, w, r, g1.events[r].IsModifyRmw())) == ReadDone(g, w, r)
  {
    var es := ReadHead(g, w, r) + ReadSc(g, w, r);
    BuiltDefined(g, ReadEvents(g, w, r), LastScAfter(g.lastSc, Resolved(g, w, r), r), es);
    ReadInRange(g, w, r);
    BuiltMore(g, ReadEvents(g, w, r), LastScAfter(g.lastSc, Resolved(g, w, r), r), es, ReadTail(g, w, r));
  }

  /** The events are such that a rule for `subject` can be applied: every other read has its source. */
  ghost predicate Ruled(threads: nat, events: seq<Event>, perThread: seq<seq<nat>>, subject: nat) {
    && |perThread| == threads && ThreadsInRange(|events|, perThread) && subject < |events|
    && forall o {:trigger events[o]} :: 0 <= o < |events| ==>
      && |events[o].clock| == threads && (events[o].source.Some? ==> events[o].source.value < |events|)
      && (o != subject && events[o].IsReadOrRmw() ==> events[o].source.Some?)
  }

  lemma ReadRuled(g: Graph, w: nat, r: nat, g1: Graph)
    requires Attemptable(g, w, r) && Defined(g1) && g1.events == ReadEvents(g, w, r) && g1.perThread == g.perThread
    ensures Ruled(g1.threads, g1.events, g1.perThread, r)
  {
  }

  lemma DonePrefix(g: Graph, w: nat, r: nat)
    requires Defined(g) && CanRead(g, w, r)
    ensures var g' := ReadDone(g, w, r);
            && |g.edges| <= |g'.edges| && g'.edges[..|g.edges|] == g.edges && g'.events == ReadEvents(g, w, r)
            && g'.lastSc == LastScAfter(g.lastSc, Resolved(g, w, r), r) && g'.threads == g.threads
               && g'.perThread == g.perThread
  {
    ReadInRange(g, w, r);
    AddAllPrefix(g.(events := ReadEvents(g, w, r), lastSc := LastScAfter(g.lastSc, Resolved(g, w, r), r)),
                 ReadEdges(g, w, r));
  }

  // ---- Rejected attempts ------------------------------------------------------------------------------------

  /** The clock survives a rejected attempt only if it was joined with that of the last seq_cst write and the
      attempt did not synchronize. */
  ghost predicate LeavesJoin(g: Graph, w: nat, r: nat)
    requires CanRead(g, w, r)
  {
    var e := g.events[r].ReadFrom(w, g.events[w].Written());
    e.IsSeqCst() && !Synchronizes(g.events[w], e)
  }

  ghost function RejectedAt(g: Graph, w: nat, r: nat): Graph
    requires Defined(g) && CanRead(g, w, r)
  {
    var e := g.events[r];
    if LeavesJoin(g, w, r) then g.(events := g.events[r := e.(clock := JoinLastSc(g, e.location, e.clock))]) else g
  }

  /** The clock that an attempt saves: that of an event about to synchronize. */
  ghost function SavedClock(g: Graph, w: nat, r: nat): Option<seq<nat>>
    requires Defined(g) && CanRead(g, w, r)
  {
    if Synchronizes(g.events[w], Resolved(g, w, r)) then Some(g.events[r].clock) else None
  }

  /** Dropping the source, and the clock if it was saved, gives the event a rejected attempt leaves. */
  lemma UndoneEvent(g: Graph, w: nat, r: nat, oldClock: Option<seq<nat>>)
    requires Attemptable(g, w, r)
    requires oldClock == SavedClock(g, w, r)
    ensures var e := Resolved(g, w, r);
            var undone := e.(source := None, readValue := 0, clock := if oldClock.Some? then oldClock.value
                             else e.clock);
            RejectedAt(g, w, r) == g.(events := g.events[r := undone])
  {
    assert g.events[r := g.events[r]] == g.events;
  }

  lemma JoinTwice(a: seq<nat>, b: seq<nat>)
    requires |a| == |b|
    ensures Join(Join(a, b), b) == Join(a, b)
  {
  }

  lemma JoinSwap(a: seq<nat>, b: seq<nat>, c: seq<nat>)
    requires |a| == |b| == |c|
    ensures Join(Join(Join(a, c), b), c) == Join(Join(a, b), c)
  {
  }

  /** A rejected attempt leaves the operation as it was started, or started with the join. */
  lemma RejectedStarted(g: Graph, kind: Kind, location: int, thread: nat, order: Order, joined: bool, w: nat)
    requires Appendable(g, thread) && !kind.Dummy?
    requires Readable(g, Started(g, kind, location, thread, order, joined), w)
    ensures Begun(g, Started(g, kind, location, thread, order, joined))
    ensures var g1 := Started(g, kind, location, thread, order, joined);
            RejectedAt(g1, w, |g.events|) == Started(g, kind, location, thread, order, joined
                                                     || LeavesJoin(g1, w, |g.events|))
  {
    StartedBegun(g, kind, location, thread, order, joined);
    var id, g0 := |g.events|, Append(g, kind, location, thread, order);
    var g1 := Started(g, kind, location, thread, order, joined);
    if location in g.lastSc {
      BegunOld(g, g1, g.lastSc[location]);
      JoinTwice(g0.events[id].clock, g.events[g.lastSc[location]].clock);
    }
    assert g1.events[id := g1.events[id]] == g1.events;
    assert RejectedAt(g1, w, id).events == Started(g, kind, location, thread, order, joined
                                                   || LeavesJoin(g1, w, id)).events;
  }

  /** For an operation that ends seq_cst, an earlier rejected attempt makes no difference. */
  lemma JoinedAnyway(g: Graph, kind: Kind, location: int, thread: nat, order: Order, w: nat)
    requires Appendable(g, thread) && !kind.Dummy?
    requires Readable(g, Started(g, kind, location, thread, order, true), w)
    requires Resolved(Started(g, kind, location, thread, order, true), w, |g.events|).IsSeqCst()
    ensures Readable(g, Started(g, kind, location, thread, order, false), w)
    ensures ReadDone(Started(g, kind, location, thread, order, true), w, |g.events|)
         == ReadDone(Started(g, kind, location, thread, order, false), w, |g.events|)
  {
    StartedBegun(g, kind, location, thread, order, true);
    StartedBegun(g, kind, location, thread, order, false);
    var id := |g.events|;
    var g1, g0 := Started(g, kind, location, thread, order, true), Started(g, kind, location, thread, order, false);
    BegunOld(g, g1, w);
    BegunOld(g, g0, w);
    if location in g.lastSc {
      var last := g.lastSc[location];
      BegunOld(g, g1, last);
      BegunOld(g, g0, last);
      JoinTwice(g0.events[id].clock, g.events[last].clock);
      JoinSwap(g0.events[id].clock, g.events[w].clock, g.events[last].clock);
      assert Resolved(g1, w, id) == Resolved(g0, w, id);
      assert ReadEvents(g1, w, id) == ReadEvents(g0, w, id);
      SameRead(g1, g0, w, id);
    }
  }

  lemma SameRead(g: Graph, g': Graph, w: nat, r: nat)
    requires Defined(g) && Defined(g') && CanRead(g, w, r) && CanRead(g', w, r)
    requires g' == g.(events := g'.events) && Resolved(g, w, r) == Resolved(g', w, r)
      && ReadEvents(g, w, r) == ReadEvents(g', w, r)
    requires g.events[r].location == g'.events[r].location
    ensures ReadDone(g, w, r) == ReadDone(g', w, r)
  {
    assert ReadHead(g, w, r) == ReadHead(g', w, r);
    assert ReadSc(g, w, r) == ReadSc(g', w, r);
    assert ReadTail(g, w, r) == ReadTail(g', w, r);
    assert ReadEdges(g, w, r) == ReadEdges(g', w, r);
    ReadInRange(g, w, r);
    ReadInRange(g', w, r);
  }

  // ---- Discarding a snapshot -----------------------------------------------------------------------------------

  /** The outgoing edges of a prefix are a prefix of the outgoing edges; the rest are newer. */
  lemma {:induction false} OutgoingPrefix(edges: seq<Edge>, n: nat, a: nat)
    requires n <= |edges|
    ensures var all, kept := Outgoing(edges, a), Outgoing(edges[..n], a);
            |kept| <= |all| && all[..|kept|] == kept
            && (forall k :: 0 <= k < |kept| ==> kept[k] < n) && forall k :: |kept| <= k < |all| ==>
               n <= all[k] < |edges|
  {
    OutgoingInRange(edges[..n], a);
    if n == |edges| {
      assert edges[..n] == edges;
    } else {
      var last := |edges| - 1;
      assert edges[..last][..n] == edges[..n];
      OutgoingPrefix(edges[..last], n, a);
    }
  }

  // ---- Whole operations -----------------------------------------------------------------------------------------

  /** What an operation started on a graph that keeps the invariant may try. */
  lemma StartedAttemptable(g: Graph, kind: Kind, location: int, thread: nat, order: Order, joined: bool, w: nat)
    requires Invariant(g) && Appendable(g, thread) && Candidate(g, kind, location, w)
    ensures var g1 := Started(g, kind, location, thread, order, joined);
            Readable(g, g1, w) && Attemptable(g1, w, |g.events|)
  {
    var g1 := Started(g, kind, location, thread, order, joined);
    StartedBegun(g, kind, location, thread, order, joined);
    BegunOld(g, g1, w);
    OthersSourced(g, g1);
  }

  lemma OthersSourced(g: Graph, g1: Graph)
    requires Sourced(g) && Begun(g, g1)
    ensures forall o :: 0 <= o < |g.events| && g1.events[o].IsReadOrRmw() ==> g1.events[o].source.Some?
  {
    forall o | 0 <= o < |g.events| && g1.events[o].IsReadOrRmw() ensures g1.events[o].source.Some? {
      BegunOld(g, g1, o);
      assert HasSource(g, o);
    }
  }

  /** `g'` is `g` after an operation that reads from `w`. */
  ghost predicate ReadOf(g: Graph, g': Graph, kind: Kind, location: int, thread: nat, order: Order, joined: bool,
                         w: nat)
    requires Appendable(g, thread)
  {
    var g1 := Started(g, kind, location, thread, order, joined);
    Readable(g, g1, w) && g' == ReadDone(g1, w, |g.events|)
  }

  /** An attempt on `w`, the first to do so, was rejected and left the clock joined. */
  ghost predicate MarkedBy(g: Graph, kind: Kind, location: int, thread: nat, order: Order, w: nat)
    requires Appendable(g, thread)
  {
    var g1 := Started(g, kind, location, thread, order, false);
    Readable(g, g1, w) && LeavesJoin(g1, w, |g.events|) && !CycleCheck.Passes(ReadDone(g1, w, |g.events|))
  }

  ghost predicate Marked(g: Graph, kind: Kind, location: int, thread: nat, order: Order)
    requires Appendable(g, thread)
  {
    exists w: nat :: MarkedBy(g, kind, location, thread, order, w)
  }

  /** The check rejects an attempt on `w`, as the first one or after one that left its mark. */
  ghost predicate RejectedOn(g: Graph, kind: Kind, location: int, thread: nat, order: Order, joined: bool, w: nat)
    requires Appendable(g, thread)
  {
    var g1 := Started(g, kind, location, thread, order, joined);
    && (joined ==> Marked(g, kind, location, thread, order))
    && Readable(g, g1, w) && !CycleCheck.Passes(ReadDone(g1, w, |g.events|))
  }

  ghost predicate Unreadable(g: Graph, kind: Kind, location: int, thread: nat, order: Order, w: nat)
    requires Appendable(g, thread)
  {
    exists joined :: RejectedOn(g, kind, location, thread, order, joined, w)
  }

  /** Only operations with a seq_cst outcome are marked. */
  lemma MarkedMayMark(g: Graph, kind: Kind, location: int, thread: nat, order: Order)
    requires Appendable(g, thread) && Marked(g, kind, location, thread, order)
    ensures MayMark(kind, order)
  {
    var w: nat :| MarkedBy(g, kind, location, thread, order, w);
    assert LeavesJoin(Started(g, kind, location, thread, order, false), w, |g.events|);
  }

  /** `g'` is `g` after an operation whose attempt on `w` passed. Only a compare-exchange that an earlier attempt
      marked is not as if this attempt were its first. */
  ghost predicate ReadStep(g: Graph, g': Graph, kind: Kind, location: int, thread: nat, order: Order, w: nat)
    requires Appendable(g, thread)
  {
    && CycleCheck.Passes(g')
    && exists joined :: (joined ==> kind.Cas? && Marked(g, kind, location, thread, order))
                        && ReadOf(g, g', kind, location, thread, order, joined, w)
  }

  /** An accepted attempt completes the operation. If it ends seq_cst, earlier attempts make no difference. */
  lemma Accepted(g: Graph, kind: Kind, location: int, thread: nat, order: Order, joined: bool, w: nat)
    requires Invariant(g) && Appendable(g, thread) && (kind.Read? || kind.Cas? || kind.Rmw?)
    requires joined ==> MayMark(kind, order)
    requires Readable(g, Started(g, kind, location, thread, order, joined), w)
    requires Acyclic(ModOrder(ReadDone(Started(g, kind, location, thread, order, joined), w, |g.events|)))
    ensures var g1 := Started(g, kind, location, thread, order, joined);
            var g0 := Started(g, kind, location, thread, order, joined && !Resolved(g1, w, |g.events|).IsSeqCst());
            && Invariant(ReadDone(g1, w, |g.events|))
            && Readable(g, g0, w) && ReadDone(g1, w, |g.events|) == ReadDone(g0, w, |g.events|)
  {
    var g1 := Started(g, kind, location, thread, order, joined);
    if joined && !Resolved(g1, w, |g.events|).IsSeqCst() {
      ReadKeeps(g, g1, w);
    } else {
      if joined { JoinedAnyway(g, kind, location, thread, order, w); }
      StartedFresh(g, kind, location, thread, order);
      ReadKeeps(g, Started(g, kind, location, thread, order, false), w);
    }
  }

  lemma StepJoined(g: Graph, g': Graph, kind: Kind, location: int, thread: nat, order: Order, w: nat)
    returns (joined: bool)
    requires Appendable(g, thread) && ReadStep(g, g', kind, location, thread, order, w)
    ensures joined ==> kind.Cas? && Marked(g, kind, location, thread, order)
    ensures ReadOf(g, g', kind, location, thread, order, joined, w)
  {
    joined :| (joined ==> kind.Cas? && Marked(g, kind, location, thread, order))
              && ReadOf(g, g', kind, location, thread, order, joined, w);
  }

  /** There is one more event, of this kind, which holds its source `w` and the value written there. */
  ghost predicate Resulted(before: seq<Event>, after: seq<Event>, kind: Kind, w: nat) {
    var id := |before|;
    && |after| == id + 1 && w < id && after[w] == before[w]
    && after[id].kind == kind && after[id].source == Some(w) && after[id].readValue == before[w].Written()
  }

  lemma ReadResult(g: Graph, g': Graph, kind: Kind, location: int, thread: nat, order: Order, w: nat)
    requires Appendable(g, thread) && !kind.Dummy? && ReadStep(g, g', kind, location, thread, order, w)
    ensures Resulted(g.events, g'.events, kind, w)
  {
    var joined := StepJoined(g, g', kind, location, thread, order, w);
    ReadOfResult(g, g', kind, location, thread, order, joined, w);
  }

  lemma ReadOfResult(g: Graph, g': Graph, kind: Kind, location: int, thread: nat, order: Order, joined: bool, w: nat)
    requires Appendable(g, thread) && !kind.Dummy? && ReadOf(g, g', kind, location, thread, order, joined, w)
    ensures Resulted(g.events, g'.events, kind, w)
  {
    var g1 := Started(g, kind, location, thread, order, joined);
    BegunOld(g, g1, w);
    DonePrefix(g1, w, |g.events|);
  }

  lemma StepAccepted(g: Graph, g': Graph, kind: Kind, location: int, thread: nat, order: Order, w: nat)
    requires Invariant(g) && Appendable(g, thread) && (kind.Read? || kind.Cas? || kind.Rmw?)
    requires ReadStep(g, g', kind, location, thread, order, w)
    ensures Invariant(g')
  {
    var joined := StepJoined(g, g', kind, location, thread, order, w);
    if joined { MarkedMayMark(g, kind, location, thread, order); }
    CycleCheck.ConsistentAcyclic(g'.edges, g'.outs);
    Accepted(g, kind, location, thread, order, joined, w);
  }

  /** A write that an operation of this kind may try. */
  ghost predicate Candidate(g: Graph, kind: Kind, location: int, w: nat) {
    && (kind.Read? || kind.Cas? || kind.Rmw?) && location in g.lastSc
    && w < |g.events| && g.events[w].Writes() && g.events[w].location == location
  }

  /** An accepted attempt is a step. */
  lemma AttemptPasses(g: Graph, kind: Kind, location: int, thread: nat, order: Order, joined: bool, w: nat, g': Graph)
    requires Invariant(g) && Appendable(g, thread) && Candidate(g, kind, location, w) && CycleCheck.Passes(g')
    requires joined ==> Marked(g, kind, location, thread, order)
    requires ReadOf(g, g', kind, location, thread, order, joined, w)
    ensures ReadStep(g, g', kind, location, thread, order, w)
  {
    var g1 := Started(g, kind, location, thread, order, joined);
    if joined { MarkedMayMark(g, kind, location, thread, order); }
    CycleCheck.ConsistentAcyclic(g'.edges, g'.outs);
    Accepted(g, kind, location, thread, order, joined, w);
    assert ReadOf(g, g', kind, location, thread, order, joined && !Resolved(g1, w, |g.events|).IsSeqCst(), w);
  }

  /** A rejected attempt leaves the operation as it was started, perhaps marked. */
  lemma AttemptFails(g: Graph, kind: Kind, location: int, thread: nat, order: Order, joined: bool, w: nat)
    returns (joined': bool)
    requires Appendable(g, thread) && Candidate(g, kind, location, w)
    requires joined ==> Marked(g, kind, location, thread, order)
    requires Readable(g, Started(g, kind, location, thread, order, joined), w)
    requires !CycleCheck.Passes(ReadDone(Started(g, kind, location, thread, order, joined), w, |g.events|))
    ensures joined' ==> Marked(g, kind, location, thread, order)
    ensures RejectedAt(Started(g, kind, location, thread, order, joined), w, |g.events|)
         == Started(g, kind, location, thread, order, joined')
  {
    var g1 := Started(g, kind, location, thread, order, joined);
    RejectedStarted(g, kind, location, thread, order, joined, w);
    joined' := joined || LeavesJoin(g1, w, |g.events|);
    assert joined' && !joined ==> MarkedBy(g, kind, location, thread, order, w);
  }

  /** The seq_cst part and the rules of a store, in the order in which they are carried out. */
  lemma StoreWhole(g: Graph, id: nat, g1: Graph)
    requires Defined(g) && id < |g.events| && (forall x :: x in g.lastSc ==> g.lastSc[x] != id)
    requires g1 == StoreSc(g, id)
    ensures Defined(g1) && InRange(|g.outs|, RuleEdges(g1.events, g1.perThread, ReadWrite(id)))
    ensures InRange(|g.outs|, RuleEdges(g1.events, g1.perThread, WriteWrite(id)))
    ensures AddAll(AddAll(g1, RuleEdges(g1.events, g1.perThread, ReadWrite(id))),
                   RuleEdges(g1.events, g1.perThread, WriteWrite(id)))
         == Stored(g, id)
  {
    var e := g.events[id];
    var lastSc := if e.order == SeqCst then g.lastSc[e.location := id] else g.lastSc;
    var sc := if e.order == SeqCst then ScEdge(g, id) + ScMoEdge(g, e.location, id) else [];
    assert g1 == Built(g, StoreEvents(g, id), lastSc, sc) by { if e.order == SeqCst { StoreScBuilt(g, id); } }
    BuiltDefined(g, StoreEvents(g, id), lastSc, sc);
    var rw, ww := RuleEdges(g1.events, g1.perThread, ReadWrite(id)), RuleEdges(g1.events, g1.perThread, WriteWrite(id));
    RuleInRange(g1.events, g1.perThread, ReadWrite(id));
    RuleInRange(g1.events, g1.perThread, WriteWrite(id));
    BuiltTwice(g, StoreEvents(g, id), lastSc, sc, rw, ww, lastSc);
  }

  ghost function StoreSc(g: Graph, id: nat): Graph
    requires Defined(g) && id < |g.events|
  {
    var e := g.events[id];
    if e.order != SeqCst then g
    else AddAll(ScJoined(g, id), ScMoEdge(g, e.location, id)).(lastSc := g.lastSc[e.location := id])
  }

  lemma StoreScBuilt(g: Graph, id: nat)
    requires Defined(g) && id < |g.events| && g.events[id].order == SeqCst
    ensures var e := g.events[id];
            var sc := ScEdge(g, id) + ScMoEdge(g, e.location, id);
            InRange(|g.outs|, sc) && StoreSc(g, id) == Built(g, StoreEvents(g, id), g.lastSc[e.location := id], sc)
  {
    var e := g.events[id];
    BuiltMore(g, StoreEvents(g, id), g.lastSc, ScEdge(g, id), ScMoEdge(g, e.location, id));
    BuiltFrame(g, StoreEvents(g, id), g.lastSc, ScEdge(g, id) + ScMoEdge(g, e.location, id), StoreEvents(g, id),
               g.lastSc[e.location := id]);
  }

  lemma StartedFresh(g: Graph, kind: Kind, location: int, thread: nat, order: Order)
    requires Appendable(g, thread) && !kind.Dummy?
    ensures var g1 := Started(g, kind, location, thread, order, false); Begun(g, g1) && Fresh(g, g1)
  {
    StartedBegun(g, kind, location, thread, order, false);
  }

  /** The graph of `n` threads that have done nothing. */
  ghost function Initial(n: nat): Graph {
    Graph(n, seq(n, (t: nat) => Event(Dummy, -1, t, Relaxed, seq(n, _ => 0), None, 0)), [], seq(n, _ => []),
          seq(n, (t: nat) => [t]), map[])
  }

  lemma InitialInvariant(n: nat)
    ensures Invariant(Initial(n))
  {
    var g := Initial(n);
    forall t, p | 0 <= t < n && 0 <= p < |g.perThread[t]| ensures Placed(g, t, p) {
    }
    forall e | 0 <= e < n ensures Listed(g, e) {
    }
    forall e: nat | e < n ensures Knows(g, e) {
    }
    RankedAcyclic(ModOrder(g), (v: nat) => 0);
  }
}

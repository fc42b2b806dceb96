/** The weak-memory execution graph as a value: events, edges, and what each operation adds. */
module MemoryGraph {
  import opened Options
  import opened VectorClock

  datatype Order = Relaxed | Acquire | Release | AcqRel | SeqCst

  /** An unconditional read-modify-write writes `update` of what it reads. */
  datatype Kind =
    | Dummy
    | Read
    | Write(value: int)
    | Cas(expected: int, desired: int, failure: Order)
    | Rmw(update: int -> int)

  /** `source` is the event read from, once chosen, and `readValue` the value read there. */
  datatype Event = Event(kind: Kind, location: int, thread: nat, order: Order, clock: seq<nat>,
                         source: Option<nat>, readValue: int)
  {
    predicate IsRmw() { kind.Cas? || kind.Rmw? }

    predicate IsReadOrRmw() { kind.Read? || IsRmw() }

    /** A read-modify-write that has read and will modify. A failed compare-exchange only reads. */
    predicate IsModifyRmw() { IsRmw() && source.Some? && (kind.Cas? ==> readValue == kind.expected) }

    predicate Writes() { kind.Write? || IsModifyRmw() }

    function Written(): int {
      match kind
      case Write(value) => value
      case Rmw(update) => update(readValue)
      case Cas(expected, desired, _) => if readValue == expected then desired else readValue
      case _ => 0
    }

    /** What the caller of a compare-exchange finds in its expected value afterwards. */
    function ExpectedAfter(): int
      requires kind.Cas?
    {
      if source.Some? && readValue != kind.expected then readValue else kind.expected
    }

    function EffectiveOrder(): Order { if kind.Cas? && !IsModifyRmw() then kind.failure else order }

    predicate IsSeqCst() { EffectiveOrder() == SeqCst }

    predicate IsAtLeastAcquire() { EffectiveOrder() != Relaxed && EffectiveOrder() != Release }

    predicate IsAtLeastRelease() { EffectiveOrder() != Relaxed && EffectiveOrder() != Acquire }

    function ReadFrom(source: nat, value: int): Event { this.(source := Some(source), readValue := value) }
  }

  datatype EdgeKind = Po | Sc | Rf | Mo

  datatype Edge = Edge(kind: EdgeKind, from: nat, to: nat)

  /** `outs[a]` lists the outgoing edges of event `a`; `lastSc` is the last seq_cst write of a location. */
  datatype Graph = Graph(threads: nat, events: seq<Event>, edges: seq<Edge>, outs: seq<seq<nat>>,
                         perThread: seq<seq<nat>>, lastSc: map<int, nat>)

  ghost predicate Hb(events: seq<Event>, a: nat, b: nat)
    requires a < |events| && b < |events|
  {
    Leq(events[a].clock, events[b].clock)
  }

  // ---- Edges -----------------------------------------------------------------------------------

  ghost function Outgoing(edges: seq<Edge>, a: nat): seq<nat> {
    if edges == [] then []
    else
      var last := |edges| - 1;
      Outgoing(edges[..last], a) + if edges[last].from == a then [last] else []
  }

  ghost predicate OutsOk(g: Graph) {
    |g.outs| == |g.events| && forall a: nat :: a < |g.outs| ==> g.outs[a] == Outgoing(g.edges, a)
  }

  lemma {:induction false} OutgoingExact(edges: seq<Edge>, a: nat, id: nat)
    ensures id in Outgoing(edges, a) <==> id < |edges| && edges[id].from == a
  {
    if edges != [] {
      var last := |edges| - 1;
      OutgoingExact(edges[..last], a, id);
    }
  }

  /** A modification-order edge is added once. */
  ghost function AddEdge(g: Graph, e: Edge): Graph
    requires e.from < |g.outs|
  {
    if e.kind.Mo? && e in g.edges then g
    else g.(edges := g.edges + [e], outs := g.outs[e.from := g.outs[e.from] + [|g.edges|]])
  }

  ghost predicate InRange(n: nat, es: seq<Edge>) {
    forall e :: e in es ==> e.from < n && e.to < n
  }

  ghost function AddAll(g: Graph, es: seq<Edge>): (g': Graph)
    requires InRange(|g.outs|, es)
    ensures |g'.outs| == |g.outs| && g' == g.(edges := g'.edges, outs := g'.outs)
  {
    if es == [] then g else AddEdge(AddAll(g, es[..|es| - 1]), es[|es| - 1])
  }

  lemma {:induction false} AddAllMembers(g: Graph, es: seq<Edge>)
    requires InRange(|g.outs|, es)
    ensures forall e :: e in AddAll(g, es).edges <==> e in g.edges || e in es
  {
    if es != [] {
      AddAllMembers(g, es[..|es| - 1]);
      assert es == es[..|es| - 1] + [es[|es| - 1]];
    }
  }

  lemma {:induction false} AddAllPrefix(g: Graph, es: seq<Edge>)
    requires InRange(|g.outs|, es)
    ensures |g.edges| <= |AddAll(g, es).edges| && AddAll(g, es).edges[..|g.edges|] == g.edges
  {
    if es != [] { AddAllPrefix(g, es[..|es| - 1]); }
  }

  lemma AddEdgeOuts(g: Graph, e: Edge)
    requires OutsOk(g) && e.from < |g.outs|
    ensures OutsOk(AddEdge(g, e))
  {
    var g' := AddEdge(g, e);
    if g' != g {
      assert g'.edges[..|g.edges|] == g.edges;
    }
  }

  lemma {:induction false} AddAllOuts(g: Graph, es: seq<Edge>)
    requires OutsOk(g) && InRange(|g.outs|, es)
    ensures OutsOk(AddAll(g, es))
  {
    if es != [] {
      AddAllOuts(g, es[..|es| - 1]);
      AddEdgeOuts(AddAll(g, es[..|es| - 1]), es[|es| - 1]);
    }
  }

  lemma {:induction false} AddAllConcat(g: Graph, a: seq<Edge>, b: seq<Edge>)
    requires InRange(|g.outs|, a) && InRange(|g.outs|, b)
    ensures InRange(|g.outs|, a + b) && AddAll(AddAll(g, a), b) == AddAll(g, a + b)
  {
    if b == [] {
      assert a + b == a;
    } else {
      assert (a + b)[..|a + b| - 1] == a + b[..|b| - 1];
      AddAllConcat(g, a, b[..|b| - 1]);
    }
  }

  /** Adding edges does not look at the events or at the last seq_cst writes. */
  lemma {:induction false} AddAllFrame(g: Graph, es: seq<Edge>, events: seq<Event>, lastSc: map<int, nat>)
    requires InRange(|g.outs|, es)
    ensures AddAll(g, es).(events := events, lastSc := lastSc) == AddAll(g.(events := events, lastSc := lastSc), es)
  {
    if es != [] {
      AddAllFrame(g, es[..|es| - 1], events, lastSc);
    }
  }

  ghost function MoPairs(edges: seq<Edge>): set<(nat, nat)> {
    set e | e in edges && e.kind.Mo? :: (e.from, e.to)
  }

  // ---- Coherence rules ---------------------------------------------------------------------------

  /** The four rules. Each looks for events that happen before the new event. */
  datatype Rule =
    | WriteRead(write: nat, read: nat)
    | ReadRead(write: nat, read: nat)
    | ReadWrite(event: nat)
    | WriteWrite(event: nat)

  function Subject(rule: Rule): nat {
    match rule
    case WriteRead(_, read) => read
    case ReadRead(_, read) => read
    case ReadWrite(event) => event
    case WriteWrite(event) => event
  }

  ghost predicate Matches(events: seq<Event>, rule: Rule, o: nat)
    requires o < |events| && Subject(rule) < |events|
  {
    && o != Subject(rule) && events[o].location == events[Subject(rule)].location && Hb(events, o, Subject(rule))
    && match rule
       case WriteRead(write, _) => o != write && events[o].Writes()
       case ReadRead(write, _) => o != write && events[o].IsReadOrRmw() && events[o].source.Some?
         && events[o].source != Some(write)
       case ReadWrite(_) => events[o].IsReadOrRmw()
       case WriteWrite(_) => events[o].Writes()
  }

  /** The modification-order edge a match gives rise to. */
  function RuleEdge(events: seq<Event>, rule: Rule, o: nat): Edge
    requires o < |events|
  {
    var source := if events[o].source.Some? then events[o].source.value else 0;
    match rule
    case WriteRead(write, _) => Edge(Mo, o, write)
    case ReadRead(write, _) => Edge(Mo, source, write)
    case ReadWrite(event) => Edge(Mo, source, event)
    case WriteWrite(event) => Edge(Mo, o, event)
  }

  /** The most recent event of a thread that matches. */
  ghost function MostRecent(events: seq<Event>, ids: seq<nat>, rule: Rule): Option<nat>
    requires Subject(rule) < |events| && IdsInRange(|events|, ids)
  {
    if ids == [] then None
    else if Matches(events, rule, ids[|ids| - 1]) then Some(ids[|ids| - 1])
    else MostRecent(events, ids[..|ids| - 1], rule)
  }

  ghost predicate IdsInRange(n: nat, ids: seq<nat>) {
    forall k :: 0 <= k < |ids| ==> ids[k] < n
  }

  lemma {:induction false} MostRecentMatches(events: seq<Event>, ids: seq<nat>, rule: Rule)
    requires Subject(rule) < |events| && IdsInRange(|events|, ids) && MostRecent(events, ids, rule).Some?
    ensures MostRecent(events, ids, rule).value < |events| && Matches(events, rule, MostRecent(events, ids, rule).value)
  {
    if !Matches(events, rule, ids[|ids| - 1]) { MostRecentMatches(events, ids[..|ids| - 1], rule); }
  }

  /** A match is the most recent one, or an earlier event of the thread. */
  lemma {:induction false} MostRecentLater(events: seq<Event>, ids: seq<nat>, rule: Rule, k: nat) returns (m: nat)
    requires Subject(rule) < |events| && IdsInRange(|events|, ids) && k < |ids| && Matches(events, rule, ids[k])
    ensures k <= m < |ids| && MostRecent(events, ids, rule) == Some(ids[m])
  {
    if Matches(events, rule, ids[|ids| - 1]) {
      m := |ids| - 1;
    } else {
      m := MostRecentLater(events, ids[..|ids| - 1], rule, k);
    }
  }

  ghost predicate ThreadsInRange(n: nat, perThread: seq<seq<nat>>) {
    forall t :: 0 <= t < |perThread| ==> IdsInRange(n, perThread[t])
  }

  ghost function RuleEdgesOf(events: seq<Event>, ids: seq<nat>, rule: Rule): seq<Edge>
    requires Subject(rule) < |events| && IdsInRange(|events|, ids)
  {
    var o := MostRecent(events, ids, rule);
    if o.Some? then MostRecentMatches(events, ids, rule); [RuleEdge(events, rule, o.value)] else []
  }

  /** One edge a thread, for its most recent matching event. */
  ghost function RuleEdges(events: seq<Event>, perThread: seq<seq<nat>>, rule: Rule): seq<Edge>
    requires Subject(rule) < |events| && ThreadsInRange(|events|, perThread)
  {
    if perThread == [] then []
    else
      var last := |perThread| - 1;
      RuleEdges(events, perThread[..last], rule) + RuleEdgesOf(events, perThread[last], rule)
  }

  lemma {:induction false} RuleEdgesHas(events: seq<Event>, perThread: seq<seq<nat>>, rule: Rule, t: nat)
    requires Subject(rule) < |events| && ThreadsInRange(|events|, perThread)
    requires t < |perThread| && MostRecent(events, perThread[t], rule).Some?
    ensures var o := MostRecent(events, perThread[t], rule).value;
            o < |events| && RuleEdge(events, rule, o) in RuleEdges(events, perThread, rule)
  {
    MostRecentMatches(events, perThread[t], rule);
    var last := |perThread| - 1;
    if t < last { RuleEdgesHas(events, perThread[..last], rule, t); }
  }

  lemma {:induction false} RuleEdgesOnly(events: seq<Event>, perThread: seq<seq<nat>>, rule: Rule, e: Edge)
    returns (o: nat)
    requires Subject(rule) < |events| && ThreadsInRange(|events|, perThread)
    requires e in RuleEdges(events, perThread, rule)
    ensures o < |events| && Matches(events, rule, o) && e == RuleEdge(events, rule, o)
  {
    var last := |perThread| - 1;
    if e in RuleEdges(events, perThread[..last], rule) {
      o := RuleEdgesOnly(events, perThread[..last], rule, e);
    } else {
      MostRecentMatches(events, perThread[last], rule);
      o := MostRecent(events, perThread[last], rule).value;
    }
  }

  lemma RuleInRange(events: seq<Event>, perThread: seq<seq<nat>>, rule: Rule)
    requires Subject(rule) < |events| && ThreadsInRange(|events|, perThread)
    requires rule.WriteRead? || rule.ReadRead? ==> rule.write < |events|
    requires forall e :: 0 <= e < |events| && events[e].source.Some? ==> events[e].source.value < |events|
    ensures InRange(|events|, RuleEdges(events, perThread, rule))
  {
    forall e | e in RuleEdges(events, perThread, rule) ensures e.from < |events| && e.to < |events| {
      var o := RuleEdgesOnly(events, perThread, rule, e);
    }
  }

  /** The rules for reading `write`, and the rules for writing. */
  ghost function ReadRules(events: seq<Event>, perThread: seq<seq<nat>>, write: nat, read: nat): seq<Edge>
    requires read < |events| && ThreadsInRange(|events|, perThread)
  {
    RuleEdges(events, perThread, WriteRead(write, read)) + RuleEdges(events, perThread, ReadRead(write, read))
  }

  ghost function WriteRules(events: seq<Event>, perThread: seq<seq<nat>>, id: nat): seq<Edge>
    requires id < |events| && ThreadsInRange(|events|, perThread)
  {
    RuleEdges(events, perThread, ReadWrite(id)) + RuleEdges(events, perThread, WriteWrite(id))
  }

  lemma RulesInRange(events: seq<Event>, perThread: seq<seq<nat>>, write: nat, id: nat)
    requires write < |events| && id < |events| && ThreadsInRange(|events|, perThread)
    requires forall e :: 0 <= e < |events| && events[e].source.Some? ==> events[e].source.value < |events|
    ensures InRange(|events|, ReadRules(events, perThread, write, id))
    ensures InRange(|events|, WriteRules(events, perThread, id))
  {
    RuleInRange(events, perThread, WriteRead(write, id));
    RuleInRange(events, perThread, ReadRead(write, id));
    RuleInRange(events, perThread, ReadWrite(id));
    RuleInRange(events, perThread, WriteWrite(id));
  }

  // ---- Operations ------------------------------------------------------------------------------------

  /** Appends an event to its thread, with a program-order edge and the incremented clock. */
  ghost predicate CanAppend(g: Graph, thread: nat) {
    && thread < |g.perThread| && g.perThread[thread] != []
    && |g.outs| == |g.events|
    && Last(g, thread) < |g.events| && thread < |g.events[Last(g, thread)].clock|
  }

  function Last(g: Graph, thread: nat): nat
    requires thread < |g.perThread| && g.perThread[thread] != []
  {
    g.perThread[thread][|g.perThread[thread]| - 1]
  }

  ghost function Append(g: Graph, kind: Kind, location: int, thread: nat, order: Order): Graph
    requires CanAppend(g, thread)
  {
    var clock := Increment(g.events[Last(g, thread)].clock, thread);
    var id := |g.events|;
    AddEdge(g.(events := g.events + [Event(kind, location, thread, order, clock, None, 0)], outs := g.outs + [[]],
               perThread := g.perThread[thread := g.perThread[thread] + [id]]),
            Edge(Po, Last(g, thread), id))
  }

  ghost function JoinLastSc(g: Graph, location: int, clock: seq<nat>): seq<nat>
    requires location in g.lastSc ==> g.lastSc[location] < |g.events| && |g.events[g.lastSc[location]].clock| == |clock|
  {
    if location in g.lastSc then Join(clock, g.events[g.lastSc[location]].clock) else clock
  }

  ghost predicate LastScOk(g: Graph) {
    forall x :: x in g.lastSc ==> g.lastSc[x] < |g.events|
  }

  ghost predicate ClocksOk(g: Graph) {
    forall e :: 0 <= e < |g.events| ==> |g.events[e].clock| == g.threads
  }

  ghost predicate SourcesOk(g: Graph) {
    forall e :: 0 <= e < |g.events| && g.events[e].source.Some? ==> g.events[e].source.value < |g.events|
  }

  /** What the functions below need of a graph to be defined. */
  ghost predicate Defined(g: Graph) {
    && LastScOk(g) && ClocksOk(g) && SourcesOk(g) && OutsOk(g) && InRange(|g.events|, g.edges)
    && |g.perThread| == g.threads && ThreadsInRange(|g.events|, g.perThread)
  }

  /** Edges a seq_cst access gets from the last seq_cst write of its location. */
  ghost function ScEdge(g: Graph, id: nat): seq<Edge>
    requires id < |g.events|
  {
    var x := g.events[id].location;
    if x in g.lastSc then [Edge(Sc, g.lastSc[x], id)] else []
  }

  ghost function ScMoEdge(g: Graph, location: int, to: nat): seq<Edge> {
    if location in g.lastSc && g.lastSc[location] != to then [Edge(Mo, g.lastSc[location], to)] else []
  }

  // A store. `g` holds the appended event `id`.

  ghost function StoreEvents(g: Graph, id: nat): seq<Event>
    requires Defined(g) && id < |g.events|
  {
    var e := g.events[id];
    if e.order == SeqCst then g.events[id := e.(clock := JoinLastSc(g, e.location, e.clock))] else g.events
  }

  ghost function StoreEdges(g: Graph, id: nat): seq<Edge>
    requires Defined(g) && id < |g.events|
  {
    var e, events := g.events[id], StoreEvents(g, id);
    (if e.order == SeqCst then ScEdge(g, id) + ScMoEdge(g, e.location, id) else [])
    + WriteRules(events, g.perThread, id)
  }

  lemma StoreInRange(g: Graph, id: nat)
    requires Defined(g) && id < |g.events|
    ensures InRange(|g.events|, StoreEdges(g, id))
  {
    RulesInRange(StoreEvents(g, id), g.perThread, id, id);
  }

  ghost function Stored(g: Graph, id: nat): Graph
    requires Defined(g) && id < |g.events|
  {
    StoreInRange(g, id);
    var e := g.events[id];
    var lastSc := if e.order == SeqCst then g.lastSc[e.location := id] else g.lastSc;
    AddAll(g.(events := StoreEvents(g, id), lastSc := lastSc), StoreEdges(g, id))
  }

  // A load or read-modify-write `r` that reads from `w`.

  /** Acquire reading from release synchronizes; between two seq_cst events the sc edge does that. */
  predicate Synchronizes(write: Event, read: Event) {
    read.IsAtLeastAcquire() && write.IsAtLeastRelease() && !(read.IsSeqCst() && write.IsSeqCst())
  }

  ghost predicate CanRead(g: Graph, w: nat, r: nat) {
    && w < |g.events| && r < |g.events| && w != r
    && g.events[w].Writes() && g.events[r].IsReadOrRmw() && g.events[w].location == g.events[r].location
  }

  /** The reading event, with its source and its clock after both joins. */
  ghost function Resolved(g: Graph, w: nat, r: nat): Event
    requires Defined(g) && CanRead(g, w, r)
  {
    var e := g.events[r].ReadFrom(w, g.events[w].Written());
    var clock := if Synchronizes(g.events[w], e) then Join(e.clock, g.events[w].clock) else e.clock;
    e.(clock := if e.IsSeqCst() then JoinLastSc(g, e.location, clock) else clock)
  }

  ghost function ReadEvents(g: Graph, w: nat, r: nat): seq<Event>
    requires Defined(g) && CanRead(g, w, r)
  {
    g.events[r := Resolved(g, w, r)]
  }

  /** Orders a read-modify-write before the present modification-order successors of its source. */
  ghost function AtomicityEdges(edges: seq<Edge>, ids: seq<nat>, r: nat): seq<Edge>
    requires IdsInRange(|edges|, ids)
  {
    if ids == [] then []
    else
      var last := edges[ids[|ids| - 1]];
      AtomicityEdges(edges, ids[..|ids| - 1], r) + if last.kind.Mo? && last.to != r then [Edge(Mo, r, last.to)] else []
  }

  lemma {:induction false} AtomicityOnly(edges: seq<Edge>, ids: seq<nat>, r: nat, n: nat)
    requires IdsInRange(|edges|, ids) && InRange(n, edges) && r < n
    ensures forall e :: e in AtomicityEdges(edges, ids, r) ==> e.kind.Mo? && e.from == r && e.to < n
  {
    if ids != [] {
      AtomicityOnly(edges, ids[..|ids| - 1], r, n);
      assert edges[ids[|ids| - 1]] in edges;
    }
  }

  lemma OutgoingInRange(edges: seq<Edge>, a: nat)
    ensures IdsInRange(|edges|, Outgoing(edges, a))
  {
    forall k | 0 <= k < |Outgoing(edges, a)| ensures Outgoing(edges, a)[k] < |edges| {
      OutgoingExact(edges, a, Outgoing(edges, a)[k]);
    }
  }

  /** The reads-from edge, and for a modifying event the edges around its source. */
  ghost function ReadHead(g: Graph, w: nat, r: nat): seq<Edge>
    requires Defined(g) && CanRead(g, w, r)
  {
    OutgoingInRange(g.edges, w);
    [Edge(Rf, w, r)]
    + if Resolved(g, w, r).IsModifyRmw() then [Edge(Mo, w, r)] + AtomicityEdges(g.edges, Outgoing(g.edges, w), r)
      else []
  }

  ghost function ReadSc(g: Graph, w: nat, r: nat): seq<Edge>
    requires Defined(g) && CanRead(g, w, r)
  {
    var e := Resolved(g, w, r);
    if !e.IsSeqCst() then []
    else ScEdge(g, r) + ScMoEdge(g, e.location, w) + if e.IsModifyRmw() then ScMoEdge(g, e.location, r) else []
  }

  ghost function ReadTail(g: Graph, w: nat, r: nat): seq<Edge>
    requires Defined(g) && CanRead(g, w, r)
  {
    var events := ReadEvents(g, w, r);
    ReadRules(events, g.perThread, w, r) + if events[r].IsModifyRmw() then WriteRules(events, g.perThread, r) else []
  }

  ghost function ReadEdges(g: Graph, w: nat, r: nat): seq<Edge>
    requires Defined(g) && CanRead(g, w, r)
  {
    ReadHead(g, w, r) + ReadSc(g, w, r) + ReadTail(g, w, r)
  }

  lemma ReadInRange(g: Graph, w: nat, r: nat)
    requires Defined(g) && CanRead(g, w, r)
    ensures InRange(|g.events|, ReadHead(g, w, r))
    ensures InRange(|g.events|, ReadSc(g, w, r))
    ensures InRange(|g.events|, ReadTail(g, w, r))
    ensures InRange(|g.events|, ReadEdges(g, w, r))
  {
    assert InRange(|g.events|, ReadHead(g, w, r)) by {
      OutgoingInRange(g.edges, w);
      AtomicityOnly(g.edges, Outgoing(g.edges, w), r, |g.events|);
    }
    assert InRange(|g.events|, ReadTail(g, w, r)) by { RulesInRange(ReadEvents(g, w, r), g.perThread, w, r); }
  }

  ghost function ReadDone(g: Graph, w: nat, r: nat): Graph
    requires Defined(g) && CanRead(g, w, r)
  {
    ReadInRange(g, w, r);
    var e := Resolved(g, w, r);
    var lastSc := if e.IsModifyRmw() && e.IsSeqCst() then g.lastSc[e.location := r] else g.lastSc;
    AddAll(g.(events := ReadEvents(g, w, r), lastSc := lastSc), ReadEdges(g, w, r))
  }
}

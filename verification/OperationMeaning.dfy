/** What the operations of a run did, told from the operations alone: what each read and left, whether it wrote, and
    the memory order it ended with. */
module OperationMeaning {
  import opened Options
  import opened Relations
  import opened MemoryGraph
  import opened Clocks
  import opened Coherence
  import opened GraphInvariant
  import opened GraphOperations
  import opened GraphSteps
  import opened GraphRuns

  // ---- What an operation did -----------------------------------------------------------------------------------

  /** The operations are numbered after the starts of the threads, which take the first `threads` numbers. */
  ghost predicate IsOperation(threads: nat, ops: seq<Operation>, e: nat) {
    threads <= e < threads + |ops|
  }

  function Op(threads: nat, ops: seq<Operation>, e: nat): Operation
    requires IsOperation(threads, ops, e)
  {
    ops[e - threads]
  }

  /** What `e` left in its location, if it wrote. */
  ghost function Left(threads: nat, ops: seq<Operation>, e: nat): int
    requires IsOperation(threads, ops, e)
    decreases e, 1
  {
    match Op(threads, ops, e)
    case Storing(_, _, _, value) => value
    case Reading(Rmw(update), _, _, _, _) => update(Found(threads, ops, e))
    case Reading(Cas(_, desired, _), _, _, _, _) => desired
    case _ => 0
  }

  /** What `e` read: what its source left. */
  ghost function Found(threads: nat, ops: seq<Operation>, e: nat): int
    requires IsOperation(threads, ops, e) && Op(threads, ops, e).Reading?
    decreases e, 0
  {
    var source := Op(threads, ops, e).source;
    if threads <= source < e then Left(threads, ops, source) else 0
  }

  /** A compare-exchange that found something else than it expected. */
  ghost predicate Failed(threads: nat, ops: seq<Operation>, e: nat)
    requires IsOperation(threads, ops, e)
  {
    var op := Op(threads, ops, e);
    op.Reading? && op.kind.Cas? && Found(threads, ops, e) != op.kind.expected
  }

  ghost predicate Wrote(threads: nat, ops: seq<Operation>, e: nat)
    requires IsOperation(threads, ops, e)
  {
    var op := Op(threads, ops, e);
    op.Storing? || op.kind.Rmw? || (op.kind.Cas? && !Failed(threads, ops, e))
  }

  /** The memory order it ended with. */
  ghost function Ended(threads: nat, ops: seq<Operation>, e: nat): Order
    requires IsOperation(threads, ops, e)
  {
    if Failed(threads, ops, e) then Op(threads, ops, e).kind.failure else Op(threads, ops, e).order
  }

  /** Event `e` of a graph of the run is what its operation did. */
  ghost predicate Means(threads: nat, ops: seq<Operation>, events: seq<Event>, e: nat)
    requires e < |events| && IsOperation(threads, ops, e)
  {
    var op, event := Op(threads, ops, e), events[e];
    && event.location == op.location && event.thread == op.thread && event.order == op.order
    && event.kind == (if op.Reading? then op.kind else Write(op.value))
    && (event.IsReadOrRmw() <==> op.Reading?)
    && (event.Writes() <==> Wrote(threads, ops, e))
    && (Wrote(threads, ops, e) ==> event.Written() == Left(threads, ops, e))
    && event.EffectiveOrder() == Ended(threads, ops, e)
    && (op.Reading? ==> event.source == Some(op.source) && Sound(threads, ops, e))
  }

  /** It read from an earlier operation that wrote its location. */
  ghost predicate Sound(threads: nat, ops: seq<Operation>, e: nat)
    requires IsOperation(threads, ops, e) && Op(threads, ops, e).Reading?
  {
    var source := Op(threads, ops, e).source;
    && threads <= source < e && Wrote(threads, ops, source)
    && Op(threads, ops, source).location == Op(threads, ops, e).location
  }

  ghost predicate AllMean(threads: nat, ops: seq<Operation>, events: seq<Event>, k: nat) {
    && |events| == threads + k && k <= |ops|
    && (forall e :: 0 <= e < threads ==> events[e].kind.Dummy? && events[e].thread == e)
    && (forall e: nat :: threads <= e < |events| ==> Means(threads, ops, events, e))
  }

  /** What a step records: the operation, the source, and what the source wrote. */
  ghost predicate Records(events: seq<Event>, op: Operation, e: Event) {
    && e.location == op.location && e.thread == op.thread && e.order == op.order
    && e.kind == (if op.Reading? then op.kind else Write(op.value))
    && (op.Reading? ==>
          && (op.kind.Read? || op.kind.Rmw? || op.kind.Cas?)
          && op.source < |events| && events[op.source].Writes() && events[op.source].location == op.location
          && e.source == Some(op.source) && e.readValue == events[op.source].Written())
  }

  lemma {:induction false} StartedRecords(g: Graph, kind: Kind, location: int, thread: nat, order: Order, joined: bool)
    requires Appendable(g, thread)
    ensures var g1 := Started(g, kind, location, thread, order, joined);
      && |g1.events| == |g.events| + 1 && g1.events[..|g.events|] == g.events
      && g1.events[|g.events|] == Event(kind, location, thread, order, g1.events[|g.events|].clock, None, 0)
  {
  }

  lemma {:induction false} ReadRecords(g: Graph, op: Operation, g': Graph)
    requires Appendable(g, op.thread) && Step(g, op, g') && op.Reading?
    ensures |g'.events| == |g.events| + 1 && g'.events[..|g.events|] == g.events
    ensures Records(g.events, op, g'.events[|g.events|])
  {
    var id := |g.events|;
    var joined := StepReads(g, op, g');
    StartedRecords(g, op.kind, op.location, op.thread, op.order, joined);
    var g1 := Started(g, op.kind, op.location, op.thread, op.order, joined);
    DonePrefix(g1, op.source, id);
    assert g'.events[..id] == g1.events[..id];
    BegunOld(g, g1, op.source);
  }

  lemma {:induction false} StoreRecords(g: Graph, op: Operation, g': Graph)
    requires Appendable(g, op.thread) && Step(g, op, g') && op.Storing?
    ensures |g'.events| == |g.events| + 1 && g'.events[..|g.events|] == g.events
    ensures Records(g.events, op, g'.events[|g.events|])
  {
    var id := |g.events|;
    StartedRecords(g, Write(op.value), op.location, op.thread, op.order, false);
    assert g'.events[..id] == Append(g, Write(op.value), op.location, op.thread, op.order).events[..id];
  }

  lemma {:induction false} NewMeans(threads: nat, ops: seq<Operation>, k: nat, events: seq<Event>, events': seq<Event>)
    requires k < |ops| && AllMean(threads, ops, events, k) && |events'| == threads + k + 1
    requires Records(events, ops[k], events'[threads + k])
    ensures Means(threads, ops, events', threads + k)
  {
    var id, op := threads + k, ops[k];
    assert Op(threads, ops, id) == op;
    if op.Reading? {
      assert Means(threads, ops, events, op.source);
      assert Found(threads, ops, id) == Left(threads, ops, op.source);
    }
  }

  lemma {:induction false} OldMeans(threads: nat, ops: seq<Operation>, k: nat, events: seq<Event>, events': seq<Event>)
    requires k < |ops| && AllMean(threads, ops, events, k) && |events'| == threads + k + 1
    requires events'[..|events|] == events && Means(threads, ops, events', threads + k)
    ensures AllMean(threads, ops, events', k + 1)
  {
    forall e | 0 <= e < |events| ensures events'[e] == events[e] {
      assert events'[e] == events'[..|events|][e];
    }
    forall e: nat | threads <= e < |events'| ensures Means(threads, ops, events', e) {
      if e < |events| { assert Means(threads, ops, events, e); }
    }
  }

  lemma {:induction false} RunRecords(threads: nat, graphs: seq<Graph>, ops: seq<Operation>, k: nat)
    requires IsRun(threads, graphs, ops) && k < |ops|
    ensures |graphs[k + 1].events| == |graphs[k].events| + 1
    ensures graphs[k + 1].events[..|graphs[k].events|] == graphs[k].events
    ensures Records(graphs[k].events, ops[k], graphs[k + 1].events[|graphs[k].events|])
  {
    assert StepAt(graphs, ops, k);
    if ops[k].Reading? {
      ReadRecords(graphs[k], ops[k], graphs[k + 1]);
    } else {
      StoreRecords(graphs[k], ops[k], graphs[k + 1]);
    }
  }

  /** In every graph of a run, every event is what its operation did. */
  lemma {:induction false} RunMeans(threads: nat, graphs: seq<Graph>, ops: seq<Operation>, k: nat)
    requires IsRun(threads, graphs, ops) && k < |graphs|
    ensures AllMean(threads, ops, graphs[k].events, k)
  {
    if k > 0 {
      RunMeans(threads, graphs, ops, k - 1);
      RunRecords(threads, graphs, ops, k - 1);
      NewMeans(threads, ops, k - 1, graphs[k - 1].events, graphs[k].events);
      OldMeans(threads, ops, k - 1, graphs[k - 1].events, graphs[k].events);
    }
  }
}

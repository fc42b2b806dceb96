/** Every graph that a run of loads, stores and read-modify-writes can reach. */
module GraphRuns {
  import opened Options
  import opened Relations
  import opened MemoryGraph
  import opened Clocks
  import opened Coherence
  import opened GraphInvariant
  import opened GraphOperations
  import opened GraphSteps
  import CycleCheck

  datatype Operation =
    | Storing(location: int, thread: nat, order: Order, value: int)
    | Reading(kind: Kind, location: int, thread: nat, order: Order, source: nat)

  /** A store, or a read that was accepted. */
  ghost predicate Step(g: Graph, op: Operation, g': Graph) {
    && Appendable(g, op.thread)
    && match op
       case Storing(location, thread, order, value) =>
         var g1 := Append(g, Write(value), location, thread, order);
         Defined(g1) && g' == Stored(g1, |g.events|)
       case Reading(kind, location, thread, order, source) =>
         (kind.Read? || kind.Rmw? || kind.Cas?) && ReadStep(g, g', kind, location, thread, order, source)
  }

  ghost predicate IsRun(threads: nat, graphs: seq<Graph>, ops: seq<Operation>) {
    && |graphs| == |ops| + 1 && graphs[0] == Initial(threads)
    && forall k {:trigger StepAt(graphs, ops, k)} :: 0 <= k < |ops| ==> StepAt(graphs, ops, k)
  }

  ghost predicate StepAt(graphs: seq<Graph>, ops: seq<Operation>, k: nat)
    requires |graphs| == |ops| + 1 && k < |ops|
  {
    Step(graphs[k], ops[k], graphs[k + 1])
  }

  lemma StepKeeps(g: Graph, op: Operation, g': Graph)
    requires Invariant(g) && Step(g, op, g')
    ensures Invariant(g')
  {
    match op
    case Storing(location, thread, order, value) =>
      StartedFresh(g, Write(value), location, thread, order);
      StoreKeeps(g, Append(g, Write(value), location, thread, order));
    case Reading(kind, location, thread, order, source) =>
      StepAccepted(g, g', kind, location, thread, order, source);
  }

  lemma {:induction false} RunFirst(threads: nat, graphs: seq<Graph>, ops: seq<Operation>)
    requires IsRun(threads, graphs, ops)
    ensures Invariant(graphs[0]) && Synchronized(graphs[0])
  {
    InitialInvariant(threads);
  }

  lemma {:induction false} RunStep(threads: nat, graphs: seq<Graph>, ops: seq<Operation>, k: nat)
    requires IsRun(threads, graphs, ops) && 0 < k < |graphs| && Invariant(graphs[k - 1])
    ensures Invariant(graphs[k])
  {
    assert StepAt(graphs, ops, k - 1);
    StepKeeps(graphs[k - 1], ops[k - 1], graphs[k]);
  }

  lemma {:induction false} RunKeeps(threads: nat, graphs: seq<Graph>, ops: seq<Operation>, k: nat)
    requires IsRun(threads, graphs, ops) && k < |graphs|
    ensures Invariant(graphs[k])
  {
    if k == 0 {
      RunFirst(threads, graphs, ops);
    } else {
      RunKeeps(threads, graphs, ops, k - 1);
      RunStep(threads, graphs, ops, k);
    }
  }

  /** The four coherence rules of C++ hold for every pair of events of one location, and the modification order is
      acyclic. */
  lemma RunCoherent(threads: nat, graphs: seq<Graph>, ops: seq<Operation>, k: nat, a: nat, b: nat)
    requires IsRun(threads, graphs, ops) && k < |graphs|
    requires var g := graphs[k];
      && a < |g.events| && b < |g.events| && a != b && g.events[a].location == g.events[b].location
         && Hb(g.events, a, b)
    ensures var g := graphs[k];
      && Acyclic(ModOrder(g)) && Sourced(g)
      && (g.events[a].Writes() && g.events[b].Writes() ==> Plus(ModOrder(g), a, b))
      && (g.events[a].Writes() && g.events[b].IsReadOrRmw() && Source(g, b) != a ==> Plus(ModOrder(g), a, Source(g, b)))
      && (g.events[a].IsReadOrRmw() && g.events[b].Writes() ==> Plus(ModOrder(g), Source(g, a), b))
      && (g.events[a].IsReadOrRmw() && g.events[b].IsReadOrRmw() && Source(g, a) != Source(g, b) ==>
            Plus(ModOrder(g), Source(g, a), Source(g, b)))
  {
    RunKeeps(threads, graphs, ops, k);
    assert !graphs[k].events[a].kind.Dummy? ==> Ordered(graphs[k], a, b);
  }

  /** A seq_cst read from a seq_cst write read the latest one of its location at the time. */
  lemma RunReadsLatest(threads: nat, graphs: seq<Graph>, ops: seq<Operation>, k: nat, r: nat, w: nat)
    requires IsRun(threads, graphs, ops) && k < |graphs| && ScRead(graphs[k], r) && EarlierScWrite(graphs[k], w, r)
    ensures ScWrite(graphs[k], Source(graphs[k], r)) ==> w <= Source(graphs[k], r) < r
  {
    RunKeeps(threads, graphs, ops, k);
    assert HasSource(graphs[k], r);
  }

  /** Clock inclusion is happens-before: in every run in one direction, and in both as long as every compare-exchange
      with a seq_cst order ended with it. */
  lemma RunClocks(threads: nat, graphs: seq<Graph>, ops: seq<Operation>, k: nat, a: nat, b: nat)
    requires IsRun(threads, graphs, ops) && k < |graphs|
    requires a < |graphs[k].events| && b < |graphs[k].events| && a != b && !graphs[k].events[a].kind.Dummy?
    ensures Plus(HbPairs(graphs[k]), a, b) ==> Hb(graphs[k].events, a, b)
    ensures Settled(graphs[k]) && Hb(graphs[k].events, a, b) ==> Plus(HbPairs(graphs[k]), a, b)
  {
    RunKeeps(threads, graphs, ops, k);
    if Plus(HbPairs(graphs[k]), a, b) { PathsIncluded(graphs[k], a, b); }
    if Settled(graphs[k]) { ClocksExact(graphs[k], a, b); }
  }

  lemma StepReads(g: Graph, op: Operation, g': Graph) returns (joined: bool)
    requires Step(g, op, g') && op.Reading?
    ensures Readable(g, Started(g, op.kind, op.location, op.thread, op.order, joined), op.source)
    ensures g' == ReadDone(Started(g, op.kind, op.location, op.thread, op.order, joined), op.source, |g.events|)
  {
    joined := StepJoined(g, g', op.kind, op.location, op.thread, op.order, op.source);
  }

  lemma StepSynchronized(g: Graph, op: Operation, g': Graph)
    requires Invariant(g) && Step(g, op, g') && Synchronized(g)
    ensures Invariant(g') && Synchronized(g')
  {
    StepKeeps(g, op, g');
    if op.Reading? {
      var joined := StepReads(g, op, g');
      ReadSynchronized(g, Started(g, op.kind, op.location, op.thread, op.order, joined), op.source);
    } else {
      StartedFresh(g, Write(op.value), op.location, op.thread, op.order);
      StoreSynchronized(g, Append(g, Write(op.value), op.location, op.thread, op.order));
    }
  }

  lemma {:induction false} RunStepSynchronizes(threads: nat, graphs: seq<Graph>, ops: seq<Operation>, k: nat)
    requires IsRun(threads, graphs, ops) && 0 < k < |graphs| && Invariant(graphs[k - 1]) && Synchronized(graphs[k - 1])
    ensures Invariant(graphs[k]) && Synchronized(graphs[k])
  {
    assert StepAt(graphs, ops, k - 1);
    StepSynchronized(graphs[k - 1], ops[k - 1], graphs[k]);
  }

  /** Every acquire read from a release write happens after it. */
  lemma {:induction false} RunSynchronizes(threads: nat, graphs: seq<Graph>, ops: seq<Operation>, k: nat)
    requires IsRun(threads, graphs, ops) && k < |graphs|
    ensures Invariant(graphs[k]) && Synchronized(graphs[k])
  {
    if k == 0 {
      RunFirst(threads, graphs, ops);
    } else {
      RunSynchronizes(threads, graphs, ops, k - 1);
      RunStepSynchronizes(threads, graphs, ops, k);
    }
  }

  /** A modifying read-modify-write is ordered after its source and before the source's direct successors. */
  lemma RunRmw(threads: nat, graphs: seq<Graph>, ops: seq<Operation>, k: nat, b: nat)
    requires IsRun(threads, graphs, ops) && k < |ops| && ops[k].Reading?
    ensures var g, id := graphs[k + 1], |graphs[k].events|;
      && id < |g.events| && g.events[id].source == Some(ops[k].source)
      && (g.events[id].IsModifyRmw() ==> (ops[k].source, id) in ModOrder(g))
      && (g.events[id].IsModifyRmw() && (ops[k].source, b) in ModOrder(graphs[k]) ==> (id, b) in ModOrder(g))
  {
    RunKeeps(threads, graphs, ops, k);
    assert StepAt(graphs, ops, k);
    StepRmw(graphs[k], ops[k], graphs[k + 1], b);
  }

  lemma StepRmw(g: Graph, op: Operation, g': Graph, b: nat)
    requires Invariant(g) && Step(g, op, g') && op.Reading?
    ensures var id := |g.events|;
      && id < |g'.events| && g'.events[id].source == Some(op.source)
      && (g'.events[id].IsModifyRmw() ==> (op.source, id) in ModOrder(g'))
      && (g'.events[id].IsModifyRmw() && (op.source, b) in ModOrder(g) ==> (id, b) in ModOrder(g'))
  {
    var joined := StepReads(g, op, g');
    var g1 := Started(g, op.kind, op.location, op.thread, op.order, joined);
    DonePrefix(g1, op.source, |g.events|);
    if g'.events[|g.events|].IsModifyRmw() { RmwBetween(g, g1, op.source, b); }
  }

  // ---- Growing a run -------------------------------------------------------------------------------------------

  /** A step at the end of a run makes a longer run. */
  lemma RunExtends(threads: nat, graphs: seq<Graph>, ops: seq<Operation>, op: Operation, g': Graph)
    requires IsRun(threads, graphs, ops) && Step(graphs[|ops|], op, g')
    ensures IsRun(threads, graphs + [g'], ops + [op])
  {
    forall k: nat | k < |ops| + 1 ensures StepAt(graphs + [g'], ops + [op], k) {
      if k < |ops| { assert StepAt(graphs, ops, k); }
    }
  }

  lemma RunAppendable(threads: nat, graphs: seq<Graph>, ops: seq<Operation>, thread: nat)
    requires IsRun(threads, graphs, ops) && thread < graphs[|ops|].threads
    ensures Appendable(graphs[|ops|], thread)
  {
    RunKeeps(threads, graphs, ops, |ops|);
    CanAppendAny(graphs[|ops|], thread);
  }

  /** An operation started at the end of a run may try any write of its location. */
  lemma RunAttempts(threads: nat, graphs: seq<Graph>, ops: seq<Operation>,
                    kind: Kind, location: int, thread: nat, order: Order, joined: bool, w: nat, g1: Graph)
    requires IsRun(threads, graphs, ops) && Appendable(graphs[|ops|], thread)
    requires Candidate(graphs[|ops|], kind, location, w) && g1 == Started(graphs[|ops|], kind, location, thread,
        order, joined)
    ensures var g := graphs[|ops|];
      |g1.events| == |g.events| + 1 && Readable(g, g1, w) && Attemptable(g1, w, |g.events|)
  {
    RunKeeps(threads, graphs, ops, |ops|);
    StartedAttemptable(graphs[|ops|], kind, location, thread, order, joined, w);
  }

  /** An attempt that passes makes a longer run, in which the new event has its source and its value. */
  lemma RunPasses(threads: nat, graphs: seq<Graph>, ops: seq<Operation>,
                  kind: Kind, location: int, thread: nat, order: Order, joined: bool, w: nat, g': Graph)
    requires IsRun(threads, graphs, ops) && Appendable(graphs[|ops|], thread)
    requires Candidate(graphs[|ops|], kind, location, w)
    requires joined ==> Marked(graphs[|ops|], kind, location, thread, order)
    requires ReadOf(graphs[|ops|], g', kind, location, thread, order, joined, w) && CycleCheck.Passes(g')
    ensures IsRun(threads, graphs + [g'], ops + [Reading(kind, location, thread, order, w)])
    ensures Resulted(graphs[|ops|].events, g'.events, kind, w)
  {
    var g := graphs[|ops|];
    RunKeeps(threads, graphs, ops, |ops|);
    AttemptPasses(g, kind, location, thread, order, joined, w, g');
    ReadResult(g, g', kind, location, thread, order, w);
    RunExtends(threads, graphs, ops, Reading(kind, location, thread, order, w), g');
  }

  /** The attempt on `w` of an operation started at the end of a run as `g1` led to `g'`. */
  ghost predicate Attempted(g: Graph, kind: Kind, location: int, thread: nat, order: Order, joined: bool, w: nat,
                            r: nat, g1: Graph, g': Graph, ok: bool)
    requires Appendable(g, thread)
  {
    && Candidate(g, kind, location, w) && (joined ==> Marked(g, kind, location, thread, order)) && r == |g.events|
    && g1 == Started(g, kind, location, thread, order, joined) && Attemptable(g1, w, r)
    && (ok <==> CycleCheck.Passes(ReadDone(g1, w, r)))
    && g' == if ok then ReadDone(g1, w, r) else RejectedAt(g1, w, r)
  }

  lemma RunAttempted(threads: nat, graphs: seq<Graph>, ops: seq<Operation>, kind: Kind, location: int, thread: nat,
                     order: Order, joined: bool, w: nat, r: nat, g1: Graph, g': Graph, ok: bool)
    returns (joined': bool)
    requires IsRun(threads, graphs, ops) && Appendable(graphs[|ops|], thread)
    requires Attempted(graphs[|ops|], kind, location, thread, order, joined, w, r, g1, g', ok)
    ensures ok ==> IsRun(threads, graphs + [g'], ops + [Reading(kind, location, thread, order, w)])
    ensures ok ==> Resulted(graphs[|ops|].events, g'.events, kind, w)
    ensures !ok ==> g' == Started(graphs[|ops|], kind, location, thread, order, joined')
    ensures !ok ==> Unreadable(graphs[|ops|], kind, location, thread, order, w)
    ensures joined' ==> Marked(graphs[|ops|], kind, location, thread, order)
  {
    RunAttempts(threads, graphs, ops, kind, location, thread, order, joined, w, g1);
    joined' := joined;
    if ok {
      RunPasses(threads, graphs, ops, kind, location, thread, order, joined, w, g');
    } else {
      assert RejectedOn(graphs[|ops|], kind, location, thread, order, joined, w);
      joined' := AttemptFails(graphs[|ops|], kind, location, thread, order, joined, w);
    }
  }

  lemma RunStores(threads: nat, graphs: seq<Graph>, ops: seq<Operation>,
                  location: int, thread: nat, order: Order, value: int)
    requires IsRun(threads, graphs, ops) && Appendable(graphs[|ops|], thread)
    ensures var g := graphs[|ops|];
            var g1 := Append(g, Write(value), location, thread, order);
            && Defined(g1) && (forall x :: x in g1.lastSc ==> g1.lastSc[x] != |g.events|)
            && (forall o :: 0 <= o < |g.events| && g1.events[o].IsReadOrRmw() ==> g1.events[o].source.Some?)
            && IsRun(threads, graphs + [Stored(g1, |g.events|)], ops + [Storing(location, thread, order, value)])
  {
    var g := graphs[|ops|];
    RunKeeps(threads, graphs, ops, |ops|);
    StartedFresh(g, Write(value), location, thread, order);
    var g1 := Append(g, Write(value), location, thread, order);
    OthersSourced(g, g1);
    RunExtends(threads, graphs, ops, Storing(location, thread, order, value), Stored(g1, |g.events|));
  }

  // ---- Runs with exact clocks ----------------------------------------------------------------------------------

  /** One of the two orders of a compare-exchange is seq_cst and the other is not. */
  predicate Mixed(success: Order, failure: Order) {
    (success == SeqCst) != (failure == SeqCst)
  }

  ghost predicate Unmixed(op: Operation) {
    op.Reading? && op.kind.Cas? ==> !Mixed(op.order, op.kind.failure)
  }

  lemma {:induction false} StepSettled(g: Graph, op: Operation, g': Graph)
    requires Invariant(g) && Step(g, op, g') && Settled(g) && Unmixed(op)
    ensures Settled(g')
  {
    StepKind(g, op, g');
    OneMoreSettled(g.events, g'.events);
  }

  lemma {:induction false} OneMoreSettled(before: seq<Event>, after: seq<Event>)
    requires |after| == |before| + 1 && after[..|before|] == before && SettledEvent(after[|before|])
    requires forall e :: 0 <= e < |before| ==> SettledEvent(before[e])
    ensures forall e :: 0 <= e < |after| ==> SettledEvent(after[e])
  {
    forall e | 0 <= e < |after| ensures SettledEvent(after[e]) {
      if e < |before| { assert after[..|before|][e] == before[e]; }
    }
  }

  /** The new event has the kind and the order of its operation. */
  lemma {:induction false} StepKind(g: Graph, op: Operation, g': Graph)
    requires Invariant(g) && Step(g, op, g')
    ensures |g'.events| == |g.events| + 1 && g'.events[..|g.events|] == g.events
    ensures g'.events[|g.events|].kind == (if op.Reading? then op.kind else Write(op.value))
    ensures g'.events[|g.events|].order == op.order
  {
    var id := |g.events|;
    if op.Reading? {
      var joined := StepReads(g, op, g');
      var g1 := Started(g, op.kind, op.location, op.thread, op.order, joined);
      DonePrefix(g1, op.source, id);
      assert g'.events[..id] == g1.events[..id];
    } else {
      var g1 := Append(g, Write(op.value), op.location, op.thread, op.order);
      StartedFresh(g, Write(op.value), op.location, op.thread, op.order);
      assert g'.events[..id] == g1.events[..id];
    }
  }

  lemma {:induction false} RunSettles(threads: nat, graphs: seq<Graph>, ops: seq<Operation>, k: nat)
    requires IsRun(threads, graphs, ops) && k < |ops| && Settled(graphs[k]) && Unmixed(ops[k])
    ensures Settled(graphs[k + 1])
  {
    RunKeeps(threads, graphs, ops, k);
    assert StepAt(graphs, ops, k);
    StepSettled(graphs[k], ops[k], graphs[k + 1]);
  }

  lemma {:induction false} RunSettled(threads: nat, graphs: seq<Graph>, ops: seq<Operation>, k: nat)
    requires IsRun(threads, graphs, ops) && k < |graphs| && forall j :: 0 <= j < k ==> Unmixed(ops[j])
    ensures Settled(graphs[k])
  {
    if k > 0 {
      RunSettled(threads, graphs, ops, k - 1);
      RunSettles(threads, graphs, ops, k - 1);
    }
  }

  /** Clocks are exact in every run whose compare-exchanges have two seq_cst orders or none. */
  lemma RunExact(threads: nat, graphs: seq<Graph>, ops: seq<Operation>, k: nat, a: nat, b: nat)
    requires IsRun(threads, graphs, ops) && k < |graphs| && forall j :: 0 <= j < k ==> Unmixed(ops[j])
    requires a < |graphs[k].events| && b < |graphs[k].events| && a != b && !graphs[k].events[a].kind.Dummy?
    ensures Hb(graphs[k].events, a, b) <==> Plus(HbPairs(graphs[k]), a, b)
  {
    RunSettled(threads, graphs, ops, k);
    RunClocks(threads, graphs, ops, k, a, b);
  }
}

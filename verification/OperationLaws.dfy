/** Happens-before over the operations of a run, with the memory orders written out, and the laws of C++ that every
    run meets: clocks are this relation, and reads and writes are coherent with it. */
module OperationLaws {
  import opened Options
  import opened Relations
  import opened MemoryGraph
  import opened Clocks
  import opened Coherence
  import opened GraphInvariant
  import opened GraphOperations
  import opened GraphSteps
  import opened GraphRuns
  import opened OperationMeaning

  // ---- Happens-before ------------------------------------------------------------------------------------------

  predicate Acquires(order: Order) { order == Acquire || order == AcqRel || order == SeqCst }

  predicate Releases(order: Order) { order == Release || order == AcqRel || order == SeqCst }

  /** The thread of an operation, or the thread that starts with `e`. */
  ghost function ThreadOf(threads: nat, ops: seq<Operation>, e: nat): nat
    requires e < threads + |ops|
  {
    if e < threads then e else Op(threads, ops, e).thread
  }

  /** `a` is the last of the thread of `b` before `b`. */
  ghost predicate InOrder(threads: nat, ops: seq<Operation>, a: nat, b: nat)
    requires a < b < threads + |ops|
  {
    && ThreadOf(threads, ops, a) == ThreadOf(threads, ops, b)
    && forall c: nat :: a < c < b ==> ThreadOf(threads, ops, c) != ThreadOf(threads, ops, b)
  }

  ghost predicate WroteSeqCst(threads: nat, ops: seq<Operation>, e: nat, location: int)
    requires e < threads + |ops|
  {
    && threads <= e && Wrote(threads, ops, e) && Ended(threads, ops, e) == SeqCst
    && Op(threads, ops, e).location == location
  }

  /** `b` ended seq_cst and `a` is the last seq_cst write of its location before it. */
  ghost predicate InSeqCstOrder(threads: nat, ops: seq<Operation>, a: nat, b: nat)
    requires a < b && IsOperation(threads, ops, b)
  {
    && Ended(threads, ops, b) == SeqCst && WroteSeqCst(threads, ops, a, Op(threads, ops, b).location)
    && forall c: nat :: a < c < b ==> !WroteSeqCst(threads, ops, c, Op(threads, ops, b).location)
  }

  /** `b` acquires what it reads from `a`, which releases it. */
  ghost predicate Synced(threads: nat, ops: seq<Operation>, a: nat, b: nat)
    requires a < b && IsOperation(threads, ops, b)
  {
    && threads <= a && Op(threads, ops, b).Reading? && Op(threads, ops, b).source == a
    && Acquires(Ended(threads, ops, b)) && Releases(Ended(threads, ops, a))
  }

  ghost predicate Directly(threads: nat, ops: seq<Operation>, a: nat, b: nat) {
    && a < b && IsOperation(threads, ops, b)
    && (InOrder(threads, ops, a, b) || InSeqCstOrder(threads, ops, a, b) || Synced(threads, ops, a, b))
  }

  /** The pairs among the first `k` operations. */
  ghost function DirectPairs(threads: nat, ops: seq<Operation>, k: nat): set<(nat, nat)> {
    set a: nat, b: nat | a < b < threads + k && Directly(threads, ops, a, b) :: (a, b)
  }

  ghost predicate HappensBefore(threads: nat, ops: seq<Operation>, k: nat, a: nat, b: nat) {
    Plus(DirectPairs(threads, ops, k), a, b)
  }

  // ---- The pairs of a graph are those of its operations --------------------------------------------------------

  ghost function Into(preds: set<nat>, id: nat): set<(nat, nat)> { set x | x in preds :: (x, id) }

  lemma {:induction false} UpdatedPairs(g: Graph, g': Graph, preds: set<nat>)
    requires Extends(g, g') && HbUpdated(g, g', preds) && InRange(|g.events|, g.edges)
    requires forall x :: x in preds ==> (x, |g.events|) in HbPairs(g')
    ensures HbPairs(g') == HbPairs(g) + Into(preds, |g.events|)
  {
    OldHbPairs(g, g');
    forall e | e in g'.edges && HbEdge(g', e)
      ensures (e.from, e.to) in HbPairs(g) || (e.to == |g.events| && e.from in preds)
    {
      if e in g.edges {
        OldEvent(g, g', e.from);
        OldEvent(g, g', e.to);
        assert HbEdge(g, e);
      }
    }
  }

  /** Where the happens-before edges into the event of an operation come from. */
  ghost function Preds(g: Graph, op: Operation, e: Event): set<nat>
    requires op.thread < |g.perThread| && g.perThread[op.thread] != []
  {
    {Last(g, op.thread)}
    + (if op.Reading? && op.source < |g.events| && Synchronizes(g.events[op.source], e) then {op.source} else {})
    + if e.IsSeqCst() then ScPred(g, op.location) else {}
  }

  lemma {:induction false} FinishedPairs(g: Graph, g1: Graph, e: Event, lastSc: map<int, nat>, es: seq<Edge>, g': Graph,
                                         preds: set<nat>)
    requires Invariant(g) && Finished(g, g1, e, lastSc, es, g') && Extends(g, g')
      && LinkedFrom(g.events, Last(g, e.thread), e, es, preds)
    ensures HbPairs(g') == HbPairs(g) + Into(preds, |g.events|)
  {
    FinishedHb(g, g1, e, lastSc, es, g', preds);
    UpdatedPairs(g, g', preds);
  }

  lemma {:induction false} SamePreds(g: Graph, op: Operation, g1: Graph, e: Event)
    requires op.Reading? && Begun(g, g1) && op.source < |g.events| && e.location == op.location
    requires op.thread < |g.perThread| && g.perThread[op.thread] != []
    ensures ReadPreds(g1, Last(g, op.thread), op.source, e) == Preds(g, op, e)
  {
    BegunOld(g, g1, op.source);
  }

  lemma {:induction false} ReadLinked(g: Graph, last: nat, g1: Graph, w: nat)
    requires LastScOk(g) && Readable(g, g1, w) && last == Last(g, g1.events[|g.events|].thread)
    ensures var e := Resolved(g1, w, |g.events|);
      LinkedFrom(g.events, last, e, ReadEdges(g1, w, |g.events|), ReadPreds(g1, last, w, e))
  {
    ReadShape(g1, last, w, |g.events|);
    assert g1.events[..|g.events|] == g.events;
  }

  lemma {:induction false} ReadPairs(g: Graph, op: Operation, g1: Graph)
    requires Invariant(g) && op.Reading? && Readable(g, g1, op.source) && Invariant(ReadDone(g1, op.source, |g.events|))
    requires g1.events[|g.events|].thread == op.thread && g1.events[|g.events|].location == op.location
    ensures var g' := ReadDone(g1, op.source, |g.events|);
      && |g'.events| == |g.events| + 1 && op.thread < |g.perThread| && g.perThread[op.thread] != []
      && HbPairs(g') == HbPairs(g) + Into(Preds(g, op, g'.events[|g.events|]), |g.events|)
  {
    var id, w := |g.events|, op.source;
    var e := Resolved(g1, w, id);
    ReadFinished(g, g1, w);
    ReadExtends(g, g1, w);
    ReadLinked(g, Last(g, op.thread), g1, w);
    SamePreds(g, op, g1, e);
    FinishedPairs(g, g1, e, LastScAfter(g.lastSc, e, id), ReadEdges(g1, w, id), ReadDone(g1, w, id), Preds(g, op, e));
  }

  lemma {:induction false} StorePairs(g: Graph, op: Operation, g1: Graph)
    requires Invariant(g) && op.Storing? && Begun(g, g1) && Invariant(Stored(g1, |g.events|))
    requires g1.events[|g.events|].kind.Write?
    requires g1.events[|g.events|].thread == op.thread && g1.events[|g.events|].location == op.location
    ensures var g' := Stored(g1, |g.events|);
      && |g'.events| == |g.events| + 1 && op.thread < |g.perThread| && g.perThread[op.thread] != []
      && HbPairs(g') == HbPairs(g) + Into(Preds(g, op, g'.events[|g.events|]), |g.events|)
  {
    var id := |g.events|;
    var e, es, g' := StoreEvents(g1, id)[id], StoreEdges(g1, id), Stored(g1, id);
    StoreFinished(g, g1);
    FinishedDefined(g, g1, e, LastScAfter(g.lastSc, g1.events[id], id), es, g');
    StoreLinked(g1, Last(g, e.thread), id);
    assert StorePreds(g1, Last(g, e.thread), e) == Preds(g, op, e);
    assert g1.events[..id] == g.events;
    FinishedPairs(g, g1, e, LastScAfter(g.lastSc, g1.events[id], id), es, g', Preds(g, op, e));
  }

  lemma {:induction false} StepPairs(g: Graph, op: Operation, g': Graph)
    requires Invariant(g) && Step(g, op, g') && Invariant(g')
    ensures |g'.events| == |g.events| + 1
    ensures HbPairs(g') == HbPairs(g) + Into(Preds(g, op, g'.events[|g.events|]), |g.events|)
  {
    if op.Reading? {
      var joined := StepReads(g, op, g');
      StartedRecords(g, op.kind, op.location, op.thread, op.order, joined);
      ReadPairs(g, op, Started(g, op.kind, op.location, op.thread, op.order, joined));
    } else {
      StartedRecords(g, Write(op.value), op.location, op.thread, op.order, false);
      StartedFresh(g, Write(op.value), op.location, op.thread, op.order);
      StorePairs(g, op, Append(g, Write(op.value), op.location, op.thread, op.order));
    }
  }

  /** The events of a graph are in the threads of their operations. */
  lemma {:induction false} InThread(threads: nat, ops: seq<Operation>, k: nat, g: Graph, c: nat)
    requires k < |ops| && AllMean(threads, ops, g.events, k) && c < threads + k
    ensures g.events[c].thread == ThreadOf(threads, ops, c)
  {
    if threads <= c { assert Means(threads, ops, g.events, c); }
  }

  lemma {:induction false} LastInOrder(threads: nat, ops: seq<Operation>, k: nat, g: Graph, x: nat)
    requires k < |ops| && AllMean(threads, ops, g.events, k) && Layout(g) && ops[k].thread < g.threads
    requires x < threads + k
    ensures x == Last(g, ops[k].thread) <==> InOrder(threads, ops, x, threads + k)
  {
    var t, id := ops[k].thread, threads + k;
    var top := |g.perThread[t]| - 1;
    var last := g.perThread[t][top];
    assert Placed(g, t, top);
    forall c: nat | c < id ensures g.events[c].thread == ThreadOf(threads, ops, c) {
      InThread(threads, ops, k, g, c);
    }
    forall c: nat | c < id && g.events[c].thread == t ensures c <= last {
      assert Listed(g, c);
      var p := g.events[c].clock[t];
      assert p < top ==> Earlier(g.perThread, t, p, top);
    }
  }

  lemma {:induction false} SeqCstWrites(threads: nat, ops: seq<Operation>, k: nat, g: Graph, c: nat, location: int)
    requires k < |ops| && AllMean(threads, ops, g.events, k) && c < threads + k
    ensures ScWrite(g, c) && g.events[c].location == location <==> WroteSeqCst(threads, ops, c, location)
  {
    if threads <= c { assert Means(threads, ops, g.events, c); }
  }

  lemma {:induction false} LastSeqCst(threads: nat, ops: seq<Operation>, k: nat, g: Graph, x: nat)
    requires k < |ops| && AllMean(threads, ops, g.events, k) && ScChain(g) && x < threads + k
    requires Ended(threads, ops, threads + k) == SeqCst
    ensures x in ScPred(g, ops[k].location) <==> InSeqCstOrder(threads, ops, x, threads + k)
  {
    var location, id := ops[k].location, threads + k;
    forall c: nat | c < id
      ensures ScWrite(g, c) && g.events[c].location == location <==> WroteSeqCst(threads, ops, c, location)
    {
      SeqCstWrites(threads, ops, k, g, c, location);
    }
    forall c: nat | c < id && WroteSeqCst(threads, ops, c, location)
      ensures location in g.lastSc && c <= g.lastSc[location] < id
    {
      assert UpToLast(g, c, g.lastSc[location]);
      assert ScWrite(g, g.lastSc[location]);
    }
  }

  /** A seq_cst read from a seq_cst write reads the last one. */
  lemma {:induction false} ReadsLast(g: Graph, op: Operation, g': Graph)
    requires Invariant(g) && Step(g, op, g') && op.Reading? && Invariant(g')
    ensures op.source < |g.events| < |g'.events|
    ensures g'.events[|g.events|].IsSeqCst() && ScWrite(g, op.source) ==> op.source in ScPred(g, op.location)
  {
    ReadRecords(g, op, g');
    if g'.events[|g.events|].IsSeqCst() && ScWrite(g, op.source) {
      var joined := StepReads(g, op, g');
      var g1 := Started(g, op.kind, op.location, op.thread, op.order, joined);
      ReadScUpdated(g, g1, op.source);
      ReadExtends(g, g1, op.source);
      NewestRead(g, g', op.source);
    }
  }

  /** Acquiring from a release, with the orders written out. */
  lemma {:induction false} SyncedOrders(threads: nat, ops: seq<Operation>, k: nat, events: seq<Event>, w: Event)
    requires k < |ops| && ops[k].Reading? && |events| == threads + k + 1 && Means(threads, ops, events, threads + k)
    requires IsOperation(threads, ops, ops[k].source) && ops[k].source < threads + k
    requires w.EffectiveOrder() == Ended(threads, ops, ops[k].source)
    ensures var e := events[threads + k];
      Synced(threads, ops, ops[k].source, threads + k) <==>
      Synchronizes(w, e) || (e.IsSeqCst() && w.IsSeqCst())
  {
    assert Op(threads, ops, threads + k) == ops[k];
  }

  /** The source of a read is linked if it synchronizes, and as the last seq_cst write if both are seq_cst. */
  ghost predicate SourceLinked(threads: nat, ops: seq<Operation>, k: nat, g: Graph, e: Event)
    requires k < |ops| && ops[k].Reading?
  {
    var source, id := ops[k].source, threads + k;
    && threads <= source < id && source < |g.events|
    && (Synced(threads, ops, source, id) <==>
        Synchronizes(g.events[source], e) || (e.IsSeqCst() && g.events[source].IsSeqCst()))
    && (e.IsSeqCst() && g.events[source].IsSeqCst() ==> source in ScPred(g, ops[k].location))
  }

  lemma {:induction false} SourceIsLinked(threads: nat, ops: seq<Operation>, k: nat, g: Graph, g': Graph)
    requires k < |ops| && Invariant(g) && Invariant(g') && Step(g, ops[k], g') && ops[k].Reading?
    requires AllMean(threads, ops, g.events, k) && AllMean(threads, ops, g'.events, k + 1)
    ensures SourceLinked(threads, ops, k, g, g'.events[threads + k])
  {
    var source := ops[k].source;
    ReadsLast(g, ops[k], g');
    ReadRecords(g, ops[k], g');
    assert Op(threads, ops, threads + k) == ops[k];
    assert Means(threads, ops, g'.events, threads + k) && Means(threads, ops, g.events, source);
    SyncedOrders(threads, ops, k, g'.events, g.events[source]);
  }

  lemma {:induction false} PredsMatch(threads: nat, ops: seq<Operation>, k: nat, g: Graph, e: Event, x: nat)
    requires k < |ops| && x < threads + k && ops[k].thread < |g.perThread| && g.perThread[ops[k].thread] != []
    requires x == Last(g, ops[k].thread) <==> InOrder(threads, ops, x, threads + k)
    requires e.IsSeqCst() <==> Ended(threads, ops, threads + k) == SeqCst
    requires e.IsSeqCst() ==> (x in ScPred(g, ops[k].location) <==> InSeqCstOrder(threads, ops, x, threads + k))
    requires ops[k].Reading? ==> SourceLinked(threads, ops, k, g, e)
    ensures x in Preds(g, ops[k], e) <==> Directly(threads, ops, x, threads + k)
  {
    assert Op(threads, ops, threads + k) == ops[k];
  }

  /** The pairs into a new event are those of its operation. */
  lemma {:induction false} PredsDirectly(threads: nat, ops: seq<Operation>, k: nat, g: Graph, e: Event, x: nat)
    requires k < |ops| && Layout(g) && ScChain(g) && ops[k].thread < g.threads && x < threads + k
    requires AllMean(threads, ops, g.events, k) && e.EffectiveOrder() == Ended(threads, ops, threads + k)
    requires ops[k].Reading? ==> SourceLinked(threads, ops, k, g, e)
    ensures x in Preds(g, ops[k], e) <==> Directly(threads, ops, x, threads + k)
  {
    LastInOrder(threads, ops, k, g, x);
    if e.IsSeqCst() { LastSeqCst(threads, ops, k, g, x); }
    PredsMatch(threads, ops, k, g, e, x);
  }

  lemma {:induction false} MorePairs(threads: nat, ops: seq<Operation>, k: nat, preds: set<nat>)
    requires k < |ops|
    requires forall x: nat :: x < threads + k ==> (x in preds <==> Directly(threads, ops, x, threads + k))
    requires forall x :: x in preds ==> x < threads + k
    ensures DirectPairs(threads, ops, k + 1) == DirectPairs(threads, ops, k) + Into(preds, threads + k)
  {
  }

  lemma {:induction false} PredsEarlier(g: Graph, op: Operation, e: Event)
    requires Invariant(g) && op.thread < g.threads
    ensures forall x :: x in Preds(g, op, e) ==> x < |g.events|
  {
    assert Placed(g, op.thread, |g.perThread[op.thread]| - 1);
  }

  lemma {:induction false} AllDirectly(threads: nat, ops: seq<Operation>, k: nat, g: Graph, e: Event)
    requires k < |ops| && Invariant(g) && ops[k].thread < g.threads
    requires AllMean(threads, ops, g.events, k) && e.EffectiveOrder() == Ended(threads, ops, threads + k)
    requires ops[k].Reading? ==> SourceLinked(threads, ops, k, g, e)
    ensures DirectPairs(threads, ops, k + 1) == DirectPairs(threads, ops, k) + Into(Preds(g, ops[k], e), threads + k)
  {
    PredsEarlier(g, ops[k], e);
    forall x: nat | x < threads + k ensures x in Preds(g, ops[k], e) <==> Directly(threads, ops, x, threads + k) {
      PredsDirectly(threads, ops, k, g, e, x);
    }
    MorePairs(threads, ops, k, Preds(g, ops[k], e));
  }

  lemma {:induction false} RunPairs(threads: nat, graphs: seq<Graph>, ops: seq<Operation>, k: nat)
    requires IsRun(threads, graphs, ops) && k < |ops|
    ensures Invariant(graphs[k]) && ops[k].thread < graphs[k].threads
    ensures |graphs[k + 1].events| == |graphs[k].events| + 1
    ensures var id := |graphs[k].events|;
      HbPairs(graphs[k + 1]) == HbPairs(graphs[k]) + Into(Preds(graphs[k], ops[k], graphs[k + 1].events[id]), id)
  {
    RunKeeps(threads, graphs, ops, k);
    RunKeeps(threads, graphs, ops, k + 1);
    assert StepAt(graphs, ops, k);
    StepPairs(graphs[k], ops[k], graphs[k + 1]);
  }

  lemma {:induction false} RunSourceLinked(threads: nat, graphs: seq<Graph>, ops: seq<Operation>, k: nat)
    requires IsRun(threads, graphs, ops) && k < |ops| && ops[k].Reading?
    requires AllMean(threads, ops, graphs[k].events, k) && AllMean(threads, ops, graphs[k + 1].events, k + 1)
    ensures SourceLinked(threads, ops, k, graphs[k], graphs[k + 1].events[threads + k])
  {
    RunKeeps(threads, graphs, ops, k);
    RunKeeps(threads, graphs, ops, k + 1);
    assert StepAt(graphs, ops, k);
    SourceIsLinked(threads, ops, k, graphs[k], graphs[k + 1]);
  }

  lemma {:induction false} RunStepDirect(threads: nat, graphs: seq<Graph>, ops: seq<Operation>, k: nat)
    requires IsRun(threads, graphs, ops) && k < |ops| && HbPairs(graphs[k]) == DirectPairs(threads, ops, k)
    ensures HbPairs(graphs[k + 1]) == DirectPairs(threads, ops, k + 1)
  {
    RunMeans(threads, graphs, ops, k);
    RunMeans(threads, graphs, ops, k + 1);
    RunPairs(threads, graphs, ops, k);
    assert Means(threads, ops, graphs[k + 1].events, threads + k);
    if ops[k].Reading? { RunSourceLinked(threads, graphs, ops, k); }
    AllDirectly(threads, ops, k, graphs[k], graphs[k + 1].events[threads + k]);
  }

  /** The happens-before edges of a graph are the pairs of its operations. */
  lemma {:induction false} RunDirect(threads: nat, graphs: seq<Graph>, ops: seq<Operation>, k: nat)
    requires IsRun(threads, graphs, ops) && k < |graphs|
    ensures HbPairs(graphs[k]) == DirectPairs(threads, ops, k)
  {
    if k == 0 {
      assert HbPairs(graphs[0]) == {};
    } else {
      RunDirect(threads, graphs, ops, k - 1);
      RunStepDirect(threads, graphs, ops, k - 1);
    }
  }

  // ---- The laws ----------------------------------------------------------------------------------------------

  /** Clock inclusion is happens-before: in every run in one direction, and in both if every compare-exchange has two
      seq_cst orders or none. */
  lemma {:induction false} ClocksAreHappensBefore(threads: nat, graphs: seq<Graph>, ops: seq<Operation>, k: nat,
                                                  a: nat, b: nat)
    requires IsRun(threads, graphs, ops) && k < |graphs| && threads <= a < threads + k && b < threads + k && a != b
    ensures |graphs[k].events| == threads + k
    ensures HappensBefore(threads, ops, k, a, b) ==> Hb(graphs[k].events, a, b)
    ensures (forall j :: 0 <= j < k ==> Unmixed(ops[j])) ==>
              (Hb(graphs[k].events, a, b) <==> HappensBefore(threads, ops, k, a, b))
  {
    RunMeans(threads, graphs, ops, k);
    assert Means(threads, ops, graphs[k].events, a);
    RunDirect(threads, graphs, ops, k);
    RunClocks(threads, graphs, ops, k, a, b);
    if forall j :: 0 <= j < k ==> Unmixed(ops[j]) {
      RunExact(threads, graphs, ops, k, a, b);
    }
  }

  lemma {:induction false} SyncedPair(threads: nat, ops: seq<Operation>, k: nat, a: nat, b: nat)
    requires k <= |ops| && a < b < threads + k && threads <= b && Synced(threads, ops, a, b)
    ensures HappensBefore(threads, ops, k, a, b)
  {
    assert Directly(threads, ops, a, b);
    PlusEdge(DirectPairs(threads, ops, k), a, b);
  }

  /** A read that ends acquire, acq_rel or seq_cst happens after a source stored with release, acq_rel or seq_cst, in
      every later graph. */
  lemma {:induction false} AcquiresFromRelease(threads: nat, graphs: seq<Graph>, ops: seq<Operation>, r: nat, k: nat)
    requires IsRun(threads, graphs, ops) && k < |graphs| && threads <= r < threads + k && ops[r - threads].Reading?
    ensures var w, order := ops[r - threads].source, Ended(threads, ops, r);
      && |graphs[k].events| == threads + k && threads <= w < r && Wrote(threads, ops, w)
      && (&& (order == Acquire || order == AcqRel || order == SeqCst)
          && (var stored := ops[w - threads].order; stored == Release || stored == AcqRel || stored == SeqCst)
          ==> Hb(graphs[k].events, w, r))
  {
    RunMeans(threads, graphs, ops, k);
    assert Means(threads, ops, graphs[k].events, r);
    var w := ops[r - threads].source;
    if Acquires(Ended(threads, ops, r)) && Releases(ops[w - threads].order) {
      SyncedPair(threads, ops, k, w, r);
      ClocksAreHappensBefore(threads, graphs, ops, k, w, r);
    }
  }

  /** Only the operation before `r` in its thread leads into it. */
  lemma {:induction false} OnlyProgramOrder(threads: nat, ops: seq<Operation>, k: nat, p: nat, a: nat, r: nat)
    requires k <= |ops| && p < r < threads + k && threads <= r && InOrder(threads, ops, p, r)
    requires Ended(threads, ops, r) != SeqCst && forall x: nat :: x < r ==> !Synced(threads, ops, x, r)
    ensures HappensBefore(threads, ops, k, a, r) <==> a == p || HappensBefore(threads, ops, k, a, p)
  {
    var pairs := DirectPairs(threads, ops, k);
    assert Directly(threads, ops, p, r);
    PlusEdge(pairs, p, r);
    if HappensBefore(threads, ops, k, a, p) { PlusTrans(pairs, a, p, r); }
    if HappensBefore(threads, ops, k, a, r) {
      var c := PlusLast(pairs, a, r);
      assert Directly(threads, ops, c, r) && InOrder(threads, ops, c, r);
      assert !(c < p) && !(p < c);
    }
  }

  /** A read that ends neither acquire nor seq_cst, or whose source was not released, brings in nothing of its source:
      what happens before it is what happens before its predecessor in the thread, and that predecessor. */
  lemma {:induction false} RelaxedBringsNothing(threads: nat, graphs: seq<Graph>, ops: seq<Operation>, r: nat, k: nat,
                                                p: nat, a: nat)
    requires IsRun(threads, graphs, ops) && k < |graphs| && threads <= r < threads + k && ops[r - threads].Reading?
    requires forall j :: 0 <= j < k ==> Unmixed(ops[j])
    requires p < r && InOrder(threads, ops, p, r) && threads <= a < threads + k && a != r
    requires Ended(threads, ops, r) != SeqCst && threads <= ops[r - threads].source < threads + k
    requires var order, stored := Ended(threads, ops, r), Ended(threads, ops, ops[r - threads].source);
      order == Relaxed || order == Release || stored == Relaxed || stored == Acquire
    ensures |graphs[k].events| == threads + k
    ensures Hb(graphs[k].events, a, r) <==> a == p || Hb(graphs[k].events, a, p)
  {
    assert Op(threads, ops, r) == ops[r - threads];
    OnlyProgramOrder(threads, ops, k, p, a, r);
    ClocksAreHappensBefore(threads, graphs, ops, k, a, r);
    if a != p { ClocksAreHappensBefore(threads, graphs, ops, k, a, p); }
  }

  /** One acyclic order of the writes, the same for all pairs, agrees with happens-before: write before write, write
      before the source of a read, source of a read before write, and source before source. */
  lemma {:induction false} OperationsCoherent(threads: nat, graphs: seq<Graph>, ops: seq<Operation>, k: nat,
                                              a: nat, b: nat)
    requires IsRun(threads, graphs, ops) && k < |graphs| && threads <= a < threads + k && threads <= b < threads + k
    requires a != b && ops[a - threads].location == ops[b - threads].location
    requires HappensBefore(threads, ops, k, a, b)
    ensures var mo, opA, opB := ModOrder(graphs[k]), ops[a - threads], ops[b - threads];
      && Acyclic(mo)
      && (Wrote(threads, ops, a) && Wrote(threads, ops, b) ==> Plus(mo, a, b))
      && (Wrote(threads, ops, a) && opB.Reading? && opB.source != a ==> Plus(mo, a, opB.source))
      && (opA.Reading? && Wrote(threads, ops, b) ==> Plus(mo, opA.source, b))
      && (opA.Reading? && opB.Reading? && opA.source != opB.source ==> Plus(mo, opA.source, opB.source))
  {
    RunMeans(threads, graphs, ops, k);
    assert Means(threads, ops, graphs[k].events, a) && Means(threads, ops, graphs[k].events, b);
    ClocksAreHappensBefore(threads, graphs, ops, k, a, b);
    RunCoherent(threads, graphs, ops, k, a, b);
  }

  /** A seq_cst read from a seq_cst write reads the latest one of its location before it. */
  lemma {:induction false} SeqCstReadsLatest(threads: nat, graphs: seq<Graph>, ops: seq<Operation>, r: nat, w: nat)
    requires IsRun(threads, graphs, ops) && threads <= w < r < threads + |ops| && ops[r - threads].Reading?
    requires threads <= ops[r - threads].source < r && Ended(threads, ops, r) == SeqCst
    requires WroteSeqCst(threads, ops, ops[r - threads].source, ops[r - threads].location)
    requires WroteSeqCst(threads, ops, w, ops[r - threads].location)
    ensures w <= ops[r - threads].source
  {
    var k := |ops|;
    RunMeans(threads, graphs, ops, k);
    var source := ops[r - threads].source;
    assert Means(threads, ops, graphs[k].events, r) && Means(threads, ops, graphs[k].events, w);
    assert Means(threads, ops, graphs[k].events, source);
    RunReadsLatest(threads, graphs, ops, k, r, w);
  }

  /** A read-modify-write that wrote comes in this order after its source and before every write that directly followed
      the source when it was made. */
  lemma {:induction false} RmwFollows(threads: nat, graphs: seq<Graph>, ops: seq<Operation>, k: nat, b: nat)
    requires IsRun(threads, graphs, ops) && k < |ops| && ops[k].Reading? && Wrote(threads, ops, threads + k)
    ensures (ops[k].source, threads + k) in ModOrder(graphs[k + 1])
    ensures (ops[k].source, b) in ModOrder(graphs[k]) ==> (threads + k, b) in ModOrder(graphs[k + 1])
  {
    RunMeans(threads, graphs, ops, k);
    RunMeans(threads, graphs, ops, k + 1);
    assert Means(threads, ops, graphs[k + 1].events, threads + k);
    RunRmw(threads, graphs, ops, k, b);
  }
}

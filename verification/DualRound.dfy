/** A dual round: tasks run their wrapper between yields and buffer what they emit, and after every resumption the
    scheduler drains the buffers of all tasks into the history, in the order of a global sequence number. */
module DualRound {
  import opened Pairing
  import opened DualHistory

  // ---- The wrapper of a task -----------------------------------------------------------------------------

  /** Where a task stands. `early` awaiters want the request edge before they suspend; `emitted` says that it is out. */
  datatype Pc =
    | New(dual: bool, early: bool)
    | Plain
    | PlainDone
    | AwaitReady(early: bool)
    | Suspend(emitted: bool)
    | Waiting
    | Finish
    | Done

  function Start(pc: Pc): Pc
    requires pc.New?
  {
    if pc.dual then AwaitReady(pc.early) else Plain
  }

  predicate Returned(pc: Pc) { pc.PlainDone? || pc.Done? }

  /** A stretch of the wrapper between two points where it may yield, and what it emits. The choice is the answer
      of the awaiter: ready, suspended, woken. An ordinary task emits nothing. */
  function Advance(pc: Pc, choice: bool): (Pc, seq<Kind>) {
    match pc
    case AwaitReady(early) =>
      if choice then (Finish, [RequestResponse, FollowUpInvoke])
      else (Suspend(early), if early then [RequestResponse] else [])
    case Suspend(emitted) =>
      var request := if emitted then [] else [RequestResponse];
      if choice then (Waiting, request) else (Finish, request + [FollowUpInvoke])
    case Waiting => if choice then (Finish, [FollowUpInvoke]) else (Waiting, [])
    case Finish => (Done, [FollowUpResponse])
    case _ => (pc, [])
  }

  /** What a task has been through. */
  function Trace(pc: Pc): seq<Kind> {
    match pc
    case New(_, _) => []
    case Plain => [Invoke]
    case PlainDone => [Invoke, Response]
    case AwaitReady(_) => [RequestInvoke]
    case Suspend(emitted) => if emitted then [RequestInvoke, RequestResponse] else [RequestInvoke]
    case Waiting => [RequestInvoke, RequestResponse]
    case Finish => [RequestInvoke, RequestResponse, FollowUpInvoke]
    case Done => [RequestInvoke, RequestResponse, FollowUpInvoke, FollowUpResponse]
  }

  lemma TraceInOrder(pc: Pc)
    ensures Trace(pc) <= DUAL || Trace(pc) <= ORDINARY
  {
  }

  lemma AdvanceTrace(pc: Pc, choice: bool)
    ensures Trace(Advance(pc, choice).0) == Trace(pc) + Advance(pc, choice).1
    ensures forall i :: 0 <= i < |Advance(pc, choice).1| ==> Advance(pc, choice).1[i].IsEmitted()
  {
  }

  /** The wrapper through any number of stretches: where it ends, and everything it emits. */
  function Through(pc: Pc, choices: seq<bool>): (Pc, seq<Kind>) {
    if choices == [] then (pc, [])
    else
      var (pc', kinds) := Through(pc, choices[..|choices| - 1]);
      var (pc'', more) := Advance(pc', choices[|choices| - 1]);
      (pc'', kinds + more)
  }

  /** Whatever the awaiter answers, the wrapper emits a prefix of request response, follow-up invoke and follow-up
      response, and all of it exactly when it is done. */
  lemma {:induction false} WrapperEmits(early: bool, choices: seq<bool>)
    ensures var (pc, kinds) := Through(AwaitReady(early), choices);
      && [RequestInvoke] + kinds == Trace(pc) && [RequestInvoke] + kinds <= DUAL
      && ([RequestInvoke] + kinds == DUAL <==> pc.Done?) && !pc.New? && !pc.Plain? && !pc.PlainDone?
  {
    var (pc, kinds) := Through(AwaitReady(early), choices);
    if choices != [] {
      var before := choices[..|choices| - 1];
      WrapperEmits(early, before);
      var (pc', kinds') := Through(AwaitReady(early), before);
      AdvanceTrace(pc', choices[|choices| - 1]);
      assert [RequestInvoke] + kinds == [RequestInvoke] + kinds' + Advance(pc', choices[|choices| - 1]).1;
    }
    DualTrace(pc);
  }

  lemma DualTrace(pc: Pc)
    requires !pc.New? && !pc.Plain? && !pc.PlainDone?
    ensures Trace(pc) <= DUAL && (Trace(pc) == DUAL <==> pc.Done?)
  {
  }

  // ---- Turns ---------------------------------------------------------------------------------------------------

  /** A turn of the run loop: a task, what its awaiter answers, and whether an ordinary task returns. */
  type Turns = seq<(nat, seq<bool>, bool)>

  /** Where a turn takes a task that has not returned. */
  function TurnOf(pc: Pc, choices: seq<bool>, finished: bool): Pc {
    var ran := Through(if pc.New? then Start(pc) else pc, choices).0;
    if ran.Plain? && finished then PlainDone else ran
  }

  /** Where a schedule takes task `t`. Turns of a task that has returned are skipped. */
  function Ran(pc: Pc, schedule: Turns, t: nat): Pc {
    if schedule == [] then pc
    else
      var before, (task, choices, finished) := Ran(pc, schedule[..|schedule| - 1], t), schedule[|schedule| - 1];
      if task == t && !Returned(before) then TurnOf(before, choices, finished) else before
  }

  /** A start, a resumption and a response make up a turn. */
  lemma TurnTogether(pcs: map<nat, Pc>, pcs1: map<nat, Pc>, pcs2: map<nat, Pc>, pcs3: map<nat, Pc>, task: nat,
                     choices: seq<bool>, finished: bool)
    requires task in pcs && task in pcs1 && task in pcs2 && task in pcs3
    requires pcs1 == pcs[task := if pcs[task].New? then Start(pcs[task]) else pcs[task]]
    requires pcs2 == pcs1[task := Through(pcs1[task], choices).0] && pcs3 == pcs2[task := pcs3[task]]
    requires pcs3[task] == if pcs2[task].Plain? && finished then PlainDone else pcs2[task]
    ensures pcs3 == pcs[task := TurnOf(pcs[task], choices, finished)]
  {
  }

  /** Every task stands where the schedule takes it. */
  ghost predicate AllRan(before: map<nat, Pc>, after: map<nat, Pc>, schedule: Turns) {
    before.Keys == after.Keys && forall t :: t in after ==> after[t] == Ran(before[t], schedule, t)
  }

  lemma {:induction false} RanMore(before: map<nat, Pc>, pcs: map<nat, Pc>, schedule: Turns, i: nat)
    requires i < |schedule| && AllRan(before, pcs, schedule[..i])
    ensures var (task, choices, finished) := schedule[i];
      AllRan(before, if task in pcs && !Returned(pcs[task]) then pcs[task := TurnOf(pcs[task], choices, finished)]
                     else pcs, schedule[..i + 1])
  {
    assert schedule[..i + 1][..i] == schedule[..i];
  }

  ghost predicate HasTurn(schedule: Turns, t: nat) { exists i :: 0 <= i < |schedule| && schedule[i].0 == t }

  ghost predicate Finishes(schedule: Turns, t: nat) {
    exists i :: 0 <= i < |schedule| && schedule[i].0 == t && schedule[i].2
  }

  /** All answers that task `t` gets, one turn after another. */
  ghost function Answers(schedule: Turns, t: nat): seq<bool> {
    if schedule == [] then []
    else
      var (task, choices, _) := schedule[|schedule| - 1];
      Answers(schedule[..|schedule| - 1], t) + if task == t then choices else []
  }

  lemma {:induction false} ThroughConcat(pc: Pc, a: seq<bool>, b: seq<bool>)
    ensures Through(pc, a + b).0 == Through(Through(pc, a).0, b).0
  {
    if b == [] {
      assert a + b == a;
    } else {
      assert (a + b)[..|a + b| - 1] == a + b[..|b| - 1];
      ThroughConcat(pc, a, b[..|b| - 1]);
    }
  }

  lemma {:induction false} ThroughStays(pc: Pc, choices: seq<bool>)
    requires pc.Plain? || Returned(pc)
    ensures Through(pc, choices).0 == pc
  {
    if choices != [] { ThroughStays(pc, choices[..|choices| - 1]); }
  }

  lemma {:induction false} TurnAdded(schedule: Turns, t: nat)
    requires schedule != []
    ensures var before, last := schedule[..|schedule| - 1], schedule[|schedule| - 1];
      && (HasTurn(schedule, t) <==> HasTurn(before, t) || last.0 == t)
      && (Finishes(schedule, t) <==> Finishes(before, t) || (last.0 == t && last.2))
  {
    var before, n := schedule[..|schedule| - 1], |schedule| - 1;
    assert forall i :: 0 <= i < n ==> before[i] == schedule[i];
    if HasTurn(before, t) {
      var i :| 0 <= i < n && before[i].0 == t;
      assert schedule[i].0 == t;
    }
    if Finishes(before, t) {
      var i :| 0 <= i < n && before[i].0 == t && before[i].2;
      assert schedule[i].0 == t && schedule[i].2;
    }
  }

  /** A task has started exactly if it had a turn. An ordinary one has returned exactly if one of its turns finished it,
      and a dual one stands where all its answers together take its wrapper, however they were spread over turns. */
  lemma {:induction false} RanExactly(dual: bool, early: bool, schedule: Turns, t: nat)
    ensures var pc := Ran(New(dual, early), schedule, t);
      && (pc.New? <==> !HasTurn(schedule, t)) && (pc.New? ==> pc == New(dual, early) && Answers(schedule, t) == [])
      && (!dual && !pc.New? ==> pc == if Finishes(schedule, t) then PlainDone else Plain)
      && (pc.New? ==> !Finishes(schedule, t))
      && (dual && !pc.New? ==> pc == Through(AwaitReady(early), Answers(schedule, t)).0)
  {
    if schedule != [] {
      var before := schedule[..|schedule| - 1];
      var (task, choices, finished) := schedule[|schedule| - 1];
      RanExactly(dual, early, before, t);
      TurnAdded(schedule, t);
      if task == t {
        OneMoreTurn(dual, early, before, t, choices, finished);
      } else {
        assert Answers(before, t) + [] == Answers(before, t);
      }
    }
  }

  lemma {:induction false} OneMoreTurn(dual: bool, early: bool, before: Turns, t: nat, choices: seq<bool>,
                                       finished: bool)
    requires var pc := Ran(New(dual, early), before, t);
      && (pc.New? ==> pc == New(dual, early) && Answers(before, t) == [])
      && (!dual && !pc.New? ==> pc.Plain? || pc.PlainDone?)
      && (dual && !pc.New? ==> pc == Through(AwaitReady(early), Answers(before, t)).0)
    ensures var pc := Ran(New(dual, early), before, t);
      var pc' := if Returned(pc) then pc else TurnOf(pc, choices, finished);
      && !pc'.New? && (!dual ==> pc' == if pc.PlainDone? || finished then PlainDone else Plain)
      && (dual ==> pc' == Through(AwaitReady(early), Answers(before, t) + choices).0)
  {
    var pc := Ran(New(dual, early), before, t);
    if dual {
      ThroughConcat(AwaitReady(early), Answers(before, t), choices);
      WrapperEmits(early, Answers(before, t));
      WrapperEmits(early, Answers(before, t) + choices);
      if Returned(pc) { ThroughStays(pc, choices); }
    } else {
      ThroughStays(Plain, choices);
    }
  }

  // ---- Draining ----------------------------------------------------------------------------------------------

  /** An emitted event with its number. */
  datatype Record = Record(seqno: nat, task: nat, kind: Kind)

  ghost predicate Increasing(records: seq<Record>) {
    forall i, j :: 0 <= i < j < |records| ==> records[i].seqno < records[j].seqno
  }

  function Entries(records: seq<Record>): seq<Entry> {
    if records == [] then []
    else
      var last := records[|records| - 1];
      Entries(records[..|records| - 1]) + [Entry(last.task, last.kind)]
  }

  /** The part of a history that its tasks emitted. */
  ghost function Emitted(h: seq<Entry>): seq<Entry> {
    if h == [] then []
    else
      var last := h[|h| - 1];
      Emitted(h[..|h| - 1]) + if last.kind.IsEmitted() then [last] else []
  }

  lemma EmittedOne(h: seq<Entry>, e: Entry)
    ensures Emitted(h + [e]) == Emitted(h) + if e.kind.IsEmitted() then [e] else []
  {
    assert (h + [e])[..|h|] == h;
  }

  lemma {:induction false} EntriesConcat(a: seq<Record>, b: seq<Record>)
    ensures Entries(a + b) == Entries(a) + Entries(b)
  {
    if b == [] {
      assert a + b == a;
    } else {
      assert (a + b)[..|a + b| - 1] == a + b[..|b| - 1];
      EntriesConcat(a, b[..|b| - 1]);
    }
  }

  /** All entries are emitted ones. */
  ghost predicate AllEmitted(entries: seq<Entry>) {
    forall i :: 0 <= i < |entries| ==> entries[i].kind.IsEmitted()
  }

  lemma {:induction false} EmittedConcat(h: seq<Entry>, entries: seq<Entry>)
    requires AllEmitted(entries)
    ensures Emitted(h + entries) == Emitted(h) + entries
  {
    if entries == [] {
      assert h + entries == h;
    } else {
      var before, e := entries[..|entries| - 1], entries[|entries| - 1];
      EmittedConcat(h, before);
      EmittedOne(h + before, e);
      assert entries == before + [e];
      assert h + entries == h + before + [e];
    }
  }

  lemma {:induction false} EntriesEmitted(records: seq<Record>)
    requires forall i :: 0 <= i < |records| ==> records[i].kind.IsEmitted()
    ensures AllEmitted(Entries(records))
  {
    if records != [] { EntriesEmitted(records[..|records| - 1]); }
  }

  lemma {:induction false} EmittedEntries(h: seq<Entry>, records: seq<Record>)
    requires forall i :: 0 <= i < |records| ==> records[i].kind.IsEmitted()
    ensures Emitted(h + Entries(records)) == Emitted(h) + Entries(records)
  {
    EntriesEmitted(records);
    EmittedConcat(h, Entries(records));
  }

  /** The records of one task. */
  ghost function Own(records: seq<Record>, task: nat): seq<Record> {
    if records == [] then []
    else
      var last := records[|records| - 1];
      Own(records[..|records| - 1], task) + if last.task == task then [last] else []
  }

  lemma {:induction false} OwnConcat(a: seq<Record>, b: seq<Record>, task: nat)
    ensures Own(a + b, task) == Own(a, task) + Own(b, task)
  {
    if b == [] {
      assert a + b == a;
    } else {
      assert (a + b)[..|a + b| - 1] == a + b[..|b| - 1];
      OwnConcat(a, b[..|b| - 1], task);
    }
  }

  ghost function Shown(buffer: seq<Record>): seq<Kind> {
    if buffer == [] then [] else Shown(buffer[..|buffer| - 1]) + [buffer[|buffer| - 1].kind]
  }

  /** What a task shows in the history is its own records. */
  lemma {:induction false} OwnEntries(records: seq<Record>, task: nat)
    ensures Of(Entries(records), task) == Shown(Own(records, task))
  {
    if records != [] {
      var last := |records| - 1;
      OwnEntries(records[..last], task);
      OfOne(Entries(records[..last]), Entry(records[last].task, records[last].kind), task);
      if records[last].task == task {
        ShownOne(Own(records[..last], task), records[last]);
      } else {
        assert Own(records, task) == Own(records[..last], task);
      }
    }
  }

  lemma ShownOne(buffer: seq<Record>, r: Record)
    ensures Shown(buffer + [r]) == Shown(buffer) + [r.kind]
  {
    assert (buffer + [r])[..|buffer|] == buffer;
  }

  lemma OfOne(h: seq<Entry>, e: Entry, task: nat)
    ensures Of(h + [e], task) == Of(h, task) + if e.task == task then [e.kind] else []
  {
    assert (h + [e])[..|h|] == h;
  }

  lemma {:induction false} OwnAll(records: seq<Record>, task: nat, other: nat)
    requires forall i :: 0 <= i < |records| ==> records[i].task == task
    ensures Own(records, other) == if other == task then records else []
  {
    if records != [] {
      var last := |records| - 1;
      OwnAll(records[..last], task, other);
      assert records == records[..last] + [records[last]];
    }
  }

  /** Inserting a record where its number belongs leaves the order of the others alone. */
  lemma OwnInsert(a: seq<Record>, x: Record, b: seq<Record>, task: nat)
    requires forall k :: 0 <= k < |b| ==> b[k].seqno > x.seqno
    requires Increasing(Own(a + b, task) + if x.task == task then [x] else [])
    ensures Own(a + [x] + b, task) == Own(a + b, task) + if x.task == task then [x] else []
  {
    OwnConcat(a, b, task);
    OwnConcat(a + [x], b, task);
    OwnConcat(a, [x], task);
    assert [x][..0] == [] && Own([x][..0], task) == [];
    var all := Own(a + b, task) + [x];
    assert x.task == task && Own(b, task) != [] ==> all[|Own(a, task)|] == Own(b, task)[0] && all[|all| - 1] == x;
    if Own(b, task) != [] { OwnWithin(b, task, 0); }
  }

  lemma {:induction false} OwnWithin(records: seq<Record>, task: nat, i: nat)
    requires i < |Own(records, task)|
    ensures Own(records, task)[i] in records
  {
    var last := |records| - 1;
    if i < |Own(records[..last], task)| { OwnWithin(records[..last], task, i); }
  }

  ghost predicate Distinct(records: seq<Record>) {
    forall i, j :: 0 <= i < j < |records| ==> records[i].seqno != records[j].seqno
  }

  lemma OwnPrefix(records: seq<Record>, k: nat, task: nat)
    requires k <= |records| && Increasing(Own(records, task))
    ensures Increasing(Own(records[..k], task))
  {
    OwnConcat(records[..k], records[k..], task);
    assert records[..k] + records[k..] == records;
    var all := Own(records, task);
    assert forall i :: 0 <= i < |Own(records[..k], task)| ==> all[i] == Own(records[..k], task)[i];
  }

  /** Sorts by sequence number. Each task's records keep their order. */
  method SortBySeqno(records: seq<Record>) returns (sorted: seq<Record>)
    requires Distinct(records) && forall task: nat :: Increasing(Own(records, task))
    ensures Increasing(sorted) && |sorted| == |records|
    ensures forall task: nat :: Own(sorted, task) == Own(records, task)
  {
    sorted := [];
    for i := 0 to |records|
      invariant |sorted| == i && Increasing(sorted) && forall r :: r in sorted ==> r in records[..i]
      invariant forall task: nat :: Own(sorted, task) == Own(records[..i], task)
    {
      var x := records[i];
      var p := i;
      while p > 0 && sorted[p - 1].seqno > x.seqno
        invariant 0 <= p <= i && forall k :: p <= k < i ==> sorted[k].seqno > x.seqno
      {
        p := p - 1;
      }
      Inserted(records, i, sorted, p);
      sorted := sorted[..p] + [x] + sorted[p..];
    }
    assert records[..|records|] == records;
  }

  lemma {:induction false} Inserted(records: seq<Record>, i: nat, sorted: seq<Record>, p: nat)
    requires Distinct(records) && i < |records| && |sorted| == i && p <= i && Increasing(sorted)
    requires forall task: nat :: Increasing(Own(records, task))
    requires forall r :: r in sorted ==> r in records[..i]
    requires forall task: nat :: Own(sorted, task) == Own(records[..i], task)
    requires (forall k :: p <= k < i ==> sorted[k].seqno > records[i].seqno)
      && (p > 0 ==> sorted[p - 1].seqno <= records[i].seqno)
    ensures var sorted' := sorted[..p] + [records[i]] + sorted[p..];
      && Increasing(sorted') && (forall r :: r in sorted' ==> r in records[..i + 1])
      && forall task: nat :: Own(sorted', task) == Own(records[..i + 1], task)
  {
    var x := records[i];
    assert p > 0 ==> sorted[p - 1].seqno < x.seqno by { if p > 0 { Older(records, i, sorted[p - 1]); } }
    InsertedIncreasing(sorted, p, x);
    assert sorted[..p] + sorted[p..] == sorted && records[..i + 1] == records[..i] + [x];
    forall task: nat ensures Own(sorted[..p] + [x] + sorted[p..], task) == Own(records[..i + 1], task) {
      InsertedOwn(records, i, sorted, p, task);
    }
  }

  lemma Older(records: seq<Record>, i: nat, r: Record)
    requires Distinct(records) && i < |records| && r in records[..i]
    ensures r.seqno != records[i].seqno
  {
    var k :| 0 <= k < i && records[k] == r;
  }

  lemma {:induction false} InsertedIncreasing(sorted: seq<Record>, p: nat, x: Record)
    requires Increasing(sorted) && p <= |sorted| && (p > 0 ==> sorted[p - 1].seqno < x.seqno)
    requires forall k :: p <= k < |sorted| ==> sorted[k].seqno > x.seqno
    ensures Increasing(sorted[..p] + [x] + sorted[p..])
  {
  }

  lemma {:induction false} InsertedOwn(records: seq<Record>, i: nat, sorted: seq<Record>, p: nat, task: nat)
    requires i < |records| && p <= |sorted| && Increasing(Own(records, task))
      && Own(sorted, task) == Own(records[..i], task)
    requires forall k :: p <= k < |sorted| ==> sorted[k].seqno > records[i].seqno
    ensures Own(sorted[..p] + [records[i]] + sorted[p..], task) == Own(records[..i + 1], task)
  {
    assert sorted[..p] + sorted[p..] == sorted && records[..i + 1][..i] == records[..i];
    OwnPrefix(records, i + 1, task);
    OwnInsert(sorted[..p], records[i], sorted[p..], task);
  }

  /** A buffer holds records of its task, numbered upwards. */
  ghost predicate Upwards(buffer: seq<Record>, task: nat, low: nat, next: nat) {
    && (forall i :: 0 <= i < |buffer| ==>
          low <= buffer[i].seqno < next && buffer[i].task == task && buffer[i].kind.IsEmitted())
    && Increasing(buffer)
  }

  ghost predicate Apart(a: seq<Record>, b: seq<Record>) {
    forall i, j :: 0 <= i < |a| && 0 <= j < |b| ==> a[i].seqno != b[j].seqno
  }

  /** A task numbers what it emits upwards, from what was drained last, and no two tasks share a number. */
  ghost predicate Numbered(buffers: map<nat, seq<Record>>, low: nat, next: nat) {
    && (forall t: nat {:trigger Upwards(buffers[t], t, low, next)} :: t in buffers ==>
        Upwards(buffers[t], t, low, next))
    && (forall t: nat, u: nat {:trigger Apart(buffers[t], buffers[u])} :: t in buffers && u in buffers && t != u ==>
        Apart(buffers[t], buffers[u]))
  }

  lemma EmittedNumbered(buffers: map<nat, seq<Record>>, low: nat, next: nat, task: nat, kind: Kind)
    requires low <= next && Numbered(buffers, low, next) && task in buffers && kind.IsEmitted()
    ensures Numbered(buffers[task := buffers[task] + [Record(next, task, kind)]], low, next + 1)
  {
    var buffers' := buffers[task := buffers[task] + [Record(next, task, kind)]];
    forall t: nat | t in buffers' ensures Upwards(buffers'[t], t, low, next + 1) {
      assert Upwards(buffers[t], t, low, next);
    }
    forall t: nat, u: nat | t in buffers' && u in buffers' && t != u ensures Apart(buffers'[t], buffers'[u]) {
      assert Apart(buffers[t], buffers[u]) && Upwards(buffers[t], t, low, next) && Upwards(buffers[u], u, low, next);
    }
  }

  lemma EmptyNumbered(buffers: map<nat, seq<Record>>, low: nat, next: nat)
    requires forall t :: t in buffers ==> buffers[t] == []
    ensures Numbered(buffers, low, next)
  {
  }

  /** The records are those of the tasks in `done`. */
  ghost predicate Collected(records: seq<Record>, done: set<nat>, buffers: map<nat, seq<Record>>)
    requires done <= buffers.Keys
  {
    && Distinct(records)
    && (forall t: nat {:trigger Own(records, t)} :: Own(records, t) == if t in done then buffers[t] else [])
  }

  lemma {:induction false} CollectMore(records: seq<Record>, done: set<nat>, task: nat,
                                       buffers: map<nat, seq<Record>>, low: nat, next: nat)
    requires done <= buffers.Keys && task in buffers && task !in done
    requires Numbered(buffers, low, next) && Collected(records, done, buffers)
    ensures Collected(records + buffers[task], done + {task}, buffers)
  {
    var more := buffers[task];
    assert Upwards(more, task, low, next);
    forall t: nat ensures Own(records + more, t) == if t in done + {task} then buffers[t] else [] {
      OwnConcat(records, more, t);
      OwnAll(more, task, t);
    }
    assert Apart(records, more) by {
      forall i, j | 0 <= i < |records| && 0 <= j < |more| ensures records[i].seqno != more[j].seqno {
        OtherNumber(records, done, task, buffers, low, next, i, j);
      }
    }
    DistinctConcat(records, more);
  }

  lemma {:induction false} DistinctConcat(a: seq<Record>, b: seq<Record>)
    requires Distinct(a) && Distinct(b) && Apart(a, b)
    ensures Distinct(a + b)
  {
  }

  lemma OtherNumber(records: seq<Record>, done: set<nat>, task: nat, buffers: map<nat, seq<Record>>, low: nat,
                    next: nat, i: nat, j: nat)
    requires done <= buffers.Keys && task in buffers && task !in done
    requires Numbered(buffers, low, next) && Collected(records, done, buffers) && i < |records| && j < |buffers[task]|
    ensures records[i].seqno != buffers[task][j].seqno
  {
    var r := records[i];
    InOwn(records, i);
    var k :| 0 <= k < |Own(records, r.task)| && Own(records, r.task)[k] == r;
    assert Own(records, r.task) == buffers[r.task] && Apart(buffers[r.task], buffers[task]);
  }

  lemma OwnIncreasing(records: seq<Record>, buffers: map<nat, seq<Record>>, low: nat, next: nat)
    requires Numbered(buffers, low, next) && Collected(records, buffers.Keys, buffers)
    ensures forall t: nat :: Increasing(Own(records, t))
  {
    forall t: nat ensures Increasing(Own(records, t)) {
      assert t in buffers ==> Upwards(buffers[t], t, low, next);
    }
  }

  /** The log holds what has been drained, numbered below `low` in this order, and is what the history shows of it. */
  ghost predicate Logged(log: seq<Record>, low: nat, history: seq<Entry>) {
    Increasing(log) && (forall i :: 0 <= i < |log| ==> log[i].seqno < low) && Emitted(history) == Entries(log)
  }

  lemma {:induction false} DrainedWithin(sorted: seq<Record>, buffers: map<nat, seq<Record>>, low: nat, next: nat,
                                         i: nat)
    requires Numbered(buffers, low, next) && i < |sorted|
    requires forall t: nat {:trigger Own(sorted, t)} :: Own(sorted, t) == if t in buffers then buffers[t] else []
    ensures low <= sorted[i].seqno < next && sorted[i].kind.IsEmitted()
  {
    var t := sorted[i].task;
    InOwn(sorted, i);
    assert Own(sorted, t) == buffers[t] && Upwards(buffers[t], t, low, next);
  }

  /** What is drained later has higher numbers. */
  lemma {:induction false} LogGrows(log: seq<Record>, history: seq<Entry>, sorted: seq<Record>,
                                    buffers: map<nat, seq<Record>>,
                                    low: nat, next: nat)
    requires Logged(log, low, history) && Increasing(sorted) && Numbered(buffers, low, next) && low <= next
    requires forall t: nat {:trigger Own(sorted, t)} :: Own(sorted, t) == if t in buffers then buffers[t] else []
    ensures Logged(log + sorted, next, history + Entries(sorted))
  {
    forall i | 0 <= i < |sorted| ensures low <= sorted[i].seqno < next && sorted[i].kind.IsEmitted() {
      DrainedWithin(sorted, buffers, low, next, i);
    }
    EmittedEntries(history, sorted);
    EntriesConcat(log, sorted);
  }

  lemma {:induction false} InOwn(records: seq<Record>, i: nat)
    requires i < |records|
    ensures records[i] in Own(records, records[i].task)
  {
    if i < |records| - 1 { InOwn(records[..|records| - 1], i); }
  }

  /** A task has been through what its history and its buffer say. */
  ghost predicate InStep(h: seq<Entry>, pcs: map<nat, Pc>, buffers: map<nat, seq<Record>>, t: nat)
    requires buffers.Keys == pcs.Keys
  {
    if t in pcs then Of(h, t) + Shown(buffers[t]) == Trace(pcs[t]) else Of(h, t) == []
  }

  lemma AppendInStep(h: seq<Entry>, pcs: map<nat, Pc>, buffers: map<nat, seq<Record>>, task: nat, kind: Kind, pc: Pc,
                     t: nat)
    requires buffers.Keys == pcs.Keys && task in pcs && buffers[task] == [] && Trace(pc) == Trace(pcs[task]) + [kind]
    requires InStep(h, pcs, buffers, t)
    ensures InStep(h + [Entry(task, kind)], pcs[task := pc], buffers, t)
  {
    OfOne(h, Entry(task, kind), t);
    if t == task {
      assert Of(h, t) + [] == Of(h, t);
      assert Of(h + [Entry(task, kind)], t) + [] == Of(h + [Entry(task, kind)], t);
    } else {
      assert Of(h, t) + [] == Of(h, t);
    }
  }

  lemma EmitInStep(h: seq<Entry>, pcs: map<nat, Pc>, buffers: map<nat, seq<Record>>, pcs': map<nat, Pc>,
                   buffers': map<nat, seq<Record>>,
                   task: nat, kinds: seq<Kind>, t: nat)
    requires buffers.Keys == pcs.Keys == buffers'.Keys == pcs'.Keys && task in pcs && InStep(h, pcs, buffers, t)
    requires t != task && t in pcs ==> pcs'[t] == pcs[t] && buffers'[t] == buffers[t]
    requires Shown(buffers'[task]) == Shown(buffers[task]) + kinds && Trace(pcs'[task]) == Trace(pcs[task]) + kinds
    ensures InStep(h, pcs', buffers', t)
  {
    assert Of(h, task) + Shown(buffers[task]) + kinds == Of(h, task) + (Shown(buffers[task]) + kinds);
  }

  lemma DrainInStep(h: seq<Entry>, pcs: map<nat, Pc>, buffers: map<nat, seq<Record>>, empty: map<nat, seq<Record>>,
                    sorted: seq<Record>, t: nat)
    requires buffers.Keys == pcs.Keys == empty.Keys && InStep(h, pcs, buffers, t) && (t in empty ==> empty[t] == [])
    requires Own(sorted, t) == if t in buffers then buffers[t] else []
    ensures InStep(h + Entries(sorted), pcs, empty, t)
  {
    OfConcat(h, Entries(sorted), t);
    OwnEntries(sorted, t);
  }

  class Round {
    const tasks: seq<nat>    // of all threads, one thread after another
    var seqno: nat
    var pcs: map<nat, Pc>
    var buffers: map<nat, seq<Record>>
    var history: seq<Entry>

    // All records drained so far; later ones have numbers from `low` on.
    ghost var log: seq<Record>
    ghost var low: nat

    ghost predicate Scheduled(t: nat) { exists i :: 0 <= i < |tasks| && tasks[i] == t }

    /** Every task has been through what its history and its buffer say. */
    ghost predicate Valid()
      reads this
    {
      && (forall i, j :: 0 <= i < j < |tasks| ==> tasks[i] != tasks[j])
      && (forall i :: 0 <= i < |tasks| ==> tasks[i] in pcs)
      && (forall t {:trigger Scheduled(t)} :: t in pcs ==> Scheduled(t)) && buffers.Keys == pcs.Keys
      && low <= seqno && Numbered(buffers, low, seqno) && Logged(log, low, history)
      && (forall t: nat {:trigger InStep(history, pcs, buffers, t)} :: InStep(history, pcs, buffers, t))
    }

    ghost predicate Drained()
      reads this
    {
      forall t :: t in buffers ==> buffers[t] == []
    }

    constructor (tasks: seq<nat>, kinds: map<nat, Pc>)
      requires forall i, j :: 0 <= i < j < |tasks| ==> tasks[i] != tasks[j]
      requires forall t: nat :: t in tasks ==> t in kinds && kinds[t].New?
      ensures Valid() && Drained() && history == [] && this.tasks == tasks
      ensures pcs == map t | t in tasks :: kinds[t]
    {
      this.tasks := tasks;
      seqno := 0;
      pcs := map t | t in tasks :: kinds[t];
      buffers := map t | t in tasks :: [];
      history := [];
      log, low := [], 0;
    }

    method EmitDualEvent(task: nat, kind: Kind)
      requires task in buffers && low <= seqno && Numbered(buffers, low, seqno) && kind.IsEmitted()
      modifies `buffers, `seqno
      ensures low <= seqno && Numbered(buffers, low, seqno)
      ensures buffers == old(buffers)[task := old(buffers)[task] + [Record(old(seqno), task, kind)]]
    {
      EmittedNumbered(buffers, low, seqno, task, kind);
      buffers := buffers[task := buffers[task] + [Record(seqno, task, kind)]];
      seqno := seqno + 1;
    }

    /** Takes what every task emitted. */
    method CollectDrainedDualEvents() returns (drained: seq<Record>)
      requires Valid()
      modifies `buffers
      ensures buffers.Keys == old(buffers).Keys && Drained()
      ensures Collected(drained, old(buffers).Keys, old(buffers))
    {
      drained := [];
      ghost var done: set<nat> := {};
      for i := 0 to |tasks|
        invariant buffers.Keys == old(buffers).Keys && done <= buffers.Keys
        invariant forall k :: 0 <= k < |tasks| ==> (tasks[k] in done <==> k < i)
        invariant forall t :: t in buffers ==> buffers[t] == if t in done then [] else old(buffers)[t]
        invariant Collected(drained, done, old(buffers))
      {
        var task := tasks[i];
        CollectMore(drained, done, task, old(buffers), low, seqno);
        drained := drained + buffers[task];
        buffers := buffers[task := []];
        done := done + {task};
      }
      forall t | t in buffers ensures t in done {
        assert Scheduled(t);
      }
      assert done == old(buffers).Keys;
    }

    /** Appends what all tasks emitted, in the order of the sequence numbers. */
    method AppendDrainedDualEvents() returns (ghost batch: seq<Record>)
      requires Valid()
      modifies `buffers, `history, `log, `low
      ensures Valid() && Drained()
      ensures history == old(history) + Entries(batch) && log == old(log) + batch
    {
      var drained := CollectDrainedDualEvents();
      OwnIncreasing(drained, old(buffers), low, seqno);
      var sorted := SortBySeqno(drained);
      history := history + Entries(sorted);
      forall t: nat ensures InStep(history, pcs, buffers, t) {
        assert InStep(old(history), pcs, old(buffers), t);
        DrainInStep(old(history), pcs, old(buffers), buffers, sorted, t);
      }
      batch := sorted;
      LogGrows(log, old(history), sorted, old(buffers), low, seqno);
      log, low := log + sorted, seqno;
      EmptyNumbered(buffers, low, seqno);
    }

    method EmitAll(task: nat, kinds: seq<Kind>)
      requires task in buffers && low <= seqno && Numbered(buffers, low, seqno)
      requires forall i :: 0 <= i < |kinds| ==> kinds[i].IsEmitted()
      modifies `buffers, `seqno
      ensures low <= seqno && Numbered(buffers, low, seqno) && task in buffers
        && buffers == old(buffers)[task := buffers[task]]
      ensures Shown(buffers[task]) == Shown(old(buffers)[task]) + kinds
    {
      for i := 0 to |kinds|
        invariant low <= seqno && Numbered(buffers, low, seqno) && task in buffers
          && buffers == old(buffers)[task := buffers[task]]
        invariant Shown(buffers[task]) == Shown(old(buffers)[task]) + kinds[..i]
      {
        ShownOne(buffers[task], Record(seqno, task, kinds[i]));
        EmitDualEvent(task, kinds[i]);
      }
    }

    method Stretch(task: nat, choice: bool)
      requires Valid() && task in pcs
      modifies `pcs, `buffers, `seqno
      ensures Valid() && pcs == old(pcs)[task := Advance(old(pcs[task]), choice).0]
    {
      ghost var before, buffered := pcs, buffers;
      var (pc, kinds) := Advance(pcs[task], choice);
      AdvanceTrace(before[task], choice);
      EmitAll(task, kinds);
      pcs := pcs[task := pc];
      forall t: nat ensures InStep(history, pcs, buffers, t) {
        assert InStep(history, before, buffered, t);
        EmitInStep(history, before, buffered, pcs, buffers, task, kinds, t);
      }
    }

    /** Runs a task from one yield to the next, through any number of stretches of its wrapper. */
    method Resume(task: nat, choices: seq<bool>)
      requires Valid() && task in pcs && !pcs[task].New?
      modifies `pcs, `buffers, `seqno
      ensures Valid() && task in pcs && pcs == old(pcs)[task := Through(old(pcs[task]), choices).0] && !pcs[task].New?
    {
      assert pcs[task := pcs[task]] == pcs;
      for i := 0 to |choices|
        invariant Valid() && task in pcs && pcs == old(pcs)[task := Through(old(pcs[task]), choices[..i]).0]
          && !pcs[task].New?
      {
        assert choices[..i + 1][..i] == choices[..i];
        Stretch(task, choices[i]);
      }
      assert choices[..|choices|] == choices;
    }

    /** One turn of the run loop. A task is new the first time it is scheduled; `finished` says whether an ordinary
        task returned. */
    method Turn(task: nat, choices: seq<bool>, finished: bool)
      requires Valid() && Drained() && task in pcs && !Returned(pcs[task])
      modifies this
      ensures Valid() && Drained() && WellFormed(history) && old(history) <= history && old(log) <= log
      ensures pcs == old(pcs)[task := TurnOf(old(pcs[task]), choices, finished)]
    {
      ghost var pcs0 := pcs;
      AppendDualStartEvent(task);
      ghost var pcs1 := pcs;
      Continue(task, choices);
      ghost var pcs2 := pcs;
      AppendResponse(task, finished);
      TurnTogether(pcs0, pcs1, pcs2, pcs, task, choices, finished);
      AllWellFormed();
    }

    /** Resumes a task and appends what has been emitted. */
    method Continue(task: nat, choices: seq<bool>)
      requires Valid() && task in pcs && !pcs[task].New?
      modifies this
      ensures Valid() && Drained() && old(history) <= history && old(log) <= log
      ensures pcs == old(pcs)[task := Through(old(pcs[task]), choices).0] && !pcs[task].New?
    {
      Resume(task, choices);
      ghost var batch := AppendDrainedDualEvents();
    }

    method AppendResponse(task: nat, finished: bool)
      requires Valid() && Drained() && task in pcs
      modifies `history, `pcs
      ensures Valid() && old(history) <= history && task in pcs && pcs == old(pcs)[task := pcs[task]]
      ensures pcs[task] == if old(pcs[task]).Plain? && finished then PlainDone else old(pcs[task])
    {
      if pcs[task].Plain? && finished {
        Append(task, Response, PlainDone);
      }
    }

    /** The run loop, on any schedule. Whatever stops it, every task's events are in order, every response is paired,
        and what the tasks emitted stands in the history in the order of the global sequence number. */
    method RunRound(schedule: Turns)
      requires Valid() && Drained()
      modifies this
      ensures Valid() && Drained() && WellFormed(history) && forall tags :: Tagged(history, tags) ==> AllPaired(tags)
      ensures Emitted(history) == Entries(log) && Increasing(log)
      ensures old(history) <= history && old(log) <= log
      ensures AllRan(old(pcs), pcs, schedule) && forall t :: t in pcs ==> Of(history, t) == Trace(pcs[t])
    {
      for i := 0 to |schedule|
        invariant Valid() && Drained() && old(history) <= history && old(log) <= log
        invariant AllRan(old(pcs), pcs, schedule[..i])
      {
        RanMore(old(pcs), pcs, schedule, i);
        var (task, choices, finished) := schedule[i];
        if task in pcs && !Returned(pcs[task]) {
          Turn(task, choices, finished);
        }
      }
      assert schedule[..|schedule|] == schedule;
      AllTraced();
      AllWellFormed();
      forall tags | Tagged(history, tags) ensures AllPaired(tags) {
        AllResponsesPaired(history, tags);
      }
    }

    method AppendDualStartEvent(task: nat)
      requires Valid() && Drained() && task in pcs
      modifies `history, `pcs
      ensures Valid() && task in pcs && pcs == old(pcs)[task := if old(pcs[task]).New? then Start(old(pcs[task]))
                                                        else old(pcs[task])]
      ensures old(history) <= history
    {
      if pcs[task].New? {
        Append(task, if pcs[task].dual then RequestInvoke else Invoke, Start(pcs[task]));
      }
    }

    method Append(task: nat, kind: Kind, pc: Pc)
      requires Valid() && Drained() && task in pcs && Trace(pc) == Trace(pcs[task]) + [kind] && !kind.IsEmitted()
      modifies `history, `pcs
      ensures Valid() && history == old(history) + [Entry(task, kind)] && pcs == old(pcs)[task := pc]
    {
      ghost var h, before := history, pcs;
      EmittedOne(history, Entry(task, kind));
      history := history + [Entry(task, kind)];
      pcs := pcs[task := pc];
      forall t: nat ensures InStep(history, pcs, buffers, t) {
        assert InStep(h, before, buffers, t);
        AppendInStep(h, before, buffers, task, kind, pc, t);
      }
    }

    lemma AllTraced()
      requires Valid() && Drained()
      ensures forall t :: t in pcs ==> Of(history, t) == Trace(pcs[t])
    {
      forall t | t in pcs ensures Of(history, t) == Trace(pcs[t]) {
        assert InStep(history, pcs, buffers, t);
      }
    }

    /** Between turns, every task's events are a prefix of its events in order. */
    lemma AllWellFormed()
      requires Valid() && Drained()
      ensures WellFormed(history)
    {
      forall t: nat ensures Of(history, t) <= DUAL || Of(history, t) <= ORDINARY {
        assert InStep(history, pcs, buffers, t);
        if t in pcs { TraceInOrder(pcs[t]); }
      }
    }
  }
}

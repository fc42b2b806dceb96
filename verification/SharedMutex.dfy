/** The runtime's reader/writer lock. Its operations run without preemption from one yield to the next; a thread
    yields only when it waits on a condition variable, or on the inner mutex. */
module SharedMutex {
  import opened Options
  import BlockManager

  datatype Pc =
    | Idle
    | MutexWait(resume: Pc)         // yielded because the inner mutex was taken
    | EnteredWait(writing: bool)    // waits on write_entered_, or was notified and has yet to run
    | ReadersWait                   // a registered writer that waits on no_readers_
    | Writing
    | Reading

  /** `entered` and `noReaders` are the queues of the two condition variables, `blocked` that of the inner mutex. */
  datatype State = State(locked: bool, readers: int, writer: Option<nat>, entered: seq<nat>, noReaders: seq<nat>,
                         blocked: seq<nat>, threads: map<nat, Pc>)

  datatype Call = Lock | LockShared

  function At(s: State, id: nat, pc: Pc): State { s.(threads := s.threads[id := pc]) }

  /** A thread can be resumed unless some queue holds it. */
  predicate Runs(s: State, id: nat) {
    && id in s.threads
    && match s.threads[id]
       case EnteredWait(_) => id !in s.entered
       case ReadersWait => id !in s.noReaders
       case MutexWait(_) => id !in s.blocked
       case _ => true
  }

  /** Giving up the inner mutex unblocks everybody who waits for it. */
  function Release(s: State): State {
    s.(locked := false, blocked := BlockManager.Unblocked(s.blocked, |s.blocked|))
  }

  /** From acquiring the inner mutex to the next yield or return. */
  function Segment(s: State, id: nat, pc: Pc): State
    decreases pc
  {
    if s.locked then At(s, id, MutexWait(pc)).(blocked := BlockManager.Blocked(s.blocked, id))
    else
      var s1 := s.(locked := true);
      match pc
      case EnteredWait(true) =>
        if s.writer.Some? then WaitEntered(s1, id, pc) else AwaitReaders(s1.(writer := Some(id)), id)
      case EnteredWait(false) =>
        if s.writer.Some? then WaitEntered(s1, id, pc) else Release(At(s1, id, Reading).(readers := s.readers + 1))
      case ReadersWait => AwaitReaders(s1, id)
      case Writing => Unlock(s1, id)
      case Reading => Unlock(s1, id)
      case MutexWait(pc') => Segment(s, id, pc')
      case Idle => s
  }

  /** Waiting on a condition variable gives up the inner mutex before it yields. */
  function WaitEntered(s: State, id: nat, pc: Pc): State {
    At(Release(s), id, pc).(entered := BlockManager.Blocked(s.entered, id))
  }

  function AwaitReaders(s: State, id: nat): State {
    if s.readers > 0 then At(Release(s), id, ReadersWait).(noReaders := BlockManager.Blocked(s.noReaders, id))
    else Release(At(s, id, Writing))
  }

  /** One unlock for both kinds of holders. */
  function Unlock(s: State, id: nat): State {
    if s.writer == Some(id) then Release(At(s, id, Idle).(writer := None,
                                                          entered := BlockManager.Unblocked(s.entered, |s.entered|)))
    else
      var s1 := At(s, id, Idle).(readers := s.readers - 1);
      Release(if s1.writer.Some? && s1.readers == 0 then s1.(noReaders := BlockManager.Unblocked(s1.noReaders, 1))
              else s1)
  }

  /** A thread that holds nothing starts `call`; one that holds the lock unlocks; a waiting one goes on. */
  function Next(s: State, id: nat, call: Call): State
    requires Runs(s, id)
  {
    var pc := s.threads[id];
    Segment(s, id, if pc.Idle? then EnteredWait(call.Lock?) else pc)
  }

  // ---- Invariant -----------------------------------------------------------------------------------------

  ghost function ReadingThreads(s: State): set<nat> {
    set id | id in s.threads && s.threads[id].Reading?
  }

  predicate Registered(pc: Pc) { pc.ReadersWait? || pc.Writing? }

  ghost predicate Inv(s: State) {
    && !s.locked && s.blocked == [] && (forall id :: id in s.threads ==> !s.threads[id].MutexWait?)
    && s.readers == |ReadingThreads(s)|
    && (s.writer.Some? ==> s.writer.value in s.threads && Registered(s.threads[s.writer.value]))
    && (forall id :: id in s.threads && Registered(s.threads[id]) ==> s.writer == Some(id))
    && (forall id :: id in s.threads && s.threads[id].Writing? ==> s.readers == 0)
    && (s.entered != [] ==> s.writer.Some?)
    && (forall i :: 0 <= i < |s.entered| ==> s.entered[i] in s.threads && s.threads[s.entered[i]].EnteredWait?)
    && (s.noReaders == [] || (s.readers > 0 && s.writer.Some? && s.noReaders == [s.writer.value]
                              && s.threads[s.writer.value].ReadersWait?))
  }

  function Initial(threads: set<nat>): State {
    State(false, 0, None, [], [], [], map t | t in threads :: Idle)
  }

  lemma InitialInv(threads: set<nat>)
    ensures Inv(Initial(threads))
  {
    assert ReadingThreads(Initial(threads)) == {};
  }

  /** A thread that waits or holds as a writer leaves the readers alone. */
  lemma SameReaders(s: State, s': State, id: nat)
    requires id in s.threads && id in s'.threads && s'.threads == s.threads[id := s'.threads[id]]
    requires !s.threads[id].Reading?
    ensures ReadingThreads(s') == if s'.threads[id].Reading? then ReadingThreads(s) + {id} else ReadingThreads(s)
  {
  }

  predicate Entering(s: State, id: nat, writing: bool) {
    Runs(s, id) && (s.threads[id].Idle? || s.threads[id] == EnteredWait(writing))
  }

  lemma EnterWaits(s: State, id: nat, writing: bool)
    requires Inv(s) && Entering(s, id, writing) && s.writer.Some?
    ensures Inv(WaitEntered(s.(locked := true), id, EnteredWait(writing)))
  {
    SameReaders(s, WaitEntered(s.(locked := true), id, EnteredWait(writing)), id);
  }

  lemma EnterReads(s: State, id: nat)
    requires Inv(s) && Entering(s, id, false) && s.writer.None?
    ensures Inv(Release(At(s, id, Reading).(readers := s.readers + 1)))
  {
    SameReaders(s, Release(At(s, id, Reading).(readers := s.readers + 1)), id);
  }

  lemma EnterWrites(s: State, id: nat)
    requires Inv(s) && Entering(s, id, true) && s.writer.None?
    ensures Inv(AwaitReaders(s.(locked := true, writer := Some(id)), id))
  {
    SameReaders(s, AwaitReaders(s.(locked := true, writer := Some(id)), id), id);
  }

  /** Where an entering caller gets to in one segment. */
  lemma {:induction false} EnterSegment(s: State, id: nat, writing: bool)
    requires !s.locked
    ensures s.writer.Some? ==>
      Segment(s, id, EnteredWait(writing)) == WaitEntered(s.(locked := true), id, EnteredWait(writing))
    ensures s.writer.None? && writing ==>
      Segment(s, id, EnteredWait(writing)) == AwaitReaders(s.(locked := true, writer := Some(id)), id)
    ensures s.writer.None? && !writing ==>
      Segment(s, id, EnteredWait(writing)) == Release(At(s, id, Reading).(readers := s.readers + 1))
  {
  }

  lemma {:induction false} EnterInv(s: State, id: nat, writing: bool)
    requires Inv(s) && Entering(s, id, writing)
    ensures Inv(Segment(s, id, EnteredWait(writing)))
  {
    EnterSegment(s, id, writing);
    if s.writer.Some? {
      EnterWaits(s, id, writing);
    } else if writing {
      EnterWrites(s, id);
    } else {
      EnterReads(s, id);
    }
  }

  lemma WriterInv(s: State, id: nat)
    requires Inv(s) && Runs(s, id) && Registered(s.threads[id])
    ensures Inv(Segment(s, id, s.threads[id]))
  {
    assert ReadingThreads(Segment(s, id, s.threads[id])) == ReadingThreads(s);
  }

  lemma ReaderInv(s: State, id: nat)
    requires Inv(s) && Runs(s, id) && s.threads[id].Reading?
    ensures Inv(Segment(s, id, Reading))
  {
    var s' := Segment(s, id, Reading);
    assert id in ReadingThreads(s) && ReadingThreads(s') == ReadingThreads(s) - {id};
    assert s.readers > 0 && s'.readers == s.readers - 1 && s'.threads == s.threads[id := Idle];
    assert s'.entered == s.entered && s'.writer == s.writer;
  }

  lemma StepInv(s: State, id: nat, call: Call)
    requires Inv(s) && Runs(s, id)
    ensures Inv(Next(s, id, call))
  {
    match s.threads[id]
    case Idle => EnterInv(s, id, call.Lock?);
    case EnteredWait(writing) => EnterInv(s, id, writing);
    case Reading => ReaderInv(s, id);
    case _ => WriterInv(s, id);
  }

  // ---- Runs ------------------------------------------------------------------------------------------------

  ghost predicate IsRun(states: seq<State>, threads: set<nat>) {
    && |states| > 0 && states[0] == Initial(threads)
    && forall k :: 0 <= k < |states| - 1 ==> Steps(states[k], states[k + 1])
  }

  ghost predicate Steps(s: State, s': State) {
    exists id: nat, call :: Runs(s, id) && s' == Next(s, id, call)
  }

  lemma {:induction false} RunInv(states: seq<State>, threads: set<nat>, k: nat)
    requires IsRun(states, threads) && k < |states|
    ensures Inv(states[k])
  {
    if k == 0 {
      InitialInv(threads);
    } else {
      RunInv(states, threads, k - 1);
      assert Steps(states[k - 1], states[k]);
      var id: nat, call :| Runs(states[k - 1], id) && states[k] == Next(states[k - 1], id, call);
      StepInv(states[k - 1], id, call);
    }
  }

  /** In every reachable state a writer excludes readers and other writers, the count is that of the reading
      threads, waiters imply what they wait for, and the inner mutex is free. */
  lemma RunSafe(states: seq<State>, threads: set<nat>, k: nat)
    requires IsRun(states, threads) && k < |states|
    ensures var s := states[k];
      && (forall a, b :: a in s.threads && b in s.threads && s.threads[a].Writing? && a != b ==>
            !s.threads[b].Writing? && !s.threads[b].Reading?)
      && s.readers == |ReadingThreads(s)|
      && (s.entered != [] ==> s.writer.Some?)
      && (s.noReaders != [] ==> s.writer.Some? && s.noReaders == [s.writer.value] && s.readers > 0)
      && !s.locked && s.blocked == []
  {
    RunInv(states, threads, k);
    var s := states[k];
    forall a, b | a in s.threads && b in s.threads && s.threads[a].Writing? && a != b
      ensures !s.threads[b].Writing? && !s.threads[b].Reading?
    {
      NoReader(s, b);
    }
  }

  lemma NoReader(s: State, b: nat)
    requires b in s.threads
    ensures |ReadingThreads(s)| == 0 ==> !s.threads[b].Reading?
  {
    assert s.threads[b].Reading? ==> b in ReadingThreads(s);
  }

  /** No deadlock: while a thread is blocked, another one holds the lock or is about to go on. */
  lemma NoDeadlock(s: State, id: nat) returns (other: nat)
    requires Inv(s) && id in s.threads && !Runs(s, id)
    ensures other != id && Runs(s, other) && !s.threads[other].Idle?
  {
    var w := s.writer.value;
    if w in s.noReaders {
      assert ReadingThreads(s) != {};
      other :| other in ReadingThreads(s);
    } else {
      other := w;
    }
  }

  // ---- Who gets in -------------------------------------------------------------------------------------------

  ghost predicate NoWriter(s: State) {
    forall t :: t in s.threads ==> !Registered(s.threads[t])
  }

  /** A caller gets in exactly as far as the others let it: a reader reads if no thread writes or is the next to write;
      a writer is next under the same condition, and writes at once if no thread reads either. */
  lemma {:induction false} GetsIn(s: State, id: nat, call: Call)
    requires Inv(s) && Runs(s, id) && (s.threads[id].Idle? || s.threads[id].EnteredWait?)
    ensures var pc := Next(s, id, call).threads[id];
      var writing := if s.threads[id].Idle? then call.Lock? else s.threads[id].writing;
      && (NoWriter(s) <==> if writing then Registered(pc) else pc.Reading?)
      && (writing ==> (pc.Writing? <==> NoWriter(s) && ReadingThreads(s) == {}))
      && (!NoWriter(s) ==> pc == EnteredWait(writing) && id in Next(s, id, call).entered)
  {
    assert s.writer.None? <==> NoWriter(s);
    assert s.readers > 0 <==> ReadingThreads(s) != {};
  }

  /** Who holds the lock leaves it. A writer wakes everybody who waits to enter, the last reader the waiting writer. */
  lemma {:induction false} Leaves(s: State, id: nat, call: Call)
    requires Inv(s) && Runs(s, id) && (s.threads[id].Writing? || s.threads[id].Reading?)
    ensures var s' := Next(s, id, call);
      && s'.threads == s.threads[id := Idle]
      && (s.threads[id].Writing? ==> NoWriter(s') && forall t :: t in s'.threads ==> Runs(s', t))
      && (ReadingThreads(s) == {id} ==> forall t :: t in s'.threads && s'.threads[t].ReadersWait? ==> Runs(s', t))
  {
    StepInv(s, id, call);
    if ReadingThreads(s) == {id} {
      assert s.readers == 1;
    }
  }
}

/** The futex mutex, for any number of threads and any interleaving of their atomic steps. */
module FutexMutex {
  import BlockManager

  /** Where a thread stands. The slow path of a lock is `TryContended` to `Asleep`. */
  datatype Pc =
    | Idle
    | TryFast        // about to exchange 0 for 1
    | TryContended   // about to exchange 0 for 2
    | Mark           // about to exchange 1 for 2
    | Check          // about to look for 2
    | Wait           // about to call the futex with 2
    | Asleep         // put to sleep; blocked while in the queue
    | Holding
    | StoreZero      // unlocking, after a decrement that did not find 1
    | Wake           // unlocking, about to wake one sleeper

  datatype State = State(word: int, queue: seq<nat>, threads: map<nat, Pc>)

  function At(s: State, id: nat, pc: Pc): State { s.(threads := s.threads[id := pc]) }

  /** A thread can move unless the futex queue holds it. */
  predicate Runs(s: State, id: nat) {
    id in s.threads && !(s.threads[id].Asleep? && id in s.queue)
  }

  /** One atomic step. An idle thread starts to lock, a holder starts to unlock. */
  function Next(s: State, id: nat): State
    requires Runs(s, id)
  {
    match s.threads[id]
    case Idle => At(s, id, TryFast)
    case TryFast => if s.word == 0 then At(s, id, Holding).(word := 1) else At(s, id, TryContended)
    case TryContended => if s.word == 0 then At(s, id, Holding).(word := 2) else At(s, id, Mark)
    case Mark =>
      At(s, id, if s.word > 0 then Check else TryContended).(word := if s.word == 1 then 2 else s.word)
    case Check => At(s, id, if s.word == 2 then Wait else TryContended)
    case Wait => if s.word == 2 then At(s, id, Asleep).(queue := BlockManager.Blocked(s.queue, id))
      else At(s, id, Check)
    case Asleep => At(s, id, Check)
    case Holding => At(s, id, if s.word != 1 then StoreZero else Idle).(word := s.word - 1)
    case StoreZero => At(s, id, Wake).(word := 0)
    case Wake => At(s, id, Idle).(queue := BlockManager.Unblocked(s.queue, 1))
  }

  // ---- Invariant ----------------------------------------------------------------------------------------

  /** An unlocking thread holds the mutex until it stores zero. */
  predicate Holds(pc: Pc) { pc.Holding? || pc.StoreZero? }

  predicate Unlocking(pc: Pc) { pc.StoreZero? || pc.Wake? }

  predicate Slow(pc: Pc) { pc.TryContended? || pc.Mark? || pc.Check? || pc.Wait? || pc.Asleep? }

  ghost predicate Held(s: State) {
    exists id :: id in s.threads && Holds(s.threads[id])
  }

  /** Somebody will look after the sleepers: a holder who finds 2, an unlocker on the way to its wake, or a thread
      awake in the slow path. */
  ghost predicate Attended(s: State) {
    || (s.word == 2 && exists id :: id in s.threads && s.threads[id].Holding?)
    || (exists id :: id in s.threads && Unlocking(s.threads[id]))
    || (exists id :: Runs(s, id) && Slow(s.threads[id]))
  }

  ghost predicate Inv(s: State) {
    && 0 <= s.word <= 2 && (s.word == 0 <==> !Held(s))
    && (forall a, b :: a in s.threads && b in s.threads && Holds(s.threads[a]) && Holds(s.threads[b]) ==> a == b)
    && (forall i :: 0 <= i < |s.queue| ==> s.queue[i] in s.threads && s.threads[s.queue[i]].Asleep?)
    && (forall i, j :: 0 <= i < j < |s.queue| ==> s.queue[i] != s.queue[j])
    && (s.queue != [] ==> Attended(s))
  }

  function Initial(threads: set<nat>): State { State(0, [], map t | t in threads :: Idle) }

  /** Nobody but a holder steps from or to the mutex. */
  lemma HeldStep(s: State, id: nat)
    requires Inv(s) && Runs(s, id)
    ensures var s' := Next(s, id);
      && 0 <= s'.word <= 2 && (s'.word == 0 <==> !Held(s'))
      && (forall a, b :: a in s'.threads && b in s'.threads && Holds(s'.threads[a]) && Holds(s'.threads[b]) ==> a == b)
  {
    var s' := Next(s, id);
    if Holds(s'.threads[id]) {
      assert Held(s');
    } else {
      forall a | a in s'.threads && Holds(s'.threads[a])
        ensures a != id && Holds(s.threads[a]) && Held(s) && !Holds(s.threads[id])
      {
      }
      if Held(s) && !Holds(s.threads[id]) {
        var a :| a in s.threads && Holds(s.threads[a]);
        assert Holds(s'.threads[a]);
      }
    }
  }

  lemma QueueStep(s: State, id: nat)
    requires Inv(s) && Runs(s, id)
    ensures var s' := Next(s, id);
      && (forall i :: 0 <= i < |s'.queue| ==> s'.queue[i] in s'.threads && s'.threads[s'.queue[i]].Asleep?)
      && (forall i, j :: 0 <= i < j < |s'.queue| ==> s'.queue[i] != s'.queue[j])
  {
    assert id !in s.queue;
    var s' := Next(s, id);
    assert s'.queue == s.queue || s'.queue == s.queue + [id] || (s.queue != [] && s'.queue == s.queue[1..]);
    forall i | 0 <= i < |s'.queue| ensures s'.queue[i] in s'.threads && s'.threads[s'.queue[i]].Asleep? {
    }
  }

  /** Whoever attends to the sleepers does so until someone else does. */
  lemma AttendedStep(s: State, id: nat)
    requires Inv(s) && Runs(s, id) && Next(s, id).queue != []
    ensures Attended(Next(s, id))
  {
    var s' := Next(s, id);
    var pc := s.threads[id];
    if pc.Wake? {
      assert Runs(s', s.queue[0]) && Slow(s'.threads[s.queue[0]]) by { assert s.queue[0] !in s.queue[1..]; }
    } else if pc.Wait? && s.word == 2 {
      var a :| a in s.threads && Holds(s.threads[a]);
      assert s'.threads[a] == s.threads[a];
    } else if Slow(s'.threads[id]) || Unlocking(s'.threads[id]) {
      assert Runs(s', id);
    } else {
      OthersAttend(s, id);
    }
  }

  lemma OthersAttend(s: State, id: nat)
    requires Inv(s) && Runs(s, id) && Attended(s)
    requires var pc := s.threads[id]; pc.Idle? || pc.TryFast? || pc.Holding? || pc.TryContended?
    requires var pc' := Next(s, id).threads[id]; !Slow(pc') && !Unlocking(pc')
    ensures Attended(Next(s, id))
  {
    var s' := Next(s, id);
    if s'.word == 2 && s'.threads[id].Holding? {
    } else if a :| a in s.threads && Unlocking(s.threads[a]) {
      assert Unlocking(s'.threads[a]);
    } else if a :| Runs(s, a) && Slow(s.threads[a]) {
      assert a != id && Runs(s', a) && Slow(s'.threads[a]);
    } else {
      var a :| a in s.threads && s.threads[a].Holding?;
      assert s.word == 2 && s'.threads[a].Holding?;
    }
  }

  lemma StepInv(s: State, id: nat)
    requires Inv(s) && Runs(s, id)
    ensures Inv(Next(s, id))
  {
    HeldStep(s, id);
    QueueStep(s, id);
    if Next(s, id).queue != [] { AttendedStep(s, id); }
  }

  // ---- Runs -------------------------------------------------------------------------------------------------

  ghost predicate IsRun(states: seq<State>, threads: set<nat>) {
    && |states| > 0 && states[0] == Initial(threads)
    && forall k :: 0 <= k < |states| - 1 ==> Steps(states[k], states[k + 1])
  }

  ghost predicate Steps(s: State, s': State) {
    exists id: nat :: Runs(s, id) && s' == Next(s, id)
  }

  lemma {:induction false} RunInv(states: seq<State>, threads: set<nat>, k: nat)
    requires IsRun(states, threads) && k < |states|
    ensures Inv(states[k])
  {
    if k > 0 {
      RunInv(states, threads, k - 1);
      assert Steps(states[k - 1], states[k]);
      var id: nat :| Runs(states[k - 1], id) && states[k] == Next(states[k - 1], id);
      StepInv(states[k - 1], id);
    }
  }

  /** In every reachable state at most one thread holds the mutex, the word is 0 exactly when none does, and no
      wake-up is lost. */
  lemma RunSafe(states: seq<State>, threads: set<nat>, k: nat)
    requires IsRun(states, threads) && k < |states|
    ensures var s := states[k];
      && (forall a, b :: a in s.threads && b in s.threads && Holds(s.threads[a]) && Holds(s.threads[b]) ==> a == b)
      && (s.word == 0 <==> forall a :: a in s.threads ==> !Holds(s.threads[a]))
      && ((exists id :: id in s.threads && !Runs(s, id)) ==> Attended(s))
  {
    RunInv(states, threads, k);
  }

  /** A sleeping thread means that some other thread can move, and is not merely idle or about to lock. */
  lemma NoLostWakeup(s: State, sleeper: nat) returns (other: nat)
    requires Inv(s) && sleeper in s.threads && !Runs(s, sleeper)
    ensures other != sleeper && Runs(s, other) && !s.threads[other].Idle? && !s.threads[other].TryFast?
  {
    assert Attended(s);
    if a :| a in s.threads && Unlocking(s.threads[a]) {
      other := a;
    } else if a :| Runs(s, a) && Slow(s.threads[a]) {
      other := a;
    } else {
      other :| other in s.threads && s.threads[other].Holding?;
    }
  }

  // ---- Undisturbed locking -----------------------------------------------------------------------------------

  /** The thread takes `n` steps and nobody else moves. */
  ghost function Alone(s: State, id: nat, n: nat): State
    requires Runs(s, id)
    decreases n
  {
    if n == 0 then s else if !Runs(Next(s, id), id) then Next(s, id) else Alone(Next(s, id), id, n - 1)
  }

  /** The steps a locking thread is away from its next attempt while nobody holds the mutex. */
  function Away(pc: Pc): nat {
    match pc
    case TryFast => 0
    case TryContended => 0
    case Idle => 1
    case Mark => 1
    case Check => 1
    case _ => 2
  }

  /** A locking thread that is not asleep takes a mutex nobody holds, after a few steps of its own from wherever it
      stands. The word is 2 afterwards if it had been on the slow path, where others may sleep. */
  lemma {:induction false} FreeIsTaken(s: State, id: nat)
    requires Inv(s) && Runs(s, id) && !Held(s) && !s.threads[id].Wake?
    ensures var s' := Alone(s, id, Away(s.threads[id]) + 1);
      && s'.threads == s.threads[id := Holding] && s'.queue == s.queue
      && s'.word == if Slow(s.threads[id]) then 2 else 1
    decreases Away(s.threads[id])
  {
    assert s.word == 0;
    var pc, s' := s.threads[id], Next(s, id);
    assert pc.Holding? || pc.StoreZero? ==> Holds(pc);
    if Away(pc) > 0 {
      assert s' == At(s, id, s'.threads[id]) && Away(s'.threads[id]) == Away(pc) - 1;
      StepInv(s, id);
      FreeIsTaken(s', id);
      assert s'.threads[id := Holding] == s.threads[id := Holding];
    } else {
      assert Alone(s, id, 1) == s';
    }
  }

  /** An undisturbed lock and unlock of a free mutex restores the state. */
  lemma {:induction false} LockUnlock(s: State, id: nat)
    requires Inv(s) && id in s.threads && s.threads[id].Idle? && !Held(s)
    ensures Runs(s, id) && Alone(s, id, 3) == s
  {
    var a, b := Next(s, id), Next(Next(s, id), id);
    assert s.word == 0 && a == At(s, id, TryFast) && b == At(a, id, Holding).(word := 1);
    assert Next(b, id) == s by {
      assert b.threads[id := Idle] == s.threads;
    }
    assert Alone(b, id, 1) == s;
  }
}

/** The generation-ticket bounded queue, for any number of threads and any interleaving of their atomic steps. */
module MpmcQueue {
  import opened Bits

  /** Where a thread stands. `h` and `t` are loaded counters, `k` is a ticket won by compare-exchange. */
  datatype Pc =
    | Idle
    | PushLoad(v: int)
    | PushGen(v: int, h: nat)
    | PushCas(v: int, h: nat)
    | PushWrite(v: int, k: nat)
    | PushPublish(v: int, k: nat)
    | PopLoad
    | PopGen(t: nat)
    | PopCas(t: nat)
    | PopRead(k: nat)
    | PopRelease(k: nat, ret: int)

  /** The queue, its threads, and what happened: the value of every push ticket, the tickets whose push is
      complete, and what every completed pop returned. */
  datatype State = State(head: nat, tail: nat, gens: seq<nat>, vals: seq<int>, threads: map<nat, Pc>,
                         pushed: seq<int>, stored: set<nat>, popped: map<nat, int>)

  /** What a thread does next. A weak compare-exchange may fail although it could succeed. */
  datatype Move = StartPush(v: int) | StartPop | Go(spurious: bool)

  predicate Shaped(s: State) {
    |s.gens| >= 2 && IsPow2(|s.gens|) && |s.vals| == |s.gens|
  }

  function Slot(s: State, k: nat): (i: nat)
    requires Shaped(s)
    ensures i < |s.gens|
  {
    AndMask(k, |s.gens|);
    ModRange(k, |s.gens|);
    And(k, |s.gens| - 1)
  }

  /** One atomic step of thread `id`. */
  function Next(s: State, id: nat, move: Move): State
    requires Shaped(s) && id in s.threads && |s.pushed| == s.head
  {
    match s.threads[id]
    case Idle =>
      (match move
       case StartPush(v) => At(s, id, PushLoad(v))
       case StartPop => At(s, id, PopLoad)
       case Go(_) => s)
    case PushLoad(v) => At(s, id, PushGen(v, s.head))
    case PushGen(v, h) =>
      var gen := s.gens[Slot(s, h)];
      At(s, id, if gen == h then PushCas(v, h) else if gen < h then Idle else PushLoad(v))
    case PushCas(v, h) =>
      if s.head == h && move != Go(true) then At(s, id, PushWrite(v, h)).(head := h + 1, pushed := s.pushed + [v])
      else At(s, id, PushLoad(v))
    case PushWrite(v, k) => At(s, id, PushPublish(v, k)).(vals := s.vals[Slot(s, k) := v])
    case PushPublish(v, k) =>
      At(s, id, Idle).(gens := s.gens[Slot(s, k) := s.gens[Slot(s, k)] + 1], stored := s.stored + {k})
    case PopLoad => At(s, id, PopGen(s.tail))
    case PopGen(t) =>
      var gen := s.gens[Slot(s, t)];
      At(s, id, if gen == t + 1 then PopCas(t) else if gen < t + 1 then Idle else PopLoad)
    case PopCas(t) =>
      if s.tail == t && move != Go(true) then At(s, id, PopRead(t)).(tail := t + 1) else At(s, id, PopLoad)
    case PopRead(k) => At(s, id, PopRelease(k, s.vals[Slot(s, k)]))
    case PopRelease(k, ret) =>
      At(s, id, Idle).(gens := s.gens[Slot(s, k) := s.gens[Slot(s, k)] + |s.gens| - 1], popped := s.popped[k := ret])
  }

  function At(s: State, id: nat, pc: Pc): State { s.(threads := s.threads[id := pc]) }

  // ---- Invariant ---------------------------------------------------------------------------------------

  predicate Pushing(pc: Pc) { pc.PushWrite? || pc.PushPublish? }

  predicate Popping(pc: Pc) { pc.PopRead? || pc.PopRelease? }

  predicate Owns(s: State, pc: Pc, i: nat)
    requires Shaped(s)
  {
    (Pushing(pc) || Popping(pc)) && Slot(s, pc.k) == i
  }

  ghost predicate Owned(s: State, i: nat)
    requires Shaped(s)
  {
    exists id :: id in s.threads && Owns(s, s.threads[id], i)
  }

  /** A slot nobody owns waits for the push of ticket `gens[i]`, or holds the value of ticket `gens[i] - 1`. */
  ghost predicate Resting(s: State, i: nat)
    requires Shaped(s) && i < |s.gens|
  {
    var gen := s.gens[i];
    || (Slot(s, gen) == i && s.head <= gen < s.tail + |s.gens|)
    || (gen > 0 && Slot(s, gen - 1) == i && s.tail <= gen - 1 < s.head && gen - 1 < |s.pushed|
        && s.vals[i] == s.pushed[gen - 1] && gen - 1 in s.stored)
  }

  ghost predicate ThreadOk(s: State, pc: Pc)
    requires Shaped(s)
  {
    match pc
    case PushGen(_, h) => h <= s.head
    case PushCas(_, h) => h <= s.head && (h == s.head ==> s.gens[Slot(s, h)] == h)
    case PushWrite(v, k) =>
      s.gens[Slot(s, k)] == k && s.tail <= k < s.head && k < |s.pushed| && v == s.pushed[k] && k !in s.stored
    case PushPublish(v, k) =>
      && s.gens[Slot(s, k)] == k && s.tail <= k < s.head && k < |s.pushed| && v == s.pushed[k] && k !in s.stored
      && s.vals[Slot(s, k)] == v
    case PopGen(t) => t <= s.tail
    case PopCas(t) => t <= s.tail && (t == s.tail ==> s.gens[Slot(s, t)] == t + 1)
    case PopRead(k) =>
      && s.gens[Slot(s, k)] == k + 1 && k < s.tail && s.head <= k + |s.gens| && k < |s.pushed|
      && s.vals[Slot(s, k)] == s.pushed[k] && k !in s.popped
    case PopRelease(k, ret) =>
      s.gens[Slot(s, k)] == k + 1 && k < s.tail && s.head <= k + |s.gens| && k < |s.pushed| && ret == s.pushed[k]
        && k !in s.popped
    case _ => true
  }

  ghost predicate ThreadsOk(s: State)
    requires Shaped(s)
  {
    forall a :: a in s.threads ==> ThreadOk(s, s.threads[a])
  }

  /** At most one thread owns a slot. */
  ghost predicate Exclusive(s: State)
    requires Shaped(s)
  {
    forall a, b, i: nat ::
      a in s.threads && b in s.threads && Owns(s, s.threads[a], i) && Owns(s, s.threads[b], i) ==>
        a == b
  }

  ghost predicate Inv(s: State) {
    && Shaped(s) && |s.pushed| == s.head && s.tail <= s.head <= s.tail + |s.gens|
    && ThreadsOk(s)
    && (forall i: nat :: i < |s.gens| && !Owned(s, i) ==> Resting(s, i))
    && Exclusive(s)
    && (forall k :: k in s.popped ==> 0 <= k < s.tail && s.popped[k] == s.pushed[k])
    && (forall k :: k in s.stored ==> k < s.head)
  }

  function Initial(size: nat, threads: set<nat>): State {
    State(0, 0, seq(size, (i: nat) => i), seq(size, _ => 0), map t | t in threads :: Idle, [], {}, map[])
  }

  lemma InitialInv(size: nat, threads: set<nat>)
    requires size >= 2 && IsPow2(size)
    ensures Inv(Initial(size, threads))
  {
    var s := Initial(size, threads);
    forall i: nat | i < size ensures Resting(s, i) {
      AndMask(i, size);
    }
  }

  // ---- Tickets of a slot ---------------------------------------------------------------------------------

  lemma NextSlot(s: State, k: nat)
    requires Shaped(s)
    ensures Slot(s, k) != Slot(s, k + 1) && Slot(s, k + |s.gens|) == Slot(s, k)
  {
    AndMask(k, |s.gens|);
    AndMask(k + 1, |s.gens|);
    AndMask(k + |s.gens|, |s.gens|);
    ModNext(k, |s.gens|);
  }

  lemma SameSlot(s: State, a: nat, b: nat)
    requires Shaped(s) && Slot(s, a) == Slot(s, b)
    ensures a < b ==> a + |s.gens| <= b
    ensures b < a ==> b + |s.gens| <= a
  {
    AndMask(a, |s.gens|);
    AndMask(b, |s.gens|);
    if a < b { ModApart(a, b, |s.gens|); }
    if b < a { ModApart(b, a, |s.gens|); }
  }

  // ---- Steps -------------------------------------------------------------------------------------------------

  predicate Holder(pc: Pc) { Pushing(pc) || Popping(pc) }

  /** A step that touches nothing shared and neither takes nor gives up a slot. */
  lemma Quiet(s: State, id: nat, pc: Pc)
    requires Inv(s) && id in s.threads && !Holder(s.threads[id]) && !Holder(pc) && ThreadOk(s, pc)
    ensures Inv(At(s, id, pc))
  {
    var s' := At(s, id, pc);
    forall i: nat | i < |s.gens| && !Owned(s', i) ensures Resting(s', i) {
      SameOwners(s, s', id, i);
    }
    StaysExclusive(s, s', id);
  }

  /** Slots stay exclusive when a thread keeps, or gives up, what it owns. */
  lemma StaysExclusive(s: State, s': State, id: nat)
    requires Shaped(s) && Shaped(s') && |s.gens| == |s'.gens| && id in s.threads && Exclusive(s)
    requires id in s'.threads && s'.threads == s.threads[id := s'.threads[id]]
    requires forall i: nat :: Owns(s', s'.threads[id], i) ==> Owns(s, s.threads[id], i)
    ensures Exclusive(s')
  {
    forall a, b, i: nat | a in s'.threads && b in s'.threads && Owns(s', s'.threads[a], i) && Owns(s', s'.threads[b], i)
      ensures a == b
    {
      assert Owns(s, s.threads[a], i) && Owns(s, s.threads[b], i);
    }
  }

  /** A thread keeps the slots it owns if others only gain or lose slots. */
  lemma SameOwners(s: State, s': State, id: nat, i: nat)
    requires Shaped(s) && Shaped(s') && |s.gens| == |s'.gens| && id in s.threads && id in s'.threads
    requires s'.threads == s.threads[id := s'.threads[id]]
    requires Owns(s, s.threads[id], i) ==> Owns(s', s'.threads[id], i)
    ensures Owned(s, i) ==> Owned(s', i)
  {
    if Owned(s, i) {
      var a :| a in s.threads && Owns(s, s.threads[a], i);
      assert a in s'.threads && Owns(s', s'.threads[a], i);
    }
  }

  /** The slot of the ticket at `head`, when it waits for that ticket, has no owner, and no pop is a whole turn
      behind. */
  lemma PushSlotFree(s: State)
    requires Inv(s) && s.gens[Slot(s, s.head)] == s.head
    ensures !Owned(s, Slot(s, s.head)) && s.head < s.tail + |s.gens|
    ensures forall a :: a in s.threads && Popping(s.threads[a]) ==> s.head < s.threads[a].k + |s.gens|
  {
    var i := Slot(s, s.head);
    forall a | a in s.threads && Holder(s.threads[a])
      ensures !Owns(s, s.threads[a], i) && (Popping(s.threads[a]) ==> s.head < s.threads[a].k + |s.gens|)
    {
      assert ThreadOk(s, s.threads[a]);
      NextSlot(s, s.threads[a].k);
    }
    assert Resting(s, i);
  }

  /** The slot of the ticket at `tail`, when it holds that ticket's value, has no owner, and that push is complete. */
  lemma PopSlotFree(s: State)
    requires Inv(s) && s.gens[Slot(s, s.tail)] == s.tail + 1
    ensures !Owned(s, Slot(s, s.tail)) && s.tail < s.head && s.vals[Slot(s, s.tail)] == s.pushed[s.tail]
      && s.tail in s.stored
    ensures forall a :: a in s.threads && Pushing(s.threads[a]) ==> s.tail < s.threads[a].k
  {
    var i := Slot(s, s.tail);
    NextSlot(s, s.tail);
    forall a | a in s.threads && Holder(s.threads[a])
      ensures !Owns(s, s.threads[a], i) && (Pushing(s.threads[a]) ==> s.tail < s.threads[a].k)
    {
      assert ThreadOk(s, s.threads[a]);
    }
    assert Resting(s, i);
  }

  /** A thread that takes a slot without an owner keeps slots exclusive, and those without an owner at rest. */
  lemma TakeSlot(s: State, s': State, id: nat, i: nat)
    requires Inv(s) && id in s.threads && !Holder(s.threads[id]) && id in s'.threads
      && s'.threads == s.threads[id := s'.threads[id]]
    requires Shaped(s') && s'.gens == s.gens && s'.vals == s.vals && s.pushed <= s'.pushed && s'.stored == s.stored
    requires i < |s.gens| && !Owned(s, i) && Owns(s', s'.threads[id], i)
    requires forall j: nat :: j < |s.gens| && j != i && Resting(s, j) ==> Resting(s', j)
    ensures Exclusive(s') && forall j: nat :: j < |s.gens| && !Owned(s', j) ==> Resting(s', j)
  {
    forall j: nat | j < |s.gens| && !Owned(s', j) ensures Resting(s', j) {
      SameOwners(s, s', id, j);
    }
    forall a, b, j: nat | a in s'.threads && b in s'.threads && Owns(s', s'.threads[a], j) && Owns(s', s'.threads[b], j)
      ensures a == b
    {
      assert a != id ==> Owned(s, j);
      assert b != id ==> Owned(s, j);
    }
  }

  lemma PushClaims(s: State, id: nat)
    requires Inv(s) && id in s.threads && s.threads[id].PushCas? && s.threads[id].h == s.head
    ensures Inv(Next(s, id, Go(false)))
  {
    var s', i := Next(s, id, Go(false)), Slot(s, s.head);
    assert ThreadOk(s, s.threads[id]);
    PushSlotFree(s);
    assert ThreadsOk(s') by { PushClaimThreads(s, id); }
    forall j: nat | j < |s.gens| && j != i && Resting(s, j) ensures Resting(s', j) {
    }
    TakeSlot(s, s', id, i);
  }

  lemma PushClaimThreads(s: State, id: nat)
    requires Inv(s) && id in s.threads && s.threads[id].PushCas? && s.threads[id].h == s.head
      && s.gens[Slot(s, s.head)] == s.head
    ensures Shaped(Next(s, id, Go(false))) && ThreadsOk(Next(s, id, Go(false)))
  {
    var s' := Next(s, id, Go(false));
    PushSlotFree(s);
    forall a | a in s'.threads ensures ThreadOk(s', s'.threads[a]) {
      if a != id {
        assert ThreadOk(s, s.threads[a]);
      } else {
        assert s.head !in s.stored;
      }
    }
  }

  lemma PopClaims(s: State, id: nat)
    requires Inv(s) && id in s.threads && s.threads[id].PopCas? && s.threads[id].t == s.tail
    ensures Inv(Next(s, id, Go(false)))
  {
    var s', i := Next(s, id, Go(false)), Slot(s, s.tail);
    assert ThreadOk(s, s.threads[id]);
    PopSlotFree(s);
    assert ThreadsOk(s') by { PopClaimThreads(s, id); }
    forall j: nat | j < |s.gens| && j != i && Resting(s, j) ensures Resting(s', j) {
      PopLeaves(s, s', j);
    }
    TakeSlot(s, s', id, i);
  }

  lemma PopLeaves(s: State, s': State, j: nat)
    requires Shaped(s) && Shaped(s') && s' == s.(threads := s'.threads, tail := s.tail + 1)
    requires j < |s.gens| && j != Slot(s, s.tail) && Resting(s, j)
    ensures Resting(s', j)
  {
  }

  lemma PopClaimThreads(s: State, id: nat)
    requires Inv(s) && id in s.threads && s.threads[id].PopCas? && s.threads[id].t == s.tail
      && s.gens[Slot(s, s.tail)] == s.tail + 1
    ensures Shaped(Next(s, id, Go(false))) && ThreadsOk(Next(s, id, Go(false)))
  {
    var s' := Next(s, id, Go(false));
    PopSlotFree(s);
    forall a | a in s'.threads ensures ThreadOk(s', s'.threads[a]) {
      if a != id {
        assert ThreadOk(s, s.threads[a]);
      }
    }
  }

  /** The slots of other holders are not those of `id`. */
  lemma OthersElsewhere(s: State, id: nat, a: nat)
    requires Inv(s) && id in s.threads && a in s.threads && a != id && Holder(s.threads[id]) && Holder(s.threads[a])
    ensures Slot(s, s.threads[a].k) != Slot(s, s.threads[id].k)
  {
    var i := Slot(s, s.threads[id].k);
    assert Owns(s, s.threads[id], i);
    assert !Owns(s, s.threads[a], i);
  }

  /** A holder may change its slot's value, and how far it has come. */
  lemma Works(s: State, id: nat, pc: Pc, val: int)
    requires Inv(s) && id in s.threads && Holder(s.threads[id]) && Holder(pc) && pc.k == s.threads[id].k
    requires var s' := At(s, id, pc).(vals := s.vals[Slot(s, pc.k) := val]); ThreadOk(s', pc)
    ensures Inv(At(s, id, pc).(vals := s.vals[Slot(s, pc.k) := val]))
  {
    var s', i := At(s, id, pc).(vals := s.vals[Slot(s, pc.k) := val]), Slot(s, pc.k);
    assert ThreadsOk(s') by { WorkThreads(s, id, pc, val); }
    forall j: nat | j < |s.gens| && !Owned(s', j) ensures Resting(s', j) {
      SameOwners(s, s', id, j);
      assert Owns(s', s'.threads[id], i);
      assert Resting(s, j);
    }
    StaysExclusive(s, s', id);
  }

  lemma WorkThreads(s: State, id: nat, pc: Pc, val: int)
    requires Inv(s) && id in s.threads && Holder(s.threads[id]) && Holder(pc) && pc.k == s.threads[id].k
    requires var s' := At(s, id, pc).(vals := s.vals[Slot(s, pc.k) := val]); ThreadOk(s', pc)
    ensures ThreadsOk(At(s, id, pc).(vals := s.vals[Slot(s, pc.k) := val]))
  {
    var s' := At(s, id, pc).(vals := s.vals[Slot(s, pc.k) := val]);
    forall a | a in s'.threads ensures ThreadOk(s', s'.threads[a]) {
      if a != id {
        assert ThreadOk(s, s.threads[a]);
        if Holder(s.threads[a]) { OthersElsewhere(s, id, a); }
      }
    }
  }

  /** A completed push leaves the value of its ticket in the slot. */
  lemma Publishes(s: State, id: nat)
    requires Inv(s) && id in s.threads && s.threads[id].PushPublish?
    ensures Inv(Next(s, id, Go(false)))
  {
    var k, s' := s.threads[id].k, Next(s, id, Go(false));
    assert ThreadOk(s, s.threads[id]);
    assert ThreadsOk(s') by { PublishThreads(s, id); }
    GiveUpSlot(s, s', id);
    StaysExclusive(s, s', id);
  }

  lemma PublishThreads(s: State, id: nat)
    requires Inv(s) && id in s.threads && s.threads[id].PushPublish?
    ensures Shaped(Next(s, id, Go(false))) && ThreadsOk(Next(s, id, Go(false)))
  {
    var s' := Next(s, id, Go(false));
    assert ThreadOk(s, s.threads[id]);
    forall a | a in s'.threads ensures ThreadOk(s', s'.threads[a]) {
      if a != id {
        assert ThreadOk(s, s.threads[a]);
        if Holder(s.threads[a]) { OthersElsewhere(s, id, a); }
        if s.threads[a].PopCas? { NextSlot(s, s.threads[a].t); }
      }
    }
  }

  /** A thread that leaves its slot at rest leaves every slot without an owner at rest. */
  lemma GiveUpSlot(s: State, s': State, id: nat)
    requires Inv(s) && id in s.threads && Holder(s.threads[id]) && id in s'.threads
      && s'.threads == s.threads[id := s'.threads[id]]
    requires Shaped(s') && |s'.gens| == |s.gens| && s'.head == s.head && s'.tail == s.tail && s'.pushed == s.pushed
    requires s.stored <= s'.stored && Resting(s', Slot(s, s.threads[id].k))
    requires forall j: nat :: j < |s.gens| && j != Slot(s, s.threads[id].k) ==>
      s'.gens[j] == s.gens[j] && s'.vals[j] == s.vals[j]
    ensures forall j: nat :: j < |s.gens| && !Owned(s', j) ==> Resting(s', j)
  {
    forall j: nat | j < |s.gens| && !Owned(s', j) ensures Resting(s', j) {
      if j != Slot(s, s.threads[id].k) {
        SameOwners(s, s', id, j);
        assert Resting(s, j);
      }
    }
  }

  /** A completed pop leaves the slot to the push one turn later. */
  lemma Releases(s: State, id: nat)
    requires Inv(s) && id in s.threads && s.threads[id].PopRelease?
    ensures Inv(Next(s, id, Go(false)))
  {
    var k, s' := s.threads[id].k, Next(s, id, Go(false));
    assert ThreadOk(s, s.threads[id]);
    assert ThreadsOk(s') by { ReleaseThreads(s, id); }
    NextSlot(s, k);
    GiveUpSlot(s, s', id);
    StaysExclusive(s, s', id);
  }

  lemma ReleaseThreads(s: State, id: nat)
    requires Inv(s) && id in s.threads && s.threads[id].PopRelease?
    ensures Shaped(Next(s, id, Go(false))) && ThreadsOk(Next(s, id, Go(false)))
  {
    var s' := Next(s, id, Go(false));
    forall a | a in s'.threads ensures ThreadOk(s', s'.threads[a]) {
      if a != id { ReleaseOther(s, s', id, a); }
    }
  }

  lemma ReleaseOther(s: State, s': State, id: nat, a: nat)
    requires Inv(s) && id in s.threads && s.threads[id].PopRelease? && a in s.threads && a != id
    requires var k := s.threads[id].k;
      && Shaped(s') && s'.gens == s.gens[Slot(s, k) := k + |s.gens|] && s'.vals == s.vals && s'.pushed == s.pushed
      && s'.head == s.head && s'.tail == s.tail && s'.stored == s.stored && s'.popped == s.popped[k := s.pushed[k]]
    ensures ThreadOk(s', s.threads[a])
  {
    assert ThreadOk(s, s.threads[id]) && ThreadOk(s, s.threads[a]);
    NextSlot(s, s.threads[id].k);
    if Holder(s.threads[a]) { OthersElsewhere(s, id, a); }
  }

  lemma HolderStep(s: State, id: nat, move: Move)
    requires Inv(s) && id in s.threads && Holder(s.threads[id])
    ensures Inv(Next(s, id, move))
  {
    var pc := s.threads[id];
    assert ThreadOk(s, pc);
    match pc
    case PushWrite(v, k) => Works(s, id, PushPublish(v, k), v);
    case PushPublish(_, _) => Publishes(s, id);
    case PopRead(k) =>
      var val := s.vals[Slot(s, k)];
      assert s.vals[Slot(s, k) := val] == s.vals;
      Works(s, id, PopRelease(k, val), val);
    case PopRelease(_, _) => Releases(s, id);
  }

  lemma StepInv(s: State, id: nat, move: Move)
    requires Inv(s) && id in s.threads
    ensures Inv(Next(s, id, move))
  {
    var pc, s' := s.threads[id], Next(s, id, move);
    if Holder(pc) {
      HolderStep(s, id, move);
    } else if s'.head != s.head {
      PushClaims(s, id);
    } else if s'.tail != s.tail {
      PopClaims(s, id);
    } else {
      QuietStep(s, id, move);
      Quiet(s, id, s'.threads[id]);
    }
  }

  /** Loads, failed exchanges and returns without effect. */
  lemma QuietStep(s: State, id: nat, move: Move)
    requires Inv(s) && id in s.threads && !Holder(s.threads[id])
    requires Next(s, id, move).head == s.head && Next(s, id, move).tail == s.tail
    ensures var pc := Next(s, id, move).threads[id];
      !Holder(pc) && ThreadOk(s, pc) && Next(s, id, move) == At(s, id, pc)
  {
    var pc := s.threads[id];
    assert ThreadOk(s, pc);
    if pc.Idle? {
      assert s.threads[id := Idle] == s.threads;
    } else if pc.PushLoad? || pc.PushGen? || pc.PushCas? {
      QuietPush(s, id, move);
    } else {
      QuietPop(s, id, move);
    }
  }

  lemma QuietPush(s: State, id: nat, move: Move)
    requires Shaped(s) && |s.pushed| == s.head && id in s.threads && ThreadOk(s, s.threads[id])
    requires s.threads[id].PushLoad? || s.threads[id].PushGen? || s.threads[id].PushCas?
    requires Next(s, id, move).head == s.head
    ensures var pc := Next(s, id, move).threads[id];
      !Holder(pc) && ThreadOk(s, pc) && Next(s, id, move) == At(s, id, pc)
  {
  }

  lemma QuietPop(s: State, id: nat, move: Move)
    requires Shaped(s) && |s.pushed| == s.head && id in s.threads && ThreadOk(s, s.threads[id])
    requires s.threads[id].PopLoad? || s.threads[id].PopGen? || s.threads[id].PopCas?
    requires Next(s, id, move).tail == s.tail
    ensures var pc := Next(s, id, move).threads[id];
      !Holder(pc) && ThreadOk(s, pc) && Next(s, id, move) == At(s, id, pc)
  {
  }

  // ---- Runs ------------------------------------------------------------------------------------------------------

  /** Any interleaving of any number of threads. */
  ghost predicate IsRun(states: seq<State>, size: nat, threads: set<nat>) {
    && |states| > 0 && states[0] == Initial(size, threads)
    && forall k :: 0 <= k < |states| - 1 ==> Steps(states[k], states[k + 1])
  }

  ghost predicate Steps(s: State, s': State) {
    Shaped(s) && |s.pushed| == s.head && exists id: nat, move :: id in s.threads && s' == Next(s, id, move)
  }

  lemma {:induction false} RunInv(states: seq<State>, size: nat, threads: set<nat>, k: nat)
    requires IsRun(states, size, threads) && k < |states| && size >= 2 && IsPow2(size)
    ensures Inv(states[k])
  {
    if k == 0 {
      InitialInv(size, threads);
    } else {
      RunInv(states, size, threads, k - 1);
      assert Steps(states[k - 1], states[k]);
      var id: nat, move :| id in states[k - 1].threads && states[k] == Next(states[k - 1], id, move);
      StepInv(states[k - 1], id, move);
    }
  }

  /** The counters stay within one turn of each other, no two threads own one slot, and the pop that holds a
      ticket returns the value pushed under it. */
  lemma RunSafe(states: seq<State>, size: nat, threads: set<nat>, k: nat)
    requires IsRun(states, size, threads) && k < |states| && size >= 2 && IsPow2(size)
    ensures var s := states[k];
      && Shaped(s) && s.tail <= s.head <= s.tail + |s.gens| && |s.pushed| == s.head
      && (forall a, b :: a in s.threads && b in s.threads && a != b && Holder(s.threads[a]) && Holder(s.threads[b]) ==>
            Slot(s, s.threads[a].k) != Slot(s, s.threads[b].k))
      && (forall t :: t in s.popped ==> 0 <= t < |s.pushed| && s.popped[t] == s.pushed[t])
  {
    RunInv(states, size, threads, k);
    var s := states[k];
    forall a, b | a in s.threads && b in s.threads && a != b && Holder(s.threads[a]) && Holder(s.threads[b])
      ensures Slot(s, s.threads[a].k) != Slot(s, s.threads[b].k)
    {
      OthersElsewhere(s, a, b);
    }
  }

  /** No ticket is handed out twice: what a pop returns was not returned before, and is the value of its ticket. */
  lemma PopsOnce(s: State, id: nat, move: Move)
    requires Inv(s) && id in s.threads
    ensures var pc, s' := s.threads[id], Next(s, id, move);
      if pc.PopRelease? then pc.k !in s.popped && pc.k < s.tail && s'.popped == s.popped[pc.k := s.pushed[pc.k]]
        else s'.popped == s.popped
  {
    assert ThreadOk(s, s.threads[id]);
  }

  /** A push gives up only on the ticket at `head` and while the pop one turn before it is not complete: then the
      queue is full exactly when no pop holds that ticket. A pop gives up only on the ticket at `tail` and while its
      push is not complete: then the queue is empty exactly when no push holds that ticket. */
  lemma GivesUpRightly(s: State, id: nat, move: Move)
    requires Inv(s) && id in s.threads && Next(s, id, move).threads[id].Idle?
    ensures s.threads[id].PushGen? ==>
      var h, n := s.threads[id].h, |s.gens|;
      h == s.head && h >= n && h - n !in s.popped && (s.head == s.tail + n <==> !PopHeld(s, h - n))
    ensures s.threads[id].PopGen? ==>
      var t := s.threads[id].t;
      t == s.tail && t !in s.stored && (s.head == s.tail <==> !PushHeld(s, t))
  {
    var pc := s.threads[id];
    assert ThreadOk(s, pc);
    if pc.PushGen? { FullTurn(s, pc.h); }
    if pc.PopGen? { NotStored(s, pc.t); }
  }

  /** Some thread has won the push, or pop, of ticket `k` and has not completed it. */
  ghost predicate PushHeld(s: State, k: nat) {
    exists a :: a in s.threads && Pushing(s.threads[a]) && s.threads[a].k == k
  }

  ghost predicate PopHeld(s: State, k: nat) {
    exists a :: a in s.threads && Popping(s.threads[a]) && s.threads[a].k == k
  }

  lemma FullTurn(s: State, h: nat)
    requires Inv(s) && h <= s.head && s.gens[Slot(s, h)] < h
    ensures h == s.head && h >= |s.gens| && h - |s.gens| !in s.popped
    ensures s.head == s.tail + |s.gens| <==> !PopHeld(s, h - |s.gens|)
  {
    var i := Slot(s, h);
    HeldTickets(s);
    if Owned(s, i) {
      var a :| a in s.threads && Owns(s, s.threads[a], i);
      assert ThreadOk(s, s.threads[a]);
      SameSlot(s, s.threads[a].k, h);
    } else {
      assert Resting(s, i);
      if Slot(s, s.gens[i]) != i { SameSlot(s, s.gens[i] - 1, h); }
    }
  }

  lemma NotStored(s: State, t: nat)
    requires Inv(s) && t <= s.tail && s.gens[Slot(s, t)] < t + 1
    ensures t == s.tail && t !in s.stored && (s.head == s.tail <==> !PushHeld(s, t))
  {
    var i := Slot(s, t);
    HeldTickets(s);
    if Owned(s, i) {
      var a :| a in s.threads && Owns(s, s.threads[a], i);
      assert ThreadOk(s, s.threads[a]);
      SameSlot(s, s.threads[a].k, t);
    } else {
      assert Resting(s, i);
    }
  }

  lemma HeldTickets(s: State)
    requires Inv(s)
    ensures forall k: nat :: PushHeld(s, k) ==> s.tail <= k < s.head
    ensures forall k: nat :: PopHeld(s, k) ==> k < s.tail
  {
    forall a | a in s.threads ensures Pushing(s.threads[a]) ==> s.tail <= s.threads[a].k < s.head
      ensures Popping(s.threads[a]) ==> s.threads[a].k < s.tail
    {
      assert ThreadOk(s, s.threads[a]);
    }
  }

  // ---- A pop that misses a completed push -----------------------------------------------------------------------

  /** Consecutive states of a run. */
  ghost predicate Chain(states: seq<State>) {
    |states| > 0 && forall k :: 0 <= k < |states| - 1 ==> Steps(states[k], states[k + 1])
  }

  lemma ChainConcat(a: seq<State>, b: seq<State>)
    requires Chain(a) && Chain(b) && a[|a| - 1] == b[0]
    ensures Chain(a + b[1..])
  {
    var c := a + b[1..];
    forall k | 0 <= k < |c| - 1 ensures Steps(c[k], c[k + 1]) {
      if k < |a| - 1 {
        assert Steps(a[k], a[k + 1]);
      } else {
        assert c[k] == b[k - (|a| - 1)] && c[k + 1] == b[k - (|a| - 1) + 1];
        assert Steps(b[k - (|a| - 1)], b[k - (|a| - 1) + 1]);
      }
    }
  }

  lemma ChainOne(s: State, id: nat, move: Move)
    requires Shaped(s) && |s.pushed| == s.head && id in s.threads
    ensures Chain([s, Next(s, id, move)])
  {
    var c := [s, Next(s, id, move)];
    assert Steps(c[0], c[1]);
  }

  ghost predicate Ready(s: State, id: nat) {
    Shaped(s) && |s.pushed| == s.head && id in s.threads && s.threads[id].Idle?
  }

  ghost function Claimed(s: State, id: nat, v: int): State {
    At(s, id, PushWrite(v, s.head)).(head := s.head + 1, pushed := s.pushed + [v])
  }

  /** An undisturbed push up to winning its ticket. */
  lemma {:induction false} ChainClaim(s: State, id: nat, v: int) returns (states: seq<State>)
    requires Ready(s, id) && s.gens[Slot(s, s.head)] == s.head
    ensures Chain(states) && states[0] == s && states[|states| - 1] == Claimed(s, id, v)
  {
    var a, b, c := At(s, id, PushLoad(v)), At(s, id, PushGen(v, s.head)), At(s, id, PushCas(v, s.head));
    assert a == Next(s, id, StartPush(v)) && At(a, id, PushGen(v, s.head)) == b == Next(a, id, Go(false));
    assert At(b, id, PushCas(v, s.head)) == c == Next(b, id, Go(false));
    assert Claimed(c, id, v) == Claimed(s, id, v) == Next(c, id, Go(false));
    ChainOne(s, id, StartPush(v));
    ChainOne(a, id, Go(false));
    ChainConcat([s, a], [a, b]);
    ChainOne(b, id, Go(false));
    ChainConcat([s, a] + [a, b][1..], [b, c]);
    ChainOne(c, id, Go(false));
    ChainConcat([s, a] + [a, b][1..] + [b, c][1..], [c, Claimed(s, id, v)]);
    states := [s, a] + [a, b][1..] + [b, c][1..] + [c, Claimed(s, id, v)][1..];
  }

  ghost function Published(s: State, id: nat, v: int, k: nat): State
    requires Shaped(s)
  {
    At(s, id, Idle).(vals := s.vals[Slot(s, k) := v], gens := s.gens[Slot(s, k) := s.gens[Slot(s, k)] + 1],
                     stored := s.stored + {k})
  }

  /** The rest of an undisturbed push. */
  lemma {:induction false} ChainPublish(s: State, id: nat, v: int, k: nat) returns (states: seq<State>)
    requires Shaped(s) && |s.pushed| == s.head && id in s.threads && s.threads[id] == PushWrite(v, k)
    ensures Chain(states) && states[0] == s && states[|states| - 1] == Published(s, id, v, k)
  {
    var a := At(s, id, PushPublish(v, k)).(vals := s.vals[Slot(s, k) := v]);
    assert a == Next(s, id, Go(false)) && Slot(a, k) == Slot(s, k);
    assert At(a, id, Idle).threads == At(s, id, Idle).threads;
    assert Published(s, id, v, k) == Next(a, id, Go(false));
    ChainOne(s, id, Go(false));
    ChainOne(a, id, Go(false));
    ChainConcat([s, a], [a, Published(s, id, v, k)]);
    states := [s, a] + [a, Published(s, id, v, k)][1..];
  }

  /** A pop that finds its ticket unpublished. */
  lemma {:induction false} ChainMiss(s: State, id: nat) returns (states: seq<State>)
    requires Ready(s, id) && s.gens[Slot(s, s.tail)] < s.tail + 1
    ensures Chain(states) && states[0] == s && |states| == 4 && states[3] == s && states[2] == At(s, id, PopGen(s.tail))
  {
    var a, b := At(s, id, PopLoad), At(s, id, PopGen(s.tail));
    assert a == Next(s, id, StartPop) && At(a, id, PopGen(s.tail)) == b == Next(a, id, Go(false));
    assert At(b, id, Idle) == s == Next(b, id, Go(false)) by { assert s.threads[id := Idle] == s.threads; }
    ChainOne(s, id, StartPop);
    ChainOne(a, id, Go(false));
    ChainConcat([s, a], [a, b]);
    ChainOne(b, id, Go(false));
    ChainConcat([s, a] + [a, b][1..], [b, s]);
    states := [s, a] + [a, b][1..] + [b, s][1..];
    assert states == [s, a, b, s];
  }

  /** Thread `x` wins ticket 0 and stops, `y` completes the push of ticket 1, and a pop that `z` starts only then
      gives up: nothing has been popped, and the value of ticket 1 is in the queue. */
  lemma {:induction false} PopMisses(size: nat, x: nat, y: nat, z: nat, v: int, w: int) returns (states: seq<State>)
    requires size >= 2 && IsPow2(size) && x != y && x != z && y != z
    ensures IsRun(states, size, {x, y, z}) && |states| > 3
    ensures var s, asks := states[|states| - 1], states[|states| - 2];
      && states[|states| - 4] == s && s.stored == {1} && s.popped == map[] && s.pushed == [v, w] && s.head == 2
         && s.tail == 0
      && Shaped(s) && z in s.threads && s.threads[z].Idle? && asks == At(s, z, PopGen(0))
         && s == Next(asks, z, Go(false))
  {
    var s0 := Initial(size, {x, y, z});
    InitialSlots(s0, size, {x, y, z});
    var a := ChainClaim(s0, x, v);
    var s1 := Claimed(s0, x, v);
    var b := ChainPush(s1, y, w);
    var s2 := Published(Claimed(s1, y, w), y, w, 1);
    ChainConcat(a, b);
    var c := ChainMiss(s2, z);
    ChainConcat(a + b[1..], c);
    states := a + b[1..] + c[1..];
  }

  /** A whole undisturbed push. */
  lemma {:induction false} ChainPush(s: State, id: nat, v: int) returns (states: seq<State>)
    requires Ready(s, id) && s.gens[Slot(s, s.head)] == s.head
    ensures Chain(states) && states[0] == s
    ensures Shaped(Claimed(s, id, v)) && states[|states| - 1] == Published(Claimed(s, id, v), id, v, s.head)
  {
    var a := ChainClaim(s, id, v);
    var b := ChainPublish(Claimed(s, id, v), id, v, s.head);
    ChainConcat(a, b);
    states := a + b[1..];
  }

  lemma InitialSlots(s: State, size: nat, threads: set<nat>)
    requires size >= 2 && IsPow2(size) && s == Initial(size, threads)
    ensures Slot(s, 0) == 0 && Slot(s, 1) == 1
  {
    AndMask(0, size);
    AndMask(1, size);
  }

  // ---- A pop that takes a stored value ----------------------------------------------------------------------------

  /** The slot of a stored ticket at `tail` is ready to be popped. */
  lemma {:induction false} StoredReady(s: State)
    requires Inv(s) && s.tail in s.stored
    ensures s.gens[Slot(s, s.tail)] == s.tail + 1 && s.vals[Slot(s, s.tail)] == s.pushed[s.tail]
    ensures !Owned(s, Slot(s, s.tail))
  {
    var i := Slot(s, s.tail);
    if Owned(s, i) {
      var a :| a in s.threads && Owns(s, s.threads[a], i);
      assert ThreadOk(s, s.threads[a]);
      SameSlot(s, s.threads[a].k, s.tail);
      assert false;
    }
    assert Resting(s, i);
    var gen := s.gens[i];
    if Slot(s, gen) == i && s.head <= gen < s.tail + |s.gens| {
      SameSlot(s, gen, s.tail);
      assert false;
    }
    SameSlot(s, gen - 1, s.tail);
  }

  /** An undisturbed pop up to winning its ticket. */
  lemma {:induction false} ChainWin(s: State, id: nat) returns (states: seq<State>)
    requires Ready(s, id) && s.gens[Slot(s, s.tail)] == s.tail + 1
    ensures Chain(states) && states[0] == s
    ensures states[|states| - 1] == At(s, id, PopRead(s.tail)).(tail := s.tail + 1)
  {
    var t := s.tail;
    var a, b, c := At(s, id, PopLoad), At(s, id, PopGen(t)), At(s, id, PopCas(t));
    var d := At(s, id, PopRead(t)).(tail := t + 1);
    assert a == Next(s, id, StartPop) && At(a, id, PopGen(t)) == b == Next(a, id, Go(false));
    assert At(b, id, PopCas(t)) == c == Next(b, id, Go(false));
    assert At(c, id, PopRead(t)).threads == d.threads && d == Next(c, id, Go(false));
    ChainOne(s, id, StartPop);
    ChainOne(a, id, Go(false));
    ChainConcat([s, a], [a, b]);
    ChainOne(b, id, Go(false));
    ChainConcat([s, a] + [a, b][1..], [b, c]);
    ChainOne(c, id, Go(false));
    ChainConcat([s, a] + [a, b][1..] + [b, c][1..], [c, d]);
    states := [s, a] + [a, b][1..] + [b, c][1..] + [c, d][1..];
  }

  ghost function Released(s: State, id: nat, k: nat): State
    requires Shaped(s)
  {
    var i := Slot(s, k);
    At(s, id, Idle).(gens := s.gens[i := s.gens[i] + |s.gens| - 1], popped := s.popped[k := s.vals[i]])
  }

  /** The rest of an undisturbed pop. */
  lemma {:induction false} ChainRelease(s: State, id: nat, k: nat) returns (states: seq<State>)
    requires Shaped(s) && |s.pushed| == s.head && id in s.threads && s.threads[id] == PopRead(k)
    ensures Chain(states) && states[0] == s && states[|states| - 1] == Released(s, id, k)
  {
    var a := At(s, id, PopRelease(k, s.vals[Slot(s, k)]));
    assert a == Next(s, id, Go(false)) && Slot(a, k) == Slot(s, k);
    assert At(a, id, Idle).threads == At(s, id, Idle).threads;
    assert Released(s, id, k) == Next(a, id, Go(false));
    ChainOne(s, id, Go(false));
    ChainOne(a, id, Go(false));
    ChainConcat([s, a], [a, Released(s, id, k)]);
    states := [s, a] + [a, Released(s, id, k)][1..];
  }

  /** An undisturbed pop takes the value stored under the ticket at `tail`, and hands its slot to the next turn. */
  lemma {:induction false} ChainPop(s: State, id: nat) returns (states: seq<State>)
    requires Inv(s) && id in s.threads && s.threads[id].Idle? && s.tail in s.stored
    ensures Chain(states) && states[0] == s
    ensures var t, s' := s.tail, states[|states| - 1];
      && s' == s.(tail := t + 1, gens := s'.gens, popped := s.popped[t := s.pushed[t]])
      && s'.gens == s.gens[Slot(s, t) := t + |s.gens|]
  {
    StoredReady(s);
    var a := ChainWin(s, id);
    var won := a[|a| - 1];
    var b := ChainRelease(won, id, s.tail);
    ChainConcat(a, b);
    states := a + b[1..];
    assert Slot(won, s.tail) == Slot(s, s.tail);
    assert Released(won, id, s.tail).threads == s.threads;
  }
}

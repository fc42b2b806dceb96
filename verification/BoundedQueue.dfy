/** The request/follow-up specification of a coroutine bounded queue. */
module BoundedQueue {
  import opened Options

  const CAPACITY: nat := 2
  const EMPTY_TRY_DEQUEUE: int := 0

  datatype WaitingEnqueue = WaitingEnqueue(opId: int, value: int)

  /** The queue and what happened to it: values accepted and delivered, in order; how many went straight to a waiting
      dequeue; which delivery each dequeue request got; which requests were made, those of dequeues in order, and
      followed up; and whether no request repeated an operation id. */
  datatype Snapshot = Snapshot(
    elems: seq<int>, waitingEnqueues: seq<WaitingEnqueue>, waitingDequeues: seq<int>,
    completedEnqueues: set<int>, readyDequeues: map<int, int>, availableCapacity: nat,
    accepted: seq<int>, delivered: seq<int>, handoffs: nat, deliveryOf: map<int, nat>,
    enqueues: set<int>, enqueuesDone: set<int>, dequeues: seq<int>, dequeuesDone: set<int>, distinct: bool)

  // ---- What holds between operations -----------------------------------------------------------------------

  ghost function Values(waiting: seq<WaitingEnqueue>): seq<int> {
    if waiting == [] then [] else [waiting[0].value] + Values(waiting[1..])
  }

  lemma {:induction false} ValuesMore(waiting: seq<WaitingEnqueue>, w: WaitingEnqueue)
    ensures Values(waiting + [w]) == Values(waiting) + [w.value]
  {
    if waiting == [] {
      assert ([] + [w])[1..] == [];
    } else {
      ValuesMore(waiting[1..], w);
      assert (waiting + [w])[1..] == waiting[1..] + [w];
    }
  }

  /** Values leave in the order in which they were accepted, and none is lost or made up; `next` is about to enter. */
  ghost predicate Ordered(q: Snapshot, next: seq<int>) {
    q.delivered + q.elems + next + Values(q.waitingEnqueues) == q.accepted
  }

  /** Every slot is free, buffered, or used up by a hand-off; `reserved` slots are about to be filled. */
  ghost predicate Balanced(q: Snapshot, reserved: nat) {
    q.availableCapacity + |q.elems| + q.handoffs + reserved == CAPACITY && (q.waitingDequeues != [] ==> q.elems == [])
  }

  ghost predicate Waits(waiting: seq<WaitingEnqueue>, op: int) {
    exists i :: 0 <= i < |waiting| && waiting[i].opId == op
  }

  /** Each requested enqueue waits, is complete, or was followed up, and only one of these. */
  ghost predicate Tracked(requested: set<int>, completed: set<int>, done: set<int>, waiting: seq<WaitingEnqueue>) {
    && completed + done <= requested && completed !! done
    && (forall op {:trigger Waits(waiting, op)} :: op in requested ==>
        op in completed || op in done || Waits(waiting, op))
    && (forall i :: 0 <= i < |waiting| ==> waiting[i].opId in requested && waiting[i].opId !in completed + done)
    && (forall i, j :: 0 <= i < j < |waiting| ==> waiting[i].opId != waiting[j].opId)
  }

  /** Each dequeue that got a delivery got one of its own, and is ready until it is followed up. */
  ghost predicate Served(delivered: seq<int>, deliveryOf: map<int, nat>, done: set<int>, ready: map<int, int>,
                         waiting: seq<int>)
  {
    && (forall op :: op in deliveryOf ==> deliveryOf[op] < |delivered|)
    && done <= deliveryOf.Keys && ready.Keys == deliveryOf.Keys - done
    && (forall op :: op in ready ==> ready[op] == delivered[deliveryOf[op]])
    && (forall a, b :: a in deliveryOf && b in deliveryOf && a != b ==> deliveryOf[a] != deliveryOf[b])
    && (forall i :: 0 <= i < |waiting| ==> waiting[i] !in deliveryOf)
    && (forall i, j :: 0 <= i < j < |waiting| ==> waiting[i] != waiting[j])
  }

  /** Dequeues are served in the order of their requests: those that wait are the latest, in order, and of the others
      an earlier request got an earlier delivery. */
  ghost predicate InTurn(dequeues: seq<int>, deliveryOf: map<int, nat>, waiting: seq<int>) {
    && |waiting| <= |dequeues| && dequeues[|dequeues| - |waiting|..] == waiting
    && (forall i :: 0 <= i < |dequeues| - |waiting| ==> dequeues[i] in deliveryOf)
    && (forall i, j :: 0 <= i < j < |dequeues| - |waiting| ==> deliveryOf[dequeues[i]] < deliveryOf[dequeues[j]])
  }

  /** With distinct operation ids every request is accounted for. */
  ghost predicate Matched(q: Snapshot) {
    q.distinct ==>
      && Tracked(q.enqueues, q.completedEnqueues, q.enqueuesDone, q.waitingEnqueues)
      && Served(q.delivered, q.deliveryOf, q.dequeuesDone, q.readyDequeues, q.waitingDequeues)
      && InTurn(q.dequeues, q.deliveryOf, q.waitingDequeues)
  }

  ghost predicate Kept(q: Snapshot) { Ordered(q, []) && Balanced(q, 0) && Matched(q) }

  /** Between operations an enqueue waits only if there is no capacity. */
  ghost predicate Settled(q: Snapshot) { Kept(q) && (q.waitingEnqueues != [] ==> q.availableCapacity == 0) }

  // ---- Requests and their values -------------------------------------------------------------------------------

  lemma FirstCompletes(requested: set<int>, completed: set<int>, done: set<int>, waiting: seq<WaitingEnqueue>)
    requires Tracked(requested, completed, done, waiting) && waiting != []
    ensures Tracked(requested, completed + {waiting[0].opId}, done, waiting[1..])
  {
    forall op | op in requested && op !in completed && op !in done && op != waiting[0].opId
      ensures Waits(waiting[1..], op)
    {
      assert Waits(waiting, op);
      var i :| 0 <= i < |waiting| && waiting[i].opId == op;
      assert waiting[1..][i - 1].opId == op;
    }
  }

  lemma LastWaits(requested: set<int>, completed: set<int>, done: set<int>, waiting: seq<WaitingEnqueue>,
                  w: WaitingEnqueue)
    requires Tracked(requested, completed, done, waiting) && w.opId !in requested
    ensures Tracked(requested + {w.opId}, completed, done, waiting + [w])
  {
    forall op | op in requested && op !in completed && op !in done ensures Waits(waiting + [w], op) {
      assert Waits(waiting, op);
      var i :| 0 <= i < |waiting| && waiting[i].opId == op;
      assert (waiting + [w])[i].opId == op;
    }
    assert (waiting + [w])[|waiting|].opId == w.opId;
  }

  /** A delivery to a request that got none before. */
  lemma ServeOne(delivered: seq<int>, deliveryOf: map<int, nat>, done: set<int>, ready: map<int, int>,
                 waiting: seq<int>,
                 op: int, v: int, waiting': seq<int>)
    requires Served(delivered, deliveryOf, done, ready, waiting) && op !in deliveryOf && op !in waiting'
    requires waiting' == waiting || (waiting != [] && waiting' == waiting[1..])
    ensures Served(delivered + [v], deliveryOf[op := |delivered|], done, ready[op := v], waiting')
  {
  }

  /** The next delivery goes to the first that waits, or to a new request when none does. */
  lemma {:induction false} NextInTurn(dequeues: seq<int>, deliveryOf: map<int, nat>, waiting: seq<int>, n: nat)
    requires waiting != [] && InTurn(dequeues, deliveryOf, waiting) && waiting[0] !in deliveryOf
    requires forall op :: op in deliveryOf ==> deliveryOf[op] < n
    ensures InTurn(dequeues, deliveryOf[waiting[0] := n], waiting[1..])
  {
    var served := |dequeues| - |waiting|;
    assert dequeues[served] == dequeues[served..][0] == waiting[0];
    assert dequeues[served + 1..] == dequeues[served..][1..];
    var later := deliveryOf[waiting[0] := n];
    forall i | 0 <= i < served ensures later[dequeues[i]] == deliveryOf[dequeues[i]] < n {
      var op := dequeues[i];
      assert op in deliveryOf && deliveryOf[op] < n;
    }
  }

  lemma {:induction false} NewInTurn(dequeues: seq<int>, deliveryOf: map<int, nat>, op: int, n: nat)
    requires InTurn(dequeues, deliveryOf, []) && op !in deliveryOf
    requires forall o :: o in deliveryOf ==> deliveryOf[o] < n
    ensures InTurn(dequeues + [op], deliveryOf[op := n], [])
  {
    var later := deliveryOf[op := n];
    forall i | 0 <= i < |dequeues| ensures later[dequeues[i]] == deliveryOf[dequeues[i]] < n {
      var o := dequeues[i];
      assert o in deliveryOf && deliveryOf[o] < n;
    }
  }

  lemma {:induction false} WaitsInTurn(dequeues: seq<int>, deliveryOf: map<int, nat>, waiting: seq<int>, op: int)
    requires InTurn(dequeues, deliveryOf, waiting)
    ensures InTurn(dequeues + [op], deliveryOf, waiting + [op])
  {
    var served := |dequeues| - |waiting|;
    assert (dequeues + [op])[served..] == dequeues[served..] + [op];
  }

  /** A delivery to no request. */
  lemma ServeNone(delivered: seq<int>, deliveryOf: map<int, nat>, done: set<int>, ready: map<int, int>,
                  waiting: seq<int>, v: int)
    requires Served(delivered, deliveryOf, done, ready, waiting)
    ensures Served(delivered + [v], deliveryOf, done, ready, waiting)
  {
  }

  // ---- Making values visible ----------------------------------------------------------------------------------

  /** A value goes to the longest waiting dequeue, or to the buffer. */
  ghost function Shown(q: Snapshot, v: int): Snapshot {
    if q.waitingDequeues == [] then q.(elems := q.elems + [v])
    else
      var op := q.waitingDequeues[0];
      q.(waitingDequeues := q.waitingDequeues[1..], readyDequeues := q.readyDequeues[op := v],
         deliveryOf := q.deliveryOf[op := |q.delivered|], delivered := q.delivered + [v], handoffs := q.handoffs + 1)
  }

  lemma ShownKeeps(q: Snapshot, v: int)
    requires Ordered(q, [v]) && Balanced(q, 1) && Matched(q)
    ensures Kept(Shown(q, v))
  {
    if q.waitingDequeues != [] && q.distinct {
      var op := q.waitingDequeues[0];
      ServeOne(q.delivered, q.deliveryOf, q.dequeuesDone, q.readyDequeues, q.waitingDequeues, op, v,
               q.waitingDequeues[1..]);
      NextInTurn(q.dequeues, q.deliveryOf, q.waitingDequeues, |q.delivered|);
    }
    var q' := Shown(q, v);
    assert q'.delivered + q'.elems + [] == q.delivered + q.elems + [v];
  }

  ghost function PromotedOne(q: Snapshot): Snapshot
    requires q.waitingEnqueues != [] && q.availableCapacity > 0
  {
    var w := q.waitingEnqueues[0];
    Shown(q.(waitingEnqueues := q.waitingEnqueues[1..], availableCapacity := q.availableCapacity - 1,
             completedEnqueues := q.completedEnqueues + {w.opId}), w.value)
  }

  ghost function Promoted(q: Snapshot): Snapshot
    decreases |q.waitingEnqueues|
  {
    if q.waitingEnqueues == [] || q.availableCapacity == 0 then q else Promoted(PromotedOne(q))
  }

  lemma PromotedOneKeeps(q: Snapshot)
    requires Kept(q) && q.waitingEnqueues != [] && q.availableCapacity > 0
    ensures Kept(PromotedOne(q))
  {
    var w := q.waitingEnqueues[0];
    if q.distinct { FirstCompletes(q.enqueues, q.completedEnqueues, q.enqueuesDone, q.waitingEnqueues); }
    var q' := q.(waitingEnqueues := q.waitingEnqueues[1..], availableCapacity := q.availableCapacity - 1,
                 completedEnqueues := q.completedEnqueues + {w.opId});
    assert q.delivered + q.elems + [] + ([w.value] + Values(q'.waitingEnqueues))
        == q'.delivered + q'.elems + [w.value] + Values(q'.waitingEnqueues);
    ShownKeeps(q', w.value);
  }

  /** Promotion accepts nothing new, takes nothing back, and touches no dequeue unless one is waiting. */
  ghost predicate Grown(q: Snapshot, q': Snapshot) {
    && q'.accepted == q.accepted && q.delivered <= q'.delivered && q.handoffs <= q'.handoffs
       && q'.distinct == q.distinct
    && q'.enqueues == q.enqueues && q'.enqueuesDone == q.enqueuesDone && q'.dequeuesDone == q.dequeuesDone
    && q'.dequeues == q.dequeues
    && q.completedEnqueues <= q'.completedEnqueues && (q.waitingEnqueues == [] ==> q' == q)
    && (q.waitingDequeues == [] ==>
          && q'.waitingDequeues == [] && q'.readyDequeues == q.readyDequeues && q'.deliveryOf == q.deliveryOf
          && q'.delivered == q.delivered && q'.handoffs == q.handoffs)
  }

  lemma {:induction false} PromotedKeeps(q: Snapshot)
    requires Kept(q)
    ensures Settled(Promoted(q)) && Grown(q, Promoted(q))
    decreases |q.waitingEnqueues|
  {
    if q.waitingEnqueues != [] && q.availableCapacity > 0 {
      PromotedOneKeeps(q);
      PromotedKeeps(PromotedOne(q));
    }
  }

  // ---- Operations on values -----------------------------------------------------------------------------------

  ghost function Entering(q: Snapshot, v: int): Snapshot
    requires q.availableCapacity > 0
  {
    q.(availableCapacity := q.availableCapacity - 1, accepted := q.accepted + [v])
  }

  lemma EnteringKeeps(q: Snapshot, v: int)
    requires Settled(q) && q.availableCapacity > 0
    ensures Kept(Shown(Entering(q, v), v)) && Promoted(Shown(Entering(q, v), v)) == Shown(Entering(q, v), v)
    ensures Settled(Shown(Entering(q, v), v))
  {
    var q' := Entering(q, v);
    assert q'.delivered + q'.elems + [v] + [] == q.delivered + q.elems + [] + [] + [v];
    ShownKeeps(q', v);
  }

  /** The request of an enqueue that finds capacity. */
  ghost function Completing(q: Snapshot, op: int): Snapshot {
    q.(completedEnqueues := q.completedEnqueues + {op}, enqueues := q.enqueues + {op},
       distinct := q.distinct && op !in q.enqueues)
  }

  lemma CompletingKeeps(q: Snapshot, op: int)
    requires Settled(q)
    ensures Settled(Completing(q, op))
  {
    if Completing(q, op).distinct {
      forall o | o in q.enqueues + {op} && o !in q.completedEnqueues + {op} && o !in q.enqueuesDone
        ensures Waits(q.waitingEnqueues, o)
      {
      }
    }
  }

  /** The request of an enqueue that has to wait. */
  ghost function EnqueueWaits(q: Snapshot, op: int, v: int): Snapshot {
    q.(waitingEnqueues := q.waitingEnqueues + [WaitingEnqueue(op, v)], accepted := q.accepted + [v],
       enqueues := q.enqueues + {op}, distinct := q.distinct && op !in q.enqueues)
  }

  lemma EnqueueWaitsKeeps(q: Snapshot, op: int, v: int)
    requires Settled(q) && q.availableCapacity == 0
    ensures Settled(EnqueueWaits(q, op, v))
  {
    var w := WaitingEnqueue(op, v);
    ValuesMore(q.waitingEnqueues, w);
    assert q.delivered + q.elems + [] + (Values(q.waitingEnqueues) + [v]) == q.accepted + [v];
    if EnqueueWaits(q, op, v).distinct {
      LastWaits(q.enqueues, q.completedEnqueues, q.enqueuesDone, q.waitingEnqueues, w);
    }
  }

  /** The oldest buffered value leaves. */
  ghost function Taken(q: Snapshot): Snapshot
    requires q.elems != []
  {
    q.(elems := q.elems[1..], delivered := q.delivered + [q.elems[0]], availableCapacity := q.availableCapacity + 1)
  }

  lemma TakenKeeps(q: Snapshot)
    requires Settled(q) && q.elems != []
    ensures Kept(Taken(q))
  {
    if q.distinct {
      ServeNone(q.delivered, q.deliveryOf, q.dequeuesDone, q.readyDequeues, q.waitingDequeues, q.elems[0]);
    }
    assert q.delivered + [q.elems[0]] + q.elems[1..] == q.delivered + q.elems;
  }

  ghost predicate NewDequeue(q: Snapshot, op: int) { op !in q.deliveryOf && op !in q.waitingDequeues }

  /** The oldest buffered value leaves for the request `op`. */
  ghost function TakenBy(q: Snapshot, op: int): Snapshot
    requires q.elems != []
  {
    Taken(q).(readyDequeues := q.readyDequeues[op := q.elems[0]], deliveryOf := q.deliveryOf[op := |q.delivered|],
              dequeues := q.dequeues + [op], distinct := q.distinct && NewDequeue(q, op))
  }

  lemma TakenByKeeps(q: Snapshot, op: int)
    requires Settled(q) && q.elems != []
    ensures Kept(TakenBy(q, op))
  {
    TakenKeeps(q);
    if q.distinct && NewDequeue(q, op) {
      ServeOne(q.delivered, q.deliveryOf, q.dequeuesDone, q.readyDequeues, q.waitingDequeues, op, q.elems[0],
               q.waitingDequeues);
      NewInTurn(q.dequeues, q.deliveryOf, op, |q.delivered|);
    }
  }

  ghost function DequeueWaits(q: Snapshot, op: int): Snapshot {
    q.(waitingDequeues := q.waitingDequeues + [op], dequeues := q.dequeues + [op],
       distinct := q.distinct && NewDequeue(q, op))
  }

  lemma DequeueWaitsKeeps(q: Snapshot, op: int)
    requires Settled(q) && q.elems == []
    ensures Settled(DequeueWaits(q, op))
  {
    if q.distinct { WaitsInTurn(q.dequeues, q.deliveryOf, q.waitingDequeues, op); }
  }

  // ---- The queue ---------------------------------------------------------------------------------------------------

  class BoundedQueue {
    var elems: seq<int>
    var waitingEnqueues: seq<WaitingEnqueue>
    var waitingDequeues: seq<int>
    var completedEnqueues: set<int>
    var readyDequeues: map<int, int>
    var availableCapacity: nat
    ghost var accepted: seq<int>
    ghost var delivered: seq<int>
    ghost var handoffs: nat
    ghost var deliveryOf: map<int, nat>
    ghost var enqueues: set<int>
    ghost var enqueuesDone: set<int>
    ghost var dequeues: seq<int>
    ghost var dequeuesDone: set<int>
    ghost var distinct: bool

    ghost function View(): Snapshot
      reads this
    {
      Snapshot(elems, waitingEnqueues, waitingDequeues, completedEnqueues, readyDequeues, availableCapacity,
               accepted, delivered, handoffs, deliveryOf, enqueues, enqueuesDone, dequeues, dequeuesDone,
               distinct)
    }

    ghost predicate Valid()
      reads this
    {
      Settled(View())
    }

    constructor ()
      ensures Valid() && accepted == delivered == [] && handoffs == 0 && deliveryOf == map[] && enqueues == {}
        && distinct
      ensures elems == [] && waitingDequeues == [] && waitingEnqueues == []
    {
      elems, waitingEnqueues, waitingDequeues := [], [], [];
      completedEnqueues, readyDequeues := {}, map[];
      availableCapacity := CAPACITY;
      accepted, delivered, handoffs, deliveryOf := [], [], 0, map[];
      enqueues, enqueuesDone, dequeues, dequeuesDone, distinct := {}, {}, [], {}, true;
    }

    /** Hands a value to the longest waiting dequeue, or buffers it. */
    method MakeValueVisible(value: int)
      modifies `elems, `waitingDequeues, `readyDequeues, `delivered, `handoffs, `deliveryOf
      ensures View() == Shown(old(View()), value)
    {
      if waitingDequeues != [] {
        var op := waitingDequeues[0];
        waitingDequeues := waitingDequeues[1..];
        readyDequeues := readyDequeues[op := value];
        deliveryOf := deliveryOf[op := |delivered|];
        delivered := delivered + [value];
        handoffs := handoffs + 1;
      } else {
        elems := elems + [value];
      }
    }

    /** Completes waiting enqueues while there is capacity, in order. */
    method PromoteWaitingEnqueues()
      requires Kept(View())
      modifies `elems, `waitingEnqueues, `waitingDequeues, `completedEnqueues, `readyDequeues, `availableCapacity,
               `delivered, `handoffs, `deliveryOf
      ensures View() == Promoted(old(View())) && Valid() && Grown(old(View()), View())
    {
      PromotedKeeps(View());
      while waitingEnqueues != [] && availableCapacity > 0
        invariant Promoted(View()) == Promoted(old(View()))
        decreases |waitingEnqueues|
      {
        PromoteFirst();
      }
    }

    method PromoteFirst()
      requires waitingEnqueues != [] && availableCapacity > 0
      modifies `elems, `waitingEnqueues, `waitingDequeues, `completedEnqueues, `readyDequeues, `availableCapacity,
               `delivered, `handoffs, `deliveryOf
      ensures View() == PromotedOne(old(View()))
    {
      var w := waitingEnqueues[0];
      waitingEnqueues := waitingEnqueues[1..];
      availableCapacity := availableCapacity - 1;
      completedEnqueues := completedEnqueues + {w.opId};
      MakeValueVisible(w.value);
    }

    /** Accepts exactly with capacity left. */
    method TryEnqueue(value: int) returns (done: bool)
      requires Valid()
      modifies this
      ensures Valid() && done == (old(availableCapacity) > 0) && accepted == old(accepted) + if done then [value]
        else []
      ensures View() == if done then Shown(Entering(old(View()), value), value) else old(View())
    {
      if availableCapacity == 0 {
        return false;
      }
      Enter(value);
      return true;
    }

    /** Takes the oldest buffered value; 0 when there is none. */
    method TryDequeue() returns (value: int)
      requires Valid()
      modifies this
      ensures Valid()
      ensures old(elems) == [] ==> value == EMPTY_TRY_DEQUEUE && View() == old(View())
      ensures old(elems) != [] ==> value == old(elems)[0] && View() == Promoted(Taken(old(View())))
    {
      if elems == [] {
        return EMPTY_TRY_DEQUEUE;
      }
      TakenKeeps(View());
      value := TakeFront();
      PromoteWaitingEnqueues();
    }

    method TakeFront() returns (value: int)
      requires elems != []
      modifies `elems, `availableCapacity, `delivered
      ensures value == old(elems)[0] && View() == Taken(old(View()))
    {
      value := elems[0];
      elems := elems[1..];
      delivered := delivered + [value];
      availableCapacity := availableCapacity + 1;
    }

    method TakeFor(op: int)
      requires elems != []
      modifies `elems, `availableCapacity, `delivered, `readyDequeues, `deliveryOf, `dequeues,
               `distinct
      ensures View() == TakenBy(old(View()), op)
    {
      ghost var q := View();
      var v := TakeFront();
      readyDequeues := readyDequeues[op := v];
      deliveryOf, dequeues := deliveryOf[op := |delivered| - 1], dequeues + [op];
      distinct := distinct && NewDequeue(q, op);
    }

    /** The value is accepted; the request is complete, or waits behind the earlier ones. */
    method RequestEnqueue(op: int, value: int)
      requires Valid()
      modifies this
      ensures Valid() && accepted == old(accepted) + [value]
      ensures distinct <==> old(distinct) && op !in old(enqueues)
      ensures old(availableCapacity) == 0 ==> View() == EnqueueWaits(old(View()), op, value)
      ensures old(availableCapacity) > 0 ==> View() == Shown(Entering(Completing(old(View()), op), value), value)
    {
      ghost var q := View();
      if availableCapacity == 0 {
        WaitToEnqueue(op, value);
        return;
      }
      CompletingKeeps(q, op);
      completedEnqueues, enqueues, distinct := completedEnqueues + {op}, enqueues + {op}, distinct && op !in enqueues;
      Enter(value);
    }

    method WaitToEnqueue(op: int, value: int)
      requires Valid() && availableCapacity == 0
      modifies `waitingEnqueues, `accepted, `enqueues, `distinct
      ensures Valid() && View() == EnqueueWaits(old(View()), op, value)
    {
      EnqueueWaitsKeeps(View(), op, value);
      waitingEnqueues := waitingEnqueues + [WaitingEnqueue(op, value)];
      accepted, enqueues, distinct := accepted + [value], enqueues + {op}, distinct && op !in enqueues;
    }

    /** A value enters with capacity left. */
    method Enter(value: int)
      requires Valid() && availableCapacity > 0
      modifies this
      ensures Valid() && View() == Shown(Entering(old(View()), value), value)
    {
      EnteringKeeps(View(), value);
      availableCapacity := availableCapacity - 1;
      accepted := accepted + [value];
      MakeValueVisible(value);
      PromoteWaitingEnqueues();
    }

    /** The value is in, or the enqueue is still waiting. */
    method FollowUpEnqueue(op: int) returns (done: bool)
      requires Valid()
      modifies `completedEnqueues, `enqueuesDone
      ensures Valid() && (done <==> op in old(completedEnqueues)) && completedEnqueues == old(completedEnqueues) - {op}
      ensures enqueuesDone == old(enqueuesDone) + if done then {op} else {}
      ensures distinct && op in enqueues && !done ==> Waits(waitingEnqueues, op) || op in enqueuesDone
    {
      done := op in completedEnqueues;
      if done {
        completedEnqueues := completedEnqueues - {op};
        enqueuesDone := enqueuesDone + {op};
      }
    }

    /** Takes the oldest buffered value, or waits behind the earlier requests. */
    method RequestDequeue(op: int)
      requires Valid()
      modifies this
      ensures Valid() && accepted == old(accepted) && dequeues == old(dequeues) + [op]
      ensures distinct <==> old(distinct) && old(NewDequeue(View(), op))
      ensures old(elems) == [] ==> View() == DequeueWaits(old(View()), op)
      ensures old(elems) != [] ==> View() == Promoted(TakenBy(old(View()), op))
      ensures old(elems) != [] ==> op in readyDequeues && readyDequeues[op] == old(elems)[0]
    {
      ghost var q := View();
      if elems != [] {
        TakenByKeeps(q, op);
        TakeFor(op);
        PromoteWaitingEnqueues();
      } else {
        DequeueWaitsKeeps(q, op);
        waitingDequeues, dequeues := waitingDequeues + [op], dequeues + [op];
        distinct := distinct && NewDequeue(q, op);
      }
    }

    /** The value assigned to the request, once. */
    method FollowUpDequeue(op: int) returns (value: Option<int>)
      requires Valid()
      modifies `readyDequeues, `dequeuesDone
      ensures Valid() && readyDequeues == old(readyDequeues) - {op}
      ensures dequeuesDone == old(dequeuesDone) + if value.Some? then {op} else {}
      ensures value == if op in old(readyDequeues) then Some(old(readyDequeues)[op]) else None
      ensures distinct && value.Some? ==> op in deliveryOf && value.value == delivered[deliveryOf[op]]
    {
      if op !in readyDequeues {
        return None;
      }
      value := Some(readyDequeues[op]);
      readyDequeues := readyDequeues - {op};
      dequeuesDone := dequeuesDone + {op};
    }
  }

  /** Two hand-offs leave a queue that holds nothing and takes nothing. */
  method Starved() returns (queue: BoundedQueue, taken: bool)
    ensures queue.Valid() && queue.delivered == queue.accepted && |queue.accepted| == CAPACITY && queue.elems == []
      && !taken
  {
    queue := new BoundedQueue();
    for k: int := 0 to CAPACITY
      invariant queue.Valid() && fresh(queue) && queue.waitingDequeues == [] && queue.handoffs == |queue.accepted| == k
      invariant queue.elems == [] && queue.waitingEnqueues == []
    {
      queue.RequestDequeue(k);
      taken := queue.TryEnqueue(k);
    }
    taken := queue.TryEnqueue(CAPACITY);
  }
}

/** Pending operations: dropping them, and cutting a history short. */
module Completions {
  import opened Options
  import opened Linearization

  ghost function Droppable(events: seq<Event>): seq<Event> {
    seq(|events|, i requires 0 <= i < |events| =>
      if events[i].Invoke? then events[i].(droppable := true) else events[i])
  }

  lemma {:induction false} ReplayAppend<S>(p: Problem<S>, s: S, order: seq<nat>, i: nat)
    ensures Replay(p, s, order + [i]) ==
            match Replay(p, s, order) case None => None case Some(t) => p.apply(i, t)
  {
    if order == [] {
      assert order + [i] == [i] && [i][1..] == [];
    } else if p.apply(order[0], s).Some? {
      assert (order + [i])[1..] == order[1..] + [i];
      ReplayAppend(p, p.apply(order[0], s).value, order[1..], i);
    }
  }

  /** A pending operation that applies can always be linearized last. */
  lemma AppendPending<S(!new)>(p: Problem<S>, s: S, order: seq<nat>, i: nat)
    requires IsLinearization(p, {}, s, order) && Pending(p.events, i) && i !in order
    requires forall t :: p.apply(i, t).Some? && p.complete(t)
    ensures IsLinearization(p, {}, s, order + [i])
  {
    ReplayAppend(p, s, order, i);
    var order' := order + [i];
    forall j, k | 0 <= j < k < |order'| ensures !Precedes(p.events, order'[k], order'[j]) && order'[j] != order'[k] {
      if k < |order| { assert order'[j] == order[j] && order'[k] == order[k]; }
    }
    forall e: nat | e < |p.events| ensures Accounts(p.events, order', e) {
      assert Accounts(p.events, order, e);
      assert forall x :: x in order ==> x in order';
    }
  }

  /** For total operations, never dropping a pending one decides full linearizability: the verdict is
      the one with every pending operation droppable. */
  lemma DroppingUnneeded<S(!new)>(p: Problem<S>, s: S)
    requires forall t :: p.complete(t)
    requires forall i: nat, t :: Pending(p.events, i) ==> p.apply(i, t).Some?
    ensures Linearizable(p, s) <==> Linearizable(p.(events := Droppable(p.events)), s)
  {
    var q := p.(events := Droppable(p.events));
    forall order | IsLinearization(p, {}, s, order) ensures IsLinearization(q, {}, s, order) {
      SameReplayEvents(p, q, s, order);
      forall e: nat | e < |q.events| ensures Accounts(q.events, order, e) {
        assert Accounts(p.events, order, e);
        assert forall i: nat :: Closes(p.events, e, i) ==> Closes(q.events, e, i);
      }
    }
    forall order | IsLinearization(q, {}, s, order) ensures Linearizable(p, s) {
      TakeAllPending(p, q, s, order);
    }
  }

  lemma {:induction false} SameReplayEvents<S>(p: Problem<S>, q: Problem<S>, s: S, order: seq<nat>)
    requires q.apply == p.apply
    ensures Replay(p, s, order) == Replay(q, s, order)
  {
    if order != [] && p.apply(order[0], s).Some? {
      SameReplayEvents(p, q, p.apply(order[0], s).value, order[1..]);
    }
  }

  ghost function Untaken(events: seq<Event>, order: seq<nat>): set<nat> {
    set i: nat | i < |events| && Pending(events, i) && i !in order
  }

  lemma {:induction false} TakeAllPending<S(!new)>(p: Problem<S>, q: Problem<S>, s: S, order: seq<nat>)
    requires forall t :: p.complete(t)
    requires forall i: nat, t :: Pending(p.events, i) ==> p.apply(i, t).Some?
    requires q == p.(events := Droppable(p.events)) && IsLinearization(q, {}, s, order)
    ensures Linearizable(p, s)
    decreases Untaken(p.events, order)
  {
    if i: nat :| i < |p.events| && Pending(p.events, i) && i !in order {
      assert Pending(q.events, i);
      AppendPending(q, s, order, i);
      assert i in Untaken(p.events, order) && i !in Untaken(p.events, order + [i]);
      TakeAllPending(p, q, s, order + [i]);
    } else {
      SameReplayEvents(p, q, s, order);
      forall e: nat | e < |p.events| ensures Accounts(p.events, order, e) {
        assert Accounts(q.events, order, e);
        assert forall i: nat :: Closes(q.events, e, i) ==> Closes(p.events, e, i);
      }
      assert forall i :: i in order ==> IsInvoke(q.events, i);
      assert IsLinearization(p, {}, s, order);
    }
  }

  // ---- Prefixes ------------------------------------------------------------------------------------

  function CutResponse(response: Option<nat>, k: nat): Option<nat> {
    if response.Some? && response.value < k then response else None
  }

  /** `q` is `p` cut after `k` events: responses cut off leave their operations pending, and an
      operation that applied with its result still applies, to the same state, without it. */
  ghost predicate CutOf<S(!new)>(q: Problem<S>, p: Problem<S>, k: nat) {
    && |q.events| == k <= |p.events|
    && (forall i: nat :: i < k ==> (q.events[i].Invoke? <==> p.events[i].Invoke?))
    && (forall i: nat :: i < k && p.events[i].Invoke? ==> q.events[i].response == CutResponse(p.events[i].response, k))
    && (forall i: nat :: Pending(q.events, i) ==> q.events[i].droppable)
    && (forall i: nat, s :: i < k && p.events[i].Invoke? && p.apply(i, s).Some? ==> q.apply(i, s) == p.apply(i, s))
  }

  /** How much of `order` is needed: up to the last operation that returned before `k`. */
  ghost function Kept(events: seq<Event>, order: seq<nat>, k: nat): (m: nat)
    ensures m <= |order|
    ensures m > 0 ==> Precedes(events, order[m - 1], k)
    ensures forall j :: m <= j < |order| ==> !Precedes(events, order[j], k)
  {
    if order == [] then 0
    else if Precedes(events, order[|order| - 1], k) then |order|
    else Kept(events, order[..|order| - 1], k)
  }

  lemma {:induction false} CutReplay<S(!new)>(q: Problem<S>, p: Problem<S>, k: nat, s: S, order: seq<nat>, m: nat)
    requires CutOf(q, p, k) && m <= |order| && Replay(p, s, order).Some?
    requires forall j :: 0 <= j < m ==> IsInvoke(p.events, order[j]) && order[j] < k
    ensures Replay(q, s, order[..m]).Some?
  {
    if m > 0 {
      assert order[..m][1..] == order[1..][..m - 1];
      assert q.apply(order[0], s) == p.apply(order[0], s);
      CutReplay(q, p, k, p.apply(order[0], s).value, order[1..], m - 1);
    }
  }

  /** Linearizability is prefix-closed. */
  lemma CutLinearizable<S(!new)>(q: Problem<S>, p: Problem<S>, k: nat, s: S)
    requires ValidPairing(p.events) && CutOf(q, p, k) && Linearizable(p, s)
    requires forall t :: q.complete(t)
    ensures Linearizable(q, s)
  {
    var order :| IsLinearization(p, {}, s, order);
    var m := Kept(p.events, order, k);
    var order' := order[..m];
    forall j | 0 <= j < m ensures IsInvoke(p.events, order[j]) && order[j] < k {
      assert order[j] in order;
      if j < m - 1 {
        assert !Precedes(p.events, order[m - 1], order[j]);
      } else {
        assert Closes(p.events, p.events[order[j]].response.value, order[j]);
      }
    }
    CutReplay(q, p, k, s, order, m);
    forall i, j | 0 <= i < j < m ensures !Precedes(q.events, order'[j], order'[i]) && order'[i] != order'[j] {
      assert !Precedes(p.events, order[j], order[i]);
    }
    forall e: nat | e < k ensures Accounts(q.events, order', e) {
      assert Accounts(p.events, order, e);
      CutAccounts(q, p, k, order, e);
    }
    assert IsLinearization(q, {}, s, order');
  }

  lemma CutAccounts<S(!new)>(q: Problem<S>, p: Problem<S>, k: nat, order: seq<nat>, e: nat)
    requires ValidPairing(p.events) && CutOf(q, p, k) && e < k && Accounts(p.events, order, e)
    ensures Accounts(q.events, order[..Kept(p.events, order, k)], e)
  {
    var m := Kept(p.events, order, k);
    if p.events[e].Response? {
      var i: nat :| i in order && Closes(p.events, e, i);
      var j :| 0 <= j < |order| && order[j] == i;
      assert Precedes(p.events, order[j], k);
      assert order[..m][j] == i && Closes(q.events, e, i);
    } else if q.events[e].response.Some? {
      var j :| 0 <= j < |order| && order[j] == e;
      assert Precedes(p.events, order[j], k);
      assert order[..m][j] == e;
    } else {
      assert Pending(q.events, e);
    }
  }
}

/** Linearizations of a history, stated independently of every checker.

    A `Problem` is what the checkers see of a history: which events are invokes, which response
    closes which invoke, what applying an invoke does to a specification state, and the test a
    finished linearization must pass. */
module Linearization {
  import opened Options

  /** One history event. `droppable` matters only for an invoke without a response. */
  datatype Event = Invoke(response: Option<nat>, droppable: bool) | Response

  datatype Problem<!S> = Problem(
    events: seq<Event>,
    apply: (nat, S) -> Option<S>,
    complete: S -> bool)

  predicate IsInvoke(events: seq<Event>, i: nat) {
    i < |events| && events[i].Invoke?
  }

  predicate Pending(events: seq<Event>, i: nat) {
    IsInvoke(events, i) && events[i].response.None?
  }

  predicate Closes(events: seq<Event>, r: nat, i: nat) {
    IsInvoke(events, i) && events[i].response == Some(r)
  }

  /** Every response index points forward to a response, and no two invokes share one. */
  ghost predicate ValidPairing(events: seq<Event>) {
    && (forall i: nat, r: nat :: Closes(events, r, i) ==> i < r < |events| && events[r].Response?)
    && (forall i: nat, j: nat, r: nat :: Closes(events, r, i) && Closes(events, r, j) ==> i == j)
  }

  /** Real-time order: `a` returned before `b` was invoked. */
  predicate Precedes(events: seq<Event>, a: nat, b: nat) {
    IsInvoke(events, a) && events[a].response.Some? && events[a].response.value < b
  }

  ghost predicate RealTime(events: seq<Event>, order: seq<nat>) {
    forall j, k :: 0 <= j < k < |order| ==> !Precedes(events, order[k], order[j])
  }

  ghost predicate Distinct(order: seq<nat>) {
    forall j, k :: 0 <= j < k < |order| ==> order[j] != order[k]
  }

  /** The order accounts for event `e`: an invoke is in it or is pending and droppable,
      a response closes an invoke that is in it. */
  ghost predicate Accounts(events: seq<Event>, order: seq<nat>, e: nat)
    requires e < |events|
  {
    match events[e]
    case Invoke(response, droppable) => e in order || (response.None? && droppable)
    case Response => exists i: nat :: i in order && Closes(events, e, i)
  }

  function Replay<S>(p: Problem<S>, s: S, order: seq<nat>): Option<S> {
    if order == [] then Some(s)
    else match p.apply(order[0], s)
      case None => None
      case Some(t) => Replay(p, t, order[1..])
  }

  /** `order` completes a run in which the events of `done` are already linearized. */
  ghost predicate IsLinearization<S>(p: Problem<S>, done: set<nat>, s: S, order: seq<nat>) {
    && (forall i :: i in order ==> IsInvoke(p.events, i) && i !in done)
    && Distinct(order)
    && RealTime(p.events, order)
    && (forall e: nat :: e < |p.events| && e !in done ==> Accounts(p.events, order, e))
    && Replay(p, s, order).Some?
    && p.complete(Replay(p, s, order).value)
  }

  ghost predicate Completable<S>(p: Problem<S>, done: set<nat>, s: S) {
    exists order :: IsLinearization(p, done, s, order)
  }

  /** Herlihy and Wing's condition: some order of the operations respects real time, replays
      legally from the initial state with the recorded results, and passes the final test. */
  ghost predicate Linearizable<S>(p: Problem<S>, s: S) {
    Completable(p, {}, s)
  }

  // ---- Replays as sequences of states ----------------------------------------------------------------

  ghost predicate Trace<S>(p: Problem<S>, s: S, order: seq<nat>, states: seq<S>) {
    && |states| == |order| + 1 && states[0] == s
    && forall k :: 0 <= k < |order| ==> p.apply(order[k], states[k]) == Some(states[k + 1])
  }

  lemma {:induction false} ReplayTrace<S>(p: Problem<S>, s: S, order: seq<nat>) returns (states: seq<S>)
    requires Replay(p, s, order).Some?
    ensures Trace(p, s, order, states) && states[|order|] == Replay(p, s, order).value
  {
    if order == [] {
      states := [s];
    } else {
      var rest := ReplayTrace(p, p.apply(order[0], s).value, order[1..]);
      states := [s] + rest;
      forall k | 0 <= k < |order| ensures p.apply(order[k], states[k]) == Some(states[k + 1]) {
        if k > 0 { assert order[1..][k - 1] == order[k] && rest[k - 1] == states[k] && rest[k] == states[k + 1]; }
      }
    }
  }

  lemma {:induction false} TraceReplay<S>(p: Problem<S>, s: S, order: seq<nat>, states: seq<S>)
    requires Trace(p, s, order, states)
    ensures Replay(p, s, order) == Some(states[|order|])
  {
    if order != [] {
      var rest := states[1..];
      forall k | 0 <= k < |order| - 1 ensures p.apply(order[1..][k], rest[k]) == Some(rest[k + 1]) {
        assert p.apply(order[k + 1], states[k + 1]) == Some(states[k + 2]);
      }
      assert p.apply(order[0], states[0]) == Some(states[1]);
      TraceReplay(p, states[1], order[1..], rest);
    }
  }

  // ---- One step of a search --------------------------------------------------------------

  /** Events linearized so far come in whole pairs. */
  ghost predicate Closed(events: seq<Event>, done: set<nat>) {
    && (forall e :: e in done ==> e < |events|)
    && (forall i: nat, r: nat :: Closes(events, r, i) ==> (i in done <==> r in done))
  }

  /** Invoke `i` may come next: every earlier response is already linearized. */
  ghost predicate Available(events: seq<Event>, done: set<nat>, i: nat) {
    && IsInvoke(events, i) && i !in done
    && forall r: nat :: r < i && events[r].Response? ==> r in done
  }

  function Mark(events: seq<Event>, done: set<nat>, i: nat): set<nat>
    requires IsInvoke(events, i)
  {
    done + {i} + if events[i].response.Some? then {events[i].response.value} else {}
  }

  /** Linearizing `i` next, by applying it or by dropping it, can still be completed. */
  ghost predicate Viable<S>(p: Problem<S>, done: set<nat>, s: S, i: nat) {
    Available(p.events, done, i) && (AppliesTo(p, done, s, i) || DropsTo(p, done, s, i))
  }

  ghost predicate AppliesTo<S>(p: Problem<S>, done: set<nat>, s: S, i: nat)
    requires IsInvoke(p.events, i)
  {
    p.apply(i, s).Some? && Completable(p, Mark(p.events, done, i), p.apply(i, s).value)
  }

  ghost predicate DropsTo<S>(p: Problem<S>, done: set<nat>, s: S, i: nat)
    requires IsInvoke(p.events, i)
  {
    Pending(p.events, i) && p.events[i].droppable && Completable(p, done + {i}, s)
  }

  lemma MarkClosed(events: seq<Event>, done: set<nat>, i: nat)
    requires ValidPairing(events) && Closed(events, done) && IsInvoke(events, i)
    ensures Closed(events, Mark(events, done, i))
  {
    assert events[i].response.Some? ==> Closes(events, events[i].response.value, i);
  }

  lemma ApplyFirst<S>(p: Problem<S>, done: set<nat>, s: S, i: nat, order: seq<nat>)
    requires ValidPairing(p.events) && Closed(p.events, done) && Available(p.events, done, i)
    requires p.apply(i, s).Some?
    requires IsLinearization(p, Mark(p.events, done, i), p.apply(i, s).value, order)
    ensures IsLinearization(p, done, s, [i] + order)
  {
    var full := [i] + order;
    assert full[1..] == order;
    forall j, k | 0 <= j < k < |full| ensures !Precedes(p.events, full[k], full[j]) {
      if j == 0 {
        assert full[k] in order;
        assert Precedes(p.events, full[k], i) ==> Closes(p.events, p.events[full[k]].response.value, full[k]);
      } else {
        assert full[j] == order[j - 1] && full[k] == order[k - 1];
      }
    }
    forall j, k | 0 <= j < k < |full| ensures full[j] != full[k] {
      assert full[k] in order;
      if j != 0 { assert full[j] == order[j - 1] && full[k] == order[k - 1]; }
    }
    forall e: nat | e < |p.events| && e !in done ensures Accounts(p.events, full, e) {
      assert i in full;
      if e in Mark(p.events, done, i) {
        assert e == i || Closes(p.events, e, i);
      } else {
        assert Accounts(p.events, order, e);
        assert forall x :: x in order ==> x in full;
      }
    }
  }

  lemma DropFirst<S>(p: Problem<S>, done: set<nat>, s: S, i: nat, order: seq<nat>)
    requires Pending(p.events, i) && p.events[i].droppable
    requires IsLinearization(p, done + {i}, s, order)
    ensures IsLinearization(p, done, s, order)
  {
    forall e: nat | e < |p.events| && e !in done ensures Accounts(p.events, order, e) {
      if e != i { assert Accounts(p.events, order, e); }
    }
  }

  /** The first operation of a linearization was available, and the rest completes it. */
  lemma SplitFirst<S>(p: Problem<S>, done: set<nat>, s: S, order: seq<nat>)
    requires ValidPairing(p.events) && Closed(p.events, done)
    requires IsLinearization(p, done, s, order) && order != []
    ensures Available(p.events, done, order[0]) && p.apply(order[0], s).Some?
    ensures IsLinearization(p, Mark(p.events, done, order[0]), p.apply(order[0], s).value, order[1..])
  {
    var i, rest := order[0], order[1..];
    assert i in order;
    forall r: nat | r < i && p.events[r].Response? ensures r in done {
      assert forall k :: 0 <= k < |order| && Closes(p.events, r, order[k]) ==> Precedes(p.events, order[k], order[0]);
      assert r !in done ==> Accounts(p.events, order, r);
    }
    var done' := Mark(p.events, done, i);
    forall x | x in rest ensures IsInvoke(p.events, x) && x !in done' {
      var k :| 0 <= k < |rest| && rest[k] == x;
      assert order[k + 1] == x && x in order;
      assert x in done' && x != i && x !in done ==> Closes(p.events, x, i);
    }
    forall j, k | 0 <= j < k < |rest| ensures !Precedes(p.events, rest[k], rest[j]) && rest[j] != rest[k] {
      assert rest[j] == order[j + 1] && rest[k] == order[k + 1];
    }
    forall e: nat | e < |p.events| && e !in done' ensures Accounts(p.events, rest, e) {
      assert Accounts(p.events, order, e);
      assert forall x :: x in order <==> x == i || x in rest;
    }
  }

  /** With nothing left to apply, every remaining event is a pending invoke that may be dropped. */
  lemma SplitEmpty<S>(p: Problem<S>, done: set<nat>, s: S, i: nat)
    requires IsLinearization(p, done, s, []) && i < |p.events| && i !in done
    ensures Viable(p, done, s, i)
  {
    assert Accounts(p.events, [], i);
    forall r: nat | r < i && p.events[r].Response? ensures r in done {
      assert r !in done ==> Accounts(p.events, [], r);
    }
    forall e: nat | e < |p.events| && e !in done + {i} ensures Accounts(p.events, [], e) {
      assert Accounts(p.events, [], e);
    }
    assert IsLinearization(p, done + {i}, s, []);
  }

  /** A partial linearization can be completed exactly when some next choice can. */
  lemma StepExact<S>(p: Problem<S>, done: set<nat>, s: S, e: nat)
    requires ValidPairing(p.events) && Closed(p.events, done)
    requires e < |p.events| && e !in done
    ensures Completable(p, done, s) <==> exists i: nat :: Viable(p, done, s, i)
  {
    if Completable(p, done, s) {
      var order :| IsLinearization(p, done, s, order);
      if order == [] {
        SplitEmpty(p, done, s, e);
      } else {
        SplitFirst(p, done, s, order);
        assert Viable(p, done, s, order[0]);
      }
    }
    forall i: nat | Viable(p, done, s, i) ensures Completable(p, done, s) {
      if AppliesTo(p, done, s, i) {
        var order :| IsLinearization(p, Mark(p.events, done, i), p.apply(i, s).value, order);
        ApplyFirst(p, done, s, i, order);
      } else {
        var order :| IsLinearization(p, done + {i}, s, order);
        DropFirst(p, done, s, i, order);
      }
    }
  }

  /** With every event linearized only the final test is left. */
  lemma AllDone<S>(p: Problem<S>, done: set<nat>, s: S)
    requires forall e: nat :: e < |p.events| ==> e in done
    ensures Completable(p, done, s) <==> p.complete(s)
  {
    if p.complete(s) {
      assert IsLinearization(p, done, s, []);
    }
    if Completable(p, done, s) {
      var order :| IsLinearization(p, done, s, order);
      if order != [] { assert order[0] in order; }
    }
  }

  // ---- Caching by a user-supplied equality ---------------------------------------------------

  /** `equal` relates only states no operation and no final test can tell apart. An equality
      that never holds is one of these. */
  ghost predicate Congruence<S(!new)>(p: Problem<S>, equal: (S, S) -> bool) {
    forall s, t :: equal(s, t) ==> Alike(p, equal, s, t)
  }

  ghost predicate Alike<S>(p: Problem<S>, equal: (S, S) -> bool, s: S, t: S) {
    && (p.complete(s) <==> p.complete(t))
    && forall i: nat :: i < |p.events| ==>
        match (p.apply(i, s), p.apply(i, t))
        case (Some(s'), Some(t')) => equal(s', t')
        case (None, None) => true
        case _ => false
  }

  lemma {:induction false} EqualReplay<S(!new)>(p: Problem<S>, equal: (S, S) -> bool, s: S, t: S, order: seq<nat>)
    requires Congruence(p, equal) && equal(s, t)
    requires forall i :: i in order ==> i < |p.events|
    ensures Replay(p, s, order).Some? <==> Replay(p, t, order).Some?
    ensures Replay(p, s, order).Some? ==> equal(Replay(p, s, order).value, Replay(p, t, order).value)
  {
    if order != [] {
      assert Alike(p, equal, s, t) && order[0] in order;
      assert forall i :: i in order[1..] ==> i in order;
      if p.apply(order[0], s).Some? {
        EqualReplay(p, equal, p.apply(order[0], s).value, p.apply(order[0], t).value, order[1..]);
      }
    }
  }

  /** Equal states are completed by the same orders. */
  lemma EqualCompletable<S(!new)>(p: Problem<S>, equal: (S, S) -> bool, done: set<nat>, s: S, t: S)
    requires Congruence(p, equal) && equal(s, t)
    ensures Completable(p, done, s) <==> Completable(p, done, t)
  {
    forall order | IsLinearization(p, done, s, order) ensures IsLinearization(p, done, t, order) {
      EqualReplay(p, equal, s, t, order);
      assert Alike(p, equal, Replay(p, s, order).value, Replay(p, t, order).value);
    }
    forall order | IsLinearization(p, done, t, order) ensures IsLinearization(p, done, s, order) {
      EqualReplay(p, equal, s, t, order);
      assert Alike(p, equal, Replay(p, s, order).value, Replay(p, t, order).value);
    }
  }

  // ---- Problems that differ only in their function values -----------------------------------

  ghost predicate SameProblem<S(!new)>(p: Problem<S>, q: Problem<S>) {
    && p.events == q.events
    && (forall i: nat, s :: i < |p.events| && p.events[i].Invoke? ==> p.apply(i, s) == q.apply(i, s))
    && (forall s :: p.complete(s) == q.complete(s))
  }

  lemma {:induction false} SameReplay<S(!new)>(p: Problem<S>, q: Problem<S>, s: S, order: seq<nat>)
    requires SameProblem(p, q)
    requires forall i :: i in order ==> IsInvoke(p.events, i)
    ensures Replay(p, s, order) == Replay(q, s, order)
  {
    if order != [] {
      assert order[0] in order && p.apply(order[0], s) == q.apply(order[0], s);
      assert forall i :: i in order[1..] ==> i in order;
      if p.apply(order[0], s).Some? {
        SameReplay(p, q, p.apply(order[0], s).value, order[1..]);
      }
    }
  }

  lemma SameLinearizable<S(!new)>(p: Problem<S>, q: Problem<S>, s: S)
    requires SameProblem(p, q)
    ensures Linearizable(p, s) <==> Linearizable(q, s)
  {
    forall order | IsLinearization(p, {}, s, order) || IsLinearization(q, {}, s, order)
      ensures IsLinearization(p, {}, s, order) && IsLinearization(q, {}, s, order)
    {
      SameReplay(p, q, s, order);
    }
  }
}

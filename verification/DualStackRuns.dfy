/** Runs of the dual stack: what a follow-up returns, told from the calls alone, and the same for the stack over heap
    nodes and for its specification. */
module DualStackRuns {
  import opened Options
  import opened DualStack

  // ---- Which push answers which request -------------------------------------------------------------------------

  /** Pushes minus requests among the first `k` calls. */
  ghost function Level(calls: seq<Call>, k: nat): int
    requires k <= |calls|
  {
    if k == 0 then 0
    else Level(calls, k - 1) + match calls[k - 1] case Pushing(_) => 1 case Requesting => -1 case Following(_) => 0
  }

  ghost function Requests(calls: seq<Call>, k: nat): nat
    requires k <= |calls|
  {
    if k == 0 then 0 else Requests(calls, k - 1) + One(calls[k - 1].Requesting?)
  }

  /** The ticket of the request at `q`: requests are numbered from 1. */
  ghost function TicketOf(calls: seq<Call>, q: nat): int
    requires q < |calls|
  {
    Requests(calls, q) + 1
  }

  /** The push at `p` answers the request at `q`. As long as there are more pushes than requests, that is the last push
      not answered yet; otherwise it is the first later push that finds no younger request unanswered. */
  ghost predicate Supplies(calls: seq<Call>, p: nat, q: nat) {
    && p < |calls| && q < |calls| && calls[p].Pushing? && calls[q].Requesting?
    && if Level(calls, q) > 0 then LastAbove(calls, p, q) else FirstBack(calls, q, p)
  }

  /** Since the push at `p` the level has stayed above that before it, up to the request at `q`, which leads back. */
  ghost predicate LastAbove(calls: seq<Call>, p: nat, q: nat)
    requires p < |calls| && q < |calls|
  {
    p < q && Level(calls, q) == Level(calls, p) + 1 && forall j: nat :: p < j <= q ==> Level(calls, j) > Level(calls, p)
  }

  /** Since the request at `q` the level has stayed below that before it, up to the push at `p`, which leads back. */
  ghost predicate FirstBack(calls: seq<Call>, q: nat, p: nat)
    requires p < |calls| && q < |calls|
  {
    q < p && Level(calls, p) == Level(calls, q) - 1 && forall j: nat :: q < j <= p ==> Level(calls, j) < Level(calls, q)
  }

  /** Before call `k` the request at `q` has its value, from the push at `p`, and no follow-up took it yet. */
  ghost predicate Waits(calls: seq<Call>, k: nat, p: nat, q: nat) {
    && k <= |calls| && p < k && q < k && Supplies(calls, p, q)
    && forall j: nat :: p < j < k && q < j ==> calls[j] != Following(TicketOf(calls, q))
  }

  /** The follow-up at `k` returns what the push at `p` brought for the request at `q`. */
  ghost predicate Delivers(calls: seq<Call>, k: nat, p: nat, q: nat) {
    k < |calls| && Waits(calls, k, p, q) && calls[k] == Following(TicketOf(calls, q))
  }

  // ---- Last in, first out -------------------------------------------------------------------------------------------

  lemma {:induction false} LevelAcross(calls: seq<Call>, a: nat, k: nat, rising: bool)
    requires a <= k <= |calls|
    requires forall j :: a <= j < k ==> if rising then calls[j].Pushing? else calls[j].Requesting?
    ensures Level(calls, k) == Level(calls, a) + if rising then k - a else a - k
  {
    if a < k { LevelAcross(calls, a, k - 1, rising); }
  }

  /** With nothing pending, the requests after `n` pushes get their values from the last to the first. */
  lemma {:induction false} LastInFirstOut(calls: seq<Call>, a: nat, n: nat, i: nat)
    requires a + 2 * n <= |calls| && i < n && Level(calls, a) >= 0
    requires forall j :: a <= j < a + n ==> calls[j].Pushing?
    requires forall j :: a + n <= j < a + 2 * n ==> calls[j].Requesting?
    ensures Supplies(calls, a + n - 1 - i, a + n + i)
  {
    forall j: nat | a <= j <= a + n + i
      ensures Level(calls, j) == Level(calls, a) + if j <= a + n then j - a else a + 2 * n - j
    {
      LevelAcross(calls, a, if j <= a + n then j else a + n, true);
      if a + n < j { LevelAcross(calls, a + n, j, false); }
    }
  }

  /** With an empty stack, the pushes after `n` requests answer them from the latest to the earliest. */
  lemma {:induction false} LatestRequestFirst(calls: seq<Call>, a: nat, n: nat, i: nat)
    requires a + 2 * n <= |calls| && i < n && Level(calls, a) <= 0
    requires forall j :: a <= j < a + n ==> calls[j].Requesting?
    requires forall j :: a + n <= j < a + 2 * n ==> calls[j].Pushing?
    ensures Supplies(calls, a + n + i, a + n - 1 - i)
  {
    forall j: nat | a <= j <= a + n + i
      ensures Level(calls, j) == Level(calls, a) - if j <= a + n then j - a else a + 2 * n - j
    {
      LevelAcross(calls, a, if j <= a + n then j else a + n, false);
      if a + n < j { LevelAcross(calls, a + n, j, true); }
    }
  }

  /** No request is answered twice, and no push answers two. */
  lemma {:induction false} SuppliesOnce(calls: seq<Call>, p: nat, q: nat, p': nat, q': nat)
    requires Supplies(calls, p, q) && Supplies(calls, p', q')
    ensures p == p' <==> q == q'
  {
    assert Level(calls, p + 1) == Level(calls, p) + 1 && Level(calls, p' + 1) == Level(calls, p') + 1;
    assert Level(calls, q + 1) == Level(calls, q) - 1 && Level(calls, q' + 1) == Level(calls, q') - 1;
  }

  // ---- The state after some calls -----------------------------------------------------------------------------------

  lemma {:induction false} TicketsDiffer(calls: seq<Call>, q: nat, k: nat)
    requires q < k <= |calls| && calls[q].Requesting?
    ensures TicketOf(calls, q) <= Requests(calls, k)
  {
    if q + 1 < k { TicketsDiffer(calls, q, k - 1); }
  }

  /** Place `i` of the stack holds the value of the push that last raised the level above `i`. */
  ghost predicate Raised(calls: seq<Call>, k: nat, p: nat, i: int) {
    && p < k <= |calls| && calls[p].Pushing? && Level(calls, p) == i
    && forall j: nat :: p < j <= k ==> Level(calls, j) > i
  }

  /** Place `i` of the pending requests holds the ticket of the one that last lowered the level below `-i`. */
  ghost predicate Lowered(calls: seq<Call>, k: nat, q: nat, i: int) {
    && q < k <= |calls| && calls[q].Requesting? && Level(calls, q) == -i
    && forall j: nat :: q < j <= k ==> Level(calls, j) < -i
  }

  ghost predicate StackHolds(calls: seq<Call>, k: nat, stack: seq<int>, i: nat)
    requires i < |stack|
  {
    exists p: nat :: Raised(calls, k, p, i) && calls[p].v == stack[i]
  }

  ghost predicate PendingHolds(calls: seq<Call>, k: nat, pending: seq<int>, i: nat)
    requires i < |pending|
  {
    exists q: nat :: Lowered(calls, k, q, i) && TicketOf(calls, q) == pending[i]
  }

  ghost predicate SlotFrom(calls: seq<Call>, k: nat, id: int) {
    exists p: nat, q: nat :: Waits(calls, k, p, q) && TicketOf(calls, q) == id
  }

  /** The state of the specification, told from the calls. */
  ghost predicate Explains(calls: seq<Call>, k: nat, s: Spec) {
    && k <= |calls| && SpecValid(s) && s.next == Requests(calls, k) + 1
    && Level(calls, k) == |s.stack| - |s.pending|
    && (forall i: nat :: i < |s.stack| ==> StackHolds(calls, k, s.stack, i))
    && (forall i: nat :: i < |s.pending| ==> PendingHolds(calls, k, s.pending, i))
    && (forall p: nat, q: nat :: Waits(calls, k, p, q) ==> Holds(s.slots, TicketOf(calls, q), calls[p].v))
    && (forall id :: id in s.slots && s.slots[id].Some? ==> SlotFrom(calls, k, id))
  }

  // A push or a request changes the slots by at most one pair.

  /** The pairs that wait after a call that is no follow-up are the earlier ones and those of the call. */
  lemma {:induction false} WaitsMore(calls: seq<Call>, k: nat, p: nat, q: nat)
    requires k < |calls| && !calls[k].Following?
    ensures Waits(calls, k + 1, p, q) <==>
      Waits(calls, k, p, q) || (Supplies(calls, p, q) && (p == k > q || q == k > p))
  {
    if Waits(calls, k, p, q) {
      assert forall j: nat :: p < j < k && q < j ==> calls[j] != Following(TicketOf(calls, q));
    }
  }

  lemma {:induction false} WaitsTaken(calls: seq<Call>, k: nat, p: nat, q: nat)
    requires k < |calls| && calls[k].Following?
    ensures Waits(calls, k + 1, p, q) <==> Waits(calls, k, p, q) && calls[k] != Following(TicketOf(calls, q))
  {
    if Waits(calls, k, p, q) && calls[k] != Following(TicketOf(calls, q)) {
      assert forall j: nat :: p < j < k && q < j ==> calls[j] != Following(TicketOf(calls, q));
    }
  }

  ghost predicate SlotsExplained(calls: seq<Call>, k: nat, slots: map<int, Option<int>>) {
    && (forall p: nat, q: nat :: Waits(calls, k, p, q) ==> Holds(slots, TicketOf(calls, q), calls[p].v))
    && (forall id :: id in slots && slots[id].Some? ==> SlotFrom(calls, k, id))
  }

  /** A call that completes the pair of `p` and `q` fills the slot of `q`. */
  lemma {:induction false} SlotsFilled(calls: seq<Call>, k: nat, slots: map<int, Option<int>>, p: nat, q: nat)
    requires k < |calls| && !calls[k].Following? && SlotsExplained(calls, k, slots)
    requires Supplies(calls, p, q) && (p == k > q || q == k > p)
    requires TicketOf(calls, q) !in slots || slots[TicketOf(calls, q)].None?
    ensures SlotsExplained(calls, k + 1, slots[TicketOf(calls, q) := Some(calls[p].v)])
  {
    var id := TicketOf(calls, q);
    var slots' := slots[id := Some(calls[p].v)];
    forall p': nat, q': nat | Waits(calls, k + 1, p', q') ensures Holds(slots', TicketOf(calls, q'), calls[p'].v) {
      WaitsMore(calls, k, p', q');
      SuppliesOnce(calls, p, q, p', q');
    }
    WaitsMore(calls, k, p, q);
    forall x | x in slots' && slots'[x].Some? ensures SlotFrom(calls, k + 1, x) {
      if x != id { SlotKept(calls, k, x); }
    }
  }

  lemma {:induction false} SlotKept(calls: seq<Call>, k: nat, id: int)
    requires k < |calls| && SlotFrom(calls, k, id) && calls[k] != Following(id)
    ensures SlotFrom(calls, k + 1, id)
  {
    var p: nat, q: nat :| Waits(calls, k, p, q) && TicketOf(calls, q) == id;
    if calls[k].Following? { WaitsTaken(calls, k, p, q); } else { WaitsMore(calls, k, p, q); }
  }

  /** A call that completes no pair leaves the filled slots as they are. */
  lemma {:induction false} SlotsKept(calls: seq<Call>, k: nat, slots: map<int, Option<int>>,
                                     slots': map<int, Option<int>>)
    requires k < |calls| && !calls[k].Following? && SlotsExplained(calls, k, slots)
    requires forall p: nat, q: nat :: Supplies(calls, p, q) ==> !(p == k > q) && !(q == k > p)
    requires forall id, v :: Holds(slots', id, v) <==> Holds(slots, id, v)
    ensures SlotsExplained(calls, k + 1, slots')
  {
    forall p: nat, q: nat | Waits(calls, k + 1, p, q) ensures Holds(slots', TicketOf(calls, q), calls[p].v) {
      WaitsMore(calls, k, p, q);
    }
    forall x | x in slots' && slots'[x].Some? ensures SlotFrom(calls, k + 1, x) {
      assert Holds(slots', x, slots'[x].value);
      assert Holds(slots, x, slots'[x].value);
      SlotKept(calls, k, x);
    }
  }

  /** A follow-up empties its slot. */
  lemma {:induction false} SlotsTaken(calls: seq<Call>, k: nat, slots: map<int, Option<int>>, id: int)
    requires k < |calls| && calls[k] == Following(id) && SlotsExplained(calls, k, slots)
    ensures SlotsExplained(calls, k + 1, if id in slots && slots[id].Some? then slots - {id} else slots)
  {
    var slots' := if id in slots && slots[id].Some? then slots - {id} else slots;
    forall p: nat, q: nat | Waits(calls, k + 1, p, q) ensures Holds(slots', TicketOf(calls, q), calls[p].v) {
      WaitsTaken(calls, k, p, q);
    }
    forall x | x in slots' && slots'[x].Some? ensures SlotFrom(calls, k + 1, x) {
      SlotKept(calls, k, x);
    }
  }

  // The places below the level keep what they hold.

  lemma {:induction false} StackKept(calls: seq<Call>, k: nat, stack: seq<int>, stack': seq<int>, i: nat)
    requires k < |calls| && i < |stack| && i < |stack'| && StackHolds(calls, k, stack, i) && stack'[i] == stack[i]
    requires Level(calls, k + 1) > i
    ensures StackHolds(calls, k + 1, stack', i)
  {
    var p: nat :| Raised(calls, k, p, i) && calls[p].v == stack[i];
    assert Raised(calls, k + 1, p, i);
  }

  lemma {:induction false} PendingKept(calls: seq<Call>, k: nat, pending: seq<int>, pending': seq<int>, i: nat)
    requires k < |calls| && i < |pending| && i < |pending'| && PendingHolds(calls, k, pending, i)
    requires pending'[i] == pending[i] && Level(calls, k + 1) + i < 0
    ensures PendingHolds(calls, k + 1, pending', i)
  {
    var q: nat :| Lowered(calls, k, q, i) && TicketOf(calls, q) == pending[i];
    assert Lowered(calls, k + 1, q, i);
  }

  lemma {:induction false} PushExplained(calls: seq<Call>, k: nat, s: Spec)
    requires k < |calls| && Explains(calls, k, s) && calls[k].Pushing?
    ensures Explains(calls, k + 1, After(s, calls[k]))
  {
    var s', n := Pushed(s, calls[k].v), k + 1;
    PushValid(s, calls[k].v);
    forall i: nat | i < |s'.stack| ensures StackHolds(calls, n, s'.stack, i) {
      if i < |s.stack| {
        StackKept(calls, k, s.stack, s'.stack, i);
      } else {
        assert Raised(calls, k + 1, k, i);
      }
    }
    forall i: nat | i < |s'.pending| ensures PendingHolds(calls, n, s'.pending, i) {
      PendingKept(calls, k, s.pending, s'.pending, i);
    }
    if s.pending != [] {
      var last := |s.pending| - 1;
      assert PendingHolds(calls, k, s.pending, last);
      var q: nat :| Lowered(calls, k, q, last) && TicketOf(calls, q) == s.pending[last];
      assert Supplies(calls, k, q);
      SlotsFilled(calls, k, s.slots, k, q);
    } else {
      SlotsKept(calls, k, s.slots, s.slots);
    }
  }

  lemma {:induction false} RequestExplained(calls: seq<Call>, k: nat, s: Spec)
    requires k < |calls| && Explains(calls, k, s) && calls[k].Requesting?
    ensures Explains(calls, k + 1, After(s, calls[k]))
  {
    var s', n := Requested(s), k + 1;
    PopRequestValid(s);
    forall i: nat | i < |s'.stack| ensures StackHolds(calls, n, s'.stack, i) {
      StackKept(calls, k, s.stack, s'.stack, i);
    }
    forall i: nat | i < |s'.pending| ensures PendingHolds(calls, n, s'.pending, i) {
      if i < |s.pending| {
        PendingKept(calls, k, s.pending, s'.pending, i);
      } else {
        assert Lowered(calls, k + 1, k, i);
      }
    }
    if s.stack != [] {
      var last := |s.stack| - 1;
      assert StackHolds(calls, k, s.stack, last);
      var p: nat :| Raised(calls, k, p, last) && calls[p].v == s.stack[last];
      assert Supplies(calls, p, k);
      SlotsFilled(calls, k, s.slots, p, k);
    } else {
      SlotsKept(calls, k, s.slots, s'.slots);
    }
  }

  lemma {:induction false} FollowUpExplained(calls: seq<Call>, k: nat, s: Spec)
    requires k < |calls| && Explains(calls, k, s) && calls[k].Following?
    ensures Explains(calls, k + 1, After(s, calls[k]))
  {
    var s', n := FollowedUp(s, calls[k].id), k + 1;
    FollowUpValid(s, calls[k].id);
    forall i: nat | i < |s'.stack| ensures StackHolds(calls, n, s'.stack, i) {
      StackKept(calls, k, s.stack, s'.stack, i);
    }
    forall i: nat | i < |s'.pending| ensures PendingHolds(calls, n, s'.pending, i) {
      PendingKept(calls, k, s.pending, s'.pending, i);
    }
    SlotsTaken(calls, k, s.slots, calls[k].id);
  }

  lemma {:induction false} CallExplained(calls: seq<Call>, k: nat, s: Spec)
    requires k < |calls| && Explains(calls, k, s)
    ensures Explains(calls, k + 1, After(s, calls[k]))
  {
    match calls[k]
    case Pushing(_) => PushExplained(calls, k, s);
    case Requesting => RequestExplained(calls, k, s);
    case Following(_) => FollowUpExplained(calls, k, s);
  }

  // ---- What the calls return ------------------------------------------------------------------------------------

  /** A request returns the next ticket. A follow-up returns the value that waits for its request, or 0. */
  ghost predicate Returns(calls: seq<Call>, k: nat, r: int)
    requires k < |calls|
  {
    && (calls[k].Requesting? ==> r == TicketOf(calls, k))
    && (forall p: nat, q: nat :: Delivers(calls, k, p, q) ==> r == calls[p].v)
    && (calls[k].Following? && (forall p: nat, q: nat :: !Delivers(calls, k, p, q)) ==> r == 0)
  }

  /** The results of the first `i` calls, after which the specification is in state `s`. */
  ghost predicate AllReturn(calls: seq<Call>, i: nat, s: Spec, results: seq<int>) {
    && i <= |calls| && Explains(calls, i, s) && |results| == i
    && forall k: nat :: k < i ==> Returns(calls, k, results[k])
  }

  lemma {:induction false} OneMoreReturns(calls: seq<Call>, i: nat, s: Spec, results: seq<int>)
    requires i < |calls| && AllReturn(calls, i, s, results)
    ensures AllReturn(calls, i + 1, After(s, calls[i]), results + [Result(s, calls[i])])
  {
    ResultReturns(calls, i, s);
    CallExplained(calls, i, s);
  }

  lemma {:induction false} ResultReturns(calls: seq<Call>, k: nat, s: Spec)
    requires k < |calls| && Explains(calls, k, s)
    ensures Returns(calls, k, Result(s, calls[k]))
  {
    if calls[k].Following? && calls[k].id in s.slots && s.slots[calls[k].id].Some? {
      assert SlotFrom(calls, k, calls[k].id);
      var p: nat, q: nat :| Waits(calls, k, p, q) && TicketOf(calls, q) == calls[k].id;
      assert Delivers(calls, k, p, q);
    }
  }

  // ---- Side by side ---------------------------------------------------------------------------------------------

  /** Follow-ups use ticket 0 or a ticket issued before. */
  ghost predicate Sensible(calls: seq<Call>) {
    forall k: nat :: k < |calls| && calls[k].Following? ==> 0 <= calls[k].id <= Requests(calls, k)
  }

  ghost predicate Matched(stack: DualTreiberStack, split: DualStackSplit, tickets: seq<Ticket>)
    reads stack, stack.nodes, split
  {
    && stack.Valid() && stack.spec == split.View() && |tickets| == |stack.nodes|
    && forall k :: 0 <= k < |tickets| ==> tickets[k] == Ticket(k + 1, stack.nodes[k])
  }

  /** One call on both. */
  method Both(stack: DualTreiberStack, split: DualStackSplit, tickets: seq<Ticket>, call: Call)
    returns (tickets': seq<Ticket>, r: int, r': int)
    requires Matched(stack, split, tickets) && (call.Following? ==> 0 <= call.id <= |tickets|)
    modifies stack, stack.nodes, split
    ensures Matched(stack, split, tickets') && |tickets'| == |tickets| + One(call.Requesting?)
    ensures r == r' == Result(old(split.View()), call) && split.View() == After(old(split.View()), call)
    ensures forall k :: 0 <= k < |stack.nodes| ==> stack.nodes[k] in old(stack.nodes) || fresh(stack.nodes[k])
  {
    tickets', r, r' := tickets, 0, 0;
    match call
    case Pushing(v) =>
      stack.Push(v);
      split.Push(v);
    case Requesting =>
      var t := stack.PopRequest();
      r' := split.PopRequest();
      tickets', r := tickets + [t], t.id;
    case Following(id) =>
      r := stack.TryPopFollowUp(if id == 0 then Ticket(0, null) else tickets[id - 1]);
      r' := split.TryPopFollowUp(id);
  }

  /** Every sequence of calls gives the same results on the heap nodes and on the specification: a follow-up returns
      what the push that answers its request brought. */
  method SideBySide(calls: seq<Call>) returns (stackResults: seq<int>, specResults: seq<int>)
    requires Sensible(calls)
    ensures stackResults == specResults && |specResults| == |calls|
    ensures forall k: nat :: k < |calls| ==> Returns(calls, k, stackResults[k])
  {
    var stack := new DualTreiberStack();
    var split := new DualStackSplit();
    var tickets: seq<Ticket> := [];
    stackResults, specResults := [], [];
    for i := 0 to |calls|
      invariant fresh(stack) && fresh(split) && forall k :: 0 <= k < |stack.nodes| ==> fresh(stack.nodes[k])
      invariant Matched(stack, split, tickets) && |tickets| == Requests(calls, i)
      invariant stackResults == specResults && AllReturn(calls, i, split.View(), specResults)
    {
      OneMoreReturns(calls, i, split.View(), specResults);
      var r, r';
      tickets, r, r' := Both(stack, split, tickets, calls[i]);
      stackResults, specResults := stackResults + [r], specResults + [r'];
    }
  }
}

/** A dual stack over heap nodes, and the ticket-map specification it must match. */
module DualStack {
  import opened Options

  // ---- The specification ---------------------------------------------------------------------------------

  /** `slots` maps a ticket to its value, or to none while the request is pending. */
  datatype Spec = Spec(stack: seq<int>, pending: seq<int>, slots: map<int, Option<int>>, next: int)

  function Pushed(s: Spec, v: int): Spec {
    if s.pending != [] then
      var last := |s.pending| - 1;
      s.(pending := s.pending[..last], slots := s.slots[s.pending[last] := Some(v)])
    else s.(stack := s.stack + [v])
  }

  function Requested(s: Spec): Spec {
    if s.stack != [] then
      var last := |s.stack| - 1;
      s.(stack := s.stack[..last], slots := s.slots[s.next := Some(s.stack[last])], next := s.next + 1)
    else s.(slots := s.slots[s.next := None], pending := s.pending + [s.next], next := s.next + 1)
  }

  /** What a follow-up returns, and what it leaves. Ticket 0, an unknown ticket and a pending one give 0. */
  function FollowUpResult(s: Spec, id: int): int {
    if id != 0 && id in s.slots && s.slots[id].Some? then s.slots[id].value else 0
  }

  function FollowedUp(s: Spec, id: int): Spec {
    if id != 0 && id in s.slots && s.slots[id].Some? then s.(slots := s.slots - {id}) else s
  }

  /** The slots without a value are those of the pending requests. */
  ghost predicate SpecValid(s: Spec) {
    && s.next >= 1 && (s.stack != [] ==> s.pending == [])
    && (forall id :: id in s.slots ==> 1 <= id < s.next)
    && (forall k :: 0 <= k < |s.pending| ==> s.pending[k] in s.slots && s.slots[s.pending[k]] == None)
    && (forall j, k :: 0 <= j < k < |s.pending| ==> s.pending[j] != s.pending[k])
    && (forall id :: id in s.slots && s.slots[id] == None ==> id in s.pending)
  }

  lemma PushValid(s: Spec, v: int)
    requires SpecValid(s)
    ensures SpecValid(Pushed(s, v))
  {
    if s.pending != [] {
      var last := |s.pending| - 1;
      forall id | id in s.slots && s.slots[id] == None && id != s.pending[last] ensures id in s.pending[..last] {
        assert s.pending == s.pending[..last] + [s.pending[last]];
        assert id in s.pending[..last] + [s.pending[last]];
      }
    }
  }

  lemma PopRequestValid(s: Spec)
    requires SpecValid(s)
    ensures SpecValid(Requested(s))
  {
  }

  lemma FollowUpValid(s: Spec, id: int)
    requires SpecValid(s)
    ensures SpecValid(FollowedUp(s, id))
  {
  }

  // ---- Conservation ------------------------------------------------------------------------------------------

  function One(b: bool): nat { if b then 1 else 0 }

  /** How often `x` is on the stack, and in the slots of the tickets below `n`. */
  ghost function Stacked(stack: seq<int>, x: int): nat {
    if stack == [] then 0 else Stacked(stack[..|stack| - 1], x) + One(stack[|stack| - 1] == x)
  }

  ghost function Held(slots: map<int, Option<int>>, n: int, x: int): nat
    decreases n
  {
    if n <= 0 then 0 else Held(slots, n - 1, x) + One(Holds(slots, n - 1, x))
  }

  ghost predicate Holds(slots: map<int, Option<int>>, id: int, x: int) {
    id in slots && slots[id] == Some(x)
  }

  /** Changing one slot changes the count by what was and what is there. */
  lemma {:induction false} HeldChange(slots: map<int, Option<int>>, slots': map<int, Option<int>>, id: int, n: int,
                                      x: int)
    requires forall k :: 0 <= k < n && k != id ==> (Holds(slots, k, x) <==> Holds(slots', k, x))
    ensures Held(slots', n, x) + One(0 <= id < n && Holds(slots, id, x))
         == Held(slots, n, x) + One(0 <= id < n && Holds(slots', id, x))
    decreases n
  {
    if n > 0 { HeldChange(slots, slots', id, n - 1, x); }
  }

  datatype Call = Pushing(v: int) | Requesting | Following(id: int)

  function After(s: Spec, call: Call): Spec {
    match call
    case Pushing(v) => Pushed(s, v)
    case Requesting => Requested(s)
    case Following(id) => FollowedUp(s, id)
  }

  /** What a call returns: a push nothing, a request its ticket. */
  function Result(s: Spec, call: Call): int {
    match call
    case Pushing(_) => 0
    case Requesting => s.next
    case Following(id) => FollowUpResult(s, id)
  }

  /** How often `x` is in the stack and its slots, and whether a call hands it out. */
  ghost function Inside(s: Spec, x: int): nat { Stacked(s.stack, x) + Held(s.slots, s.next, x) }

  ghost predicate HandsOut(s: Spec, call: Call, x: int) {
    call.Following? && call.id != 0 && Holds(s.slots, call.id, x)
  }

  lemma PushConserves(s: Spec, v: int, x: int)
    requires SpecValid(s)
    ensures Inside(Pushed(s, v), x) == Inside(s, x) + One(v == x)
  {
    if s.pending != [] {
      var id := s.pending[|s.pending| - 1];
      assert s.slots[id].None?;
      HeldChange(s.slots, s.slots[id := Some(v)], id, s.next, x);
    } else {
      assert (s.stack + [v])[..|s.stack|] == s.stack;
    }
  }

  lemma RequestConserves(s: Spec, x: int)
    requires SpecValid(s)
    ensures Inside(Requested(s), x) == Inside(s, x)
  {
    HeldChange(s.slots, Requested(s).slots, s.next, s.next, x);
  }

  lemma FollowUpConserves(s: Spec, id: int, x: int)
    requires SpecValid(s)
    ensures Inside(FollowedUp(s, id), x) + One(HandsOut(s, Following(id), x)) == Inside(s, x)
  {
    if FollowedUp(s, id) != s {
      HeldChange(s.slots, s.slots - {id}, id, s.next, x);
    }
  }

  /** A call moves values, takes in what is pushed and lets out what it returns; it never copies or loses one. */
  lemma Conserves(s: Spec, call: Call, x: int)
    requires SpecValid(s)
    ensures SpecValid(After(s, call))
    ensures Inside(After(s, call), x) + One(HandsOut(s, call, x)) == Inside(s, x) + One(call == Pushing(x))
    ensures HandsOut(s, call, x) ==> FollowUpResult(s, call.id) == x && !HandsOut(After(s, call), call, x)
  {
    match call
    case Pushing(v) =>
      PushValid(s, v);
      PushConserves(s, v, x);
    case Requesting =>
      PopRequestValid(s);
      RequestConserves(s, x);
    case Following(id) =>
      FollowUpValid(s, id);
      FollowUpConserves(s, id, x);
  }

  // ---- The specification as an object ------------------------------------------------------------------------------

  class DualStackSplit {
    var deq: seq<int>
    var pendingRequests: seq<int>
    var ticketState: map<int, Option<int>>
    var nextTicket: int

    function View(): Spec
      reads this
    {
      Spec(deq, pendingRequests, ticketState, nextTicket)
    }

    constructor ()
      ensures View() == Spec([], [], map[], 1) && SpecValid(View())
    {
      deq, pendingRequests, ticketState, nextTicket := [], [], map[], 1;
    }

    method Push(v: int)
      requires SpecValid(View())
      modifies this
      ensures View() == Pushed(old(View()), v) && SpecValid(View())
    {
      PushValid(View(), v);
      if pendingRequests != [] {
        var id := pendingRequests[|pendingRequests| - 1];
        pendingRequests := pendingRequests[..|pendingRequests| - 1];
        assert id in ticketState && ticketState[id].None?;
        ticketState := ticketState[id := Some(v)];
      } else {
        deq := deq + [v];
      }
    }

    method PopRequest() returns (id: int)
      requires SpecValid(View())
      modifies this
      ensures View() == Requested(old(View())) && SpecValid(View()) && id == old(nextTicket)
    {
      PopRequestValid(View());
      id := nextTicket;
      nextTicket := nextTicket + 1;
      if deq != [] {
        var x := deq[|deq| - 1];
        deq := deq[..|deq| - 1];
        ticketState := ticketState[id := Some(x)];
      } else {
        ticketState := ticketState[id := None];
        pendingRequests := pendingRequests + [id];
      }
    }

    method TryPopFollowUp(id: int) returns (r: int)
      requires SpecValid(View())
      modifies this
      ensures View() == FollowedUp(old(View()), id) && SpecValid(View()) && r == FollowUpResult(old(View()), id)
    {
      FollowUpValid(View(), id);
      if id == 0 || id !in ticketState || ticketState[id].None? {
        return 0;
      }
      r := ticketState[id].value;
      ticketState := ticketState - {id};
    }
  }

  // ---- The stack over heap nodes ---------------------------------------------------------------------------------

  class Node {
    const data: int
    var dataNode: Node?

    constructor (data: int)
      ensures this.data == data && dataNode == null
    {
      this.data := data;
      dataNode := null;
    }
  }

  datatype Ticket = Ticket(id: int, node: Node?)

  /** `nodes[k]` is the request node of ticket `k + 1`, and `pending` are those of the pending requests. */
  ghost predicate Placed(spec: Spec, nodes: seq<Node>, pending: seq<Node>) {
    && SpecValid(spec) && spec.next == |nodes| + 1 && |spec.pending| == |pending|
    && (forall j, k :: 0 <= j < k < |nodes| ==> nodes[j] != nodes[k])
    && (forall k :: 0 <= k < |pending| ==> nodes[spec.pending[k] - 1] == pending[k])
  }

  ghost predicate Simulates(slots: map<int, Option<int>>, id: int, node: Node)
    reads node
  {
    if id in slots && slots[id].Some? then node.dataNode != null && node.dataNode.data == slots[id].value
      else node.dataNode == null
  }

  ghost predicate AllSimulate(slots: map<int, Option<int>>, nodes: seq<Node>)
    reads nodes
  {
    forall k :: 0 <= k < |nodes| ==> Simulates(slots, k + 1, nodes[k])
  }

  lemma SimulateOneMore(slots: map<int, Option<int>>, slot: Option<int>, nodes: seq<Node>, req: Node)
    requires AllSimulate(slots, nodes) && Simulates(slots[|nodes| + 1 := slot], |nodes| + 1, req)
    ensures AllSimulate(slots[|nodes| + 1 := slot], nodes + [req])
  {
    forall k | 0 <= k < |nodes| + 1 ensures Simulates(slots[|nodes| + 1 := slot], k + 1, (nodes + [req])[k]) {
      assert k < |nodes| ==> Simulates(slots, k + 1, nodes[k]);
    }
  }

  lemma PlacedPush(spec: Spec, nodes: seq<Node>, pending: seq<Node>, v: int)
    requires Placed(spec, nodes, pending)
    ensures Placed(Pushed(spec, v), nodes, if pending == [] then [] else pending[..|pending| - 1])
  {
    PushValid(spec, v);
  }

  /** The request that a push answers. */
  lemma PlacedLast(spec: Spec, nodes: seq<Node>, pending: seq<Node>, v: int) returns (k: nat)
    requires Placed(spec, nodes, pending) && pending != []
    ensures k < |nodes| && nodes[k] == pending[|pending| - 1]
    ensures Placed(Pushed(spec, v), nodes, pending[..|pending| - 1])
    ensures Pushed(spec, v).slots == spec.slots[k + 1 := Some(v)]
    ensures Pushed(spec, v).stack == spec.stack && Pushed(spec, v).next == spec.next
  {
    PlacedPush(spec, nodes, pending, v);
    k := spec.pending[|spec.pending| - 1] - 1;
  }

  lemma PlacedRequest(spec: Spec, nodes: seq<Node>, pending: seq<Node>, req: Node)
    requires Placed(spec, nodes, pending) && req !in nodes
    ensures Placed(Requested(spec), nodes + [req], if spec.stack == [] then pending + [req] else pending)
  {
    PopRequestValid(spec);
  }

  lemma PlacedFollowUp(spec: Spec, nodes: seq<Node>, pending: seq<Node>, id: int)
    requires Placed(spec, nodes, pending)
    ensures Placed(FollowedUp(spec, id), nodes, pending)
  {
    FollowUpValid(spec, id);
  }

  class DualTreiberStack {
    var nextTicket: int
    var simpleStack: seq<int>
    var pendingRequests: seq<Node>

    // The request node of ticket k + 1, and the specification's state.
    ghost var nodes: seq<Node>
    ghost var spec: Spec

    /** The simulation relation. A request node points to the value of its slot, and to nothing while the request
        is pending and after the value was handed out. */
    ghost predicate Valid()
      reads this, nodes
    {
      && Placed(spec, nodes, pendingRequests) && spec.stack == simpleStack && spec.next == nextTicket
      && AllSimulate(spec.slots, nodes)
    }

    ghost predicate Issued(t: Ticket)
      reads this
    {
      t.id == 0 || (1 <= t.id <= |nodes| && t.node == nodes[t.id - 1])
    }

    constructor ()
      ensures Valid() && spec == Spec([], [], map[], 1)
    {
      nextTicket := 1;
      simpleStack, pendingRequests, nodes, spec := [], [], [], Spec([], [], map[], 1);
    }

    method Push(v: int)
      requires Valid()
      modifies this, nodes
      ensures Valid() && nodes == old(nodes) && spec == Pushed(old(spec), v)
    {
      PlacedPush(spec, nodes, pendingRequests, v);
      if pendingRequests != [] {
        PushToRequest(v);
      } else {
        simpleStack := simpleStack + [v];
        spec := Pushed(spec, v);
      }
    }

    method PushToRequest(v: int)
      requires Valid() && pendingRequests != []
      modifies this, nodes
      ensures Valid() && nodes == old(nodes) && spec == Pushed(old(spec), v)
    {
      ghost var k := PlacedLast(spec, nodes, pendingRequests, v);
      var req := pendingRequests[|pendingRequests| - 1];
      pendingRequests := pendingRequests[..|pendingRequests| - 1];
      Answer(req, v, k);
      spec := Pushed(spec, v);
    }

    /** Gives a request its data node. */
    method Answer(req: Node, v: int, ghost k: nat)
      requires k < |nodes| && req == nodes[k] && AllSimulate(spec.slots, nodes)
      requires forall i, j :: 0 <= i < j < |nodes| ==> nodes[i] != nodes[j]
      modifies req
      ensures AllSimulate(spec.slots[k + 1 := Some(v)], nodes)
    {
      var data := new Node(v);
      req.dataNode := data;
      forall j | 0 <= j < |nodes| ensures Simulates(spec.slots[k + 1 := Some(v)], j + 1, nodes[j]) {
        assert j != k ==> nodes[j] != req && old(Simulates(spec.slots, j + 1, nodes[j]));
      }
    }

    method PopRequest() returns (t: Ticket)
      requires Valid()
      modifies this
      ensures Valid() && spec == Requested(old(spec))
      ensures t.id == old(nextTicket) && Issued(t) && t.node != null && fresh(t.node) && nodes == old(nodes) + [t.node]
    {
      ghost var top := if simpleStack == [] then None else Some(simpleStack[|simpleStack| - 1]);
      var req := TakeRequest();
      PlacedRequest(spec, nodes, old(pendingRequests), req);
      SimulateOneMore(spec.slots, top, nodes, req);
      t := Ticket(nextTicket, req);
      nextTicket := nextTicket + 1;
      spec := Requested(spec);
      nodes := nodes + [req];
    }

    /** The node of a request, with the top of the stack or put among the pending ones. */
    method TakeRequest() returns (req: Node)
      modifies `simpleStack, `pendingRequests
      ensures fresh(req)
      ensures old(simpleStack) == [] ==>
        simpleStack == [] && pendingRequests == old(pendingRequests) + [req] && req.dataNode == null
      ensures old(simpleStack) != [] ==>
        && pendingRequests == old(pendingRequests) && simpleStack == old(simpleStack)[..|old(simpleStack)| - 1]
        && req.dataNode != null && req.dataNode.data == old(simpleStack)[|old(simpleStack)| - 1]
    {
      req := new Node(0);
      if simpleStack != [] {
        var data := new Node(simpleStack[|simpleStack| - 1]);
        simpleStack := simpleStack[..|simpleStack| - 1];
        req.dataNode := data;
      } else {
        pendingRequests := pendingRequests + [req];
      }
    }

    method TryPopFollowUp(t: Ticket) returns (r: int)
      requires Valid() && Issued(t)
      modifies `spec, nodes
      ensures Valid() && spec == FollowedUp(old(spec), t.id) && r == FollowUpResult(old(spec), t.id)
    {
      if t.id == 0 {
        return 0;
      }
      PlacedFollowUp(spec, nodes, pendingRequests, t.id);
      var dn := t.node.dataNode;
      t.node.dataNode := null;
      r := if dn == null then 0 else dn.data;
      spec := FollowedUp(spec, t.id);
    }
  }
}

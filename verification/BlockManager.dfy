/** Wait queues of coroutines, one for each address. */
module BlockManager {

  /** A queue after a coroutine was blocked, longest waiting first. */
  function Blocked(queue: seq<nat>, coro: nat): seq<nat> { queue + [coro] }

  /** How many of a queue are woken, and what is left of it. */
  function Wakes(queue: seq<nat>, maxWakes: nat): nat { if maxWakes < |queue| then maxWakes else |queue| }

  function Unblocked(queue: seq<nat>, maxWakes: nat): seq<nat> { queue[Wakes(queue, maxWakes)..] }

  // ---- First blocked, first woken --------------------------------------------------------------------------------

  datatype Step = Block(coro: nat) | Unblock(maxWakes: nat)

  function Queue(steps: seq<Step>): seq<nat> {
    if steps == [] then []
    else
      var before := Queue(steps[..|steps| - 1]);
      match steps[|steps| - 1]
      case Block(coro) => Blocked(before, coro)
      case Unblock(maxWakes) => Unblocked(before, maxWakes)
  }

  /** Who was blocked, in the order of the steps. */
  function Arrivals(steps: seq<Step>): seq<nat> {
    if steps == [] then []
    else
      var last := steps[|steps| - 1];
      Arrivals(steps[..|steps| - 1]) + if last.Block? then [last.coro] else []
  }

  /** How many have been woken: each time as many as asked for, or all that wait. */
  function Departures(steps: seq<Step>): nat {
    if steps == [] then 0
    else
      var before, last := steps[..|steps| - 1], steps[|steps| - 1];
      Departures(before) + if last.Unblock? then Wakes(Queue(before), last.maxWakes) else 0
  }

  /** Whoever is blocked first is woken first: after any steps, those still waiting are the last to have arrived, in the
      order in which they did, and all others have been woken. */
  lemma {:induction false} FirstBlockedFirstWoken(steps: seq<Step>)
    ensures Departures(steps) <= |Arrivals(steps)| && Queue(steps) == Arrivals(steps)[Departures(steps)..]
  {
    if steps != [] { FirstBlockedFirstWoken(steps[..|steps| - 1]); }
  }

  class BlockManager {
    var queues: map<int, seq<nat>>

    constructor ()
      ensures queues == map[]
    {
      queues := map[];
    }

    /** Who waits on an address, longest first. */
    function Waiting(addr: int): seq<nat>
      reads this
    {
      if addr in queues then queues[addr] else []
    }

    method BlockOn(addr: int, coro: nat)
      modifies this
      ensures Waiting(addr) == Blocked(old(Waiting(addr)), coro)
      ensures forall a :: a != addr ==> Waiting(a) == old(Waiting(a))
    {
      if addr !in queues {
        queues := queues[addr := []];
      }
      queues := queues[addr := queues[addr] + [coro]];
    }

    /** Looking at an address without a queue creates an empty one. */
    method IsBlocked(addr: int, coro: nat) returns (blocked: bool)
      modifies this
      ensures blocked <==> addr != 0 && coro in Waiting(addr)
      ensures forall a :: Waiting(a) == old(Waiting(a))
    {
      if addr == 0 {
        return false;
      }
      if addr !in queues {
        queues := queues[addr := []];
      }
      return coro in queues[addr];
    }

    /** Wakes up to `maxWakes` coroutines, in the order in which they were blocked. */
    method UnblockOn(addr: int, maxWakes: nat) returns (wakes: nat)
      modifies this
      ensures wakes == Wakes(old(Waiting(addr)), maxWakes) && Waiting(addr) == Unblocked(old(Waiting(addr)), maxWakes)
      ensures forall a :: a != addr ==> Waiting(a) == old(Waiting(a))
    {
      wakes := 0;
      if addr !in queues {
        return;
      }
      while wakes < maxWakes && queues[addr] != []
        invariant wakes <= maxWakes && wakes <= |old(Waiting(addr))|
        invariant addr in queues && queues[addr] == old(Waiting(addr))[wakes..]
        invariant forall a :: a != addr ==> Waiting(a) == old(Waiting(a))
      {
        queues := queues[addr := queues[addr][1..]];
        wakes := wakes + 1;
      }
    }

    method UnblockAllOn(addr: int)
      modifies this
      ensures Waiting(addr) == Unblocked(old(Waiting(addr)), |old(Waiting(addr))|) == []
      ensures forall a :: a != addr ==> Waiting(a) == old(Waiting(a))
    {
      if addr in queues {
        queues := queues[addr := []];
      }
    }
  }
}

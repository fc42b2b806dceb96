/** Vector clocks, one entry a thread. */
module VectorClock {

  ghost predicate Leq(a: seq<nat>, b: seq<nat>) {
    |a| == |b| && forall t :: 0 <= t < |a| ==> a[t] <= b[t]
  }

  function Max(x: nat, y: nat): nat { if x < y then y else x }

  /** The least clock above both. */
  function Join(a: seq<nat>, b: seq<nat>): seq<nat>
    requires |a| == |b|
  {
    seq(|a|, t requires 0 <= t < |a| => Max(a[t], b[t]))
  }

  method IsSubsetOf(times: seq<nat>, other: seq<nat>) returns (subset: bool)
    requires |times| == |other|
    ensures subset <==> Leq(times, other)
  {
    for i := 0 to |times|
      invariant forall t :: 0 <= t < i ==> times[t] <= other[t]
    {
      if times[i] > other[i] {
        return false;
      }
    }
    return true;
  }

  method UniteWith(times: seq<nat>, other: seq<nat>) returns (united: seq<nat>)
    requires |times| == |other|
    ensures united == Join(times, other)
    ensures Leq(times, united) && Leq(other, united)
    ensures forall c :: Leq(times, c) && Leq(other, c) ==> Leq(united, c)
  {
    united := times;
    for i := 0 to |times|
      invariant |united| == |times|
      invariant forall t :: 0 <= t < i ==> united[t] == Max(times[t], other[t])
      invariant forall t :: i <= t < |times| ==> united[t] == times[t]
    {
      united := united[i := Max(united[i], other[i])];
    }
  }

  function Increment(times: seq<nat>, thread: nat): seq<nat>
    requires thread < |times|
  {
    times[thread := times[thread] + 1]
  }
}

/** Dual histories in which every task goes through its events in order, and what pairing makes of them. */
module DualHistory {
  import opened Options
  import opened Pairing

  datatype Kind = Invoke | Response | RequestInvoke | RequestResponse | FollowUpInvoke | FollowUpResponse
  {
    predicate IsInvoke() { Invoke? || RequestInvoke? || FollowUpInvoke? }

    /** What a task emits itself; the run loop appends the rest. */
    predicate IsEmitted() { RequestResponse? || FollowUpInvoke? || FollowUpResponse? }

    function PhaseOf(): Phase {
      if Invoke? || Response? then Ordinary else if RequestInvoke? || RequestResponse? then Request else FollowUp
    }
  }

  datatype Entry = Entry(task: nat, kind: Kind)

  const DUAL: seq<Kind> := [RequestInvoke, RequestResponse, FollowUpInvoke, FollowUpResponse]
  const ORDINARY: seq<Kind> := [Invoke, Response]

  /** The events of one task, in order. */
  ghost function Of(h: seq<Entry>, task: nat): seq<Kind> {
    if h == [] then []
    else
      var last := h[|h| - 1];
      Of(h[..|h| - 1], task) + if last.task == task then [last.kind] else []
  }

  ghost predicate WellFormed(h: seq<Entry>) {
    forall task: nat :: Of(h, task) <= DUAL || Of(h, task) <= ORDINARY
  }

  lemma {:induction false} OfConcat(a: seq<Entry>, b: seq<Entry>, task: nat)
    ensures Of(a + b, task) == Of(a, task) + Of(b, task)
  {
    if b == [] {
      assert a + b == a;
    } else {
      assert (a + b)[..|a + b| - 1] == a + b[..|b| - 1];
      OfConcat(a, b[..|b| - 1], task);
    }
  }

  lemma OfPrefix(h: seq<Entry>, k: nat, task: nat)
    requires k <= |h|
    ensures Of(h[..k], task) <= Of(h, task)
  {
    OfConcat(h[..k], h[k..], task);
    assert h[..k] + h[k..] == h;
  }

  lemma {:induction false} OfMember(h: seq<Entry>, task: nat, kind: Kind) returns (i: nat)
    requires kind in Of(h, task)
    ensures i < |h| && h[i] == Entry(task, kind)
  {
    var last := |h| - 1;
    if h[last] == Entry(task, kind) {
      i := last;
    } else {
      i := OfMember(h[..last], task, kind);
    }
  }

  lemma {:induction false} MemberOf(h: seq<Entry>, i: nat)
    requires i < |h|
    ensures h[i].kind in Of(h, h[i].task)
  {
    if i < |h| - 1 { MemberOf(h[..|h| - 1], i); }
  }

  /** When an event happens, its task has gone through exactly what comes before it. */
  lemma Position(h: seq<Entry>, r: nat) returns (all: seq<Kind>, p: nat)
    requires WellFormed(h) && r < |h|
    ensures (all == DUAL || all == ORDINARY) && p < |all| && all[p] == h[r].kind && Of(h[..r], h[r].task) == all[..p]
  {
    var task := h[r].task;
    OfPrefix(h, r + 1, task);
    assert h[..r + 1][..r] == h[..r];
    all := if Of(h, task) <= DUAL then DUAL else ORDINARY;
    p := |Of(h[..r], task)|;
    assert Of(h[..r + 1], task) == Of(h[..r], task) + [h[r].kind];
  }

  /** An event happens once. */
  lemma Once(h: seq<Entry>, i: nat, j: nat)
    requires WellFormed(h) && i < |h| && j < |h| && h[i] == h[j]
    ensures i == j
  {
    if i < j {
      NotBefore(h, i, j);
    } else if j < i {
      NotBefore(h, j, i);
    }
  }

  lemma NotBefore(h: seq<Entry>, i: nat, j: nat)
    requires WellFormed(h) && i < j < |h|
    ensures h[i] != h[j]
  {
    var all, p := Position(h, j);
    MemberOf(h[..j], i);
    assert h[i].task == h[j].task ==> h[i].kind in all[..p];
  }

  /** The tags that pairing looks at. Tasks are told apart by address; the ids are free. */
  ghost predicate Tagged(h: seq<Entry>, tags: seq<Tag>) {
    |tags| == |h| && forall i :: 0 <= i < |h| ==>
      tags[i].invoke == h[i].kind.IsInvoke() && tags[i].phase == h[i].kind.PhaseOf() && tags[i].address == h[i].task
  }

  function InvokeKind(kind: Kind): Kind {
    match kind
    case Response => Invoke
    case RequestResponse => RequestInvoke
    case FollowUpResponse => FollowUpInvoke
    case _ => kind
  }

  /** The invoke that the response `r` belongs to. */
  lemma OwnInvoke(h: seq<Entry>, r: nat) returns (i: nat)
    requires WellFormed(h) && r < |h| && !h[r].kind.IsInvoke()
    ensures i < r && h[i] == Entry(h[r].task, InvokeKind(h[r].kind))
  {
    var all, p := Position(h, r);
    assert all[p - 1] == InvokeKind(h[r].kind) && all[p - 1] in all[..p];
    i := OfMember(h[..r], h[r].task, InvokeKind(h[r].kind));
  }

  /** Pairing matches the response `r` of a well-formed history to the invoke `i` of the same task and phase, which
      is earlier and the only one, and that one to `r`. */
  lemma {:induction false} PairingExact(h: seq<Entry>, tags: seq<Tag>, r: nat, i: nat)
    requires WellFormed(h) && Tagged(h, tags) && r < |h| && i < |h|
    requires !h[r].kind.IsInvoke() && h[i] == Entry(h[r].task, InvokeKind(h[r].kind))
    ensures i < r && InvokeOf(tags, r) == Some(i) && ResponseOf(tags, |h|, i) == Some(r)
  {
    var own := OwnInvoke(h, r);
    Once(h, i, own);
    InvokeIs(h, tags, r, i);
    forall m: nat | r < m < |h| ensures InvokeOf(tags, m) != Some(i) {
      SameInvoke(h, tags, i, r, m);
    }
  }

  lemma InvokeIs(h: seq<Entry>, tags: seq<Tag>, r: nat, i: nat)
    requires WellFormed(h) && Tagged(h, tags) && i < r < |h|
    requires !h[r].kind.IsInvoke() && h[i] == Entry(h[r].task, InvokeKind(h[r].kind))
    ensures InvokeOf(tags, r) == Some(i)
  {
    assert ByAddress(tags, i, r);
    var last := LastByAddress(tags, r, r);
    assert last.Some?;
    Once(h, i, last.value);
  }

  /** Two responses that answer one invoke are the same. */
  lemma SameInvoke(h: seq<Entry>, tags: seq<Tag>, i: nat, r: nat, m: nat)
    requires WellFormed(h) && Tagged(h, tags) && i < r < m < |h| && InvokeOf(tags, r) == Some(i)
    ensures InvokeOf(tags, m) != Some(i)
  {
    if !tags[m].invoke {
      var k := OwnInvoke(h, r);
      InvokeIs(h, tags, r, k);
      var j := OwnInvoke(h, m);
      InvokeIs(h, tags, m, j);
      NotBefore(h, r, m);
    }
  }

  /** So every response is paired. */
  lemma AllResponsesPaired(h: seq<Entry>, tags: seq<Tag>)
    requires WellFormed(h) && Tagged(h, tags)
    ensures AllPaired(tags)
  {
    forall r: nat | r < |h| && !h[r].kind.IsInvoke() ensures Paired(tags, r) {
      var i := OwnInvoke(h, r);
      PairingExact(h, tags, r, i);
    }
  }
}

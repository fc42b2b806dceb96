/** Histories as the runtime records them, and the passes that pair invokes with responses. */
module Pairing {
  import L = Linearization
  import opened Options
  import opened Linearization

  /** A task is identified by its address; its id is the fallback. `ret` is the value it returned. */
  datatype Task<A, V> = Task(address: nat, id: int, name: string, args: A, ret: V)

  datatype Phase = Ordinary | Request | FollowUp

  /** What the pairing passes look at. */
  datatype Tag = Tag(invoke: bool, phase: Phase, address: nat, id: int)

  predicate ByAddress(tags: seq<Tag>, j: nat, r: nat)
    requires j < |tags| && r < |tags|
  {
    tags[j].invoke && tags[j].phase == tags[r].phase && tags[j].address == tags[r].address
  }

  predicate ById(tags: seq<Tag>, j: nat, r: nat)
    requires j < |tags| && r < |tags|
  {
    tags[j].invoke && tags[j].phase == tags[r].phase && tags[j].id == tags[r].id
  }

  /** The last invoke before `k` of the task of event `r`, in the phase of `r`. */
  ghost function LastByAddress(tags: seq<Tag>, k: nat, r: nat): (last: Option<nat>)
    requires k <= |tags| && r < |tags|
    ensures last.Some? ==> last.value < k && ByAddress(tags, last.value, r)
    ensures forall j: nat :: (if last.Some? then last.value < j else true) && j < k ==> !ByAddress(tags, j, r)
  {
    if k == 0 then None else if ByAddress(tags, k - 1, r) then Some(k - 1) else LastByAddress(tags, k - 1, r)
  }

  ghost function LastById(tags: seq<Tag>, k: nat, r: nat): (last: Option<nat>)
    requires k <= |tags| && r < |tags|
    ensures last.Some? ==> last.value < k && ById(tags, last.value, r)
    ensures forall j: nat :: (if last.Some? then last.value < j else true) && j < k ==> !ById(tags, j, r)
  {
    if k == 0 then None else if ById(tags, k - 1, r) then Some(k - 1) else LastById(tags, k - 1, r)
  }

  /** The invoke that event `r` answers: the last one of its task, or else the last one with its id. */
  ghost function InvokeOf(tags: seq<Tag>, r: nat): (i: Option<nat>)
    requires r < |tags|
    ensures i.Some? ==> !tags[r].invoke && i.value < r && tags[i.value].invoke && tags[i.value].phase == tags[r].phase
  {
    if tags[r].invoke then None
    else if LastByAddress(tags, r, r).Some? then LastByAddress(tags, r, r)
    else LastById(tags, r, r)
  }

  /** The last event before `n` that answers invoke `i`. */
  ghost function ResponseOf(tags: seq<Tag>, n: nat, i: nat): (r: Option<nat>)
    requires n <= |tags|
    ensures r.Some? ==> r.value < n && InvokeOf(tags, r.value) == Some(i)
    ensures forall m: nat :: (if r.Some? then r.value < m else true) && m < n ==> InvokeOf(tags, m) != Some(i)
  {
    if n == 0 then None else if InvokeOf(tags, n - 1) == Some(i) then Some(n - 1) else ResponseOf(tags, n - 1, i)
  }

  // ---- The pairing without a search -----------------------------------------------------------------------

  /** `r` answers `i`: the last earlier invoke of its task and phase, or, if there is none, the last with its id. */
  ghost predicate Answers(tags: seq<Tag>, i: nat, r: nat) {
    && i < r < |tags| && !tags[r].invoke
    && if exists j: nat :: j < r && ByAddress(tags, j, r)
       then ByAddress(tags, i, r) && forall j: nat :: i < j < r ==> !ByAddress(tags, j, r)
       else ById(tags, i, r) && forall j: nat :: i < j < r ==> !ById(tags, j, r)
  }

  /** Of the events that answer `i`, the last one is its response. */
  ghost predicate Returns(tags: seq<Tag>, i: nat, r: nat) {
    Answers(tags, i, r) && forall m: nat :: r < m < |tags| ==> !Answers(tags, i, m)
  }

  lemma {:induction false} AnswersExact(tags: seq<Tag>, i: nat, r: nat)
    requires r < |tags|
    ensures Answers(tags, i, r) <==> InvokeOf(tags, r) == Some(i)
  {
    var byAddress, byId := LastByAddress(tags, r, r), LastById(tags, r, r);
    assert byAddress.Some? <==> exists j: nat :: j < r && ByAddress(tags, j, r);
    if Answers(tags, i, r) && byAddress.Some? {
      assert !(byAddress.value < i) && !(i < byAddress.value);
    } else if Answers(tags, i, r) {
      assert !(byId.value < i) && !(i < byId.value);
    }
  }

  lemma {:induction false} ReturnsExact(tags: seq<Tag>, i: nat, r: nat)
    ensures Returns(tags, i, r) <==> ResponseOf(tags, |tags|, i) == Some(r)
  {
    forall m: nat | m < |tags| ensures Answers(tags, i, m) <==> InvokeOf(tags, m) == Some(i) {
      AnswersExact(tags, i, m);
    }
    var last := ResponseOf(tags, |tags|, i);
    if Returns(tags, i, r) {
      assert last.Some? && !(last.value < r) && !(r < last.value);
    }
  }

  ghost function EventsOf(tags: seq<Tag>, droppable: bool): seq<Event> {
    seq(|tags|, i requires 0 <= i < |tags| => if tags[i].invoke then L.Invoke(ResponseOf(tags, |tags|, i), droppable)
        else L.Response)
  }

  /** The calls of `order` are distinct invokes, no call comes before one that had returned when it was
      invoked, every response belongs to a call of `order`, and so does every invoke, unless pending
      ones may be dropped. */
  ghost predicate Arranged(tags: seq<Tag>, mayDrop: bool, order: seq<nat>) {
    && (forall k: nat :: k < |order| ==> order[k] < |tags| && tags[order[k]].invoke)
    && Distinct(order)
    && (forall j: nat, k: nat, r: nat :: j < k < |order| && Returns(tags, order[k], r) ==> !(r < order[j]))
    && (forall i: nat :: i < |tags| && tags[i].invoke ==>
        i in order || (mayDrop && forall r: nat :: !Returns(tags, i, r)))
    && (forall r: nat :: r < |tags| && !tags[r].invoke ==> exists i: nat :: i in order && Returns(tags, i, r))
  }

  lemma {:induction false} ClosesExact(tags: seq<Tag>, mayDrop: bool, r: nat, i: nat)
    ensures Closes(EventsOf(tags, mayDrop), r, i) <==> Returns(tags, i, r)
  {
    ReturnsExact(tags, i, r);
  }

  lemma {:induction false} PrecedesExact(tags: seq<Tag>, mayDrop: bool, a: nat, b: nat)
    ensures Precedes(EventsOf(tags, mayDrop), a, b) <==> exists r: nat :: Returns(tags, a, r) && r < b
  {
    var events := EventsOf(tags, mayDrop);
    forall r: nat ensures Closes(events, r, a) <==> Returns(tags, a, r) {
      ClosesExact(tags, mayDrop, r, a);
    }
    if Precedes(events, a, b) {
      assert Closes(events, events[a].response.value, a);
    }
  }

  lemma {:induction false} AccountsExact(tags: seq<Tag>, mayDrop: bool, order: seq<nat>, e: nat)
    requires e < |tags|
    ensures Accounts(EventsOf(tags, mayDrop), order, e) <==>
      if tags[e].invoke then e in order || (mayDrop && forall r: nat :: !Returns(tags, e, r))
      else exists i: nat :: i in order && Returns(tags, i, e)
  {
    var events := EventsOf(tags, mayDrop);
    forall i: nat, r: nat ensures Closes(events, r, i) <==> Returns(tags, i, r) {
      ClosesExact(tags, mayDrop, r, i);
    }
    if tags[e].invoke && events[e].response.Some? {
      assert Closes(events, events[e].response.value, e);
    }
  }

  /** These are the orders that the definition of a linearization asks for. */
  ghost predicate Admissible(events: seq<Event>, order: seq<nat>) {
    && (forall i :: i in order ==> IsInvoke(events, i))
    && Distinct(order) && RealTime(events, order)
    && (forall e: nat :: e < |events| ==> Accounts(events, order, e))
  }

  lemma {:induction false} ArrangedAdmissible(tags: seq<Tag>, mayDrop: bool, order: seq<nat>)
    requires Arranged(tags, mayDrop, order)
    ensures Admissible(EventsOf(tags, mayDrop), order)
  {
    var events := EventsOf(tags, mayDrop);
    forall j, k | 0 <= j < k < |order| ensures !Precedes(events, order[k], order[j]) {
      PrecedesExact(tags, mayDrop, order[k], order[j]);
    }
    forall e: nat | e < |events| ensures Accounts(events, order, e) {
      AccountsExact(tags, mayDrop, order, e);
    }
  }

  lemma {:induction false} AdmissibleArranged(tags: seq<Tag>, mayDrop: bool, order: seq<nat>)
    requires Admissible(EventsOf(tags, mayDrop), order)
    ensures Arranged(tags, mayDrop, order)
  {
    var events := EventsOf(tags, mayDrop);
    forall k: nat | k < |order| ensures order[k] < |tags| && tags[order[k]].invoke {
      assert order[k] in order;
    }
    forall j: nat, k: nat, r: nat | j < k < |order| && Returns(tags, order[k], r) ensures !(r < order[j]) {
      PrecedesExact(tags, mayDrop, order[k], order[j]);
      assert !Precedes(events, order[k], order[j]);
    }
    forall e: nat | e < |tags|
      ensures if tags[e].invoke then e in order || (mayDrop && forall r: nat :: !Returns(tags, e, r))
              else exists i: nat :: i in order && Returns(tags, i, e)
    {
      assert Accounts(events, order, e);
      AccountsExact(tags, mayDrop, order, e);
    }
  }

  /** The pairing is one to one for every history, well-formed or not. */
  lemma PairingValid(tags: seq<Tag>, droppable: bool)
    ensures ValidPairing(EventsOf(tags, droppable))
  {
  }

  /** Some invoke has `r` as its response. */
  ghost predicate Paired(tags: seq<Tag>, r: nat) {
    exists j: nat :: j < |tags| && ResponseOf(tags, |tags|, j) == Some(r)
  }

  ghost predicate AllPaired(tags: seq<Tag>) {
    forall r: nat :: r < |tags| && !tags[r].invoke ==> Paired(tags, r)
  }

  /** If every response of a history is paired, cutting the history at `k` cuts its pairing. */
  lemma CutPairing(tags: seq<Tag>, k: nat, i: nat)
    requires i < k <= |tags| && AllPaired(tags)
    ensures var full := ResponseOf(tags, |tags|, i);
            ResponseOf(tags[..k], k, i) == if full.Some? && full.value < k then full else None
  {
    forall r: nat | r < k ensures InvokeOf(tags[..k], r) == InvokeOf(tags, r) {
      CutLast(tags, k, r, r);
    }
    var cut, full := ResponseOf(tags[..k], k, i), ResponseOf(tags, |tags|, i);
    if cut.Some? {
      assert Paired(tags, cut.value);
      var j: nat :| j < |tags| && ResponseOf(tags, |tags|, j) == Some(cut.value);
      assert InvokeOf(tags, cut.value) == Some(j);
    }
  }

  lemma {:induction false} CutLast(tags: seq<Tag>, k: nat, m: nat, r: nat)
    requires r < k <= |tags| && m <= k
    ensures LastByAddress(tags[..k], m, r) == LastByAddress(tags, m, r)
    ensures LastById(tags[..k], m, r) == LastById(tags, m, r)
  {
    if m > 0 { CutLast(tags, k, m - 1, r); }
  }

  function Lookup<K, T>(m: map<K, T>, key: K): Option<T> {
    if key in m then Some(m[key]) else None
  }

  /** The maps of the pairing passes hold the last invoke of each task and of each id. */
  ghost predicate TaskIndex(tags: seq<Tag>, k: nat, m: map<(Phase, nat), nat>)
    requires k <= |tags|
  {
    forall r: nat {:trigger LastByAddress(tags, k, r)} :: r < |tags| ==>
      LastByAddress(tags, k, r) == Lookup(m, (tags[r].phase, tags[r].address))
  }

  ghost predicate IdIndex(tags: seq<Tag>, k: nat, m: map<(Phase, int), nat>)
    requires k <= |tags|
  {
    forall r: nat {:trigger LastById(tags, k, r)} :: r < |tags| ==>
      LastById(tags, k, r) == Lookup(m, (tags[r].phase, tags[r].id))
  }

  lemma TaskIndexStep(tags: seq<Tag>, k: nat, m: map<(Phase, nat), nat>)
    requires k < |tags| && TaskIndex(tags, k, m)
    ensures TaskIndex(tags, k + 1, if tags[k].invoke then m[(tags[k].phase, tags[k].address) := k] else m)
  {
    var m' := if tags[k].invoke then m[(tags[k].phase, tags[k].address) := k] else m;
    forall r: nat | r < |tags|
      ensures LastByAddress(tags, k + 1, r) == Lookup(m', (tags[r].phase, tags[r].address))
    {
      assert LastByAddress(tags, k, r) == Lookup(m, (tags[r].phase, tags[r].address));
    }
  }

  lemma IdIndexStep(tags: seq<Tag>, k: nat, m: map<(Phase, int), nat>)
    requires k < |tags| && IdIndex(tags, k, m)
    ensures IdIndex(tags, k + 1, if tags[k].invoke then m[(tags[k].phase, tags[k].id) := k] else m)
  {
    var m' := if tags[k].invoke then m[(tags[k].phase, tags[k].id) := k] else m;
    forall r: nat | r < |tags| ensures LastById(tags, k + 1, r) == Lookup(m', (tags[r].phase, tags[r].id)) {
      assert LastById(tags, k, r) == Lookup(m, (tags[r].phase, tags[r].id));
    }
  }

  /** The pairing pass of the recursive checkers: one map by task and one by id, for each phase. */
  method BuildEventInfo(tags: seq<Tag>) returns (responses: seq<Option<nat>>)
    ensures |responses| == |tags|
    ensures forall i: nat :: i < |tags| ==> responses[i] == ResponseOf(tags, |tags|, i)
  {
    responses := seq(|tags|, _ => None);
    var byTask: map<(Phase, nat), nat>, byId: map<(Phase, int), nat> := map[], map[];
    for k := 0 to |tags|
      invariant |responses| == |tags|
      invariant forall i: nat :: i < |tags| ==> responses[i] == ResponseOf(tags, k, i)
      invariant TaskIndex(tags, k, byTask) && IdIndex(tags, k, byId)
    {
      var tag := tags[k];
      TaskIndexStep(tags, k, byTask);
      IdIndexStep(tags, k, byId);
      assert LastByAddress(tags, k, k) == Lookup(byTask, (tag.phase, tag.address));
      assert LastById(tags, k, k) == Lookup(byId, (tag.phase, tag.id));
      if tag.invoke {
        byTask := byTask[(tag.phase, tag.address) := k];
        byId := byId[(tag.phase, tag.id) := k];
      } else if (tag.phase, tag.address) in byTask {
        responses := responses[byTask[(tag.phase, tag.address)] := Some(k)];
      } else if (tag.phase, tag.id) in byId {
        responses := responses[byId[(tag.phase, tag.id)] := Some(k)];
      }
    }
  }

  /** Every response comes after an invoke of its own task, as the iterative checker asserts. */
  ghost predicate Answered(tags: seq<Tag>) {
    forall r: nat :: r < |tags| && !tags[r].invoke ==> exists j: nat :: j < r && ByAddress(tags, j, r)
  }

  /** The pairing pass of the iterative checker: by task alone. */
  method InvokeResponseMapping(tags: seq<Tag>) returns (invRes: map<nat, nat>)
    requires Answered(tags)
    ensures forall i: nat :: i < |tags| ==> Lookup(invRes, i) == ResponseOf(tags, |tags|, i)
  {
    invRes := map[];
    var uids: map<(Phase, nat), nat> := map[];
    for k := 0 to |tags|
      invariant forall i: nat :: i < |tags| ==> Lookup(invRes, i) == ResponseOf(tags, k, i)
      invariant TaskIndex(tags, k, uids)
    {
      var key := (tags[k].phase, tags[k].address);
      TaskIndexStep(tags, k, uids);
      assert LastByAddress(tags, k, k) == Lookup(uids, key);
      if tags[k].invoke {
        uids := uids[key := k];
      } else {
        invRes := invRes[uids[key] := k];
      }
    }
  }
}

/** The checker for dual histories, where a blocking operation is a request and a follow-up. */
module DualChecker {
  import L = Linearization
  import opened Options
  import opened Linearization
  import opened Pairing
  import opened Completions
  import RecursiveSearch
  import PlainChecker
  import DualHistory

  type Kind = DualHistory.Kind

  datatype DualEvent<A, V> =
    | Invoke(task: Task<A, V>)
    | Response(task: Task<A, V>, result: V)
    | RequestInvoke(task: Task<A, V>)
    | RequestResponse(task: Task<A, V>)
    | FollowUpInvoke(task: Task<A, V>)
    | FollowUpResponse(task: Task<A, V>, result: V)
  {
    function KindOf(): Kind {
      match this
      case Invoke(_) => Kind.Invoke
      case Response(_, _) => Kind.Response
      case RequestInvoke(_) => Kind.RequestInvoke
      case RequestResponse(_) => Kind.RequestResponse
      case FollowUpInvoke(_) => Kind.FollowUpInvoke
      case FollowUpResponse(_, _) => Kind.FollowUpResponse
    }

    predicate IsInvoke() { KindOf().IsInvoke() }
  }

  /** A follow-up that cannot be completed yet returns nothing. */
  datatype Method<!S, !A, !V> =
    | NonBlocking(call: (S, A) -> (S, V))
    | Predicate(test: (S, A, Option<V>) -> (S, bool))
    | Blocking(request: (S, A, int) -> S, followUp: (S, A, int) -> Option<(S, V)>)

  function Tags<A, V>(h: seq<DualEvent<A, V>>): seq<Tag> {
    seq(|h|, i requires 0 <= i < |h| => Tag(h[i].IsInvoke(), h[i].KindOf().PhaseOf(), h[i].task.address, h[i].task.id))
  }

  /** The result a completed ordinary call or follow-up must return. */
  function ExpectedResult<A, V>(h: seq<DualEvent<A, V>>, events: seq<Event>, i: nat): Option<V> {
    if L.IsInvoke(events, i) && events[i].response.Some? && events[i].response.value < |h| then
      var e := h[events[i].response.value];
      if e.Response? || e.FollowUpResponse? then Some(e.result) else None
    else None
  }

  predicate Matches<V>(same: (V, V) -> bool, value: V, expected: Option<V>) {
    expected.None? || same(value, expected.value)
  }

  function TryApply<S, A, V>(h: seq<DualEvent<A, V>>, events: seq<Event>, methods: map<string, Method<S, A, V>>,
                             same: (V, V) -> bool, i: nat, s: S): Option<S> {
    if i < |h| && h[i].IsInvoke() && h[i].task.name in methods then
      ApplyEvent(h[i], methods[h[i].task.name], same, ExpectedResult(h, events, i), s)
    else None
  }

  function ApplyEvent<S, A, V>(e: DualEvent<A, V>, method_: Method<S, A, V>, same: (V, V) -> bool,
                               expected: Option<V>, s: S): Option<S>
    requires e.IsInvoke()
  {
    match e
    case Invoke(task) =>
      (match method_
       case NonBlocking(call) =>
         var (t, v) := call(s, task.args);
         if Matches(same, v, expected) then Some(t) else None
       case Predicate(test) =>
         var (t, ok) := test(s, task.args, expected);
         if ok then Some(t) else None
       case Blocking(_, _) => None)
    case RequestInvoke(task) =>
      if method_.Blocking? then Some(method_.request(s, task.args, task.id)) else None
    case FollowUpInvoke(task) =>
      if method_.Blocking? then
        match method_.followUp(s, task.args, task.id)
        case None => None
        case Some((t, v)) => if Matches(same, v, expected) then Some(t) else None
      else None
  }

  predicate CompletedFollowUp<A, V>(h: seq<DualEvent<A, V>>, address: nat) {
    exists i :: 0 <= i < |h| && h[i].FollowUpResponse? && h[i].task.address == address
  }

  /** The final test: every answered request without a finished follow-up belongs to a blocking method. */
  predicate CompletionTest<S, A, V>(h: seq<DualEvent<A, V>>, events: seq<Event>, methods: map<string, Method<S, A, V>>)
  {
    forall i :: 0 <= i < |h| && IncompleteFollowUp(h, events, i) ==>
      h[i].task.name in methods && methods[h[i].task.name].Blocking?
  }

  predicate IncompleteFollowUp<A, V>(h: seq<DualEvent<A, V>>, events: seq<Event>, i: nat) {
    && i < |h| && h[i].RequestInvoke? && L.IsInvoke(events, i) && events[i].response.Some?
    && !CompletedFollowUp(h, h[i].task.address)
  }

  ghost function DualProblem<S, A, V>(h: seq<DualEvent<A, V>>, methods: map<string, Method<S, A, V>>,
                                      same: (V, V) -> bool): Problem<S>
  {
    var events := EventsOf(Tags(h), true);
    Problem(events, (i: nat, s: S) => TryApply(h, events, methods, same, i, s),
            (s: S) => CompletionTest(h, events, methods))
  }

  /** The same histories without the final test. */
  ghost function UntestedProblem<S, A, V>(h: seq<DualEvent<A, V>>, methods: map<string, Method<S, A, V>>,
                                          same: (V, V) -> bool): Problem<S>
  {
    var events := EventsOf(Tags(h), true);
    Problem(events, (i: nat, s: S) => TryApply(h, events, methods, same, i, s), (s: S) => true)
  }

  ghost predicate Known<S, A, V>(h: seq<DualEvent<A, V>>, methods: map<string, Method<S, A, V>>) {
    forall i :: 0 <= i < |h| && h[i].IsInvoke() ==> h[i].task.name in methods
  }

  // ---- What the verdict means, over the history and the methods alone ------------------------------

  /** A response of this kind ends a call of that kind. */
  ghost predicate Ends<A, V>(e: DualEvent<A, V>, r: DualEvent<A, V>) {
    || (e.Invoke? && r.Response?)
    || (e.RequestInvoke? && r.RequestResponse?)
    || (e.FollowUpInvoke? && r.FollowUpResponse?)
  }

  /** Response `r` answers `i`: the last earlier invoke of its kind and task, or, when there is none, the
      last earlier one of its kind with the id of its task. */
  ghost predicate Answers<A, V>(h: seq<DualEvent<A, V>>, i: nat, r: nat) {
    && i < r < |h| && Ends(h[i], h[r])
    && (|| (&& h[i].task.address == h[r].task.address
            && forall j: nat :: i < j < r && Ends(h[j], h[r]) ==> h[j].task.address != h[r].task.address)
        || (&& h[i].task.id == h[r].task.id
            && (forall j: nat :: j < r && Ends(h[j], h[r]) ==> h[j].task.address != h[r].task.address)
            && forall j: nat :: i < j < r && Ends(h[j], h[r]) ==> h[j].task.id != h[r].task.id))
  }

  /** The invoke `i` returned at `r`, the last response that answers it. */
  ghost predicate Returned<A, V>(h: seq<DualEvent<A, V>>, i: nat, r: nat) {
    Answers(h, i, r) && forall m: nat :: r < m < |h| ==> !Answers(h, i, m)
  }

  /** A call `i` of a total method takes `s` to `t` and returns what was recorded, if it returned. */
  ghost predicate Calls<S, A, V>(h: seq<DualEvent<A, V>>, call: (S, A) -> (S, V), same: (V, V) -> bool,
                                 i: nat, s: S, t: S)
    requires i < |h| && h[i].Invoke?
  {
    && t == call(s, h[i].task.args).0
    && forall r: nat :: Returned(h, i, r) ==> same(call(s, h[i].task.args).1, h[r].result)
  }

  /** A call `i` of a predicate method is accepted, with its recorded result or as pending. */
  ghost predicate Tests<S, A, V>(h: seq<DualEvent<A, V>>, test: (S, A, Option<V>) -> (S, bool), i: nat, s: S, t: S)
    requires i < |h| && h[i].Invoke?
  {
    && (forall r: nat :: Returned(h, i, r) ==> test(s, h[i].task.args, Some(h[r].result)) == (t, true))
    && ((forall r: nat :: !Returned(h, i, r)) ==> test(s, h[i].task.args, None) == (t, true))
  }

  /** A follow-up `i` is ready, takes `s` to `t` and returns what was recorded, if it returned. */
  ghost predicate FollowsUp<S, A, V(!new)>(h: seq<DualEvent<A, V>>, followUp: (S, A, int) -> Option<(S, V)>,
                                           same: (V, V) -> bool, i: nat, s: S, t: S)
    requires i < |h| && h[i].FollowUpInvoke?
  {
    exists v :: && followUp(s, h[i].task.args, h[i].task.id) == Some((t, v))
                && forall r: nat :: Returned(h, i, r) ==> same(v, h[r].result)
  }

  /** One linearized event: an ordinary call of a total or of a predicate method, or a request or a
      follow-up of a blocking one. */
  ghost predicate Runs<S, A, V(!new)>(h: seq<DualEvent<A, V>>, methods: map<string, Method<S, A, V>>,
                                      same: (V, V) -> bool, i: nat, s: S, t: S)
  {
    && i < |h| && h[i].task.name in methods
    && match (h[i], methods[h[i].task.name])
       case (Invoke(_), NonBlocking(call)) => Calls(h, call, same, i, s, t)
       case (Invoke(_), Predicate(test)) => Tests(h, test, i, s, t)
       case (RequestInvoke(task), Blocking(request, _)) => t == request(s, task.args, task.id)
       case (FollowUpInvoke(_), Blocking(_, followUp)) => FollowsUp(h, followUp, same, i, s, t)
       case _ => false
  }

  /** One after the other the events of `order` lead from `first` through `states`. They are distinct, none
      comes before one that had returned when it was invoked, and only invokes that never returned are
      left out. */
  ghost predicate Explains<S, A, V(!new)>(h: seq<DualEvent<A, V>>, methods: map<string, Method<S, A, V>>,
                                          same: (V, V) -> bool, first: S, order: seq<nat>, states: seq<S>)
  {
    && |states| == |order| + 1 && states[0] == first
    && (forall k: nat :: k < |order| ==> Runs(h, methods, same, order[k], states[k], states[k + 1]))
    && (forall j: nat, k: nat :: j < k < |order| ==> order[j] != order[k])
    && (forall j: nat, k: nat, r: nat :: j < k < |order| && Returned(h, order[k], r) ==> !(r < order[j]))
    && (forall i: nat, r: nat :: Returned(h, i, r) ==> i in order)
    && (forall r: nat :: r < |h| && (h[r].Response? || h[r].RequestResponse? || h[r].FollowUpResponse?) ==>
        exists i: nat :: i in order && Returned(h, i, r))
  }

  ghost predicate Explained<S(!new), A, V(!new)>(h: seq<DualEvent<A, V>>, methods: map<string, Method<S, A, V>>,
                                                 same: (V, V) -> bool, first: S)
  {
    exists order, states :: Explains(h, methods, same, first, order, states)
  }

  lemma {:induction false} ReturnedExact<A, V>(h: seq<DualEvent<A, V>>, i: nat, r: nat)
    ensures Returned(h, i, r) <==> Returns(Tags(h), i, r)
  {
    var tags := Tags(h);
    forall m: nat | m < |h| && !h[m].IsInvoke() ensures Answers(h, i, m) <==> Pairing.Answers(tags, i, m) {
      forall j: nat | j < m ensures Ends(h[j], h[m]) <==> tags[j].invoke && tags[j].phase == tags[m].phase {
      }
      assert forall j: nat :: j < m ==>
        (ByAddress(tags, j, m) <==> Ends(h[j], h[m]) && h[j].task.address == h[m].task.address);
      assert forall j: nat :: j < m ==> (ById(tags, j, m) <==> Ends(h[j], h[m]) && h[j].task.id == h[m].task.id);
    }
  }

  lemma {:induction false} ArrangedExplains<S, A, V(!new)>(
    h: seq<DualEvent<A, V>>, methods: map<string, Method<S, A, V>>, same: (V, V) -> bool, first: S, order: seq<nat>,
    states: seq<S>)
    requires Arranged(Tags(h), true, order) && |states| == |order| + 1 && states[0] == first
    requires forall k: nat :: k < |order| ==> Runs(h, methods, same, order[k], states[k], states[k + 1])
    ensures Explains(h, methods, same, first, order, states)
  {
    forall i: nat, r: nat ensures Returned(h, i, r) <==> Returns(Tags(h), i, r) {
      ReturnedExact(h, i, r);
    }
    forall r: nat | r < |h| && !h[r].IsInvoke() ensures exists i: nat :: i in order && Returned(h, i, r) {
      assert !Tags(h)[r].invoke;
    }
    forall i: nat, r: nat | Returned(h, i, r) ensures i in order {
      assert Tags(h)[i].invoke;
    }
  }

  lemma {:induction false} ExplainsArranged<S, A, V(!new)>(
    h: seq<DualEvent<A, V>>, methods: map<string, Method<S, A, V>>, same: (V, V) -> bool, first: S, order: seq<nat>,
    states: seq<S>)
    requires Explains(h, methods, same, first, order, states)
    ensures Arranged(Tags(h), true, order)
  {
    forall i: nat, r: nat ensures Returned(h, i, r) <==> Returns(Tags(h), i, r) {
      ReturnedExact(h, i, r);
    }
    forall k: nat | k < |order| ensures order[k] < |h| && Tags(h)[order[k]].invoke {
      assert Runs(h, methods, same, order[k], states[k], states[k + 1]);
    }
  }

  /** Applying an event as the checker does is one of these runs. */
  lemma {:induction false} ApplyRuns<S, A, V(!new)>(
    h: seq<DualEvent<A, V>>, methods: map<string, Method<S, A, V>>, same: (V, V) -> bool, i: nat, s: S, t: S)
    requires i < |h| && h[i].IsInvoke()
    ensures TryApply(h, EventsOf(Tags(h), true), methods, same, i, s) == Some(t) <==> Runs(h, methods, same, i, s, t)
  {
    var response := ResponseOf(Tags(h), |h|, i);
    forall r: nat ensures Returned(h, i, r) <==> response == Some(r) {
      ReturnedExact(h, i, r);
      ReturnsExact(Tags(h), i, r);
    }
    if response.Some? {
      assert Returned(h, i, response.value);
    }
  }

  /** The linearizations of the checker's problem are the explanations of the history. */
  lemma {:induction false} LinearizableExplained<S(!new), A, V(!new)>(
    h: seq<DualEvent<A, V>>, methods: map<string, Method<S, A, V>>, same: (V, V) -> bool, first: S)
    ensures Linearizable(UntestedProblem(h, methods, same), first) <==> Explained(h, methods, same, first)
  {
    var p := UntestedProblem(h, methods, same);
    if Linearizable(p, first) {
      var order :| IsLinearization(p, {}, first, order);
      AdmissibleArranged(Tags(h), true, order);
      var states := ReplayTrace(p, first, order);
      forall k: nat | k < |order| ensures Runs(h, methods, same, order[k], states[k], states[k + 1]) {
        assert L.IsInvoke(p.events, order[k]);
        ApplyRuns(h, methods, same, order[k], states[k], states[k + 1]);
      }
      ArrangedExplains(h, methods, same, first, order, states);
    }
    if Explained(h, methods, same, first) {
      var order, states :| Explains(h, methods, same, first, order, states);
      ExplainsArranged(h, methods, same, first, order, states);
      ArrangedAdmissible(Tags(h), true, order);
      forall k | 0 <= k < |order| ensures p.apply(order[k], states[k]) == Some(states[k + 1]) {
        assert Runs(h, methods, same, order[k], states[k], states[k + 1]);
        ApplyRuns(h, methods, same, order[k], states[k], states[k + 1]);
      }
      TraceReplay(p, first, order, states);
      assert IsLinearization(p, {}, first, order);
    }
  }

  ghost predicate MethodCongruence<S(!new), A(!new), V(!new)>(m: Method<S, A, V>, same: (V, V) -> bool,
                                                              equal: (S, S) -> bool)
  {
    match m
    case NonBlocking(call) =>
      forall a, s, t :: equal(s, t) ==>
        equal(call(s, a).0, call(t, a).0) && PlainChecker.Indistinct(same, call(s, a).1, call(t, a).1)
    case Predicate(test) =>
      forall a, v, s, t :: equal(s, t) ==> equal(test(s, a, v).0, test(t, a, v).0) && test(s, a, v).1 == test(t, a, v).1
    case Blocking(request, followUp) =>
      && (forall a, id, s, t :: equal(s, t) ==> equal(request(s, a, id), request(t, a, id)))
      && (forall a, id, s, t :: equal(s, t) ==>
            match (followUp(s, a, id), followUp(t, a, id))
            case (Some((s', v)), Some((t', w))) => equal(s', t') && PlainChecker.Indistinct(same, v, w)
            case (None, None) => true
            case _ => false)
  }

  /** The user's equalities: no method tells equal states apart, up to what `same` tells apart. */
  ghost predicate SpecCongruence<S(!new), A(!new), V(!new)>(methods: map<string, Method<S, A, V>>, same: (V, V) -> bool,
                                                            equal: (S, S) -> bool)
  {
    forall name :: name in methods ==> MethodCongruence(methods[name], same, equal)
  }

  lemma ApplyCongruent<S(!new), A(!new), V(!new)>(e: DualEvent<A, V>, m: Method<S, A, V>, same: (V, V) -> bool,
                                                  expected: Option<V>,
                                                  equal: (S, S) -> bool, s: S, t: S)
    requires e.IsInvoke() && MethodCongruence(m, same, equal) && equal(s, t)
    ensures match (ApplyEvent(e, m, same, expected, s), ApplyEvent(e, m, same, expected, t))
            case (Some(s'), Some(t')) => equal(s', t')
            case (None, None) => true
            case _ => false
  {
  }

  lemma SpecCongruent<S(!new), A(!new), V(!new)>(p: Problem<S>, h: seq<DualEvent<A, V>>,
                                                 methods: map<string, Method<S, A, V>>,
                                                 same: (V, V) -> bool, equal: (S, S) -> bool)
    requires p.events == EventsOf(Tags(h), true) && SpecCongruence(methods, same, equal)
    requires forall i: nat, s :: p.apply(i, s) == TryApply(h, p.events, methods, same, i, s)
    requires forall s, t :: p.complete(s) == p.complete(t)
    ensures Congruence(p, equal)
  {
    forall s, t | equal(s, t) ensures Alike(p, equal, s, t) {
      forall i: nat | i < |p.events| && h[i].IsInvoke() && h[i].task.name in methods
        ensures match (p.apply(i, s), p.apply(i, t))
                case (Some(s'), Some(t')) => equal(s', t')
                case (None, None) => true
                case _ => false
      {
        ApplyCongruent(h[i], methods[h[i].task.name], same, ExpectedResult(h, p.events, i), equal, s, t);
      }
    }
  }

  /** The dual checker decides linearizability of every history whose methods it knows. */
  method CheckDual<S(!new), A(!new), V(!new)>(h: seq<DualEvent<A, V>>, methods: map<string, Method<S, A, V>>,
                                              same: (V, V) -> bool,
                                              first: S, cacheable: bool, equal: (S, S) -> bool)
    returns (verdict: PlainChecker.Verdict)
    requires SpecCongruence(methods, same, equal)
    ensures verdict.Verdict? <==> Known(h, methods)
    ensures verdict.Verdict? ==> (verdict.linearizable <==> Linearizable(DualProblem(h, methods, same), first))
    ensures verdict.Verdict? ==> (verdict.linearizable <==> Explained(h, methods, same, first))
  {
    CompletionTestRedundant(h, methods, same, first);
    LinearizableExplained(h, methods, same, first);
    if |h| == 0 {
      AllDone(DualProblem(h, methods, same), {}, first);
      return PlainChecker.Verdict(true);
    }
    var tags := Tags(h);
    var responses := BuildEventInfo(tags);
    for i := 0 to |h|
      invariant forall j :: 0 <= j < i && h[j].IsInvoke() ==> h[j].task.name in methods
    {
      if h[i].IsInvoke() && h[i].task.name !in methods {
        return PlainChecker.NoMethod(h[i].task.name);
      }
    }
    var events := seq(|h|, i requires 0 <= i < |h| => if h[i].IsInvoke() then L.Invoke(responses[i], true)
                      else L.Response);
    assert events == EventsOf(tags, true);
    var passes := ValidateFollowUps(h, events, methods);
    var p := Problem(events, (i: nat, s: S) => TryApply(h, events, methods, same, i, s), (s: S) => passes);
    PairingValid(tags, true);
    SpecCongruent(p, h, methods, same, equal);
    SameLinearizable(p, DualProblem(h, methods, same), first);
    var found := RecursiveSearch.RunSearch(p, first, cacheable, equal);
    return PlainChecker.Verdict(found);
  }

  /** Collects the finished follow-ups, then tests every answered request that has none. */
  method ValidateFollowUps<S, A, V>(h: seq<DualEvent<A, V>>, events: seq<Event>,
                                    methods: map<string, Method<S, A, V>>) returns (passes: bool)
    requires |events| == |h|
    ensures passes == CompletionTest(h, events, methods)
  {
    var completed: set<nat> := {};
    for i := 0 to |h|
      invariant forall address :: address in completed <==> CompletedFollowUp(h[..i], address)
    {
      forall address ensures CompletedFollowUp(h[..i + 1], address) <==>
        CompletedFollowUp(h[..i], address) || (h[i].FollowUpResponse? && h[i].task.address == address)
      {
        CompletedStep(h, i, address);
      }
      if h[i].FollowUpResponse? {
        completed := completed + {h[i].task.address};
      }
    }
    assert h[..|h|] == h;
    passes := true;
    for i := 0 to |h|
      invariant passes <==> forall j :: 0 <= j < i && IncompleteFollowUp(h, events, j) ==>
        h[j].task.name in methods && methods[h[j].task.name].Blocking?
    {
      if h[i].RequestInvoke? && events[i].Invoke? && events[i].response.Some? && h[i].task.address !in completed {
        assert IncompleteFollowUp(h, events, i);
        if !(h[i].task.name in methods && methods[h[i].task.name].Blocking?) {
          passes := false;
        }
      }
    }
  }

  lemma CompletedStep<A, V>(h: seq<DualEvent<A, V>>, i: nat, address: nat)
    requires i < |h|
    ensures CompletedFollowUp(h[..i + 1], address) <==>
            CompletedFollowUp(h[..i], address) || (h[i].FollowUpResponse? && h[i].task.address == address)
  {
    if CompletedFollowUp(h[..i], address) {
      var j :| 0 <= j < i && h[..i][j].FollowUpResponse? && h[..i][j].task.address == address;
      assert h[..i + 1][j] == h[..i][j];
    }
    if h[i].FollowUpResponse? && h[i].task.address == address {
      assert h[..i + 1][i] == h[i];
    }
  }

  // ---- The final test never decides ---------------------------------------------------------------

  lemma {:induction false} ReplayedApplied<S>(p: Problem<S>, s: S, order: seq<nat>, i: nat)
    requires Replay(p, s, order).Some? && i in order
    ensures exists t :: p.apply(i, t).Some?
  {
    if order[0] != i {
      ReplayedApplied(p, p.apply(order[0], s).value, order[1..], i);
    }
  }

  /** A request with a response must have been applied, so its method is blocking. */
  lemma {:induction false} AppliedPasses<S, A, V>(h: seq<DualEvent<A, V>>, methods: map<string, Method<S, A, V>>,
                                                  same: (V, V) -> bool, first: S)
    requires Linearizable(UntestedProblem(h, methods, same), first)
    ensures CompletionTest(h, EventsOf(Tags(h), true), methods)
  {
    var p := UntestedProblem(h, methods, same);
    var order :| IsLinearization(p, {}, first, order);
    forall i | 0 <= i < |h| && IncompleteFollowUp(h, p.events, i)
      ensures h[i].task.name in methods && methods[h[i].task.name].Blocking?
    {
      assert Accounts(p.events, order, i);
      ReplayedApplied(p, first, order, i);
    }
  }

  /** The verdict is the one without the final test: an answered request whose follow-up is ready but
      never recorded is accepted as pending, for every specification and history. */
  lemma CompletionTestRedundant<S, A, V>(h: seq<DualEvent<A, V>>, methods: map<string, Method<S, A, V>>,
                                         same: (V, V) -> bool, first: S)
    ensures Linearizable(DualProblem(h, methods, same), first) <==>
      Linearizable(UntestedProblem(h, methods, same), first)
  {
    var p, q := DualProblem(h, methods, same), UntestedProblem(h, methods, same);
    forall order | IsLinearization(p, {}, first, order) ensures IsLinearization(q, {}, first, order) {
      SameApplyReplay(p, q, first, order);
    }
    forall order | IsLinearization(q, {}, first, order) ensures IsLinearization(p, {}, first, order) {
      SameApplyReplay(p, q, first, order);
      AppliedPasses(h, methods, same, first);
    }
  }

  lemma {:induction false} SameApplyReplay<S>(p: Problem<S>, q: Problem<S>, s: S, order: seq<nat>)
    requires forall i: nat, t :: p.apply(i, t) == q.apply(i, t)
    ensures Replay(p, s, order) == Replay(q, s, order)
  {
    if order != [] && p.apply(order[0], s).Some? {
      SameApplyReplay(p, q, p.apply(order[0], s).value, order[1..]);
    }
  }

  // ---- Prefixes -------------------------------------------------------------------------------------

  /** A predicate method that accepts a result accepts the pending call too, with the same effect.
      A specification without predicate methods is one of these. */
  ghost predicate PendingToo<S(!new), A(!new), V(!new)>(methods: map<string, Method<S, A, V>>) {
    forall name, s, a, v {:trigger methods[name].test(s, a, Some(v))} :: name in methods && methods[name].Predicate? ==>
      methods[name].test(s, a, Some(v)).1 ==> methods[name].test(s, a, None) == methods[name].test(s, a, Some(v))
  }

  lemma CutApply<S(!new), A(!new), V(!new)>(h: seq<DualEvent<A, V>>, k: nat, methods: map<string, Method<S, A, V>>,
                                            same: (V, V) -> bool,
                          full: seq<Event>, cut: seq<Event>, i: nat, s: S)
    requires i < k <= |h| && |full| == |h| && |cut| == k && full[i].Invoke? && cut[i].Invoke? && PendingToo(methods)
    requires cut[i].response == CutResponse(full[i].response, k)
    requires TryApply(h, full, methods, same, i, s).Some?
    ensures TryApply(h[..k], cut, methods, same, i, s) == TryApply(h, full, methods, same, i, s)
  {
    assert h[..k][i] == h[i];
    assert ExpectedResult(h[..k], cut, i) == ExpectedResult(h, full, i) || ExpectedResult(h[..k], cut, i).None?;
  }

  lemma {:induction false} CutHistory<S(!new), A(!new), V(!new)>(h: seq<DualEvent<A, V>>,
                                                                 methods: map<string, Method<S, A, V>>,
                                                                   same: (V, V) -> bool, k: nat)
    requires k <= |h| && AllPaired(Tags(h)) && PendingToo(methods)
    ensures CutOf(UntestedProblem(h[..k], methods, same), UntestedProblem(h, methods, same), k)
  {
    var p, q := UntestedProblem(h, methods, same), UntestedProblem(h[..k], methods, same);
    assert Tags(h[..k]) == Tags(h)[..k];
    forall i: nat | i < k && p.events[i].Invoke? ensures q.events[i].response == CutResponse(p.events[i].response, k) {
      CutPairing(Tags(h), k, i);
    }
    forall i: nat, s | i < k && p.events[i].Invoke? && p.apply(i, s).Some? ensures q.apply(i, s) == p.apply(i, s) {
      CutApply(h, k, methods, same, p.events, q.events, i, s);
    }
  }

  /** A linearizable dual history has only linearizable prefixes. */
  lemma {:induction false} PrefixClosed<S(!new), A(!new), V(!new)>(h: seq<DualEvent<A, V>>,
                                                                   methods: map<string, Method<S, A, V>>,
                                                                     same: (V, V) -> bool, first: S, k: nat)
    requires k <= |h| && PendingToo(methods)
    requires Explained(h, methods, same, first)
    ensures Explained(h[..k], methods, same, first)
  {
    var p, q := UntestedProblem(h, methods, same), UntestedProblem(h[..k], methods, same);
    LinearizableExplained(h, methods, same, first);
    PairingValid(Tags(h), true);
    PlainChecker.LinearizedPaired(p, first, Tags(h), true);
    CutHistory(h, methods, same, k);
    CutLinearizable(q, p, k, first);
    LinearizableExplained(h[..k], methods, same, first);
  }

  // ---- Histories of a round ---------------------------------------------------------------------------

  /** What a round records of a history: which task, told by its address, went through which event. */
  function Entries<A, V>(h: seq<DualEvent<A, V>>): seq<DualHistory.Entry> {
    seq(|h|, i requires 0 <= i < |h| => DualHistory.Entry(h[i].task.address, h[i].KindOf()))
  }

  /** In a history of a round the checker pairs each response with the invoke of the same task and phase. */
  lemma RoundPaired<A, V>(h: seq<DualEvent<A, V>>, r: nat, i: nat)
    requires DualHistory.WellFormed(Entries(h)) && r < |h| && i < |h| && !h[r].IsInvoke()
    requires h[i].task.address == h[r].task.address && h[i].KindOf() == DualHistory.InvokeKind(h[r].KindOf())
    ensures i < r && InvokeOf(Tags(h), r) == Some(i) && ResponseOf(Tags(h), |h|, i) == Some(r)
  {
    DualHistory.PairingExact(Entries(h), Tags(h), r, i);
  }

  /** So all of them are paired, whatever the ids. */
  lemma RoundAllPaired<A, V>(h: seq<DualEvent<A, V>>)
    requires DualHistory.WellFormed(Entries(h))
    ensures AllPaired(Tags(h))
  {
    DualHistory.AllResponsesPaired(Entries(h), Tags(h));
  }
}

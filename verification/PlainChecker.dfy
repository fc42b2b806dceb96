/** The recursive and the iterative checker for ordinary histories. */
module PlainChecker {
  import L = Linearization
  import opened Options
  import opened Linearization
  import opened Pairing
  import opened Completions
  import RecursiveSearch
  import WglChecker

  datatype HistoryEvent<A, V> = Invoke(task: Task<A, V>) | Response(task: Task<A, V>, result: V)

  /** A specification method: the state it leaves and the value it returns. */
  type Method<!S, !A, V> = (S, A) -> (S, V)

  datatype Verdict = NoMethod(name: string) | Verdict(linearizable: bool)

  function TagOf<A, V>(e: HistoryEvent<A, V>): Tag {
    Tag(e.Invoke?, Ordinary, e.task.address, e.task.id)
  }

  function Tags<A, V>(h: seq<HistoryEvent<A, V>>): seq<Tag> {
    seq(|h|, i requires 0 <= i < |h| => TagOf(h[i]))
  }

  /** Applies the method of invoke `i`; `expected` is the value a completed call must return. */
  function ApplyMethod<S, A, V>(h: seq<HistoryEvent<A, V>>, methods: map<string, Method<S, A, V>>, same: (V, V) -> bool,
                                i: nat, expected: Option<V>, s: S): Option<S> {
    if i < |h| && h[i].Invoke? && h[i].task.name in methods then
      var (t, v) := methods[h[i].task.name](s, h[i].task.args);
      if expected.None? || same(v, expected.value) then Some(t) else None
    else None
  }

  /** The recursive checker compares with the result recorded in the response event. */
  function RecordedResult<A, V>(h: seq<HistoryEvent<A, V>>, events: seq<Event>, i: nat): Option<V> {
    if IsInvoke(events, i) && events[i].response.Some? && events[i].response.value < |h|
      && h[events[i].response.value].Response?
    then Some(h[events[i].response.value].result) else None
  }

  /** The iterative checker compares with the value stored in the task of the invoke event. */
  function TaskResult<A, V>(h: seq<HistoryEvent<A, V>>, events: seq<Event>, i: nat): Option<V> {
    if IsInvoke(events, i) && events[i].response.Some? && i < |h| then Some(h[i].task.ret) else None
  }

  ghost function RecursiveProblem<S, A, V>(h: seq<HistoryEvent<A, V>>, methods: map<string, Method<S, A, V>>,
                                           same: (V, V) -> bool): Problem<S>
  {
    var events := EventsOf(Tags(h), false);
    Problem(events, (i: nat, s: S) => ApplyMethod(h, methods, same, i, RecordedResult(h, events, i), s), (s: S) => true)
  }

  ghost function IterativeProblem<S, A, V>(h: seq<HistoryEvent<A, V>>, methods: map<string, Method<S, A, V>>,
                                           same: (V, V) -> bool): Problem<S>
  {
    var events := EventsOf(Tags(h), false);
    Problem(events, (i: nat, s: S) => ApplyMethod(h, methods, same, i, TaskResult(h, events, i), s), (s: S) => true)
  }

  ghost predicate Known<S, A, V>(h: seq<HistoryEvent<A, V>>, methods: map<string, Method<S, A, V>>) {
    forall i :: 0 <= i < |h| && h[i].Invoke? ==> h[i].task.name in methods
  }

  // ---- What the verdict means, over the history and the methods alone ------------------------------

  /** Response `r` answers call `i`: the last earlier call of its task, or, when there is none, the last
      earlier call with the id of its task. */
  ghost predicate Answers<A, V>(h: seq<HistoryEvent<A, V>>, i: nat, r: nat) {
    && i < r < |h| && h[i].Invoke? && h[r].Response?
    && (|| (&& h[i].task.address == h[r].task.address
            && forall j: nat :: i < j < r && h[j].Invoke? ==> h[j].task.address != h[r].task.address)
        || (&& h[i].task.id == h[r].task.id
            && (forall j: nat :: j < r && h[j].Invoke? ==> h[j].task.address != h[r].task.address)
            && forall j: nat :: i < j < r && h[j].Invoke? ==> h[j].task.id != h[r].task.id))
  }

  /** The call `i` returned at `r`, the last response that answers it. */
  ghost predicate Returned<A, V>(h: seq<HistoryEvent<A, V>>, i: nat, r: nat) {
    Answers(h, i, r) && forall m: nat :: r < m < |h| ==> !Answers(h, i, m)
  }

  /** Where a checker finds the value that a returned call gave back. */
  datatype Results = InResponse | InTask

  /** The call `i` takes state `s` to `t` and returns what was recorded, if it returned. */
  ghost predicate Runs<S, A, V>(h: seq<HistoryEvent<A, V>>, methods: map<string, Method<S, A, V>>, same: (V, V) -> bool,
                                results: Results, i: nat, s: S, t: S)
  {
    && i < |h| && h[i].Invoke? && h[i].task.name in methods
    && t == methods[h[i].task.name](s, h[i].task.args).0
    && forall r: nat :: Returned(h, i, r) ==>
         same(methods[h[i].task.name](s, h[i].task.args).1, if results.InTask? then h[i].task.ret else h[r].result)
  }

  /** One after the other the calls of `order` lead from `first` through `states`. They are distinct, none
      comes before one that had returned when it was invoked, and they are all the calls of the history,
      except that `mayDrop` allows to leave out calls that never returned. */
  ghost predicate Explains<S, A, V>(h: seq<HistoryEvent<A, V>>, methods: map<string, Method<S, A, V>>,
                                    same: (V, V) -> bool, results: Results, mayDrop: bool, first: S,
                                    order: seq<nat>, states: seq<S>)
  {
    && |states| == |order| + 1 && states[0] == first
    && (forall k: nat :: k < |order| ==> Runs(h, methods, same, results, order[k], states[k], states[k + 1]))
    && (forall j: nat, k: nat :: j < k < |order| ==> order[j] != order[k])
    && (forall j: nat, k: nat, r: nat :: j < k < |order| && Returned(h, order[k], r) ==> !(r < order[j]))
    && (forall i: nat :: i < |h| && h[i].Invoke? ==> i in order || (mayDrop && forall r: nat :: !Returned(h, i, r)))
    && (forall r: nat :: r < |h| && h[r].Response? ==> exists i: nat :: i in order && Returned(h, i, r))
  }

  ghost predicate Explained<S(!new), A, V>(h: seq<HistoryEvent<A, V>>, methods: map<string, Method<S, A, V>>,
                                           same: (V, V) -> bool, results: Results, mayDrop: bool, first: S)
  {
    exists order, states :: Explains(h, methods, same, results, mayDrop, first, order, states)
  }

  lemma {:induction false} ReturnedExact<A, V>(h: seq<HistoryEvent<A, V>>, i: nat, r: nat)
    ensures Returned(h, i, r) <==> Returns(Tags(h), i, r)
  {
    var tags := Tags(h);
    forall m: nat | m < |h| ensures Answers(h, i, m) <==> Pairing.Answers(tags, i, m) {
      assert forall j: nat :: j < m ==>
        (ByAddress(tags, j, m) <==> h[j].Invoke? && h[j].task.address == h[m].task.address);
      assert forall j: nat :: j < m ==> (ById(tags, j, m) <==> h[j].Invoke? && h[j].task.id == h[m].task.id);
    }
  }

  /** What a problem of the checkers says of one call. */
  ghost predicate Agrees<S(!new), A, V>(p: Problem<S>, h: seq<HistoryEvent<A, V>>,
                                        methods: map<string, Method<S, A, V>>, same: (V, V) -> bool,
                                        results: Results, mayDrop: bool)
  {
    && p.events == EventsOf(Tags(h), mayDrop) && (forall s :: p.complete(s))
    && forall i: nat, s, t :: IsInvoke(p.events, i) ==>
         (p.apply(i, s) == Some(t) <==> Runs(h, methods, same, results, i, s, t))
  }

  lemma {:induction false} ArrangedExplains<S, A, V>(
    h: seq<HistoryEvent<A, V>>, methods: map<string, Method<S, A, V>>, same: (V, V) -> bool, results: Results,
    mayDrop: bool, first: S, order: seq<nat>, states: seq<S>)
    requires Arranged(Tags(h), mayDrop, order) && |states| == |order| + 1 && states[0] == first
    requires forall k: nat :: k < |order| ==> Runs(h, methods, same, results, order[k], states[k], states[k + 1])
    ensures Explains(h, methods, same, results, mayDrop, first, order, states)
  {
    forall i: nat, r: nat ensures Returned(h, i, r) <==> Returns(Tags(h), i, r) {
      ReturnedExact(h, i, r);
    }
    forall r: nat | r < |h| && h[r].Response? ensures exists i: nat :: i in order && Returned(h, i, r) {
      assert !Tags(h)[r].invoke;
    }
    forall i: nat | i < |h| && h[i].Invoke?
      ensures i in order || (mayDrop && forall r: nat :: !Returned(h, i, r))
    {
      assert Tags(h)[i].invoke;
    }
  }

  lemma {:induction false} ExplainsArranged<S, A, V>(
    h: seq<HistoryEvent<A, V>>, methods: map<string, Method<S, A, V>>, same: (V, V) -> bool, results: Results,
    mayDrop: bool, first: S, order: seq<nat>, states: seq<S>)
    requires Explains(h, methods, same, results, mayDrop, first, order, states)
    ensures Arranged(Tags(h), mayDrop, order)
  {
    forall i: nat, r: nat ensures Returned(h, i, r) <==> Returns(Tags(h), i, r) {
      ReturnedExact(h, i, r);
    }
    forall k: nat | k < |order| ensures order[k] < |h| && Tags(h)[order[k]].invoke {
      assert Runs(h, methods, same, results, order[k], states[k], states[k + 1]);
    }
  }

  /** The linearizations of such a problem are the explanations of the history. */
  lemma {:induction false} LinearizableExplained<S(!new), A, V>(
    p: Problem<S>, h: seq<HistoryEvent<A, V>>, methods: map<string, Method<S, A, V>>, same: (V, V) -> bool,
    results: Results, mayDrop: bool, first: S)
    requires Agrees(p, h, methods, same, results, mayDrop)
    ensures Linearizable(p, first) <==> Explained(h, methods, same, results, mayDrop, first)
  {
    if Linearizable(p, first) {
      var order :| IsLinearization(p, {}, first, order);
      AdmissibleArranged(Tags(h), mayDrop, order);
      var states := ReplayTrace(p, first, order);
      ArrangedExplains(h, methods, same, results, mayDrop, first, order, states);
    }
    if Explained(h, methods, same, results, mayDrop, first) {
      var order, states :| Explains(h, methods, same, results, mayDrop, first, order, states);
      ExplainsArranged(h, methods, same, results, mayDrop, first, order, states);
      ArrangedAdmissible(Tags(h), mayDrop, order);
      forall k | 0 <= k < |order| ensures p.apply(order[k], states[k]) == Some(states[k + 1]) {
        assert order[k] in order;
        assert Runs(h, methods, same, results, order[k], states[k], states[k + 1]);
      }
      TraceReplay(p, first, order, states);
      assert IsLinearization(p, {}, first, order);
    }
  }

  /** The method of a call run with the result the checker expects is a run of the call. */
  lemma {:induction false} ApplyRuns<S, A, V>(
    h: seq<HistoryEvent<A, V>>, methods: map<string, Method<S, A, V>>, same: (V, V) -> bool, results: Results,
    i: nat, expected: Option<V>, s: S, t: S)
    requires i < |h| && h[i].Invoke?
    requires var response := ResponseOf(Tags(h), |h|, i);
             && (response.None? ==> expected.None?)
             && (response.Some? && h[response.value].Response? ==>
                   expected == Some(if results.InTask? then h[i].task.ret else h[response.value].result))
    ensures ApplyMethod(h, methods, same, i, expected, s) == Some(t) <==> Runs(h, methods, same, results, i, s, t)
  {
    var response := ResponseOf(Tags(h), |h|, i);
    forall r: nat ensures Returned(h, i, r) <==> response == Some(r) {
      ReturnedExact(h, i, r);
      ReturnsExact(Tags(h), i, r);
    }
    if response.Some? {
      assert Returned(h, i, response.value);
    }
  }

  lemma {:induction false} RecursiveAgrees<S(!new), A, V>(
    h: seq<HistoryEvent<A, V>>, methods: map<string, Method<S, A, V>>, same: (V, V) -> bool)
    ensures Agrees(RecursiveProblem(h, methods, same), h, methods, same, InResponse, false)
  {
    var p := RecursiveProblem(h, methods, same);
    forall i: nat, s, t | IsInvoke(p.events, i)
      ensures p.apply(i, s) == Some(t) <==> Runs(h, methods, same, InResponse, i, s, t)
    {
      ApplyRuns(h, methods, same, InResponse, i, RecordedResult(h, p.events, i), s, t);
    }
  }

  lemma {:induction false} IterativeAgrees<S(!new), A, V>(
    h: seq<HistoryEvent<A, V>>, methods: map<string, Method<S, A, V>>, same: (V, V) -> bool)
    ensures Agrees(IterativeProblem(h, methods, same), h, methods, same, InTask, false)
  {
    var p := IterativeProblem(h, methods, same);
    forall i: nat, s, t | IsInvoke(p.events, i)
      ensures p.apply(i, s) == Some(t) <==> Runs(h, methods, same, InTask, i, s, t)
    {
      ApplyRuns(h, methods, same, InTask, i, TaskResult(h, p.events, i), s, t);
    }
  }

  /** Comparing with a recorded value does not tell the two results apart. */
  ghost predicate Indistinct<V(!new)>(same: (V, V) -> bool, x: V, y: V) {
    forall v :: same(x, v) <==> same(y, v)
  }

  /** The user's equalities: equal states stay equal, and return what `same` cannot tell apart. */
  ghost predicate SpecCongruence<S(!new), A(!new), V(!new)>(methods: map<string, Method<S, A, V>>, same: (V, V) -> bool,
                                                            equal: (S, S) -> bool)
  {
    forall name, a, s, t {:trigger methods[name](s, a), methods[name](t, a)} :: name in methods && equal(s, t) ==>
      equal(methods[name](s, a).0, methods[name](t, a).0)
        && Indistinct(same, methods[name](s, a).1, methods[name](t, a).1)
  }

  ghost predicate Behaves<S(!new), A, V>(p: Problem<S>, h: seq<HistoryEvent<A, V>>,
                                         methods: map<string, Method<S, A, V>>,
                                         same: (V, V) -> bool, results: nat -> Option<V>) {
    && p.events == EventsOf(Tags(h), false)
    && (forall i: nat, s :: p.apply(i, s) == ApplyMethod(h, methods, same, i, results(i), s))
    && (forall s :: p.complete(s))
  }

  lemma BehavesCongruent<S(!new), A(!new), V(!new)>(p: Problem<S>, h: seq<HistoryEvent<A, V>>,
                                                    methods: map<string, Method<S, A, V>>,
                                              same: (V, V) -> bool, results: nat -> Option<V>, equal: (S, S) -> bool)
    requires Behaves(p, h, methods, same, results) && SpecCongruence(methods, same, equal)
    ensures Congruence(p, equal)
  {
    forall s, t | equal(s, t) ensures Alike(p, equal, s, t) {
      forall i: nat | i < |p.events| && h[i].Invoke? && h[i].task.name in methods
        ensures Indistinct(same, methods[h[i].task.name](s, h[i].task.args).1,
                           methods[h[i].task.name](t, h[i].task.args).1)
        ensures equal(methods[h[i].task.name](s, h[i].task.args).0, methods[h[i].task.name](t, h[i].task.args).0)
      {
      }
    }
  }

  /** The recursive checker decides linearizability of every history whose methods it knows, with
      or without the cache, for every equality that is a congruence. */
  method CheckRecursive<S(!new), A(!new), V(!new)>(h: seq<HistoryEvent<A, V>>, methods: map<string, Method<S, A, V>>,
                                             same: (V, V) -> bool, first: S, cacheable: bool, equal: (S, S) -> bool)
    returns (verdict: Verdict)
    requires SpecCongruence(methods, same, equal)
    ensures verdict.Verdict? <==> Known(h, methods)
    ensures verdict.Verdict? ==> (verdict.linearizable <==> Linearizable(RecursiveProblem(h, methods, same), first))
    ensures verdict.Verdict? ==> (verdict.linearizable <==> Explained(h, methods, same, InResponse, false, first))
  {
    var tags := Tags(h);
    var responses := BuildEventInfo(tags);
    for i := 0 to |h|
      invariant forall j :: 0 <= j < i && h[j].Invoke? ==> h[j].task.name in methods
    {
      if h[i].Invoke? && h[i].task.name !in methods {
        return NoMethod(h[i].task.name);
      }
    }
    var events := seq(|h|, i requires 0 <= i < |h| => if h[i].Invoke? then L.Invoke(responses[i], false)
                      else L.Response);
    assert events == EventsOf(tags, false);
    var p := Problem(events, (i: nat, s: S) => ApplyMethod(h, methods, same, i, RecordedResult(h, events, i), s),
                     (s: S) => true);
    PairingValid(tags, false);
    BehavesCongruent(p, h, methods, same, i => RecordedResult(h, events, i), equal);
    SameLinearizable(p, RecursiveProblem(h, methods, same), first);
    var found := RecursiveSearch.RunSearch(p, first, cacheable, equal);
    if |h| == 0 { AllDone(p, {}, first); }
    RecursiveAgrees(h, methods, same);
    LinearizableExplained(RecursiveProblem(h, methods, same), h, methods, same, InResponse, false, first);
    return Verdict(found);
  }

  /** The iterative checker decides linearizability, on histories that meet its assertions. */
  method CheckIterative<S(!new), A(!new), V(!new)>(h: seq<HistoryEvent<A, V>>, methods: map<string, Method<S, A, V>>,
                                             same: (V, V) -> bool, first: S, equal: (S, S) -> bool)
    returns (ok: bool)
    requires SpecCongruence(methods, same, equal) && Known(h, methods) && Answered(Tags(h))
    ensures ok <==> Linearizable(IterativeProblem(h, methods, same), first)
    ensures ok <==> Explained(h, methods, same, InTask, false, first)
  {
    var tags := Tags(h);
    var invRes := InvokeResponseMapping(tags);
    var events := seq(|h|, i requires 0 <= i < |h| => if h[i].Invoke? then L.Invoke(Lookup(invRes, i), false)
                      else L.Response);
    assert events == EventsOf(tags, false);
    var p := Problem(events, (i: nat, s: S) => ApplyMethod(h, methods, same, i, TaskResult(h, events, i), s),
                     (s: S) => true);
    PairingValid(tags, false);
    BehavesCongruent(p, h, methods, same, i => TaskResult(h, events, i), equal);
    SameLinearizable(p, IterativeProblem(h, methods, same), first);
    ok := WglChecker.Check(p, first, equal);
    IterativeAgrees(h, methods, same);
    LinearizableExplained(IterativeProblem(h, methods, same), h, methods, same, InTask, false, first);
  }

  /** What the scheduler records: one task for each address, and its return value in its response. */
  ghost predicate Recorded<A, V>(h: seq<HistoryEvent<A, V>>) {
    && (forall i, j :: 0 <= i < |h| && 0 <= j < |h| && h[i].task.address == h[j].task.address ==>
        h[i].task == h[j].task)
    && (forall r :: 0 <= r < |h| && h[r].Response? ==> h[r].result == h[r].task.ret)
  }

  lemma SameResults<A, V>(h: seq<HistoryEvent<A, V>>, i: nat)
    requires Recorded(h) && Answered(Tags(h))
    ensures RecordedResult(h, EventsOf(Tags(h), false), i) == TaskResult(h, EventsOf(Tags(h), false), i)
  {
    var tags, events := Tags(h), EventsOf(Tags(h), false);
    if IsInvoke(events, i) && events[i].response.Some? {
      var r := events[i].response.value;
      assert InvokeOf(tags, r) == Some(i) && LastByAddress(tags, r, r).Some?;
      assert ByAddress(tags, i, r);
    }
  }

  /** The two checkers agree, for every recorded history, every specification and every congruence. */
  method CheckersAreTheSame<S(!new), A(!new), V(!new)>(h: seq<HistoryEvent<A, V>>,
                                                       methods: map<string, Method<S, A, V>>,
                                                 same: (V, V) -> bool, first: S, cacheable: bool,
                                                 equal: (S, S) -> bool, equal': (S, S) -> bool)
    returns (fast: bool, slow: Verdict)
    requires SpecCongruence(methods, same, equal) && SpecCongruence(methods, same, equal')
    requires Known(h, methods) && Answered(Tags(h)) && Recorded(h)
    ensures slow == Verdict(fast)
  {
    fast := CheckIterative(h, methods, same, first, equal);
    slow := CheckRecursive(h, methods, same, first, cacheable, equal');
    forall i: nat ensures RecordedResult(h, EventsOf(Tags(h), false), i) == TaskResult(h, EventsOf(Tags(h), false), i) {
      SameResults(h, i);
    }
    SameLinearizable(RecursiveProblem(h, methods, same), IterativeProblem(h, methods, same), first);
  }

  /** Herlihy and Wing's definition: pending operations may be completed with any value or left out. */
  ghost predicate HerlihyWing<S(!new), A, V>(h: seq<HistoryEvent<A, V>>, methods: map<string, Method<S, A, V>>,
                                             same: (V, V) -> bool, first: S)
  {
    Explained(h, methods, same, InResponse, true, first)
  }

  /** The problem with droppable pending invokes is Herlihy and Wing's definition. */
  lemma {:induction false} DroppableExplained<S(!new), A, V>(
    h: seq<HistoryEvent<A, V>>, methods: map<string, Method<S, A, V>>, same: (V, V) -> bool, first: S)
    ensures var p := RecursiveProblem(h, methods, same);
            Linearizable(p.(events := Droppable(p.events)), first) <==> HerlihyWing(h, methods, same, first)
  {
    var p := RecursiveProblem(h, methods, same);
    var q := p.(events := Droppable(p.events));
    RecursiveAgrees(h, methods, same);
    assert q.events == EventsOf(Tags(h), true);
    forall i: nat, s, t | IsInvoke(q.events, i)
      ensures q.apply(i, s) == Some(t) <==> Runs(h, methods, same, InResponse, i, s, t)
    {
      assert IsInvoke(p.events, i);
    }
    LinearizableExplained(q, h, methods, same, InResponse, true, first);
  }

  /** The checkers never drop a pending invoke, and still decide full linearizability. */
  lemma CheckersDecideHerlihyWing<S(!new), A, V>(h: seq<HistoryEvent<A, V>>, methods: map<string, Method<S, A, V>>,
                                                 same: (V, V) -> bool, first: S)
    requires Known(h, methods)
    ensures Explained(h, methods, same, InResponse, false, first) <==> HerlihyWing(h, methods, same, first)
  {
    RecursiveAgrees(h, methods, same);
    LinearizableExplained(RecursiveProblem(h, methods, same), h, methods, same, InResponse, false, first);
    DroppingUnneeded(RecursiveProblem(h, methods, same), first);
    DroppableExplained(h, methods, same, first);
  }

  lemma CutApply<S, A, V>(h: seq<HistoryEvent<A, V>>, k: nat, methods: map<string, Method<S, A, V>>,
                          same: (V, V) -> bool,
                          full: seq<Event>, cut: seq<Event>, i: nat, s: S)
    requires i < k <= |h| && |full| == |h| && |cut| == k && full[i].Invoke? && cut[i].Invoke?
    requires cut[i].response == CutResponse(full[i].response, k)
    requires ApplyMethod(h, methods, same, i, RecordedResult(h, full, i), s).Some?
    ensures ApplyMethod(h[..k], methods, same, i, RecordedResult(h[..k], cut, i), s)
            == ApplyMethod(h, methods, same, i, RecordedResult(h, full, i), s)
  {
  }

  /** Cutting a history leaves the operations with cut-off responses pending. */
  lemma {:induction false} CutHistory<S(!new), A, V>(h: seq<HistoryEvent<A, V>>,
                                                     methods: map<string, Method<S, A, V>>, same: (V, V) -> bool,
                                                       k: nat)
    requires k <= |h| && AllPaired(Tags(h))
    ensures var q := RecursiveProblem(h[..k], methods, same);
            CutOf(q.(events := Droppable(q.events)), RecursiveProblem(h, methods, same), k)
  {
    var p, q := RecursiveProblem(h, methods, same), RecursiveProblem(h[..k], methods, same);
    assert Tags(h[..k]) == Tags(h)[..k];
    forall i: nat | i < k && p.events[i].Invoke? ensures q.events[i].response == CutResponse(p.events[i].response, k) {
      CutPairing(Tags(h), k, i);
    }
    forall i: nat, s | i < k && p.events[i].Invoke? && p.apply(i, s).Some? ensures q.apply(i, s) == p.apply(i, s) {
      CutApply(h, k, methods, same, p.events, q.events, i, s);
    }
  }

  /** A linearizable history has only linearizable prefixes. */
  lemma {:induction false} PrefixClosed<S(!new), A, V>(h: seq<HistoryEvent<A, V>>,
                                                       methods: map<string, Method<S, A, V>>, same: (V, V) -> bool,
                                                         first: S, k: nat)
    requires Known(h, methods) && k <= |h|
    requires Explained(h, methods, same, InResponse, false, first)
    ensures Explained(h[..k], methods, same, InResponse, false, first)
  {
    var p, q := RecursiveProblem(h, methods, same), RecursiveProblem(h[..k], methods, same);
    RecursiveAgrees(h, methods, same);
    LinearizableExplained(p, h, methods, same, InResponse, false, first);
    PairingValid(Tags(h), false);
    LinearizedPaired(p, first, Tags(h), false);
    CutHistory(h, methods, same, k);
    CutLinearizable(q.(events := Droppable(q.events)), p, k, first);
    DroppableExplained(h[..k], methods, same, first);
    CheckersDecideHerlihyWing(h[..k], methods, same, first);
  }

  /** Only a history whose responses are all paired can be linearized. */
  lemma {:induction false} LinearizedPaired<S>(p: Problem<S>, first: S, tags: seq<Tag>, droppable: bool)
    requires p.events == EventsOf(tags, droppable) && Linearizable(p, first)
    ensures AllPaired(tags)
  {
    var order :| IsLinearization(p, {}, first, order);
    forall r: nat | r < |tags| && !tags[r].invoke ensures Paired(tags, r) {
      assert Accounts(p.events, order, r);
      var j: nat :| j in order && Closes(p.events, r, j);
      assert ResponseOf(tags, |tags|, j) == Some(r);
    }
  }
}

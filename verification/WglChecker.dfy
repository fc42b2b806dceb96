/** The iterative checker: an explicit stack of open sections, a cursor, and a cache filled on visit. */
module WglChecker {
  import opened Options
  import opened Linearization
  import opened RecursiveSearch

  /** What the ordinary specification gives the checker: a pending operation always applies, is never
      dropped, and a finished linearization needs no further test. */
  ghost predicate Ordinary<S(!new)>(p: Problem<S>) {
    && (forall i: nat :: i < |p.events| && p.events[i].Invoke? ==> !p.events[i].droppable)
    && (forall i: nat, s :: Pending(p.events, i) ==> p.apply(i, s).Some?)
    && (forall s :: p.complete(s))
  }

  /** The open sections, one level each. Level `l` has state `states[l]`, has linearized the events
      `dones[l]`, has ruled out every choice before `stack[l]`, and has then applied `stack[l]`. */
  datatype Levels<S> = Levels(stack: seq<nat>, states: seq<S>, dones: seq<set<nat>>) {
    ghost function Depth(): nat { |stack| }

    ghost predicate Shape(first: S) {
      |states| == |dones| == |stack| + 1 && states[0] == first && dones[0] == {}
    }
  }

  ghost predicate Sections<S>(p: Problem<S>, first: S, v: Levels<S>) {
    && v.Shape(first)
    && (forall l {:trigger Sized(p.events, v, l)} :: 0 <= l <= v.Depth() ==> Sized(p.events, v, l))
    && (forall l {:trigger Section(p, v, l)} :: 0 <= l < v.Depth() ==> Section(p, v, l))
  }

  ghost predicate Sized<S>(events: seq<Event>, v: Levels<S>, l: nat)
    requires l < |v.dones|
  {
    Closed(events, v.dones[l]) && l <= |v.dones[l]|
  }

  ghost predicate Section<S>(p: Problem<S>, v: Levels<S>, l: nat)
    requires l < |v.stack| && |v.states| == |v.dones| == |v.stack| + 1
  {
    && Available(p.events, v.dones[l], v.stack[l])
    && NoneViable(p, v.dones[l], v.states[l], v.stack[l])
    && p.apply(v.stack[l], v.states[l]) == Some(v.states[l + 1])
    && v.dones[l + 1] == Mark(p.events, v.dones[l], v.stack[l])
  }

  function Top<T>(s: seq<T>): T
    requires s != []
  {
    s[|s| - 1]
  }

  /** Deeper levels have linearized more. */
  lemma {:induction false} LevelsGrow<S>(p: Problem<S>, first: S, v: Levels<S>, l: nat, m: nat)
    requires Sections(p, first, v) && l <= m <= v.Depth()
    ensures v.dones[l] <= v.dones[m]
  {
    if l < m {
      LevelsGrow(p, first, v, l, m - 1);
      assert Section(p, v, m - 1);
    }
  }

  ghost function Pushed<S>(p: Problem<S>, v: Levels<S>, i: nat, next: S): Levels<S>
    requires v.dones != [] && IsInvoke(p.events, i)
  {
    Levels(v.stack + [i], v.states + [next], v.dones + [Mark(p.events, Top(v.dones), i)])
  }

  ghost function Popped<S>(v: Levels<S>): Levels<S>
    requires |v.states| == |v.dones| == |v.stack| + 1 && v.stack != []
  {
    Levels(v.stack[..|v.stack| - 1], v.states[..|v.stack|], v.dones[..|v.stack|])
  }

  /** A section depends on its level and the next only. */
  lemma SectionFrame<S>(p: Problem<S>, v: Levels<S>, v': Levels<S>, l: nat)
    requires |v.states| == |v.dones| == |v.stack| + 1 && |v'.states| == |v'.dones| == |v'.stack| + 1
    requires l < |v.stack| && l < |v'.stack| && Section(p, v, l) && v'.stack[l] == v.stack[l]
    requires v'.dones[l] == v.dones[l] && v'.dones[l + 1] == v.dones[l + 1]
    requires v'.states[l] == v.states[l] && v'.states[l + 1] == v.states[l + 1]
    ensures Section(p, v', l)
  {
  }

  lemma OpenSection<S>(p: Problem<S>, first: S, v: Levels<S>, i: nat, next: S)
    requires ValidPairing(p.events) && Sections(p, first, v)
    requires Available(p.events, Top(v.dones), i) && NoneViable(p, Top(v.dones), Top(v.states), i)
    requires p.apply(i, Top(v.states)) == Some(next)
    ensures Sections(p, first, Pushed(p, v, i, next))
  {
    var v', depth := Pushed(p, v, i, next), v.Depth();
    PushedSized(p, v, i, next);
    assert Section(p, v', depth);
    forall l | 0 <= l < depth ensures Section(p, v', l) {
      assert Section(p, v, l);
      SectionFrame(p, v, v', l);
    }
  }

  lemma PushedSized<S>(p: Problem<S>, v: Levels<S>, i: nat, next: S)
    requires ValidPairing(p.events) && v.dones != [] && Available(p.events, Top(v.dones), i)
    requires forall l :: 0 <= l < |v.dones| ==> Sized(p.events, v, l)
    ensures forall l :: 0 <= l <= |v.dones| ==> Sized(p.events, Pushed(p, v, i, next), l)
  {
    var v' := Pushed(p, v, i, next);
    assert Sized(p.events, v, |v.dones| - 1);
    MarkClosed(p.events, Top(v.dones), i);
    SubsetSize(Top(v.dones) + {i}, Mark(p.events, Top(v.dones), i));
    forall l | 0 <= l < |v.dones| ensures Sized(p.events, v', l) {
      assert Sized(p.events, v, l) && v'.dones[l] == v.dones[l];
    }
  }

  lemma CloseSection<S>(p: Problem<S>, first: S, v: Levels<S>)
    requires Sections(p, first, v) && v.stack != []
    ensures Sections(p, first, Popped(v))
  {
    var v' := Popped(v);
    forall l | 0 <= l <= v'.Depth() ensures Sized(p.events, v', l) {
      assert Sized(p.events, v, l);
    }
    forall l | 0 <= l < v'.Depth() ensures Section(p, v', l) {
      assert Section(p, v, l);
    }
  }

  /** Once only pending operations are left, applying them one by one completes the run. */
  lemma {:induction false} OnlyPendingLeft<S(!new)>(p: Problem<S>, done: set<nat>, s: S)
    requires ValidPairing(p.events) && Ordinary(p) && Closed(p.events, done)
    requires forall e: nat :: e < |p.events| && e !in done ==> Pending(p.events, e)
    ensures Completable(p, done, s)
    decreases Indices(|p.events|) - done
  {
    if e: nat :| e < |p.events| && e !in done {
      var done' := Mark(p.events, done, e);
      assert e in Indices(|p.events|) - done && e in done';
      MarkClosed(p.events, done, e);
      assert p.apply(e, s).Some?;
      OnlyPendingLeft(p, done', p.apply(e, s).value);
      assert Viable(p, done, s, e);
      StepExact(p, done, s, e);
    } else {
      AllDone(p, done, s);
    }
  }

  /** A completion of the innermost section is one of the whole history. */
  lemma {:induction false} Unwind<S>(p: Problem<S>, first: S, v: Levels<S>, l: nat)
    requires ValidPairing(p.events) && Sections(p, first, v)
    requires l <= v.Depth() && Completable(p, v.dones[l], v.states[l])
    ensures Linearizable(p, first)
  {
    if l > 0 {
      assert Section(p, v, l - 1) && Sized(p.events, v, l - 1);
      ViableCompletes(p, v.dones[l - 1], v.states[l - 1], v.stack[l - 1]);
      Unwind(p, first, v, l - 1);
    }
  }

  // ---- The visited cache -----------------------------------------------------------------------

  /** A cached key was explored in vain, or it is one of the levels still open. */
  ghost predicate Visited<S>(p: Problem<S>, cache: seq<CacheKey<S>>, v: Levels<S>) {
    forall k {:trigger cache[k]} :: 0 <= k < |cache| ==>
      !Completable(p, Done(cache[k].linearized), cache[k].state) || exists l :: AtLevel(cache[k], v, l)
  }

  ghost predicate AtLevel<S>(key: CacheKey<S>, v: Levels<S>, l: nat) {
    l < |v.dones| == |v.states| && Done(key.linearized) == v.dones[l] && key.state == v.states[l]
  }

  /** A key found again cannot be an open level, so its states were explored in vain. */
  lemma HitFails<S(!new)>(p: Problem<S>, first: S, equal: (S, S) -> bool, cache: seq<CacheKey<S>>, v: Levels<S>,
                          k: nat, i: nat, next: S)
    requires Congruence(p, equal) && Sections(p, first, v) && Visited(p, cache, v)
    requires k < |cache| && equal(next, cache[k].state)
    requires IsInvoke(p.events, i) && i !in Top(v.dones)
    requires Done(cache[k].linearized) == Mark(p.events, Top(v.dones), i)
    ensures !Completable(p, Mark(p.events, Top(v.dones), i), next)
  {
    forall l: nat ensures !AtLevel(cache[k], v, l) {
      if l < |v.dones| { LevelsGrow(p, first, v, l, v.Depth()); }
    }
    EqualCompletable(p, equal, Done(cache[k].linearized), next, cache[k].state);
  }

  lemma VisitedOpen<S>(p: Problem<S>, cache: seq<CacheKey<S>>, v: Levels<S>, i: nat, key: CacheKey<S>)
    requires |v.states| == |v.dones| > 0 && IsInvoke(p.events, i)
    requires Visited(p, cache, v) && Done(key.linearized) == Mark(p.events, Top(v.dones), i)
    ensures Visited(p, cache + [key], Pushed(p, v, i, key.state))
  {
    var v', cache' := Pushed(p, v, i, key.state), cache + [key];
    forall k | 0 <= k < |cache'| && Completable(p, Done(cache'[k].linearized), cache'[k].state)
      ensures exists l :: AtLevel(cache'[k], v', l)
    {
      if k == |cache| {
        assert AtLevel(key, v', |v.dones|);
      } else {
        assert cache'[k] == cache[k];
        var l :| AtLevel(cache[k], v, l);
        assert AtLevel(cache'[k], v', l);
      }
    }
  }

  lemma VisitedClose<S>(p: Problem<S>, first: S, cache: seq<CacheKey<S>>, v: Levels<S>)
    requires v.Shape(first) && v.stack != []
    requires Visited(p, cache, v) && !Completable(p, Top(v.dones), Top(v.states))
    ensures Visited(p, cache, Popped(v))
  {
    forall k | 0 <= k < |cache| && Completable(p, Done(cache[k].linearized), cache[k].state)
      ensures exists l :: AtLevel(cache[k], Popped(v), l)
    {
      var l :| AtLevel(cache[k], v, l);
      assert AtLevel(cache[k], Popped(v), l);
    }
  }

  // ---- Termination: the stack and the cursor grow lexicographically -----------------------------

  ghost function Times(a: nat, b: nat): nat {
    if b == 0 then 0 else a + Times(a, b - 1)
  }

  lemma {:induction false} TimesGap(a: nat, a': nat, b: nat)
    requires a < a'
    ensures Times(a, b) + b <= Times(a', b)
  {
    if b > 0 { TimesGap(a, a', b - 1); }
  }

  ghost function Number(base: nat, digits: seq<nat>): nat {
    if digits == [] then 0 else Times(Number(base, digits[..|digits| - 1]), base) + digits[|digits| - 1]
  }

  /** Numbers compare like their digits, the first difference deciding. */
  lemma {:induction false} NumberLess(base: nat, a: seq<nat>, b: seq<nat>, k: nat)
    requires |a| == |b| && k < |a| && a[k] < b[k]
    requires forall i :: 0 <= i < k ==> a[i] == b[i]
    requires forall i :: 0 <= i < |a| ==> a[i] < base
    ensures Number(base, a) < Number(base, b)
  {
    var a', b' := a[..|a| - 1], b[..|b| - 1];
    if k == |a| - 1 {
      assert a' == b';
    } else {
      NumberLess(base, a', b', k);
      TimesGap(Number(base, a'), Number(base, b'), base);
    }
  }

  /** The stack and then the cursor, as `n + 1` digits. */
  ghost function Digits(n: nat, stack: seq<nat>, cursor: nat): seq<nat> {
    seq(n + 1, i requires 0 <= i => if i < |stack| then stack[i] + 1 else if i == |stack| then cursor + 1 else 0)
  }

  ghost function Remaining(n: nat, stack: seq<nat>, cursor: nat): int {
    Number(n + 2, seq(n + 1, _ => n + 2)) - Number(n + 2, Digits(n, stack, cursor))
  }

  ghost predicate Within(n: nat, stack: seq<nat>, cursor: nat) {
    |stack| <= n && cursor <= n && forall i :: 0 <= i < |stack| ==> stack[i] < n
  }

  lemma RemainingDrops(n: nat, stack: seq<nat>, cursor: nat, stack': seq<nat>, cursor': nat)
    requires Within(n, stack, cursor) && Within(n, stack', cursor')
    requires || (stack' == stack && cursor < cursor')
             || (stack' == stack + [cursor])
             || (stack != [] && stack' == stack[..|stack| - 1] && cursor' == stack[|stack| - 1] + 1)
    ensures 0 < Remaining(n, stack', cursor') < Remaining(n, stack, cursor)
  {
    var a, b := Digits(n, stack, cursor), Digits(n, stack', cursor');
    NumberLess(n + 2, b, seq(n + 1, _ => n + 2), 0);
    NumberLess(n + 2, a, b, if stack' == stack then |stack| else if |stack'| < |stack| then |stack'| else |stack| + 1);
  }

  // ---- The checker --------------------------------------------------------------------------------

  /** The variables of the checker's loop. */
  datatype Config<S> = Config(stack: seq<nat>, states: seq<S>, state: S, linearized: seq<bool>, count: nat,
                              cursor: nat, cache: seq<CacheKey<S>>)

  ghost predicate Running<S>(p: Problem<S>, first: S, c: Config<S>, v: Levels<S>) {
    && Sections(p, first, v)
    && v.stack == c.stack && v.states == c.states + [c.state]
    && |c.linearized| == |p.events| && Done(c.linearized) == Top(v.dones) && c.count == |Top(v.dones)|
    && c.cursor <= |p.events| && NoneViable(p, Top(v.dones), c.state, c.cursor)
    && Visited(p, c.cache, v)
  }

  lemma {:induction false} RunningWithin<S>(p: Problem<S>, first: S, c: Config<S>, v: Levels<S>)
    requires Running(p, first, c, v)
    ensures Within(|p.events|, c.stack, c.cursor) && Closed(p.events, Top(v.dones))
  {
    assert Sized(p.events, v, v.Depth());
    SubsetSize(Top(v.dones), Indices(|p.events|));
    forall l | 0 <= l < |c.stack| ensures c.stack[l] < |p.events| {
      assert Section(p, v, l);
    }
  }

  /** The cursor is inside: at the end only pending operations would be left, and applying those
      completes the run. */
  lemma CursorInside<S(!new)>(p: Problem<S>, done: set<nat>, s: S, cursor: nat)
    requires ValidPairing(p.events) && Ordinary(p) && Closed(p.events, done)
    requires cursor <= |p.events| && NoneViable(p, done, s, cursor)
    requires exists e: nat :: e < |p.events| && e !in done
    ensures cursor < |p.events|
  {
    if cursor == |p.events| {
      Exhausted(p, done, s, cursor);
      forall e: nat | e < |p.events| && e !in done ensures Pending(p.events, e) {
        assert p.events[e].response.Some? ==> Closes(p.events, p.events[e].response.value, e);
      }
      OnlyPendingLeft(p, done, s);
    }
  }

  predicate Seen<S>(equal: (S, S) -> bool, cache: seq<CacheKey<S>>, marked: seq<bool>, next: S) {
    exists k :: 0 <= k < |cache| && cache[k].linearized == marked && equal(next, cache[k].state)
  }

  /** An invoke that leads to a key seen before is no choice. */
  lemma SeenNotViable<S(!new)>(p: Problem<S>, first: S, equal: (S, S) -> bool, cache: seq<CacheKey<S>>, v: Levels<S>,
                               i: nat, next: S, marked: seq<bool>)
    requires Ordinary(p) && Congruence(p, equal) && Sections(p, first, v) && Visited(p, cache, v)
    requires IsInvoke(p.events, i) && i !in Top(v.dones) && p.apply(i, Top(v.states)) == Some(next)
    requires Seen(equal, cache, marked, next) && Done(marked) == Mark(p.events, Top(v.dones), i)
    ensures !Viable(p, Top(v.dones), Top(v.states), i)
  {
    var k :| 0 <= k < |cache| && cache[k].linearized == marked && equal(next, cache[k].state);
    HitFails(p, first, equal, cache, v, k, i, next);
  }

  method MarkPair<S>(p: Problem<S>, linearized: seq<bool>, count: nat, i: nat)
    returns (marked: seq<bool>, markedCount: nat)
    requires ValidPairing(p.events) && |linearized| == |p.events| && count == |Done(linearized)|
    requires Closed(p.events, Done(linearized)) && IsInvoke(p.events, i) && i !in Done(linearized)
    ensures |marked| == |p.events| && Done(marked) == Mark(p.events, Done(linearized), i)
      && markedCount == |Done(marked)|
  {
    var response := p.events[i].response;
    assert response.Some? ==> Closes(p.events, response.value, i);
    DoneUpdate(linearized, i);
    marked, markedCount := linearized[i := true], count + 1;
    if response.Some? {
      DoneUpdate(marked, response.value);
      marked, markedCount := marked[response.value := true], markedCount + 1;
    }
  }

  /** At an open invoke: opens a section if it applies and leads somewhere new, else moves past it. */
  method TryInvoke<S(!new)>(p: Problem<S>, first: S, equal: (S, S) -> bool, c: Config<S>, ghost v: Levels<S>)
    returns (c': Config<S>, ghost v': Levels<S>)
    requires ValidPairing(p.events) && Ordinary(p) && Congruence(p, equal) && Running(p, first, c, v)
    requires Closed(p.events, Top(v.dones)) && IsInvoke(p.events, c.cursor) && !c.linearized[c.cursor]
    ensures Running(p, first, c', v')
    ensures (c'.stack == c.stack && c'.cursor == c.cursor + 1) || c'.stack == c.stack + [c.cursor]
  {
    var next := p.apply(c.cursor, c.state);
    if next.None? {
      MovePast(p, first, c, v);
      return c.(cursor := c.cursor + 1), v;
    }
    var marked, markedCount := MarkPair(p, c.linearized, c.count, c.cursor);
    if Seen(equal, c.cache, marked, next.value) {
      SeenNotViable(p, first, equal, c.cache, v, c.cursor, next.value, marked);
      MovePast(p, first, c, v);
      return c.(cursor := c.cursor + 1), v;
    }
    c' := Config(c.stack + [c.cursor], c.states + [c.state], next.value, marked, markedCount, 0,
                 c.cache + [CacheKey(marked, next.value)]);
    v' := Pushed(p, v, c.cursor, next.value);
    Opened(p, first, c, v, c', v');
  }

  lemma MovePast<S(!new)>(p: Problem<S>, first: S, c: Config<S>, v: Levels<S>)
    requires Running(p, first, c, v) && c.cursor < |p.events|
    requires !Viable(p, Top(v.dones), c.state, c.cursor)
    requires p.events[c.cursor].Response? ==> c.cursor in Top(v.dones)
    ensures Running(p, first, c.(cursor := c.cursor + 1), v)
  {
    assert NoneViable(p, Top(v.dones), c.state, c.cursor + 1) by { OneMore(p, Top(v.dones), c.state, c.cursor); }
  }

  lemma Opened<S(!new)>(p: Problem<S>, first: S, c: Config<S>, v: Levels<S>, c': Config<S>, v': Levels<S>)
    requires ValidPairing(p.events) && Running(p, first, c, v)
    requires IsInvoke(p.events, c.cursor) && c.cursor !in Top(v.dones) && p.apply(c.cursor, c.state) == Some(c'.state)
    requires |c'.linearized| == |p.events| && Done(c'.linearized) == Mark(p.events, Top(v.dones), c.cursor)
    requires c' == Config(c.stack + [c.cursor], c.states + [c.state], c'.state, c'.linearized, |Done(c'.linearized)|, 0,
                          c.cache + [CacheKey(c'.linearized, c'.state)])
    requires v' == Pushed(p, v, c.cursor, c'.state)
    ensures Running(p, first, c', v')
  {
    assert Available(p.events, Top(v.dones), c.cursor);
    assert Sections(p, first, v') by { OpenSection(p, first, v, c.cursor, c'.state); }
    assert Visited(p, c'.cache, v') by { VisitedOpen(p, c.cache, v, c.cursor, CacheKey(c'.linearized, c'.state)); }
  }

  /** Closing the innermost section: its choice is ruled out, and the scan goes on behind it. */
  method CloseLast<S(!new)>(p: Problem<S>, first: S, c: Config<S>, ghost v: Levels<S>)
    returns (c': Config<S>, ghost v': Levels<S>)
    requires ValidPairing(p.events) && Ordinary(p) && Running(p, first, c, v) && c.stack != []
    requires !Completable(p, Top(v.dones), c.state)
    ensures Running(p, first, c', v')
    ensures c'.stack == c.stack[..|c.stack| - 1] && c'.cursor == c.stack[|c.stack| - 1] + 1
  {
    var last := c.stack[|c.stack| - 1];
    LastSection(p, first, c, v, last);
    v' := Popped(v);
    c' := Config(c.stack[..|c.stack| - 1], c.states[..|c.states| - 1], c.states[|c.states| - 1],
                 Cleared(p.events, c.linearized, last), c.count - (if p.events[last].response.Some? then 2 else 1),
                 last + 1, c.cache);
    Closing(p, first, c, v, c', v');
  }

  /** The innermost section, and what closing it leaves. */
  lemma LastSection<S(!new)>(p: Problem<S>, first: S, c: Config<S>, v: Levels<S>, last: nat)
    requires ValidPairing(p.events) && Ordinary(p) && Running(p, first, c, v) && c.stack != []
      && last == c.stack[|c.stack| - 1]
    requires !Completable(p, Top(v.dones), c.state)
    ensures Sections(p, first, Popped(v)) && Visited(p, c.cache, Popped(v)) && IsInvoke(p.events, last)
    ensures NoneViable(p, Top(Popped(v).dones), c.states[|c.states| - 1], last + 1)
    ensures Done(Cleared(p.events, c.linearized, last)) == Top(Popped(v).dones)
    ensures c.count == |Top(Popped(v).dones)| + if p.events[last].response.Some? then 2 else 1
  {
    var l := v.Depth() - 1;
    assert Section(p, v, l) && Sized(p.events, v, l);
    CloseSection(p, first, v);
    VisitedClose(p, first, c.cache, v);
    NotViable(p, v.dones[l], v.states[l], last);
    Unmark(p.events, c.linearized, v.dones[l], last);
  }

  /** What is left of the running configuration once the innermost section is closed. */
  lemma Closing<S>(p: Problem<S>, first: S, c: Config<S>, v: Levels<S>, c': Config<S>, v': Levels<S>)
    requires Running(p, first, c, v) && c.stack != [] && v' == Popped(v)
    requires Sections(p, first, v') && Visited(p, c.cache, v') && c'.cache == c.cache
    requires c'.stack == c.stack[..|c.stack| - 1] && c'.states == c.states[..|c.states| - 1]
      && c'.state == c.states[|c.states| - 1]
    requires |c'.linearized| == |p.events| && Done(c'.linearized) == Top(v'.dones) && c'.count == |Top(v'.dones)|
    requires c'.cursor <= |p.events| && NoneViable(p, Top(v'.dones), c'.state, c'.cursor)
    ensures Running(p, first, c', v')
  {
    assert v'.states == c'.states + [c'.state];
  }

  lemma NotViable<S(!new)>(p: Problem<S>, done: set<nat>, s: S, last: nat)
    requires Ordinary(p) && IsInvoke(p.events, last) && NoneViable(p, done, s, last)
    requires !AppliesTo(p, done, s, last)
    ensures NoneViable(p, done, s, last + 1)
  {
  }

  function Cleared(events: seq<Event>, linearized: seq<bool>, last: nat): seq<bool>
    requires IsInvoke(events, last) && |linearized| == |events|
  {
    match events[last].response
    case None => linearized[last := false]
    case Some(r) => if r < |events| then linearized[last := false][r := false] else linearized
  }

  /** Taking back an operation and its response undoes marking them. */
  lemma Unmark(events: seq<Event>, before: seq<bool>, done: set<nat>, last: nat)
    requires ValidPairing(events) && Closed(events, done) && IsInvoke(events, last) && last !in done
    requires |before| == |events| && Done(before) == Mark(events, done, last)
    ensures Done(Cleared(events, before, last)) == done
    ensures |Done(before)| == |done| + if events[last].response.Some? then 2 else 1
  {
    var response := events[last].response;
    assert response.Some? ==> Closes(events, response.value, last);
  }

  lemma Found<S(!new)>(p: Problem<S>, first: S, c: Config<S>, v: Levels<S>)
    requires ValidPairing(p.events) && Ordinary(p) && Running(p, first, c, v) && c.count == |p.events|
    ensures Linearizable(p, first)
  {
    DoneAtMost(c.linearized);
    AllDone(p, Done(c.linearized), c.state);
    Unwind(p, first, v, v.Depth());
  }

  lemma NotFound<S(!new)>(p: Problem<S>, first: S, c: Config<S>, v: Levels<S>)
    requires Running(p, first, c, v) && c.stack == [] && !Completable(p, Top(v.dones), c.state)
    ensures !Linearizable(p, first)
  {
  }

  /** One turn of the loop; stuck when nothing is left to undo. */
  method Move<S(!new)>(p: Problem<S>, first: S, equal: (S, S) -> bool, c: Config<S>, ghost v: Levels<S>)
    returns (stuck: bool, c': Config<S>, ghost v': Levels<S>)
    requires ValidPairing(p.events) && Ordinary(p) && Congruence(p, equal)
    requires Running(p, first, c, v) && c.count != |p.events|
    ensures stuck ==> !Linearizable(p, first)
    ensures !stuck ==> Running(p, first, c', v')
    ensures !stuck ==> 0 < Remaining(|p.events|, c'.stack, c'.cursor) < Remaining(|p.events|, c.stack, c.cursor)
  {
    DoneAtMost(c.linearized);
    RunningWithin(p, first, c, v);
    CursorInside(p, Top(v.dones), c.state, c.cursor);
    if c.linearized[c.cursor] {
      MovePast(p, first, c, v);
      c', v' := c.(cursor := c.cursor + 1), v;
    } else if p.events[c.cursor].Invoke? {
      c', v' := TryInvoke(p, first, equal, c, v);
    } else {
      Exhausted(p, Top(v.dones), c.state, c.cursor);
      if c.stack == [] {
        NotFound(p, first, c, v);
        return true, c, v;
      }
      c', v' := CloseLast(p, first, c, v);
    }
    RunningWithin(p, first, c', v');
    RemainingDrops(|p.events|, c.stack, c.cursor, c'.stack, c'.cursor);
    stuck := false;
  }

  /** Accepts exactly the linearizable histories. The cursor stays inside the history: every access
      below is in bounds, also when cache hits skip every pending invoke that is left. */
  method Check<S(!new)>(p: Problem<S>, first: S, equal: (S, S) -> bool) returns (ok: bool)
    requires ValidPairing(p.events) && Ordinary(p) && Congruence(p, equal)
    ensures ok <==> Linearizable(p, first)
  {
    var n := |p.events|;
    var c := Config([], [], first, seq(n, _ => false), 0, 0, []);
    ghost var v := Levels([], [first], [{}]);
    assert Done(c.linearized) == {};
    while c.count != n
      invariant Running(p, first, c, v)
      decreases Remaining(n, c.stack, c.cursor)
    {
      var stuck;
      stuck, c, v := Move(p, first, equal, c, v);
      if stuck {
        return false;
      }
    }
    Found(p, first, c, v);
    return true;
  }
}

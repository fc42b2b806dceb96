/** The shared recursive backtracking search with its failure cache. */
module RecursiveSearch {
  import opened Options
  import opened Linearization

  ghost function Done(linearized: seq<bool>): set<nat> {
    set i: nat | i < |linearized| && linearized[i]
  }

  lemma DoneUpdate(linearized: seq<bool>, i: nat)
    requires i < |linearized|
    ensures Done(linearized[i := true]) == Done(linearized) + {i}
    ensures i !in Done(linearized) ==> |Done(linearized[i := true])| == |Done(linearized)| + 1
  {
    assert Done(linearized[i := true]) == Done(linearized) + {i};
  }

  lemma DoneAtMost(linearized: seq<bool>)
    ensures |Done(linearized)| <= |linearized|
    ensures |Done(linearized)| == |linearized| <==> forall i: nat :: i < |linearized| ==> i in Done(linearized)
  {
    SubsetSize(Done(linearized), Indices(|linearized|));
  }

  ghost function Indices(n: nat): (all: set<nat>)
    ensures |all| == n && forall i: nat :: i in all <==> i < n
  {
    if n == 0 then {} else Indices(n - 1) + {n - 1}
  }

  lemma SubsetSize(a: set<nat>, b: set<nat>)
    requires a <= b
    ensures |a| <= |b| && (|a| == |b| <==> a == b)
  {
    assert b == a + (b - a);
    assert |b| == |a| + |b - a|;
  }

  /** The first `i` events offer no viable choice, and none of them is an open response. */
  ghost predicate NoneViable<S>(p: Problem<S>, done: set<nat>, s: S, i: nat) {
    && (forall k: nat :: k < i ==> !Viable(p, done, s, k))
    && (forall r: nat :: r < i && r < |p.events| && p.events[r].Response? ==> r in done)
  }

  lemma OneMore<S>(p: Problem<S>, done: set<nat>, s: S, i: nat)
    requires NoneViable(p, done, s, i) && !Viable(p, done, s, i)
    requires i < |p.events| && p.events[i].Response? ==> i in done
    ensures NoneViable(p, done, s, i + 1)
  {
  }

  lemma ViableCompletes<S>(p: Problem<S>, done: set<nat>, s: S, i: nat)
    requires ValidPairing(p.events) && Closed(p.events, done) && Viable(p, done, s, i)
    ensures Completable(p, done, s)
  {
    StepExact(p, done, s, i);
  }

  /** A scan that reached the end or an open response has seen every candidate. */
  lemma Exhausted<S>(p: Problem<S>, done: set<nat>, s: S, i: nat)
    requires ValidPairing(p.events) && Closed(p.events, done)
    requires i <= |p.events| && NoneViable(p, done, s, i)
    requires i == |p.events| ==> exists e: nat :: e < |p.events| && e !in done
    requires i < |p.events| ==> p.events[i].Response? && i !in done
    ensures !Completable(p, done, s)
  {
    var e: nat :| e < |p.events| && e !in done;
    StepExact(p, done, s, e);
    forall k: nat ensures !Viable(p, done, s, k) {
      assert k >= i ==> !Available(p.events, done, k);
    }
  }

  datatype CacheKey<S> = CacheKey(linearized: seq<bool>, state: S)

  /** Cached states that no order of the remaining events completes. */
  class FailureCache<S(!new)> {
    const enabled: bool
    const equal: (S, S) -> bool
    var failed: seq<CacheKey<S>>

    constructor (enabled: bool, equal: (S, S) -> bool)
      ensures this.enabled == enabled && this.equal == equal && failed == []
    {
      this.enabled, this.equal, failed := enabled, equal, [];
    }

    predicate Hit(linearized: seq<bool>, state: S)
      reads this
    {
      enabled && exists k :: 0 <= k < |failed| && failed[k].linearized == linearized && equal(state, failed[k].state)
    }

    /** Like a hash set, keeps the stored key when an equal one is present already. */
    method Insert(linearized: seq<bool>, state: S)
      modifies this
      ensures failed == old(failed) || failed == old(failed) + [CacheKey(linearized, state)]
      ensures enabled ==> exists k :: 0 <= k < |failed| && failed[k].linearized == linearized
                           && (failed[k].state == state || equal(state, failed[k].state))
      ensures !enabled ==> failed == old(failed)
    {
      if enabled && !Hit(linearized, state) {
        failed := failed + [CacheKey(linearized, state)];
        assert failed[|failed| - 1] == CacheKey(linearized, state);
      }
    }

    /** No cached key has a completing extension. */
    ghost predicate Sound(p: Problem<S>)
      reads this
    {
      forall k :: 0 <= k < |failed| ==> !Completable(p, Done(failed[k].linearized), failed[k].state)
    }

    /** Nor does a state equal to a cached one. */
    lemma HitFails(p: Problem<S>, linearized: seq<bool>, state: S)
      requires ValidPairing(p.events) && Congruence(p, equal) && Sound(p) && Hit(linearized, state)
      ensures !Completable(p, Done(linearized), state)
    {
      var k :| 0 <= k < |failed| && failed[k].linearized == linearized && equal(state, failed[k].state);
      EqualCompletable(p, equal, Done(linearized), state, failed[k].state);
    }
  }

  class Search<S(!new)> {
    const problem: Problem<S>
    const cache: FailureCache<S>
    var linearized: seq<bool>

    constructor (problem: Problem<S>, enabled: bool, equal: (S, S) -> bool)
      requires ValidPairing(problem.events) && Congruence(problem, equal)
      ensures this.problem == problem && cache.equal == equal && Valid() && fresh(cache)
      ensures linearized == seq(|problem.events|, _ => false)
    {
      this.problem := problem;
      cache := new FailureCache(enabled, equal);
      linearized := seq(|problem.events|, _ => false);
    }

    ghost predicate Valid()
      reads this, cache
    {
      && ValidPairing(problem.events)
      && Congruence(problem, cache.equal)
      && |linearized| == |problem.events|
      && Closed(problem.events, Done(linearized))
      && cache.Sound(problem)
    }

    /** Searches for a completion of the events linearized so far. The verdict does not depend on
        the cache, and a failed search leaves the shared vector as it found it. */
    method Step(state: S, linearizedCount: nat) returns (found: bool)
      requires Valid() && linearizedCount == |Done(linearized)|
      modifies this`linearized, cache
      ensures found <==> Completable(problem, old(Done(linearized)), state)
      ensures cache.Sound(problem)
      ensures !found ==> linearized == old(linearized)
      decreases |problem.events| - linearizedCount
    {
      ghost var done := Done(linearized);
      DoneAtMost(linearized);
      if linearizedCount == |problem.events| {
        AllDone(problem, done, state);
        return problem.complete(state);
      }
      if cache.Hit(linearized, state) {
        cache.HitFails(problem, linearized, state);
        return false;
      }
      var i := 0;
      while i < |problem.events|
        invariant 0 <= i <= |problem.events|
        invariant Valid() && linearized == old(linearized)
        invariant NoneViable(problem, done, state, i)
      {
        if linearized[i] {
          OneMore(problem, done, state, i);
          i := i + 1;
          continue;
        }
        // A not-yet-linearized response closes the minimal concurrent section.
        if problem.events[i].Response? {
          break;
        }
        found := Try(i, state, linearizedCount);
        if found {
          ViableCompletes(problem, done, state, i);
          return true;
        }
        OneMore(problem, done, state, i);
        i := i + 1;
      }
      Exhausted(problem, done, state, i);
      cache.Insert(linearized, state);
      return false;
    }

    /** One candidate of the loop: drops a pending invoke if the adapter allows it, then applies it. */
    method Try(i: nat, state: S, linearizedCount: nat) returns (found: bool)
      requires Valid() && linearizedCount == |Done(linearized)|
      requires Available(problem.events, Done(linearized), i)
      modifies this`linearized, cache
      ensures found <==> Viable(problem, old(Done(linearized)), state, i)
      ensures cache.Sound(problem)
      ensures !found ==> linearized == old(linearized)
      decreases |problem.events| - linearizedCount, 1
    {
      var response := problem.events[i].response;
      assert response.Some? ==> Closes(problem.events, response.value, i);
      if response.Some? && linearized[response.value] {
        return false;
      }
      if response.None? && problem.events[i].droppable {
        found := Drop(i, state, linearizedCount);
        if found {
          return true;
        }
      }
      var next := problem.apply(i, state);
      if next.None? {
        return false;
      }
      found := Apply(i, next.value, linearizedCount);
    }

    /** Leaves the pending invoke `i` out, searches on, and takes it back on failure. */
    method Drop(i: nat, state: S, linearizedCount: nat) returns (found: bool)
      requires Valid() && linearizedCount == |Done(linearized)|
      requires Pending(problem.events, i) && i !in Done(linearized)
      modifies this`linearized, cache
      ensures found <==> Completable(problem, old(Done(linearized)) + {i}, state)
      ensures cache.Sound(problem)
      ensures !found ==> linearized == old(linearized)
      decreases |problem.events| - linearizedCount, 0
    {
      DoneAtMost(linearized);
      DoneUpdate(linearized, i);
      MarkClosed(problem.events, Done(linearized), i);
      linearized := linearized[i := true];
      found := Step(state, linearizedCount + 1);
      if !found {
        linearized := linearized[i := false];
        assert linearized == old(linearized);
      }
    }

    /** Linearizes invoke `i` with its response, searches on, and undoes both on failure. */
    method Apply(i: nat, next: S, linearizedCount: nat) returns (found: bool)
      requires Valid() && linearizedCount == |Done(linearized)|
      requires IsInvoke(problem.events, i) && i !in Done(linearized)
      modifies this`linearized, cache
      ensures found <==> Completable(problem, Mark(problem.events, old(Done(linearized)), i), next)
      ensures cache.Sound(problem)
      ensures !found ==> linearized == old(linearized)
      decreases |problem.events| - linearizedCount, 0
    {
      DoneAtMost(linearized);
      MarkClosed(problem.events, Done(linearized), i);
      var nextCount := SetDone(i, linearizedCount);
      found := Step(next, nextCount);
      if !found {
        var response := problem.events[i].response;
        linearized := linearized[i := false];
        if response.Some? {
          linearized := linearized[response.value := false];
        }
        assert linearized == old(linearized);
      }
    }

    /** Marks invoke `i` and its response. */
    method SetDone(i: nat, linearizedCount: nat) returns (nextCount: nat)
      requires ValidPairing(problem.events) && |linearized| == |problem.events| && linearizedCount == |Done(linearized)|
      requires IsInvoke(problem.events, i) && i !in Done(linearized) && Closed(problem.events, Done(linearized))
      modifies this`linearized
      ensures Done(linearized) == Mark(problem.events, old(Done(linearized)), i) && nextCount == |Done(linearized)|
      ensures |linearized| == |problem.events| && linearizedCount < nextCount
      ensures var response := problem.events[i].response;
        if response.Some? then
          && response.value < |linearized| && response.value != i && !old(linearized)[response.value]
          && linearized == old(linearized)[i := true][response.value := true]
        else linearized == old(linearized)[i := true]
    {
      var response := problem.events[i].response;
      assert response.Some? ==> Closes(problem.events, response.value, i);
      DoneUpdate(linearized, i);
      linearized := linearized[i := true];
      nextCount := linearizedCount + 1;
      if response.Some? {
        DoneUpdate(linearized, response.value);
        linearized := linearized[response.value := true];
        nextCount := nextCount + 1;
      }
    }
  }

  /** The search accepts exactly the linearizable histories, with or without its cache, for every
      equality that is a congruence. An empty history is accepted without the final test. */
  method RunSearch<S(!new)>(problem: Problem<S>, initial: S, enabled: bool, equal: (S, S) -> bool) returns (found: bool)
    requires ValidPairing(problem.events) && Congruence(problem, equal)
    ensures found <==> |problem.events| == 0 || Linearizable(problem, initial)
  {
    if |problem.events| == 0 {
      return true;
    }
    var search := new Search(problem, enabled, equal);
    assert Done(search.linearized) == {};
    found := search.Step(initial, 0);
  }
}

/** Acyclic graphs that the depth-first check rejects. It follows the edges of an event in the order in which they
    were added, and marks all the targets before it enters any: when the target entered first leads to one that is
    only marked, the check takes the bypassed edge for a cycle. */
module CycleBypass {
  import opened Options
  import opened Relations
  import opened MemoryGraph
  import opened CycleCheck

  // ---- A marked target under an entry that leads to it -----------------------------------------------------

  /** While `b` is in the stack, following edges pushes no second entry for it, and fails on an edge to it. */
  lemma {:induction false} FollowAvoids(edges: seq<Edge>, ids: seq<nat>, i: nat, colors: seq<Color>,
                                        stack: seq<Entry>, b: nat)
    requires InRange(|colors|, edges) && IdsInRange(|edges|, ids) && i <= |ids|
    requires b < |colors| && colors[b] == InStack && Follow(edges, ids, i, colors, stack).Some?
    ensures var r := Follow(edges, ids, i, colors, stack).value;
            && |r.0| == |colors| && r.0[b] == InStack && stack <= r.1
            && (forall k :: |stack| <= k < |r.1| ==> r.1[k].event != b)
            && (forall k :: i <= k < |ids| && edges[ids[k]].kind.Mo? ==> edges[ids[k]].to != b)
    decreases |ids| - i
  {
    if i < |ids| {
      var edge := edges[ids[i]];
      assert edge in edges;
      if !edge.kind.Mo? || colors[edge.to] == Visited {
        FollowAvoids(edges, ids, i + 1, colors, stack, b);
      } else {
        FollowAvoids(edges, ids, i + 1, colors[edge.to := InStack], stack + [Entry(edge.to, false)], b);
      }
    }
  }

  /** Entry `q` is for an event with an edge to `b`, which is marked and not entered before it. */
  ghost predicate Trapped(edges: seq<Edge>, colors: seq<Color>, stack: seq<Entry>, b: nat, q: nat) {
    && b < |colors| && colors[b] == InStack && q < |stack| && !stack[q].considered
       && Successor(edges, stack[q].event, b)
    && forall k :: q < k < |stack| ==> stack[k].event != b
  }

  /** The search from a trapped stack fails. */
  lemma {:induction false} TrappedRejects(edges: seq<Edge>, outs: seq<seq<nat>>, colors: seq<Color>,
                                          stack: seq<Entry>, b: nat, q: nat)
    requires Linked(edges, outs) && |colors| == |outs| && StackInRange(|outs|, stack)
      && Trapped(edges, colors, stack, b, q)
    ensures Explore(edges, outs, colors, stack).None?
    decreases White(colors), Unconsidered(stack), |stack|
  {
    var last := |stack| - 1;
    var u := stack[last].event;
    if stack[last].considered {
      LessWhite(colors, u, Visited);
      Fewer(stack, stack[..last]);
      TrappedRejects(edges, outs, colors[u := Visited], stack[..last], b, q);
    } else {
      OutgoingInRange(edges, u);
      var entered := stack[last := Entry(u, true)];
      var after := Follow(edges, outs[u], 0, colors, entered);
      if after.Some? {
        FollowAvoids(edges, outs[u], 0, colors, entered, b);
        FollowShrinks(edges, outs[u], 0, colors, entered);
        Fewer(stack, entered);
        if q == last { SuccessorListed(edges, u, b); }
        assert after.value.1[q] == entered[q];
        TrappedRejects(edges, outs, after.value.0, after.value.1, b, q);
      }
    }
  }

  lemma SuccessorListed(edges: seq<Edge>, a: nat, b: nat)
    requires Successor(edges, a, b)
    ensures IdsInRange(|edges|, Outgoing(edges, a))
    ensures exists k :: 0 <= k < |Outgoing(edges, a)| && edges[Outgoing(edges, a)[k]] == Edge(Mo, a, b)
  {
    OutgoingInRange(edges, a);
    var id :| 0 <= id < |edges| && edges[id] == Edge(Mo, a, b);
    OutgoingExact(edges, a, id);
  }

  // ---- Entering the source of a bypassed edge -----------------------------------------------------------------

  /** Once `b` is marked, the entry for `r` is pushed above everything of `b`. */
  lemma {:induction false} FollowTraps(edges: seq<Edge>, ids: seq<nat>, i: nat, n: nat, colors: seq<Color>,
                                       stack: seq<Entry>, b: nat)
    returns (q: nat)
    requires InRange(|colors|, edges) && IdsInRange(|edges|, ids) && i <= n < |ids| && edges[ids[n]].kind.Mo?
    requires var r := edges[ids[n]].to; r < |colors| && colors[r] != Visited && Successor(edges, r, b) && r != b
    requires b < |colors| && colors[b] == InStack && Follow(edges, ids, i, colors, stack).Some?
    ensures var after := Follow(edges, ids, i, colors, stack).value; Trapped(edges, after.0, after.1, b, q)
    decreases |ids| - i
  {
    var edge := edges[ids[i]];
    assert edge in edges;
    if i == n {
      q := |stack|;
      FollowAvoids(edges, ids, i + 1, colors[edge.to := InStack], stack + [Entry(edge.to, false)], b);
    } else if !edge.kind.Mo? || colors[edge.to] == Visited {
      q := FollowTraps(edges, ids, i + 1, n, colors, stack, b);
    } else {
      q := FollowTraps(edges, ids, i + 1, n, colors[edge.to := InStack], stack + [Entry(edge.to, false)], b);
    }
  }

  lemma {:induction false} FollowMarks(edges: seq<Edge>, ids: seq<nat>, i: nat, m: nat, n: nat, colors: seq<Color>,
                                       stack: seq<Entry>)
    returns (q: nat)
    requires InRange(|colors|, edges) && IdsInRange(|edges|, ids) && i <= m < n < |ids|
    requires edges[ids[m]].kind.Mo? && edges[ids[n]].kind.Mo?
    requires var b, r := edges[ids[m]].to, edges[ids[n]].to;
      b < |colors| && r < |colors| && colors[b] != Visited && colors[r] != Visited && Successor(edges, r, b) && r != b
    requires Follow(edges, ids, i, colors, stack).Some?
    ensures var after := Follow(edges, ids, i, colors, stack).value;
      Trapped(edges, after.0, after.1, edges[ids[m]].to, q)
    decreases |ids| - i
  {
    var edge := edges[ids[i]];
    assert edge in edges;
    if i == m {
      q := FollowTraps(edges, ids, i + 1, n, colors[edge.to := InStack], stack + [Entry(edge.to, false)], edge.to);
    } else if !edge.kind.Mo? || colors[edge.to] == Visited {
      q := FollowMarks(edges, ids, i + 1, m, n, colors, stack);
    } else {
      q := FollowMarks(edges, ids, i + 1, m, n, colors[edge.to := InStack], stack + [Entry(edge.to, false)]);
    }
  }

  /** Edge `i` goes from one event to `b`, the later edge `j` to `r`, and `r` has an edge to `b`. */
  ghost predicate Detour(edges: seq<Edge>, i: nat, j: nat) {
    && i < j < |edges| && edges[i].kind.Mo? && edges[j].kind.Mo? && edges[i].from == edges[j].from
    && edges[i].to != edges[j].to && Successor(edges, edges[j].to, edges[i].to)
  }

  /** Entering the source of a detour while neither target is finished ends the search in a rejection. */
  lemma {:induction false} DetourRejects(edges: seq<Edge>, outs: seq<seq<nat>>, colors: seq<Color>,
                                         stack: seq<Entry>, i: nat, j: nat)
    requires Linked(edges, outs) && |colors| == |outs| && StackInRange(|outs|, stack) && Detour(edges, i, j)
    requires stack != [] && stack[|stack| - 1] == Entry(edges[i].from, false)
    requires edges[i].to < |colors| && edges[j].to < |colors| && colors[edges[i].to] != Visited
      && colors[edges[j].to] != Visited
    ensures Explore(edges, outs, colors, stack).None?
  {
    var last := |stack| - 1;
    var w := edges[i].from;
    var entered := stack[last := Entry(w, true)];
    OutgoingInRange(edges, w);
    if Follow(edges, outs[w], 0, colors, entered).Some? {
      var m, n := ListedInOrder(edges, w, i, j);
      FollowShrinks(edges, outs[w], 0, colors, entered);
      var q := FollowMarks(edges, outs[w], 0, m, n, colors, entered);
      var after := Follow(edges, outs[w], 0, colors, entered).value;
      TrappedRejects(edges, outs, after.0, after.1, edges[i].to, q);
    }
  }

  lemma {:induction false} ListedInOrder(edges: seq<Edge>, a: nat, i: nat, j: nat) returns (m: nat, n: nat)
    requires i < j < |edges| && edges[i].from == a && edges[j].from == a
    ensures m < n < |Outgoing(edges, a)| && Outgoing(edges, a)[m] == i && Outgoing(edges, a)[n] == j
  {
    var ids := Outgoing(edges, a);
    OutgoingExact(edges, a, i);
    OutgoingExact(edges, a, j);
    m :| 0 <= m < |ids| && ids[m] == i;
    n :| 0 <= n < |ids| && ids[n] == j;
    if n < m { OutgoingSorted(edges, a, n, m); }
  }

  // ---- Whole graphs -----------------------------------------------------------------------------------------------

  ghost predicate Unreached(edges: seq<Edge>, colors: seq<Color>, stack: seq<Entry>, x: nat) {
    && x < |colors| && colors[x] == NotVisited
    && forall k :: 0 <= k < |stack| ==> stack[k].event != x && !Plus(MoPairs(edges), stack[k].event, x)
  }

  lemma {:induction false} FollowUnreached(edges: seq<Edge>, ids: seq<nat>, i: nat, colors: seq<Color>,
                                           stack: seq<Entry>, u: nat, x: nat)
    requires InRange(|colors|, edges) && IdsInRange(|edges|, ids) && i <= |ids| && Unreached(edges, colors, stack, x)
    requires forall k :: 0 <= k < |ids| ==> edges[ids[k]].from == u
    requires u != x && !Plus(MoPairs(edges), u, x) && Follow(edges, ids, i, colors, stack).Some?
    ensures var after := Follow(edges, ids, i, colors, stack).value; Unreached(edges, after.0, after.1, x)
    decreases |ids| - i
  {
    if i < |ids| {
      var edge := edges[ids[i]];
      assert edge in edges;
      if !edge.kind.Mo? || colors[edge.to] == Visited {
        FollowUnreached(edges, ids, i + 1, colors, stack, u, x);
      } else {
        assert (u, edge.to) in MoPairs(edges);
        PlusEdge(MoPairs(edges), u, edge.to);
        if Plus(MoPairs(edges), edge.to, x) { PlusTrans(MoPairs(edges), u, edge.to, x); }
        FollowUnreached(edges, ids, i + 1, colors[edge.to := InStack], stack + [Entry(edge.to, false)], u, x);
      }
    }
  }

  /** The search colors only what its stack leads to. */
  lemma {:induction false} ExploreUnreached(edges: seq<Edge>, outs: seq<seq<nat>>, colors: seq<Color>,
                                            stack: seq<Entry>, x: nat)
    requires Linked(edges, outs) && |colors| == |outs| && StackInRange(|outs|, stack)
      && Unreached(edges, colors, stack, x)
    requires Explore(edges, outs, colors, stack).Some?
    ensures Explore(edges, outs, colors, stack).value[x] == NotVisited
    decreases White(colors), Unconsidered(stack), |stack|
  {
    if stack != [] {
      var last := |stack| - 1;
      var u := stack[last].event;
      if stack[last].considered {
        LessWhite(colors, u, Visited);
        Fewer(stack, stack[..last]);
        ExploreUnreached(edges, outs, colors[u := Visited], stack[..last], x);
      } else {
        OutgoingInRange(edges, u);
        var entered := stack[last := Entry(u, true)];
        FollowShrinks(edges, outs[u], 0, colors, entered);
        Fewer(stack, entered);
        AllFrom(edges, u);
        FollowUnreached(edges, outs[u], 0, colors, entered, u, x);
        var after := Follow(edges, outs[u], 0, colors, entered).value;
        ExploreUnreached(edges, outs, after.0, after.1, x);
      }
    }
  }

  lemma AllFrom(edges: seq<Edge>, a: nat)
    ensures IdsInRange(|edges|, Outgoing(edges, a))
    ensures forall k :: 0 <= k < |Outgoing(edges, a)| ==> edges[Outgoing(edges, a)[k]].from == a
  {
    OutgoingInRange(edges, a);
    forall k | 0 <= k < |Outgoing(edges, a)| ensures edges[Outgoing(edges, a)[k]].from == a {
      OutgoingExact(edges, a, Outgoing(edges, a)[k]);
    }
  }

  /** No event below `w` is `x` or leads to it. */
  ghost predicate FirstAt(edges: seq<Edge>, w: nat, x: nat) {
    w <= x && forall e: nat :: e < w ==> !Plus(MoPairs(edges), e, x)
  }

  lemma {:induction false} DetourReached(edges: seq<Edge>, outs: seq<seq<nat>>, colors: seq<Color>, e: nat, i: nat,
                                         j: nat)
    requires Linked(edges, outs) && |colors| == |outs| && Detour(edges, i, j) && e <= edges[i].from < |outs|
    requires edges[i].to < |outs| && edges[j].to < |outs|
    requires var w := edges[i].from;
      FirstAt(edges, w, w) && FirstAt(edges, w, edges[i].to) && FirstAt(edges, w, edges[j].to)
    requires colors[edges[i].from] == NotVisited && colors[edges[i].to] == NotVisited
      && colors[edges[j].to] == NotVisited
    ensures !Accepts(edges, outs, colors, e)
    decreases edges[i].from - e
  {
    var stack := [Entry(e, false)];
    if e == edges[i].from {
      DetourRejects(edges, outs, colors, stack, i, j);
    } else if colors[e] == Visited {
      DetourReached(edges, outs, colors, e + 1, i, j);
    } else {
      var after := Explore(edges, outs, colors, stack);
      if after.Some? {
        ExploreUnreached(edges, outs, colors, stack, edges[i].from);
        ExploreUnreached(edges, outs, colors, stack, edges[i].to);
        ExploreUnreached(edges, outs, colors, stack, edges[j].to);
        DetourReached(edges, outs, after.value, e + 1, i, j);
      }
    }
  }

  /** A detour from an event that, like its targets, no earlier event leads to is rejected, acyclic or not. */
  lemma DetourInconsistent(edges: seq<Edge>, outs: seq<seq<nat>>, i: nat, j: nat)
    requires Linked(edges, outs) && Detour(edges, i, j)
    requires var w := edges[i].from;
      FirstAt(edges, w, w) && FirstAt(edges, w, edges[i].to) && FirstAt(edges, w, edges[j].to)
    ensures !Consistent(edges, outs)
  {
    assert edges[i] in edges && edges[j] in edges;
    DetourReached(edges, outs, Uncolored(|outs|), 0, i, j);
  }
}

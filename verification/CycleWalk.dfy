/** The depth-first check over lists of successors, and what it means for the check to add edges into an event without
    successors. */
module CycleWalk {
  import opened Options
  import opened MemoryGraph
  import opened CycleCheck

  // ---- The search over successor lists ---------------------------------------------------------------------------

  /** The targets of the modification-order edges among `ids`, in their order. */
  ghost function Targets(edges: seq<Edge>, ids: seq<nat>): seq<nat>
    requires IdsInRange(|edges|, ids)
  {
    if ids == [] then []
    else
      var last := edges[ids[|ids| - 1]];
      Targets(edges, ids[..|ids| - 1]) + if last.kind.Mo? then [last.to] else []
  }

  /** The successors of each event, in the order in which their edges were added. */
  ghost function Lists(edges: seq<Edge>, n: nat): seq<seq<nat>> {
    seq(n, a requires 0 <= a => OutgoingInRange(edges, a); Targets(edges, Outgoing(edges, a)))
  }

  ghost predicate ListsInRange(lists: seq<seq<nat>>) {
    forall a, k :: 0 <= a < |lists| && 0 <= k < |lists[a]| ==> lists[a][k] < |lists|
  }

  ghost predicate TargetsInRange(n: nat, targets: seq<nat>) {
    forall k :: 0 <= k < |targets| ==> targets[k] < n
  }

  ghost function PushAll(targets: seq<nat>, colors: seq<Color>, stack: seq<Entry>): Option<(seq<Color>, seq<Entry>)>
    requires TargetsInRange(|colors|, targets)
  {
    if targets == [] then Some((colors, stack))
    else
      var v := targets[0];
      if colors[v] == Visited then PushAll(targets[1..], colors, stack)
      else if colors[v] == InStack then None
      else PushAll(targets[1..], colors[v := InStack], stack + [Entry(v, false)])
  }

  lemma {:induction false} PushShrinks(targets: seq<nat>, colors: seq<Color>, stack: seq<Entry>)
    requires TargetsInRange(|colors|, targets) && StackInRange(|colors|, stack)
    requires PushAll(targets, colors, stack).Some?
    ensures var after := PushAll(targets, colors, stack).value;
            && |after.0| == |colors| && StackInRange(|colors|, after.1)
            && (White(after.0) < White(colors) || after == (colors, stack))
  {
    if targets != [] {
      var v := targets[0];
      if colors[v] == Visited {
        PushShrinks(targets[1..], colors, stack);
      } else {
        assert v in White(colors) && v !in White(colors[v := InStack]);
        PushShrinks(targets[1..], colors[v := InStack], stack + [Entry(v, false)]);
      }
    }
  }

  ghost function Walk(lists: seq<seq<nat>>, colors: seq<Color>, stack: seq<Entry>): (r: Option<seq<Color>>)
    requires ListsInRange(lists) && |colors| == |lists| && StackInRange(|lists|, stack)
    ensures r.Some? ==> |r.value| == |colors|
    decreases White(colors), Unconsidered(stack), |stack|
  {
    if stack == [] then Some(colors)
    else
      var last := |stack| - 1;
      var u := stack[last].event;
      if stack[last].considered then
        assert White(colors[u := Visited]) <= White(colors) && Unconsidered(stack[..last]) <= Unconsidered(stack);
        Walk(lists, colors[u := Visited], stack[..last])
      else
        var entered := stack[last := Entry(u, true)];
        var after := PushAll(lists[u], colors, entered);
        if after.None? then None
        else
          PushShrinks(lists[u], colors, entered);
          assert last in Unconsidered(stack) && last !in Unconsidered(entered)
            && Unconsidered(entered) <= Unconsidered(stack);
          Walk(lists, after.value.0, after.value.1)
  }

  lemma {:induction false} WalkPops(lists: seq<seq<nat>>, colors: seq<Color>, stack: seq<Entry>, u: nat)
    requires ListsInRange(lists) && |colors| == |lists| && StackInRange(|lists|, stack) && u < |lists|
    ensures Walk(lists, colors, stack + [Entry(u, true)]) == Walk(lists, colors[u := Visited], stack)
  {
    assert (stack + [Entry(u, true)])[..|stack|] == stack;
  }

  lemma {:induction false} WalkEnters(lists: seq<seq<nat>>, colors: seq<Color>, stack: seq<Entry>, u: nat)
    requires ListsInRange(lists) && |colors| == |lists| && StackInRange(|lists|, stack) && u < |lists|
    ensures var after := PushAll(lists[u], colors, stack + [Entry(u, true)]);
      && (after.None? ==> Walk(lists, colors, stack + [Entry(u, false)]).None?)
      && (after.Some? ==>
            && |after.value.0| == |lists| && StackInRange(|lists|, after.value.1)
            && Walk(lists, colors, stack + [Entry(u, false)]) == Walk(lists, after.value.0, after.value.1))
  {
    var entered := stack + [Entry(u, true)];
    assert (stack + [Entry(u, false)])[|stack| := Entry(u, true)] == entered;
    if PushAll(lists[u], colors, entered).Some? { PushShrinks(lists[u], colors, entered); }
  }

  /** What is left to do gets smaller with each step. */
  lemma {:induction false} EnterShrinks(lists: seq<seq<nat>>, colors: seq<Color>, stack: seq<Entry>, u: nat)
    requires ListsInRange(lists) && |colors| == |lists| && StackInRange(|lists|, stack) && u < |lists|
    requires PushAll(lists[u], colors, stack + [Entry(u, true)]).Some?
    ensures var after := PushAll(lists[u], colors, stack + [Entry(u, true)]).value;
      && |after.0| == |lists| && StackInRange(|lists|, after.1)
      && (White(after.0) < White(colors)
          || (after == (colors, stack + [Entry(u, true)])
              && Unconsidered(after.1) < Unconsidered(stack + [Entry(u, false)])))
  {
    PushShrinks(lists[u], colors, stack + [Entry(u, true)]);
    assert |stack| in Unconsidered(stack + [Entry(u, false)]) && |stack| !in Unconsidered(stack + [Entry(u, true)]);
    assert Unconsidered(stack + [Entry(u, true)]) <= Unconsidered(stack + [Entry(u, false)]);
  }

  lemma {:induction false} PopShrinks(colors: seq<Color>, stack: seq<Entry>, u: nat)
    requires u < |colors|
    ensures White(colors[u := Visited]) <= White(colors)
    ensures Unconsidered(stack) <= Unconsidered(stack + [Entry(u, true)])
  {
  }

  ghost predicate WalkAll(lists: seq<seq<nat>>, colors: seq<Color>, e: nat)
    requires ListsInRange(lists) && |colors| == |lists| && e <= |lists|
    decreases |lists| - e
  {
    if e == |lists| then true
    else if colors[e] == Visited then WalkAll(lists, colors, e + 1)
    else
      var after := Walk(lists, colors, [Entry(e, false)]);
      after.Some? && WalkAll(lists, after.value, e + 1)
  }

  ghost predicate AcceptedLists(lists: seq<seq<nat>>) {
    ListsInRange(lists) && WalkAll(lists, Uncolored(|lists|), 0)
  }

  // ---- It is the search over edges -------------------------------------------------------------------------------

  lemma {:induction false} PushConcat(a: seq<nat>, b: seq<nat>, colors: seq<Color>, stack: seq<Entry>)
    requires TargetsInRange(|colors|, a) && TargetsInRange(|colors|, b) && StackInRange(|colors|, stack)
    ensures TargetsInRange(|colors|, a + b)
    ensures PushAll(a, colors, stack).None? ==> PushAll(a + b, colors, stack).None?
    ensures PushAll(a, colors, stack).Some? ==>
      var after := PushAll(a, colors, stack).value;
      |after.0| == |colors| && PushAll(a + b, colors, stack) == PushAll(b, after.0, after.1)
  {
    if a == [] {
      assert a + b == b;
    } else {
      var v := a[0];
      assert (a + b)[1..] == a[1..] + b && (a + b)[0] == v;
      if colors[v] == Visited {
        PushConcat(a[1..], b, colors, stack);
      } else if colors[v] == NotVisited {
        PushConcat(a[1..], b, colors[v := InStack], stack + [Entry(v, false)]);
      }
    }
  }

  lemma {:induction false} TargetsRange(edges: seq<Edge>, ids: seq<nat>, n: nat)
    requires IdsInRange(|edges|, ids) && InRange(n, edges)
    ensures TargetsInRange(n, Targets(edges, ids))
  {
    if ids != [] {
      TargetsRange(edges, ids[..|ids| - 1], n);
      assert edges[ids[|ids| - 1]] in edges;
    }
  }

  lemma {:induction false} TargetsConcat(edges: seq<Edge>, a: seq<nat>, b: seq<nat>)
    requires IdsInRange(|edges|, a) && IdsInRange(|edges|, b)
    ensures IdsInRange(|edges|, a + b) && Targets(edges, a + b) == Targets(edges, a) + Targets(edges, b)
  {
    if b == [] {
      assert a + b == a;
    } else {
      assert (a + b)[..|a + b| - 1] == a + b[..|b| - 1];
      TargetsConcat(edges, a, b[..|b| - 1]);
    }
  }

  lemma {:induction false} FollowPushes(edges: seq<Edge>, ids: seq<nat>, i: nat, colors: seq<Color>, stack: seq<Entry>)
    requires InRange(|colors|, edges) && IdsInRange(|edges|, ids) && i <= |ids|
    ensures TargetsInRange(|colors|, Targets(edges, ids[i..]))
    ensures Follow(edges, ids, i, colors, stack) == PushAll(Targets(edges, ids[i..]), colors, stack)
    decreases |ids| - i
  {
    TargetsRange(edges, ids[i..], |colors|);
    if i < |ids| {
      var edge := edges[ids[i]];
      assert edge in edges;
      assert ids[i..] == [ids[i]] + ids[i + 1..];
      TargetsConcat(edges, [ids[i]], ids[i + 1..]);
      assert Targets(edges, [ids[i]]) == if edge.kind.Mo? then [edge.to] else [] by {
        assert [ids[i]][..0] == [];
      }
      TargetsRange(edges, ids[i + 1..], |colors|);
      var here, rest := Targets(edges, [ids[i]]), Targets(edges, ids[i + 1..]);
      assert edge.kind.Mo? ==> (here + rest)[1..] == rest;
      assert !edge.kind.Mo? ==> here + rest == rest;
      if !edge.kind.Mo? || colors[edge.to] == Visited {
        FollowPushes(edges, ids, i + 1, colors, stack);
      } else if colors[edge.to] == NotVisited {
        FollowPushes(edges, ids, i + 1, colors[edge.to := InStack], stack + [Entry(edge.to, false)]);
      }
    }
  }

  lemma {:induction false} ListsRange(edges: seq<Edge>, n: nat)
    requires InRange(n, edges)
    ensures ListsInRange(Lists(edges, n))
  {
    forall a: nat | a < n ensures TargetsInRange(n, Lists(edges, n)[a]) {
      OutgoingInRange(edges, a);
      TargetsRange(edges, Outgoing(edges, a), n);
    }
  }

  /** Entering an event, in both forms. */
  lemma {:induction false} EnterWalks(edges: seq<Edge>, outs: seq<seq<nat>>, colors: seq<Color>, stack: seq<Entry>,
                                      u: nat)
    requires Linked(edges, outs) && |colors| == |outs| && u < |outs| && ListsInRange(Lists(edges, |outs|))
    ensures IdsInRange(|edges|, outs[u])
    ensures Follow(edges, outs[u], 0, colors, stack) == PushAll(Lists(edges, |outs|)[u], colors, stack)
  {
    assert outs[u] == Outgoing(edges, u);
    OutgoingInRange(edges, u);
    FollowPushes(edges, outs[u], 0, colors, stack);
    assert outs[u][0..] == outs[u];
  }

  lemma {:induction false} ExploreEnters(edges: seq<Edge>, outs: seq<seq<nat>>, colors: seq<Color>, stack: seq<Entry>,
                                         u: nat)
    requires Linked(edges, outs) && |colors| == |outs| && StackInRange(|outs|, stack) && u < |outs|
    requires IdsInRange(|edges|, outs[u])
    ensures var after := Follow(edges, outs[u], 0, colors, stack + [Entry(u, true)]);
      && (after.None? ==> Explore(edges, outs, colors, stack + [Entry(u, false)]).None?)
      && (after.Some? ==>
            && |after.value.0| == |outs| && StackInRange(|outs|, after.value.1)
            && Explore(edges, outs, colors, stack + [Entry(u, false)])
               == Explore(edges, outs, after.value.0, after.value.1))
  {
    var entered := stack + [Entry(u, true)];
    assert (stack + [Entry(u, false)])[|stack| := Entry(u, true)] == entered;
    if Follow(edges, outs[u], 0, colors, entered).Some? { FollowShrinks(edges, outs[u], 0, colors, entered); }
  }

  lemma {:induction false} ExplorePops(edges: seq<Edge>, outs: seq<seq<nat>>, colors: seq<Color>, stack: seq<Entry>,
                                       u: nat)
    requires Linked(edges, outs) && |colors| == |outs| && StackInRange(|outs|, stack) && u < |outs|
    ensures Explore(edges, outs, colors, stack + [Entry(u, true)]) == Explore(edges, outs, colors[u := Visited], stack)
  {
    assert (stack + [Entry(u, true)])[..|stack|] == stack;
  }

  lemma {:induction false} ExploreWalks(edges: seq<Edge>, outs: seq<seq<nat>>, colors: seq<Color>, stack: seq<Entry>)
    requires Linked(edges, outs) && |colors| == |outs| && StackInRange(|outs|, stack)
    requires ListsInRange(Lists(edges, |outs|))
    ensures Explore(edges, outs, colors, stack) == Walk(Lists(edges, |outs|), colors, stack)
    decreases White(colors), Unconsidered(stack), |stack|
  {
    if stack != [] {
      var lists := Lists(edges, |outs|);
      var rest, u := stack[..|stack| - 1], stack[|stack| - 1].event;
      if stack[|stack| - 1].considered {
        assert stack == rest + [Entry(u, true)];
        PopShrinks(colors, rest, u);
        WalkPops(lists, colors, rest, u);
        ExplorePops(edges, outs, colors, rest, u);
        ExploreWalks(edges, outs, colors[u := Visited], rest);
      } else {
        assert stack == rest + [Entry(u, false)];
        EnterWalks(edges, outs, colors, rest + [Entry(u, true)], u);
        ExploreEnters(edges, outs, colors, rest, u);
        WalkEnters(lists, colors, rest, u);
        var after := PushAll(lists[u], colors, rest + [Entry(u, true)]);
        if after.Some? {
          EnterShrinks(lists, colors, rest, u);
          ExploreWalks(edges, outs, after.value.0, after.value.1);
        }
      }
    }
  }

  lemma {:induction false} AcceptsWalks(edges: seq<Edge>, outs: seq<seq<nat>>, colors: seq<Color>, e: nat)
    requires Linked(edges, outs) && |colors| == |outs| && e <= |outs| && ListsInRange(Lists(edges, |outs|))
    ensures Accepts(edges, outs, colors, e) <==> WalkAll(Lists(edges, |outs|), colors, e)
    decreases |outs| - e
  {
    if e < |outs| {
      if colors[e] == Visited {
        AcceptsWalks(edges, outs, colors, e + 1);
      } else {
        ExploreWalks(edges, outs, colors, [Entry(e, false)]);
        var after := Explore(edges, outs, colors, [Entry(e, false)]);
        if after.Some? { AcceptsWalks(edges, outs, after.value, e + 1); }
      }
    }
  }

  /** The check depends on the successor lists only. */
  lemma {:induction false} PassesAccepted(g: Graph)
    requires Linked(g.edges, g.outs)
    ensures Passes(g) <==> AcceptedLists(Lists(g.edges, |g.outs|))
  {
    ListsRange(g.edges, |g.outs|);
    AcceptsWalks(g.edges, g.outs, Uncolored(|g.outs|), 0);
  }

  // ---- A new event without successors ------------------------------------------------------------------------------

  /** `lists` with a new event at the end, which follows the events of `before` as their last successor. */
  ghost function WithFresh(lists: seq<seq<nat>>, before: set<nat>): seq<seq<nat>> {
    seq(|lists| + 1, a requires 0 <= a <= |lists| =>
        if a == |lists| then [] else if a in before then lists[a] + [|lists|] else lists[a])
  }

  lemma {:induction false} PushMore(targets: seq<nat>, colors: seq<Color>, c: Color, stack: seq<Entry>)
    requires TargetsInRange(|colors|, targets) && PushAll(targets, colors, stack).Some?
    ensures PushAll(targets, colors + [c], stack)
         == Some((PushAll(targets, colors, stack).value.0 + [c], PushAll(targets, colors, stack).value.1))
  {
    if targets != [] {
      var v := targets[0];
      if colors[v] == Visited {
        PushMore(targets[1..], colors, c, stack);
      } else {
        assert (colors + [c])[v := InStack] == colors[v := InStack] + [c];
        PushMore(targets[1..], colors[v := InStack], c, stack + [Entry(v, false)]);
      }
    }
  }

  /** An event without successors on top of the stack is finished at once. */
  lemma {:induction false} SinkDone(lists: seq<seq<nat>>, colors: seq<Color>, stack: seq<Entry>, v: nat)
    requires ListsInRange(lists) && |colors| == |lists| && StackInRange(|lists|, stack) && v < |lists| && lists[v] == []
    ensures Walk(lists, colors, stack + [Entry(v, false)]) == Walk(lists, colors[v := Visited], stack)
  {
    var pushed := stack + [Entry(v, false)];
    var entered := stack + [Entry(v, true)];
    assert pushed[|stack| := Entry(v, true)] == entered;
    assert PushAll(lists[v], colors, entered) == Some((colors, entered));
    assert Walk(lists, colors, pushed) == Walk(lists, colors, entered);
    assert entered[..|stack|] == stack;
  }

  lemma {:induction false} FreshRange(lists: seq<seq<nat>>, before: set<nat>)
    requires ListsInRange(lists)
    ensures ListsInRange(WithFresh(lists, before))
  {
  }

  /** Pushing the new event, unless it is finished, and finishing it at once. */
  lemma {:induction false} PushFresh(lists: seq<seq<nat>>, colors: seq<Color>, c: Color, stack: seq<Entry>, n: nat)
    requires ListsInRange(lists) && |lists| == n + 1 && lists[n] == [] && |colors| == n && StackInRange(n, stack)
    requires c != InStack
    ensures var after := PushAll([n], colors + [c], stack);
      && after.Some? && |after.value.0| == n + 1 && StackInRange(n + 1, after.value.1)
      && Walk(lists, after.value.0, after.value.1) == Walk(lists, colors + [Visited], stack)
  {
    assert [n][1..] == [];
    if c == NotVisited {
      SinkDone(lists, (colors + [c])[n := InStack], stack, n);
      assert (colors + [c])[n := InStack][n := Visited] == colors + [Visited];
    }
  }

  /** Entering an event that the new one may follow. */
  lemma {:induction false} EnterFresh(lists: seq<seq<nat>>, before: set<nat>, u: nat, colors: seq<Color>, c: Color,
                                      entered: seq<Entry>) returns (c': Color)
    requires ListsInRange(lists) && |colors| == |lists| && StackInRange(|lists|, entered) && u < |lists|
    requires c != InStack && PushAll(lists[u], colors, entered).Some?
    ensures c' != InStack && ListsInRange(WithFresh(lists, before))
    ensures var after := PushAll(lists[u], colors, entered).value;
      && |after.0| == |lists| && StackInRange(|lists|, after.1)
      && var after' := PushAll(WithFresh(lists, before)[u], colors + [c], entered);
         && after'.Some? && |after'.value.0| == |lists| + 1 && StackInRange(|lists| + 1, after'.value.1)
         && Walk(WithFresh(lists, before), after'.value.0, after'.value.1)
            == Walk(WithFresh(lists, before), after.0 + [c'], after.1)
  {
    FreshRange(lists, before);
    PushShrinks(lists[u], colors, entered);
    PushMore(lists[u], colors, c, entered);
    c' := c;
    if u in before {
      var after := PushAll(lists[u], colors, entered).value;
      PushConcat(lists[u], [|lists|], colors + [c], entered);
      PushFresh(WithFresh(lists, before), after.0, c, after.1, |lists|);
      c' := Visited;
    }
  }

  lemma {:induction false} WalkFresh(lists: seq<seq<nat>>, before: set<nat>, colors: seq<Color>, c: Color,
                                     stack: seq<Entry>) returns (c': Color)
    requires ListsInRange(lists) && |colors| == |lists| && StackInRange(|lists|, stack)
    requires c != InStack && Walk(lists, colors, stack).Some?
    ensures c' != InStack && ListsInRange(WithFresh(lists, before))
    ensures Walk(WithFresh(lists, before), colors + [c], stack) == Some(Walk(lists, colors, stack).value + [c'])
    decreases White(colors), Unconsidered(stack), |stack|
  {
    FreshRange(lists, before);
    c' := c;
    if stack != [] {
      var last := |stack| - 1;
      var u := stack[last].event;
      if stack[last].considered {
        assert White(colors[u := Visited]) <= White(colors) && Unconsidered(stack[..last]) <= Unconsidered(stack);
        c' := WalkFresh(lists, before, colors[u := Visited], c, stack[..last]);
        assert (colors + [c])[u := Visited] == colors[u := Visited] + [c];
      } else {
        var entered := stack[last := Entry(u, true)];
        PushShrinks(lists[u], colors, entered);
        assert last in Unconsidered(stack) && last !in Unconsidered(entered)
          && Unconsidered(entered) <= Unconsidered(stack);
        var after := PushAll(lists[u], colors, entered).value;
        var c1 := EnterFresh(lists, before, u, colors, c, entered);
        c' := WalkFresh(lists, before, after.0, c1, after.1);
      }
    }
  }

  lemma {:induction false} WalkAllFresh(lists: seq<seq<nat>>, before: set<nat>, colors: seq<Color>, c: Color, e: nat)
    requires ListsInRange(lists) && |colors| == |lists| && e <= |lists| && c != InStack && WalkAll(lists, colors, e)
    ensures ListsInRange(WithFresh(lists, before)) && WalkAll(WithFresh(lists, before), colors + [c], e)
    decreases |lists| - e
  {
    var n, lists' := |lists|, WithFresh(lists, before);
    FreshRange(lists, before);
    if e == n {
      assert [] + [Entry(n, false)] == [Entry(n, false)];
      SinkDone(lists', colors + [c], [], n);
    } else if colors[e] == Visited {
      WalkAllFresh(lists, before, colors, c, e + 1);
    } else {
      var c' := WalkFresh(lists, before, colors, c, [Entry(e, false)]);
      WalkAllFresh(lists, before, Walk(lists, colors, [Entry(e, false)]).value, c', e + 1);
    }
  }

  /** A new event without successors, last in the lists it is in, does not change the verdict of an accepted graph. */
  lemma {:induction false} FreshAccepted(lists: seq<seq<nat>>, before: set<nat>)
    requires AcceptedLists(lists)
    ensures AcceptedLists(WithFresh(lists, before))
  {
    WalkAllFresh(lists, before, Uncolored(|lists|), NotVisited, 0);
    assert Uncolored(|lists|) + [NotVisited] == Uncolored(|lists| + 1);
  }
}

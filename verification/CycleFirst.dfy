/** The event of a group that the depth-first check finishes first. It has no successors in the group, and edges to it
    from the rest of the group do not change the verdict of an accepted graph. */
module CycleFirst {
  import opened Options
  import opened CycleCheck
  import opened CycleWalk

  // ---- The first event to be finished -------------------------------------------------------------------------------

  ghost function First(lists: seq<seq<nat>>, group: set<nat>, colors: seq<Color>, stack: seq<Entry>): Option<nat>
    requires ListsInRange(lists) && |colors| == |lists| && StackInRange(|lists|, stack)
    decreases White(colors), Unconsidered(stack), |stack|
  {
    if stack == [] then None
    else
      var last := |stack| - 1;
      var u := stack[last].event;
      if stack[last].considered then
        if u in group then Some(u)
        else
          assert White(colors[u := Visited]) <= White(colors) && Unconsidered(stack[..last]) <= Unconsidered(stack);
          First(lists, group, colors[u := Visited], stack[..last])
      else
        var entered := stack[last := Entry(u, true)];
        var after := PushAll(lists[u], colors, entered);
        if after.None? then None
        else
          PushShrinks(lists[u], colors, entered);
          assert last in Unconsidered(stack) && last !in Unconsidered(entered)
            && Unconsidered(entered) <= Unconsidered(stack);
          First(lists, group, after.value.0, after.value.1)
  }

  ghost function FirstOfAll(lists: seq<seq<nat>>, group: set<nat>, colors: seq<Color>, e: nat): Option<nat>
    requires ListsInRange(lists) && |colors| == |lists| && e <= |lists|
    decreases |lists| - e
  {
    if e == |lists| then None
    else if colors[e] == Visited then FirstOfAll(lists, group, colors, e + 1)
    else
      var first := First(lists, group, colors, [Entry(e, false)]);
      var after := Walk(lists, colors, [Entry(e, false)]);
      if first.Some? then first
      else if after.None? then None
      else FirstOfAll(lists, group, after.value, e + 1)
  }

  ghost predicate Unvisited(group: set<nat>, colors: seq<Color>) {
    forall v :: v in group && v < |colors| ==> colors[v] != Visited
  }

  /** What pushing does: the stack grows by targets, and nothing is finished. */
  lemma {:induction false} PushGrows(targets: seq<nat>, colors: seq<Color>, stack: seq<Entry>)
    requires TargetsInRange(|colors|, targets) && PushAll(targets, colors, stack).Some?
    ensures var after := PushAll(targets, colors, stack).value;
      && |after.0| == |colors| && |stack| <= |after.1| && after.1[..|stack|] == stack
      && (forall j :: |stack| <= j < |after.1| ==> !after.1[j].considered && after.1[j].event in targets)
      && (forall v :: 0 <= v < |colors| ==> (after.0[v] == Visited <==> colors[v] == Visited))
  {
    if targets != [] {
      var v := targets[0];
      if colors[v] == Visited {
        PushGrows(targets[1..], colors, stack);
      } else {
        var stack' := stack + [Entry(v, false)];
        PushGrows(targets[1..], colors[v := InStack], stack');
        var after := PushAll(targets, colors, stack).value;
        assert after.1[..|stack|] == after.1[..|stack'|][..|stack|];
        assert after.1[|stack|] == after.1[..|stack'|][|stack|];
      }
    }
  }

  /** Without a first event, no event of the group is on the stack, and none is finished. */
  lemma {:induction false} NoFirst(lists: seq<seq<nat>>, group: set<nat>, colors: seq<Color>, stack: seq<Entry>)
    requires ListsInRange(lists) && |colors| == |lists| && StackInRange(|lists|, stack)
    requires Walk(lists, colors, stack).Some? && First(lists, group, colors, stack).None?
    ensures forall j :: 0 <= j < |stack| ==> stack[j].event !in group
    ensures Unvisited(group, colors) ==> Unvisited(group, Walk(lists, colors, stack).value)
    decreases White(colors), Unconsidered(stack), |stack|
  {
    if stack != [] {
      var last := |stack| - 1;
      var u := stack[last].event;
      if stack[last].considered {
        assert White(colors[u := Visited]) <= White(colors) && Unconsidered(stack[..last]) <= Unconsidered(stack);
        NoFirst(lists, group, colors[u := Visited], stack[..last]);
      } else {
        var entered := stack[last := Entry(u, true)];
        PushShrinks(lists[u], colors, entered);
        PushGrows(lists[u], colors, entered);
        assert last in Unconsidered(stack) && last !in Unconsidered(entered)
          && Unconsidered(entered) <= Unconsidered(stack);
        var after := PushAll(lists[u], colors, entered).value;
        NoFirst(lists, group, after.0, after.1);
        forall j | 0 <= j < |stack| ensures stack[j].event !in group {
          assert after.1[j] == after.1[..|stack|][j];
        }
      }
    }
  }

  /** Every group is met. */
  lemma {:induction false} FirstExists(lists: seq<seq<nat>>, group: set<nat>, colors: seq<Color>, e: nat, v: nat)
    requires ListsInRange(lists) && |colors| == |lists| && e <= v < |lists| && v in group
    requires WalkAll(lists, colors, e) && Unvisited(group, colors)
    ensures FirstOfAll(lists, group, colors, e).Some?
    decreases |lists| - e
  {
    if colors[e] == Visited {
      FirstExists(lists, group, colors, e + 1, v);
    } else if First(lists, group, colors, [Entry(e, false)]).None? {
      NoFirst(lists, group, colors, [Entry(e, false)]);
      assert [Entry(e, false)][0].event !in group;
      FirstExists(lists, group, Walk(lists, colors, [Entry(e, false)]).value, e + 1, v);
    }
  }

  // ---- It has no successors in the group ------------------------------------------------------------------------

  ghost predicate OnAbove(stack: seq<Entry>, j: int, b: nat) {
    exists k :: j < k < |stack| && 0 <= k && stack[k].event == b
  }

  /** The successors of a considered entry are finished or above it. */
  ghost predicate Covers(lists: seq<seq<nat>>, colors: seq<Color>, stack: seq<Entry>, j: nat)
    requires j < |stack| && StackInRange(|lists|, stack) && ListsInRange(lists) && |colors| == |lists|
  {
    stack[j].considered ==>
      forall b :: b in lists[stack[j].event] ==> colors[b] == Visited || OnAbove(stack, j, b)
  }

  ghost predicate AllCover(lists: seq<seq<nat>>, colors: seq<Color>, stack: seq<Entry>) {
    && StackInRange(|lists|, stack) && ListsInRange(lists) && |colors| == |lists|
    && forall j :: 0 <= j < |stack| ==> Covers(lists, colors, stack, j)
  }

  lemma {:induction false} PushCovers(targets: seq<nat>, colors: seq<Color>, stack: seq<Entry>, b: nat)
    requires TargetsInRange(|colors|, targets) && PushAll(targets, colors, stack).Some? && b in targets
    ensures var after := PushAll(targets, colors, stack).value;
      |after.0| == |colors| && (after.0[b] == Visited || OnAbove(after.1, |stack| - 1, b))
  {
    var v := targets[0];
    PushGrows(targets, colors, stack);
    if colors[v] == Visited {
      if b != v { PushCovers(targets[1..], colors, stack, b); }
    } else {
      var stack' := stack + [Entry(v, false)];
      PushGrows(targets[1..], colors[v := InStack], stack');
      var after := PushAll(targets, colors, stack).value;
      if b == v {
        assert after.1[|stack|] == after.1[..|stack'|][|stack|];
        assert OnAbove(after.1, |stack| - 1, b);
      } else {
        PushCovers(targets[1..], colors[v := InStack], stack', b);
      }
    }
  }

  lemma {:induction false} EnterCovers(lists: seq<seq<nat>>, colors: seq<Color>, stack: seq<Entry>)
    requires AllCover(lists, colors, stack) && stack != [] && !stack[|stack| - 1].considered
    requires var u := stack[|stack| - 1].event;
      PushAll(lists[u], colors, stack[|stack| - 1 := Entry(u, true)]).Some?
    ensures var u := stack[|stack| - 1].event;
      var after := PushAll(lists[u], colors, stack[|stack| - 1 := Entry(u, true)]).value;
      AllCover(lists, after.0, after.1)
  {
    var last := |stack| - 1;
    var u := stack[last].event;
    var entered := stack[last := Entry(u, true)];
    var after := PushAll(lists[u], colors, entered).value;
    PushShrinks(lists[u], colors, entered);
    PushGrows(lists[u], colors, entered);
    forall j | 0 <= j < |after.1| && after.1[j].considered ensures Covers(lists, after.0, after.1, j) {
      assert j < |stack| && after.1[j] == after.1[..|stack|][j] == entered[j];
      forall b | b in lists[after.1[j].event] ensures after.0[b] == Visited || OnAbove(after.1, j, b) {
        if j == last {
          PushCovers(lists[u], colors, entered, b);
        } else {
          assert Covers(lists, colors, stack, j);
          if OnAbove(stack, j, b) {
            var k :| j < k < |stack| && stack[k].event == b;
            assert after.1[k] == after.1[..|stack|][k] == entered[k];
          }
        }
      }
    }
  }

  lemma {:induction false} PopCovers(lists: seq<seq<nat>>, colors: seq<Color>, stack: seq<Entry>)
    requires AllCover(lists, colors, stack) && stack != []
    ensures var u := stack[|stack| - 1].event; AllCover(lists, colors[u := Visited], stack[..|stack| - 1])
  {
    var last := |stack| - 1;
    var u := stack[last].event;
    var colors', rest := colors[u := Visited], stack[..last];
    forall j | 0 <= j < |rest| ensures Covers(lists, colors', rest, j) {
      assert Covers(lists, colors, stack, j);
      forall b | b in lists[stack[j].event] && stack[j].considered
        ensures colors'[b] == Visited || OnAbove(rest, j, b)
      {
        if OnAbove(stack, j, b) && b != u {
          var k :| j < k < |stack| && stack[k].event == b;
          assert rest[k] == stack[k];
        }
      }
    }
  }

  lemma {:induction false} FirstIsSink(lists: seq<seq<nat>>, group: set<nat>, colors: seq<Color>, stack: seq<Entry>,
                                       w: nat)
    requires AllCover(lists, colors, stack) && Unvisited(group, colors)
    requires First(lists, group, colors, stack) == Some(w)
    ensures w < |lists| && w in group && forall b :: b in lists[w] ==> b !in group
    decreases White(colors), Unconsidered(stack), |stack|
  {
    var last := |stack| - 1;
    var u := stack[last].event;
    if stack[last].considered {
      assert Covers(lists, colors, stack, last);
      if u !in group {
        assert White(colors[u := Visited]) <= White(colors) && Unconsidered(stack[..last]) <= Unconsidered(stack);
        PopCovers(lists, colors, stack);
        FirstIsSink(lists, group, colors[u := Visited], stack[..last], w);
      }
    } else {
      var entered := stack[last := Entry(u, true)];
      PushShrinks(lists[u], colors, entered);
      PushGrows(lists[u], colors, entered);
      assert last in Unconsidered(stack) && last !in Unconsidered(entered)
        && Unconsidered(entered) <= Unconsidered(stack);
      EnterCovers(lists, colors, stack);
      var after := PushAll(lists[u], colors, entered).value;
      FirstIsSink(lists, group, after.0, after.1, w);
    }
  }

  lemma {:induction false} FirstOfAllIsSink(lists: seq<seq<nat>>, group: set<nat>, colors: seq<Color>, e: nat, w: nat)
    requires ListsInRange(lists) && |colors| == |lists| && e <= |lists| && WalkAll(lists, colors, e)
    requires Unvisited(group, colors) && FirstOfAll(lists, group, colors, e) == Some(w)
    ensures w < |lists| && w in group && forall b :: b in lists[w] ==> b !in group
    decreases |lists| - e
  {
    var root := [Entry(e, false)];
    if colors[e] == Visited {
      FirstOfAllIsSink(lists, group, colors, e + 1, w);
    } else if First(lists, group, colors, root).Some? {
      FirstIsSink(lists, group, colors, root, w);
    } else {
      NoFirst(lists, group, colors, root);
      FirstOfAllIsSink(lists, group, Walk(lists, colors, root).value, e + 1, w);
    }
  }

  // ---- Edges to it ----------------------------------------------------------------------------------------------

  /** `lists` with `w` added as the last successor of the events of `before`. */
  ghost function WithLater(lists: seq<seq<nat>>, before: set<nat>, w: nat): seq<seq<nat>> {
    seq(|lists|, a requires 0 <= a < |lists| => if a in before then lists[a] + [w] else lists[a])
  }

  lemma {:induction false} LaterRange(lists: seq<seq<nat>>, before: set<nat>, w: nat)
    requires ListsInRange(lists) && w < |lists|
    ensures ListsInRange(WithLater(lists, before, w))
  {
  }

  ghost function Without(stack: seq<Entry>, w: nat): seq<Entry> {
    if stack == [] then []
    else
      var last := stack[|stack| - 1];
      Without(stack[..|stack| - 1], w) + if last.event == w then [] else [last]
  }

  ghost predicate On(stack: seq<Entry>, w: nat) {
    exists j :: 0 <= j < |stack| && stack[j].event == w
  }

  lemma {:induction false} WithoutRange(n: nat, stack: seq<Entry>, w: nat)
    requires StackInRange(n, stack)
    ensures StackInRange(n, Without(stack, w))
  {
    if stack != [] { WithoutRange(n, stack[..|stack| - 1], w); }
  }

  lemma {:induction false} WithoutNone(stack: seq<Entry>, w: nat)
    requires !On(stack, w)
    ensures Without(stack, w) == stack
  {
    if stack != [] {
      var rest := stack[..|stack| - 1];
      assert forall j :: 0 <= j < |rest| ==> rest[j].event == stack[j].event;
      WithoutNone(rest, w);
      assert stack[|stack| - 1].event == w ==> On(stack, w);
    }
  }

  lemma WithoutPush(stack: seq<Entry>, x: Entry, w: nat)
    ensures Without(stack + [x], w) == if x.event == w then Without(stack, w) else Without(stack, w) + [x]
  {
    assert (stack + [x])[..|stack|] == stack;
  }

  /** Pushing goes on as before once `w` is finished, except that it does not push `w`. */
  lemma {:induction false} PushEarly(targets: seq<nat>, colors: seq<Color>, stack: seq<Entry>, w: nat)
    requires TargetsInRange(|colors|, targets) && w < |colors| && PushAll(targets, colors, stack).Some?
    ensures var after := PushAll(targets, colors, stack).value;
      && |after.0| == |colors|
      && PushAll(targets, colors[w := Visited], Without(stack, w))
         == Some((after.0[w := Visited], Without(after.1, w)))
  {
    if targets != [] {
      var v := targets[0];
      if colors[v] == Visited {
        PushEarly(targets[1..], colors, stack, w);
      } else {
        WithoutPush(stack, Entry(v, false), w);
        PushEarly(targets[1..], colors[v := InStack], stack + [Entry(v, false)], w);
        if v == w {
          assert colors[v := InStack][w := Visited] == colors[w := Visited];
        } else {
          assert colors[v := InStack][w := Visited] == colors[w := Visited][v := InStack];
        }
      }
    }
  }

  lemma {:induction false} PopEarly(lists: seq<seq<nat>>, before: set<nat>, w: nat, u: nat, colors: seq<Color>,
                                    rest: seq<Entry>)
    requires ListsInRange(WithLater(lists, before, w)) && |colors| == |lists| && w < |lists| && u < |lists|
    requires StackInRange(|lists|, Without(rest, w)) && StackInRange(|lists|, Without(rest + [Entry(u, true)], w))
    ensures Walk(WithLater(lists, before, w), colors[w := Visited], Without(rest + [Entry(u, true)], w))
         == Walk(WithLater(lists, before, w), colors[u := Visited][w := Visited], Without(rest, w))
  {
    WithoutPush(rest, Entry(u, true), w);
    if u == w {
      assert colors[u := Visited][w := Visited] == colors[w := Visited];
    } else {
      assert colors[u := Visited][w := Visited] == colors[w := Visited][u := Visited];
      WalkPops(WithLater(lists, before, w), colors[w := Visited], Without(rest, w), u);
    }
  }

  lemma {:induction false} PushLater(lists: seq<seq<nat>>, before: set<nat>, w: nat, u: nat, colors: seq<Color>,
                                     entered: seq<Entry>)
    requires ListsInRange(lists) && ListsInRange(WithLater(lists, before, w)) && |colors| == |lists|
    requires StackInRange(|lists|, entered) && w < |lists| && u < |lists| && PushAll(lists[u], colors, entered).Some?
    ensures var after := PushAll(lists[u], colors, entered).value;
      && |after.0| == |colors|
      && PushAll(WithLater(lists, before, w)[u], colors[w := Visited], Without(entered, w))
         == Some((after.0[w := Visited], Without(after.1, w)))
  {
    PushEarly(lists[u], colors, entered, w);
    WithoutRange(|lists|, entered, w);
    if u in before {
      PushConcat(lists[u], [w], colors[w := Visited], Without(entered, w));
      assert [w][1..] == [];
    }
  }

  lemma {:induction false} EnterEarly(lists: seq<seq<nat>>, before: set<nat>, w: nat, u: nat, colors: seq<Color>,
                                      rest: seq<Entry>)
    requires ListsInRange(lists) && ListsInRange(WithLater(lists, before, w)) && |colors| == |lists|
    requires StackInRange(|lists|, rest) && w < |lists| && u < |lists| && lists[w] == []
    requires PushAll(lists[u], colors, rest + [Entry(u, true)]).Some?
    requires StackInRange(|lists|, Without(rest + [Entry(u, false)], w))
    ensures var after := PushAll(lists[u], colors, rest + [Entry(u, true)]).value;
      && |after.0| == |colors| && StackInRange(|lists|, Without(after.1, w))
      && Walk(WithLater(lists, before, w), colors[w := Visited], Without(rest + [Entry(u, false)], w))
         == Walk(WithLater(lists, before, w), after.0[w := Visited], Without(after.1, w))
  {
    var after := PushAll(lists[u], colors, rest + [Entry(u, true)]).value;
    EnterShrinks(lists, colors, rest, u);
    WithoutRange(|lists|, after.1, w);
    WithoutPush(rest, Entry(u, false), w);
    WithoutPush(rest, Entry(u, true), w);
    if u == w {
      assert after == (colors, rest + [Entry(u, true)]);
    } else {
      PushLater(lists, before, w, u, colors, rest + [Entry(u, true)]);
      WithoutRange(|lists|, rest, w);
      WalkEnters(WithLater(lists, before, w), colors[w := Visited], Without(rest, w), u);
    }
  }

  /** Once `w` is finished early, the search goes on as without the new edges. */
  lemma {:induction false} WalkEarly(lists: seq<seq<nat>>, before: set<nat>, w: nat, colors: seq<Color>,
                                     stack: seq<Entry>)
    requires ListsInRange(lists) && |colors| == |lists| && StackInRange(|lists|, stack)
    requires w < |lists| && lists[w] == [] && w !in before && Walk(lists, colors, stack).Some?
    ensures ListsInRange(WithLater(lists, before, w)) && StackInRange(|lists|, Without(stack, w))
    ensures Walk(WithLater(lists, before, w), colors[w := Visited], Without(stack, w))
         == Some(Walk(lists, colors, stack).value[w := Visited])
    decreases White(colors), Unconsidered(stack), |stack|
  {
    LaterRange(lists, before, w);
    WithoutRange(|lists|, stack, w);
    if stack != [] {
      var rest, u := stack[..|stack| - 1], stack[|stack| - 1].event;
      WithoutRange(|lists|, rest, w);
      if stack[|stack| - 1].considered {
        assert stack == rest + [Entry(u, true)];
        PopShrinks(colors, rest, u);
        WalkPops(lists, colors, rest, u);
        WalkEarly(lists, before, w, colors[u := Visited], rest);
        PopEarly(lists, before, w, u, colors, rest);
      } else {
        assert stack == rest + [Entry(u, false)];
        WalkEnters(lists, colors, rest, u);
        EnterShrinks(lists, colors, rest, u);
        var after := PushAll(lists[u], colors, rest + [Entry(u, true)]).value;
        WalkEarly(lists, before, w, after.0, after.1);
        EnterEarly(lists, before, w, u, colors, rest);
      }
    }
  }

  lemma {:induction false} WalkAllEarly(lists: seq<seq<nat>>, before: set<nat>, w: nat, colors: seq<Color>, e: nat)
    requires ListsInRange(lists) && |colors| == |lists| && e <= |lists|
    requires w < |lists| && lists[w] == [] && w !in before && WalkAll(lists, colors, e)
    ensures ListsInRange(WithLater(lists, before, w)) && WalkAll(WithLater(lists, before, w), colors[w := Visited], e)
    decreases |lists| - e
  {
    LaterRange(lists, before, w);
    if e < |lists| {
      if colors[e] == Visited {
        WalkAllEarly(lists, before, w, colors, e + 1);
      } else if e == w {
        assert [] + [Entry(e, false)] == [Entry(e, false)];
        SinkDone(lists, colors, [], e);
        WalkAllEarly(lists, before, w, colors[w := Visited], e + 1);
        assert colors[w := Visited][w := Visited] == colors[w := Visited];
      } else {
        var root := [Entry(e, false)];
        WalkEarly(lists, before, w, colors, root);
        WithoutNone(root, w);
        WalkAllEarly(lists, before, w, Walk(lists, colors, root).value, e + 1);
      }
    }
  }

  // ---- Until it is finished -------------------------------------------------------------------------------------

  /** `w` is on the stack at most once. It is there if it is marked so, and unmarked only as the lone start. */
  ghost predicate Tidy(colors: seq<Color>, stack: seq<Entry>, w: nat)
    requires w < |colors|
  {
    && (colors[w] == InStack ==> On(stack, w))
    && (colors[w] == NotVisited && On(stack, w) ==> |stack| == 1)
    && (forall i, j :: 0 <= i < j < |stack| ==> !(stack[i].event == w && stack[j].event == w))
  }

  lemma {:induction false} PushTidy(targets: seq<nat>, colors: seq<Color>, stack: seq<Entry>, w: nat, k: nat)
    requires TargetsInRange(|colors|, targets) && w < |colors| && PushAll(targets, colors, stack).Some?
    requires Tidy(colors, stack, w) && k < |stack| && stack[k].event != w
    ensures var after := PushAll(targets, colors, stack).value;
      |after.0| == |colors| && Tidy(after.0, after.1, w)
  {
    if targets != [] {
      var v := targets[0];
      if colors[v] == Visited {
        PushTidy(targets[1..], colors, stack, w, k);
      } else {
        var stack' := stack + [Entry(v, false)];
        assert stack'[k] == stack[k];
        if v == w { assert stack'[|stack|].event == w; }
        if On(stack, w) {
          var j :| 0 <= j < |stack| && stack[j].event == w;
          assert stack'[j].event == w;
        }
        PushTidy(targets[1..], colors[v := InStack], stack', w, k);
      }
    }
  }

  lemma {:induction false} EnterTidy(lists: seq<seq<nat>>, colors: seq<Color>, rest: seq<Entry>, u: nat, w: nat)
    requires ListsInRange(lists) && |colors| == |lists| && u < |lists| && w < |lists| && lists[w] == []
    requires PushAll(lists[u], colors, rest + [Entry(u, true)]).Some? && Tidy(colors, rest + [Entry(u, false)], w)
    ensures var after := PushAll(lists[u], colors, rest + [Entry(u, true)]).value;
      |after.0| == |colors| && Tidy(after.0, after.1, w)
  {
    var stack, entered := rest + [Entry(u, false)], rest + [Entry(u, true)];
    assert forall j :: 0 <= j < |stack| ==> entered[j].event == stack[j].event;
    assert On(stack, w) <==> On(entered, w) by {
      if On(stack, w) {
        var j :| 0 <= j < |stack| && stack[j].event == w;
        assert entered[j].event == w;
      }
      if On(entered, w) {
        var j :| 0 <= j < |entered| && entered[j].event == w;
        assert stack[j].event == w;
      }
    }
    assert Tidy(colors, entered, w);
    if u != w { PushTidy(lists[u], colors, entered, w, |rest|); }
  }

  lemma {:induction false} PopTidy(colors: seq<Color>, rest: seq<Entry>, u: nat, w: nat)
    requires u < |colors| && w < |colors| && Tidy(colors, rest + [Entry(u, true)], w)
    ensures Tidy(colors[u := Visited], rest, w)
    ensures u == w ==> !On(rest, w)
  {
    var stack := rest + [Entry(u, true)];
    assert forall j :: 0 <= j < |rest| ==> rest[j] == stack[j];
    assert stack[|rest|].event == u;
    if u != w && On(stack, w) {
      var j :| 0 <= j < |stack| && stack[j].event == w;
      assert rest[j].event == w;
    }
  }

  /** The first event of the group to be finished is never below another one on the stack. */
  lemma {:induction false} FirstOnTop(lists: seq<seq<nat>>, group: set<nat>, w: nat, colors: seq<Color>,
                                      stack: seq<Entry>)
    requires ListsInRange(lists) && |colors| == |lists| && StackInRange(|lists|, stack)
    requires w < |lists| && w in group && lists[w] == [] && Tidy(colors, stack, w)
    requires Walk(lists, colors, stack).Some? && First(lists, group, colors, stack) == Some(w)
    ensures forall i, j :: 0 <= i < j < |stack| ==> !(stack[i].event == w && stack[j].event in group)
    decreases White(colors), Unconsidered(stack), |stack|
  {
    var rest, u := stack[..|stack| - 1], stack[|stack| - 1].event;
    if stack[|stack| - 1].considered {
      if u !in group {
        assert stack == rest + [Entry(u, true)];
        PopShrinks(colors, rest, u);
        PopTidy(colors, rest, u, w);
        FirstOnTop(lists, group, w, colors[u := Visited], rest);
      }
    } else {
      assert stack == rest + [Entry(u, false)];
      assert stack[|stack| - 1 := Entry(u, true)] == rest + [Entry(u, true)];
      EnterShrinks(lists, colors, rest, u);
      EnterTidy(lists, colors, rest, u, w);
      PushGrows(lists[u], colors, rest + [Entry(u, true)]);
      var after := PushAll(lists[u], colors, rest + [Entry(u, true)]).value;
      FirstOnTop(lists, group, w, after.0, after.1);
      forall j | 0 <= j < |stack| ensures after.1[j].event == stack[j].event {
        assert after.1[j] == after.1[..|stack|][j];
      }
    }
  }

  /** At the end `w` is not left marked. */
  lemma {:induction false} TidyEnd(lists: seq<seq<nat>>, w: nat, colors: seq<Color>, stack: seq<Entry>)
    requires ListsInRange(lists) && |colors| == |lists| && StackInRange(|lists|, stack)
    requires w < |lists| && lists[w] == [] && Tidy(colors, stack, w) && Walk(lists, colors, stack).Some?
    ensures Walk(lists, colors, stack).value[w] != InStack
    ensures colors[w] == Visited ==> Walk(lists, colors, stack).value[w] == Visited
    decreases White(colors), Unconsidered(stack), |stack|
  {
    if stack != [] {
      var rest, u := stack[..|stack| - 1], stack[|stack| - 1].event;
      if stack[|stack| - 1].considered {
        assert stack == rest + [Entry(u, true)];
        PopShrinks(colors, rest, u);
        PopTidy(colors, rest, u, w);
        TidyEnd(lists, w, colors[u := Visited], rest);
      } else {
        assert stack == rest + [Entry(u, false)];
        assert stack[|stack| - 1 := Entry(u, true)] == rest + [Entry(u, true)];
        EnterShrinks(lists, colors, rest, u);
        EnterTidy(lists, colors, rest, u, w);
        PushGrows(lists[u], colors, rest + [Entry(u, true)]);
        var after := PushAll(lists[u], colors, rest + [Entry(u, true)]).value;
        TidyEnd(lists, w, after.0, after.1);
      }
    }
  }

  /** The first of the group to be finished is `w`, or none is. */
  ghost predicate AtMostFirst(first: Option<nat>, w: nat) {
    first.None? || first.value == w
  }

  /** `w` may get new edges from the events of `before`. */
  ghost predicate Placeable(lists: seq<seq<nat>>, group: set<nat>, before: set<nat>, w: nat) {
    && ListsInRange(lists) && w < |lists| && lists[w] == [] && w in group && before <= group && w !in before
    && forall z :: z in before && z < |lists| ==> w !in lists[z]
  }

  /** When an event of the group has been entered, `w` is not on the stack. */
  lemma {:induction false} NotBelow(lists: seq<seq<nat>>, group: set<nat>, before: set<nat>, w: nat, u: nat,
                                    colors: seq<Color>, stack: seq<Entry>, k: nat)
    requires Placeable(lists, group, before, w) && |colors| == |lists| && StackInRange(|lists|, stack)
    requires k < |stack| && stack[k].event == u && u in before
    requires forall j :: k < j < |stack| ==> stack[j].event in lists[u]
    requires Tidy(colors, stack, w) && Walk(lists, colors, stack).Some?
    requires AtMostFirst(First(lists, group, colors, stack), w)
    ensures !On(stack, w)
  {
    if First(lists, group, colors, stack).None? {
      NoFirst(lists, group, colors, stack);
      assert false;
    }
    assert stack[k].event in group;
    FirstOnTop(lists, group, w, colors, stack);
  }

  lemma {:induction false} EnterLater(lists: seq<seq<nat>>, group: set<nat>, before: set<nat>, w: nat, u: nat,
                                      colors: seq<Color>, rest: seq<Entry>)
    requires Placeable(lists, group, before, w) && |colors| == |lists| && StackInRange(|lists|, rest)
    requires u < |lists| && u in before && colors[w] != Visited && Tidy(colors, rest + [Entry(u, false)], w)
    requires var stack := rest + [Entry(u, false)];
      Walk(lists, colors, stack).Some? && AtMostFirst(First(lists, group, colors, stack), w)
    ensures PushAll(lists[u], colors, rest + [Entry(u, true)]).Some? && ListsInRange(WithLater(lists, before, w))
    ensures var after := PushAll(lists[u], colors, rest + [Entry(u, true)]).value;
      && |after.0| == |lists| && StackInRange(|lists|, after.1) && Walk(lists, after.0, after.1).Some?
      && !On(after.1, w)
      && Walk(WithLater(lists, before, w), colors, rest + [Entry(u, false)])
         == Walk(WithLater(lists, before, w), after.0[w := Visited], after.1)
  {
    var lists', entered := WithLater(lists, before, w), rest + [Entry(u, true)];
    LaterRange(lists, before, w);
    WalkEnters(lists, colors, rest, u);
    var after := PushAll(lists[u], colors, entered).value;
    assert (rest + [Entry(u, false)])[|rest| := Entry(u, true)] == entered;
    PushGrows(lists[u], colors, entered);
    assert after.1[|rest|] == after.1[..|entered|][|rest|];
    EnterTidy(lists, colors, rest, u, w);
    NotBelow(lists, group, before, w, u, after.0, after.1, |rest|);
    assert after.0[w] == NotVisited;
    PushConcat(lists[u], [w], colors, entered);
    assert PushAll([w], after.0, after.1) == Some((after.0[w := InStack], after.1 + [Entry(w, false)])) by {
      assert [w][1..] == [];
    }
    WalkEnters(lists', colors, rest, u);
    SinkDone(lists', after.0[w := InStack], after.1, w);
    assert after.0[w := InStack][w := Visited] == after.0[w := Visited];
  }

  /** What `WalkLater` needs of a state. */
  ghost predicate Before(lists: seq<seq<nat>>, group: set<nat>, before: set<nat>, w: nat, colors: seq<Color>,
                         stack: seq<Entry>)
  {
    && Placeable(lists, group, before, w) && |colors| == |lists| && StackInRange(|lists|, stack)
    && colors[w] != Visited && Tidy(colors, stack, w) && Walk(lists, colors, stack).Some?
    && AtMostFirst(First(lists, group, colors, stack), w)
  }

  lemma {:induction false} BeforePop(lists: seq<seq<nat>>, group: set<nat>, before: set<nat>, w: nat, u: nat,
                                     colors: seq<Color>, rest: seq<Entry>)
    requires Before(lists, group, before, w, colors, rest + [Entry(u, true)]) && u < |lists|
    ensures Walk(lists, colors, rest + [Entry(u, true)]) == Walk(lists, colors[u := Visited], rest)
    ensures u == w ==> !On(rest, w)
    ensures u != w ==> Before(lists, group, before, w, colors[u := Visited], rest)
  {
    var stack := rest + [Entry(u, true)];
    assert stack[..|rest|] == rest;
    PopTidy(colors, rest, u, w);
  }

  lemma {:induction false} BeforeEnter(lists: seq<seq<nat>>, group: set<nat>, before: set<nat>, w: nat, u: nat,
                                       colors: seq<Color>, rest: seq<Entry>)
    requires Before(lists, group, before, w, colors, rest + [Entry(u, false)]) && u < |lists|
    requires StackInRange(|lists|, rest)
    ensures PushAll(lists[u], colors, rest + [Entry(u, true)]).Some?
    ensures var after := PushAll(lists[u], colors, rest + [Entry(u, true)]).value;
      && Before(lists, group, before, w, after.0, after.1)
      && Walk(lists, colors, rest + [Entry(u, false)]) == Walk(lists, after.0, after.1)
  {
    var entered := rest + [Entry(u, true)];
    assert (rest + [Entry(u, false)])[|rest| := Entry(u, true)] == entered;
    EnterShrinks(lists, colors, rest, u);
    EnterTidy(lists, colors, rest, u, w);
    PushGrows(lists[u], colors, entered);
  }

  lemma {:induction false} PopLater(lists: seq<seq<nat>>, before: set<nat>, w: nat, colors: seq<Color>,
                                    rest: seq<Entry>)
    requires ListsInRange(lists) && |colors| == |lists| && StackInRange(|lists|, rest)
    requires w < |lists| && lists[w] == [] && w !in before && !On(rest, w)
    requires Walk(lists, colors[w := Visited], rest).Some?
    ensures ListsInRange(WithLater(lists, before, w))
    ensures Walk(WithLater(lists, before, w), colors[w := Visited], rest)
         == Some(Walk(lists, colors[w := Visited], rest).value[w := Visited])
  {
    WalkEarly(lists, before, w, colors[w := Visited], rest);
    WithoutNone(rest, w);
    assert colors[w := Visited][w := Visited] == colors[w := Visited];
  }

  lemma {:induction false} BranchEarly(lists: seq<seq<nat>>, group: set<nat>, before: set<nat>, w: nat, u: nat,
                                       colors: seq<Color>, rest: seq<Entry>)
    requires Before(lists, group, before, w, colors, rest + [Entry(u, false)]) && u < |lists| && u in before
    ensures ListsInRange(WithLater(lists, before, w))
    ensures Walk(WithLater(lists, before, w), colors, rest + [Entry(u, false)])
         == Some(Walk(lists, colors, rest + [Entry(u, false)]).value[w := Visited])
  {
    assert StackInRange(|lists|, rest) by {
      assert forall j :: 0 <= j < |rest| ==> rest[j] == (rest + [Entry(u, false)])[j];
    }
    EnterLater(lists, group, before, w, u, colors, rest);
    WalkEnters(lists, colors, rest, u);
    var after := PushAll(lists[u], colors, rest + [Entry(u, true)]).value;
    WalkEarly(lists, before, w, after.0, after.1);
    WithoutNone(after.1, w);
  }

  /** Until `w` is finished the search is the same; with a new edge to it, it may be finished early. */
  lemma {:induction false} WalkLater(lists: seq<seq<nat>>, group: set<nat>, before: set<nat>, w: nat,
                                     colors: seq<Color>, stack: seq<Entry>) returns (early: bool)
    requires Before(lists, group, before, w, colors, stack)
    ensures ListsInRange(WithLater(lists, before, w))
    ensures Walk(WithLater(lists, before, w), colors, stack)
         == Some(if early then Walk(lists, colors, stack).value[w := Visited] else Walk(lists, colors, stack).value)
    decreases White(colors), Unconsidered(stack), |stack|
  {
    var lists' := WithLater(lists, before, w);
    LaterRange(lists, before, w);
    early := false;
    if stack != [] {
      var rest, u := stack[..|stack| - 1], stack[|stack| - 1].event;
      if stack[|stack| - 1].considered {
        assert stack == rest + [Entry(u, true)];
        BeforePop(lists, group, before, w, u, colors, rest);
        WalkPops(lists', colors, rest, u);
        if u == w {
          PopLater(lists, before, w, colors, rest);
          early := true;
        } else {
          PopShrinks(colors, rest, u);
          early := WalkLater(lists, group, before, w, colors[u := Visited], rest);
        }
      } else {
        assert stack == rest + [Entry(u, false)];
        if u in before {
          BranchEarly(lists, group, before, w, u, colors, rest);
          early := true;
        } else {
          BeforeEnter(lists, group, before, w, u, colors, rest);
          EnterShrinks(lists, colors, rest, u);
          WalkEnters(lists', colors, rest, u);
          var after := PushAll(lists[u], colors, rest + [Entry(u, true)]).value;
          early := WalkLater(lists, group, before, w, after.0, after.1);
        }
      }
    }
  }

  /** The first event of the group is finished at the end. */
  lemma {:induction false} FirstFinished(lists: seq<seq<nat>>, group: set<nat>, w: nat, colors: seq<Color>,
                                         stack: seq<Entry>)
    requires ListsInRange(lists) && |colors| == |lists| && StackInRange(|lists|, stack)
    requires w < |lists| && lists[w] == [] && w in group && Tidy(colors, stack, w)
    requires Walk(lists, colors, stack).Some? && First(lists, group, colors, stack) == Some(w)
    ensures Walk(lists, colors, stack).value[w] == Visited
    decreases White(colors), Unconsidered(stack), |stack|
  {
    var rest, u := stack[..|stack| - 1], stack[|stack| - 1].event;
    if stack[|stack| - 1].considered {
      assert stack == rest + [Entry(u, true)];
      PopShrinks(colors, rest, u);
      PopTidy(colors, rest, u, w);
      if u in group {
        TidyEnd(lists, w, colors[u := Visited], rest);
      } else {
        FirstFinished(lists, group, w, colors[u := Visited], rest);
      }
    } else {
      assert stack == rest + [Entry(u, false)];
      assert stack[|stack| - 1 := Entry(u, true)] == rest + [Entry(u, true)];
      EnterShrinks(lists, colors, rest, u);
      EnterTidy(lists, colors, rest, u, w);
      var after := PushAll(lists[u], colors, rest + [Entry(u, true)]).value;
      FirstFinished(lists, group, w, after.0, after.1);
    }
  }

  lemma {:induction false} WalkAllLater(lists: seq<seq<nat>>, group: set<nat>, before: set<nat>, w: nat,
                                        colors: seq<Color>, e: nat)
    requires Placeable(lists, group, before, w) && |colors| == |lists| && e <= |lists|
    requires colors[w] == NotVisited && Unvisited(group, colors)
    requires WalkAll(lists, colors, e) && FirstOfAll(lists, group, colors, e) == Some(w)
    ensures ListsInRange(WithLater(lists, before, w)) && WalkAll(WithLater(lists, before, w), colors, e)
    decreases |lists| - e
  {
    LaterRange(lists, before, w);
    if colors[e] == Visited {
      WalkAllLater(lists, group, before, w, colors, e + 1);
    } else {
      var root := [Entry(e, false)];
      var early := WalkLater(lists, group, before, w, colors, root);
      var after := Walk(lists, colors, root).value;
      TidyEnd(lists, w, colors, root);
      if First(lists, group, colors, root).Some? {
        FirstFinished(lists, group, w, colors, root);
        WalkAllEarly(lists, before, w, after, e + 1);
        assert after[w := Visited] == after;
      } else {
        NoFirst(lists, group, colors, root);
        if early {
          WalkAllEarly(lists, before, w, after, e + 1);
        } else {
          WalkAllLater(lists, group, before, w, after, e + 1);
        }
      }
    }
  }

  lemma Member(targets: seq<nat>) returns (b: nat)
    requires targets != []
    ensures b in targets
  {
    b := targets[0];
  }

  /** Every group of an accepted graph has an event without successors in the group to which edges from the rest of the
      group may be added, whichever they are: the graph stays accepted. */
  lemma {:induction false} SafeTarget(lists: seq<seq<nat>>, group: set<nat>, v: nat) returns (w: nat)
    requires AcceptedLists(lists) && v in group && v < |lists|
    requires forall a, b :: a in group && a < |lists| && b in lists[a] ==> b in group
    ensures w < |lists| && w in group && lists[w] == []
    ensures forall before: set<nat> :: Placeable(lists, group, before, w) ==> AcceptedLists(WithLater(lists, before, w))
  {
    var colors := Uncolored(|lists|);
    FirstExists(lists, group, colors, 0, v);
    w := FirstOfAll(lists, group, colors, 0).value;
    FirstOfAllIsSink(lists, group, colors, 0, w);
    if lists[w] != [] {
      var b := Member(lists[w]);
      assert false;
    }
    forall before: set<nat> | Placeable(lists, group, before, w) ensures AcceptedLists(WithLater(lists, before, w)) {
      WalkAllLater(lists, group, before, w, colors, 0);
    }
  }
}

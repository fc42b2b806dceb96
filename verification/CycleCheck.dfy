/** The depth-first check that the modification order is acyclic. */
module CycleCheck {
  import opened Options
  import opened Relations
  import opened MemoryGraph

  datatype Color = NotVisited | InStack | Visited

  /** A stack entry; `considered` ones wait for the entries above them. */
  datatype Entry = Entry(event: nat, considered: bool)

  ghost predicate Linked(edges: seq<Edge>, outs: seq<seq<nat>>) {
    InRange(|outs|, edges) && forall a: nat {:trigger Outgoing(edges, a)} :: a < |outs| ==>
      outs[a] == Outgoing(edges, a)
  }

  ghost predicate Successor(edges: seq<Edge>, a: nat, b: nat) {
    Edge(Mo, a, b) in edges
  }

  // ---- Finished nodes ----------------------------------------------------------------------------------

  /** `order` lists the visited nodes, each after its successors. */
  ghost predicate Finished(edges: seq<Edge>, colors: seq<Color>, order: seq<nat>) {
    && (forall k :: 0 <= k < |order| ==> order[k] < |colors| && colors[order[k]] == Visited)
    && (forall v: nat :: v < |colors| && colors[v] == Visited ==> v in order)
    && (forall k, b: nat :: 0 <= k < |order| && Successor(edges, order[k], b) ==> b in order[..k])
  }

  ghost function Position(order: seq<nat>, v: nat): int {
    if v !in order then 0 else if order[0] == v then 0 else 1 + Position(order[1..], v)
  }

  lemma {:induction false} PositionFirst(order: seq<nat>, v: nat)
    requires v in order
    ensures 0 <= Position(order, v) < |order| && order[Position(order, v)] == v
    ensures v !in order[..Position(order, v)]
  {
    if order[0] != v {
      PositionFirst(order[1..], v);
      assert order[..Position(order, v)] == [order[0]] + order[1..][..Position(order[1..], v)];
    }
  }

  lemma {:induction false} PositionBefore(order: seq<nat>, v: nat, k: nat)
    requires k <= |order| && v in order[..k]
    ensures Position(order, v) < k
  {
    if order[0] != v {
      assert order[1..][..k - 1] == order[..k][1..];
      PositionBefore(order[1..], v, k - 1);
    }
  }

  lemma FinishedAcyclic(edges: seq<Edge>, colors: seq<Color>, order: seq<nat>)
    requires InRange(|colors|, edges) && Finished(edges, colors, order)
    requires forall v: nat :: v < |colors| ==> colors[v] == Visited
    ensures Acyclic(MoPairs(edges))
  {
    var rank := (v: nat) => -Position(order, v);
    forall a, b | (a, b) in MoPairs(edges) ensures rank(a) < rank(b) {
      assert Successor(edges, a, b);
      PositionFirst(order, a);
      PositionBefore(order, b, Position(order, a));
    }
    RankedAcyclic(MoPairs(edges), rank);
  }

  // ---- The stack ------------------------------------------------------------------------------------------

  ghost predicate OnStackAbove(stack: seq<Entry>, j: int, v: nat) {
    exists k :: j < k < |stack| && k >= 0 && stack[k].event == v
  }

  /** Every successor of a considered entry is visited or above it. */
  ghost predicate Covered(edges: seq<Edge>, colors: seq<Color>, stack: seq<Entry>, j: nat)
    requires j < |stack| && InRange(|colors|, edges)
  {
    stack[j].considered ==>
      forall b: nat :: Successor(edges, stack[j].event, b) ==> colors[b] == Visited || OnStackAbove(stack, j, b)
  }

  /** The stack during the search. The lowest `m` entries have had their edges followed if considered. */
  ghost predicate Stacked(edges: seq<Edge>, colors: seq<Color>, stack: seq<Entry>, m: int) {
    && InRange(|colors|, edges)
    && (forall j :: 0 <= j < |stack| ==> stack[j].event < |colors|)
    && (forall j :: 0 <= j < m <= |stack| ==> Covered(edges, colors, stack, j))
    && (forall v: nat :: v < |colors| && colors[v] == InStack ==> OnStackAbove(stack, -1, v))
  }

  /** Where the entries came from: `via[j]` is the edge that pushed entry `j`, and `parent[j]` its origin. Entries
      between an entry and its parent are siblings pushed earlier. */
  ghost predicate Lineage(edges: seq<Edge>, stack: seq<Entry>, parent: seq<nat>, via: seq<nat>) {
    && |parent| == |stack| == |via|
    && forall j :: 0 < j < |stack| ==> Descends(edges, stack, parent, via, j)
  }

  ghost predicate Descends(edges: seq<Edge>, stack: seq<Entry>, parent: seq<nat>, via: seq<nat>, j: nat)
    requires |parent| == |stack| == |via| && j < |stack|
  {
    && parent[j] < j && via[j] < |edges| && edges[via[j]] == Edge(Mo, stack[parent[j]].event, stack[j].event)
    && stack[parent[j]].considered
    && forall k :: parent[j] < k < j ==> parent[k] == parent[j] && !stack[k].considered && via[k] < via[j]
  }

  /** Two modification-order edges leave one event, and the target of the later one leads to, or is, that of the
      earlier. */
  ghost predicate Shortcut(edges: seq<Edge>) {
    exists i, j :: 0 <= i < j < |edges| && Bypasses(edges, i, j)
  }

  ghost predicate Bypasses(edges: seq<Edge>, i: nat, j: nat)
    requires i < |edges| && j < |edges|
  {
    && edges[i].kind.Mo? && edges[j].kind.Mo? && edges[i].from == edges[j].from
    && (edges[j].to == edges[i].to || Plus(MoPairs(edges), edges[j].to, edges[i].to))
  }

  /** Reaching an entry lower in the stack closes a cycle or bypasses an edge. */
  lemma {:induction false} ReachesBelow(edges: seq<Edge>, stack: seq<Entry>, parent: seq<nat>, via: seq<nat>, i: nat,
                                        j: nat)
    requires Lineage(edges, stack, parent, via) && i < j < |stack|
    requires Plus(MoPairs(edges), stack[j].event, stack[i].event)
    ensures !Acyclic(MoPairs(edges)) || Shortcut(edges)
    decreases j
  {
    assert Descends(edges, stack, parent, via, j);
    var p := parent[j];
    var mo := MoPairs(edges);
    assert (stack[p].event, stack[j].event) in mo;
    PlusEdge(mo, stack[p].event, stack[j].event);
    PlusTrans(mo, stack[p].event, stack[j].event, stack[i].event);
    if p < i {
      assert Descends(edges, stack, parent, via, i);
      assert Bypasses(edges, via[i], via[j]);
    } else if i < p {
      ReachesBelow(edges, stack, parent, via, i, p);
    }
  }

  // ---- The search -------------------------------------------------------------------------------------------

  ghost function White(colors: seq<Color>): set<nat> {
    set v: nat | v < |colors| && colors[v] == NotVisited
  }

  ghost function Unconsidered(stack: seq<Entry>): set<nat> {
    set j: nat | j < |stack| && !stack[j].considered
  }

  /** The search as a function: what is left to do from here, or None when it meets an event in the stack. */
  ghost function Follow(edges: seq<Edge>, ids: seq<nat>, i: nat, colors: seq<Color>,
                        stack: seq<Entry>): Option<(seq<Color>, seq<Entry>)>
    requires InRange(|colors|, edges) && IdsInRange(|edges|, ids) && i <= |ids|
    decreases |ids| - i
  {
    if i == |ids| then Some((colors, stack))
    else
      var edge := edges[ids[i]];
      assert edge in edges;
      if !edge.kind.Mo? || colors[edge.to] == Visited then Follow(edges, ids, i + 1, colors, stack)
      else if colors[edge.to] == InStack then None
      else Follow(edges, ids, i + 1, colors[edge.to := InStack], stack + [Entry(edge.to, false)])
  }

  lemma {:induction false} FollowShrinks(edges: seq<Edge>, ids: seq<nat>, i: nat, colors: seq<Color>, stack: seq<Entry>)
    requires InRange(|colors|, edges) && IdsInRange(|edges|, ids) && i <= |ids| && StackInRange(|colors|, stack)
    requires Follow(edges, ids, i, colors, stack).Some?
    ensures var after := Follow(edges, ids, i, colors, stack).value;
            && |after.0| == |colors| && StackInRange(|colors|, after.1)
            && (White(after.0) < White(colors) || after == (colors, stack))
    decreases |ids| - i
  {
    if i < |ids| {
      var edge := edges[ids[i]];
      assert edge in edges;
      if !edge.kind.Mo? || colors[edge.to] == Visited {
        FollowShrinks(edges, ids, i + 1, colors, stack);
      } else {
        assert edge.to in White(colors) && edge.to !in White(colors[edge.to := InStack]);
        FollowShrinks(edges, ids, i + 1, colors[edge.to := InStack], stack + [Entry(edge.to, false)]);
      }
    }
  }

  ghost predicate StackInRange(n: nat, stack: seq<Entry>) {
    forall j :: 0 <= j < |stack| ==> stack[j].event < n
  }

  ghost function Explore(edges: seq<Edge>, outs: seq<seq<nat>>, colors: seq<Color>,
                         stack: seq<Entry>): (r: Option<seq<Color>>)
    requires Linked(edges, outs) && |colors| == |outs| && StackInRange(|outs|, stack)
    ensures r.Some? ==> |r.value| == |colors|
    decreases White(colors), Unconsidered(stack), |stack|
  {
    if stack == [] then Some(colors)
    else
      var last := |stack| - 1;
      var u := stack[last].event;
      if stack[last].considered then
        assert White(colors[u := Visited]) <= White(colors) && Unconsidered(stack[..last]) <= Unconsidered(stack);
        Explore(edges, outs, colors[u := Visited], stack[..last])
      else
        OutgoingInRange(edges, u);
        var entered := stack[last := Entry(u, true)];
        var after := Follow(edges, outs[u], 0, colors, entered);
        if after.None? then None
        else
          FollowShrinks(edges, outs[u], 0, colors, entered);
          assert last in Unconsidered(stack) && last !in Unconsidered(entered)
            && Unconsidered(entered) <= Unconsidered(stack);
          Explore(edges, outs, after.value.0, after.value.1)
  }

  /** The verdict of the search over the events from `e` on. */
  ghost predicate Accepts(edges: seq<Edge>, outs: seq<seq<nat>>, colors: seq<Color>, e: nat)
    requires Linked(edges, outs) && |colors| == |outs| && e <= |outs|
    decreases |outs| - e
  {
    if e == |outs| then true
    else if colors[e] == Visited then Accepts(edges, outs, colors, e + 1)
    else
      var after := Explore(edges, outs, colors, [Entry(e, false)]);
      after.Some? && Accepts(edges, outs, after.value, e + 1)
  }

  function Uncolored(n: nat): seq<Color> { seq(n, _ => NotVisited) }

  // ---- What an outcome means -----------------------------------------------------------------------------------

  lemma {:induction false} OutgoingSorted(edges: seq<Edge>, a: nat, i: nat, j: nat)
    requires i < j < |Outgoing(edges, a)|
    ensures Outgoing(edges, a)[i] < Outgoing(edges, a)[j] < |edges|
  {
    OutgoingExact(edges, a, Outgoing(edges, a)[j]);
    var last := |edges| - 1;
    var before := Outgoing(edges[..last], a);
    OutgoingExact(edges[..last], a, before[i]);
    if j < |before| { OutgoingSorted(edges[..last], a, i, j); }
  }

  /** Pushing an unvisited successor keeps what is known of the stack. */
  lemma PushStacked(edges: seq<Edge>, colors: seq<Color>, stack: seq<Entry>, m: int, v: nat)
    requires Stacked(edges, colors, stack, m) && 0 <= m <= |stack| && v < |colors| && colors[v] == NotVisited
    ensures Stacked(edges, colors[v := InStack], stack + [Entry(v, false)], m)
  {
    var colors', stack' := colors[v := InStack], stack + [Entry(v, false)];
    forall j | 0 <= j < m ensures Covered(edges, colors', stack', j) {
      assert Covered(edges, colors, stack, j);
      forall b: nat | Successor(edges, stack[j].event, b) && stack[j].considered
        ensures colors'[b] == Visited || OnStackAbove(stack', j, b)
      {
        if OnStackAbove(stack, j, b) { Above(stack, Entry(v, false), j, b); }
      }
    }
    forall x: nat | x < |colors| && colors'[x] == InStack ensures OnStackAbove(stack', -1, x) {
      if x == v { assert stack'[|stack|].event == v; } else { Above(stack, Entry(v, false), -1, x); }
    }
  }

  lemma Above(stack: seq<Entry>, top: Entry, j: int, v: nat)
    requires OnStackAbove(stack, j, v)
    ensures OnStackAbove(stack + [top], j, v)
  {
    var k :| j < k < |stack| && k >= 0 && stack[k].event == v;
    assert (stack + [top])[k].event == v;
  }

  lemma PushLineage(edges: seq<Edge>, stack: seq<Entry>, parent: seq<nat>, via: seq<nat>, p: nat, id: nat)
    requires Lineage(edges, stack, parent, via) && p < |stack| && stack[p].considered
    requires id < |edges| && edges[id].kind.Mo? && edges[id].from == stack[p].event
    requires forall k :: p < k < |stack| ==> parent[k] == p && !stack[k].considered && via[k] < id
    ensures Lineage(edges, stack + [Entry(edges[id].to, false)], parent + [p], via + [id])
  {
    var stack', parent', via' := stack + [Entry(edges[id].to, false)], parent + [p], via + [id];
    forall j | 0 < j < |stack'| ensures Descends(edges, stack', parent', via', j) {
      if j < |stack| { assert Descends(edges, stack, parent, via, j); }
    }
  }

  lemma {:induction false} PushChild(edges: seq<Edge>, ids: seq<nat>, colors: seq<Color>, stack: seq<Entry>,
                                     parent: seq<nat>, via: seq<nat>, top: nat, i: nat)
    requires top < |stack| && stack[top].considered && ids == Outgoing(edges, stack[top].event) && i < |ids|
    requires Stacked(edges, colors, stack, top) && Lineage(edges, stack, parent, via)
    requires forall k :: top < k < |stack| ==> parent[k] == top && !stack[k].considered && via[k] in ids[..i]
    requires ids[i] < |edges| && edges[ids[i]].kind.Mo? && edges[ids[i]].to < |colors|
      && colors[edges[ids[i]].to] == NotVisited
    ensures var v := edges[ids[i]].to;
            var colors', stack' := colors[v := InStack], stack + [Entry(v, false)];
            && Stacked(edges, colors', stack', top) && Lineage(edges, stack', parent + [top], via + [ids[i]])
            && (forall x: nat :: OnStackAbove(stack, top, x) ==> OnStackAbove(stack', top, x))
               && OnStackAbove(stack', top, v)
            && White(colors') < White(colors)
  {
    var v, u := edges[ids[i]].to, stack[top].event;
    OutgoingExact(edges, u, ids[i]);
    forall k | top < k < |stack| ensures via[k] < ids[i] {
      assert via[k] in ids[..i];
      var n :| 0 <= n < i && ids[n] == via[k];
      OutgoingSorted(edges, u, n, i);
    }
    PushStacked(edges, colors, stack, top, v);
    PushLineage(edges, stack, parent, via, top, ids[i]);
    forall x: nat | OnStackAbove(stack, top, x) ensures OnStackAbove(stack + [Entry(v, false)], top, x) {
      Above(stack, Entry(v, false), top, x);
    }
    assert (stack + [Entry(v, false)])[|stack|].event == v;
    assert v in White(colors) && v !in White(colors[v := InStack]);
  }

  lemma ConsiderTop(edges: seq<Edge>, colors: seq<Color>, stack: seq<Entry>, stack': seq<Entry>)
    requires stack != [] && Stacked(edges, colors, stack, |stack|)
    requires stack' == stack[|stack| - 1 := Entry(stack[|stack| - 1].event, true)]
    ensures Stacked(edges, colors, stack', |stack| - 1)
  {
    forall j | 0 <= j < |stack| - 1 ensures Covered(edges, colors, stack', j) {
      assert Covered(edges, colors, stack, j);
      SameEvents(stack, stack', j);
    }
    SameEvents(stack, stack', -1);
  }

  lemma SameEvents(stack: seq<Entry>, stack': seq<Entry>, j: int)
    requires |stack| == |stack'| && forall k :: 0 <= k < |stack| ==> stack[k].event == stack'[k].event
    ensures forall v: nat :: OnStackAbove(stack, j, v) ==> OnStackAbove(stack', j, v)
  {
    forall v: nat | OnStackAbove(stack, j, v) ensures OnStackAbove(stack', j, v) {
      var k :| j < k < |stack| && k >= 0 && stack[k].event == v;
      assert stack'[k].event == v;
    }
  }

  lemma ConsiderLineage(edges: seq<Edge>, stack: seq<Entry>, stack': seq<Entry>, parent: seq<nat>, via: seq<nat>)
    requires stack != [] && Lineage(edges, stack, parent, via)
    requires stack' == stack[|stack| - 1 := Entry(stack[|stack| - 1].event, true)]
    ensures Lineage(edges, stack', parent, via)
  {
    forall j | 0 < j < |stack'| ensures Descends(edges, stack', parent, via, j) {
      assert Descends(edges, stack, parent, via, j);
    }
  }

  /** A considered entry on top has only visited successors, and becomes visited itself. */
  lemma LeaveTop(edges: seq<Edge>, colors: seq<Color>, stack: seq<Entry>, order: seq<nat>) returns (order': seq<nat>)
    requires stack != [] && stack[|stack| - 1].considered && Stacked(edges, colors, stack, |stack|)
    requires Finished(edges, colors, order)
    ensures Stacked(edges, colors[stack[|stack| - 1].event := Visited], stack[..|stack| - 1], |stack| - 1)
    ensures Finished(edges, colors[stack[|stack| - 1].event := Visited], order')
  {
    var last := |stack| - 1;
    var u := stack[last].event;
    var colors' := colors[u := Visited];
    order' := if u in order then order else order + [u];
    assert Covered(edges, colors, stack, last);
    assert forall b: nat :: !OnStackAbove(stack, last, b);
    forall j | 0 <= j < last ensures Covered(edges, colors', stack[..last], j) {
      assert Covered(edges, colors, stack, j);
      BelowTop(stack, j);
    }
    BelowTop(stack, -1);
    forall k, b: nat | 0 <= k < |order'| && Successor(edges, order'[k], b) ensures b in order'[..k] {
      if k < |order| {
        assert order'[..k] == order[..k];
      } else {
        assert order'[..k] == order;
      }
    }
  }

  lemma BelowTop(stack: seq<Entry>, j: int)
    requires stack != []
    ensures forall v: nat :: OnStackAbove(stack, j, v) ==>
      v == stack[|stack| - 1].event || OnStackAbove(stack[..|stack| - 1], j, v)
  {
    var last := |stack| - 1;
    forall v: nat | OnStackAbove(stack, j, v) && v != stack[last].event ensures OnStackAbove(stack[..last], j, v) {
      var k :| j < k < |stack| && k >= 0 && stack[k].event == v;
      assert stack[..last][k].event == v;
    }
  }

  lemma PopLineage(edges: seq<Edge>, stack: seq<Entry>, parent: seq<nat>, via: seq<nat>)
    requires stack != [] && Lineage(edges, stack, parent, via)
    ensures Lineage(edges, stack[..|stack| - 1], parent[..|stack| - 1], via[..|stack| - 1])
  {
    var last := |stack| - 1;
    forall j | 0 < j < last ensures Descends(edges, stack[..last], parent[..last], via[..last], j) {
      assert Descends(edges, stack, parent, via, j);
    }
  }

  /** The search after following the first `i` edges of the event that was on top of `stack`. */
  ghost predicate Entering(edges: seq<Edge>, ids: seq<nat>, i: nat, colors: seq<Color>, stack: seq<Entry>,
                           colors': seq<Color>, stack': seq<Entry>, parent: seq<nat>, via: seq<nat>)
  {
    var top := |stack| - 1;
    && stack != [] && stack[top].considered && ids == Outgoing(edges, stack[top].event) && i <= |ids|
       && IdsInRange(|edges|, ids)
    && Stacked(edges, colors', stack', top) && Lineage(edges, stack', parent, via)
    && |colors'| == |colors| && (forall v :: 0 <= v < |colors| && colors[v] != NotVisited ==> colors'[v] == colors[v])
    && (forall v :: 0 <= v < |colors| && colors'[v] == Visited ==> colors[v] == Visited)
    && |stack| <= |stack'| && stack'[..|stack|] == stack
    && (White(colors') < White(colors) || (colors' == colors && stack' == stack))
    && (forall k :: top < k < |stack'| ==> parent[k] == top && !stack'[k].considered && via[k] in ids[..i])
    && (forall k :: 0 <= k < i && edges[ids[k]].kind.Mo? ==>
          edges[ids[k]].to < |colors'| && (colors'[edges[ids[k]].to] == Visited
                                           || OnStackAbove(stack', top, edges[ids[k]].to)))
  }

  lemma {:induction false} EnterSkip(edges: seq<Edge>, ids: seq<nat>, i: nat, colors: seq<Color>, stack: seq<Entry>,
                  colors': seq<Color>, stack': seq<Entry>, parent: seq<nat>, via: seq<nat>)
    requires Entering(edges, ids, i, colors, stack, colors', stack', parent, via) && i < |ids|
    requires var edge := edges[ids[i]]; edge.to < |colors'| && (!edge.kind.Mo? || colors'[edge.to] == Visited)
    ensures Entering(edges, ids, i + 1, colors, stack, colors', stack', parent, via)
  {
    assert ids[..i + 1] == ids[..i] + [ids[i]];
  }

  lemma {:induction false} EnterPush(edges: seq<Edge>, ids: seq<nat>, i: nat, colors: seq<Color>, stack: seq<Entry>,
                  colors': seq<Color>, stack': seq<Entry>, parent: seq<nat>, via: seq<nat>)
    requires Entering(edges, ids, i, colors, stack, colors', stack', parent, via) && i < |ids|
    requires var edge := edges[ids[i]]; edge.to < |colors'| && edge.kind.Mo? && colors'[edge.to] == NotVisited
    ensures var v := edges[ids[i]].to;
      Entering(edges, ids, i + 1, colors, stack, colors'[v := InStack], stack' + [Entry(v, false)],
               parent + [|stack| - 1], via + [ids[i]])
  {
    assert stack'[..|stack|][|stack| - 1] == stack[|stack| - 1];
    PushChild(edges, ids, colors', stack', parent, via, |stack| - 1, i);
    assert ids[..i + 1] == ids[..i] + [ids[i]];
  }

  lemma AllFollowed(edges: seq<Edge>, ids: seq<nat>, colors: seq<Color>, stack: seq<Entry>, j: nat)
    requires j < |stack| && ids == Outgoing(edges, stack[j].event) && IdsInRange(|edges|, ids)
      && InRange(|colors|, edges)
    requires forall k :: 0 <= k < |ids| && edges[ids[k]].kind.Mo? ==>
      edges[ids[k]].to < |colors| && (colors[edges[ids[k]].to] == Visited || OnStackAbove(stack, j, edges[ids[k]].to))
    ensures Covered(edges, colors, stack, j)
  {
    forall b: nat | Successor(edges, stack[j].event, b) ensures colors[b] == Visited || OnStackAbove(stack, j, b) {
      var id :| 0 <= id < |edges| && edges[id] == Edge(Mo, stack[j].event, b);
      OutgoingExact(edges, stack[j].event, id);
      var k :| 0 <= k < |ids| && ids[k] == id;
    }
  }

  lemma Rejected(edges: seq<Edge>, ids: seq<nat>, colors: seq<Color>, stack: seq<Entry>, parent: seq<nat>,
                 via: seq<nat>, top: nat, i: nat)
    requires top < |stack| && ids == Outgoing(edges, stack[top].event) && i < |ids|
    requires Stacked(edges, colors, stack, top) && Lineage(edges, stack, parent, via)
    requires forall k :: top < k < |stack| ==> parent[k] == top && via[k] in ids[..i]
    requires ids[i] < |edges| && edges[ids[i]].kind.Mo? && edges[ids[i]].to < |colors|
      && colors[edges[ids[i]].to] == InStack
    ensures !Acyclic(MoPairs(edges)) || Shortcut(edges)
  {
    var u, v := stack[top].event, edges[ids[i]].to;
    OutgoingExact(edges, u, ids[i]);
    assert OnStackAbove(stack, -1, v);
    var k :| -1 < k < |stack| && stack[k].event == v;
    assert (u, v) in MoPairs(edges);
    PlusEdge(MoPairs(edges), u, v);
    if k < top {
      ReachesBelow(edges, stack, parent, via, k, top);
    } else if k > top {
      assert Descends(edges, stack, parent, via, k);
      var n :| 0 <= n < i && ids[n] == via[k];
      OutgoingSorted(edges, u, n, i);
      assert Bypasses(edges, via[k], ids[i]);
    }
  }

  lemma {:induction false} EnterReject(edges: seq<Edge>, ids: seq<nat>, i: nat, colors: seq<Color>, stack: seq<Entry>,
                                       colors': seq<Color>, stack': seq<Entry>, parent: seq<nat>, via: seq<nat>)
    requires Entering(edges, ids, i, colors, stack, colors', stack', parent, via) && i < |ids|
    requires var edge := edges[ids[i]]; edge.to < |colors'| && edge.kind.Mo? && colors'[edge.to] == InStack
    ensures !Acyclic(MoPairs(edges)) || Shortcut(edges)
  {
    assert stack'[..|stack|][|stack| - 1] == stack[|stack| - 1];
    Rejected(edges, ids, colors', stack', parent, via, |stack| - 1, i);
  }

  /** Following all edges keeps what is known of the stack; meeting an event in the stack shows a cycle or a bypass. */
  lemma {:induction false} FollowOutcome(edges: seq<Edge>, ids: seq<nat>, i: nat, colors: seq<Color>, stack: seq<Entry>,
                                         colors': seq<Color>, stack': seq<Entry>, parent: seq<nat>, via: seq<nat>)
    returns (parent': seq<nat>, via': seq<nat>)
    requires Entering(edges, ids, i, colors, stack, colors', stack', parent, via)
    ensures var r := Follow(edges, ids, i, colors', stack');
            && (r.Some? ==> Entering(edges, ids, |ids|, colors, stack, r.value.0, r.value.1, parent', via'))
            && (r.None? ==> !Acyclic(MoPairs(edges)) || Shortcut(edges))
    decreases |ids| - i
  {
    parent', via' := parent, via;
    if i < |ids| {
      var edge := edges[ids[i]];
      assert edge in edges;
      if edge.kind.Mo? && colors'[edge.to] == InStack {
        EnterReject(edges, ids, i, colors, stack, colors', stack', parent, via);
      } else if edge.kind.Mo? && colors'[edge.to] == NotVisited {
        EnterPush(edges, ids, i, colors, stack, colors', stack', parent, via);
        parent', via' := FollowOutcome(edges, ids, i + 1, colors, stack, colors'[edge.to := InStack],
                                       stack' + [Entry(edge.to, false)], parent + [|stack| - 1], via + [ids[i]]);
      } else {
        EnterSkip(edges, ids, i, colors, stack, colors', stack', parent, via);
        parent', via' := FollowOutcome(edges, ids, i + 1, colors, stack, colors', stack', parent, via);
      }
    }
  }

  /** The search is at `stack`, and has finished the events of `order`. */
  ghost predicate Searching(edges: seq<Edge>, colors: seq<Color>, stack: seq<Entry>,
                            parent: seq<nat>, via: seq<nat>, order: seq<nat>)
  {
    Stacked(edges, colors, stack, |stack|) && Lineage(edges, stack, parent, via) && Finished(edges, colors, order)
  }

  lemma {:induction false} EnterTop(edges: seq<Edge>, outs: seq<seq<nat>>, colors: seq<Color>, stack: seq<Entry>,
                                    parent: seq<nat>, via: seq<nat>, order: seq<nat>)
    returns (parent': seq<nat>, via': seq<nat>)
    requires Linked(edges, outs) && |colors| == |outs| && Searching(edges, colors, stack, parent, via, order)
    requires stack != [] && !stack[|stack| - 1].considered
    ensures IdsInRange(|edges|, outs[stack[|stack| - 1].event])
    ensures var u := stack[|stack| - 1].event;
            var entered := stack[|stack| - 1 := Entry(u, true)];
            var r := Follow(edges, outs[u], 0, colors, entered);
            && (r.None? ==> !Acyclic(MoPairs(edges)) || Shortcut(edges))
            && (r.Some? ==>
                  && Searching(edges, r.value.0, r.value.1, parent', via', order) && |r.value.0| == |colors|
                  && (forall v :: 0 <= v < |colors| && colors[v] == Visited ==> r.value.0[v] == Visited)
                  && r.value.1 != [] && r.value.1[0].event == stack[0].event)
  {
    var top := |stack| - 1;
    var u := stack[top].event;
    var entered := stack[top := Entry(u, true)];
    OutgoingInRange(edges, u);
    ConsiderTop(edges, colors, stack, entered);
    ConsiderLineage(edges, stack, entered, parent, via);
    parent', via' := FollowOutcome(edges, outs[u], 0, colors, entered, colors, entered, parent, via);
    var r := Follow(edges, outs[u], 0, colors, entered);
    if r.Some? {
      EnteredAll(edges, outs[u], colors, entered, r.value.0, r.value.1, parent', via', order);
    }
  }

  lemma {:induction false} EnteredAll(edges: seq<Edge>, ids: seq<nat>, colors: seq<Color>, stack: seq<Entry>,
                                      colors': seq<Color>, stack': seq<Entry>, parent: seq<nat>, via: seq<nat>,
                                        order: seq<nat>)
    requires Entering(edges, ids, |ids|, colors, stack, colors', stack', parent, via) && Finished(edges, colors, order)
    ensures Searching(edges, colors', stack', parent, via, order) && stack' != [] && stack'[0] == stack[0]
  {
    assert stack'[..|stack|][|stack| - 1] == stack[|stack| - 1] && stack'[..|stack|][0] == stack[0];
    AllFollowed(edges, ids, colors', stack', |stack| - 1);
  }

  /** What exploring from `stack` leads to. */
  lemma {:induction false} ExploreOutcome(edges: seq<Edge>, outs: seq<seq<nat>>, colors: seq<Color>, stack: seq<Entry>,
                                          parent: seq<nat>, via: seq<nat>, order: seq<nat>) returns (order': seq<nat>)
    requires Linked(edges, outs) && |colors| == |outs| && Searching(edges, colors, stack, parent, via, order)
    ensures var r := Explore(edges, outs, colors, stack);
            && (r.None? ==> !Acyclic(MoPairs(edges)) || Shortcut(edges))
            && (r.Some? ==> Between(edges, r.value, order') && (stack != [] ==> r.value[stack[0].event] == Visited)
                            && forall v :: 0 <= v < |colors| && colors[v] == Visited ==> r.value[v] == Visited)
    decreases White(colors), Unconsidered(stack), |stack|
  {
    order' := order;
    if stack != [] {
      var last := |stack| - 1;
      var u := stack[last].event;
      if stack[last].considered {
        var order1 := LeaveTop(edges, colors, stack, order);
        PopLineage(edges, stack, parent, via);
        LessWhite(colors, u, Visited);
        Fewer(stack, stack[..last]);
        order' := ExploreOutcome(edges, outs, colors[u := Visited], stack[..last], parent[..last], via[..last], order1);
      } else {
        var parent', via' := EnterTop(edges, outs, colors, stack, parent, via, order);
        var entered := stack[last := Entry(u, true)];
        var after := Follow(edges, outs[u], 0, colors, entered);
        if after.Some? {
          FollowShrinks(edges, outs[u], 0, colors, entered);
          Fewer(stack, entered);
          order' := ExploreOutcome(edges, outs, after.value.0, after.value.1, parent', via', order);
        }
      }
    }
  }

  /** Between the searches from two events nothing is on the stack. */
  ghost predicate Between(edges: seq<Edge>, colors: seq<Color>, order: seq<nat>) {
    Stacked(edges, colors, [], 0) && Finished(edges, colors, order)
  }

  lemma {:induction false} AcceptsOutcome(edges: seq<Edge>, outs: seq<seq<nat>>, colors: seq<Color>, e: nat,
                                          order: seq<nat>)
    requires Linked(edges, outs) && |colors| == |outs| && e <= |outs| && Between(edges, colors, order)
    requires forall v :: 0 <= v < e ==> colors[v] == Visited
    ensures Accepts(edges, outs, colors, e) ==> Acyclic(MoPairs(edges))
    ensures !Accepts(edges, outs, colors, e) ==> !Acyclic(MoPairs(edges)) || Shortcut(edges)
    decreases |outs| - e
  {
    if e == |outs| {
      FinishedAcyclic(edges, colors, order);
    } else if colors[e] == Visited {
      AcceptsOutcome(edges, outs, colors, e + 1, order);
    } else {
      var order' := ExploreOutcome(edges, outs, colors, [Entry(e, false)], [0], [0], order);
      var after := Explore(edges, outs, colors, [Entry(e, false)]);
      if after.Some? { AcceptsOutcome(edges, outs, after.value, e + 1, order'); }
    }
  }

  ghost predicate Consistent(edges: seq<Edge>, outs: seq<seq<nat>>)
    requires Linked(edges, outs)
  {
    Accepts(edges, outs, Uncolored(|outs|), 0)
  }

  /** The graph is one that the check accepts. */
  ghost predicate Passes(g: Graph) {
    Linked(g.edges, g.outs) && Consistent(g.edges, g.outs)
  }

  /** Only acyclic graphs pass. A rejected graph has a cycle, or an edge that a later edge of the same event
      bypasses. */
  lemma ConsistentAcyclic(edges: seq<Edge>, outs: seq<seq<nat>>)
    requires Linked(edges, outs)
    ensures Consistent(edges, outs) ==> Acyclic(MoPairs(edges))
    ensures !Consistent(edges, outs) ==> !Acyclic(MoPairs(edges)) || Shortcut(edges)
  {
    AcceptsOutcome(edges, outs, Uncolored(|outs|), 0, []);
  }

  /** Removing or considering the top leaves fewer entries to consider. */
  lemma Fewer(stack: seq<Entry>, stack': seq<Entry>)
    requires stack != []
    requires || stack' == stack[..|stack| - 1]
             || stack' == stack[|stack| - 1 := Entry(stack[|stack| - 1].event, true)]
    ensures Unconsidered(stack') <= Unconsidered(stack)
    ensures !stack[|stack| - 1].considered ==> Unconsidered(stack') < Unconsidered(stack)
  {
    var last := |stack| - 1;
    assert !stack[last].considered ==> last in Unconsidered(stack) && last !in Unconsidered(stack');
  }

  lemma LessWhite(colors: seq<Color>, v: nat, color: Color)
    requires v < |colors| && color != NotVisited
    ensures White(colors[v := color]) <= White(colors)
  {
  }

  // ---- The check ---------------------------------------------------------------------------------------------------

  /** Follows the edges of the event on top of the stack. */
  method Enter(edges: seq<Edge>, ids: seq<nat>, colors: seq<Color>, stack: seq<Entry>)
    returns (ok: bool, colors': seq<Color>, stack': seq<Entry>)
    requires InRange(|colors|, edges) && IdsInRange(|edges|, ids)
    ensures Follow(edges, ids, 0, colors, stack) == if ok then Some((colors', stack')) else None
  {
    ok, colors', stack' := true, colors, stack;
    for i := 0 to |ids|
      invariant |colors'| == |colors|
      invariant Follow(edges, ids, 0, colors, stack) == Follow(edges, ids, i, colors', stack')
    {
      var edge := edges[ids[i]];
      assert edge in edges;
      if edge.kind.Mo? && colors'[edge.to] == InStack {
        return false, colors', stack';
      } else if edge.kind.Mo? && colors'[edge.to] == NotVisited {
        stack' := stack' + [Entry(edge.to, false)];
        colors' := colors'[edge.to := InStack];
      }
    }
  }

  /** Visits everything the event `e` leads to. */
  method Search(edges: seq<Edge>, outs: seq<seq<nat>>, colors: seq<Color>, e: nat)
    returns (ok: bool, colors': seq<Color>)
    requires Linked(edges, outs) && |colors| == |outs| && e < |outs|
    ensures Explore(edges, outs, colors, [Entry(e, false)]) == if ok then Some(colors') else None
  {
    var stack := [Entry(e, false)];
    colors' := colors;
    while stack != []
      invariant |colors'| == |colors| && StackInRange(|colors|, stack)
      invariant Explore(edges, outs, colors, [Entry(e, false)]) == Explore(edges, outs, colors', stack)
      decreases White(colors'), Unconsidered(stack), |stack|
    {
      var last := |stack| - 1;
      var u := stack[last].event;
      if stack[last].considered {
        LessWhite(colors', u, Visited);
        Fewer(stack, stack[..last]);
        colors', stack := colors'[u := Visited], stack[..last];
      } else {
        var entered := stack[last := Entry(u, true)];
        OutgoingInRange(edges, u);
        Fewer(stack, entered);
        ghost var before := colors';
        ok, colors', stack := Enter(edges, outs[u], colors', entered);
        if !ok {
          return;
        }
        FollowShrinks(edges, outs[u], 0, before, entered);
      }
    }
    ok := true;
  }

  /** Decides `Consistent`, and by it acyclicity up to bypassed edges. */
  method IsConsistent(edges: seq<Edge>, outs: seq<seq<nat>>) returns (ok: bool)
    requires Linked(edges, outs)
    ensures ok <==> Consistent(edges, outs)
    ensures ok ==> Acyclic(MoPairs(edges))
    ensures !ok ==> !Acyclic(MoPairs(edges)) || Shortcut(edges)
  {
    ConsistentAcyclic(edges, outs);
    var colors := Uncolored(|outs|);
    ghost var order: seq<nat> := [];
    for e := 0 to |outs|
      invariant |colors| == |outs| && Between(edges, colors, order)
      invariant Consistent(edges, outs) == Accepts(edges, outs, colors, e)
    {
      assert colors[e] != InStack;
      if colors[e] != Visited {
        order := ExploreOutcome(edges, outs, colors, [Entry(e, false)], [0], [0], order);
        ok, colors := Search(edges, outs, colors, e);
        if !ok {
          return;
        }
      }
    }
    ok := true;
  }
}

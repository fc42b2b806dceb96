/** How the successor lists of the check grow when an operation adds its edges. */
module CycleGrowth {
  import opened Options
  import opened MemoryGraph
  import opened CycleCheck
  import opened CycleWalk
  import opened CycleFirst

  // ---- One more edge --------------------------------------------------------------------------------------------

  lemma {:induction false} TargetsFrame(edges: seq<Edge>, e: Edge, ids: seq<nat>)
    requires IdsInRange(|edges|, ids)
    ensures IdsInRange(|edges| + 1, ids) && Targets(edges + [e], ids) == Targets(edges, ids)
  {
    if ids != [] { TargetsFrame(edges, e, ids[..|ids| - 1]); }
  }

  lemma {:induction false} ListsAdd(edges: seq<Edge>, e: Edge, n: nat, a: nat)
    requires a < n
    ensures Lists(edges + [e], n)[a]
         == if e.kind.Mo? && e.from == a then Lists(edges, n)[a] + [e.to] else Lists(edges, n)[a]
  {
    var ids := Outgoing(edges, a);
    assert (edges + [e])[..|edges|] == edges;
    assert Outgoing(edges + [e], a) == ids + if e.from == a then [|edges|] else [];
    OutgoingInRange(edges, a);
    TargetsFrame(edges, e, ids);
    if e.from == a {
      assert (ids + [|edges|])[..|ids|] == ids;
    } else {
      assert Outgoing(edges + [e], a) == ids;
    }
  }

  /** The lists hold exactly the modification-order edges. */
  lemma {:induction false} ListsMember(edges: seq<Edge>, n: nat, a: nat, b: nat)
    requires a < n
    ensures b in Lists(edges, n)[a] <==> Edge(Mo, a, b) in edges
  {
    if edges == [] {
      assert Outgoing(edges, a) == [];
    } else {
      var last := |edges| - 1;
      assert edges == edges[..last] + [edges[last]];
      ListsMember(edges[..last], n, a, b);
      ListsAdd(edges[..last], edges[last], n, a);
    }
  }

  /** The lists of a graph. */
  ghost function ListsOf(g: Graph): seq<seq<nat>> { Lists(g.edges, |g.outs|) }

  lemma {:induction false} AddEdgeLists(g: Graph, e: Edge, a: nat)
    requires e.from < |g.outs| && a < |g.outs|
    ensures ListsOf(AddEdge(g, e))[a]
         == if e.kind.Mo? && e.from == a && e.to !in ListsOf(g)[a] then ListsOf(g)[a] + [e.to] else ListsOf(g)[a]
  {
    ListsAdd(g.edges, e, |g.outs|, a);
    ListsMember(g.edges, |g.outs|, a, e.to);
  }

  // ---- Edges into a new event -----------------------------------------------------------------------------------

  /** Every modification-order edge leads from an earlier event into the new one. */
  ghost predicate IntoNew(es: seq<Edge>, id: nat) {
    forall e :: e in es && e.kind.Mo? ==> e.from < id && e.to == id
  }

  ghost predicate Followed(before: seq<seq<nat>>, after: seq<seq<nat>>) {
    var id := |before|;
    && |after| == id + 1 && after[id] == []
    && forall a :: 0 <= a < id ==> after[a] == before[a] || after[a] == before[a] + [id]
  }

  lemma {:induction false} AddAllFollowed(lists: seq<seq<nat>>, g: Graph, es: seq<Edge>)
    requires |g.outs| == |lists| + 1 && InRange(|g.outs|, es) && IntoNew(es, |lists|) && Followed(lists, ListsOf(g))
    ensures Followed(lists, ListsOf(AddAll(g, es)))
  {
    if es != [] {
      var g', e := AddAll(g, es[..|es| - 1]), es[|es| - 1];
      AddAllFollowed(lists, g, es[..|es| - 1]);
      forall a: nat | a <= |lists|
        ensures a < |lists| ==>
                  ListsOf(AddEdge(g', e))[a] == lists[a] || ListsOf(AddEdge(g', e))[a] == lists[a] + [|lists|]
        ensures a == |lists| ==> ListsOf(AddEdge(g', e))[a] == []
      {
        AddEdgeLists(g', e, a);
      }
    }
  }

  lemma {:induction false} FollowedFresh(before: seq<seq<nat>>, after: seq<seq<nat>>)
    requires Followed(before, after) && AcceptedLists(before)
    ensures AcceptedLists(after)
  {
    var id := |before|;
    var followed := set a: nat | a < id && after[a] != before[a];
    assert WithFresh(before, followed) == after;
    FreshAccepted(before, followed);
  }

  // ---- Edges into a source and a new event ----------------------------------------------------------------------

  /** What the list of one event got: the source `w`, the new event, or both in this order. */
  ghost predicate Got(before: seq<nat>, after: seq<nat>, w: nat, id: nat) {
    || after == before
    || (w !in before && after == before + [w])
    || after == before + [id]
    || (w !in before && after == before + [w, id])
  }

  /** In an ordered growth, the new event is behind the source in every list but that of the source. */
  ghost predicate Grown(before: seq<seq<nat>>, after: seq<seq<nat>>, w: nat, ordered: bool) {
    var id := |before|;
    && |after| == id + 1 && w < id && before[w] == [] && after[id] == []
    && (after[w] == [] || after[w] == [id])
    && (forall a :: 0 <= a < id && a != w ==> Got(before[a], after[a], w, id))
    && (ordered ==> forall a :: 0 <= a < id && a != w && id in after[a] ==> w in after[a])
  }

  ghost predicate IntoSource(es: seq<Edge>, w: nat, id: nat) {
    forall e :: e in es && e.kind.Mo? ==> e.from < id && e.from != w && e.to == w
  }

  ghost function Extended(list: seq<nat>, v: nat): seq<nat> { if v in list then list else list + [v] }

  /** Adding an edge extends one list at most. */
  lemma {:induction false} AddEdgeExtends(g: Graph, e: Edge)
    requires e.from < |g.outs|
    ensures ListsOf(AddEdge(g, e))
         == if e.kind.Mo? then ListsOf(g)[e.from := Extended(ListsOf(g)[e.from], e.to)] else ListsOf(g)
  {
    forall a: nat | a < |g.outs|
      ensures ListsOf(AddEdge(g, e))[a]
           == if e.kind.Mo? && e.from == a then Extended(ListsOf(g)[a], e.to) else ListsOf(g)[a]
    {
      AddEdgeLists(g, e, a);
    }
  }

  lemma {:induction false} GotSource(before: seq<nat>, after: seq<nat>, w: nat, id: nat)
    requires Got(before, after, w, id) && w != id && id !in before && (id in after ==> w in after)
    ensures Got(before, Extended(after, w), w, id)
  {
    if w !in after { assert after == before; }
  }

  lemma {:induction false} GotNew(before: seq<nat>, after: seq<nat>, w: nat, id: nat)
    requires Got(before, after, w, id)
    ensures Got(before, Extended(after, id), w, id)
  {
    if id !in after && after != before {
      assert after == before + [w];
      assert before + [w] + [id] == before + [w, id];
    }
  }

  /** Replacing one list. */
  lemma {:induction false} GrownUpdate(before: seq<seq<nat>>, after: seq<seq<nat>>, w: nat, ordered: bool, a: nat,
                                       list: seq<nat>)
    requires Grown(before, after, w, ordered) && a < |before|
    requires if a == w then list == [] || list == [|before|] else Got(before[a], list, w, |before|)
    requires ordered && a != w && |before| in list ==> w in list
    ensures Grown(before, after[a := list], w, ordered)
  {
  }

  lemma {:induction false} AddToSource(lists: seq<seq<nat>>, g: Graph, w: nat, e: Edge)
    requires ListsInRange(lists) && |g.outs| == |lists| + 1 && Grown(lists, ListsOf(g), w, true) && e.from < |g.outs|
    requires e.kind.Mo? ==> e.from < |lists| && e.from != w && e.to == w
    ensures Grown(lists, ListsOf(AddEdge(g, e)), w, true)
  {
    AddEdgeExtends(g, e);
    if e.kind.Mo? {
      GotSource(lists[e.from], ListsOf(g)[e.from], w, |lists|);
      GrownUpdate(lists, ListsOf(g), w, true, e.from, Extended(ListsOf(g)[e.from], w));
    }
  }

  lemma {:induction false} AddToNew(lists: seq<seq<nat>>, g: Graph, w: nat, e: Edge, ordered: bool)
    requires |g.outs| == |lists| + 1 && Grown(lists, ListsOf(g), w, ordered) && e.from < |g.outs|
    requires e.kind.Mo? ==> e.from < |lists| && e.to == |lists|
    requires e.kind.Mo? && ordered && e.from != w ==> w in ListsOf(g)[e.from]
    ensures Grown(lists, ListsOf(AddEdge(g, e)), w, ordered)
  {
    AddEdgeExtends(g, e);
    if e.kind.Mo? {
      if e.from != w { GotNew(lists[e.from], ListsOf(g)[e.from], w, |lists|); }
      GrownUpdate(lists, ListsOf(g), w, ordered, e.from, Extended(ListsOf(g)[e.from], |lists|));
    }
  }

  lemma {:induction false} AddAllToSource(lists: seq<seq<nat>>, g: Graph, w: nat, es: seq<Edge>)
    requires ListsInRange(lists) && |g.outs| == |lists| + 1 && Grown(lists, ListsOf(g), w, true)
    requires InRange(|g.outs|, es) && IntoSource(es, w, |lists|)
    ensures Grown(lists, ListsOf(AddAll(g, es)), w, true)
  {
    if es != [] {
      AddAllToSource(lists, g, w, es[..|es| - 1]);
      AddToSource(lists, AddAll(g, es[..|es| - 1]), w, es[|es| - 1]);
    }
  }

  lemma {:induction false} AddAllToNew(lists: seq<seq<nat>>, g: Graph, w: nat, es: seq<Edge>)
    requires ListsInRange(lists) && |g.outs| == |lists| + 1 && Grown(lists, ListsOf(g), w, false)
    requires InRange(|g.outs|, es) && IntoNew(es, |lists|)
    ensures Grown(lists, ListsOf(AddAll(g, es)), w, false)
  {
    if es != [] {
      AddAllToNew(lists, g, w, es[..|es| - 1]);
      AddToNew(lists, AddAll(g, es[..|es| - 1]), w, es[|es| - 1], false);
    }
  }

  /** Grown lists come from the old ones by adding the source, and then the new event. */
  lemma {:induction false} GrownFrom(before: seq<seq<nat>>, after: seq<seq<nat>>, w: nat)
    requires ListsInRange(before) && Grown(before, after, w, false)
    ensures var later := set a: nat | a < |before| && w in after[a] && w !in before[a];
            var followed := set a: nat | a < |before| && |before| in after[a];
      after == WithFresh(WithLater(before, later, w), followed)
  {
    var id := |before|;
    var later := set a: nat | a < id && w in after[a] && w !in before[a];
    var followed := set a: nat | a < id && id in after[a];
    var made := WithFresh(WithLater(before, later, w), followed);
    forall a: nat | a < id ensures made[a] == after[a] {
      assert id !in before[a];
      if a != w { assert Got(before[a], after[a], w, id); }
    }
  }
}

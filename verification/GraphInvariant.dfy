/** What every operation on the execution graph keeps. */
module GraphInvariant {
  import opened Options
  import opened VectorClock
  import opened Relations
  import opened MemoryGraph
  import opened Clocks
  import opened Coherence

  // ---- Seq_cst writes ------------------------------------------------------------------------------

  ghost predicate ScWrite(g: Graph, w: nat) {
    w < |g.events| && g.events[w].Writes() && g.events[w].IsSeqCst()
  }

  /** The seq_cst writes of a location form a modification-order chain that ends in the recorded last one. */
  ghost predicate ScChain(g: Graph) {
    && (forall x :: x in g.lastSc ==> ScWrite(g, g.lastSc[x]) && g.events[g.lastSc[x]].location == x)
    && (forall w: nat :: ScWrite(g, w) ==>
        g.events[w].location in g.lastSc && UpToLast(g, w, g.lastSc[g.events[w].location]))
  }

  ghost predicate UpToLast(g: Graph, w: nat, last: nat) {
    w == last || (w < last && Plus(ModOrder(g), w, last))
  }

  ghost predicate ScRead(g: Graph, r: nat) {
    r < |g.events| && g.events[r].IsReadOrRmw() && g.events[r].source.Some? && g.events[r].IsSeqCst()
  }

  /** A seq_cst read from a seq_cst write read the latest one of its location. */
  ghost predicate ScLatest(g: Graph) {
    forall r: nat, w: nat :: ScRead(g, r) && ScWrite(g, Source(g, r)) && EarlierScWrite(g, w, r) ==> w <= Source(g, r)
  }

  ghost predicate EarlierScWrite(g: Graph, w: nat, r: nat) {
    w < r < |g.events| && ScWrite(g, w) && g.events[w].location == g.events[r].location
  }

  // ---- Happens-before as paths ------------------------------------------------------------------------

  ghost predicate HbEdge(g: Graph, e: Edge) {
    && e.from < |g.events| && e.to < |g.events|
    && (e.kind.Po? || e.kind.Sc? || (e.kind.Rf? && Synchronizes(g.events[e.from], g.events[e.to])))
  }

  /** Program order, sc edges, and reads-from edges that synchronize. */
  ghost function HbPairs(g: Graph): set<(nat, nat)> {
    set e | e in g.edges && HbEdge(g, e) :: (e.from, e.to)
  }

  ghost predicate PoLinked(g: Graph)
    requires Layout(g)
  {
    forall t, p :: 0 <= t < g.threads && 0 < p < |g.perThread[t]| ==> PoAt(g, t, p)
  }

  ghost predicate PoAt(g: Graph, t: nat, p: nat)
    requires t < |g.perThread| && 0 < p < |g.perThread[t]|
  {
    Edge(Po, g.perThread[t][p - 1], g.perThread[t][p]) in g.edges
  }

  ghost predicate HbSound(g: Graph) {
    forall e {:trigger HbEdge(g, e)} :: e in g.edges && HbEdge(g, e) ==> Hb(g.events, e.from, e.to)
  }

  /** Everything a clock knows is reached by a path. */
  ghost predicate HbComplete(g: Graph)
    requires Layout(g)
  {
    forall e: nat, t: nat :: e < |g.events| && t < g.threads ==> Reached(g, e, t)
  }

  ghost predicate Reached(g: Graph, e: nat, t: nat)
    requires Layout(g) && e < |g.events| && t < g.threads
  {
    var p := g.events[e].clock[t];
    p > 0 ==> p < |g.perThread[t]| && (g.perThread[t][p] == e || Plus(HbPairs(g), g.perThread[t][p], e))
  }

  /** Some outcome of the operation is seq_cst, so a rejected attempt may leave its clock joined. */
  predicate MayMark(kind: Kind, order: Order) {
    order == SeqCst || (kind.Cas? && kind.failure == SeqCst)
  }

  /** Every compare-exchange with a seq_cst order, for success or for failure, ended with it. */
  ghost predicate Settled(g: Graph) {
    forall e :: 0 <= e < |g.events| ==> SettledEvent(g.events[e])
  }

  ghost predicate SettledEvent(e: Event) {
    MayMark(e.kind, e.order) ==> e.IsSeqCst()
  }

  ghost predicate Invariant(g: Graph) {
    && Defined(g) && Clocked(g) && Coherent(g) && Acyclic(ModOrder(g))
    && ScChain(g) && ScLatest(g)
    && PoLinked(g) && HbSound(g) && (Settled(g) ==> HbComplete(g))
  }

  // ---- Starting an operation ------------------------------------------------------------------------------

  /** The new event as an attempt finds it. After a rejected attempt its clock may already be joined with
      that of the last seq_cst write. */
  ghost function Started(g: Graph, kind: Kind, location: int, thread: nat, order: Order, joined: bool): Graph
    requires Appendable(g, thread)
  {
    var g1 := Append(g, kind, location, thread, order);
    var e := g1.events[|g.events|];
    if joined && location in g.lastSc
      then g1.(events := g1.events[|g.events| := e.(clock := Join(e.clock, g.events[g.lastSc[location]].clock))])
    else g1
  }

  lemma CanAppendAny(g: Graph, thread: nat)
    requires Defined(g) && Clocked(g) && thread < g.threads
    ensures Appendable(g, thread)
  {
    assert Placed(g, thread, |g.perThread[thread]| - 1);
  }

  /** What the rest needs to know about a started operation. */
  ghost predicate Begun(g: Graph, g1: Graph) {
    var id := |g.events|;
    && Defined(g1) && Clocked(g1)
    && |g1.events| == id + 1 && g1.events[..id] == g.events && g1.threads == g.threads
    && g1.events[id].thread < |g.perThread| && g.perThread[g1.events[id].thread] != []
    && g1.perThread == g.perThread[g1.events[id].thread := g.perThread[g1.events[id].thread] + [id]]
    && g1.lastSc == g.lastSc
    && g1.edges == g.edges + [Edge(Po, Last(g, g1.events[id].thread), id)]
    && Last(g, g1.events[id].thread) < id && Hb(g1.events, Last(g, g1.events[id].thread), id)
    && g1.events[id].source.None? && !g1.events[id].kind.Dummy?
  }

  lemma StartedBegun(g: Graph, kind: Kind, location: int, thread: nat, order: Order, joined: bool)
    requires Appendable(g, thread) && !kind.Dummy?
    ensures Begun(g, Started(g, kind, location, thread, order, joined))
  {
    var g0 := Append(g, kind, location, thread, order);
    var g1 := Started(g, kind, location, thread, order, joined);
    AppendClocked(g, kind, location, thread, order);
    AppendDefined(g, kind, location, thread, order);
    if joined && location in g.lastSc {
      JoinClocked(g0, |g.events|, g.lastSc[location]);
    }
    assert g1.events[..|g.events|] == g.events;
    assert Placed(g, thread, |g.perThread[thread]| - 1);
  }

  lemma AppendDefined(g: Graph, kind: Kind, location: int, thread: nat, order: Order)
    requires Appendable(g, thread) && !kind.Dummy?
    ensures Defined(Append(g, kind, location, thread, order))
  {
    var g' := Append(g, kind, location, thread, order);
    AppendLayout(g, kind, location, thread, order);
    LayoutRange(g');
    var id, last := |g.events|, Last(g, thread);
    forall a: nat | a < |g'.outs| ensures g'.outs[a] == Outgoing(g'.edges, a) {
      assert g'.edges[..|g.edges|] == g.edges;
      if a == id { NoneOutgoing(g.edges, id); }
    }
  }

  lemma {:induction false} NoneOutgoing(edges: seq<Edge>, a: nat)
    requires InRange(a, edges)
    ensures Outgoing(edges, a) == []
  {
    if edges != [] { NoneOutgoing(edges[..|edges| - 1], a); }
  }

  // ---- Seq_cst steps -----------------------------------------------------------------------------------------

  /** How an operation that created event `|g.events|` treats the last seq_cst writes. */
  ghost predicate ScUpdated(g: Graph, g': Graph) {
    var id := |g.events|;
    && id < |g'.events|
    && var x := g'.events[id].location;
       && g'.lastSc == (if ScWrite(g', id) then g.lastSc[x := id] else g.lastSc)
       && (ScWrite(g', id) && x in g.lastSc ==> (g.lastSc[x], id) in ModOrder(g'))
       && (ScRead(g', id) && x in g.lastSc && g.lastSc[x] != Source(g', id) ==>
           (g.lastSc[x], Source(g', id)) in ModOrder(g'))
  }

  lemma OldScWrite(g: Graph, g': Graph, w: nat)
    requires Extends(g, g') && w < |g.events|
    ensures ScWrite(g, w) <==> ScWrite(g', w)
  {
    OldEvent(g, g', w);
  }

  lemma ScChainStep(g: Graph, g': Graph)
    requires Extends(g, g') && ScUpdated(g, g') && ScChain(g)
    ensures ScChain(g')
  {
    var id := |g.events|;
    forall x | x in g'.lastSc ensures ScWrite(g', g'.lastSc[x]) && g'.events[g'.lastSc[x]].location == x {
      if g'.lastSc[x] != id { OldEvent(g, g', g.lastSc[x]); }
    }
    forall w: nat | ScWrite(g', w)
      ensures g'.events[w].location in g'.lastSc && UpToLast(g', w, g'.lastSc[g'.events[w].location])
    {
      if w != id {
        OldEvent(g, g', w);
        assert ScWrite(g, w);
        var last := g.lastSc[g.events[w].location];
        if w != last { PlusMono(ModOrder(g), ModOrder(g'), w, last); }
        if g'.lastSc[g.events[w].location] == id {
          PlusEdge(ModOrder(g'), last, id);
          if w != last { PlusTrans(ModOrder(g'), w, last, id); }
        }
      }
    }
  }

  /** Reading an older seq_cst write would close a cycle through the last one. */
  lemma ScLatestStep(g: Graph, g': Graph)
    requires Extends(g, g') && ScUpdated(g, g') && ScChain(g) && ScLatest(g) && Acyclic(ModOrder(g'))
    ensures ScLatest(g')
  {
    var id := |g.events|;
    forall r: nat, w: nat | ScRead(g', r) && ScWrite(g', Source(g', r)) && EarlierScWrite(g', w, r)
      ensures w <= Source(g', r)
    {
      assert HasSource(g', r);
      OldEvent(g, g', w);
      OldScWrite(g, g', w);
      var s := Source(g', r);
      OldEvent(g, g', s);
      OldScWrite(g, g', s);
      if r < id {
        OldEvent(g, g', r);
        assert ScRead(g, r) && EarlierScWrite(g, w, r);
      } else {
        NewestRead(g, g', s);
        assert UpToLast(g, w, g.lastSc[g.events[w].location]);
      }
    }
  }

  lemma NewestRead(g: Graph, g': Graph, s: nat)
    requires Extends(g, g') && ScUpdated(g, g') && ScChain(g) && Acyclic(ModOrder(g'))
    requires ScRead(g', |g.events|) && s == Source(g', |g.events|) && s < |g.events| && ScWrite(g, s)
    requires g.events[s].location == g'.events[|g.events|].location
    ensures g.events[s].location in g.lastSc && g.lastSc[g.events[s].location] == s
  {
    var last := g.lastSc[g.events[s].location];
    assert UpToLast(g, s, last);
    if s != last {
      PlusMono(ModOrder(g), ModOrder(g'), s, last);
      PlusEdge(ModOrder(g'), last, s);
      PlusTrans(ModOrder(g'), s, last, s);
    }
  }

  // ---- Happens-before steps ----------------------------------------------------------------------------------

  /** `id` got happens-before edges from exactly `preds`, and knows what they know. */
  ghost predicate HbUpdated(g: Graph, g': Graph, preds: set<nat>) {
    var id := |g.events|;
    && id < |g'.events| && Layout(g') && g'.threads == g.threads
    && (forall e :: e in g.edges ==> e in g'.edges)
    && (forall e :: e in g'.edges && e !in g.edges && HbEdge(g', e) ==> e.to == id && e.from in preds)
    && (forall x :: x in preds ==> x < id && Hb(g'.events, x, id))
  }

  lemma HbSoundStep(g: Graph, g': Graph, preds: set<nat>)
    requires Extends(g, g') && HbUpdated(g, g', preds) && HbSound(g) && InRange(|g.events|, g.edges)
    ensures HbSound(g')
  {
    forall e | e in g'.edges && HbEdge(g', e) ensures Hb(g'.events, e.from, e.to) {
      if e in g.edges {
        OldEvent(g, g', e.from);
        OldEvent(g, g', e.to);
        assert HbEdge(g, e);
      }
    }
  }

  /** Each foreign clock entry of the new event comes from one of `preds`, and those are linked to it. */
  ghost predicate ClockFrom(g: Graph, g': Graph, preds: set<nat>) {
    var id := |g.events|;
    && id < |g'.events| && Layout(g') && Layout(g) && g'.threads == g.threads
    && (forall x :: x in preds ==> x < id && (x, id) in HbPairs(g'))
    && (forall t: nat :: t < g.threads ==> EntryFrom(g, g', preds, t))
    && (forall t: nat, p: nat :: t < g.threads && p < |g.perThread[t]| ==>
        p < |g'.perThread[t]| && g'.perThread[t][p] == g.perThread[t][p])
  }

  ghost predicate EntryFrom(g: Graph, g': Graph, preds: set<nat>, t: nat)
    requires |g.events| < |g'.events| && ClocksOk(g) && ClocksOk(g') && t < g.threads == g'.threads
  {
    t == g'.events[|g.events|].thread
    || exists x: nat :: x in preds && x < |g.events| && g.events[x].clock[t] == g'.events[|g.events|].clock[t]
  }

  lemma HbCompleteStep(g: Graph, g': Graph, preds: set<nat>)
    requires Extends(g, g') && HbUpdated(g, g', preds) && ClockFrom(g, g', preds)
    requires InRange(|g.events|, g.edges) && HbComplete(g)
    ensures HbComplete(g')
  {
    var id := |g.events|;
    OldHbPairs(g, g');
    forall e: nat, t: nat | e < |g'.events| && t < g'.threads ensures Reached(g', e, t) {
      if e < id {
        OldEvent(g, g', e);
        assert Reached(g, e, t);
        var p := g.events[e].clock[t];
        if p > 0 && g.perThread[t][p] != e { PlusMono(HbPairs(g), HbPairs(g'), g.perThread[t][p], e); }
      } else if t == g'.events[id].thread {
        assert Listed(g', id);
      } else {
        assert EntryFrom(g, g', preds, t);
        var x: nat :| x in preds && x < id && g.events[x].clock[t] == g'.events[id].clock[t];
        assert Reached(g, x, t);
        PlusEdge(HbPairs(g'), x, id);
        var p := g.events[x].clock[t];
        if p > 0 && g.perThread[t][p] != x {
          PlusMono(HbPairs(g), HbPairs(g'), g.perThread[t][p], x);
          PlusTrans(HbPairs(g'), g.perThread[t][p], x, id);
        }
      }
    }
  }

  lemma OldHbPairs(g: Graph, g': Graph)
    requires Extends(g, g') && InRange(|g.events|, g.edges) && forall e :: e in g.edges ==> e in g'.edges
    ensures HbPairs(g) <= HbPairs(g')
  {
    forall e | e in g.edges && HbEdge(g, e) ensures HbEdge(g', e) {
      OldEvent(g, g', e.from);
      OldEvent(g, g', e.to);
    }
  }

  /** Clocks are exact: for different non-dummy events, inclusion is a path of program-order, sc and
      synchronizing reads-from edges. */
  lemma ClocksExact(g: Graph, a: nat, b: nat)
    requires Invariant(g) && Settled(g) && a < |g.events| && b < |g.events| && a != b && !g.events[a].kind.Dummy?
    ensures Hb(g.events, a, b) <==> Plus(HbPairs(g), a, b)
  {
    if Plus(HbPairs(g), a, b) { PathsIncluded(g, a, b); }
    if Hb(g.events, a, b) {
      assert Listed(g, a) && Knows(g, b);
      var t := g.events[a].thread;
      var p, q := g.events[a].clock[t], g.events[b].clock[t];
      assert Placed(g, t, p) && Reached(g, b, t);
      PoPath(g, t, p, q);
      if g.perThread[t][q] != b && p != q { PlusTrans(HbPairs(g), a, g.perThread[t][q], b); }
    }
  }

  lemma {:induction false} PoPath(g: Graph, t: nat, p: nat, q: nat)
    requires Layout(g) && Defined(g) && PoLinked(g) && t < g.threads && p <= q < |g.perThread[t]|
    ensures p == q || Plus(HbPairs(g), g.perThread[t][p], g.perThread[t][q])
  {
    if p < q {
      PoPath(g, t, p, q - 1);
      var e := Edge(Po, g.perThread[t][q - 1], g.perThread[t][q]);
      assert PoAt(g, t, q);
      assert e in g.edges && HbEdge(g, e);
      PlusEdge(HbPairs(g), e.from, e.to);
      if p < q - 1 { PlusTrans(HbPairs(g), g.perThread[t][p], g.perThread[t][q - 1], g.perThread[t][q]); }
    }
  }

  /** Whatever the compare-exchanges, a path implies clock inclusion. */
  lemma PathsIncluded(g: Graph, a: nat, b: nat)
    requires Defined(g) && HbSound(g) && Plus(HbPairs(g), a, b)
    ensures a < |g.events| && b < |g.events| && Hb(g.events, a, b)
  {
    var path :| PathBetween(HbPairs(g), path, a, b);
    PathIncluded(g, path, |path| - 1);
  }

  lemma {:induction false} PathIncluded(g: Graph, path: seq<nat>, k: nat)
    requires Defined(g) && HbSound(g) && IsPath(HbPairs(g), path) && 0 < k < |path|
    ensures path[0] < |g.events| && path[k] < |g.events| && Hb(g.events, path[0], path[k])
  {
    assert (path[k - 1], path[k]) in HbPairs(g);
    if k > 1 { PathIncluded(g, path, k - 1); }
  }
}

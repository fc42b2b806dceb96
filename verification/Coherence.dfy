/** Coherence for all pairs of events, although each rule adds edges only for the most recent matching
    event of a thread. */
module Coherence {
  import opened Options
  import opened Relations
  import opened MemoryGraph
  import opened Clocks

  /** Every read has a source: an earlier event that writes the same location. */
  ghost predicate Sourced(g: Graph) {
    forall e :: 0 <= e < |g.events| && g.events[e].IsReadOrRmw() ==> HasSource(g, e)
  }

  ghost predicate HasSource(g: Graph, e: nat)
    requires e < |g.events|
  {
    && g.events[e].source.Some? && g.events[e].source.value < e
    && g.events[g.events[e].source.value].Writes()
    && g.events[g.events[e].source.value].location == g.events[e].location
  }

  function Source(g: Graph, e: nat): nat
    requires e < |g.events| && g.events[e].source.Some?
  {
    g.events[e].source.value
  }

  /** Two different events on one location, the first, no dummy, happening before the second. */
  ghost predicate Ordered(g: Graph, a: nat, b: nat) {
    && a < |g.events| && b < |g.events| && a != b && !g.events[a].kind.Dummy?
    && g.events[a].location == g.events[b].location && Hb(g.events, a, b)
  }

  ghost function ModOrder(g: Graph): set<(nat, nat)> { MoPairs(g.edges) }

  ghost predicate WriteWriteCoherent(g: Graph) {
    forall a: nat, b: nat {:trigger Ordered(g, a, b)} ::
      Ordered(g, a, b) && g.events[a].Writes() && g.events[b].Writes() ==>
        Plus(ModOrder(g), a, b)
  }

  ghost predicate WriteReadCoherent(g: Graph)
    requires Sourced(g)
  {
    forall a: nat, b: nat {:trigger Ordered(g, a, b)} ::
      Ordered(g, a, b) && g.events[a].Writes() && g.events[b].IsReadOrRmw() && a != Source(g, b) ==>
      Plus(ModOrder(g), a, Source(g, b))
  }

  ghost predicate ReadReadCoherent(g: Graph)
    requires Sourced(g)
  {
    forall a: nat, b: nat {:trigger Ordered(g, a, b)} ::
      Ordered(g, a, b) && g.events[a].IsReadOrRmw() && g.events[b].IsReadOrRmw() && Source(g, a) != Source(g, b) ==>
      Plus(ModOrder(g), Source(g, a), Source(g, b))
  }

  ghost predicate ReadWriteCoherent(g: Graph)
    requires Sourced(g)
  {
    forall a: nat, b: nat {:trigger Ordered(g, a, b)} ::
      Ordered(g, a, b) && g.events[a].IsReadOrRmw() && g.events[b].Writes() ==>
        Plus(ModOrder(g), Source(g, a), b)
  }

  /** A modifying read-modify-write comes after what it read. */
  ghost predicate RmwOrdered(g: Graph)
    requires Sourced(g)
  {
    forall b :: 0 <= b < |g.events| && g.events[b].IsModifyRmw() ==> (Source(g, b), b) in ModOrder(g)
  }

  ghost predicate Coherent(g: Graph) {
    && Sourced(g) && RmwOrdered(g)
    && WriteWriteCoherent(g) && WriteReadCoherent(g) && ReadReadCoherent(g) && ReadWriteCoherent(g)
  }

  // ---- One new event -----------------------------------------------------------------------------------

  /** `g'` is `g` with one more event and more edges. */
  ghost predicate Extends(g: Graph, g': Graph) {
    && |g'.events| == |g.events| + 1 && g'.events[..|g.events|] == g.events
    && ModOrder(g) <= ModOrder(g') && Clocked(g') && Sourced(g')
  }

  /** The edges of `rule` are in the graph. */
  ghost predicate Applied(g: Graph, rule: Rule) {
    && Subject(rule) < |g.events| && ThreadsInRange(|g.events|, g.perThread)
    && forall e :: e in RuleEdges(g.events, g.perThread, rule) ==> e in g.edges
  }

  /** A match has a most recent match in its thread: itself or a later event, whose edge was added. */
  lemma Recent(g: Graph, rule: Rule, a: nat) returns (m: nat)
    requires Clocked(g) && Applied(g, rule) && a < |g.events| && Matches(g.events, rule, a)
    ensures m < |g.events| && Matches(g.events, rule, m) && (m == a || Ordered(g, a, m))
    ensures (RuleEdge(g.events, rule, m).from, RuleEdge(g.events, rule, m).to) in ModOrder(g)
  {
    assert Listed(g, a);
    var t := g.events[a].thread;
    var k := g.events[a].clock[t];
    var q := MostRecentLater(g.events, g.perThread[t], rule, k);
    m := g.perThread[t][q];
    MostRecentMatches(g.events, g.perThread[t], rule);
    RuleEdgesHas(g.events, g.perThread, rule, t);
    ThreadHb(g, t, k, q);
    assert RuleEdge(g.events, rule, m) in g.edges;
  }

  lemma OldOrdered(g: Graph, g': Graph, a: nat, b: nat)
    requires Extends(g, g') && Ordered(g', a, b)
    ensures a < b && a < |g.events|
    ensures b < |g.events| ==> Ordered(g, a, b)
    ensures b < |g.events| || b == |g.events|
  {
    HbEarlier(g', a, b);
    assert g'.events[a] == g'.events[..|g.events|][a];
    assert b < |g.events| ==> g'.events[b] == g'.events[..|g.events|][b];
  }

  lemma OldEvent(g: Graph, g': Graph, a: nat)
    requires Extends(g, g') && a < |g.events|
    ensures g'.events[a] == g.events[a]
  {
    assert g'.events[a] == g'.events[..|g.events|][a];
  }

  lemma WriteWriteStep(g: Graph, g': Graph)
    requires Extends(g, g') && Coherent(g)
    requires g'.events[|g.events|].Writes() ==> Applied(g', WriteWrite(|g.events|))
    ensures WriteWriteCoherent(g')
  {
    forall a: nat, b: nat | Ordered(g', a, b) && g'.events[a].Writes() && g'.events[b].Writes()
      ensures Plus(ModOrder(g'), a, b)
    {
      OldOrdered(g, g', a, b);
      if b < |g.events| {
        OldEvent(g, g', a);
        OldEvent(g, g', b);
        PlusMono(ModOrder(g), ModOrder(g'), a, b);
      } else {
        var m := Recent(g', WriteWrite(b), a);
        PlusEdge(ModOrder(g'), m, b);
        if m != a {
          OldWrites(g, g', a, m);
          PlusTrans(ModOrder(g'), a, m, b);
        }
      }
    }
  }

  /** Two ordered old writes were ordered by modification order before. */
  lemma OldWrites(g: Graph, g': Graph, a: nat, m: nat)
    requires Extends(g, g') && Coherent(g) && Ordered(g', a, m) && m < |g.events|
    requires g'.events[a].Writes() && g'.events[m].Writes()
    ensures Plus(ModOrder(g'), a, m)
  {
    OldOrdered(g, g', a, m);
    OldEvent(g, g', a);
    OldEvent(g, g', m);
    PlusMono(ModOrder(g), ModOrder(g'), a, m);
  }

  lemma OldReads(g: Graph, g': Graph, a: nat, m: nat)
    requires Extends(g, g') && Coherent(g) && Ordered(g', a, m) && m < |g.events|
    requires g'.events[a].IsReadOrRmw() && g'.events[m].IsReadOrRmw()
    ensures Source(g', a) == Source(g', m) || Plus(ModOrder(g'), Source(g', a), Source(g', m))
  {
    OldOrdered(g, g', a, m);
    OldEvent(g, g', a);
    OldEvent(g, g', m);
    if Source(g, a) != Source(g, m) { PlusMono(ModOrder(g), ModOrder(g'), Source(g, a), Source(g, m)); }
  }

  lemma WriteReadStep(g: Graph, g': Graph)
    requires Extends(g, g') && Coherent(g)
    requires g'.events[|g.events|].IsReadOrRmw() ==> Applied(g', WriteRead(Source(g', |g.events|), |g.events|))
    ensures WriteReadCoherent(g')
  {
    forall a: nat, b: nat | Ordered(g', a, b) && g'.events[a].Writes() && g'.events[b].IsReadOrRmw()
      && a != Source(g', b)
      ensures Plus(ModOrder(g'), a, Source(g', b))
    {
      OldOrdered(g, g', a, b);
      var w := Source(g', b);
      if b < |g.events| {
        OldEvent(g, g', a);
        OldEvent(g, g', b);
        PlusMono(ModOrder(g), ModOrder(g'), a, w);
      } else {
        var m := Recent(g', WriteRead(w, b), a);
        PlusEdge(ModOrder(g'), m, w);
        if m != a {
          OldWrites(g, g', a, m);
          PlusTrans(ModOrder(g'), a, m, w);
        }
      }
    }
  }

  lemma ReadWriteStep(g: Graph, g': Graph)
    requires Extends(g, g') && Coherent(g)
    requires g'.events[|g.events|].Writes() ==> Applied(g', ReadWrite(|g.events|))
    ensures ReadWriteCoherent(g')
  {
    forall a: nat, b: nat | Ordered(g', a, b) && g'.events[a].IsReadOrRmw() && g'.events[b].Writes()
      ensures Plus(ModOrder(g'), Source(g', a), b)
    {
      OldOrdered(g, g', a, b);
      if b < |g.events| {
        OldEvent(g, g', a);
        OldEvent(g, g', b);
        PlusMono(ModOrder(g), ModOrder(g'), Source(g', a), b);
      } else {
        var m := Recent(g', ReadWrite(b), a);
        PlusEdge(ModOrder(g'), Source(g', m), b);
        if m != a {
          OldReads(g, g', a, m);
          if Source(g', a) != Source(g', m) { PlusTrans(ModOrder(g'), Source(g', a), Source(g', m), b); }
        }
      }
    }
  }

  lemma ReadReadStep(g: Graph, g': Graph)
    requires Extends(g, g') && Coherent(g)
    requires g'.events[|g.events|].IsReadOrRmw() ==> Applied(g', ReadRead(Source(g', |g.events|), |g.events|))
    ensures ReadReadCoherent(g')
  {
    forall a: nat, b: nat | Ordered(g', a, b) && g'.events[a].IsReadOrRmw() && g'.events[b].IsReadOrRmw()
      && Source(g', a) != Source(g', b)
      ensures Plus(ModOrder(g'), Source(g', a), Source(g', b))
    {
      OldOrdered(g, g', a, b);
      var w := Source(g', b);
      if b < |g.events| {
        OldEvent(g, g', a);
        OldEvent(g, g', b);
        PlusMono(ModOrder(g), ModOrder(g'), Source(g', a), w);
      } else if a == w {
        // The source is itself a read-modify-write, ordered after what it read.
        OldEvent(g, g', a);
        PlusEdge(ModOrder(g'), Source(g', a), a);
      } else {
        var m := Recent(g', ReadRead(w, b), a);
        PlusEdge(ModOrder(g'), Source(g', m), w);
        if m != a {
          OldReads(g, g', a, m);
          if Source(g', a) != Source(g', m) { PlusTrans(ModOrder(g'), Source(g', a), Source(g', m), w); }
        }
      }
    }
  }
}

/** Transitive closures of finite relations. */
module Relations {

  ghost predicate IsPath(rel: set<(nat, nat)>, path: seq<nat>) {
    forall k :: 0 <= k < |path| - 1 ==> (path[k], path[k + 1]) in rel
  }

  ghost predicate PathBetween(rel: set<(nat, nat)>, path: seq<nat>, a: nat, b: nat) {
    |path| >= 2 && path[0] == a && path[|path| - 1] == b && IsPath(rel, path)
  }

  /** The transitive closure. */
  ghost predicate Plus(rel: set<(nat, nat)>, a: nat, b: nat) {
    exists path :: PathBetween(rel, path, a, b)
  }

  ghost predicate Acyclic(rel: set<(nat, nat)>) {
    forall a: nat :: !Plus(rel, a, a)
  }

  lemma PlusEdge(rel: set<(nat, nat)>, a: nat, b: nat)
    requires (a, b) in rel
    ensures Plus(rel, a, b)
  {
    assert PathBetween(rel, [a, b], a, b);
  }

  lemma PlusTrans(rel: set<(nat, nat)>, a: nat, b: nat, c: nat)
    requires Plus(rel, a, b) && Plus(rel, b, c)
    ensures Plus(rel, a, c)
  {
    var p :| PathBetween(rel, p, a, b);
    var q :| PathBetween(rel, q, b, c);
    var path := p + q[1..];
    forall k | 0 <= k < |path| - 1 ensures (path[k], path[k + 1]) in rel {
      if k >= |p| - 1 { assert path[k] == q[k - |p| + 1] && path[k + 1] == q[k - |p| + 2]; }
    }
    assert PathBetween(rel, path, a, c);
  }

  lemma PlusFirst(rel: set<(nat, nat)>, a: nat, b: nat) returns (c: nat)
    requires Plus(rel, a, b)
    ensures (a, c) in rel
  {
    var p :| PathBetween(rel, p, a, b);
    c := p[1];
  }

  /** The last pair of a path, and the path up to it. */
  lemma PlusLast(rel: set<(nat, nat)>, a: nat, b: nat) returns (c: nat)
    requires Plus(rel, a, b)
    ensures (c, b) in rel && (a == c || Plus(rel, a, c))
  {
    var p :| PathBetween(rel, p, a, b);
    var last := |p| - 1;
    c := p[last - 1];
    assert (p[last - 1], p[last]) in rel;
    if last > 1 {
      assert PathBetween(rel, p[..last], a, c);
    }
  }

  lemma PlusMono(rel: set<(nat, nat)>, rel': set<(nat, nat)>, a: nat, b: nat)
    requires rel <= rel' && Plus(rel, a, b)
    ensures Plus(rel', a, b)
  {
    var p :| PathBetween(rel, p, a, b);
    assert PathBetween(rel', p, a, b);
  }

  /** A property kept by every pair of the relation is kept along paths. */
  lemma {:induction false} PathRanks(rel: set<(nat, nat)>, rank: nat -> int, path: seq<nat>, k: nat)
    requires IsPath(rel, path) && 0 < k < |path|
    requires forall a, b :: (a, b) in rel ==> rank(a) < rank(b)
    ensures rank(path[0]) < rank(path[k])
  {
    assert (path[k - 1], path[k]) in rel;
    if k > 1 { PathRanks(rel, rank, path, k - 1); }
  }

  lemma PlusRanks(rel: set<(nat, nat)>, rank: nat -> int, a: nat, b: nat)
    requires Plus(rel, a, b) && forall x, y :: (x, y) in rel ==> rank(x) < rank(y)
    ensures rank(a) < rank(b)
  {
    var p :| PathBetween(rel, p, a, b);
    PathRanks(rel, rank, p, |p| - 1);
  }

  /** A relation that climbs a rank has no cycle. */
  lemma RankedAcyclic(rel: set<(nat, nat)>, rank: nat -> int)
    requires forall a, b :: (a, b) in rel ==> rank(a) < rank(b)
    ensures Acyclic(rel)
  {
    forall a: nat, p ensures !PathBetween(rel, p, a, a) {
      if |p| >= 2 && IsPath(rel, p) { PathRanks(rel, rank, p, |p| - 1); }
    }
  }

  /** Edges into a node that nothing leaves close no cycle. */
  lemma SinkAcyclic(rel: set<(nat, nat)>, more: set<(nat, nat)>, sink: nat)
    requires Acyclic(rel)
    requires forall a, b :: (a, b) in rel ==> a != sink
    requires forall a, b :: (a, b) in more ==> b == sink && a != sink
    ensures Acyclic(rel + more)
  {
    forall a: nat, p | PathBetween(rel + more, p, a, a) ensures PathBetween(rel, p, a, a) {
      forall k | 0 <= k < |p| ensures p[k] != sink {
        assert k < |p| - 1 ==> (p[k], p[k + 1]) in rel + more;
        assert (p[0], p[1]) in rel + more;
      }
      forall k | 0 <= k < |p| - 1 ensures (p[k], p[k + 1]) in rel {
        assert (p[k], p[k + 1]) in rel + more;
      }
    }
    assert forall a: nat :: Plus(rel + more, a, a) ==> Plus(rel, a, a);
  }
}

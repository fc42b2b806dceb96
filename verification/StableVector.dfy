/** A vector of doubling buckets whose elements never move. */
module StableVector {
  import opened Bits
  import opened Options

  // ---- Index arithmetic ----------------------------------------------------------------------------------

  /** The bucket of element `i`, and its place there, as the bit tricks compute them. */
  function Bucket(i: nat): nat { Log2(i + 1) }

  function Offset(i: nat): nat { Xor(i + 1, Pow2(Bucket(i))) }

  /** The element at a place. */
  function Element(b: nat, j: nat): nat { Pow2(b) + j - 1 }

  lemma PlaceOf(i: nat)
    ensures Offset(i) == i + 1 - Pow2(Bucket(i)) < Pow2(Bucket(i))
  {
    Log2Bounds(i + 1);
    XorTop(i + 1);
  }

  lemma ElementAt(i: nat, b: nat, j: nat)
    requires j < Pow2(b) && i == Element(b, j)
    ensures Bucket(i) == b && Offset(i) == j
  {
    Log2Unique(i + 1, b);
    PlaceOf(i);
  }

  /** Elements and places correspond one to one. */
  lemma Bijection(i: nat, b: nat, j: nat)
    requires j < Pow2(b)
    ensures Offset(i) < Pow2(Bucket(i)) && Element(Bucket(i), Offset(i)) == i
    ensures Bucket(Element(b, j)) == b && Offset(Element(b, j)) == j
  {
    PlaceOf(i);
    ElementAt(Element(b, j), b, j);
  }

  lemma Apart(i: nat, k: nat)
    requires i != k
    ensures Bucket(i) != Bucket(k) || Offset(i) != Offset(k)
  {
    PlaceOf(i);
    PlaceOf(k);
  }

  /** How many buckets a size needs. */
  function Used(size: nat): nat { if size == 0 then 0 else Bucket(size - 1) + 1 }

  lemma InUsed(i: nat, size: nat)
    requires i < size
    ensures Bucket(i) < Used(size)
  {
    Log2Bounds(i + 1);
    Log2Bounds(size);
    if Log2(size) < Log2(i + 1) { Pow2Grows(Log2(size), Log2(i + 1)); }
  }

  /** Appending starts a new bucket exactly when the new size is a power of two. */
  lemma Grow(size: nat)
    ensures Bucket(size) <= Used(size) <= Bucket(size) + 1 == Used(size + 1)
    ensures And(size + 1, size) == 0 <==> Bucket(size) == Used(size)
  {
    AndLess(size + 1);
    Log2Bounds(size + 1);
    if size > 0 {
      Log2Bounds(size);
      var k := Log2(size);
      if size + 1 < 2 * Pow2(k) {
        Log2Unique(size + 1, k);
      } else {
        assert Pow2(k + 1) == 2 * Pow2(k);
        Log2Unique(size + 1, k + 1);
      }
    }
  }

  lemma BelowTop(size: nat, count: nat)
    requires size < Pow2(count)
    ensures Used(size) <= count && (size + 1 < Pow2(count) ==> Bucket(size) < count)
  {
    if size > 0 { LogBelow(size, count); }
    if size + 1 < Pow2(count) { LogBelow(size + 1, count); }
  }

  /** Buckets that are not used lie beyond the size. */
  lemma UsedCovers(size: nat, b: nat)
    requires Used(size) <= b
    ensures size < Pow2(b)
  {
    if size > 0 {
      Log2Bounds(size);
      if Log2(size) + 1 < b { Pow2Grows(Log2(size), b); }
    }
  }

  lemma LogBelow(n: nat, count: nat)
    requires 0 < n < Pow2(count)
    ensures Log2(n) < count
  {
    Log2Bounds(n);
    if count < Log2(n) { Pow2Grows(count, Log2(n)); }
  }

  lemma SpareTest(total: nat)
    requires total > 0
    ensures And(total - 1, total) == 0 <==> total == Pow2(Log2(total))
  {
    AndCommutes(total - 1, total);
    AndLess(total);
  }

  /** Removing an element looks past the last of `count` buckets exactly at size 2^(count - 1). */
  lemma PopInBounds(total: nat, count: nat)
    requires 0 < total < Pow2(count)
    ensures count > 0 && (And(total - 1, total) == 0 && Log2(total) + 1 >= count <==> total == Pow2(count - 1))
  {
    LogBelow(total, count);
    AndCommutes(total - 1, total);
    AndLess(total);
    if total == Pow2(count - 1) { Log2Unique(total, count - 1); }
  }

  /** Allocated buckets are those the size needs and at most one more. */
  ghost predicate Shaped<T>(entities: seq<array?<T>>, count: nat, total: nat) {
    && |entities| == count > 0 && total < Pow2(count)
    && (forall b: nat :: b < count && b < Used(total) ==> entities[b] != null)
    && (forall b: nat :: Used(total) < b < count ==> entities[b] == null)
    && (forall b: nat :: b < count && entities[b] != null ==> entities[b].Length == Pow2(b))
    && (forall a: nat, b: nat :: a < b < count && entities[a] != null ==> entities[a] != entities[b])
  }

  lemma ShapeGrows<T>(entities: seq<array?<T>>, count: nat, total: nat)
    requires Shaped(entities, count, total) && total + 1 < Pow2(count)
    requires Bucket(total) < count && entities[Bucket(total)] != null
    ensures Shaped(entities, count, total + 1)
  {
    Grow(total);
  }

  /** Shrinking to less than a power of two leaves that bucket as the spare one. */
  lemma ShapeShrinks<T>(entities: seq<array?<T>>, count: nat, total: nat)
    requires Shaped(entities, count, total) && total > 0
    requires total == Pow2(Log2(total)) && Used(total) < count ==> entities[Used(total)] == null
    ensures Shaped(entities, count, total - 1)
  {
    Grow(total - 1);
    AndLess(total);
  }

  lemma LastPlace<T>(entities: seq<array?<T>>, count: nat, total: nat)
    requires Shaped(entities, count, total) && total > 0
    ensures Log2(total) < count && entities[Log2(total)] != null
    ensures Xor(total, Pow2(Log2(total))) < entities[Log2(total)].Length
  {
    BelowTop(total, count);
    PlaceOf(total - 1);
  }

  lemma NextPlace<T>(entities: seq<array?<T>>, count: nat, total: nat)
    requires Shaped(entities, count, total) && Bucket(total) < count && entities[Bucket(total)] != null
    ensures Xor(total + 1, Pow2(Bucket(total))) == Offset(total) < entities[Bucket(total)].Length
  {
    PlaceOf(total);
  }

  /** The next element shares no place with an earlier one. */
  lemma Elsewhere<T>(entities: seq<array?<T>>, count: nat, total: nat, i: nat)
    requires Shaped(entities, count, total) && Bucket(total) < count && entities[Bucket(total)] != null && i < total
    ensures Bucket(i) < count && entities[Bucket(i)] != null && Offset(i) < entities[Bucket(i)].Length
    ensures entities[Bucket(i)] != entities[Bucket(total)] || Offset(i) != Offset(total)
  {
    PlaceOf(i);
    InUsed(i, total);
    BelowTop(total, count);
    Apart(i, total);
    var a, b := Bucket(i), Bucket(total);
    assert a < b ==> entities[a] != entities[b];
    assert b < a ==> entities[b] != entities[a];
  }

  class StableVector<T(0)> {
    const count: nat
    var entities: seq<array?<T>>
    var total: nat

    ghost predicate Valid()
      reads this
    {
      Shaped(entities, count, total)
    }

    /** The place of element `i`. */
    ghost function Address(i: nat): (array<T>, nat)
      requires Valid() && i < total
      reads this
    {
      InUsed(i, total);
      BelowTop(total, count);
      (entities[Bucket(i)], Offset(i))
    }

    ghost function At(i: nat): T
      requires Valid() && i < total
      reads this, entities
    {
      InUsed(i, total);
      BelowTop(total, count);
      assert Offset(i) < Pow2(Bucket(i)) by { PlaceOf(i); }
      entities[Bucket(i)][Offset(i)]
    }

    ghost function Contents(): seq<T>
      requires Valid()
      reads this, entities
    {
      seq(total, i requires 0 <= i < total reads this, entities requires Valid() => At(i))
    }

    constructor ()
      ensures Valid() && Contents() == [] && count == 31
    {
      count := 31;
      entities := seq(31, _ => null);
      total := 0;
    }

    /** Allocates the bucket of the next element if it starts one that is not there. */
    method Reserve(index: nat)
      requires Valid() && total + 1 < Pow2(count) && index == Bucket(total)
      modifies `entities
      ensures Valid() && index < count && entities[index] != null
      ensures entities == old(entities)[index := entities[index]]
        && (entities == old(entities) || fresh(entities[index]))
      ensures Contents() == old(Contents()) && forall i: nat :: i < total ==> Address(i) == old(Address(i))
    {
      forall i: nat | i < total ensures Bucket(i) < Used(total) {
        InUsed(i, total);
      }
      Grow(total);
      BelowTop(total, count);
      if And(total + 1, total) == 0 && entities[index] == null {
        var bucket := new T[Pow2(index)];
        entities := entities[index := bucket];
      }
    }

    method EmplaceBack(x: T)
      requires Valid() && total + 1 < Pow2(count)
      modifies this, entities
      ensures Valid() && total == old(total) + 1
      ensures forall i: nat :: i < old(total) ==> Address(i) == old(Address(i))
      ensures Contents() == old(Contents()) + [x]
      ensures forall b: nat :: b < count ==>
        entities[b] == old(entities)[b] || (entities[b] != null && fresh(entities[b]))
    {
      var index := Log2(total + 1);
      Reserve(index);
      Store(index, x);
    }

    /** Stores the next element in its bucket, which is there. */
    method Store(index: nat, x: T)
      requires Valid() && total + 1 < Pow2(count) && index == Bucket(total) < count && entities[index] != null
      modifies `total, entities[index]
      ensures Valid() && total == old(total) + 1 && At(total - 1) == x
      ensures forall i: nat :: i < old(total) ==> Address(i) == old(Address(i)) && At(i) == old(At(i))
    {
      ghost var n := total;
      assert Shaped(entities, count, n + 1) by { ShapeGrows(entities, count, n); }
      NextPlace(entities, count, n);
      var internal := Xor(total + 1, Pow2(index));
      entities[index][internal] := x;
      total := total + 1;
      forall i: nat | i < n ensures At(i) == old(At(i)) {
        Elsewhere(entities, count, n, i);
      }
    }

    /** Frees the spare bucket when another one is about to become spare. */
    method FreeSpare(index: nat)
      requires Valid() && total > 0 && index == Log2(total) && (total == Pow2(index) ==> index + 1 < count)
      modifies `entities
      ensures Valid() && (total == Pow2(index) && Used(total) < count ==> entities[Used(total)] == null)
      ensures entities == old(entities) || (Used(total) < count && entities == old(entities)[Used(total) := null])
    {
      SpareTest(total);
      if And(total - 1, total) == 0 && entities[index + 1] != null {
        entities := entities[index + 1 := null];
      }
    }

    /** Removes the last element. At one size the code looks past the last bucket; None stands for whatever follows. */
    method PopBack() returns (destroyed: Option<T>)
      requires Valid() && total > 0
      modifies this
      ensures Valid() && (destroyed.None? <==> old(total) == Pow2(count - 1)) && (destroyed.None? ==> unchanged(this))
      ensures destroyed.Some? ==> total == old(total) - 1 && forall i: nat :: i < total ==>
        Address(i) == old(Address(i))
      ensures destroyed.Some? ==> Contents() == old(Contents())[..total] && destroyed.value == old(Contents())[total]
      ensures forall b: nat :: b < count && entities[b] != null ==> entities[b] == old(entities)[b]
    {
      var index := Log2(total);
      PopInBounds(total, count);
      if And(total - 1, total) == 0 && index + 1 >= count {
        return None;
      }
      SpareTest(total);
      FreeSpareBucket(index);
      var last := TakeLast(index);
      destroyed := Some(last);
    }

    /** No element is in the spare bucket. */
    method FreeSpareBucket(index: nat)
      requires Valid() && total > 0 && index == Log2(total) && (total == Pow2(index) ==> index + 1 < count)
      modifies `entities
      ensures Valid() && (total == Pow2(index) && Used(total) < count ==> entities[Used(total)] == null)
      ensures Contents() == old(Contents()) && forall i: nat :: i < total ==> Address(i) == old(Address(i))
      ensures forall b: nat :: b < count && entities[b] != null ==> entities[b] == old(entities)[b]
    {
      FreeSpare(index);
      forall i: nat | i < total ensures Address(i) == old(Address(i)) && At(i) == old(At(i)) {
        InUsed(i, total);
      }
    }

    /** Removes the last element once the spare bucket is free. */
    method TakeLast(index: nat) returns (destroyed: T)
      requires Valid() && total > 0 && index == Log2(total)
      requires total == Pow2(index) && Used(total) < count ==> entities[Used(total)] == null
      modifies `total
      ensures Valid() && total == old(total) - 1
      ensures forall i: nat :: i < total ==> Address(i) == old(Address(i))
      ensures Contents() == old(Contents())[..total] && destroyed == old(Contents())[total]
    {
      assert Shaped(entities, count, total - 1) by { ShapeShrinks(entities, count, total); }
      LastPlace(entities, count, total);
      var internal := Xor(total, Pow2(index));
      destroyed := entities[index][internal];
      total := total - 1;
    }

    method Get(i: nat) returns (x: T)
      requires Valid() && i < total
      ensures x == Contents()[i]
    {
      InUsed(i, total);
      BelowTop(total, count);
      PlaceOf(i);
      var index := Log2(i + 1);
      var internal := Xor(i + 1, Pow2(index));
      x := entities[index][internal];
    }

    /** Grows with default values, or shrinks; `ok` says that it did not look past the last bucket. */
    method Resize(size: nat, zero: T) returns (ok: bool)
      requires Valid() && size < Pow2(count)
      modifies this, entities
      ensures Valid() && (ok <==> !(size < Pow2(count - 1) <= old(total))) && total == if ok then size
        else Pow2(count - 1)
      ensures Contents() == if total <= old(total) then old(Contents())[..total]
                            else old(Contents()) + seq(total - old(total), _ => zero)
      ensures forall i: nat :: i < total && i < old(total) ==> Address(i) == old(Address(i))
    {
      GrowTo(size, zero);
      assert size <= old(total) ==> Contents() == old(Contents());
      ok := CutTo(size);
    }

    method GrowTo(size: nat, zero: T)
      requires Valid() && size < Pow2(count)
      modifies this, entities
      ensures Valid() && total == (if size <= old(total) then old(total) else size)
      ensures Contents() == old(Contents()) + seq(total - old(total), _ => zero)
      ensures forall i: nat :: i < old(total) ==> Address(i) == old(Address(i))
    {
      ghost var n := total;
      while size > total
        invariant Valid() && n <= total && (total <= size || total == n)
        invariant Contents() == old(Contents()) + seq(total - n, _ => zero)
        invariant forall i: nat :: i < n ==> Address(i) == old(Address(i))
        invariant forall b: nat :: b < count ==>
          entities[b] == old(entities)[b] || (entities[b] != null && fresh(entities[b]))
        decreases size - total
      {
        EmplaceBack(zero);
      }
    }

    method CutTo(size: nat) returns (ok: bool)
      requires Valid()
      modifies this
      ensures Valid() && (ok <==> !(size < Pow2(count - 1) <= old(total)))
      ensures total == if !ok then Pow2(count - 1) else if size < old(total) then size else old(total)
      ensures Contents() == old(Contents())[..total]
      ensures forall i: nat :: i < total ==> Address(i) == old(Address(i))
    {
      while size < total
        invariant Valid() && total <= old(total) && (size <= total || total == old(total))
          && Contents() == old(Contents())[..total]
        invariant size < Pow2(count - 1) <= old(total) ==> Pow2(count - 1) <= total
        invariant forall i: nat :: i < total ==> Address(i) == old(Address(i))
        decreases total
      {
        var destroyed := PopBack();
        if destroyed.None? {
          return false;
        }
      }
      return true;
    }

    lemma PlacedAt(i: nat, b: nat, j: nat)
      requires Valid() && b < count && entities[b] != null && j < Pow2(b) && i == Element(b, j) && i < total
      ensures Contents()[i] == entities[b][j]
    {
      ElementAt(i, b, j);
      assert Contents()[i] == At(i);
    }

    /** A bucket holds a stretch of the contents. */
    lemma BucketContents(b: nat)
      requires Valid() && b < count && entities[b] != null
      ensures Taken(Pow2(b), total) <= entities[b].Length
      ensures Contents()[..Before(Pow2(b), total)] + entities[b][..Taken(Pow2(b), total)]
        == Contents()[..Before(Pow2(b + 1), total)]
    {
      var piece := entities[b][..Taken(Pow2(b), total)];
      var all, p := Contents(), Pow2(b);
      forall j: nat | j < |piece| ensures p + j - 1 < total && piece[j] == all[p + j - 1] {
        PlacedAt(p + j - 1, b, j);
      }
      Stretch(all, piece, p);
    }

    /** The destructor: visits every element once, in order, and frees every bucket. */
    method Destroy() returns (visited: seq<T>)
      requires Valid()
      modifies `entities
      ensures visited == old(Contents())
      ensures |entities| == count && forall b: nat :: b < count ==> entities[b] == null
    {
      visited := [];
      ghost var all := Contents();
      forall b: nat | b < count && entities[b] != null
        ensures Taken(Pow2(b), total) <= entities[b].Length
        ensures all[..Before(Pow2(b), total)] + entities[b][..Taken(Pow2(b), total)]
          == all[..Before(Pow2(b + 1), total)]
      {
        BucketContents(b);
      }
      var i := 0;
      while i < count && entities[i] != null
        invariant i <= count && |entities| == count && visited == all[..Before(Pow2(i), total)]
        invariant forall b: nat :: b < i ==> entities[b] == null
        invariant forall b: nat :: i <= b < count ==> entities[b] == old(entities)[b]
      {
        var bucket := VisitBucket(i, entities[i]);
        visited := visited + bucket;
        entities := entities[i := null];
        i := i + 1;
      }
      if i < count {
        UsedCovers(total, i);
      }
    }

    method VisitBucket(i: nat, bucket: array<T>) returns (visited: seq<T>)
      requires bucket.Length == Pow2(i)
      ensures Taken(Pow2(i), total) <= bucket.Length && visited == bucket[..Taken(Pow2(i), total)]
    {
      visited := [];
      var j := 0;
      while j < Pow2(i) && j + Pow2(i) < total + 1
        invariant 0 <= j <= Pow2(i) && (j == 0 || j + Pow2(i) <= total + 1) && visited == bucket[..j]
      {
        visited := visited + [bucket[j]];
        j := j + 1;
      }
    }
  }

  /** How many elements come before a bucket of `p` places, and how many are in it. */
  function Before(p: nat, total: nat): nat
    requires p > 0
  {
    if p - 1 < total then p - 1 else total
  }

  function Taken(p: nat, total: nat): nat { if total < p then 0 else if total + 1 - p < p then total + 1 - p else p }

  lemma Stretch<T>(all: seq<T>, piece: seq<T>, p: nat)
    requires p > 0 && |piece| == Taken(p, |all|) && forall j: nat :: j < |piece| ==>
      p + j - 1 < |all| && piece[j] == all[p + j - 1]
    ensures all[..Before(p, |all|)] + piece == all[..Before(2 * p, |all|)]
  {
  }
}

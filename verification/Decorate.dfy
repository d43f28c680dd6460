/** The table that attaches a decoration to an object (decorate.c): open addressing with linear
    probing, growing when it is two thirds full. */
module Decorate {
  import opened Basics

  /** A decoration of NULL is None. */
  datatype Slot<O, D> = Empty | Slot(base: O, decoration: Option<D>)

  // ---------------------------------------------------------------- probing

  /** The slots from h up to, not including, k, going round the end. */
  predicate Between(h: nat, k: nat, j: nat) {
    if h <= k then h <= j < k else h <= j || j < k
  }

  function Distance(from: nat, to: nat, size: nat): int {
    if from <= to then to - from else to + size - from
  }

  ghost predicate Holds<O, D>(s: seq<Slot<O, D>>, k: nat, x: O) {
    k < |s| && s[k].Slot? && s[k].base == x
  }

  function Home<O>(hash: O -> nat, x: O, size: nat): (h: nat)
    requires size > 0
    ensures h < size
  {
    hash(x) % size
  }

  /** No empty slot stands between an object's home and its slot. */
  ghost predicate Reachable<O, D>(s: seq<Slot<O, D>>, hash: O -> nat, k: nat)
    requires k < |s|
  {
    s[k].Slot? ==> forall j :: 0 <= j < |s| && Between(Home(hash, s[k].base, |s|), k, j) ==> s[j].Slot?
  }

  ghost predicate Once<O, D>(s: seq<Slot<O, D>>) {
    forall k, l :: 0 <= k < l < |s| && s[k].Slot? && s[l].Slot? ==> s[k].base != s[l].base
  }

  ghost predicate Table<O, D>(s: seq<Slot<O, D>>, hash: O -> nat) {
    Once(s) && forall k :: 0 <= k < |s| ==> Reachable(s, hash, k)
  }

  /** What the table says of an object. */
  ghost function View<O, D>(s: seq<Slot<O, D>>, x: O): Option<D> {
    if exists k: nat :: Holds(s, k, x) then var k: nat :| Holds(s, k, x); s[k].decoration else None
  }

  lemma ViewAt<O, D>(s: seq<Slot<O, D>>, k: nat, x: O)
    requires Once(s) && Holds(s, k, x)
    ensures View(s, x) == s[k].decoration
  {
  }

  function Used<O, D>(s: seq<Slot<O, D>>): (n: nat)
    ensures n <= |s|
  {
    if s == [] then 0 else Used(s[..|s| - 1]) + if s[|s| - 1].Empty? then 0 else 1
  }

  lemma {:induction false} EmptyRemains<O, D>(s: seq<Slot<O, D>>) returns (e: nat)
    requires Used(s) < |s|
    ensures e < |s| && s[e].Empty?
  {
    if s[|s| - 1].Empty? {
      e := |s| - 1;
    } else {
      e := EmptyRemains(s[..|s| - 1]);
    }
  }

  lemma {:induction false} UsedAfter<O, D>(s: seq<Slot<O, D>>, k: nat, slot: Slot<O, D>)
    requires k < |s| && slot.Slot?
    ensures Used(s[k := slot]) == Used(s) + if s[k].Empty? then 1 else 0
  {
    var last := |s| - 1;
    if k == last {
      assert s[k := slot][..last] == s[..last];
    } else {
      UsedAfter(s[..last], k, slot);
      assert s[k := slot][..last] == s[..last][k := slot];
    }
  }

  lemma {:induction false} UsedNone<O, D>(s: seq<Slot<O, D>>)
    requires forall k :: 0 <= k < |s| ==> s[k].Empty?
    ensures Used(s) == 0
  {
    if s != [] {
      UsedNone(s[..|s| - 1]);
    }
  }

  /** Where probing for x has come to, having seen only other objects. */
  ghost predicate Probing<O, D>(s: seq<Slot<O, D>>, hash: O -> nat, x: O, j: nat) {
    j < |s| && forall i :: 0 <= i < |s| && Between(Home(hash, x, |s|), j, i) ==> s[i].Slot? && s[i].base != x
  }

  /** Probing stops at the object's slot, or at an empty one when it has none. */
  lemma ProbeEnds<O, D>(s: seq<Slot<O, D>>, hash: O -> nat, x: O, j: nat)
    requires Table(s, hash) && Probing(s, hash, x, j)
    ensures s[j].Empty? ==> View(s, x) == None && forall k: nat :: !Holds(s, k, x)
  {
    if s[j].Empty? {
      forall k: nat | k < |s|
        ensures !Holds(s, k, x)
      {
        assert Reachable(s, hash, k);
      }
    }
  }

  /** A decoration put where probing ended. */
  lemma Placed<O, D>(s: seq<Slot<O, D>>, hash: O -> nat, x: O, j: nat, d: Option<D>)
    requires Table(s, hash) && Probing(s, hash, x, j) && (s[j].Empty? || s[j].base == x)
    ensures Table(s[j := Slot(x, d)], hash) && View(s[j := Slot(x, d)], x) == d
    ensures forall y :: y != x ==> View(s[j := Slot(x, d)], y) == View(s, y)
  {
    var t := s[j := Slot(x, d)];
    ProbeEnds(s, hash, x, j);
    forall k | 0 <= k < |t|
      ensures Reachable(t, hash, k)
    {
      assert Reachable(s, hash, k);
    }
    forall k | 0 <= k < |t| && k != j && t[k].Slot?
      ensures t[k].base != x
    {
      assert !s[j].Empty? || !Holds(s, k, x);
    }
    ViewAt(t, j, x);
    forall y | y != x
      ensures View(t, y) == View(s, y)
    {
      ViewKept(s, t, j, y);
    }
  }

  lemma ViewKept<O, D>(s: seq<Slot<O, D>>, t: seq<Slot<O, D>>, j: nat, y: O)
    requires Once(s) && Once(t) && j < |s| == |t| && t == s[j := t[j]] && !Holds(s, j, y) && !Holds(t, j, y)
    ensures View(t, y) == View(s, y)
  {
    assert forall k: nat :: Holds(t, k, y) <==> Holds(s, k, y);
    if k: nat :| Holds(s, k, y) {
      ViewAt(s, k, y);
      ViewAt(t, k, y);
    }
  }

  /** Reading the slots of the old table one by one. */
  lemma UsedOneMore<O, D>(s: seq<Slot<O, D>>, i: nat)
    requires i < |s|
    ensures Used(s[..i + 1]) == Used(s[..i]) + if s[i].Empty? then 0 else 1
  {
    assert s[..i + 1][..i] == s[..i];
  }

  lemma ViewOneMore<O, D>(s: seq<Slot<O, D>>, i: nat, x: O)
    requires Once(s) && i < |s|
    ensures View(s[..i + 1], x) == if Holds(s, i, x) then s[i].decoration else View(s[..i], x)
    ensures Holds(s, i, x) ==> View(s[..i], x) == None
  {
    var t, u := s[..i], s[..i + 1];
    assert forall k: nat :: Holds(u, k, x) <==> Holds(t, k, x) || (k == i && Holds(s, i, x));
    if Holds(s, i, x) {
      ViewAt(u, i, x);
    } else if k: nat :| Holds(t, k, x) {
      ViewAt(t, k, x);
      ViewAt(u, k, x);
    }
  }

  // ---------------------------------------------------------------- the table in place

  class Decoration<O(==), D> {
    const hashOf: O -> nat
    var size: nat
    var nr: nat
    var hash: array<Slot<O, D>>

    constructor (hashOf: O -> nat)
      ensures Valid() && fresh(hash) && this.hashOf == hashOf
      ensures forall x :: View(hash[..], x) == None
    {
      this.hashOf, size, nr := hashOf, 0, 0;
      hash := new Slot<O, D>[0];
    }

    /** At most two thirds of the slots are used. */
    ghost predicate Valid()
      reads this, hash
    {
      && hash.Length == size && Table(hash[..], hashOf)
      && nr == Used(hash[..]) && 3 * nr <= 2 * size
    }

    /** The slot where probing for an object ends: its own or the first empty one. */
    method Probe(obj: O) returns (j: nat)
      requires hash.Length == size && Used(hash[..]) < size
      ensures Probing(hash[..], hashOf, obj, j) && (hash[j].Empty? || hash[j].base == obj)
    {
      ghost var s := hash[..];
      ghost var e := EmptyRemains(s);
      j := Home(hashOf, obj, size);
      ghost var h := j;
      while hash[j].Slot? && hash[j].base != obj
        invariant Probing(s, hashOf, obj, j)
        invariant Distance(h, j, size) + Distance(j, e, size) == Distance(h, e, size)
        decreases Distance(j, e, size)
      {
        j := j + 1;
        if j == size {
          j := 0;
        }
      }
    }

    method InsertDecoration(base: O, decoration: Option<D>) returns (previous: Option<D>)
      requires hash.Length == size && Table(hash[..], hashOf) && nr == Used(hash[..]) < size
      modifies this`nr, hash
      ensures Table(hash[..], hashOf) && nr == Used(hash[..]) && old(nr) <= nr <= old(nr) + 1
      ensures previous == View(old(hash[..]), base) && View(hash[..], base) == decoration
      ensures forall x :: x != base ==> View(hash[..], x) == View(old(hash[..]), x)
    {
      ghost var s := hash[..];
      var j := Probe(base);
      ProbeEnds(s, hashOf, base, j);
      Placed(s, hashOf, base, j, decoration);
      UsedAfter(s, j, Slot(base, decoration));
      if hash[j].Slot? {
        ViewAt(s, j, base);
        previous := hash[j].decoration;
        hash[j] := Slot(base, decoration);
      } else {
        previous := None;
        hash[j] := Slot(base, decoration);
        nr := nr + 1;
      }
      assert hash[..] == s[j := Slot(base, decoration)];
    }

    /** A larger table with the same decorations; slots with a null decoration are dropped. */
    method GrowDecoration()
      requires Valid()
      modifies this`size, this`nr, this`hash
      ensures Valid() && fresh(hash) && size == (old(size) + 1000) * 3 / 2 && nr <= old(nr)
      ensures forall x :: View(hash[..], x) == View(old(hash[..]), x)
    {
      var oldSize, oldHash := size, hash;
      ghost var was := hash[..];
      size := (oldSize + 1000) * 3 / 2;
      hash := new Slot<O, D>[size](_ => Empty);
      nr := 0;
      UsedNone(hash[..]);
      var i := 0;
      while i < oldSize
        invariant i <= oldSize && hash.Length == size == (oldSize + 1000) * 3 / 2 && fresh(hash) && was == oldHash[..]
        invariant Table(hash[..], hashOf) && nr == Used(hash[..]) <= Used(was[..i])
        invariant forall x :: View(hash[..], x) == View(was[..i], x)
      {
        MoveSlot(oldHash[i], was, i);
        i := i + 1;
      }
      assert was[..i] == was;
    }

    /** One slot of the old table; the slots before it are in the new one. */
    method MoveSlot(slot: Slot<O, D>, ghost was: seq<Slot<O, D>>, ghost i: nat)
      requires Once(was) && i < |was| < size && slot == was[i]
      requires hash.Length == size && Table(hash[..], hashOf) && nr == Used(hash[..]) <= Used(was[..i])
      requires forall x :: View(hash[..], x) == View(was[..i], x)
      modifies this`nr, hash
      ensures Table(hash[..], hashOf) && nr == Used(hash[..]) <= Used(was[..i + 1])
      ensures forall x :: View(hash[..], x) == View(was[..i + 1], x)
    {
      hide Table;
      UsedOneMore(was, i);
      if slot.Slot? && slot.decoration.Some? {
        var _ := InsertDecoration(slot.base, slot.decoration);
      }
      forall x
        ensures View(was[..i + 1], x) == if Holds(was, i, x) then was[i].decoration else View(was[..i], x)
        ensures Holds(was, i, x) ==> View(was[..i], x) == None
      {
        ViewOneMore(was, i, x);
      }
    }

    /** Attaches a decoration and returns the one there was before. */
    method AddDecoration(obj: O, decoration: Option<D>) returns (previous: Option<D>)
      requires Valid()
      modifies this`size, this`nr, this`hash, hash
      ensures Valid() && (hash == old(hash) || fresh(hash))
      ensures previous == View(old(hash[..]), obj) && View(hash[..], obj) == decoration
      ensures forall x :: x != obj ==> View(hash[..], x) == View(old(hash[..]), x)
    {
      if nr + 1 > size * 2 / 3 {
        GrowDecoration();
      }
      previous := InsertDecoration(obj, decoration);
    }

    method LookupDecoration(obj: O) returns (decoration: Option<D>)
      requires Valid()
      ensures decoration == View(hash[..], obj)
    {
      if size == 0 {
        return None;
      }
      ghost var s := hash[..];
      var j := Probe(obj);
      ProbeEnds(s, hashOf, obj, j);
      if hash[j].Slot? {
        ViewAt(s, j, obj);
        return hash[j].decoration;
      }
      return None;
    }
  }
}

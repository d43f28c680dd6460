/** What paint_down_to_common leaves behind, in terms of ancestry (commit.c). */
module PaintDown {
  import opened CommitGraph
  import opened Painting

  // ---------------------------------------------------------------- what the painting means

  ghost function Ancestors(G: set<Commit>, ds: seq<Commit>): set<Commit> {
    set c | c in G && ReachAny(ds, c)
  }

  ghost predicate BelowCommon(G: set<Commit>, one: Commit, twos: seq<Commit>, c: Commit)
  {
    exists m :: m in G && Reach(one, m) && ReachAny(twos, m) && Proper(m, c)
  }

  ghost function Low(G: set<Commit>, one: Commit, twos: seq<Commit>): set<Commit> {
    set c | c in G && BelowCommon(G, one, twos, c)
  }

  lemma ReachAnyStep(ds: seq<Commit>, c: Commit, p: Commit)
    requires ReachAny(ds, c) && p in c.parents
    ensures ReachAny(ds, p)
  {
    var i :| 0 <= i < |ds| && Reach(ds[i], c);
    ReachStep(ds[i], c, p);
  }

  lemma ReachAnyOne(one: Commit, c: Commit)
    ensures ReachAny([one], c) <==> Reach(one, c)
  {
    assert [one][0] == one;
  }

  lemma AncestorsFormRegion(G: set<Commit>, one: Commit, twos: seq<Commit>)
    requires Dag(G)
    ensures Region(G, Ancestors(G, [one]), Ancestors(G, twos), Low(G, one, twos))
  {
    forall c, p | c in G && p in c.parents
      ensures p in G
      ensures ReachAny([one], c) ==> ReachAny([one], p)
      ensures ReachAny(twos, c) ==> ReachAny(twos, p)
      ensures ReachAny([one], c) && ReachAny(twos, c) ==> BelowCommon(G, one, twos, p)
    {
      if ReachAny([one], c) {
        ReachAnyStep([one], c, p);
      }
      if ReachAny(twos, c) {
        ReachAnyStep(twos, c, p);
      }
      ReachAnyOne(one, c);
      ReachSelf(p);
      assert Proper(c, p);
    }
  }

  /** The state in which the walk stops: only stale commits may be unsettled. */
  ghost predicate Painted(G: set<Commit>, one: Commit, twos: seq<Commit>, f: FlagMap, result: seq<Commit>)
  {
    && Invariant(G, Ancestors(G, [one]), Ancestors(G, twos), Low(G, one, twos), {one} + Elems(twos),
                 f, StaleOnes(G, f), result)
    && one in G && Parent1 in f[one]
    && (forall t :: t in twos ==> t in G && Parent2 in f[t])
  }

  ghost predicate BelowStale(G: set<Commit>, f: FlagMap, c: Commit)
  {
    exists s :: s in G && s in f && Stale in f[s] && Proper(s, c)
  }

  /** Every commit that is not stale has handed its colours to its parents. */
  ghost predicate ColoursHandedOn(G: set<Commit>, f: FlagMap)
    requires f.Keys == G
  {
    forall d, p :: d in G && Stale !in f[d] && p in d.parents ==> p in G && f[d] * {Parent1, Parent2} <= f[p]
  }

  lemma PaintedHandsOn(G: set<Commit>, one: Commit, twos: seq<Commit>, f: FlagMap, result: seq<Commit>)
    requires Painted(G, one, twos, f, result)
    ensures ColoursHandedOn(G, f)
  {
    forall d, p | d in G && Stale !in f[d] && p in d.parents
      ensures p in G && f[d] * {Parent1, Parent2} <= f[p]
    {
      assert Settled(f, d);
      assert f[d] * {Parent1, Parent2} <= Passed(f[d]);
    }
  }

  /** A colour spreads to every ancestor, except perhaps to ancestors of a stale commit. */
  lemma {:induction false} Spread(G: set<Commit>, f: FlagMap, colour: Flag, d: Commit, c: Commit, n: nat)
    requires Dag(G) && f.Keys == G && ColoursHandedOn(G, f)
    requires colour in {Parent1, Parent2} && d in G && colour in f[d] && ReachIn(d, c, n)
    ensures c in G && (colour in f[c] || BelowStale(G, f, c))
  {
    if n > 0 {
      var p :| p in d.parents && ReachIn(p, c, n - 1);
      if Stale in f[d] {
        assert Reach(p, c);
        assert Proper(d, c);
        ReachInClosed(G, d, c, n);
      } else {
        assert colour in f[d] * {Parent1, Parent2};
        Spread(G, f, colour, p, c, n - 1);
      }
    }
  }

  lemma SpreadFromStarts(G: set<Commit>, one: Commit, twos: seq<Commit>, f: FlagMap, result: seq<Commit>, c: Commit)
    requires Dag(G) && Painted(G, one, twos, f, result) && c in G
    ensures Reach(one, c) ==> Parent1 in f[c] || BelowStale(G, f, c)
    ensures ReachAny(twos, c) ==> Parent2 in f[c] || BelowStale(G, f, c)
  {
    PaintedHandsOn(G, one, twos, f, result);
    if Reach(one, c) {
      var n: nat :| ReachIn(one, c, n);
      Spread(G, f, Parent1, one, c, n);
    }
    if ReachAny(twos, c) {
      var i :| 0 <= i < |twos| && Reach(twos[i], c);
      assert twos[i] in twos;
      var n: nat :| ReachIn(twos[i], c, n);
      Spread(G, f, Parent2, twos[i], c, n);
    }
  }

  /** Below a stale commit there is no best common ancestor, and nothing that reaches one again. */
  lemma BelowStaleIsLow(G: set<Commit>, one: Commit, twos: seq<Commit>, f: FlagMap, result: seq<Commit>, c: Commit)
    requires Dag(G) && Painted(G, one, twos, f, result) && BelowStale(G, f, c)
    ensures BelowCommon(G, one, twos, c)
  {
    var s :| s in G && s in f && Stale in f[s] && Proper(s, c);
    assert s in Ancestors(G, [one]) && s in Ancestors(G, twos);
    ReachAnyOne(one, s);
  }

  lemma LowIsNoMergeBase(G: set<Commit>, one: Commit, twos: seq<Commit>, c: Commit)
    requires Dag(G) && one in G && BelowCommon(G, one, twos, c)
    ensures !IsMergeBase(G, one, twos, c)
    ensures c != one
  {
    var m :| m in G && Reach(one, m) && ReachAny(twos, m) && Proper(m, c);
    assert Common(one, twos, m);
    if c == one {
      ProperTrans(one, m, one);
    }
  }

  lemma MergeBaseIsRecorded(G: set<Commit>, one: Commit, twos: seq<Commit>, f: FlagMap, result: seq<Commit>, c: Commit)
    requires Dag(G) && Painted(G, one, twos, f, result) && twos != []
    requires c in G && IsMergeBase(G, one, twos, c)
    ensures c in result && Stale !in f[c]
  {
    SpreadFromStarts(G, one, twos, f, result, c);
    if BelowStale(G, f, c) {
      BelowStaleIsLow(G, one, twos, f, result, c);
      LowIsNoMergeBase(G, one, twos, c);
    } else if Stale in f[c] {
      LowIsNoMergeBase(G, one, twos, c);
    } else {
      assert Settled(f, c);
    }
  }

  /** Stopping early costs nothing: the flags and the list still answer the question. */
  lemma PaintedGivesVerdict(G: set<Commit>, one: Commit, twos: seq<Commit>, f: FlagMap, result: seq<Commit>)
    requires Dag(G) && Painted(G, one, twos, f, result) && twos != []
    ensures Verdict(G, one, twos, f, result)
  {
    forall c | c in G
      ensures Parent1 in f[c] ==> Reach(one, c)
      ensures Parent2 in f[c] ==> ReachAny(twos, c)
      ensures Stale in f[c] ==> {Parent1, Parent2} <= f[c] && !IsMergeBase(G, one, twos, c)
      ensures c in result ==> Common(one, twos, c)
      ensures IsMergeBase(G, one, twos, c) ==> c in result && Stale !in f[c]
    {
      FlagsAreTrue(G, one, twos, f, c);
      if IsMergeBase(G, one, twos, c) {
        MergeBaseIsRecorded(G, one, twos, f, result, c);
      }
    }
    SpreadFromStarts(G, one, twos, f, result, one);
    if BelowStale(G, f, one) {
      BelowStaleIsLow(G, one, twos, f, result, one);
      LowIsNoMergeBase(G, one, twos, one);
    }
  }

  lemma FlagsAreTrue(G: set<Commit>, one: Commit, twos: seq<Commit>, f: FlagMap, c: Commit)
    requires Dag(G) && one in G && f.Keys == G && c in G
    requires Sound(G, Ancestors(G, [one]), Ancestors(G, twos), Low(G, one, twos), f)
    ensures Parent1 in f[c] ==> Reach(one, c)
    ensures Parent2 in f[c] ==> ReachAny(twos, c)
    ensures Stale in f[c] ==> {Parent1, Parent2} <= f[c] && !IsMergeBase(G, one, twos, c)
    ensures Result in f[c] ==> {Parent1, Parent2} <= f[c]
  {
    ReachAnyOne(one, c);
    if Stale in f[c] {
      LowIsNoMergeBase(G, one, twos, c);
    }
  }

  // ---------------------------------------------------------------- paint_down_to_common

  /** f' is f with one coloured PARENT1 and the commits of seen coloured PARENT2. */
  ghost predicate Started(G: set<Commit>, one: Commit, seen: set<Commit>, f: FlagMap, f': FlagMap)
  {
    && f.Keys == f'.Keys == G
    && forall c :: c in G ==> f'[c] == f[c] + Colours(one, seen, c)
  }

  ghost function Colours(one: Commit, seen: set<Commit>, c: Commit): set<Flag> {
    (if c == one then {Parent1} else {}) + (if c in seen then {Parent2} else {})
  }

  lemma StartOne(G: set<Commit>, one: Commit, f: FlagMap)
    requires f.Keys == G && one in G
    ensures Started(G, one, {}, f, f[one := f[one] + {Parent1}])
  {
  }

  lemma StartStep(G: set<Commit>, one: Commit, seen: set<Commit>, f: FlagMap, f': FlagMap, t: Commit)
    requires Started(G, one, seen, f, f') && t in G
    ensures Started(G, one, seen + {t}, f, f'[t := f'[t] + {Parent2}])
  {
    forall c | c in G
      ensures f'[t := f'[t] + {Parent2}][c] == f[c] + Colours(one, seen + {t}, c)
    {
      assert f'[c] == f[c] + Colours(one, seen, c);
      if c == t {
        assert Colours(one, seen + {t}, t) == Colours(one, seen, t) + {Parent2};
      }
    }
  }

  lemma StartedKeepsOthers(G: set<Commit>, one: Commit, seen: set<Commit>, f: FlagMap, f1: FlagMap, f2: FlagMap)
    requires Started(G, one, seen, f, f1) && f2.Keys == G && OthersKept(G, f1, f2)
    ensures OthersKept(G, f, f2)
  {
    forall c | c in G
      ensures f2[c] - ALL_FLAGS == f[c] - ALL_FLAGS && f[c] <= f2[c]
    {
      assert f1[c] == f[c] + Colours(one, seen, c);
      assert (f[c] + Colours(one, seen, c)) - ALL_FLAGS == f[c] - ALL_FLAGS;
    }
  }

  lemma StartingInvariant(G: set<Commit>, one: Commit, twos: seq<Commit>, f: FlagMap, f': FlagMap)
    requires Dag(G) && one in G && Elems(twos) <= G && Started(G, one, Elems(twos), f, f')
    requires forall c :: c in G ==> f[c] * ALL_FLAGS == {}
    ensures Invariant(G, Ancestors(G, [one]), Ancestors(G, twos), Low(G, one, twos), {one} + Elems(twos),
                      f', {one} + Elems(twos), [])
  {
    ReachSelf(one);
    ReachAnyOne(one, one);
    forall t | t in twos
      ensures t in Ancestors(G, twos)
    {
      var i :| 0 <= i < |twos| && twos[i] == t;
      ReachSelf(t);
      assert ReachAny(twos, t);
    }
    StartingFlags(G, one, twos, f, f');
  }

  lemma StartingFlags(G: set<Commit>, one: Commit, twos: seq<Commit>, f: FlagMap, f': FlagMap)
    requires Dag(G) && one in G && Started(G, one, Elems(twos), f, f')
    requires forall c :: c in G ==> f[c] * ALL_FLAGS == {}
    ensures forall c :: c in G && c !in {one} + Elems(twos) ==> f'[c] * ALL_FLAGS == {} && Settled(f', c)
    ensures forall c, x :: c in G && x in f'[c] && x in ALL_FLAGS ==>
      (x == Parent1 && c == one) || (x == Parent2 && c in twos)
  {
    hide Proper;
    forall c | c in G && c !in {one} + Elems(twos)
      ensures f'[c] * ALL_FLAGS == {} && Settled(f', c)
    {
      assert f'[c] == f[c];
      assert f[c] * PAINT <= f[c] * ALL_FLAGS;
      assert Parent1 !in f[c] * ALL_FLAGS;
    }
    forall c, x | c in G && x in f'[c] && x in ALL_FLAGS
      ensures (x == Parent1 && c == one) || (x == Parent2 && c in twos)
    {
      assert x !in f[c] * ALL_FLAGS;
    }
  }

  /** The starting points get their colours and are queued. */
  method StartPainting(one: Commit, twos: seq<Commit>, ghost G: set<Commit>) returns (queue: multiset<Commit>)
    requires one in G && Elems(twos) <= G
    modifies G`flags
    ensures Started(G, one, Elems(twos), old(Snap(G)), Snap(G))
    ensures Queued(queue) == {one} + Elems(twos)
  {
    hide Started;
    ghost var f := Snap(G);
    StartOne(G, one, f);
    one.flags := one.flags + {Parent1};
    assert Snap(G) == f[one := f[one] + {Parent1}];
    queue := multiset{one};
    assert Queued(queue) == {one} && Elems(twos[..0]) == {};
    var i := 0;
    while i < |twos|
      invariant 0 <= i <= |twos|
      invariant Started(G, one, Elems(twos[..i]), f, Snap(G))
      invariant Queued(queue) == {one} + Elems(twos[..i])
    {
      assert twos[i] in Elems(twos);
      ElemsOneMore(twos, i);
      queue := PaintTwo(twos[i], queue, G, one, Elems(twos[..i]), f);
      i := i + 1;
    }
    assert twos[..|twos|] == twos;
  }

  method PaintTwo(t: Commit, queue0: multiset<Commit>, ghost G: set<Commit>, ghost one: Commit, ghost seen: set<Commit>,
                  ghost f: FlagMap)
    returns (queue: multiset<Commit>)
    requires t in G && Started(G, one, seen, f, Snap(G))
    modifies G`flags
    ensures Started(G, one, seen + {t}, f, Snap(G)) && Queued(queue) == Queued(queue0) + {t}
  {
    hide Started;
    ghost var f1 := Snap(G);
    StartStep(G, one, seen, f, f1, t);
    QueuedOneMore(queue0, t);
    t.flags := t.flags + {Parent2};
    queue := queue0 + multiset{t};
    assert Snap(G) == f1[t := f1[t] + {Parent2}];
  }

  /** paint_down_to_common. */
  method PaintDownToCommon(one: Commit, twos: seq<Commit>, ghost G: set<Commit>) returns (result: seq<Commit>)
    requires Dag(G) && one in G && Elems(twos) <= G && Clean(G)
    modifies G`flags
    ensures Verdict(G, one, twos, Snap(G), result)
    ensures Rooted(G, {one} + Elems(twos), Snap(G))
    ensures OthersKept(G, old(Snap(G)), Snap(G))
  {
    ghost var f := Snap(G);
    if twos == [] {
      one.flags := one.flags + {Parent1};
      result := [one];
      NothingToCompare(G, one, f, Snap(G));
      return;
    }
    var queue := StartPainting(one, twos, G);
    ghost var f1 := Snap(G);
    StartingInvariant(G, one, twos, f, f1);
    AncestorsFormRegion(G, one, twos);
    result := Paint(queue, G, Ancestors(G, [one]), Ancestors(G, twos), Low(G, one, twos), {one} + Elems(twos));
    FinishPainting(G, one, twos, f, f1, Snap(G), result);
  }

  lemma FinishPainting(G: set<Commit>, one: Commit, twos: seq<Commit>, f: FlagMap, f1: FlagMap, f2: FlagMap,
                       result: seq<Commit>)
    requires Dag(G) && one in G && Elems(twos) <= G && twos != []
    requires Started(G, one, Elems(twos), f, f1) && OthersKept(G, f1, f2)
    requires Invariant(G, Ancestors(G, [one]), Ancestors(G, twos), Low(G, one, twos), {one} + Elems(twos),
                       f2, StaleOnes(G, f2), result)
    ensures Verdict(G, one, twos, f2, result)
    ensures Rooted(G, {one} + Elems(twos), f2)
    ensures OthersKept(G, f, f2)
  {
    assert Parent1 in Colours(one, Elems(twos), one);
    forall t | t in twos
      ensures t in G && Parent2 in f2[t]
    {
      assert t in Elems(twos);
      assert Parent2 in Colours(one, Elems(twos), t);
    }
    StartedKeepsOthers(G, one, Elems(twos), f, f1, f2);
    PaintedGivesVerdict(G, one, twos, f2, result);
  }

  lemma NothingToCompare(G: set<Commit>, one: Commit, f: FlagMap, f': FlagMap)
    requires Dag(G) && one in G && f.Keys == G && f' == f[one := f[one] + {Parent1}]
    requires forall c :: c in G ==> f[c] * ALL_FLAGS == {}
    ensures Verdict(G, one, [], f', [one])
    ensures Rooted(G, {one}, f')
    ensures OthersKept(G, f, f')
  {
    ReachSelf(one);
    forall c, x | c in G && x in f'[c] && x in ALL_FLAGS
      ensures x == Parent1 && c == one
    {
      assert x !in f[c] * ALL_FLAGS;
    }
    forall c | c in G && IsMergeBase(G, one, [], c)
      ensures c == one
    {
      ReachIsSelfOrProper(one, c);
      assert Common(one, [], one);
    }
  }
}

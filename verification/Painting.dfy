/** The painting walk behind every merge-base question (commit.c, paint_down_to_common).
    The walk stops as soon as only STALE commits are queued, long before the whole
    history is painted; this module proves what its flags are still worth then. */
module Painting {
  import opened CommitGraph

  const PAINT: set<Flag> := {Parent1, Parent2, Stale}

  ghost function Snap(G: set<Commit>): (f: FlagMap)
    reads G
  {
    map c | c in G :: c.flags
  }

  /** No commit of G carries a flag of the merge-base code. */
  ghost predicate Clean(G: set<Commit>)
    reads G
  {
    forall c :: c in G ==> c.flags * ALL_FLAGS == {}
  }

  // ---------------------------------------------------------------- the question

  /** c is an ancestor of one and, unless there are no twos, of some two. */
  ghost predicate Common(one: Commit, twos: seq<Commit>, c: Commit)
  {
    Reach(one, c) && (twos == [] || ReachAny(twos, c))
  }

  /** The best common ancestors: common, and not a proper ancestor of another common one. */
  ghost predicate IsMergeBase(G: set<Commit>, one: Commit, twos: seq<Commit>, c: Commit)
  {
    Common(one, twos, c) && forall m :: m in G && Common(one, twos, m) ==> !Proper(m, c)
  }

  /** What the flags and the result list are worth when the walk stops. */
  ghost predicate Verdict(G: set<Commit>, one: Commit, twos: seq<Commit>, f: FlagMap, result: seq<Commit>)
    requires f.Keys == G && one in G
  {
    && (forall c :: c in G && Parent1 in f[c] ==> Reach(one, c))
    && (forall c :: c in G && Parent2 in f[c] ==> ReachAny(twos, c))
    && (forall c :: c in G && Stale in f[c] ==> {Parent1, Parent2} <= f[c] && !IsMergeBase(G, one, twos, c))
    && (Parent2 in f[one] <==> ReachAny(twos, one))
    && (forall c :: c in result ==> c in G && Common(one, twos, c))
    && (forall c :: c in G && IsMergeBase(G, one, twos, c) ==> c in result && Stale !in f[c])
    && Distinct(result) && ByDate(result)
  }

  // ---------------------------------------------------------------- the invariant
  // A holds the ancestors of one, B those of the twos, and Low what lies properly below
  // a common ancestor.  The walk only needs to know how these sets lie along parent edges.

  ghost predicate Region(G: set<Commit>, A: set<Commit>, B: set<Commit>, Low: set<Commit>)
  {
    forall c, p :: c in G && p in c.parents ==>
      && p in G
      && (c in A ==> p in A)
      && (c in B ==> p in B)
      && (c in A && c in B ==> p in Low)
  }

  /** The flags a commit hands on to its parents: a common ancestor makes them stale. */
  function Passed(flags: set<Flag>): set<Flag> {
    var painted := flags * PAINT;
    if painted == {Parent1, Parent2} then painted + {Stale} else painted
  }

  /** Every flag tells the truth. */
  ghost predicate Sound(G: set<Commit>, A: set<Commit>, B: set<Commit>, Low: set<Commit>, f: FlagMap)
    requires f.Keys == G
  {
    forall c :: c in G ==>
      && (Parent1 in f[c] ==> c in A)
      && (Parent2 in f[c] ==> c in B)
      && (Stale in f[c] ==> Parent1 in f[c] && Parent2 in f[c] && c in Low)
      && (Result in f[c] ==> Parent1 in f[c] && Parent2 in f[c])
  }

  ghost predicate Flagged(f: FlagMap, c: Commit)
  {
    c in f && f[c] * ALL_FLAGS != {}
  }

  ghost predicate HasFlaggedChild(G: set<Commit>, f: FlagMap, c: Commit)
  {
    exists d :: d in G && Flagged(f, d) && c in d.parents
  }

  /** Every flagged commit is a starting point or the parent of a flagged commit. */
  ghost predicate Rooted(G: set<Commit>, starts: set<Commit>, f: FlagMap)
  {
    forall c :: c in G && Flagged(f, c) ==> c in starts || HasFlaggedChild(G, f, c)
  }

  /** c has handed on all it has to, and was recorded if it is a candidate. */
  ghost predicate Settled(f: FlagMap, c: Commit)
    requires c in f
  {
    && (forall p :: p in c.parents ==> p in f && Passed(f[c]) <= f[p])
    && (Parent1 in f[c] && Parent2 in f[c] && Stale !in f[c] ==> Result in f[c])
  }

  ghost predicate Recorded(G: set<Commit>, f: FlagMap, result: seq<Commit>)
    requires f.Keys == G
  {
    && (forall c :: c in G ==> (c in result <==> Result in f[c]))
    && (forall c :: c in result ==> c in G)
    && Distinct(result) && ByDate(result)
  }

  ghost predicate Invariant(G: set<Commit>, A: set<Commit>, B: set<Commit>, Low: set<Commit>,
                            starts: set<Commit>, f: FlagMap, open: set<Commit>, result: seq<Commit>)
  {
    && f.Keys == G
    && Sound(G, A, B, Low, f)
    && Rooted(G, starts, f)
    && (forall c :: c in G && c !in open ==> Settled(f, c))
    && Recorded(G, f, result)
  }

  ghost function StaleOnes(G: set<Commit>, f: FlagMap): set<Commit> {
    set c | c in G && c in f && Stale in f[c]
  }

  // ---------------------------------------------------------------- steps

  /** A commit that is flagged already, or has a flagged child, can be flagged further. */
  lemma RootedGrows(G: set<Commit>, starts: set<Commit>, f: FlagMap, c: Commit, flags: set<Flag>)
    requires f.Keys == G && Rooted(G, starts, f)
    requires c in G && (Flagged(f, c) || HasFlaggedChild(G, f, c))
    ensures Rooted(G, starts, f[c := f[c] + flags])
  {
    var f' := f[c := f[c] + flags];
    forall x | Flagged(f, x)
      ensures Flagged(f', x)
    {
      var y :| y in f[x] * ALL_FLAGS;
      assert y in f'[x] * ALL_FLAGS;
    }
    forall x | x in G && Flagged(f', x)
      ensures x in starts || HasFlaggedChild(G, f', x)
    {
      assert x in starts || HasFlaggedChild(G, f, x);
      if x !in starts {
        var d :| d in G && Flagged(f, d) && x in d.parents;
        assert Flagged(f', d);
      }
    }
  }

  lemma RecordStep(G: set<Commit>, A: set<Commit>, B: set<Commit>, Low: set<Commit>, starts: set<Commit>,
                   f: FlagMap, open: set<Commit>, result: seq<Commit>, c: Commit, result': seq<Commit>)
    requires Invariant(G, A, B, Low, starts, f, open, result)
    requires c in G && Parent1 in f[c] && Parent2 in f[c]
    requires forall x :: x in result' <==> x in result || x == c
    requires Distinct(result') && ByDate(result')
    ensures Invariant(G, A, B, Low, starts, f[c := f[c] + {Result}], open, result')
  {
    var f' := f[c := f[c] + {Result}];
    assert Parent1 in f[c] * ALL_FLAGS;
    RootedGrows(G, starts, f, c, {Result});
    assert (f[c] + {Result}) * PAINT == f[c] * PAINT;
    forall x | x in G && x !in open
      ensures Settled(f', x)
    {
      assert Settled(f, x);
    }
  }

  /** Painting the parent p of c with flags that c passes on. */
  lemma PaintStep(G: set<Commit>, A: set<Commit>, B: set<Commit>, Low: set<Commit>, starts: set<Commit>,
                  f: FlagMap, open: set<Commit>, result: seq<Commit>, c: Commit, p: Commit, flags: set<Flag>)
    requires Region(G, A, B, Low) && Invariant(G, A, B, Low, starts, f, open, result)
    requires c in G && p in c.parents
    requires flags <= PAINT && flags != {} && flags - {Stale} <= f[c]
    requires Stale in flags ==> Parent1 in flags && Parent2 in flags
    ensures Invariant(G, A, B, Low, starts, f[p := f[p] + flags], open + {p}, result)
  {
    var f' := f[p := f[p] + flags];
    assert Parent1 in flags ==> Parent1 in f[c];
    assert Parent2 in flags ==> Parent2 in f[c];
    assert Flagged(f, c) by {
      var x :| x in flags;
      assert (if x == Stale then Parent1 else x) in f[c] * ALL_FLAGS;
    }
    RootedGrows(G, starts, f, p, flags);
    forall x | x in G && x !in open + {p}
      ensures Settled(f', x)
    {
      assert Settled(f, x);
    }
  }

  // ---------------------------------------------------------------- the walk

  /** The flag bits still to be handed out; painting a commit uses some up. */
  ghost function Missing(G: set<Commit>, f: FlagMap): set<(Commit, Flag)>
  {
    set c, x | c in G && c in f && x in PAINT && x !in f[c] :: (c, x)
  }

  lemma MissingShrinks(G: set<Commit>, f: FlagMap, c: Commit, flags: set<Flag>)
    requires c in G && c in f && flags <= PAINT && !(flags <= f[c])
    ensures Missing(G, f[c := f[c] + flags]) < Missing(G, f)
  {
    var x :| x in flags && x !in f[c];
    assert (c, x) in Missing(G, f) - Missing(G, f[c := f[c] + flags]);
  }

  ghost predicate OthersKept(G: set<Commit>, f: FlagMap, f': FlagMap)
  {
    forall c :: c in G && c in f && c in f' ==> f'[c] - ALL_FLAGS == f[c] - ALL_FLAGS && f[c] <= f'[c]
  }

  /** One parent of a popped commit: painted and queued, unless it has all the flags already. */
  method PaintParent(c: Commit, p: Commit, flags: set<Flag>, queue0: multiset<Commit>, ghost result: seq<Commit>,
                     ghost G: set<Commit>, ghost A: set<Commit>, ghost B: set<Commit>, ghost Low: set<Commit>,
                     ghost starts: set<Commit>)
    returns (queue: multiset<Commit>)
    requires Region(G, A, B, Low)
    requires Invariant(G, A, B, Low, starts, Snap(G), Queued(queue0) + {c}, result)
    requires c in G && p in c.parents && flags <= PAINT && flags - {Stale} <= c.flags
    requires Stale in flags ==> Parent1 in flags && Parent2 in flags
    requires Queued(queue0) <= G
    modifies G`flags
    ensures flags <= p.flags
    ensures c.flags == old(c.flags) || c in queue
    ensures queue0 <= queue && Queued(queue) <= G
    ensures Invariant(G, A, B, Low, starts, Snap(G), Queued(queue) + {c}, result)
    ensures OthersKept(G, old(Snap(G)), Snap(G))
    ensures Missing(G, Snap(G)) <= old(Missing(G, Snap(G)))
    ensures queue == queue0 || Missing(G, Snap(G)) < old(Missing(G, Snap(G)))
  {
    hide Invariant, Missing;
    queue := queue0;
    if flags <= p.flags {
      return;
    }
    ghost var f := Snap(G);
    ghost var open := Queued(queue) + {c};
    PaintStep(G, A, B, Low, starts, f, open, result, c, p, flags);
    MissingShrinks(G, f, p, flags);
    p.flags := p.flags + flags;
    queue := queue + multiset{p};
    assert Snap(G) == f[p := f[p] + flags];
    assert Queued(queue) + {c} == open + {p};
  }

  /** The parents of a popped commit are visited one by one. */
  method PaintParents(c: Commit, flags: set<Flag>, queue0: multiset<Commit>, ghost result: seq<Commit>,
                      ghost G: set<Commit>, ghost A: set<Commit>, ghost B: set<Commit>, ghost Low: set<Commit>,
                      ghost starts: set<Commit>)
    returns (queue: multiset<Commit>)
    requires Region(G, A, B, Low)
    requires Invariant(G, A, B, Low, starts, Snap(G), Queued(queue0) + {c}, result)
    requires c in G && flags == Passed(c.flags)
    requires Parent1 in c.flags && Parent2 in c.flags && Stale !in c.flags ==> Result in c.flags
    requires Queued(queue0) <= G
    modifies G`flags
    ensures Queued(queue) <= G
    ensures Invariant(G, A, B, Low, starts, Snap(G), Queued(queue), result)
    ensures OthersKept(G, old(Snap(G)), Snap(G))
    ensures queue == queue0 || Missing(G, Snap(G)) < old(Missing(G, Snap(G)))
    ensures Missing(G, Snap(G)) <= old(Missing(G, Snap(G)))
  {
    hide Region, Invariant, Missing, Settled, Passed;
    queue := queue0;
    ghost var f0 := Snap(G);
    PassedTells(G, A, B, Low, starts, f0, Queued(queue) + {c}, result, c);
    var i := 0;
    while i < |c.parents|
      invariant 0 <= i <= |c.parents|
      invariant Queued(queue) <= G
      invariant Invariant(G, A, B, Low, starts, Snap(G), Queued(queue) + {c}, result)
      invariant c in queue || c.flags == f0[c]
      invariant OthersKept(G, f0, Snap(G))
      invariant PaintedTo(c, Snap(G), flags, i)
      invariant queue0 <= queue
      invariant queue == queue0 || Missing(G, Snap(G)) < Missing(G, f0)
      invariant Missing(G, Snap(G)) <= Missing(G, f0)
    {
      hide PaintedTo;
      ghost var f := Snap(G);
      queue := PaintParent(c, c.parents[i], flags, queue, result, G, A, B, Low, starts);
      PaintedMore(G, A, B, Low, c, f, Snap(G), flags, i);
      i := i + 1;
    }
    CloseOne(G, A, B, Low, starts, Snap(G), Queued(queue), result, c, flags);
  }

  lemma PassedTells(G: set<Commit>, A: set<Commit>, B: set<Commit>, Low: set<Commit>, starts: set<Commit>, f: FlagMap,
                    open: set<Commit>, result: seq<Commit>, c: Commit)
    requires Invariant(G, A, B, Low, starts, f, open, result) && c in G
    ensures var flags := Passed(f[c]);
      flags <= PAINT && flags - {Stale} <= f[c] && (Stale in flags ==> Parent1 in flags && Parent2 in flags)
  {
    hide Rooted, Recorded, Settled;
    var painted := f[c] * PAINT;
    assert painted == {Parent1, Parent2} ==> Parent1 in painted && Parent2 in painted;
  }

  ghost predicate PaintedTo(c: Commit, f: FlagMap, flags: set<Flag>, i: nat)
    requires i <= |c.parents|
  {
    forall j :: 0 <= j < i ==> c.parents[j] in f && flags <= f[c.parents[j]]
  }

  lemma PaintedMore(G: set<Commit>, A: set<Commit>, B: set<Commit>, Low: set<Commit>, c: Commit, f: FlagMap,
                    f': FlagMap, flags: set<Flag>, i: nat)
    requires Region(G, A, B, Low) && c in G && f.Keys == f'.Keys == G && OthersKept(G, f, f')
    requires i < |c.parents| && PaintedTo(c, f, flags, i) && flags <= f'[c.parents[i]]
    ensures PaintedTo(c, f', flags, i + 1)
  {
  }

  /** Once all its parents are painted, a commit is settled, unless it has been queued again. */
  lemma CloseOne(G: set<Commit>, A: set<Commit>, B: set<Commit>, Low: set<Commit>, starts: set<Commit>, f: FlagMap,
                 open: set<Commit>, result: seq<Commit>, c: Commit, flags: set<Flag>)
    requires Invariant(G, A, B, Low, starts, f, open + {c}, result) && c in f
    requires PaintedTo(c, f, flags, |c.parents|)
    requires c in open
          || (flags == Passed(f[c]) && (Parent1 in f[c] && Parent2 in f[c] && Stale !in f[c] ==> Result in f[c]))
    ensures Invariant(G, A, B, Low, starts, f, open, result)
  {
    hide Sound, Rooted, Recorded;
    if c in open {
      assert open + {c} == open;
    } else {
      assert Settled(f, c);
    }
  }

  /** The walk proper: any queued commit may be popped next, whatever the dates are. */
  method Paint(queue0: multiset<Commit>, ghost G: set<Commit>, ghost A: set<Commit>, ghost B: set<Commit>,
               ghost Low: set<Commit>, ghost starts: set<Commit>)
    returns (result: seq<Commit>)
    requires Region(G, A, B, Low) && Queued(queue0) <= G
    requires Invariant(G, A, B, Low, starts, Snap(G), Queued(queue0), [])
    modifies G`flags
    ensures Invariant(G, A, B, Low, starts, Snap(G), StaleOnes(G, Snap(G)), result)
    ensures OthersKept(G, old(Snap(G)), Snap(G))
  {
    hide Region, Invariant, Missing;
    result := [];
    var queue := queue0;
    ghost var f0 := Snap(G);
    while exists c :: c in queue && Stale !in c.flags
      invariant Queued(queue) <= G
      invariant Invariant(G, A, B, Low, starts, Snap(G), Queued(queue), result)
      invariant OthersKept(G, f0, Snap(G))
      decreases Missing(G, Snap(G)), |queue|
    {
      var c :| c in queue;
      queue, result := Visit(c, queue, result, G, A, B, Low, starts);
    }
    OpenMore(G, A, B, Low, starts, Snap(G), Queued(queue), StaleOnes(G, Snap(G)), result);
  }

  lemma OpenMore(G: set<Commit>, A: set<Commit>, B: set<Commit>, Low: set<Commit>, starts: set<Commit>, f: FlagMap,
                 open: set<Commit>, more: set<Commit>, result: seq<Commit>)
    requires Invariant(G, A, B, Low, starts, f, open, result) && open <= more
    ensures Invariant(G, A, B, Low, starts, f, more, result)
  {
  }

  /** One popped commit: recorded if it is a candidate, and its parents painted. */
  method Visit(c: Commit, queue0: multiset<Commit>, result0: seq<Commit>,
               ghost G: set<Commit>, ghost A: set<Commit>, ghost B: set<Commit>,
               ghost Low: set<Commit>, ghost starts: set<Commit>)
    returns (queue: multiset<Commit>, result: seq<Commit>)
    requires Region(G, A, B, Low) && Queued(queue0) <= G && c in queue0
    requires Invariant(G, A, B, Low, starts, Snap(G), Queued(queue0), result0)
    modifies G`flags
    ensures Queued(queue) <= G
    ensures Invariant(G, A, B, Low, starts, Snap(G), Queued(queue), result)
    ensures OthersKept(G, old(Snap(G)), Snap(G))
    ensures Missing(G, Snap(G)) <= old(Missing(G, Snap(G)))
    ensures |queue| < |queue0| || Missing(G, Snap(G)) < old(Missing(G, Snap(G)))
  {
    hide Region, Invariant, Missing;
    result := Record(c, result0, queue0, G, A, B, Low, starts);
    queue := queue0 - multiset{c};
    assert Queued(queue) + {c} == Queued(queue0);
    queue := PaintParents(c, Passed(c.flags), queue, result, G, A, B, Low, starts);
  }

  /** A popped commit that is painted both ways, and not stale, is recorded once. */
  method Record(c: Commit, result0: seq<Commit>, ghost queue: multiset<Commit>,
                ghost G: set<Commit>, ghost A: set<Commit>, ghost B: set<Commit>,
                ghost Low: set<Commit>, ghost starts: set<Commit>)
    returns (result: seq<Commit>)
    requires c in queue && Queued(queue) <= G
    requires Invariant(G, A, B, Low, starts, Snap(G), Queued(queue), result0)
    modifies G`flags
    ensures Invariant(G, A, B, Low, starts, Snap(G), Queued(queue), result)
    ensures OthersKept(G, old(Snap(G)), Snap(G))
    ensures Missing(G, Snap(G)) == old(Missing(G, Snap(G)))
    ensures Parent1 in c.flags && Parent2 in c.flags && Stale !in c.flags ==> Result in c.flags
  {
    result := result0;
    if c.flags * PAINT == {Parent1, Parent2} && Result !in c.flags {
      assert {Parent1, Parent2} <= c.flags * PAINT;
      ghost var f := Snap(G);
      result := InsertByDate(c, result);
      RecordStep(G, A, B, Low, starts, f, Queued(queue), result0, c, result);
      c.flags := c.flags + {Result};
      assert Snap(G) == f[c := f[c] + {Result}];
    } else if Parent1 in c.flags && Parent2 in c.flags && Stale !in c.flags {
      assert c.flags * PAINT == {Parent1, Parent2};
    }
  }
}

/** Finding the commit that halves the search (bisect.c). */
module Bisect {
  import opened CommitGraph

  // The bits used here; COUNTED is the same bit as PARENT1 of the merge-base code.
  const UNINTERESTING: Flag := Other(1)
  const TREESAME: Flag := Other(2)
  const COUNTED: Flag := Parent1

  /** G is the history; I its interesting commits and T its TREESAME ones. */
  ghost predicate World(G: set<Commit>, f: FlagMap, I: set<Commit>, T: set<Commit>)
  {
    Dag(G) && I <= G && FlagView(G, f, I, T)
  }

  ghost predicate FlagView(G: set<Commit>, f: FlagMap, I: set<Commit>, T: set<Commit>)
  {
    && f.Keys == G
    && forall c :: c in G ==>
        && (c in I <==> UNINTERESTING !in f[c])
        && (c in T <==> TREESAME in f[c])
        && COUNTED !in f[c]
  }

  /** The flags are those of f, plus COUNTED on exactly the commits of V. */
  ghost predicate Counted(G: set<Commit>, f: FlagMap, V: set<Commit>)
    reads G
  {
    forall c :: c in G ==> c in f && c.flags == f[c] + if c in V then {COUNTED} else {}
  }

  // ---------------------------------------------------------------- what is counted

  /** x is reached from c in n steps over interesting commits only. */
  ghost predicate WalkIn(I: set<Commit>, c: Commit, x: Commit, n: nat)
  {
    c in I && if n == 0 then c == x else exists p :: p in c.parents && WalkIn(I, p, x, n - 1)
  }

  ghost predicate Walk(I: set<Commit>, c: Commit, x: Commit)
  {
    exists n: nat :: WalkIn(I, c, x, n)
  }

  ghost function ReachSet(I: set<Commit>, c: Commit): set<Commit> {
    set x | x in I && Walk(I, c, x)
  }

  /** The number of interesting, tree-changing commits that c reaches, itself included. */
  ghost function Reaches(I: set<Commit>, T: set<Commit>, c: Commit): nat {
    |ReachSet(I, c) - T|
  }

  lemma {:induction false} WalkInIsReach(I: set<Commit>, c: Commit, x: Commit, n: nat)
    requires WalkIn(I, c, x, n)
    ensures x in I && Reach(c, x)
  {
    if n == 0 {
      ReachSelf(c);
    } else {
      var p :| p in c.parents && WalkIn(I, p, x, n - 1);
      WalkInIsReach(I, p, x, n - 1);
      ReachSelf(c);
      ReachStep(c, c, p);
      ReachTrans(c, p, x);
    }
  }

  lemma {:induction false} WalkInStep(I: set<Commit>, c: Commit, x: Commit, y: Commit, n: nat)
    requires WalkIn(I, c, x, n) && y in x.parents && y in I
    ensures WalkIn(I, c, y, n + 1)
  {
    if n == 0 {
      assert WalkIn(I, y, y, 0);
    } else {
      var p :| p in c.parents && WalkIn(I, p, x, n - 1);
      WalkInStep(I, p, x, y, n - 1);
    }
  }

  lemma WalkStep(I: set<Commit>, c: Commit, x: Commit, y: Commit)
    requires Walk(I, c, x) && y in x.parents && y in I
    ensures Walk(I, c, y)
  {
    var n: nat :| WalkIn(I, c, x, n);
    WalkInStep(I, c, x, y, n);
  }

  /** A set that holds c and is closed under interesting parents holds all that c reaches. */
  lemma {:induction false} ClosedHolds(I: set<Commit>, S: set<Commit>, c: Commit, x: Commit, n: nat)
    requires forall d, p :: d in S && p in d.parents && p in I ==> p in S
    requires c in S && WalkIn(I, c, x, n)
    ensures x in S
  {
    if n > 0 {
      var p :| p in c.parents && WalkIn(I, p, x, n - 1);
      assert p in I;
      ClosedHolds(I, S, p, x, n - 1);
    }
  }

  lemma ReachSetOf(I: set<Commit>, c: Commit)
    requires c in I
    ensures c in ReachSet(I, c)
  {
    assert WalkIn(I, c, c, 0);
  }

  /** No interesting parent: the commit reaches itself only. */
  lemma ReachesAlone(I: set<Commit>, c: Commit)
    requires c in I && forall p :: p in c.parents ==> p !in I
    ensures ReachSet(I, c) == {c}
  {
    ReachSetOf(I, c);
    forall x | Walk(I, c, x)
      ensures x == c
    {
      var n: nat :| WalkIn(I, c, x, n);
      if n > 0 {
        var p :| p in c.parents && WalkIn(I, p, x, n - 1);
      }
    }
  }

  /** One interesting parent: one more than it, or as many if the commit changes no tree. */
  lemma ReachesThroughOne(G: set<Commit>, I: set<Commit>, T: set<Commit>, c: Commit, q: Commit)
    requires Dag(G) && I <= G && c in I && q in I && q in c.parents
    requires forall p :: p in c.parents && p in I ==> p == q
    ensures Reaches(I, T, c) == Reaches(I, T, q) + if c in T then 0 else 1
  {
    ReachSetOf(I, c);
    forall x
      ensures Walk(I, c, x) <==> x == c || Walk(I, q, x)
    {
      if Walk(I, c, x) {
        var n: nat :| WalkIn(I, c, x, n);
        if n > 0 {
          var p :| p in c.parents && WalkIn(I, p, x, n - 1);
          assert p == q;
        }
      }
      if Walk(I, q, x) {
        var n: nat :| WalkIn(I, q, x, n);
        assert WalkIn(I, c, x, n + 1);
      }
    }
    assert !Walk(I, q, c) by {
      assert !Proper(c, c);
      if n: nat :| WalkIn(I, q, c, n) {
        WalkInIsReach(I, q, c, n);
      }
    }
    assert ReachSet(I, c) == {c} + ReachSet(I, q);
    if c !in T {
      assert ReachSet(I, c) - T == {c} + (ReachSet(I, q) - T);
    } else {
      assert ReachSet(I, c) - T == ReachSet(I, q) - T;
    }
  }

  // ---------------------------------------------------------------- count_distance

  /** The commits newly counted by a walk: all reached from start, and closed but for what is pending. */
  ghost predicate Swept(I: set<Commit>, V: set<Commit>, V': set<Commit>, pending: set<Commit>)
  {
    && V <= V' && V' - V <= I
    && forall x :: x in V' && x !in V ==> Covered(I, x, V' + pending)
  }

  /** Every interesting parent of c is in S. */
  ghost predicate Covered(I: set<Commit>, c: Commit, S: set<Commit>)
  {
    forall p :: p in c.parents && p in I ==> p in S
  }

  ghost predicate AllReached(I: set<Commit>, start: Commit, V: set<Commit>, V': set<Commit>)
  {
    forall x :: x in V' && x !in V ==> Walk(I, start, x)
  }

  /** A walk from start that has counted nr tree-changing commits so far. */
  ghost predicate Counting(I: set<Commit>, T: set<Commit>, start: Commit, V: set<Commit>, V': set<Commit>,
                           pending: set<Commit>, nr: nat)
  {
    Swept(I, V, V', pending) && AllReached(I, start, V, V') && nr == |V' - V - T|
  }

  lemma MarkOne(I: set<Commit>, T: set<Commit>, start: Commit, V: set<Commit>, V': set<Commit>, c: Commit, nr: nat)
    requires Counting(I, T, start, V, V', {c}, nr)
    requires c in I && c !in V' && Walk(I, start, c)
    ensures Counting(I, T, start, V, V' + {c}, Elems(c.parents), nr + if c in T then 0 else 1)
  {
    if c in T {
      assert V' + {c} - V - T == V' - V - T;
    } else {
      assert V' + {c} - V - T == (V' - V - T) + {c};
    }
  }

  lemma CountsAdd(V: set<Commit>, V1: set<Commit>, V2: set<Commit>, T: set<Commit>)
    requires V <= V1 <= V2
    ensures |V2 - V - T| == |V1 - V - T| + |V2 - V1 - T|
  {
    assert V2 - V - T == (V1 - V - T) + (V2 - V1 - T);
  }

  /** The walk from a parent joins the walk that came to it. */
  lemma JoinSweeps(I: set<Commit>, T: set<Commit>, start: Commit, V: set<Commit>, V1: set<Commit>, V2: set<Commit>,
                   pending: set<Commit>, p: Commit, n: nat, more: nat)
    requires Counting(I, T, start, V, V1, pending + {p}, n) && Counting(I, T, p, V1, V2, {}, more)
    requires p in I ==> p in V2 && Walk(I, start, p)
    ensures Counting(I, T, start, V, V2, pending, n + more) && V1 <= V2
  {
    CountsAdd(V, V1, V2, T);
    forall x | x in V2 && x !in V1
      ensures Walk(I, start, x)
    {
      var n: nat :| WalkIn(I, p, x, n);
      assert p in I;
      WalkTrans(I, start, p, x);
    }
  }

  lemma WalkTrans(I: set<Commit>, a: Commit, b: Commit, c: Commit)
    requires Walk(I, a, b) && Walk(I, b, c)
    ensures Walk(I, a, c)
  {
    var n: nat :| WalkIn(I, a, b, n);
    WalkInTrans(I, a, b, c, n);
  }

  lemma {:induction false} WalkInTrans(I: set<Commit>, a: Commit, b: Commit, c: Commit, n: nat)
    requires WalkIn(I, a, b, n) && Walk(I, b, c)
    ensures Walk(I, a, c)
  {
    if n > 0 {
      var p :| p in a.parents && WalkIn(I, p, b, n - 1);
      WalkInTrans(I, p, b, c, n - 1);
      var m: nat :| WalkIn(I, p, c, m);
      assert WalkIn(I, a, c, m + 1);
    }
  }

  lemma StartSweep(I: set<Commit>, T: set<Commit>, start: Commit, V: set<Commit>)
    ensures Counting(I, T, start, V, V, {start}, 0) && (start in I ==> Walk(I, start, start))
  {
    assert V - V - T == {};
    assert start in I ==> WalkIn(I, start, start, 0);
  }

  /** A commit that is not to be counted ends the walk. */
  lemma EndSweep(I: set<Commit>, T: set<Commit>, start: Commit, V: set<Commit>, V': set<Commit>, c: Commit, nr: nat)
    requires Counting(I, T, start, V, V', {c}, nr) && (c in I ==> c in V')
    ensures Counting(I, T, start, V, V', {}, nr)
  {
    forall x | x in V' && x !in V
      ensures Covered(I, x, V' + {})
    {
      assert Covered(I, x, V' + {c});
    }
  }

  lemma CountedTells(c: Commit, G: set<Commit>, f: FlagMap, I: set<Commit>, T: set<Commit>, V: set<Commit>)
    requires World(G, f, I, T) && Counted(G, f, V) && c in G
    ensures UNINTERESTING in c.flags <==> c !in I
    ensures COUNTED in c.flags <==> c in V
    ensures TREESAME in c.flags <==> c in T
    ensures Elems(c.parents) <= G
  {
  }

  /** count_distance: counts along first parents, recursing for the others. */
  method CountDistance(start: Commit, ghost G: set<Commit>, ghost f: FlagMap, ghost I: set<Commit>,
                       ghost T: set<Commit>, ghost V: set<Commit>)
    returns (nr: nat, ghost V': set<Commit>)
    requires World(G, f, I, T) && start in G && V <= G && Counted(G, f, V)
    modifies G`flags
    ensures Counted(G, f, V') && V <= V' <= G && (start in I ==> start in V')
    ensures Counting(I, T, start, V, V', {}, nr)
    decreases I - V, 1
  {
    hide World, Counting, Walk, Counted;
    nr := 0;
    V' := V;
    StartSweep(I, T, start, V);
    var commit, more := start, true;
    while more
      invariant V <= V' <= G && Counted(G, f, V')
      invariant commit in G && (more && commit in I ==> Walk(I, start, commit))
      invariant Counting(I, T, start, V, V', if more then {commit} else {}, nr)
      invariant start in I ==> start in V' || (more && commit == start)
      decreases I - V', more
    {
      CountedTells(commit, G, f, I, T, V');
      if UNINTERESTING in commit.flags || COUNTED in commit.flags {
        EndSweep(I, T, start, V, V', commit, nr);
        break;
      }
      MarkOne(I, T, start, V, V', commit, nr);
      if TREESAME !in commit.flags {
        nr := nr + 1;
      }
      ghost var marked := V' + {commit};
      assert Counting(I, T, start, V, marked, Elems(commit.parents), nr);
      SetCounted(commit, G, f, V');
      V' := marked;
      if commit.parents == [] {
        assert Elems(commit.parents) == {};
        more := false;
      } else {
        nr, V' := CountParents(commit, start, G, f, I, T, V, V', nr);
        commit := commit.parents[0];
      }
    }
  }

  method SetCounted(commit: Commit, ghost G: set<Commit>, ghost f: FlagMap, ghost V: set<Commit>)
    requires commit in G && Counted(G, f, V)
    modifies G`flags
    ensures Counted(G, f, V + {commit})
  {
    commit.flags := commit.flags + {COUNTED};
  }

  /** The inner loop: every parent but the first is counted by a call of its own. */
  method CountParents(commit: Commit, ghost start: Commit, ghost G: set<Commit>, ghost f: FlagMap,
                      ghost I: set<Commit>, ghost T: set<Commit>, ghost V: set<Commit>, ghost V1: set<Commit>, n: nat)
    returns (nr: nat, ghost V': set<Commit>)
    requires World(G, f, I, T) && commit in G && V1 <= G && Counted(G, f, V1)
    requires Counting(I, T, start, V, V1, Elems(commit.parents), n)
    requires commit.parents != [] && Walk(I, start, commit)
    modifies G`flags
    ensures Counted(G, f, V') && V1 <= V' <= G
    ensures Counting(I, T, start, V, V', {commit.parents[0]}, nr)
    ensures commit.parents[0] in G && (commit.parents[0] in I ==> Walk(I, start, commit.parents[0]))
    decreases I - V1, 3
  {
    hide World, Counting, Walk, Counted, Pending;
    nr := n;
    V' := V1;
    var parents := commit.parents;
    CountedTells(commit, G, f, I, T, V1);
    StartPending(parents);
    ParentOf(I, start, commit, 0, G);
    var i := 1;
    while i < |parents|
      invariant 1 <= i <= |parents|
      invariant Counted(G, f, V') && V1 <= V' <= G
      invariant Counting(I, T, start, V, V', Pending(parents, i), nr)
    {
      LessPending(parents, i);
      nr, V' := CountParent(commit, i, start, G, f, I, T, V, V', Pending(parents, i), Pending(parents, i + 1), nr);
      i := i + 1;
    }
  }

  lemma ParentOf(I: set<Commit>, start: Commit, commit: Commit, i: nat, G: set<Commit>)
    requires i < |commit.parents| && Elems(commit.parents) <= G && Walk(I, start, commit)
    ensures commit.parents[i] in G && (commit.parents[i] in I ==> Walk(I, start, commit.parents[i]))
  {
    var p := commit.parents[i];
    assert p in Elems(commit.parents);
    if p in I {
      WalkStep(I, start, commit, p);
    }
  }

  method CountParent(commit: Commit, i: nat, ghost start: Commit, ghost G: set<Commit>, ghost f: FlagMap,
                     ghost I: set<Commit>, ghost T: set<Commit>, ghost V: set<Commit>, ghost V1: set<Commit>,
                     ghost before: set<Commit>, ghost after: set<Commit>, n: nat)
    returns (nr: nat, ghost V': set<Commit>)
    requires World(G, f, I, T) && commit in G && i < |commit.parents| && V1 <= G && Counted(G, f, V1)
    requires before == after + {commit.parents[i]} && Counting(I, T, start, V, V1, before, n)
    requires Walk(I, start, commit)
    modifies G`flags
    ensures Counted(G, f, V') && V1 <= V' <= G
    ensures Counting(I, T, start, V, V', after, nr)
    decreases I - V1, 2
  {
    hide World, Counting, Walk, Counted;
    CountedTells(commit, G, f, I, T, V1);
    ParentOf(I, start, commit, i, G);
    var more;
    more, V' := CountDistance(commit.parents[i], G, f, I, T, V1);
    JoinSweeps(I, T, start, V, V1, V', after, commit.parents[i], n, more);
    nr := n + more;
  }

  /** The parents still to be swept before the i-th call: the first one, and those from i on. */
  ghost function Pending(parents: seq<Commit>, i: nat): set<Commit>
    requires 1 <= i <= |parents|
  {
    Elems(parents[i..]) + {parents[0]}
  }

  lemma StartPending(parents: seq<Commit>)
    requires parents != []
    ensures Pending(parents, 1) == Elems(parents)
    ensures Pending(parents, |parents|) == {parents[0]}
  {
    assert parents == [parents[0]] + parents[1..];
  }

  lemma LessPending(parents: seq<Commit>, i: nat)
    requires 1 <= i < |parents|
    ensures Pending(parents, i) == Pending(parents, i + 1) + {parents[i]}
  {
    assert parents[i..] == [parents[i]] + parents[i + 1..];
  }

  // ---------------------------------------------------------------- the list

  /** The list find_bisection works on: interesting commits, closed under interesting parents. */
  ghost predicate Closed(I: set<Commit>, list: seq<Commit>)
  {
    Distinct(list) && Elems(list) <= I && forall c :: c in list ==> Covered(I, c, Elems(list))
  }

  lemma ReachStaysOnList(I: set<Commit>, list: seq<Commit>, c: Commit)
    requires Closed(I, list) && c in list
    ensures ReachSet(I, c) <= Elems(list)
  {
    forall x | x in ReachSet(I, c)
      ensures x in Elems(list)
    {
      var n: nat :| WalkIn(I, c, x, n);
      forall d, p | d in Elems(list) && p in d.parents && p in I
        ensures p in Elems(list)
      {
        assert Covered(I, d, Elems(list));
      }
      ClosedHolds(I, Elems(list), c, x, n);
    }
  }

  /** A complete sweep from a clean slate has counted exactly what the commit reaches. */
  lemma SweepIsReachSet(I: set<Commit>, c: Commit, V: set<Commit>)
    requires Swept(I, {}, V, {}) && AllReached(I, c, {}, V) && c in V
    ensures V == ReachSet(I, c)
  {
    forall x | x in ReachSet(I, c)
      ensures x in V
    {
      var n: nat :| WalkIn(I, c, x, n);
      forall d, p | d in V && p in d.parents && p in I
        ensures p in V
      {
        assert Covered(I, d, V + {});
      }
      ClosedHolds(I, V, c, x, n);
    }
  }

  /** clear_distance. */
  method ClearDistance(list: seq<Commit>, ghost G: set<Commit>, ghost f: FlagMap, ghost V: set<Commit>)
    requires Counted(G, f, V) && V <= Elems(list) <= G
    requires forall c :: c in G && c in f ==> COUNTED !in f[c]
    modifies G`flags
    ensures Counted(G, f, {})
  {
    var i := 0;
    while i < |list|
      invariant 0 <= i <= |list|
      invariant Counted(G, f, V - Elems(list[..i]))
    {
      assert list[i] in Elems(list);
      ElemsOneMore(list, i);
      list[i].flags := list[i].flags - {COUNTED};
      i := i + 1;
    }
    assert list[..i] == list;
  }

  ghost function InterestingParents(I: set<Commit>, parents: seq<Commit>): nat {
    if parents == [] then 0
    else
      var n := |parents| - 1;
      InterestingParents(I, parents[..n]) + if parents[n] in I then 1 else 0
  }

  lemma {:induction false} InterestingParentsMeaning(I: set<Commit>, parents: seq<Commit>)
    ensures InterestingParents(I, parents) == 0 <==> forall p :: p in parents ==> p !in I
    ensures InterestingParents(I, parents) == 1 ==>
      exists q :: q in parents && q in I && forall p :: p in parents && p in I ==> p == q
  {
    if parents != [] {
      var n := |parents| - 1;
      InterestingParentsMeaning(I, parents[..n]);
      assert forall p :: p in parents <==> p in parents[..n] || p == parents[n];
      if InterestingParents(I, parents) == 1 && parents[n] !in I {
        var q :| q in parents[..n] && q in I && forall p :: p in parents[..n] && p in I ==> p == q;
        assert q in parents;
      }
    }
  }

  /** count_interesting_parents. */
  method CountInterestingParents(commit: Commit, ghost G: set<Commit>, ghost f: FlagMap, ghost I: set<Commit>,
                                 ghost T: set<Commit>)
    returns (count: nat)
    requires World(G, f, I, T) && commit in G && Counted(G, f, {})
    ensures count == InterestingParents(I, commit.parents)
  {
    count := 0;
    var i := 0;
    while i < |commit.parents|
      invariant 0 <= i <= |commit.parents|
      invariant count == InterestingParents(I, commit.parents[..i])
    {
      assert commit.parents[..i + 1][..i] == commit.parents[..i];
      if UNINTERESTING !in commit.parents[i].flags {
        count := count + 1;
      }
      i := i + 1;
    }
    assert commit.parents[..i] == commit.parents;
  }

  // ---------------------------------------------------------------- which commits get weights

  /** The commits weighed before the fill loop: the roots and the merges of the list. */
  ghost function AtOnce(I: set<Commit>, list: seq<Commit>): set<Commit> {
    set c | c in Elems(list) && InterestingParents(I, c.parents) != 1
  }

  ghost function Merges(I: set<Commit>, S: set<Commit>): set<Commit> {
    set c | c in S && InterestingParents(I, c.parents) > 1
  }

  /** The counter once the commits of S have weights: a merge counts even if it changes no tree. */
  ghost function Counter(I: set<Commit>, T: set<Commit>, S: set<Commit>): nat {
    |S - T| + |Merges(I, S * T)|
  }

  ghost predicate Leads(c: Commit, S: set<Commit>) {
    exists q :: q in c.parents && q in S
  }

  ghost function OneMore(S: set<Commit>, c: Commit): set<Commit> {
    if Leads(c, S) then S + {c} else S
  }

  /** One pass of the fill loop over the first i commits: a commit gets a weight from a parent's. */
  ghost function Pass(list: seq<Commit>, S: set<Commit>, i: nat): set<Commit>
    requires i <= |list|
  {
    if i == 0 then S else OneMore(Pass(list, S, i - 1), list[i - 1])
  }

  lemma {:induction false} PassGrows(list: seq<Commit>, S: set<Commit>, i: nat, j: nat)
    requires i <= j <= |list|
    ensures Pass(list, S, 0) == S
    ensures Pass(list, S, i) <= Pass(list, S, j) <= Pass(list, S, i) + Elems(list)
  {
    if i < j {
      PassGrows(list, S, i, j - 1);
      assert list[j - 1] in Elems(list);
    }
  }

  /** The fill loop: passes, until the counter says that nr commits are counted. */
  ghost function Filled(I: set<Commit>, T: set<Commit>, list: seq<Commit>, nr: int, S: set<Commit>): set<Commit>
    requires S <= Elems(list)
    decreases Elems(list) - S
  {
    var S' := Pass(list, S, |list|);
    PassGrows(list, S, 0, |list|);
    if Counter(I, T, S) >= nr || S' <= S then S else Filled(I, T, list, nr, S')
  }

  /** The commits of the list that get a weight unless one found halfway ends the search. */
  ghost function Weighed(I: set<Commit>, T: set<Commit>, list: seq<Commit>): set<Commit> {
    Filled(I, T, list, |Elems(list) - T|, AtOnce(I, list))
  }

  lemma {:induction false} FilledGrows(I: set<Commit>, T: set<Commit>, list: seq<Commit>, nr: int, S: set<Commit>)
    requires S <= Elems(list)
    ensures S <= Filled(I, T, list, nr, S) <= Elems(list)
    decreases Elems(list) - S
  {
    var S' := Pass(list, S, |list|);
    PassGrows(list, S, 0, |list|);
    if !(Counter(I, T, S) >= nr || S' <= S) {
      FilledGrows(I, T, list, nr, S');
    }
  }

  /** The loop stops at the count, or when a pass adds nothing. */
  lemma {:induction false} FilledStops(I: set<Commit>, T: set<Commit>, list: seq<Commit>, nr: int, S: set<Commit>)
    requires S <= Elems(list)
    ensures var F := Filled(I, T, list, nr, S); Counter(I, T, F) >= nr || Pass(list, F, |list|) <= F
    decreases Elems(list) - S
  {
    var S' := Pass(list, S, |list|);
    PassGrows(list, S, 0, |list|);
    if !(Counter(I, T, S) >= nr || S' <= S) {
      FilledStops(I, T, list, nr, S');
    }
  }

  /** A pass adds a weight as long as one is missing: it reaches the lowest commit without. */
  lemma NextToFill(G: set<Commit>, I: set<Commit>, list: seq<Commit>, S: set<Commit>)
    requires Dag(G) && I <= G && Closed(I, list) && AtOnce(I, list) <= S < Elems(list)
    ensures S < Pass(list, S, |list|) <= Elems(list)
  {
    var c :| c in Elems(list) && c !in S;
    var m := MinimalBelow(G, Elems(list) - S, c);
    var q := OneParent(I, list, m);
    ReachSelf(q);
    assert Proper(m, q);
    var k :| 0 <= k < |list| && list[k] == m;
    PassGrows(list, S, 0, k);
    assert Leads(m, Pass(list, S, k));
    assert m in Pass(list, S, k + 1);
    PassGrows(list, S, k + 1, |list|);
    PassGrows(list, S, 0, |list|);
  }

  /** The one interesting parent of a commit that is neither a root nor a merge. */
  lemma OneParent(I: set<Commit>, list: seq<Commit>, c: Commit) returns (q: Commit)
    requires Closed(I, list) && c in Elems(list) && c !in AtOnce(I, list)
    ensures q in c.parents && q in Elems(list) && q in I
  {
    assert InterestingParents(I, c.parents) == 1;
    InterestingParentsMeaning(I, c.parents);
    q :| q in c.parents && q in I && forall p :: p in c.parents && p in I ==> p == q;
    assert c in list && Covered(I, c, Elems(list));
  }

  /** No merge on the list leaves the tree as it was. */
  ghost predicate NoTreesameMerge(I: set<Commit>, T: set<Commit>, list: seq<Commit>)
  {
    forall c :: c in list && c in I * T ==> InterestingParents(I, c.parents) <= 1
  }

  /** Parents stand before their children, as in a reversed history. */
  ghost predicate ParentsFirst(list: seq<Commit>) {
    forall i :: 0 <= i < |list| ==> ParentsBefore(list, i)
  }

  ghost predicate ParentsBefore(list: seq<Commit>, i: nat)
    requires i < |list|
  {
    forall p :: p in list[i].parents && p in Elems(list) ==> p in Elems(list[..i])
  }

  /** Then one pass reaches every commit. */
  lemma {:induction false} OnePassIsEnough(I: set<Commit>, list: seq<Commit>, S: set<Commit>, i: nat)
    requires Closed(I, list) && ParentsFirst(list) && AtOnce(I, list) <= S && i <= |list|
    ensures Elems(list[..i]) <= Pass(list, S, i)
  {
    if i > 0 {
      var c := list[i - 1];
      OnePassIsEnough(I, list, S, i - 1);
      ElemsOneMore(list, i - 1);
      PassGrows(list, S, 0, i - 1);
      assert c in Elems(list);
      if c !in AtOnce(I, list) {
        var q := OneParent(I, list, c);
        assert ParentsBefore(list, i - 1);
        assert Leads(c, Pass(list, S, i - 1));
      }
    }
  }

  /** Every tree-changing commit is weighed if no merge leaves its tree unchanged, or if parents come
      first and the roots and merges alone do not fill the counter. */
  lemma WeighsAll(G: set<Commit>, I: set<Commit>, T: set<Commit>, list: seq<Commit>)
    requires Dag(G) && I <= G && Closed(I, list)
    requires NoTreesameMerge(I, T, list)
          || (ParentsFirst(list) && Counter(I, T, AtOnce(I, list)) < |Elems(list) - T|)
    ensures Elems(list) - T <= Weighed(I, T, list)
  {
    hide InterestingParents, Covered, Pass;
    var nr, S, F := |Elems(list) - T|, AtOnce(I, list), Weighed(I, T, list);
    FilledGrows(I, T, list, nr, S);
    FilledStops(I, T, list, nr, S);
    if Counter(I, T, S) < nr && ParentsFirst(list) {
      OnePassIsEnough(I, list, S, |list|);
      assert list[..|list|] == list;
      PassGrows(list, S, 0, |list|);
      FilledGrows(I, T, list, nr, Pass(list, S, |list|));
    } else if Counter(I, T, F) >= nr {
      assert Merges(I, F * T) == {};
      if F - T != Elems(list) - T {
        ProperSubsetIsSmaller(F - T, Elems(list) - T);
      }
    } else if F != Elems(list) {
      NextToFill(G, I, list, F);
    }
  }

  /** The fill loop is skipped when the roots and merges fill the counter on their own. */
  lemma WeighsNoMore(I: set<Commit>, T: set<Commit>, list: seq<Commit>)
    requires Counter(I, T, AtOnce(I, list)) >= |Elems(list) - T|
    ensures forall c :: c in Weighed(I, T, list) <==> c in list && InterestingParents(I, c.parents) != 1
  {
  }

  lemma ProperSubsetIsSmaller(a: set<Commit>, b: set<Commit>)
    requires a < b
    ensures |a| < |b|
  {
    assert b == a + (b - a);
  }

  // ---------------------------------------------------------------- weights

  type Weights = map<Commit, int>

  /** The list to search, with the true counts: reaches holds the number of interesting,
      tree-changing commits each commit reaches, parents its number of interesting parents. */
  datatype Problem = Problem(G: set<Commit>, f: FlagMap, I: set<Commit>, T: set<Commit>, list: seq<Commit>,
                             reaches: map<Commit, nat>, parents: map<Commit, nat>)
  {
    ghost predicate Valid() {
      && World(G, f, I, T) && Closed(I, list)
      && reaches.Keys == parents.Keys == Elems(list)
      && (forall c {:trigger Reaches(I, T, c)} :: c in list ==> reaches[c] == Reaches(I, T, c))
      && (forall c {:trigger InterestingParents(I, c.parents)} ::
            c in list ==> parents[c] == InterestingParents(I, c.parents))
    }

    ghost predicate NoTreesameMerges()
      requires Elems(list) == parents.Keys
    {
      forall c :: c in list && c in T && c in Elems(list) ==> parents[c] <= 1
    }

    ghost function Score(nr: int, c: Commit): int
      requires c in reaches
    {
      Distance(nr, reaches[c])
    }

    /** c is a tree-changing commit of known weight, and none on the list halves better. */
    ghost predicate Optimal(nr: int, w: Weights, c: Commit)
      requires Elems(list) == reaches.Keys
    {
      && c in Elems(list) && c !in T && c in w && w[c] == reaches[c]
      && forall d :: d in Elems(list) && d !in T ==> Score(nr, d) <= Score(nr, c)
    }
  }

  function Distance(nr: int, weight: int): int {
    if nr - weight < weight then nr - weight else weight
  }

  /** A settled weight is the exact count; -1 stands for one interesting parent, -2 for several. */
  ghost predicate Exact(pb: Problem, w: Weights)
  {
    forall c :: c in pb.reaches && c in pb.parents ==> c in w && ExactAt(pb, c, w[c])
  }

  ghost predicate ExactAt(pb: Problem, c: Commit, weight: int)
    requires c in pb.reaches && c in pb.parents
  {
    || (weight >= 0 && weight == pb.reaches[c])
    || (weight == -1 && pb.parents[c] == 1)
    || (weight == -2 && pb.parents[c] > 1)
  }

  /** The tree-changing commits whose weight is known. */
  ghost function Settled(pb: Problem, w: Weights): set<Commit> {
    set c | c in pb.reaches && c in w && w[c] >= 0 && c !in pb.T
  }

  ghost function Unsettled(pb: Problem, w: Weights): set<Commit> {
    set c | c in pb.reaches && c in w && w[c] < 0
  }

  /** The merges that change no tree and have been weighed; the counter takes them in. */
  ghost function Overcounted(pb: Problem, w: Weights): set<Commit> {
    set c | c in pb.reaches && c in pb.parents && c in w && w[c] >= 0 && c in pb.T && pb.parents[c] > 1
  }

  ghost predicate CountedSoFar(pb: Problem, w: Weights, counted: int)
  {
    counted == |Settled(pb, w)| + |Overcounted(pb, w)|
  }

  /** Once all merges are weighed, the counter is the number of settled tree-changing commits exactly
      when no merge on the list leaves its tree unchanged. */
  lemma CounterIsExact(pb: Problem, w: Weights, counted: int)
    requires pb.Valid() && Exact(pb, w) && CountedSoFar(pb, w, counted) && NoneUnweighed(pb, w)
    ensures counted == |Settled(pb, w)| <==> pb.NoTreesameMerges()
  {
    if pb.NoTreesameMerges() {
      assert forall c :: c in pb.reaches ==> c in Elems(pb.list) && c in pb.list;
      assert Overcounted(pb, w) == {};
    } else {
      var c :| c in pb.list && c in pb.T && c in Elems(pb.list) && pb.parents[c] > 1;
      assert ExactAt(pb, c, w[c]);
      assert c in Overcounted(pb, w);
    }
  }

  lemma FlagsTell(c: Commit, pb: Problem)
    requires pb.Valid() && Counted(pb.G, pb.f, {}) && c in pb.list
    ensures c in pb.G && c in pb.reaches && c in pb.parents && c in pb.I
    ensures TREESAME in c.flags <==> c in pb.T
    ensures UNINTERESTING !in c.flags
  {
    assert c in Elems(pb.list);
  }

  /** The commits of S have weights, and no others. */
  ghost predicate Knows(pb: Problem, w: Weights, S: set<Commit>) {
    && S <= Elems(pb.list)
    && forall c :: c in pb.reaches ==> c in w && (w[c] >= 0 <==> c in S)
  }

  /** While merges are weighed, only roots and merges have weights. */
  ghost predicate NoneFilled(pb: Problem, w: Weights) {
    forall c :: c in pb.reaches && c in pb.parents ==> c in w && (w[c] >= 0 ==> pb.parents[c] != 1)
  }

  lemma KnowsAtOnce(pb: Problem, w: Weights)
    requires pb.Valid() && Exact(pb, w) && NoneFilled(pb, w) && NoneUnweighed(pb, w)
    ensures Knows(pb, w, AtOnce(pb.I, pb.list))
  {
    forall c | c in pb.reaches
      ensures c in w && (w[c] >= 0 <==> c in AtOnce(pb.I, pb.list))
    {
      assert ExactAt(pb, c, w[c]);
      assert pb.parents[c] == InterestingParents(pb.I, c.parents);
    }
  }

  /** The counter depends on nothing but which commits have weights. */
  lemma CounterShows(pb: Problem, w: Weights, S: set<Commit>, counted: int)
    requires pb.Valid() && Exact(pb, w) && Knows(pb, w, S) && CountedSoFar(pb, w, counted)
    ensures counted == Counter(pb.I, pb.T, S)
  {
    hide World, Closed, Reaches, InterestingParents;
    assert Settled(pb, w) == S - pb.T;
    assert Overcounted(pb, w) == Merges(pb.I, S * pb.T) by {
      forall c | c in pb.reaches
        ensures pb.parents[c] == InterestingParents(pb.I, c.parents)
      {
      }
    }
  }

  lemma SettleOne(pb: Problem, w: Weights, counted: int, c: Commit, weight: nat)
    requires pb.Valid() && Exact(pb, w) && CountedSoFar(pb, w, counted)
    requires c in pb.reaches && c in pb.parents && c in w && w[c] < 0 && weight == pb.reaches[c]
    ensures Exact(pb, w[c := weight])
    ensures CountedSoFar(pb, w[c := weight], counted + if c !in pb.T || pb.parents[c] > 1 then 1 else 0)
  {
    hide Problem.Valid, Exact, ExactAt;
    SettledAfter(pb, w, c, weight);
    OvercountedAfter(pb, w, c, weight);
    ExactAfter(pb, w, c, weight);
  }

  lemma ExactAfter(pb: Problem, w: Weights, c: Commit, weight: nat)
    requires Exact(pb, w) && c in pb.reaches && weight == pb.reaches[c]
    ensures Exact(pb, w[c := weight])
  {
  }

  lemma SettledAfter(pb: Problem, w: Weights, c: Commit, weight: nat)
    requires c in pb.reaches && c in w && w[c] < 0
    ensures |Settled(pb, w[c := weight])| == |Settled(pb, w)| + if c in pb.T then 0 else 1
  {
    if c in pb.T {
      assert Settled(pb, w[c := weight]) == Settled(pb, w);
    } else {
      assert Settled(pb, w[c := weight]) == Settled(pb, w) + {c};
    }
  }

  lemma OvercountedAfter(pb: Problem, w: Weights, c: Commit, weight: nat)
    requires c in pb.reaches && c in pb.parents && c in w && w[c] < 0
    ensures |Overcounted(pb, w[c := weight])| ==
      |Overcounted(pb, w)| + if c in pb.T && pb.parents[c] > 1 then 1 else 0
  {
    if c in pb.T && pb.parents[c] > 1 {
      assert Overcounted(pb, w[c := weight]) == Overcounted(pb, w) + {c};
    } else {
      assert Overcounted(pb, w[c := weight]) == Overcounted(pb, w);
    }
  }

  /** halfway: a tree-changing commit whose weight is within one of half. */
  predicate Halfway(treesame: bool, weight: int, nr: int) {
    !treesame && -1 <= 2 * weight - nr <= 1
  }

  lemma HalfwayIsOptimal(pb: Problem, nr: int, w: Weights, c: Commit)
    requires pb.Valid() && c in pb.reaches && c in w && w[c] == pb.reaches[c] && Halfway(c in pb.T, w[c], nr)
    ensures pb.Optimal(nr, w, c)
  {
  }

  lemma RootReaches(pb: Problem, c: Commit)
    requires pb.Valid() && c in pb.list && pb.parents[c] == 0
    ensures pb.reaches[c] == if c in pb.T then 0 else 1
  {
    assert c in Elems(pb.list);
    assert InterestingParents(pb.I, c.parents) == 0;
    InterestingParentsMeaning(pb.I, c.parents);
    ReachesAlone(pb.I, c);
    assert Reaches(pb.I, pb.T, c) == |{c} - pb.T|;
    assert {c} - pb.T == if c in pb.T then {} else {c};
  }

  /** The initial weight of a commit. */
  method InitialWeight(c: Commit, ghost pb: Problem) returns (weight: int)
    requires pb.Valid() && Counted(pb.G, pb.f, {}) && c in pb.list && c in pb.reaches
    ensures ExactAt(pb, c, weight) && (weight >= 0 ==> pb.parents[c] == 0)
  {
    assert c in Elems(pb.list);
    var parents := CountInterestingParents(c, pb.G, pb.f, pb.I, pb.T);
    assert parents == pb.parents[c];
    if parents == 0 {
      RootReaches(pb, c);
      return if TREESAME in c.flags then 0 else 1;
    }
    return if parents == 1 then -1 else -2;
  }

  ghost predicate ExactPrefix(pb: Problem, i: nat, w: Weights, counted: int)
    requires i <= |pb.list|
  {
    && w.Keys == Elems(pb.list[..i])
    && (forall c :: c in w && c in pb.reaches && c in pb.parents ==> ExactAt(pb, c, w[c]))
    && (forall c :: c in w && c in pb.parents && w[c] >= 0 ==> pb.parents[c] == 0)
    && counted == |Settled(pb, w)|
  }

  lemma NothingOvercounted(pb: Problem, w: Weights, counted: int)
    requires pb.Valid() && ExactPrefix(pb, |pb.list|, w, counted)
    ensures Exact(pb, w) && CountedSoFar(pb, w, counted)
    ensures NoneFilled(pb, w)
  {
    assert pb.list[..|pb.list|] == pb.list;
    assert Overcounted(pb, w) == {};
  }

  lemma InitStep(pb: Problem, i: nat, w: Weights, counted: int, weight: int)
    requires pb.Valid() && i < |pb.list| && ExactPrefix(pb, i, w, counted)
    requires pb.list[i] in pb.reaches && pb.list[i] in pb.parents && ExactAt(pb, pb.list[i], weight)
    requires weight >= 0 ==> pb.parents[pb.list[i]] == 0
    ensures var more := if weight >= 0 && pb.list[i] !in pb.T then 1 else 0;
      ExactPrefix(pb, i + 1, w[pb.list[i] := weight], counted + more)
  {
    hide Problem.Valid, ExactAt, Settled, Elems;
    var c := pb.list[i];
    NotListedYet(pb, i);
    ElemsOneMore(pb.list, i);
    assert w[c := weight].Keys == w.Keys + {c};
    SettledGrows(pb, w, c, weight);
  }

  lemma NotListedYet(pb: Problem, i: nat)
    requires pb.Valid() && i < |pb.list|
    ensures pb.list[i] !in Elems(pb.list[..i])
  {
    hide World, Reaches, InterestingParents;
  }

  lemma SettledGrows(pb: Problem, w: Weights, c: Commit, weight: int)
    requires c in pb.reaches && c !in w
    ensures |Settled(pb, w[c := weight])| == |Settled(pb, w)| + if weight >= 0 && c !in pb.T then 1 else 0
  {
    if weight >= 0 && c !in pb.T {
      assert Settled(pb, w[c := weight]) == Settled(pb, w) + {c};
    } else {
      assert Settled(pb, w[c := weight]) == Settled(pb, w);
    }
  }

  /** The first loop: roots get their weight, the others a note of how it will be found. */
  method InitWeights(list: seq<Commit>, ghost pb: Problem) returns (w: Weights, counted: int)
    requires pb.Valid() && Counted(pb.G, pb.f, {}) && list == pb.list
    ensures Exact(pb, w) && CountedSoFar(pb, w, counted)
    ensures NoneFilled(pb, w)
  {
    hide Problem.Valid, Counted, ExactPrefix, ExactAt, Exact, CountedSoFar, NoneFilled;
    w, counted := map[], 0;
    NothingYet(pb);
    var i := 0;
    while i < |list|
      invariant 0 <= i <= |list|
      invariant ExactPrefix(pb, i, w, counted)
    {
      FlagsTell(list[i], pb);
      var weight := InitialWeight(list[i], pb);
      InitStep(pb, i, w, counted, weight);
      w := w[list[i] := weight];
      if weight >= 0 && TREESAME !in list[i].flags {
        counted := counted + 1;
      }
      i := i + 1;
    }
    NothingOvercounted(pb, w, counted);
  }

  lemma NothingYet(pb: Problem)
    ensures ExactPrefix(pb, 0, map[], 0)
  {
    assert Settled(pb, map[]) == {};
  }

  /** The weight of one merge, counted the expensive way. */
  method WeighMerge(c: Commit, list: seq<Commit>, ghost pb: Problem) returns (weight: nat)
    requires pb.Valid() && Counted(pb.G, pb.f, {}) && list == pb.list && c in list && c in pb.reaches
    modifies pb.G`flags
    ensures weight == pb.reaches[c]
    ensures Counted(pb.G, pb.f, {})
  {
    assert c in Elems(list);
    ghost var V;
    weight, V := CountDistance(c, pb.G, pb.f, pb.I, pb.T, {});
    SweptWeight(pb, c, V, weight);
    ClearDistance(list, pb.G, pb.f, V);
  }

  lemma SweptWeight(pb: Problem, c: Commit, V: set<Commit>, weight: nat)
    requires pb.Valid() && c in pb.list && c in pb.reaches
    requires Counting(pb.I, pb.T, c, {}, V, {}, weight) && c in V
    ensures weight == pb.reaches[c] && V <= Elems(pb.list)
  {
    hide World, Closed, Covered, Walk;
    SweepIsReachSet(pb.I, c, V);
    ReachStaysOnList(pb.I, pb.list, c);
    assert V - {} - pb.T == V - pb.T;
    assert weight == Reaches(pb.I, pb.T, c);
  }

  lemma MergeAtOnce(pb: Problem, c: Commit)
    requires pb.Valid() && c in pb.reaches && c in pb.parents && pb.parents[c] > 1
    ensures c in AtOnce(pb.I, pb.list)
  {
    assert c in Elems(pb.list) && c in pb.list;
    assert pb.parents[c] == InterestingParents(pb.I, c.parents);
  }

  method WeighIfMerge(c: Commit, list: seq<Commit>, nr: int, w0: Weights, counted0: int, ghost pb: Problem)
    returns (w: Weights, counted: int, halfway: bool)
    requires pb.Valid() && Counted(pb.G, pb.f, {}) && list == pb.list && c in list
    requires Exact(pb, w0) && CountedSoFar(pb, w0, counted0) && NoneFilled(pb, w0)
    modifies pb.G`flags
    ensures Counted(pb.G, pb.f, {}) && Exact(pb, w)
    ensures forall x :: x in pb.reaches && x in w0 ==> x in w && w[x] >= w0[x]
    ensures c in w && w[c] >= -1
    ensures if halfway then pb.Optimal(nr, w, c) && c in AtOnce(pb.I, pb.list)
            else CountedSoFar(pb, w, counted) && NoneFilled(pb, w)
  {
    hide Problem.Valid, Counted, CountedSoFar, Problem.Optimal, InterestingParents;
    w, counted := w0, counted0;
    FlagsTell(c, pb);
    assert ExactAt(pb, c, w[c]);
    if UNINTERESTING in c.flags || w[c] != -2 {
      return w, counted, false;
    }
    assert c in AtOnce(pb.I, list) by {
      MergeAtOnce(pb, c);
    }
    var weight := WeighMerge(c, list, pb);
    FlagsTell(c, pb);
    SettleOne(pb, w, counted, c, weight);
    w := w[c := weight];
    if Halfway(TREESAME in c.flags, weight, nr) {
      HalfwayIsOptimal(pb, nr, w, c);
      return w, counted, true;
    }
    counted := counted + 1;
    return w, counted, false;
  }

  ghost predicate MergesWeighed(pb: Problem, w: Weights, i: nat)
    requires i <= |pb.list|
  {
    forall c :: c in Elems(pb.list[..i]) ==> c in w && w[c] >= -1
  }

  lemma MergeWeighed(pb: Problem, w: Weights, w': Weights, i: nat)
    requires pb.Valid() && i < |pb.list| && NoneFilled(pb, w) && MergesWeighed(pb, w, i)
    requires forall c :: c in pb.reaches && c in w ==> c in w' && w'[c] >= w[c]
    requires pb.list[i] in w' && w'[pb.list[i]] >= -1
    ensures MergesWeighed(pb, w', i + 1)
  {
    ElemsOneMore(pb.list, i);
  }

  /** The second loop: all merges, unless one is found to lie halfway. */
  method WeighMerges(list: seq<Commit>, nr: int, w0: Weights, counted0: int, ghost pb: Problem)
    returns (w: Weights, counted: int, found: int)
    requires pb.Valid() && Counted(pb.G, pb.f, {}) && list == pb.list
    requires Exact(pb, w0) && CountedSoFar(pb, w0, counted0) && NoneFilled(pb, w0)
    modifies pb.G`flags
    ensures Counted(pb.G, pb.f, {}) && Exact(pb, w)
    ensures -1 <= found < |list|
    ensures found >= 0 ==> pb.Optimal(nr, w, list[found]) && list[found] in AtOnce(pb.I, pb.list)
    ensures found == -1 ==> CountedSoFar(pb, w, counted) && NoneFilled(pb, w) && NoneUnweighed(pb, w)
  {
    hide Problem.Valid, Counted, CountedSoFar, Exact, NoneFilled, NoneUnweighed, Problem.Optimal, AtOnce;
    w, counted := w0, counted0;
    assert MergesWeighed(pb, w, 0);
    var i := 0;
    while i < |list|
      invariant 0 <= i <= |list|
      invariant Counted(pb.G, pb.f, {})
      invariant Exact(pb, w) && CountedSoFar(pb, w, counted) && NoneFilled(pb, w)
      invariant MergesWeighed(pb, w, i)
    {
      hide MergesWeighed;
      ghost var before := w;
      var halfway;
      w, counted, halfway := WeighIfMerge(list[i], list, nr, w, counted, pb);
      if halfway {
        return w, counted, i;
      }
      MergeWeighed(pb, before, w, i);
      i := i + 1;
    }
    AllMergesWeighed(pb, w);
    return w, counted, -1;
  }

  lemma AllMergesWeighed(pb: Problem, w: Weights)
    requires pb.Valid() && MergesWeighed(pb, w, |pb.list|)
    ensures NoneUnweighed(pb, w)
  {
    assert pb.list[..|pb.list|] == pb.list;
  }

  ghost predicate NoneUnweighed(pb: Problem, w: Weights)
  {
    forall c :: c in pb.reaches ==> c in w && w[c] >= -1
  }

  /** Looks for an interesting parent whose weight is known. */
  method FindSettledParent(c: Commit, w: Weights, ghost S: set<Commit>, ghost pb: Problem)
    returns (found: bool, q: Commit)
    requires pb.Valid() && Counted(pb.G, pb.f, {}) && c in pb.list && Knows(pb, w, S)
    ensures found == Leads(c, S) && (found ==> q in c.parents && q in S)
  {
    assert c in Elems(pb.list) && Covered(pb.I, c, Elems(pb.list));
    q := c;
    var i := 0;
    while i < |c.parents|
      invariant 0 <= i <= |c.parents|
      invariant forall j :: 0 <= j < i ==> c.parents[j] !in S
    {
      var p := c.parents[i];
      if UNINTERESTING !in p.flags {
        assert p in Elems(pb.list);
        if 0 <= w[p] {
          return true, p;
        }
      }
      i := i + 1;
    }
    return false, q;
  }

  /** A commit with a single interesting parent settles once that parent has. */
  lemma FillFromParent(pb: Problem, w: Weights, S: set<Commit>, c: Commit, q: Commit)
    requires pb.Valid() && Exact(pb, w) && NoneUnweighed(pb, w) && Knows(pb, w, S)
    requires c in pb.list && c !in S && q in c.parents && q in S
    ensures c in pb.reaches && c in pb.parents && pb.parents[c] == 1
    ensures q in w && w[q] >= 0 && pb.reaches[c] == w[q] + if c in pb.T then 0 else 1
  {
    assert c in Elems(pb.list) && q in Elems(pb.list);
    assert ExactAt(pb, c, w[c]) && ExactAt(pb, q, w[q]);
    assert InterestingParents(pb.I, c.parents) == 1;
    InterestingParentsMeaning(pb.I, c.parents);
    ReachesThroughOne(pb.G, pb.I, pb.T, c, q);
  }

  /** One commit of the fill loop: settled if an interesting parent is. */
  method FillOne(c: Commit, nr: int, w0: Weights, counted0: int, ghost S: set<Commit>, ghost pb: Problem)
    returns (w: Weights, counted: int, halfway: bool)
    requires pb.Valid() && Counted(pb.G, pb.f, {}) && c in pb.list
    requires Exact(pb, w0) && CountedSoFar(pb, w0, counted0) && NoneUnweighed(pb, w0) && Knows(pb, w0, S)
    ensures Exact(pb, w) && NoneUnweighed(pb, w) && Knows(pb, w, OneMore(S, c))
    ensures if halfway then c in OneMore(S, c) && pb.Optimal(nr, w, c) else CountedSoFar(pb, w, counted)
  {
    hide Problem.Valid, Counted, CountedSoFar, Problem.Optimal, Exact, Leads;
    w, counted := w0, counted0;
    FlagsTell(c, pb);
    if 0 <= w[c] {
      assert S + {c} == S;
      return w, counted, false;
    }
    var settled, q := FindSettledParent(c, w, S, pb);
    if !settled {
      return w, counted, false;
    }
    FillFromParent(pb, w, S, c, q);
    var weight := w[q] + if TREESAME in c.flags then 0 else 1;
    SettleOne(pb, w, counted, c, weight);
    w := w[c := weight];
    if TREESAME !in c.flags {
      counted := counted + 1;
    }
    halfway := Halfway(TREESAME in c.flags, weight, nr);
    if halfway {
      HalfwayIsOptimal(pb, nr, w, c);
    }
  }

  /** One pass of the fill loop over the list. */
  method FillPass(list: seq<Commit>, nr: int, w0: Weights, counted0: int, ghost S: set<Commit>, ghost pb: Problem)
    returns (w: Weights, counted: int, found: int)
    requires pb.Valid() && Counted(pb.G, pb.f, {}) && list == pb.list
    requires Exact(pb, w0) && CountedSoFar(pb, w0, counted0) && NoneUnweighed(pb, w0) && Knows(pb, w0, S)
    ensures Exact(pb, w) && -1 <= found < |list|
    ensures if found >= 0 then list[found] in Pass(list, S, |list|) && pb.Optimal(nr, w, list[found])
            else CountedSoFar(pb, w, counted) && NoneUnweighed(pb, w) && Knows(pb, w, Pass(list, S, |list|))
  {
    hide CountedSoFar, Exact, NoneUnweighed, Knows, Counted, Problem.Valid, Problem.Optimal;
    w, counted := w0, counted0;
    var i := 0;
    while i < |list|
      invariant 0 <= i <= |list|
      invariant Exact(pb, w) && CountedSoFar(pb, w, counted) && NoneUnweighed(pb, w)
      invariant Knows(pb, w, Pass(list, S, i))
    {
      var halfway;
      w, counted, halfway := FillOne(list[i], nr, w, counted, Pass(list, S, i), pb);
      if halfway {
        PassGrows(list, S, i + 1, |list|);
        return w, counted, i;
      }
      i := i + 1;
    }
    return w, counted, -1;
  }

  // ---------------------------------------------------------------- the choice

  /** As long as the counter has not reached nr, some commit is unsettled. */
  lemma StillUnsettled(pb: Problem, nr: int, w: Weights, counted: int)
    requires pb.Valid() && Exact(pb, w) && CountedSoFar(pb, w, counted)
    requires nr == |Elems(pb.list) - pb.T| && counted < nr
    ensures Unsettled(pb, w) != {}
  {
    var all, settled := Elems(pb.list) - pb.T, Settled(pb, w);
    assert settled <= all && settled != all;
    var c :| c in all && c !in settled;
    assert c in Unsettled(pb, w);
  }

  /** No commit reaches more tree-changing commits than there are. */
  lemma ReachesAtMostAll(pb: Problem, c: Commit)
    requires pb.Valid() && c in pb.list && c in pb.reaches
    ensures pb.reaches[c] <= |Elems(pb.list) - pb.T|
  {
    ReachStaysOnList(pb.I, pb.list, c);
    var a, b := ReachSet(pb.I, c) - pb.T, Elems(pb.list) - pb.T;
    assert pb.reaches[c] == Reaches(pb.I, pb.T, c);
    if a != b {
      ProperSubsetIsSmaller(a, b);
    }
  }

  /** best is tree-changing and weighed unless there is no such commit, and none that is halves better. */
  ghost predicate BestWeighed(pb: Problem, nr: int, w: Weights, best: Commit) {
    forall d :: d in pb.reaches && d in w && d !in pb.T && w[d] >= 0 && Distance(nr, w[d]) >= 0 ==>
      best in w && best !in pb.T && w[best] >= 0 && Distance(nr, w[d]) <= Distance(nr, w[best])
  }

  lemma BestOfAll(pb: Problem, nr: int, w: Weights, best: nat, distance: int)
    requires pb.Valid() && best < |pb.list| && forall c :: c in pb.list ==> c in w
    requires BestTo(pb.list, pb.T, nr, w, |pb.list|, best, distance)
    ensures BestWeighed(pb, nr, w, pb.list[best])
    ensures pb.list[best] !in pb.T && Distance(nr, w[pb.list[best]]) >= 0 ==>
      forall j :: 0 <= j < best && pb.list[j] !in pb.T ==>
        Distance(nr, w[pb.list[j]]) < Distance(nr, w[pb.list[best]])
  {
    forall d | d in pb.reaches && d !in pb.T && Distance(nr, w[d]) >= 0
      ensures Distance(nr, w[d]) <= distance && distance >= 0
    {
      assert d in Elems(pb.list);
      var j :| 0 <= j < |pb.list| && pb.list[j] == d;
    }
  }

  /** best is the first of the largest distance among the first i commits; -1 while there is none. */
  ghost predicate BestTo(list: seq<Commit>, T: set<Commit>, nr: int, w: Weights, i: nat, best: nat, distance: int)
    requires best < |list| && i <= |list| && forall c :: c in list ==> c in w
  {
    && (forall j :: 0 <= j < i && list[j] !in T ==> Distance(nr, w[list[j]]) <= distance)
    && (forall j :: 0 <= j < best && list[j] !in T ==> Distance(nr, w[list[j]]) < distance)
    && if distance == -1 then best == 0
       else distance >= 0 && best < i && list[best] !in T && distance == Distance(nr, w[list[best]])
  }

  lemma BestOfNone(list: seq<Commit>, nr: int, w: Weights, pb: Problem)
    requires pb.Valid() && list == pb.list != [] && forall c :: c in pb.reaches ==> c in w
    ensures (forall c :: c in list ==> c in w) && BestTo(list, pb.T, nr, w, 0, 0, -1)
  {
    assert forall c :: c in list ==> c in Elems(list);
  }

  lemma BestStep(list: seq<Commit>, T: set<Commit>, nr: int, w: Weights, i: nat, best: nat, distance: int)
    requires i < |list| && best < |list| && forall c :: c in list ==> c in w
    requires BestTo(list, T, nr, w, i, best, distance)
    ensures list[i] in T || Distance(nr, w[list[i]]) <= distance ==> BestTo(list, T, nr, w, i + 1, best, distance)
    ensures list[i] !in T && Distance(nr, w[list[i]]) > distance ==>
      BestTo(list, T, nr, w, i + 1, i, Distance(nr, w[list[i]]))
  {
    hide Distance;
  }

  /** best_bisection: the first tree-changing commit of the largest distance, as an index. */
  method BestBisection(list: seq<Commit>, nr: int, w: Weights, ghost pb: Problem) returns (best: nat)
    requires pb.Valid() && Counted(pb.G, pb.f, {}) && list == pb.list != []
    requires forall c :: c in pb.reaches ==> c in w
    ensures best < |list| && BestWeighed(pb, nr, w, list[best])
    ensures list[best] in w && list[best] !in pb.T && Distance(nr, w[list[best]]) >= 0 ==>
      forall j :: 0 <= j < best && list[j] !in pb.T && list[j] in w ==>
        Distance(nr, w[list[j]]) < Distance(nr, w[list[best]])
  {
    hide Problem.Valid, Counted, Distance, BestTo;
    best := 0;
    var bestDistance := -1;
    BestOfNone(list, nr, w, pb);
    var i := 0;
    while i < |list|
      invariant 0 <= i <= |list| && 0 <= best < |list|
      invariant BestTo(list, pb.T, nr, w, i, best, bestDistance)
    {
      var c := list[i];
      FlagsTell(c, pb);
      BestStep(list, pb.T, nr, w, i, best, bestDistance);
      if TREESAME !in c.flags {
        var distance := Distance(nr, w[c]);
        if distance > bestDistance {
          best, bestDistance := i, distance;
        }
      }
      i := i + 1;
    }
    BestOfAll(pb, nr, w, best, bestDistance);
  }

  /** A commit of S that halves the list as well as any. */
  ghost predicate BestIn(pb: Problem, nr: int, S: set<Commit>)
    requires Elems(pb.list) == pb.reaches.Keys
  {
    exists c :: c in S && c in Elems(pb.list) && c !in pb.T && BestScore(pb, nr, c)
  }

  ghost predicate BestScore(pb: Problem, nr: int, c: Commit)
    requires Elems(pb.list) == pb.reaches.Keys && c in Elems(pb.list)
  {
    forall d :: d in Elems(pb.list) && d !in pb.T ==> pb.Score(nr, d) <= pb.Score(nr, c)
  }

  /** The best of the weighed commits is the best of all exactly when a best one is weighed. */
  lemma BestOfWeighed(pb: Problem, nr: int, w: Weights, S: set<Commit>, best: Commit)
    requires pb.Valid() && Exact(pb, w) && Knows(pb, w, S) && best in pb.list && BestWeighed(pb, nr, w, best)
    requires nr == |Elems(pb.list) - pb.T|
    ensures pb.Optimal(nr, w, best) <==> BestIn(pb, nr, S)
  {
    hide World, Closed, Reaches, InterestingParents, Knows, Exact, BestWeighed;
    if pb.Optimal(nr, w, best) {
      KnownTells(pb, w, S, best);
      assert BestScore(pb, nr, best);
    }
    if BestIn(pb, nr, S) {
      var c :| c in S && c in Elems(pb.list) && c !in pb.T && BestScore(pb, nr, c);
      AsGoodAs(pb, nr, w, S, best, c);
    }
  }

  lemma KnownTells(pb: Problem, w: Weights, S: set<Commit>, c: Commit)
    requires pb.Valid() && Exact(pb, w) && Knows(pb, w, S) && c in pb.list
    ensures c in Elems(pb.list) && c in w && (c in S <==> w[c] >= 0) && (w[c] >= 0 ==> w[c] == pb.reaches[c])
  {
    hide World, Closed, Reaches, InterestingParents;
    assert c in Elems(pb.list) && ExactAt(pb, c, w[c]);
  }

  lemma AsGoodAs(pb: Problem, nr: int, w: Weights, S: set<Commit>, best: Commit, c: Commit)
    requires pb.Valid() && Exact(pb, w) && Knows(pb, w, S) && best in pb.list && BestWeighed(pb, nr, w, best)
    requires nr == |Elems(pb.list) - pb.T| && c in S && c in Elems(pb.list) && c !in pb.T && BestScore(pb, nr, c)
    ensures pb.Optimal(nr, w, best)
  {
    hide World, Closed, Reaches, InterestingParents, Knows, Exact;
    KnownTells(pb, w, S, best);
    KnownTells(pb, w, S, c);
    ReachesAtMostAll(pb, c);
    assert pb.Score(nr, c) <= pb.Score(nr, best);
  }

  /** do_find_bisection with find_all off, on a list that is not empty: an index and the weights. */
  method DoFindBisection(list: seq<Commit>, nr: int, ghost pb: Problem) returns (best: nat, w: Weights)
    requires pb.Valid() && Counted(pb.G, pb.f, {}) && list == pb.list != []
    requires nr == |Elems(list) - pb.T|
    modifies pb.G`flags
    ensures Counted(pb.G, pb.f, {}) && Exact(pb, w)
    ensures best < |list| && BestWeighed(pb, nr, w, list[best])
    ensures pb.Optimal(nr, w, list[best]) <==> BestIn(pb, nr, Weighed(pb.I, pb.T, list))
  {
    var counted, found;
    w, counted := InitWeights(list, pb);
    w, counted, found := WeighMerges(list, nr, w, counted, pb);
    ghost var S := AtOnce(pb.I, list);
    FilledGrows(pb.I, pb.T, list, nr, S);
    if found >= 0 {
      best := found;
      FoundIsBest(pb, nr, w, list[best], S);
      return;
    }
    KnowsAtOnce(pb, w);
    best, w := FillAndChoose(list, nr, w, counted, pb);
  }

  /** A commit found halfway is the best of all. */
  lemma FoundIsBest(pb: Problem, nr: int, w: Weights, c: Commit, S: set<Commit>)
    requires pb.Valid() && Exact(pb, w) && pb.Optimal(nr, w, c) && c in S
    ensures BestWeighed(pb, nr, w, c) && BestIn(pb, nr, S)
  {
    assert BestScore(pb, nr, c);
    forall d | d in pb.reaches && d in w && d !in pb.T && w[d] >= 0
      ensures Distance(nr, w[d]) <= Distance(nr, w[c])
    {
      assert ExactAt(pb, d, w[d]);
      assert d in Elems(pb.list) && pb.Score(nr, d) <= pb.Score(nr, c);
    }
  }

  /** The fill loop, and the choice behind it. */
  method FillAndChoose(list: seq<Commit>, nr: int, w0: Weights, counted0: int, ghost pb: Problem)
    returns (best: nat, w: Weights)
    requires pb.Valid() && Counted(pb.G, pb.f, {}) && list == pb.list != [] && nr == |Elems(list) - pb.T|
    requires Exact(pb, w0) && CountedSoFar(pb, w0, counted0) && NoneUnweighed(pb, w0)
    requires Knows(pb, w0, AtOnce(pb.I, list))
    ensures Exact(pb, w)
    ensures best < |list| && BestWeighed(pb, nr, w, list[best])
    ensures pb.Optimal(nr, w, list[best]) <==> BestIn(pb, nr, Weighed(pb.I, pb.T, list))
  {
    hide CountedSoFar, Exact, NoneUnweighed, Counted, Problem.Valid, Problem.Optimal, BestWeighed, BestIn;
    var counted, found;
    w, counted := w0, counted0;
    ghost var S := AtOnce(pb.I, list);
    while counted < nr
      invariant Exact(pb, w) && CountedSoFar(pb, w, counted) && NoneUnweighed(pb, w)
      invariant AtOnce(pb.I, list) <= S && Knows(pb, w, S)
      invariant Filled(pb.I, pb.T, list, nr, S) == Weighed(pb.I, pb.T, list)
      decreases Elems(list) - S
    {
      PassNeeded(pb, nr, w, counted, S);
      w, counted, found := FillPass(list, nr, w, counted, S, pb);
      S := Pass(list, S, |list|);
      if found >= 0 {
        best := found;
        FilledGrows(pb.I, pb.T, list, nr, S);
        FoundIsBest(pb, nr, w, list[best], Weighed(pb.I, pb.T, list));
        return;
      }
    }
    CounterShows(pb, w, S, counted);
    best := BestBisection(list, nr, w, pb);
    BestOfWeighed(pb, nr, w, S, list[best]);
  }

  lemma PassNeeded(pb: Problem, nr: int, w: Weights, counted: int, S: set<Commit>)
    requires pb.Valid() && Exact(pb, w) && CountedSoFar(pb, w, counted)
    requires nr == |Elems(pb.list) - pb.T| && counted < nr
    requires AtOnce(pb.I, pb.list) <= S && Knows(pb, w, S)
    ensures var S' := Pass(pb.list, S, |pb.list|);
      S < S' <= Elems(pb.list) && Filled(pb.I, pb.T, pb.list, nr, S) == Filled(pb.I, pb.T, pb.list, nr, S')
  {
    hide Settled, Overcounted, Exact, Reaches, Covered, InterestingParents, Counter;
    CounterShows(pb, w, S, counted);
    StillUnsettled(pb, nr, w, counted);
    NextToFill(pb.G, pb.I, pb.list, S);
  }

  // ---------------------------------------------------------------- find_bisection

  /** The interesting commits among the first k of a list, in reverse order. */
  ghost function Kept(I: set<Commit>, list: seq<Commit>, k: nat): seq<Commit>
    requires k <= |list|
  {
    if k == 0 then [] else (if list[k - 1] in I then [list[k - 1]] else []) + Kept(I, list, k - 1)
  }

  lemma {:induction false} KeptMembers(I: set<Commit>, list: seq<Commit>, k: nat)
    requires k <= |list|
    ensures Elems(Kept(I, list, k)) == Elems(list[..k]) * I
    ensures Distinct(list) ==> Distinct(Kept(I, list, k))
  {
    hide Kept, Distinct;
    KeptNone(I, list);
    if k > 0 {
      var c, rest, before := list[k - 1], Kept(I, list, k - 1), Elems(list[..k - 1]);
      KeptMembers(I, list, k - 1);
      KeptStep(I, list, k - 1);
      ElemsOneMore(list, k - 1);
      ElemsInFront(c, rest);
      assert (before + {c}) * I == before * I + if c in I then {c} else {};
      FirstMet(list, k - 1);
    }
  }

  lemma FirstMet(list: seq<Commit>, i: nat)
    requires i < |list|
    ensures Distinct(list) ==> list[i] !in Elems(list[..i])
  {
  }

  lemma KeptNone(I: set<Commit>, list: seq<Commit>)
    ensures Kept(I, list, 0) == [] && Distinct(Kept(I, list, 0))
  {
  }

  lemma ElemsInFront(c: Commit, s: seq<Commit>)
    ensures Elems([c] + s) == Elems(s) + {c}
    ensures c !in Elems(s) && Distinct(s) ==> Distinct([c] + s)
  {
  }

  lemma KeptStep(I: set<Commit>, list: seq<Commit>, k: nat)
    requires k < |list|
    ensures Kept(I, list, k + 1) == if list[k] in I then [list[k]] + Kept(I, list, k) else Kept(I, list, k)
  {
  }

  lemma NotKeptYet(I: set<Commit>, list: seq<Commit>, i: nat)
    requires Distinct(list) && i < |list|
    ensures list[i] !in Elems(Kept(I, list, i))
  {
    KeptMembers(I, list, i);
    assert list[i] !in Elems(list[..i]);
  }

  lemma CountOne(T: set<Commit>, kept: seq<Commit>, c: Commit)
    requires c !in Elems(kept)
    ensures |Elems([c] + kept) - T| == |Elems(kept) - T| + if c in T then 0 else 1
  {
    if c in T {
      assert Elems([c] + kept) - T == Elems(kept) - T;
    } else {
      assert Elems([c] + kept) - T == (Elems(kept) - T) + {c};
    }
  }

  /** The first loop of find_bisection: drop uninteresting commits, reverse, and count. */
  method ReverseInteresting(list: seq<Commit>, ghost G: set<Commit>, ghost f: FlagMap, ghost I: set<Commit>,
                            ghost T: set<Commit>)
    returns (kept: seq<Commit>, nr: int)
    requires FlagView(G, f, I, T) && Counted(G, f, {}) && Elems(list) <= G && Distinct(list)
    ensures kept == Kept(I, list, |list|) && nr == |Elems(kept) - T|
  {
    kept, nr := [], 0;
    assert Elems(kept) - T == {};
    var i := 0;
    while i < |list|
      invariant 0 <= i <= |list|
      invariant kept == Kept(I, list, i)
      invariant nr == |Elems(kept) - T|
    {
      assert list[i] in Elems(list);
      KeptStep(I, list, i);
      NotKeptYet(I, list, i);
      kept, nr := KeepInteresting(list[i], kept, nr, G, f, I, T);
      i := i + 1;
    }
  }

  method KeepInteresting(c: Commit, kept0: seq<Commit>, nr0: int, ghost G: set<Commit>, ghost f: FlagMap,
                         ghost I: set<Commit>, ghost T: set<Commit>)
    returns (kept: seq<Commit>, nr: int)
    requires FlagView(G, f, I, T) && Counted(G, f, {}) && c in G && c !in Elems(kept0) && nr0 == |Elems(kept0) - T|
    ensures kept == if c in I then [c] + kept0 else kept0
    ensures nr == |Elems(kept) - T|
  {
    if UNINTERESTING in c.flags {
      return kept0, nr0;
    }
    CountOne(T, kept0, c);
    return [c] + kept0, if TREESAME in c.flags then nr0 else nr0 + 1;
  }

  /** The commits a bisection may return: interesting, tree-changing and on the list. */
  ghost function Choices(I: set<Commit>, T: set<Commit>, list: seq<Commit>): set<Commit> {
    Elems(list) * I - T
  }

  /** best splits the choices as evenly as any of them does. */
  ghost predicate HalvesBest(I: set<Commit>, T: set<Commit>, list: seq<Commit>, best: Commit)
  {
    var nr := |Choices(I, T, list)|;
    && best in Choices(I, T, list)
    && forall d :: d in Choices(I, T, list) ==> Distance(nr, Reaches(I, T, d)) <= Distance(nr, Reaches(I, T, best))
  }

  /** Some commit that gets a weight splits the choices as evenly as any. */
  ghost predicate BestIsWeighed(I: set<Commit>, T: set<Commit>, list: seq<Commit>)
  {
    exists c :: c in Weighed(I, T, Kept(I, list, |list|)) && HalvesBest(I, T, list, c)
  }

  /** find_bisection with find_all off; null stands for an empty list. */
  method FindBisection(list: seq<Commit>, ghost G: set<Commit>, ghost f: FlagMap, ghost I: set<Commit>,
                       ghost T: set<Commit>)
    returns (best: Commit?, reaches: int, all: int)
    requires World(G, f, I, T) && Counted(G, f, {}) && Elems(list) <= G && Distinct(list)
    requires forall c :: c in list && c in I ==> Covered(I, c, Elems(list))
    modifies G`flags
    ensures Counted(G, f, {})
    ensures all == |Choices(I, T, list)|
    ensures best == null <==> Elems(list) * I == {}
    ensures best != null && reaches >= 0 ==> reaches == Reaches(I, T, best)
    ensures best != null && reaches >= 0 && HalvesBest(I, T, list, best) <==> BestIsWeighed(I, T, list)
  {
    hide Kept, Counted, Covered, Reaches, Dag;
    var kept, nr := ReverseInteresting(list, G, f, I, T);
    all := nr;
    KeptFacts(I, T, list, kept);
    if kept == [] {
      assert forall c :: !HalvesBest(I, T, list, c);
      return null, 0, all;
    }
    ghost var pb := ProblemOf(G, f, I, T, list, kept);
    best, reaches := BisectKept(kept, nr, list, pb);
  }

  lemma KeptFacts(I: set<Commit>, T: set<Commit>, list: seq<Commit>, kept: seq<Commit>)
    requires kept == Kept(I, list, |list|)
    ensures Elems(kept) == Elems(list) * I && |Elems(kept) - T| == |Choices(I, T, list)|
    ensures kept == [] <==> Elems(list) * I == {}
    ensures kept == [] ==> |Choices(I, T, list)| == 0
  {
    KeptMembers(I, list, |list|);
    assert list[..|list|] == list;
    assert Elems(kept) - T == Choices(I, T, list);
    if kept == [] {
      assert Elems(kept) == {};
      assert Choices(I, T, list) == {};
    } else {
      assert kept[0] in Elems(kept);
    }
  }

  method BisectKept(kept: seq<Commit>, nr: int, ghost list: seq<Commit>, ghost pb: Problem)
    returns (best: Commit, reaches: int)
    requires pb.Valid() && Counted(pb.G, pb.f, {}) && kept == pb.list == Kept(pb.I, list, |list|) != []
    requires Elems(kept) == Elems(list) * pb.I && nr == |Choices(pb.I, pb.T, list)|
    modifies pb.G`flags
    ensures Counted(pb.G, pb.f, {})
    ensures reaches >= 0 ==> reaches == Reaches(pb.I, pb.T, best)
    ensures reaches >= 0 && HalvesBest(pb.I, pb.T, list, best) <==> BestIsWeighed(pb.I, pb.T, list)
  {
    hide World, Closed, Exact, Problem.Optimal, BestIn;
    assert Elems(kept) - pb.T == Choices(pb.I, pb.T, list);
    var k, w := DoFindBisection(kept, nr, pb);
    best, reaches := ReadAnswer(kept, k, w, pb);
    SolvedProblem(pb, list, nr, w, best);
  }

  method ReadAnswer(kept: seq<Commit>, k: nat, w: Weights, ghost pb: Problem) returns (best: Commit, reaches: int)
    requires pb.Valid() && kept == pb.list && k < |kept| && Exact(pb, w)
    ensures best == kept[k] && best in w && reaches == w[best]
    ensures reaches >= 0 ==> reaches == Reaches(pb.I, pb.T, best)
  {
    best := kept[k];
    assert best in Elems(kept);
    reaches := w[best];
    assert ExactAt(pb, best, reaches);
    assert pb.reaches[best] == Reaches(pb.I, pb.T, best);
  }

  lemma ProblemOf(G: set<Commit>, f: FlagMap, I: set<Commit>, T: set<Commit>, list: seq<Commit>, kept: seq<Commit>)
    returns (pb: Problem)
    requires World(G, f, I, T) && Distinct(list) && kept == Kept(I, list, |list|)
    requires forall c :: c in list && c in I ==> Covered(I, c, Elems(list))
    ensures pb.Valid() && pb.G == G && pb.f == f && pb.I == I && pb.T == T && pb.list == kept
  {
    hide Kept, World, InterestingParents, Reaches;
    KeptMembers(I, list, |list|);
    assert list[..|list|] == list;
    pb := Problem(G, f, I, T, kept, map c | c in Elems(kept) :: Reaches(I, T, c),
                  map c | c in Elems(kept) :: InterestingParents(I, c.parents));
    forall c | c in kept
      ensures Covered(I, c, Elems(kept))
    {
      assert c in Elems(kept);
      assert Covered(I, c, Elems(list));
    }
  }

  /** What the search says of its numbers, said of the history. */
  lemma SolvedProblem(pb: Problem, list: seq<Commit>, nr: int, w: Weights, best: Commit)
    requires pb.Valid() && pb.list == Kept(pb.I, list, |list|) && Elems(pb.list) == Elems(list) * pb.I
    requires nr == |Choices(pb.I, pb.T, list)| && best in pb.list && Exact(pb, w)
    requires pb.Optimal(nr, w, best) <==> BestIn(pb, nr, Weighed(pb.I, pb.T, pb.list))
    ensures best in w
    ensures w[best] >= 0 && HalvesBest(pb.I, pb.T, list, best) <==> BestIsWeighed(pb.I, pb.T, list)
  {
    hide World, Covered, Reaches, InterestingParents, Kept, Filled;
    assert best in Elems(pb.list);
    forall c | c in Elems(pb.list)
      ensures HalvesBest(pb.I, pb.T, list, c) <==> c !in pb.T && BestScore(pb, nr, c)
    {
      SameScores(pb, list, nr, c);
    }
    FilledGrows(pb.I, pb.T, pb.list, |Elems(pb.list) - pb.T|, AtOnce(pb.I, pb.list));
    assert ExactAt(pb, best, w[best]);
  }

  lemma SameScores(pb: Problem, list: seq<Commit>, nr: int, c: Commit)
    requires pb.Valid() && Elems(pb.list) == Elems(list) * pb.I && c in Elems(pb.list)
    requires nr == |Choices(pb.I, pb.T, list)|
    ensures HalvesBest(pb.I, pb.T, list, c) <==> c !in pb.T && BestScore(pb, nr, c)
  {
    forall d | d in Elems(pb.list)
      ensures pb.Score(nr, d) == Distance(nr, Reaches(pb.I, pb.T, d))
      ensures d in Choices(pb.I, pb.T, list) <==> d !in pb.T
    {
      assert d in pb.list;
    }
  }

  // ---------------------------------------------------------------- when the best commit is found

  /** Children stand before their parents, as the history is listed. */
  ghost predicate NewestFirst(list: seq<Commit>) {
    forall i, j :: 0 <= i < j < |list| ==> list[i] !in list[j].parents
  }

  lemma {:induction false} KeptInOrder(I: set<Commit>, list: seq<Commit>, k: nat)
    requires k <= |list| && NewestFirst(list)
    ensures forall i, j :: 0 <= i < j < |Kept(I, list, k)| ==> Kept(I, list, k)[j] !in Kept(I, list, k)[i].parents
  {
    if k > 0 {
      KeptInOrder(I, list, k - 1);
      KeptMembers(I, list, k - 1);
      var before := Kept(I, list, k - 1);
      forall i | 0 <= i < |before|
        ensures before[i] !in list[k - 1].parents
      {
        assert before[i] in Elems(before);
        assert before[i] in list[..k - 1];
      }
    }
  }

  lemma KeptParentsFirst(G: set<Commit>, I: set<Commit>, list: seq<Commit>)
    requires Dag(G) && Elems(list) <= G && NewestFirst(list)
    ensures ParentsFirst(Kept(I, list, |list|))
  {
    var kept := Kept(I, list, |list|);
    KeptInOrder(I, list, |list|);
    KeptMembers(I, list, |list|);
    forall i, p | 0 <= i < |kept| && p in kept[i].parents && p in Elems(kept)
      ensures p in Elems(kept[..i])
    {
      var j :| 0 <= j < |kept| && kept[j] == p;
      assert kept[i] in Elems(kept);
      ReachSelf(p);
      assert Proper(kept[i], p);
      assert j < i;
    }
    assert forall i :: 0 <= i < |kept| ==> ParentsBefore(kept, i);
  }

  /** What is counted before the fill loop, by the parents on the list alone. */
  ghost function CountedAtOnce(I: set<Commit>, T: set<Commit>, list: seq<Commit>): nat {
    Counter(I, T, AtOnce(I, Kept(I, list, |list|)))
  }

  /** The best commit is found on every list without a TREESAME merge, and on every list with children
      before parents whose roots and merges do not fill the counter. */
  lemma FindsBest(G: set<Commit>, I: set<Commit>, T: set<Commit>, list: seq<Commit>)
    requires Dag(G) && I <= G && Elems(list) <= G && Distinct(list)
    requires forall c :: c in list && c in I ==> Covered(I, c, Elems(list))
    requires Choices(I, T, list) != {}
    requires NoTreesameMerge(I, T, list)
          || (NewestFirst(list) && CountedAtOnce(I, T, list) < |Choices(I, T, list)|)
    ensures BestIsWeighed(I, T, list)
  {
    var kept := Kept(I, list, |list|);
    KeptFacts(I, T, list, kept);
    KeptClosed(I, list);
    if NewestFirst(list) {
      KeptParentsFirst(G, I, list);
    }
    assert NoTreesameMerge(I, T, list) ==> NoTreesameMerge(I, T, kept) by {
      assert forall c :: c in kept ==> c in Elems(kept);
    }
    WeighsAll(G, I, T, kept);
    var best := Halving(I, T, list, Choices(I, T, list));
    assert best in Elems(kept) - T;
  }

  lemma KeptClosed(I: set<Commit>, list: seq<Commit>)
    requires Distinct(list) && forall c :: c in list && c in I ==> Covered(I, c, Elems(list))
    ensures Closed(I, Kept(I, list, |list|))
  {
    var kept := Kept(I, list, |list|);
    KeptMembers(I, list, |list|);
    assert list[..|list|] == list;
    forall c | c in kept
      ensures Covered(I, c, Elems(kept))
    {
      assert c in Elems(kept);
      assert Covered(I, c, Elems(list));
    }
  }

  /** Some commit of C is at least as good as all of C. */
  lemma {:induction false} Halving(I: set<Commit>, T: set<Commit>, list: seq<Commit>, C: set<Commit>)
    returns (best: Commit)
    requires C != {}
    ensures best in C
    ensures var nr := |Choices(I, T, list)|;
      forall d :: d in C ==> Distance(nr, Reaches(I, T, d)) <= Distance(nr, Reaches(I, T, best))
  {
    var nr := |Choices(I, T, list)|;
    best :| best in C;
    if C != {best} {
      var b := Halving(I, T, list, C - {best});
      if Distance(nr, Reaches(I, T, b)) > Distance(nr, Reaches(I, T, best)) {
        best := b;
      }
    }
  }

  /** When the roots and merges fill the counter, only they are weighed, and one of them has to be best. */
  lemma FindsBestAtOnce(I: set<Commit>, T: set<Commit>, list: seq<Commit>)
    requires CountedAtOnce(I, T, list) >= |Choices(I, T, list)|
    ensures BestIsWeighed(I, T, list) <==>
      exists c :: c in list && InterestingParents(I, c.parents) != 1 && HalvesBest(I, T, list, c)
  {
    var kept := Kept(I, list, |list|);
    KeptFacts(I, T, list, kept);
    WeighsNoMore(I, T, kept);
    forall c | HalvesBest(I, T, list, c)
      ensures c in list && c in kept
    {
      assert c in Elems(list) && c in Elems(kept);
    }
  }

  lemma {:induction false} ParentsBehind(list: seq<Commit>, i: nat, x: Commit, n: nat)
    requires NewestFirst(list) && i < |list| && ReachIn(list[i], x, n)
    requires forall c, p :: c in list && p in c.parents ==> p in list && p != c
    ensures exists j :: i + n <= j < |list| && list[j] == x
    decreases n
  {
    if n > 0 {
      var c := list[i];
      var p :| p in c.parents && ReachIn(p, x, n - 1);
      assert c in list && p in list;
      var k :| 0 <= k < |list| && list[k] == p;
      assert k > i;
      ParentsBehind(list, k, x, n - 1);
    }
  }

  /** A list of children before parents holds no cycle. */
  lemma NewestFirstIsDag(list: seq<Commit>)
    requires NewestFirst(list) && Distinct(list)
    requires forall c, p :: c in list && p in c.parents ==> p in list && p != c
    ensures Dag(Elems(list))
  {
    forall c | c in Elems(list)
      ensures !Proper(c, c)
    {
      if Proper(c, c) {
        var i :| 0 <= i < |list| && list[i] == c;
        ProperIsReach(c, c);
        var n: nat :| n > 0 && ReachIn(c, c, n);
        ParentsBehind(list, i, c, n);
      }
    }
  }

  lemma TwoParents(I: set<Commit>, p: Commit, q: Commit)
    requires p in I && q in I
    ensures InterestingParents(I, [p]) == 1 && InterestingParents(I, [p, q]) == 2
  {
    assert [p][..0] == [] && [p, q][..1] == [p];
  }

  lemma ReachesTwo(I: set<Commit>, T: set<Commit>, a: Commit, b: Commit)
    requires a in I && b in I && a != b && a !in T && b !in T && a.parents == [] && b.parents == [a]
    ensures Reaches(I, T, a) == 1 && Reaches(I, T, b) == 2
  {
    ReachesAlone(I, a);
    assert {a} - T == {a};
    assert WalkIn(I, b, b, 0);
    WalkStep(I, b, b, a);
    forall x | x in ReachSet(I, b)
      ensures x in {a, b}
    {
      var n: nat :| WalkIn(I, b, x, n);
      ClosedHolds(I, {a, b}, b, x, n);
    }
    assert ReachSet(I, b) == {a, b};
    assert {a, b} - T == {a, b};
  }

  /** Newest first: three merges that change no tree, on top of four commits in a row. */
  ghost predicate MergesOnAChain(list: seq<Commit>) {
    && |list| == 7 && Distinct(list)
    && (forall i :: 0 <= i < 3 ==> MergeAt(list, i))
    && (forall i :: 3 <= i < 6 ==> LinkAt(list, i))
    && list[6].parents == []
  }

  ghost predicate MergeAt(list: seq<Commit>, i: nat)
    requires |list| == 7 && i < 6
  {
    list[i].parents == [list[i + 1], list[6]]
  }

  ghost predicate LinkAt(list: seq<Commit>, i: nat)
    requires |list| == 7 && i < 6
  {
    list[i].parents == [list[i + 1]]
  }

  lemma ParentsOnChain(list: seq<Commit>, i: nat)
    requires MergesOnAChain(list) && i < 7
    ensures InterestingParents(Elems(list), list[i].parents) == if i < 3 then 2 else if i < 6 then 1 else 0
    ensures forall p :: p in list[i].parents ==> p in list && p != list[i]
    ensures forall j :: 0 <= j < i ==> list[j] !in list[i].parents
  {
    if i < 3 {
      assert MergeAt(list, i);
      assert list[i + 1] in list && list[6] in list;
      TwoParents(Elems(list), list[i + 1], list[6]);
    } else if i < 6 {
      assert LinkAt(list, i);
      assert list[i + 1] in list;
      TwoParents(Elems(list), list[i + 1], list[i + 1]);
    }
  }

  lemma ChainIsHistory(list: seq<Commit>)
    requires MergesOnAChain(list)
    ensures Dag(Elems(list)) && NewestFirst(list) && Closed(Elems(list), list)
  {
    hide InterestingParents;
    forall i | 0 <= i < 7
      ensures forall p :: p in list[i].parents ==> p in list && p != list[i]
      ensures forall j :: 0 <= j < i ==> list[j] !in list[i].parents
    {
      ParentsOnChain(list, i);
    }
    hide MergesOnAChain;
    assert NewestFirst(list);
    NewestFirstIsDag(list);
  }

  lemma ChainAtOnce(list: seq<Commit>)
    requires MergesOnAChain(list)
    ensures AtOnce(Elems(list), list) == Elems(list[..3]) + {list[6]}
    ensures Counter(Elems(list), Elems(list[..3]), Elems(list[..3]) + {list[6]}) == 4
  {
    hide InterestingParents;
    var I, T := Elems(list), Elems(list[..3]);
    forall i | 0 <= i < 7
      ensures InterestingParents(I, list[i].parents) == if i < 3 then 2 else if i < 6 then 1 else 0
    {
      ParentsOnChain(list, i);
    }
    assert list[..3] == [list[0], list[1], list[2]];
    assert T == {list[0], list[1], list[2]};
    assert T + {list[6]} - T == {list[6]};
    assert Merges(I, (T + {list[6]}) * T) == T;
  }

  lemma ChainChoices(list: seq<Commit>)
    requires |list| == 7 && Distinct(list)
    ensures var C := Choices(Elems(list), Elems(list[..3]), list);
      C == Elems(list[3..]) && |C| == 4 && list[5] in C
  {
    var rest := list[3..];
    assert list == list[..3] + rest;
    assert Choices(Elems(list), Elems(list[..3]), list) == Elems(rest);
    FourElems(rest);
    assert list[5] == rest[2];
  }

  lemma FourElems(s: seq<Commit>)
    requires |s| == 4 && Distinct(s)
    ensures |Elems(s)| == 4
  {
    assert Elems(s) == {s[0], s[1], s[2], s[3]};
  }

  lemma OnlyRootWeighed(list: seq<Commit>)
    requires |list| == 7 && Distinct(list)
    requires AtOnce(Elems(list), list) == Elems(list[..3]) + {list[6]}
    requires Counter(Elems(list), Elems(list[..3]), AtOnce(Elems(list), list)) == 4
    ensures BestIsWeighed(Elems(list), Elems(list[..3]), list) ==>
      HalvesBest(Elems(list), Elems(list[..3]), list, list[6])
  {
    var I, T := Elems(list), Elems(list[..3]);
    ChainChoices(list);
    var kept := Kept(I, list, |list|);
    KeptFacts(I, T, list, kept);
    assert AtOnce(I, kept) == AtOnce(I, list);
    hide InterestingParents, Counter, Reaches, BestIsWeighed, Kept, Distinct;
    FindsBestAtOnce(I, T, list);
    if c :| c in list && InterestingParents(I, c.parents) != 1 && HalvesBest(I, T, list, c) {
      assert c in AtOnce(I, list) && c in Choices(I, T, list);
    }
  }

  /** Such merges fill the counter together with the root: the middle of the chain is never weighed. */
  lemma TreesameMergesHideTheMiddle(list: seq<Commit>)
    requires MergesOnAChain(list)
    ensures var I, T := Elems(list), Elems(list[..3]);
      && Dag(I) && NewestFirst(list) && Closed(I, list)
      && Choices(I, T, list) == Elems(list[3..]) && !BestIsWeighed(I, T, list)
  {
    var I, T := Elems(list), Elems(list[..3]);
    ChainIsHistory(list);
    ChainChoices(list);
    ChainAtOnce(list);
    OnlyRootWeighed(list);
    assert LinkAt(list, 5);
    hide MergesOnAChain, InterestingParents, BestIsWeighed, Choices;
    ReachesTwo(I, T, list[6], list[5]);
  }
}

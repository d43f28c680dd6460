/** Taking the marks of a walk back off the commits (commit.c, clear_commit_marks). */
module Marks {
  import opened CommitGraph
  import opened Painting

  /** Some commits have lost the mark; whatever a cleared commit leads to is clear or still pending. */
  ghost predicate Clearing(G: set<Commit>, mark: set<Flag>, f0: FlagMap, f: FlagMap, pending: set<Commit>)
  {
    && f0.Keys == f.Keys == G
    && (forall c :: c in G ==> f[c] == f0[c] || f[c] == f0[c] - mark)
    && (forall c, p :: c in G && p in c.parents && !(f0[c] !! mark) && f[c] !! mark ==>
          p in G && (f[p] !! mark || p in pending))
  }

  ghost predicate AllClear(G: set<Commit>, mark: set<Flag>, f: FlagMap, done: set<Commit>, pending: set<Commit>)
  {
    forall c :: c in done ==> c in pending || c !in Marked(G, mark, f)
  }

  ghost function Marked(G: set<Commit>, mark: set<Flag>, f: FlagMap): set<Commit> {
    set c | c in G && c in f && !(f[c] !! mark)
  }

  lemma ClearStep(G: set<Commit>, mark: set<Flag>, f0: FlagMap, f: FlagMap, pending: set<Commit>,
                  c: Commit, pending': set<Commit>)
    requires Clearing(G, mark, f0, f, pending) && c in G
    requires forall p :: p in c.parents ==> p in G && p in pending'
    requires pending <= pending' + {c}
    ensures Clearing(G, mark, f0, f[c := f[c] - mark], pending')
    ensures c !in Marked(G, mark, f[c := f[c] - mark])
    ensures !(f[c] !! mark) ==> Marked(G, mark, f[c := f[c] - mark]) < Marked(G, mark, f)
  {
    if !(f[c] !! mark) {
      assert c in Marked(G, mark, f) - Marked(G, mark, f[c := f[c] - mark]);
    }
  }

  lemma SkipStep(G: set<Commit>, mark: set<Flag>, f0: FlagMap, f: FlagMap, pending: set<Commit>,
                 c: Commit, pending': set<Commit>)
    requires Clearing(G, mark, f0, f, pending) && c in G && f[c] !! mark
    requires pending <= pending' + {c}
    ensures Clearing(G, mark, f0, f, pending') && c !in Marked(G, mark, f)
  {
  }

  lemma ClearingTwice(G: set<Commit>, mark: set<Flag>, f0: FlagMap, f1: FlagMap, f2: FlagMap)
    requires Clearing(G, mark, f0, f1, {}) && Clearing(G, mark, f1, f2, {})
    ensures Clearing(G, mark, f0, f2, {})
  {
  }

  /** Marks that all hang off the starting points are all found and cleared. */
  lemma ClearedEverywhere(G: set<Commit>, f0: FlagMap, f: FlagMap, starts: set<Commit>)
    requires Dag(G) && Clearing(G, ALL_FLAGS, f0, f, {})
    requires Rooted(G, starts, f0) && AllClear(G, ALL_FLAGS, f, starts, {})
    ensures forall c :: c in G ==> f[c] * ALL_FLAGS == {} && f[c] == f0[c] - ALL_FLAGS
  {
    var left := Marked(G, ALL_FLAGS, f);
    if c :| c in left {
      var top := MaximalAbove(G, left, c);
      var y :| y in f[top] && y in ALL_FLAGS;
      assert y in f0[top] * ALL_FLAGS;
      var d :| d in G && Flagged(f0, d) && top in d.parents;
      ReachSelf(top);
      assert Proper(d, top);
      assert false;
    }
    forall c | c in G
      ensures f[c] * ALL_FLAGS == {} && f[c] == f0[c] - ALL_FLAGS
    {
      assert c !in left;
    }
  }

  /** clear_commit_marks_1: follow the first parents, leaving the others on the list. */
  method ClearMarks1(list0: seq<Commit>, start: Commit, mark: set<Flag>, ghost G: set<Commit>, ghost f0: FlagMap)
    returns (list: seq<Commit>)
    requires Dag(G) && start in G && Elems(list0) <= G
    requires Clearing(G, mark, f0, Snap(G), Elems(list0) + {start})
    modifies G`flags
    ensures Elems(list) <= G && Elems(list0) <= Elems(list)
    ensures Clearing(G, mark, f0, Snap(G), Elems(list))
    ensures start !in Marked(G, mark, Snap(G))
    ensures Marked(G, mark, Snap(G)) <= old(Marked(G, mark, Snap(G)))
    ensures list == list0 || Marked(G, mark, Snap(G)) < old(Marked(G, mark, Snap(G)))
  {
    list := list0;
    var commit, more := start, true;
    while more
      invariant commit in G && Elems(list) <= G && Elems(list0) <= Elems(list)
      invariant Clearing(G, mark, f0, Snap(G), Elems(list) + if more then {commit} else {})
      invariant (more && commit == start) || start !in Marked(G, mark, Snap(G))
      invariant Marked(G, mark, Snap(G)) <= old(Marked(G, mark, Snap(G)))
      invariant list == list0 || Marked(G, mark, Snap(G)) < old(Marked(G, mark, Snap(G)))
      decreases Marked(G, mark, Snap(G)), more
    {
      list, commit, more := ClearCommit(list, commit, mark, G, f0);
    }
    assert Elems(list) + {} == Elems(list);
  }

  lemma ParentsInside(G: set<Commit>, c: Commit)
    requires Dag(G) && c in G
    ensures Elems(c.parents) <= G
  {
  }

  /** One commit: cleared, its first parent next, its other parents on the list. */
  method ClearCommit(list0: seq<Commit>, c: Commit, mark: set<Flag>, ghost G: set<Commit>, ghost f0: FlagMap)
    returns (list: seq<Commit>, next: Commit, more: bool)
    requires Dag(G) && c in G && Elems(list0) <= G
    requires Clearing(G, mark, f0, Snap(G), Elems(list0) + {c})
    modifies G`flags
    ensures next in G && Elems(list) <= G && Elems(list0) <= Elems(list)
    ensures Clearing(G, mark, f0, Snap(G), Elems(list) + if more then {next} else {})
    ensures c !in Marked(G, mark, Snap(G))
    ensures Marked(G, mark, Snap(G)) <= old(Marked(G, mark, Snap(G)))
    ensures more || list != list0 ==> Marked(G, mark, Snap(G)) < old(Marked(G, mark, Snap(G)))
  {
    hide Dag, Clearing, Marked;
    ghost var f, pending := Snap(G), Elems(list0) + {c};
    if c.flags !! mark {
      SkipStep(G, mark, f0, f, pending, c, Elems(list0) + {});
      return list0, c, false;
    }
    c.flags := c.flags - mark;
    assert Snap(G) == f[c := f[c] - mark];
    var parents := c.parents;
    ParentsInside(G, c);
    if parents == [] {
      ClearStep(G, mark, f0, f, pending, c, Elems(list0) + {});
      return list0, c, false;
    }
    list := PushAll(parents[1..], list0);
    assert parents == [parents[0]] + parents[1..];
    next := parents[0];
    more := true;
    ClearStep(G, mark, f0, f, pending, c, Elems(list) + {next});
  }

  method PushAll(items: seq<Commit>, list0: seq<Commit>) returns (list: seq<Commit>)
    ensures Elems(list) == Elems(items) + Elems(list0)
  {
    list := list0;
    var i := 0;
    while i < |items|
      invariant 0 <= i <= |items|
      invariant Elems(list) == Elems(items[..i]) + Elems(list0)
    {
      ElemsOneMore(items, i);
      ghost var before := Elems(list);
      list := [items[i]] + list;
      assert Elems(list) == {items[i]} + before;
      i := i + 1;
    }
    assert items[..|items|] == items;
  }

  /** clear_commit_marks_many. */
  method ClearMarksMany(commits: seq<Commit>, mark: set<Flag>, ghost G: set<Commit>)
    requires Dag(G) && Elems(commits) <= G
    modifies G`flags
    ensures Clearing(G, mark, old(Snap(G)), Snap(G), {})
    ensures AllClear(G, mark, Snap(G), Elems(commits), {})
  {
    hide Dag, Clearing, AllClear, Marked;
    ghost var f0 := Snap(G);
    var list := PushAll(commits, []);
    NothingCleared(G, mark, f0, Elems(commits), Elems(list));
    while list != []
      invariant Elems(list) <= G
      invariant Clearing(G, mark, f0, Snap(G), Elems(list))
      invariant AllClear(G, mark, Snap(G), Elems(commits), Elems(list))
      decreases Marked(G, mark, Snap(G)), |list|
    {
      var commit, rest := list[0], list[1..];
      assert Elems(list) == Elems(rest) + {commit};
      ghost var f := Snap(G);
      list := ClearMarks1(rest, commit, mark, G, f0);
      ClearTo(G, mark, f, Snap(G), Elems(commits), Elems(rest), commit, Elems(list));
    }
    assert Elems(list) == {};
  }

  lemma NothingCleared(G: set<Commit>, mark: set<Flag>, f: FlagMap, done: set<Commit>, pending: set<Commit>)
    requires f.Keys == G && done <= pending
    ensures Clearing(G, mark, f, f, pending) && AllClear(G, mark, f, done, pending)
  {
  }

  lemma ClearTo(G: set<Commit>, mark: set<Flag>, f: FlagMap, f': FlagMap, done: set<Commit>, pending: set<Commit>,
                c: Commit, pending': set<Commit>)
    requires AllClear(G, mark, f, done, pending + {c}) && Marked(G, mark, f') <= Marked(G, mark, f)
    requires c !in Marked(G, mark, f') && pending <= pending'
    ensures AllClear(G, mark, f', done, pending')
  {
  }
}

/** reduce_heads (commit.c): the heads that no other head reaches. */
module ReduceHeads {
  import opened CommitGraph
  import opened Painting
  import opened MergeBases

  /** The first occurrence of every element. */
  ghost function Dedup<T>(s: seq<T>): seq<T> {
    if s == [] then []
    else
      var n := |s| - 1;
      Dedup(s[..n]) + if s[n] in s[..n] then [] else [s[n]]
  }

  lemma {:induction false} DedupMembers<T>(s: seq<T>)
    ensures forall c :: c in Dedup(s) <==> c in s
    ensures Distinct(Dedup(s))
  {
    if s != [] {
      var n := |s| - 1;
      DedupMembers(s[..n]);
      assert s == s[..n] + [s[n]];
    }
  }

  lemma DedupStep<T>(s: seq<T>, i: nat)
    requires i < |s|
    ensures Dedup(s[..i + 1]) == Dedup(s[..i]) + if s[i] in s[..i] then [] else [s[i]]
  {
    assert s[..i + 1][..i] == s[..i];
  }

  ghost function HeadFlags(flags: set<Flag>, isHead: bool, marked: bool): set<Flag> {
    if marked then flags + {Stale} else if isHead then flags - {Stale} else flags
  }

  /** The flags f' are those of f, with STALE on the commits of marked and on no other head. */
  ghost predicate StaleExactly(G: set<Commit>, f: FlagMap, f': FlagMap, heads: seq<Commit>, marked: set<Commit>)
  {
    && f.Keys == f'.Keys == G
    && forall c :: c in G ==> f'[c] == HeadFlags(f[c], c in heads, c in marked)
  }

  lemma MarkHead(G: set<Commit>, f: FlagMap, f': FlagMap, heads: seq<Commit>, marked: set<Commit>, c: Commit)
    requires StaleExactly(G, f, f', heads, marked) && c in G && c in heads
    ensures Stale in f'[c] <==> c in marked
    ensures StaleExactly(G, f, f'[c := f'[c] + {Stale}], heads, marked + {c})
    ensures StaleExactly(G, f, f'[c := f'[c] - {Stale}], heads, marked - {c})
  {
    var fl := f[c];
    assert HeadFlags(fl, true, c in marked) + {Stale} == fl + {Stale};
    assert HeadFlags(fl, true, c in marked) - {Stale} == fl - {Stale};
  }

  /** Once no head is marked, the flags are as clean as the paint flags require. */
  lemma UnmarkedIsClean(G: set<Commit>, f: FlagMap, f': FlagMap, heads: seq<Commit>)
    requires StaleExactly(G, f, f', heads, {})
    requires forall c :: c in G ==> f[c] * ALL_FLAGS <= if c in heads then {Stale} else {}
    ensures forall c :: c in G ==> f'[c] * ALL_FLAGS == {} && f'[c] == f[c] - {Stale}
  {
    forall c | c in G
      ensures f'[c] * ALL_FLAGS == {} && f'[c] == f[c] - {Stale}
    {
      assert c !in heads ==> Stale !in f[c] * ALL_FLAGS;
      assert f'[c] * ALL_FLAGS <= f[c] * ALL_FLAGS - {Stale};
    }
  }

  method ClearStale(heads: seq<Commit>, ghost G: set<Commit>)
    requires Elems(heads) <= G
    modifies G`flags
    ensures StaleExactly(G, old(Snap(G)), Snap(G), heads, {})
  {
    ghost var f := Snap(G);
    var i := 0;
    while i < |heads|
      invariant 0 <= i <= |heads|
      invariant forall c :: c in G ==> c.flags == if c in heads[..i] then f[c] - {Stale} else f[c]
    {
      assert heads[i] in Elems(heads);
      assert heads[..i + 1] == heads[..i] + [heads[i]];
      heads[i].flags := heads[i].flags - {Stale};
      i := i + 1;
    }
    assert heads[..i] == heads;
  }

  method CountHeads(heads: seq<Commit>, ghost G: set<Commit>, ghost f: FlagMap) returns (count: nat)
    requires Elems(heads) <= G && StaleExactly(G, f, Snap(G), heads, {})
    modifies G`flags
    ensures StaleExactly(G, f, Snap(G), heads, Elems(heads))
    ensures count == |Dedup(heads)|
  {
    hide StaleExactly;
    count := 0;
    var i := 0;
    assert Elems(heads[..0]) == {};
    while i < |heads|
      invariant 0 <= i <= |heads|
      invariant StaleExactly(G, f, Snap(G), heads, Elems(heads[..i]))
      invariant count == |Dedup(heads[..i])|
    {
      assert heads[i] in Elems(heads);
      ElemsOneMore(heads, i);
      DedupStep(heads, i);
      var first := SetMark(heads[i], G, f, heads, Elems(heads[..i]));
      if first {
        count := count + 1;
      }
      i := i + 1;
    }
    assert heads[..i] == heads;
  }

  method SetMark(c: Commit, ghost G: set<Commit>, ghost f: FlagMap, ghost heads: seq<Commit>, ghost marked: set<Commit>)
    returns (first: bool)
    requires c in G && c in heads && StaleExactly(G, f, Snap(G), heads, marked)
    modifies G`flags
    ensures first <==> c !in marked
    ensures StaleExactly(G, f, Snap(G), heads, marked + {c})
  {
    ghost var f1 := Snap(G);
    MarkHead(G, f, f1, heads, marked, c);
    first := Stale !in c.flags;
    if first {
      c.flags := c.flags + {Stale};
      assert Snap(G) == f1[c := f1[c] + {Stale}];
    } else {
      assert marked + {c} == marked;
    }
  }

  ghost function Remaining(heads: seq<Commit>, i: nat): set<Commit>
    requires i <= |heads|
  {
    Elems(heads) - Elems(heads[..i])
  }

  lemma RemainingShrinks(heads: seq<Commit>, i: nat)
    requires i < |heads|
    ensures Remaining(heads, i + 1) == Remaining(heads, i) - {heads[i]}
    ensures Dedup(heads[..i + 1]) == Dedup(heads[..i]) + if heads[i] in Remaining(heads, i) then [heads[i]] else []
  {
    ElemsOneMore(heads, i);
    DedupStep(heads, i);
  }

  method TakeMark(c: Commit, ghost G: set<Commit>, ghost f: FlagMap, ghost heads: seq<Commit>,
                  ghost marked: set<Commit>)
    returns (first: bool)
    requires c in G && c in heads && StaleExactly(G, f, Snap(G), heads, marked)
    modifies G`flags
    ensures first <==> c in marked
    ensures StaleExactly(G, f, Snap(G), heads, marked - {c})
  {
    ghost var f1 := Snap(G);
    MarkHead(G, f, f1, heads, marked, c);
    first := Stale in c.flags;
    if first {
      c.flags := c.flags - {Stale};
      assert Snap(G) == f1[c := f1[c] - {Stale}];
    } else {
      assert marked - {c} == marked;
    }
  }

  method CollectHeads(heads: seq<Commit>, ghost G: set<Commit>, ghost f: FlagMap) returns (found: seq<Commit>)
    requires Elems(heads) <= G && StaleExactly(G, f, Snap(G), heads, Elems(heads))
    modifies G`flags
    ensures found == Dedup(heads)
    ensures StaleExactly(G, f, Snap(G), heads, {})
  {
    found := [];
    var i := 0;
    while i < |heads|
      invariant 0 <= i <= |heads|
      invariant StaleExactly(G, f, Snap(G), heads, Remaining(heads, i))
      invariant found == Dedup(heads[..i])
    {
      assert heads[i] in Elems(heads);
      RemainingShrinks(heads, i);
      var first := TakeMark(heads[i], G, f, heads, Remaining(heads, i));
      if first {
        found := found + [heads[i]];
      }
      i := i + 1;
    }
    assert heads[..i] == heads;
  }

  /** reduce_heads; a head may be listed twice, and may carry a left-over STALE flag. */
  method ReduceHeads(heads: seq<Commit>, ghost G: set<Commit>) returns (result: seq<Commit>)
    requires Dag(G) && Elems(heads) <= G
    requires forall c :: c in G ==> c.flags * ALL_FLAGS <= if c in heads then {Stale} else {}
    modifies G`flags
    ensures result == Select(Dedup(heads), Redundancy(Dedup(heads)), false)
    ensures forall c :: c in result <==> c in heads && forall d :: d in heads && d != c ==> !Reach(d, c)
    ensures forall c :: c in G ==> c.flags == old(c.flags) - {Stale}
  {
    hide StaleExactly, Dag, Dedup, Select, Redundancy;
    NoHeads(heads);
    if heads == [] {
      return [];
    }
    ghost var f := Snap(G);
    ClearStale(heads, G);
    var numHead := CountHeads(heads, G, f);
    var distinct := CollectHeads(heads, G, f);
    var commits := new Commit[numHead](i requires 0 <= i < numHead => distinct[i]);
    assert commits[..] == distinct;
    DedupMembers(heads);
    UnmarkedIsClean(G, f, Snap(G), heads);
    numHead := RemoveRedundant(commits, G);
    result := commits[..numHead];
    KeptHeads(heads, distinct);
  }

  lemma NoHeads(heads: seq<Commit>)
    ensures heads == [] ==> Select(Dedup(heads), Redundancy(Dedup(heads)), false) == []
  {
  }

  lemma KeptHeads(heads: seq<Commit>, s: seq<Commit>)
    requires s == Dedup(heads)
    ensures forall c :: c in Select(s, Redundancy(s), false)
                   <==> c in heads && forall d :: d in heads && d != c ==> !Reach(d, c)
  {
    hide Dedup, Select, Reach;
    SelectMembers(s, Redundancy(s), false);
    DedupMembers(heads);
    forall c
      ensures c in Select(s, Redundancy(s), false) <==> c in heads && forall d :: d in heads && d != c ==> !Reach(d, c)
    {
      if c in heads {
        var k :| 0 <= k < |s| && s[k] == c;
        assert Independent(s, k) <==> forall d :: d in heads && d != c ==> !Reach(d, c) by {
          if Independent(s, k) {
            forall d | d in heads && d != c
              ensures !Reach(d, c)
            {
              var j :| 0 <= j < |s| && s[j] == d;
            }
          }
        }
        assert Redundancy(s)[k] == !Independent(s, k);
      }
    }
  }
}

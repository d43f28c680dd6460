/** Ancestry, redundant heads and merge bases (commit.c), on top of the painting walk. */
module MergeBases {
  import opened CommitGraph
  import opened Painting
  import opened PaintDown
  import opened Marks

  ghost predicate SameFlags(G: set<Commit>, f: FlagMap)
    reads G
  {
    forall c :: c in G ==> c in f && c.flags == f[c]
  }

  /** Clearing from the starting points undoes the painting, everywhere. */
  method ClearPaint(one: Commit, twos: seq<Commit>, ghost G: set<Commit>, ghost f: FlagMap)
    requires Dag(G) && one in G && Elems(twos) <= G && f.Keys == G
    requires forall c :: c in G ==> f[c] * ALL_FLAGS == {}
    requires Rooted(G, {one} + Elems(twos), Snap(G)) && OthersKept(G, f, Snap(G))
    modifies G`flags
    ensures SameFlags(G, f)
  {
    ghost var f0 := Snap(G);
    assert Elems([one]) == {one};
    ClearMarksMany([one], ALL_FLAGS, G);
    ghost var f1 := Snap(G);
    ClearMarksMany(twos, ALL_FLAGS, G);
    ghost var f2 := Snap(G);
    PaintUndone(G, one, twos, f, f0, f1, f2);
  }

  lemma PaintUndone(G: set<Commit>, one: Commit, twos: seq<Commit>, f: FlagMap, f0: FlagMap, f1: FlagMap, f2: FlagMap)
    requires Dag(G) && one in G && f.Keys == G
    requires forall c :: c in G ==> f[c] * ALL_FLAGS == {}
    requires Rooted(G, {one} + Elems(twos), f0) && OthersKept(G, f, f0)
    requires Clearing(G, ALL_FLAGS, f0, f1, {}) && AllClear(G, ALL_FLAGS, f1, {one}, {})
    requires Clearing(G, ALL_FLAGS, f1, f2, {}) && AllClear(G, ALL_FLAGS, f2, Elems(twos), {})
    ensures forall c :: c in G ==> f2[c] == f[c]
  {
    ClearingTwice(G, ALL_FLAGS, f0, f1, f2);
    assert one !in Marked(G, ALL_FLAGS, f1);
    ClearedEverywhere(G, f0, f2, {one} + Elems(twos));
    forall c | c in G
      ensures f2[c] == f[c]
    {
      assert f0[c] - ALL_FLAGS == f[c] - ALL_FLAGS;
      NothingToRemove(f[c], ALL_FLAGS);
    }
  }

  lemma NothingToRemove<T>(a: set<T>, b: set<T>)
    requires a * b == {}
    ensures a - b == a
  {
    assert forall x :: x in a && x in b ==> x in a * b;
  }

  /** in_merge_bases_many: is commit one of the references, or an ancestor of one? */
  method InMergeBasesMany(commit: Commit, references: seq<Commit>, ghost G: set<Commit>) returns (ret: bool)
    requires Dag(G) && commit in G && Elems(references) <= G && Clean(G)
    modifies G`flags
    ensures ret <==> ReachAny(references, commit)
    ensures SameFlags(G, old(Snap(G)))
  {
    ghost var f := Snap(G);
    var bases := PaintDownToCommon(commit, references, G);
    ret := Parent2 in commit.flags;
    ClearPaint(commit, references, G, f);
  }

  /** is_descendant_of: does commit descend from, or equal, one of the others? */
  method IsDescendantOf(commit: Commit, others: seq<Commit>, ghost G: set<Commit>) returns (ret: bool)
    requires Dag(G) && commit in G && Elems(others) <= G && Clean(G)
    modifies G`flags
    ensures ret <==> others == [] || exists i :: 0 <= i < |others| && Reach(commit, others[i])
    ensures SameFlags(G, old(Snap(G)))
  {
    if others == [] {
      return true;
    }
    var i := 0;
    while i < |others|
      invariant 0 <= i <= |others|
      invariant SameFlags(G, old(Snap(G)))
      invariant forall j :: 0 <= j < i ==> !Reach(commit, others[j])
    {
      assert others[i] in Elems(others);
      var found := InMergeBasesMany(others[i], [commit], G);
      ReachAnyOne(commit, others[i]);
      if found {
        return true;
      }
      i := i + 1;
    }
    return false;
  }

  // ---------------------------------------------------------------- remove_redundant

  /** The k-th commit is not an ancestor of, nor equal to, any other element. */
  ghost predicate Independent(s: seq<Commit>, k: nat)
    requires k < |s|
  {
    forall j :: 0 <= j < |s| && j != k ==> !Reach(s[j], s[k])
  }

  ghost function Redundancy(s: seq<Commit>): seq<bool> {
    seq(|s|, k requires 0 <= k < |s| => !Independent(s, k))
  }

  /** The elements whose mark equals want, in their original order. */
  ghost function Select<T>(s: seq<T>, marks: seq<bool>, want: bool): (r: seq<T>)
    requires |s| == |marks|
    ensures |r| <= |s|
  {
    if s == [] then []
    else
      var n := |s| - 1;
      Select(s[..n], marks[..n], want) + if marks[n] == want then [s[n]] else []
  }

  lemma {:induction false} SelectMembers<T>(s: seq<T>, marks: seq<bool>, want: bool)
    requires |s| == |marks|
    ensures forall c :: c in Select(s, marks, want) <==> exists k :: 0 <= k < |s| && s[k] == c && marks[k] == want
    ensures Distinct(s) ==> Distinct(Select(s, marks, want))
  {
    if s != [] {
      var n := |s| - 1;
      SelectMembers(s[..n], marks[..n], want);
      var r := Select(s[..n], marks[..n], want);
      forall c
        ensures c in Select(s, marks, want) <==> exists k :: 0 <= k < |s| && s[k] == c && marks[k] == want
      {
        if c in r {
          var k :| 0 <= k < n && s[..n][k] == c && marks[..n][k] == want;
          assert s[k] == c && marks[k] == want;
        }
        if k :| 0 <= k < n && s[k] == c && marks[k] == want {
          assert s[..n][k] == c && marks[..n][k] == want;
        }
      }
      assert Distinct(s) ==> s[n] !in r by {
        assert Distinct(s) ==> forall k :: 0 <= k < n ==> s[..n][k] != s[n];
      }
    }
  }

  /** Nothing is lost or repeated when a list is split by a mark. */
  lemma {:induction false} SelectPartitions<T>(s: seq<T>, marks: seq<bool>)
    requires |s| == |marks|
    ensures multiset(Select(s, marks, false) + Select(s, marks, true)) == multiset(s)
  {
    hide Select;
    SelectStep(s, marks, false);
    SelectStep(s, marks, true);
    if s != [] {
      var n := |s| - 1;
      SelectPartitions(s[..n], marks[..n]);
      assert s == s[..n] + [s[n]];
    }
  }

  lemma SelectStep<T>(s: seq<T>, marks: seq<bool>, want: bool)
    requires |s| == |marks|
    ensures s == [] ==> Select(s, marks, want) == []
    ensures s != [] ==>
      var n := |s| - 1;
      Select(s, marks, want) == Select(s[..n], marks[..n], want) + if marks[n] == want then [s[n]] else []
  {
  }

  lemma SelectSizes<T>(s: seq<T>, marks: seq<bool>)
    requires |s| == |marks|
    ensures |Select(s, marks, false)| + |Select(s, marks, true)| == |s|
  {
    SelectPartitions(s, marks);
    var t := Select(s, marks, false) + Select(s, marks, true);
    assert |multiset(t)| == |t| && |multiset(s)| == |s|;
  }

  /** A redundant commit lies below an independent one, so it is seen without the redundant ones. */
  lemma IndependentAbove(G: set<Commit>, s: seq<Commit>, i: nat) returns (k: nat)
    requires Dag(G) && Elems(s) <= G && Distinct(s) && i < |s| && !Independent(s, i)
    ensures k < |s| && k != i && Independent(s, k) && Reach(s[k], s[i])
  {
    var j :| 0 <= j < |s| && j != i && Reach(s[j], s[i]);
    assert s[j] in Elems(s);
    var m := MaximalAbove(G, Elems(s), s[j]);
    k :| 0 <= k < |s| && s[k] == m;
    ReachTrans(m, s[j], s[i]);
    if k == i {
      ReachAntisymmetric(G, s[i], s[j]);
    }
    forall x | 0 <= x < |s| && x != k
      ensures !Reach(s[x], s[k])
    {
      assert s[x] in Elems(s);
      if Reach(s[x], s[k]) {
        ReachIsSelfOrProper(s[x], s[k]);
      }
    }
  }

  /** The commits other than the i-th that are not yet known to be redundant, and their indices. */
  method OtherCandidates(s: seq<Commit>, i: nat, redundant: array<bool>) returns (work: seq<Commit>, index: seq<nat>)
    requires i < |s| == redundant.Length
    ensures Candidates(s, i, redundant[..], work, index)
  {
    work, index := [], [];
    var j := 0;
    while j < |s|
      invariant 0 <= j <= |s|
      invariant |work| == |index|
      invariant forall k :: 0 <= k < |index| ==> index[k] < |s| && index[k] != i && work[k] == s[index[k]]
      invariant forall x :: 0 <= x < j && x != i && !redundant[x] ==> x in index
    {
      if i != j && !redundant[j] {
        work, index := work + [s[j]], index + [j];
      }
      j := j + 1;
    }
  }

  ghost predicate Candidates(s: seq<Commit>, i: nat, redundant: seq<bool>, work: seq<Commit>, index: seq<nat>)
  {
    && |work| == |index| && |redundant| == |s|
    && (forall k :: 0 <= k < |index| ==> index[k] < |s| && index[k] != i && work[k] == s[index[k]])
    && (forall j :: 0 <= j < |s| && j != i && !redundant[j] ==> j in index)
  }

  /** Leaving out commits known to be redundant does not change the verdict on the i-th. */
  lemma CandidatesSuffice(G: set<Commit>, s: seq<Commit>, i: nat, redundant: seq<bool>,
                          work: seq<Commit>, index: seq<nat>)
    requires Dag(G) && Elems(s) <= G && Distinct(s) && i < |s| && Candidates(s, i, redundant, work, index)
    requires forall k :: 0 <= k < |s| && redundant[k] ==> !Independent(s, k)
    ensures Elems(work) <= Elems(s)
    ensures ReachAny(work, s[i]) <==> !Independent(s, i)
  {
    if ReachAny(work, s[i]) {
      var k :| 0 <= k < |work| && Reach(work[k], s[i]);
      assert Reach(s[index[k]], s[i]);
    }
    if !Independent(s, i) {
      var k := IndependentAbove(G, s, i);
      var x :| 0 <= x < |index| && index[x] == k;
      assert Reach(work[x], s[i]);
    }
  }

  /** Paints one against the others and reads off who reaches whom, leaving no flag behind. */
  method Compare(one: Commit, work: seq<Commit>, ghost G: set<Commit>) returns (below: bool, reached: seq<bool>)
    requires Dag(G) && one in G && Elems(work) <= G && Clean(G)
    modifies G`flags
    ensures below <==> ReachAny(work, one)
    ensures |reached| == |work| && forall j :: 0 <= j < |work| && reached[j] ==> Reach(one, work[j])
    ensures SameFlags(G, old(Snap(G)))
  {
    ghost var f := Snap(G);
    var common := PaintDownToCommon(one, work, G);
    ReachedWork(G, one, work, Snap(G), common);
    below := Parent2 in one.flags;
    reached := ReadReached(one, work);
    ClearPaint(one, work, G, f);
  }

  method ReadReached(one: Commit, work: seq<Commit>) returns (reached: seq<bool>)
    requires forall c :: c in work && Parent1 in c.flags ==> Reach(one, c)
    ensures |reached| == |work| && forall j :: 0 <= j < |work| && reached[j] ==> Reach(one, work[j])
  {
    reached := [];
    var j := 0;
    while j < |work|
      invariant 0 <= j == |reached| <= |work|
      invariant forall k :: 0 <= k < j && reached[k] ==> Reach(one, work[k])
    {
      assert work[j] in work;
      reached := reached + [Parent1 in work[j].flags];
      j := j + 1;
    }
  }

  lemma ReachedWork(G: set<Commit>, one: Commit, work: seq<Commit>, f: FlagMap, result: seq<Commit>)
    requires f.Keys == G && one in G && Elems(work) <= G && Verdict(G, one, work, f, result)
    ensures Parent2 in f[one] <==> ReachAny(work, one)
    ensures forall c :: c in work ==> c in G && (Parent1 in f[c] ==> Reach(one, c))
  {
    assert forall c :: c in work ==> c in Elems(work);
  }

  /** Marks every candidate that the i-th commit was seen to reach. */
  method MarkReached(s: seq<Commit>, i: nat, work: seq<Commit>, index: seq<nat>, reached: seq<bool>,
                     redundant: array<bool>)
    requires i < |s| == redundant.Length && Candidates(s, i, redundant[..], work, index)
    requires forall k :: 0 <= k < |s| && redundant[k] ==> !Independent(s, k)
    requires |reached| == |work| && forall j :: 0 <= j < |work| && reached[j] ==> Reach(s[i], work[j])
    modifies redundant
    ensures forall k :: 0 <= k < |s| && old(redundant[k]) ==> redundant[k]
    ensures forall k :: 0 <= k < |s| && redundant[k] ==> !Independent(s, k)
  {
    var j := 0;
    while j < |work|
      invariant 0 <= j <= |work|
      invariant forall k :: 0 <= k < |s| && old(redundant[k]) ==> redundant[k]
      invariant forall k :: 0 <= k < |s| && redundant[k] ==> !Independent(s, k)
    {
      if reached[j] {
        assert Reach(s[i], s[index[j]]);
        redundant[index[j]] := true;
      }
      j := j + 1;
    }
  }

  /** One round: compare the i-th commit with every other candidate. */
  method CompareWithOthers(s: seq<Commit>, i: nat, redundant: array<bool>, ghost G: set<Commit>)
    requires Dag(G) && Elems(s) <= G && Distinct(s) && i < |s| == redundant.Length && Clean(G)
    requires forall k :: 0 <= k < |s| && redundant[k] ==> !Independent(s, k)
    modifies G`flags, redundant
    ensures forall k :: 0 <= k < |s| && old(redundant[k]) ==> redundant[k]
    ensures forall k :: 0 <= k < |s| && redundant[k] ==> !Independent(s, k)
    ensures !Independent(s, i) ==> redundant[i]
    ensures SameFlags(G, old(Snap(G)))
  {
    var work, index := OtherCandidates(s, i, redundant);
    assert s[i] in Elems(s);
    CandidatesSuffice(G, s, i, redundant[..], work, index);
    var below, reached := Compare(s[i], work, G);
    MarkReached(s, i, work, index, reached, redundant);
    if below {
      redundant[i] := true;
    }
  }

  method FindRedundant(s: seq<Commit>, ghost G: set<Commit>) returns (redundant: array<bool>)
    requires Dag(G) && Elems(s) <= G && Distinct(s) && Clean(G)
    modifies G`flags
    ensures fresh(redundant) && redundant[..] == Redundancy(s)
    ensures SameFlags(G, old(Snap(G)))
  {
    redundant := new bool[|s|](_ => false);
    var i := 0;
    while i < |s|
      invariant 0 <= i <= |s|
      invariant forall k :: 0 <= k < |s| && redundant[k] ==> !Independent(s, k)
      invariant forall k :: 0 <= k < i && !Independent(s, k) ==> redundant[k]
      invariant SameFlags(G, old(Snap(G)))
    {
      if !redundant[i] {
        CompareWithOthers(s, i, redundant, G);
      }
      i := i + 1;
    }
  }

  /** remove_redundant: the independent commits to the front, the others behind them, order kept. */
  method RemoveRedundant(commits: array<Commit>, ghost G: set<Commit>) returns (filled: nat)
    requires Dag(G) && Elems(commits[..]) <= G && Distinct(commits[..]) && Clean(G)
    modifies G`flags, commits
    ensures var s := old(commits[..]); commits[..] == Select(s, Redundancy(s), false) + Select(s, Redundancy(s), true)
    ensures filled == |Select(old(commits[..]), Redundancy(old(commits[..])), false)|
    ensures SameFlags(G, old(Snap(G)))
  {
    hide Dag, Select, Independent;
    var work := commits[..];
    var redundant := FindRedundant(work, G);
    SelectSizes(work, redundant[..]);
    filled := Collect(commits, 0, work, redundant, false);
    var j := Collect(commits, filled, work, redundant, true);
    assert commits[..] == commits[..j];
  }

  /** Copies the elements with the wanted mark to the array, from position at on. */
  method Collect(commits: array<Commit>, at: nat, work: seq<Commit>, redundant: array<bool>, want: bool)
    returns (end: nat)
    requires |work| == redundant.Length && at + |Select(work, redundant[..], want)| <= commits.Length
    requires commits as object != redundant
    modifies commits
    ensures end == at + |Select(work, redundant[..], want)|
    ensures commits[..end] == old(commits[..at]) + Select(work, redundant[..], want)
  {
    hide Select;
    end := at;
    ghost var marks := redundant[..];
    SelectNone(work[..0], marks[..0], want);
    var i := 0;
    while i < |work|
      invariant 0 <= i <= |work| && redundant[..] == marks
      invariant at <= end <= commits.Length
      invariant end == at + |Select(work[..i], marks[..i], want)|
      invariant commits[..end] == old(commits[..at]) + Select(work[..i], marks[..i], want)
    {
      SelectGrows(work, marks, want, i);
      SelectFits(work, marks, want, i + 1);
      if redundant[i] == want {
        end := Put(commits, end, work[i]);
      }
      i := i + 1;
    }
    assert work[..i] == work && marks[..i] == marks;
  }

  method Put(commits: array<Commit>, end: nat, c: Commit) returns (next: nat)
    requires end < commits.Length
    modifies commits
    ensures next == end + 1 && commits[..next] == old(commits[..end]) + [c]
  {
    commits[end] := c;
    next := end + 1;
  }

  lemma SelectNone<T>(s: seq<T>, marks: seq<bool>, want: bool)
    requires s == [] && marks == []
    ensures Select(s, marks, want) == []
  {
  }

  lemma SelectGrows<T>(s: seq<T>, marks: seq<bool>, want: bool, i: nat)
    requires i < |s| == |marks|
    ensures Select(s[..i + 1], marks[..i + 1], want)
         == Select(s[..i], marks[..i], want) + if marks[i] == want then [s[i]] else []
  {
    assert s[..i + 1][..i] == s[..i] && marks[..i + 1][..i] == marks[..i];
  }

  lemma {:induction false} SelectFits<T>(s: seq<T>, marks: seq<bool>, want: bool, i: nat)
    requires i <= |s| == |marks|
    ensures |Select(s[..i], marks[..i], want)| <= |Select(s, marks, want)|
    decreases |s|
  {
    if i == |s| {
      assert s[..i] == s && marks[..i] == marks;
    } else {
      var n := |s| - 1;
      SelectFits(s[..n], marks[..n], want, i);
      assert s[..n][..i] == s[..i] && marks[..n][..i] == marks[..i];
    }
  }

  // ---------------------------------------------------------------- get_merge_bases_many

  /** Candidates for the answer: all common, and every best common ancestor is among them. */
  ghost predicate Covers(G: set<Commit>, one: Commit, twos: seq<Commit>, result: seq<Commit>)
  {
    && (forall c :: c in result ==> c in G && Common(one, twos, c))
    && (forall c :: c in G && IsMergeBase(G, one, twos, c) ==> c in result)
    && Distinct(result) && ByDate(result)
  }

  /** The answer: exactly the best common ancestors, each once, newest first. */
  ghost predicate Answers(G: set<Commit>, one: Commit, twos: seq<Commit>, result: seq<Commit>)
  {
    && (forall c :: c in result ==> c in G)
    && (forall c :: c in G ==> (c in result <==> IsMergeBase(G, one, twos, c)))
    && Distinct(result) && ByDate(result)
  }

  /** Above every common ancestor there is a best one. */
  lemma MergeBaseAbove(G: set<Commit>, one: Commit, twos: seq<Commit>, c: Commit) returns (m: Commit)
    requires Dag(G) && one in G && Common(one, twos, c)
    ensures m in G && IsMergeBase(G, one, twos, m) && Reach(m, c)
  {
    ReachClosed(G, one, c);
    m := MaximalAbove(G, (set x | x in G && Common(one, twos, x)), c);
  }

  /** A commit that is a starting point on both sides is the only best common ancestor. */
  lemma SharedStart(G: set<Commit>, one: Commit, twos: seq<Commit>)
    requires Dag(G) && one in G && one in twos
    ensures Answers(G, one, twos, [one])
  {
    var i :| 0 <= i < |twos| && twos[i] == one;
    ReachSelf(one);
    assert Common(one, twos, one);
    forall c | c in G
      ensures c == one <==> IsMergeBase(G, one, twos, c)
    {
      if Reach(one, c) {
        ReachIsSelfOrProper(one, c);
      }
      if c == one {
        forall m | m in G && Common(one, twos, m)
          ensures !Proper(m, one)
        {
          if Proper(m, one) {
            ProperTrans(one, m, one);
          }
        }
      }
    }
  }

  /** A single candidate is already the answer. */
  lemma SoleCandidate(G: set<Commit>, one: Commit, twos: seq<Commit>, result: seq<Commit>)
    requires Dag(G) && one in G && |result| <= 1 && Covers(G, one, twos, result)
    ensures Answers(G, one, twos, result)
  {
    if result != [] {
      var m := MergeBaseAbove(G, one, twos, result[0]);
    }
  }

  /** Dropping the candidates that lie below another candidate leaves the answer. */
  lemma IndependentCandidates(G: set<Commit>, one: Commit, twos: seq<Commit>, s: seq<Commit>, k: nat)
    requires Dag(G) && one in G && Covers(G, one, twos, s) && k < |s|
    ensures Independent(s, k) <==> IsMergeBase(G, one, twos, s[k])
  {
    if Independent(s, k) {
      var m := MergeBaseAbove(G, one, twos, s[k]);
      var j :| 0 <= j < |s| && s[j] == m;
    }
    if IsMergeBase(G, one, twos, s[k]) {
      forall j | 0 <= j < |s| && j != k
        ensures !Reach(s[j], s[k])
      {
        assert s[j] in s;
        if Reach(s[j], s[k]) {
          ReachIsSelfOrProper(s[j], s[k]);
        }
      }
    }
  }

  /** merge_bases_many: the recorded candidates that are not stale. */
  method MergeBasesMany(one: Commit, twos: seq<Commit>, ghost G: set<Commit>) returns (result: seq<Commit>)
    requires Dag(G) && one in G && Elems(twos) <= G && Clean(G)
    modifies G`flags
    ensures one in twos ==> result == [one] && SameFlags(G, old(Snap(G)))
    ensures one !in twos ==> Covers(G, one, twos, result)
    ensures Rooted(G, {one} + Elems(twos), Snap(G))
    ensures OthersKept(G, old(Snap(G)), Snap(G))
  {
    if one in twos {
      return [one];
    }
    var list := PaintDownToCommon(one, twos, G);
    result := DropStale(list);
    FreshCovers(G, one, twos, Snap(G), list, result);
  }

  method DropStale(list: seq<Commit>) returns (result: seq<Commit>)
    requires Distinct(list)
    ensures forall c :: c in result <==> c in list && Stale !in c.flags
    ensures Distinct(result) && ByDate(result)
  {
    result := [];
    var i := 0;
    while i < |list|
      invariant 0 <= i <= |list|
      invariant forall c :: c in result <==> c in list[..i] && Stale !in c.flags
      invariant Distinct(result) && ByDate(result)
    {
      assert list[..i + 1] == list[..i] + [list[i]];
      if Stale !in list[i].flags {
        result := InsertByDate(list[i], result);
      }
      i := i + 1;
    }
    assert list[..i] == list;
  }

  lemma FreshCovers(G: set<Commit>, one: Commit, twos: seq<Commit>, f: FlagMap, list: seq<Commit>, result: seq<Commit>)
    requires f.Keys == G && one in G && Verdict(G, one, twos, f, list)
    requires forall c :: c in result <==> c in list && (c in f ==> Stale !in f[c])
    requires Distinct(result) && ByDate(result)
    ensures Covers(G, one, twos, result)
  {
  }

  /** get_merge_bases_many_0; with cleanup, no flag is left behind. */
  method GetMergeBasesMany0(one: Commit, twos: seq<Commit>, cleanup: bool, ghost G: set<Commit>)
    returns (result: seq<Commit>)
    requires Dag(G) && one in G && Elems(twos) <= G && Clean(G)
    modifies G`flags
    ensures Answers(G, one, twos, result)
    ensures cleanup ==> SameFlags(G, old(Snap(G)))
  {
    ghost var f := Snap(G);
    result := MergeBasesMany(one, twos, G);
    if one in twos {
      SharedStart(G, one, twos);
      return;
    }
    if |result| <= 1 {
      SoleCandidate(G, one, twos, result);
      if cleanup {
        ClearPaint(one, twos, G, f);
      }
      return;
    }
    ClearPaint(one, twos, G, f);
    result := DropRedundant(one, twos, result, G);
  }

  /** The candidates without the redundant ones, put back in date order. */
  method DropRedundant(one: Commit, ghost twos: seq<Commit>, candidates: seq<Commit>, ghost G: set<Commit>)
    returns (result: seq<Commit>)
    requires Dag(G) && one in G && Covers(G, one, twos, candidates) && Clean(G)
    modifies G`flags
    ensures Answers(G, one, twos, result)
    ensures SameFlags(G, old(Snap(G)))
  {
    var rslt := new Commit[|candidates|](i requires 0 <= i < |candidates| => candidates[i]);
    assert rslt[..] == candidates;
    var cnt := RemoveRedundant(rslt, G);
    ghost var kept := Select(candidates, Redundancy(candidates), false);
    SelectMembers(candidates, Redundancy(candidates), false);
    assert rslt[..cnt] == kept;
    result := SortByDate(rslt[..cnt]);
    KeptAnswers(G, one, twos, candidates, result);
  }

  method SortByDate(list: seq<Commit>) returns (result: seq<Commit>)
    requires Distinct(list)
    ensures forall c :: c in result <==> c in list
    ensures Distinct(result) && ByDate(result)
  {
    result := [];
    var i := 0;
    while i < |list|
      invariant 0 <= i <= |list|
      invariant forall c :: c in result <==> c in list[..i]
      invariant Distinct(result) && ByDate(result)
    {
      assert list[..i + 1] == list[..i] + [list[i]];
      result := InsertByDate(list[i], result);
      i := i + 1;
    }
    assert list[..i] == list;
  }

  lemma KeptAnswers(G: set<Commit>, one: Commit, twos: seq<Commit>, s: seq<Commit>, result: seq<Commit>)
    requires Dag(G) && one in G && Covers(G, one, twos, s)
    requires forall c :: c in result <==> c in Select(s, Redundancy(s), false)
    requires Distinct(result) && ByDate(result)
    ensures Answers(G, one, twos, result)
  {
    SelectMembers(s, Redundancy(s), false);
    forall c | c in G
      ensures c in result <==> IsMergeBase(G, one, twos, c)
    {
      if c in result {
        var k :| 0 <= k < |s| && s[k] == c && Redundancy(s)[k] == false;
        IndependentCandidates(G, one, twos, s, k);
      }
      if IsMergeBase(G, one, twos, c) {
        var k :| 0 <= k < |s| && s[k] == c;
        IndependentCandidates(G, one, twos, s, k);
        assert Redundancy(s)[k] == false;
      }
    }
  }

  /** get_merge_bases_many. */
  method GetMergeBasesMany(one: Commit, twos: seq<Commit>, ghost G: set<Commit>) returns (result: seq<Commit>)
    requires Dag(G) && one in G && Elems(twos) <= G && Clean(G)
    modifies G`flags
    ensures Answers(G, one, twos, result)
    ensures SameFlags(G, old(Snap(G)))
  {
    result := GetMergeBasesMany0(one, twos, true, G);
  }
}

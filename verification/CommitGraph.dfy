/** Commits, their parent edges, and what it means to be an ancestor (commit.h, commit.c).
    The parent lists never change, so reachability does not depend on the heap;
    only the flag bits of a commit do. */
module CommitGraph {

  /** The object flag bits.  The first four belong to the merge-base code
      (PARENT1, PARENT2, STALE and RESULT); every other bit belongs to someone else. */
  datatype Flag = Parent1 | Parent2 | Stale | Result | Other(bit: nat)

  /** The flags of every commit at some moment. */
  type FlagMap = map<Commit, set<Flag>>

  const ALL_FLAGS: set<Flag> := {Parent1, Parent2, Stale, Result}

  class Commit {
    const parents: seq<Commit>
    const date: nat
    var flags: set<Flag>

    constructor (parents: seq<Commit>, date: nat)
      ensures this.parents == parents && this.date == date && flags == {}
    {
      this.parents := parents;
      this.date := date;
      flags := {};
    }
  }

  /** d reaches a by following exactly n parent edges. */
  ghost predicate ReachIn(d: Commit, a: Commit, n: nat)
  {
    if n == 0 then d == a else exists p :: p in d.parents && ReachIn(p, a, n - 1)
  }

  /** a is d or an ancestor of d. */
  ghost predicate Reach(d: Commit, a: Commit)
  {
    exists n: nat :: ReachIn(d, a, n)
  }

  /** a is a proper ancestor of d. */
  ghost predicate Proper(d: Commit, a: Commit)
  {
    exists p :: p in d.parents && Reach(p, a)
  }

  ghost predicate ReachAny(ds: seq<Commit>, a: Commit)
  {
    exists i :: 0 <= i < |ds| && Reach(ds[i], a)
  }

  /** G holds every commit that can be seen: it is closed under parents, without cycles. */
  ghost predicate Dag(G: set<Commit>)
  {
    && (forall c, p :: c in G && p in c.parents ==> p in G)
    && (forall c :: c in G ==> !Proper(c, c))
  }

  ghost predicate Distinct<T>(s: seq<T>)
  {
    forall i, j :: 0 <= i < j < |s| ==> s[i] != s[j]
  }

  ghost function Elems<T>(s: seq<T>): set<T> {
    set c | c in s
  }

  ghost function Queued<T>(q: multiset<T>): set<T> {
    set c | c in q
  }

  lemma QueuedOneMore<T>(q: multiset<T>, t: T)
    ensures Queued(q + multiset{t}) == Queued(q) + {t}
  {
  }

  lemma ElemsOneMore<T>(s: seq<T>, i: nat)
    requires i < |s|
    ensures Elems(s[..i + 1]) == Elems(s[..i]) + {s[i]}
  {
    assert s[..i + 1] == s[..i] + [s[i]];
  }

  // ---------------------------------------------------------------- reachability

  lemma ReachSelf(c: Commit)
    ensures Reach(c, c)
  {
    assert ReachIn(c, c, 0);
  }

  lemma {:induction false} ReachInStep(d: Commit, c: Commit, a: Commit, n: nat)
    requires ReachIn(d, c, n) && a in c.parents
    ensures ReachIn(d, a, n + 1)
  {
    if n == 0 {
      assert a in d.parents && ReachIn(a, a, 0);
    } else {
      var p :| p in d.parents && ReachIn(p, c, n - 1);
      ReachInStep(p, c, a, n - 1);
    }
  }

  lemma ReachStep(d: Commit, c: Commit, a: Commit)
    requires Reach(d, c) && a in c.parents
    ensures Reach(d, a) && Proper(d, a)
  {
    var n: nat :| ReachIn(d, c, n);
    ReachInStep(d, c, a, n);
    assert ReachIn(d, a, n + 1);
    var p :| p in d.parents && ReachIn(p, a, n);
    assert Reach(p, a);
  }

  lemma {:induction false} ReachInTrans(d: Commit, c: Commit, a: Commit, n: nat)
    requires ReachIn(d, c, n) && Reach(c, a)
    ensures Reach(d, a) && (n > 0 ==> Proper(d, a))
  {
    if n > 0 {
      var p :| p in d.parents && ReachIn(p, c, n - 1);
      ReachInTrans(p, c, a, n - 1);
      var m: nat :| ReachIn(p, a, m);
      assert ReachIn(d, a, m + 1);
    }
  }

  lemma ReachTrans(d: Commit, c: Commit, a: Commit)
    requires Reach(d, c) && Reach(c, a)
    ensures Reach(d, a)
  {
    var n: nat :| ReachIn(d, c, n);
    ReachInTrans(d, c, a, n);
  }

  lemma ProperIsReach(d: Commit, a: Commit)
    requires Proper(d, a)
    ensures Reach(d, a)
    ensures exists n: nat :: n > 0 && ReachIn(d, a, n)
  {
    var p :| p in d.parents && Reach(p, a);
    var n: nat :| ReachIn(p, a, n);
    assert ReachIn(d, a, n + 1);
  }

  lemma ReachIsSelfOrProper(d: Commit, a: Commit)
    requires Reach(d, a)
    ensures d == a || Proper(d, a)
  {
    var n: nat :| ReachIn(d, a, n);
    if n > 0 {
      var p :| p in d.parents && ReachIn(p, a, n - 1);
      assert Reach(p, a);
    }
  }

  /** Either leg being proper makes the whole path proper. */
  lemma ProperTrans(d: Commit, c: Commit, a: Commit)
    requires (Proper(d, c) && Reach(c, a)) || (Reach(d, c) && Proper(c, a))
    ensures Proper(d, a)
  {
    if Proper(d, c) && Reach(c, a) {
      var p :| p in d.parents && Reach(p, c);
      ReachTrans(p, c, a);
    } else {
      var p :| p in c.parents && Reach(p, a);
      ReachStep(d, c, p);
      var q :| q in d.parents && Reach(q, p);
      ReachTrans(q, p, a);
    }
  }

  lemma {:induction false} ReachInClosed(G: set<Commit>, d: Commit, a: Commit, n: nat)
    requires Dag(G) && d in G && ReachIn(d, a, n)
    ensures a in G
  {
    if n > 0 {
      var p :| p in d.parents && ReachIn(p, a, n - 1);
      ReachInClosed(G, p, a, n - 1);
    }
  }

  lemma ReachClosed(G: set<Commit>, d: Commit, a: Commit)
    requires Dag(G) && d in G && Reach(d, a)
    ensures a in G
  {
    var n: nat :| ReachIn(d, a, n);
    ReachInClosed(G, d, a, n);
  }

  /** No two different commits reach one another. */
  lemma ReachAntisymmetric(G: set<Commit>, c: Commit, d: Commit)
    requires Dag(G) && c in G && Reach(c, d) && Reach(d, c)
    ensures c == d
  {
    ReachIsSelfOrProper(c, d);
    if c != d {
      ProperTrans(c, d, c);
    }
  }

  /** Above every member of a finite set there is one that no other member reaches. */
  lemma {:induction false} MaximalAbove(G: set<Commit>, S: set<Commit>, c: Commit) returns (m: Commit)
    requires Dag(G) && S <= G && c in S
    ensures m in S && Reach(m, c)
    ensures forall d :: d in S ==> !Proper(d, m)
    decreases S
  {
    if d :| d in S && Proper(d, c) {
      var above := set x | x in S && Proper(x, c);
      assert c in S - above;
      m := MaximalAbove(G, above, d);
      ProperIsReach(m, c);
      forall x | x in S
        ensures !Proper(x, m)
      {
        if Proper(x, m) {
          ProperTrans(x, m, c);
        }
      }
    } else {
      m := c;
      ReachSelf(c);
    }
  }

  /** Below every member of a finite set there is one that reaches no other member. */
  lemma {:induction false} MinimalBelow(G: set<Commit>, S: set<Commit>, c: Commit) returns (m: Commit)
    requires Dag(G) && S <= G && c in S
    ensures m in S && Reach(c, m)
    ensures forall d :: d in S ==> !Proper(m, d)
    decreases S
  {
    if d :| d in S && Proper(c, d) {
      var below := set x | x in S && Proper(c, x);
      assert c in S - below;
      m := MinimalBelow(G, below, d);
      ProperIsReach(c, m);
      forall x | x in S
        ensures !Proper(m, x)
      {
        if Proper(m, x) {
          ProperTrans(c, m, x);
        }
      }
    } else {
      m := c;
      ReachSelf(c);
    }
  }

  // ---------------------------------------------------------------- commit lists

  ghost predicate ByDate(s: seq<Commit>)
  {
    forall i, j :: 0 <= i < j < |s| ==> s[i].date >= s[j].date
  }

  /** What inserting one item anywhere does to the contents of a list. */
  lemma InsertedAt<T>(list: seq<T>, item: T, i: nat, r: seq<T>)
    requires i <= |list| && r == list[..i] + [item] + list[i..]
    ensures multiset(r) == multiset(list) + multiset{item}
    ensures forall c :: c in r <==> c in list || c == item
    ensures Distinct(list) && item !in list ==> Distinct(r)
  {
    hide Distinct;
    InsertedMembers(list, item, i, r);
    forall c
      ensures c in r <==> c in list || c == item
    {
      assert c in r <==> multiset(r)[c] > 0;
    }
    if Distinct(list) && item !in list {
      InsertedDistinct(list, item, i, r);
    }
  }

  lemma InsertedDistinct<T>(list: seq<T>, item: T, i: nat, r: seq<T>)
    requires i <= |list| && r == list[..i] + [item] + list[i..]
    requires Distinct(list) && item !in list
    ensures Distinct(r)
  {
    assert forall j :: 0 <= j < |r| && j != i ==> r[j] == list[if j < i then j else j - 1];
  }

  lemma InsertedMembers<T>(list: seq<T>, item: T, i: nat, r: seq<T>)
    requires i <= |list| && r == list[..i] + [item] + list[i..]
    ensures multiset(r) == multiset(list) + multiset{item}
  {
    assert list == list[..i] + list[i..];
  }

  /** commit_list_insert_by_date: newest first, after the entries of equal date. */
  method InsertByDate(item: Commit, list: seq<Commit>) returns (r: seq<Commit>)
    ensures multiset(r) == multiset(list) + multiset{item}
    ensures forall c :: c in r <==> c in list || c == item
    ensures Distinct(list) && item !in list ==> Distinct(r)
    ensures ByDate(list) ==> ByDate(r)
    ensures |r| == |list| + 1
  {
    var i := 0;
    while i < |list|
      invariant 0 <= i <= |list|
      invariant forall j :: 0 <= j < i ==> list[j].date >= item.date
    {
      if list[i].date < item.date {
        break;
      }
      i := i + 1;
    }
    r := list[..i] + [item] + list[i..];
    InsertedAt(list, item, i, r);
  }
}

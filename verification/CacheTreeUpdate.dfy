/** Bringing a cached tree up to date with the index (cache-tree.c, update_one). */
module CacheTreeUpdate {
  import opened CacheTree

  // ---------------------------------------------------------------- groups of a level

  /** Nothing at or behind i lies below base. */
  ghost predicate Past(s: seq<Entry>, i: nat, base: string)
  {
    forall k :: i <= k < |s| ==> !Below(s[k], base)
  }

  /** The directories met before i are finished: nothing of them is left at or behind i. */
  ghost predicate Boundary(s: seq<Entry>, i: nat, base: string)
    requires AllBelow(s, base) && i <= |s|
  {
    forall j :: 0 <= j < i && !IsFile(s[j], base) ==> Past(s, i, Inner(base, DirOf(s[j], base)))
  }

  lemma {:induction false} UnderIsRange(s: seq<Entry>, base: string, lo: nat, hi: nat)
    requires lo <= hi <= |s|
    requires forall k :: 0 <= k < |s| ==> (Below(s[k], base) <==> lo <= k < hi)
    ensures Under(s, base) == s[lo..hi]
  {
    if s != [] {
      var a, b := if lo > 0 then lo - 1 else 0, if hi > 0 then hi - 1 else 0;
      forall k | 0 <= k < |s[1..]|
        ensures Below(s[1..][k], base) <==> a <= k < b
      {
        assert s[1..][k] == s[k + 1];
      }
      UnderIsRange(s[1..], base, a, b);
      if lo == 0 < hi {
        assert s[lo..hi] == [s[0]] + s[1..][a..b];
      } else {
        assert !Below(s[0], base) && s[lo..hi] == s[1..][a..b];
      }
    }
  }

  /** Only a name with nothing behind the final slash of a directory is not below it. */
  lemma PrefixMeansBelow(e: Entry, inner: string)
    requires e.name != "" && e.name[|e.name| - 1] != '/' && inner != "" && inner[|inner| - 1] == '/'
    ensures Below(e, inner) <==> HasPrefix(e.name, inner)
  {
    if HasPrefix(e.name, inner) {
      assert e.name[..|inner|][|inner| - 1] == '/';
    }
  }

  /** In a sorted index the entries below a directory are next to each other. */
  lemma NextToEachOther(s: seq<Entry>, inner: string, i: nat, m: nat, k: nat)
    requires Index(s) && i <= m <= k < |s| && Below(s[i], inner) && !Below(s[m], inner)
    requires inner != "" && inner[|inner| - 1] == '/'
    ensures !Below(s[k], inner)
  {
    PrefixMeansBelow(s[m], inner);
    if Below(s[k], inner) {
      PrefixConvex(inner, s[i].name, s[m].name, s[k].name);
    }
  }

  lemma NoSlashInDir(e: Entry, base: string)
    requires Below(e, base)
    ensures Slash(DirOf(e, base)) == |DirOf(e, base)|
  {
    var dir := DirOf(e, base);
    assert forall x :: 0 <= x < |dir| ==> dir[x] == Rest(e, base)[x] && dir[x] != '/';
  }

  lemma RunAt(s: seq<Entry>, i: nat, base: string)
    requires i <= |s|
    ensures var m := Run(s[i..], base);
      && i + m <= |s| && (forall k :: i <= k < i + m ==> Below(s[k], base))
      && (i + m < |s| ==> !Below(s[i + m], base))
  {
    var m := Run(s[i..], base);
    assert forall k :: i <= k < i + m ==> s[k] == s[i..][..m][k - i];
  }

  lemma GroupRange(s: seq<Entry>, i: nat, base: string)
    requires Index(s) && AllBelow(s, base) && i < |s| && Boundary(s, i, base) && !IsFile(s[i], base)
    ensures var inner := Inner(base, DirOf(s[i], base)); var m := Run(s[i..], inner);
      && 1 <= m && i + m <= |s|
      && forall k :: 0 <= k < |s| ==> (Below(s[k], inner) <==> i <= k < i + m)
  {
    hide AtMost, Slash, Run;
    var dir := DirOf(s[i], base);
    var inner := Inner(base, dir);
    var m := Run(s[i..], inner);
    InItsDirectory(s[i], base);
    NoSlashInDir(s[i], base);
    RunAt(s, i, inner);
    forall k | 0 <= k < |s|
      ensures Below(s[k], inner) <==> i <= k < i + m
    {
      assert k < i && !IsFile(s[k], base) ==> Past(s, i, Inner(base, DirOf(s[k], base)));
      if k < i && Below(s[k], inner) {
        OnlyItsDirectory(s[k], base, dir);
      }
      if i + m <= k {
        NextToEachOther(s, inner, i, i + m, k);
      }
    }
  }

  lemma GroupBoundary(s: seq<Entry>, i: nat, next: nat, base: string)
    requires Index(s) && AllBelow(s, base) && i < next <= |s| && Boundary(s, i, base) && !IsFile(s[i], base)
    requires forall k :: 0 <= k < |s| ==> (Below(s[k], Inner(base, DirOf(s[i], base))) <==> i <= k < next)
    ensures Boundary(s, next, base)
  {
    NoSlashInDir(s[i], base);
    forall j | 0 <= j < next && !IsFile(s[j], base)
      ensures Past(s, next, Inner(base, DirOf(s[j], base)))
    {
      if j < i {
        assert Past(s, i, Inner(base, DirOf(s[j], base)));
      } else {
        OnlyItsDirectory(s[j], base, DirOf(s[i], base));
      }
    }
  }

  /** At a boundary, the run of entries of the next directory is all there is of it. */
  lemma GroupIsRun(s: seq<Entry>, i: nat, base: string, inner: string, m: nat)
    requires Index(s) && AllBelow(s, base) && i < |s| && Boundary(s, i, base) && !IsFile(s[i], base)
    requires inner == Inner(base, DirOf(s[i], base)) && m == Run(s[i..], inner)
    ensures 1 <= m && i + m <= |s| && Boundary(s, i + m, base)
    ensures Under(s, inner) == s[i..i + m]
  {
    hide Less, Slash, Boundary, Run, Under, Below, IsFile, DirOf;
    GroupRange(s, i, base);
    GroupBoundary(s, i, i + m, base);
    UnderIsRange(s, inner, i, i + m);
  }

  lemma FileBoundary(s: seq<Entry>, i: nat, base: string)
    requires AllBelow(s, base) && i < |s| && Boundary(s, i, base) && IsFile(s[i], base)
    ensures Boundary(s, i + 1, base)
  {
    forall j | 0 <= j < i + 1 && !IsFile(s[j], base)
      ensures Past(s, i + 1, Inner(base, DirOf(s[j], base)))
    {
      assert j < i ==> Past(s, i, Inner(base, DirOf(s[j], base)));
    }
  }

  // ---------------------------------------------------------------- the down array

  /** subtree_pos: the position of a name, or -1 - p when p is where it would go. */
  method SubtreePos(down: seq<Sub>, name: string) returns (pos: int)
    requires SortedNames(down)
    ensures pos >= 0 ==> pos < |down| && down[pos].name == name
    ensures pos < 0 ==> GoesAt(down, name, -1 - pos)
  {
    var lo, hi := 0, |down|;
    while lo < hi
      invariant 0 <= lo <= hi <= |down|
      invariant forall k :: 0 <= k < lo ==> SubLess(down[k].name, name)
      invariant forall k :: hi <= k < |down| ==> SubLess(name, down[k].name)
    {
      var mi := (lo + hi) / 2;
      var mdl := down[mi].name;
      SubLessOrder(name, mdl, "");
      if name == mdl {
        return mi;
      }
      if SubLess(name, mdl) {
        forall k | mi <= k < |down|
          ensures SubLess(name, down[k].name)
        {
          SubLessOrder(name, mdl, down[k].name);
        }
        hi := mi;
      } else {
        forall k | 0 <= k <= mi
          ensures SubLess(down[k].name, name)
        {
          SubLessOrder(down[k].name, mdl, name);
        }
        lo := mi + 1;
      }
    }
    return -lo - 1;
  }

  /** The name is absent, and p is the place for it. */
  ghost predicate GoesAt(down: seq<Sub>, name: string, p: int)
  {
    && 0 <= p <= |down|
    && (forall k :: 0 <= k < p ==> SubLess(down[k].name, name))
    && (forall k :: p <= k < |down| ==> SubLess(name, down[k].name))
  }

  lemma GoesAtIsAbsent(down: seq<Sub>, name: string, p: int)
    requires GoesAt(down, name, p)
    ensures !HasSub(down, name)
  {
    SubLessOrder(name, name, "");
  }

  /** Replacing the tree of one entry by one that is no worse keeps what is cached true. */
  lemma ReplaceSub(hash: Hash, it: Tree, s: seq<Entry>, base: string, pos: nat, sub: Sub)
    requires Index(s) && AllBelow(s, base) && CacheOk(hash, it, s, base)
    requires pos < |it.down| && sub.name == it.down[pos].name && SubOk(hash, sub, s, base)
    requires SubMatches(hash, it.down[pos], s, base) ==> SubMatches(hash, sub, s, base)
    ensures CacheOk(hash, it.(down := it.down[pos := sub]), s, base)
  {
    hide AtMost, Slash, Under, Less, TreeId, IsFile, DirOf;
    var it' := it.(down := it.down[pos := sub]);
    if it.count >= 0 {
      assert Matches(hash, it', s, base) by {
        forall j | 0 <= j < |s| && !IsFile(s[j], base)
          ensures HasSub(it'.down, DirOf(s[j], base))
        {
          var k :| 0 <= k < |it.down| && it.down[k].name == DirOf(s[j], base);
          assert it'.down[k].name == it.down[k].name;
        }
      }
    }
  }

  lemma SortedInsert(down: seq<Sub>, pos: nat, sub: Sub)
    requires SortedDown(down) && GoesAt(down, sub.name, pos) && Slash(sub.name) == |sub.name|
    ensures SortedDown(down[..pos] + [sub] + down[pos..])
  {
    var d := down[..pos] + [sub] + down[pos..];
    forall i | 0 <= i < |d|
      ensures d[i] == if i < pos then down[i] else if i == pos then sub else down[i - 1]
    {
    }
  }

  /** A new entry with an invalid tree can be added to an invalid node. */
  lemma InsertSub(hash: Hash, it: Tree, s: seq<Entry>, base: string, pos: nat, sub: Sub)
    requires Index(s) && AllBelow(s, base) && CacheOk(hash, it, s, base) && it.count < 0
    requires GoesAt(it.down, sub.name, pos) && Slash(sub.name) == |sub.name| && sub.tree == EMPTY
    ensures CacheOk(hash, it.(down := it.down[..pos] + [sub] + it.down[pos..]), s, base)
  {
    var down := it.down[..pos] + [sub] + it.down[pos..];
    SortedInsert(it.down, pos, sub);
    forall k | 0 <= k < |down|
      ensures SubOk(hash, down[k], s, base)
    {
      if k != pos {
        assert down[k] == it.down[if k < pos then k else k - 1];
      } else {
        UnderIsIndex(s, Inner(base, sub.name));
      }
    }
  }

  // ---------------------------------------------------------------- first loop: the subtrees

  ghost predicate SubDone(hash: Hash, sub: Sub, s: seq<Entry>, base: string)
    requires Index(s)
  {
    SubMatches(hash, sub, s, base) && sub.count == |Under(s, Inner(base, sub.name))|
  }

  ghost predicate HasUsed(down: seq<Sub>, name: string) {
    exists k :: 0 <= k < |down| && down[k].name == name && down[k].used
  }

  /** The entries before i have been visited: their directories are used, and used ones are done. */
  ghost predicate Visited(hash: Hash, it: Tree, s: seq<Entry>, base: string, i: nat)
    requires Index(s) && AllBelow(s, base) && i <= |s|
  {
    && CacheOk(hash, it, s, base)
    && (forall k :: 0 <= k < |it.down| && it.down[k].used ==> SubDone(hash, it.down[k], s, base))
    && (forall j :: 0 <= j < i && !IsFile(s[j], base) ==> HasUsed(it.down, DirOf(s[j], base)))
    && Boundary(s, i, base)
  }

  /** Every used entry's tree object is in the store, unless nothing is written at all. */
  ghost predicate UsedStored(down: seq<Sub>, store: set<Oid>, dryrun: bool)
  {
    dryrun || forall k :: 0 <= k < |down| && down[k].used ==> down[k].tree.oid in store
  }

  method ClearUsed(hash: Hash, it0: Tree, ghost s: seq<Entry>, ghost base: string) returns (it: Tree)
    requires Index(s) && AllBelow(s, base) && CacheOk(hash, it0, s, base)
    ensures Visited(hash, it, s, base, 0) && it.count == it0.count
    ensures |it.down| == |it0.down|
    ensures forall k :: 0 <= k < |it.down| ==>
      !it.down[k].used && it.down[k].name == it0.down[k].name && it.down[k].tree == it0.down[k].tree
  {
    it := it0;
    var i := 0;
    while i < |it.down|
      invariant 0 <= i <= |it.down| == |it0.down|
      invariant CacheOk(hash, it, s, base) && it.count == it0.count
      invariant forall k :: 0 <= k < |it.down| ==>
        it.down[k].name == it0.down[k].name && it.down[k].tree == it0.down[k].tree
      invariant forall k :: 0 <= k < i ==> !it.down[k].used
    {
      ReplaceSub(hash, it, s, base, i, it.down[i].(used := false));
      it := it.(down := it.down[i := it.down[i].(used := false)]);
      i := i + 1;
    }
  }

  /** The array as it was, or with an invalid tree put in at pos under a name it did not have. */
  ghost predicate FoundOrNew(down0: seq<Sub>, down: seq<Sub>, pos: nat, name: string) {
    || down == down0
    || (pos <= |down0| && !HasSub(down0, name) && down == down0[..pos] + [Sub(name, EMPTY, 0, false)] + down0[pos..])
  }

  /** find_subtree with create: the position of the entry, added with an invalid tree if absent. */
  method FindOrCreate(hash: Hash, it0: Tree, name: string, ghost s: seq<Entry>, ghost base: string, ghost i: nat)
    returns (it: Tree, pos: nat)
    requires Index(s) && AllBelow(s, base) && i < |s| && Visited(hash, it0, s, base, i)
    requires !IsFile(s[i], base) && name == DirOf(s[i], base)
    ensures Visited(hash, it, s, base, i) && it.count == it0.count && it.oid == it0.oid
    ensures pos < |it.down| && it.down[pos].name == name
    ensures FoundOrNew(it0.down, it.down, pos, name)
    ensures forall k :: 0 <= k < |it.down| && it.down[k].used ==> it.down[k] in it0.down
  {
    it := it0;
    var p := SubtreePos(it.down, name);
    if 0 <= p {
      return it, p;
    }
    pos := -p - 1;
    GoesAtIsAbsent(it.down, name, pos);
    assert it.count < 0;
    var sub := Sub(name, EMPTY, 0, false);
    NoSlashInDir(s[i], base);
    InsertSub(hash, it, s, base, pos, sub);
    it := it.(down := it.down[..pos] + [sub] + it.down[pos..]);
    InsertKeepsVisited(hash, it0.down, it.down, pos, sub);
  }

  lemma InsertKeepsVisited(hash: Hash, down: seq<Sub>, down': seq<Sub>, pos: nat, sub: Sub)
    requires pos <= |down| && down' == down[..pos] + [sub] + down[pos..] && !sub.used
    ensures forall name :: HasUsed(down, name) ==> HasUsed(down', name)
    ensures forall k :: 0 <= k < |down'| && down'[k].used ==> down'[k] in down
  {
    forall name | HasUsed(down, name)
      ensures HasUsed(down', name)
    {
      var k :| 0 <= k < |down| && down[k].name == name && down[k].used;
      assert down'[if k < pos then k else k + 1] == down[k];
    }
  }

  /** The entry at pos gets its updated tree and is marked used. */
  lemma FinishSub(hash: Hash, it: Tree, s: seq<Entry>, base: string, i: nat, m: nat, pos: nat, tree: Tree)
    requires Index(s) && AllBelow(s, base) && i < |s| && Visited(hash, it, s, base, i) && !IsFile(s[i], base)
    requires pos < |it.down| && it.down[pos].name == DirOf(s[i], base)
    requires m == Run(s[i..], Inner(base, DirOf(s[i], base)))
    requires SubDone(hash, Sub(it.down[pos].name, tree, m, true), s, base)
    ensures i + m <= |s|
    ensures Visited(hash, it.(down := it.down[pos := Sub(it.down[pos].name, tree, m, true)]), s, base, i + m)
  {
    hide Less, Slash, Under, Run, SubLess, IsFile, DirOf, Matches, CacheOk, Items;
    var dir := DirOf(s[i], base);
    var inner := Inner(base, dir);
    var sub := Sub(dir, tree, m, true);
    var it' := it.(down := it.down[pos := sub]);
    GroupIsRun(s, i, base, inner, m);
    UnderIsIndex(s, inner);
    MatchesIsOk(hash, tree, Under(s, inner), inner);
    ReplaceSub(hash, it, s, base, pos, sub);
    FinishedNames(it.down, it'.down, s, base, i, m, pos);
  }

  lemma FinishedNames(down: seq<Sub>, down': seq<Sub>, s: seq<Entry>, base: string, i: nat, m: nat, pos: nat)
    requires Index(s) && AllBelow(s, base) && i < |s| && Boundary(s, i, base) && !IsFile(s[i], base)
    requires m == Run(s[i..], Inner(base, DirOf(s[i], base)))
    requires pos < |down| && down[pos].name == DirOf(s[i], base)
    requires forall j :: 0 <= j < i && !IsFile(s[j], base) ==> HasUsed(down, DirOf(s[j], base))
    requires |down'| == |down| && down'[pos].used && down'[pos].name == down[pos].name
    requires forall k :: 0 <= k < |down| && k != pos ==> down'[k] == down[k]
    ensures i + m <= |s|
    ensures forall j :: 0 <= j < i + m && !IsFile(s[j], base) ==> HasUsed(down', DirOf(s[j], base))
  {
    var dir := DirOf(s[i], base);
    GroupRange(s, i, base);
    NoSlashInDir(s[i], base);
    assert HasUsed(down', dir);
    forall j | 0 <= j < i + m && !IsFile(s[j], base)
      ensures HasUsed(down', DirOf(s[j], base))
    {
      if j < i {
        var k :| 0 <= k < |down| && down[k].name == DirOf(s[j], base) && down[k].used;
        assert down'[k].name == down[k].name && down'[k].used;
      } else {
        OnlyItsDirectory(s[j], base, dir);
      }
    }
  }

  // ---------------------------------------------------------------- update_one

  /** The entries of the level: those at the front of cache that lie below base. */
  ghost function Level(cache: seq<Entry>, base: string): (s: seq<Entry>)
    requires Index(cache)
    ensures Index(s) && AllBelow(s, base)
  {
    cache[..Run(cache, base)]
  }

  /** What a call leaves: nothing cached becomes wrong, and a success makes the whole node right. */
  ghost predicate Updated(hash: Hash, it0: Tree, it: Tree, s: seq<Entry>, base: string, r: int)
    requires Index(s) && AllBelow(s, base)
  {
    && CacheOk(hash, it, s, base)
    && (Matches(hash, it0, s, base) ==> Matches(hash, it, s, base))
    && (r >= 0 ==> r == |s| && Matches(hash, it, s, base))
  }

  // ---------------------------------------------------------------- which objects are written

  ghost predicate HasNode(it: Tree, o: Oid)
    decreases it
  {
    it.oid == o || HasNodeBelow(it.down, o)
  }

  ghost predicate HasNodeBelow(down: seq<Sub>, o: Oid)
    decreases down
  {
    exists k :: 0 <= k < |down| && HasNode(down[k].tree, o)
  }

  /** What came into the store are trees of the node. */
  ghost predicate OnlyTrees(it: Tree, store0: set<Oid>, store: set<Oid>) {
    forall o :: o in store && o !in store0 ==> HasNode(it, o)
  }

  ghost predicate OnlyBelow(down: seq<Sub>, store0: set<Oid>, store: set<Oid>) {
    forall o :: o in store && o !in store0 ==> HasNodeBelow(down, o)
  }

  ghost predicate OnlyUsed(down: seq<Sub>, store0: set<Oid>, store: set<Oid>) {
    forall o :: o in store && o !in store0 ==> HasUsedNode(down, o)
  }

  ghost predicate HasUsedNode(down: seq<Sub>, o: Oid) {
    exists k :: 0 <= k < |down| && down[k].used && HasNode(down[k].tree, o)
  }

  lemma OnlyUsedSame(down0: seq<Sub>, down: seq<Sub>, pos: nat, name: string, store0: set<Oid>, store: set<Oid>)
    requires OnlyUsed(down0, store0, store) && FoundOrNew(down0, down, pos, name)
    ensures OnlyUsed(down, store0, store)
  {
    hide HasNode;
    forall o | o in store && o !in store0
      ensures HasUsedNode(down, o)
    {
      assert HasUsedNode(down0, o);
      var k :| 0 <= k < |down0| && down0[k].used && HasNode(down0[k].tree, o);
      assert down[if down == down0 || k < pos then k else k + 1] == down0[k];
    }
  }

  /** A directory's update writes trees of its own node. */
  lemma OnlyUsedMore(down: seq<Sub>, pos: nat, sub: Sub, start: set<Oid>, store0: set<Oid>, store: set<Oid>)
    requires pos < |down| && !down[pos].used && OnlyUsed(down, start, store0) && OnlyTrees(sub.tree, store0, store)
    ensures OnlyBelow(down[pos := sub], start, store)
    ensures sub.used ==> OnlyUsed(down[pos := sub], start, store)
  {
    hide HasNode;
    var down' := down[pos := sub];
    forall o | o in store && o !in start
      ensures HasNodeBelow(down', o) && (sub.used ==> HasUsedNode(down', o))
    {
      if o in store0 {
        assert HasUsedNode(down, o);
        var k :| 0 <= k < |down| && down[k].used && HasNode(down[k].tree, o);
        assert down'[k] == down[k];
      } else {
        assert down'[pos] == sub && HasNode(sub.tree, o);
      }
    }
  }

  lemma UsedKept(all: seq<Sub>, down: seq<Sub>, store0: set<Oid>, store: set<Oid>)
    requires OnlyUsed(all, store0, store)
    requires forall k :: 0 <= k < |all| && all[k].used ==> all[k] in down
    ensures OnlyBelow(down, store0, store)
  {
    hide HasNode;
    forall o | o in store && o !in store0
      ensures HasNodeBelow(down, o)
    {
      assert HasUsedNode(all, o);
      var k :| 0 <= k < |all| && all[k].used && HasNode(all[k].tree, o);
      assert all[k] in down;
      var x :| 0 <= x < |down| && down[x] == all[k];
    }
  }

  lemma BelowIsTrees(it: Tree, store0: set<Oid>, store: set<Oid>, more: set<Oid>)
    requires OnlyBelow(it.down, store0, store) && more <= store + {it.oid}
    ensures OnlyTrees(it, store0, more)
  {
    hide HasNodeBelow;
  }

  // ---------------------------------------------------------------- which objects are looked for

  predicate Stored(e: Entry, store: set<Oid>) {
    e.mode == GITLINK_MODE || e.oid in store
  }

  ghost predicate Listed(s: seq<Entry>, store: set<Oid>) {
    forall j :: 0 <= j < |s| ==> Stored(s[j], store)
  }

  /** On the way from the node to the entry stands a valid node whose tree object is in the store: it is taken over
      as it is, and nothing below it is looked at. */
  ghost predicate Reused(it: Tree, path: string, store: set<Oid>)
    decreases |path|, 1
  {
    (0 <= it.count && it.oid in store) || ReusedBelow(it.down, path, store)
  }

  ghost predicate ReusedBelow(down: seq<Sub>, path: string, store: set<Oid>)
    decreases |path|, 0
  {
    var n := Slash(path);
    n < |path| && exists k :: 0 <= k < |down| && down[k].name == path[..n] && Reused(down[k].tree, path[n + 1..], store)
  }

  /** Every entry is in the store, a link to another repository, or below a node that is taken over. */
  ghost predicate Checked(it: Tree, s: seq<Entry>, base: string, store: set<Oid>)
    requires AllBelow(s, base)
  {
    forall j :: 0 <= j < |s| ==> Stored(s[j], store) || Reused(it, Rest(s[j], base), store)
  }

  /** The same for the entries in directories among the first n. */
  ghost predicate DirsChecked(down: seq<Sub>, s: seq<Entry>, base: string, n: nat, store: set<Oid>)
    requires AllBelow(s, base) && n <= |s|
  {
    forall j :: 0 <= j < n && !IsFile(s[j], base) ==> Stored(s[j], store) || ReusedBelow(down, Rest(s[j], base), store)
  }

  /** The same for the files of the level, where nothing is taken over. */
  ghost predicate FilesListed(s: seq<Entry>, base: string, store: set<Oid>)
    requires AllBelow(s, base)
  {
    forall j :: 0 <= j < |s| && IsFile(s[j], base) ==> Stored(s[j], store)
  }

  lemma {:induction false} ReusedMore(it: Tree, path: string, store0: set<Oid>, store: set<Oid>)
    requires store0 <= store
    ensures Reused(it, path, store0) ==> Reused(it, path, store)
    ensures ReusedBelow(it.down, path, store0) ==> ReusedBelow(it.down, path, store)
    decreases |path|
  {
    var n := Slash(path);
    if ReusedBelow(it.down, path, store0) {
      var k :| 0 <= k < |it.down| && it.down[k].name == path[..n] && Reused(it.down[k].tree, path[n + 1..], store0);
      ReusedMore(it.down[k].tree, path[n + 1..], store0, store);
    }
  }

  lemma DirsCheckedMore(down: seq<Sub>, s: seq<Entry>, base: string, n: nat, store0: set<Oid>, store: set<Oid>)
    requires AllBelow(s, base) && n <= |s| && store0 <= store && DirsChecked(down, s, base, n, store0)
    ensures DirsChecked(down, s, base, n, store)
  {
    hide Reused, ReusedBelow, IsFile, Below;
    forall j | 0 <= j < n && !IsFile(s[j], base)
      ensures Stored(s[j], store) || ReusedBelow(down, Rest(s[j], base), store)
    {
      ReusedMore(Tree(-1, NULL_OID, down), Rest(s[j], base), store0, store);
    }
  }

  /** The tree built from nothing of every directory, at any depth, is in the store; a dry run, which writes none, may
      need them. */
  ghost predicate TreesStored(hash: Hash, s: seq<Entry>, base: string, store: set<Oid>)
    requires Index(s)
  {
    forall dirs :: TreeStored(hash, s, base + dirs, store)
  }

  ghost predicate TreeStored(hash: Hash, s: seq<Entry>, inner: string, store: set<Oid>)
    requires Index(s)
  {
    UnderIsIndex(s, inner);
    inner != "" && inner[|inner| - 1] == '/' && Under(s, inner) != [] ==> TreeId(hash, Under(s, inner), inner) in store
  }

  /** All that an update needs so that it cannot fail. */
  ghost predicate Enough(hash: Hash, it: Tree, s: seq<Entry>, base: string, store: set<Oid>, dryrun: bool)
    requires Index(s) && AllBelow(s, base)
  {
    Checked(it, s, base, store) && (dryrun ==> TreesStored(hash, s, base, store))
  }

  lemma {:induction false} UnderUnder(s: seq<Entry>, inner: string, deeper: string)
    requires |inner| <= |deeper| && deeper[..|inner|] == inner
    ensures Under(Under(s, inner), deeper) == Under(s, deeper)
  {
    hide Under, Below;
    UnderStep(s, inner);
    UnderStep(s, deeper);
    if s != [] {
      UnderUnder(s[1..], inner, deeper);
      BelowBoth(s[0], inner, deeper);
      var u := Under(s[1..], inner);
      UnderStep([s[0]] + u, deeper);
      assert ([s[0]] + u)[1..] == u;
    } else {
      UnderStep([], deeper);
    }
  }

  lemma BelowBoth(e: Entry, inner: string, deeper: string)
    requires |inner| <= |deeper| && deeper[..|inner|] == inner
    ensures Below(e, deeper) ==> Below(e, inner)
  {
    if Below(e, deeper) {
      assert e.name[..|inner|] == e.name[..|deeper|][..|inner|];
    }
  }

  lemma TreesInside(hash: Hash, s: seq<Entry>, base: string, inner: string, store: set<Oid>)
    requires Index(s) && Index(Under(s, inner)) && |base| <= |inner| && inner[..|base|] == base
    ensures TreesStored(hash, s, base, store) ==> TreesStored(hash, Under(s, inner), inner, store)
  {
    hide Under, Index;
    if TreesStored(hash, s, base, store) {
      forall dirs
        ensures TreeStored(hash, Under(s, inner), inner + dirs, store)
      {
        assert inner + dirs == base + (inner[|base|..] + dirs);
        assert TreeStored(hash, s, base + (inner[|base|..] + dirs), store);
        UnderUnder(s, inner, inner + dirs);
      }
    }
  }

  lemma TreesLater(hash: Hash, s: seq<Entry>, base: string, store0: set<Oid>, store: set<Oid>)
    requires Index(s) && store0 <= store
    ensures TreesStored(hash, s, base, store0) ==> TreesStored(hash, s, base, store)
  {
    hide Under, Index;
    if TreesStored(hash, s, base, store0) {
      forall dirs
        ensures TreeStored(hash, s, base + dirs, store)
      {
        assert TreeStored(hash, s, base + dirs, store0);
      }
    }
  }

  /** A node that is not taken over itself: its files and its directories. */
  lemma CheckedParts(it: Tree, s: seq<Entry>, base: string, store: set<Oid>)
    requires AllBelow(s, base) && !(0 <= it.count && it.oid in store)
    ensures Checked(it, s, base, store) <==>
      FilesListed(s, base, store) && DirsChecked(it.down, s, base, |s|, store)
  {
    hide Below, Slash;
    forall j | 0 <= j < |s|
      ensures Reused(it, Rest(s[j], base), store) == ReusedBelow(it.down, Rest(s[j], base), store)
      ensures IsFile(s[j], base) ==> !ReusedBelow(it.down, Rest(s[j], base), store)
    {
    }
  }

  /** Where nothing is cached, nothing is taken over. */
  lemma EmptyReusesNothing(s: seq<Entry>, base: string, store: set<Oid>)
    requires AllBelow(s, base)
    ensures Checked(EMPTY, s, base, store) <==> Listed(s, store)
  {
    forall j | 0 <= j < |s|
      ensures !Reused(EMPTY, Rest(s[j], base), store)
    {
    }
  }

  lemma ListedIsChecked(it: Tree, s: seq<Entry>, base: string, store: set<Oid>)
    requires AllBelow(s, base) && Listed(s, store)
    ensures Checked(it, s, base, store)
  {
  }

  /** What is left of the path of an entry inside a directory. */
  lemma RestInside(e: Entry, base: string, dir: string)
    requires Below(e, Inner(base, dir)) && Slash(dir) == |dir|
    ensures Below(e, base)
    ensures var path := Rest(e, base);
      Slash(path) == |dir| < |path| && path[..|dir|] == dir && path[|dir| + 1..] == Rest(e, Inner(base, dir))
  {
    hide Slash, Below;
    OnlyItsDirectory(e, base, dir);
    InnerLength(e, base, dir);
    InsideRest(e.name, |base|, |dir| + 1);
    assert |DirOf(e, base)| == Slash(Rest(e, base));
  }

  lemma InnerLength(e: Entry, base: string, dir: string)
    requires Below(e, Inner(base, dir))
    ensures |base| + |dir| + 1 < |e.name| && |Inner(base, dir)| == |base| + |dir| + 1
  {
  }

  lemma InsideRest(name: string, n: nat, m: nat)
    requires n + m <= |name|
    ensures name[n..][m..] == name[n + m..]
  {
  }

  /** The tree an array had under a name before the update began; an invalid one where it had none. */
  ghost predicate OriginOf(down0: seq<Sub>, name: string, tree: Tree) {
    || (exists x :: 0 <= x < |down0| && down0[x].name == name && down0[x].tree == tree)
    || (tree == EMPTY && !HasSub(down0, name))
  }

  lemma OneOrigin(down0: seq<Sub>, name: string, tree: Tree, x: nat)
    requires SortedNames(down0) && OriginOf(down0, name, tree) && x < |down0| && down0[x].name == name
    ensures down0[x].tree == tree
  {
    assert HasSub(down0, name);
    var y :| 0 <= y < |down0| && down0[y].name == name && down0[y].tree == tree;
    SubLessOrder(name, name, "");
  }

  /** An entry in a directory is below a node taken over exactly when it is so inside the directory. */
  lemma ReusedInside(down0: seq<Sub>, e: Entry, base: string, dir: string, tree: Tree, store: set<Oid>)
    requires SortedNames(down0) && OriginOf(down0, dir, tree)
    requires Below(e, Inner(base, dir)) && Slash(dir) == |dir|
    ensures Below(e, base)
    ensures ReusedBelow(down0, Rest(e, base), store) <==> Reused(tree, Rest(e, Inner(base, dir)), store)
  {
    hide Slash, SubLess, Inner, Rest, Below;
    RestInside(e, base, dir);
    var path, rest := Rest(e, base), Rest(e, Inner(base, dir));
    if ReusedBelow(down0, path, store) {
      var k :| 0 <= k < |down0| && down0[k].name == dir && Reused(down0[k].tree, rest, store);
      OneOrigin(down0, dir, tree, k);
    }
    if Reused(tree, rest, store) {
      NotReusedEmpty(rest, store);
      var x :| 0 <= x < |down0| && down0[x].name == dir && down0[x].tree == tree;
      assert down0[x].name == path[..|dir|] && Reused(down0[x].tree, path[|dir| + 1..], store);
    }
  }

  lemma NotReusedEmpty(path: string, store: set<Oid>)
    ensures !Reused(EMPTY, path, store)
  {
  }

  /** What the first loop needs, it needs of each directory. */
  lemma CheckedInside(down0: seq<Sub>, s: seq<Entry>, base: string, dir: string, tree: Tree, store: set<Oid>)
    requires Index(s) && AllBelow(s, base) && SortedNames(down0) && OriginOf(down0, dir, tree)
    requires Slash(dir) == |dir| && DirsChecked(down0, s, base, |s|, store)
    ensures AllBelow(Under(s, Inner(base, dir)), Inner(base, dir))
    ensures Checked(tree, Under(s, Inner(base, dir)), Inner(base, dir), store)
  {
    hide Slash, SubLess, Inner, Rest, Below, Reused, ReusedBelow, OriginOf, Stored, IsFile, DirOf, Under, Index,
      SortedNames;
    var inner := Inner(base, dir);
    var u := Under(s, inner);
    UnderIsIndex(s, inner);
    UnderMembers(s, inner);
    forall k | 0 <= k < |u|
      ensures Stored(u[k], store) || Reused(tree, Rest(u[k], inner), store)
    {
      assert u[k] in u;
      var j :| 0 <= j < |s| && s[j] == u[k];
      OnlyItsDirectory(u[k], base, dir);
      ReusedInside(down0, u[k], base, dir, tree, store);
    }
  }

  /** What was found for one directory is found for the level. */
  lemma CheckedOutside(down0: seq<Sub>, s: seq<Entry>, base: string, i: nat, m: nat, dir: string, tree: Tree,
                       store: set<Oid>)
    requires Index(s) && AllBelow(s, base) && SortedNames(down0) && OriginOf(down0, dir, tree)
    requires Slash(dir) == |dir| && i + m <= |s| && Under(s, Inner(base, dir)) == s[i..i + m]
    requires AllBelow(s[i..i + m], Inner(base, dir)) && Checked(tree, s[i..i + m], Inner(base, dir), store)
    requires DirsChecked(down0, s, base, i, store)
    ensures DirsChecked(down0, s, base, i + m, store)
  {
    hide Slash, SubLess, Inner, Rest, Below, Reused, ReusedBelow, OriginOf, Stored, IsFile, Under, Index, SortedNames;
    var inner := Inner(base, dir);
    forall j | i <= j < i + m
      ensures Stored(s[j], store) || ReusedBelow(down0, Rest(s[j], base), store)
    {
      assert s[j] == s[i..i + m][j - i];
      ReusedInside(down0, s[j], base, dir, tree, store);
    }
  }

  /** The directories met so far are the used ones, and all others are as before the update. */
  ghost predicate Untouched(down0: seq<Sub>, down: seq<Sub>, s: seq<Entry>, base: string, i: nat)
    requires AllBelow(s, base) && i <= |s|
  {
    && (forall k :: 0 <= k < |down| && down[k].used ==> MetBefore(s, base, i, down[k].name))
    && (forall k :: 0 <= k < |down| && !down[k].used ==> HadSub(down0, down[k].name, down[k].tree))
    && (forall x :: 0 <= x < |down0| ==> HasSub(down, down0[x].name))
  }

  ghost predicate MetBefore(s: seq<Entry>, base: string, i: nat, name: string)
    requires AllBelow(s, base) && i <= |s|
  {
    exists j :: 0 <= j < i && !IsFile(s[j], base) && DirOf(s[j], base) == name
  }

  ghost predicate HadSub(down0: seq<Sub>, name: string, tree: Tree) {
    exists x :: 0 <= x < |down0| && down0[x].name == name && down0[x].tree == tree
  }

  lemma NoneMet(down0: seq<Sub>, down: seq<Sub>, s: seq<Entry>, base: string)
    requires AllBelow(s, base) && |down| == |down0|
    requires forall k :: 0 <= k < |down| ==>
      !down[k].used && down[k].name == down0[k].name && down[k].tree == down0[k].tree
    ensures Untouched(down0, down, s, base, 0)
  {
    assert forall x :: 0 <= x < |down0| ==> down[x].name == down0[x].name;
  }

  lemma MetFile(down0: seq<Sub>, down: seq<Sub>, s: seq<Entry>, base: string, i: nat, n: nat)
    requires AllBelow(s, base) && i <= n <= |s| && Untouched(down0, down, s, base, i)
    ensures Untouched(down0, down, s, base, n)
  {
    forall k | 0 <= k < |down| && down[k].used
      ensures MetBefore(s, base, n, down[k].name)
    {
      assert MetBefore(s, base, i, down[k].name);
    }
  }

  /** A directory whose turn comes has not been met, so its tree is the one from before the update. */
  lemma TurnComes(down0: seq<Sub>, d: seq<Sub>, down: seq<Sub>, s: seq<Entry>, base: string, i: nat, pos: nat)
    requires Index(s) && AllBelow(s, base) && i < |s| && Boundary(s, i, base) && !IsFile(s[i], base)
    requires Untouched(down0, d, s, base, i) && pos < |down| && down[pos].name == DirOf(s[i], base)
    requires FoundOrNew(d, down, pos, down[pos].name)
    ensures OriginOf(down0, down[pos].name, down[pos].tree) && !down[pos].used
  {
    hide Slash, Below, IsFile, DirOf, Index;
    var name := down[pos].name;
    if down == d && d[pos].used {
      assert MetBefore(s, base, i, name);
      var j :| 0 <= j < i && !IsFile(s[j], base) && DirOf(s[j], base) == name;
      assert Past(s, i, Inner(base, name));
      NameEnds(s, i);
      InItsDirectory(s[i], base);
      assert false;
    } else if down == d {
      assert HadSub(down0, name, down[pos].tree);
    } else {
      assert forall x :: 0 <= x < |down0| ==> HasSub(d, down0[x].name);
    }
  }

  lemma TurnDone(down0: seq<Sub>, d: seq<Sub>, down: seq<Sub>, s: seq<Entry>, base: string, i: nat, m: nat, pos: nat,
                 sub: Sub)
    requires AllBelow(s, base) && i < i + m <= |s| && !IsFile(s[i], base) && sub.used && sub.name == DirOf(s[i], base)
    requires Untouched(down0, d, s, base, i) && pos < |down| && down[pos].name == sub.name
    requires FoundOrNew(d, down, pos, sub.name)
    ensures Untouched(down0, down[pos := sub], s, base, i + m)
  {
    hide Slash, Below, IsFile, DirOf, AllBelow;
    var down' := down[pos := sub];
    forall k | 0 <= k < |down'|
      ensures down'[k].used ==> MetBefore(s, base, i + m, down'[k].name)
      ensures !down'[k].used ==> HadSub(down0, down'[k].name, down'[k].tree)
    {
      if k != pos {
        var x := if down == d || k < pos then k else k - 1;
        assert down'[k] == d[x];
        assert d[x].used ==> MetBefore(s, base, i, d[x].name);
      }
    }
    forall x | 0 <= x < |down0|
      ensures HasSub(down', down0[x].name)
    {
      assert HasSub(d, down0[x].name);
      var k :| 0 <= k < |d| && d[k].name == down0[x].name;
      assert down'[if down == d || k < pos then k else k + 1].name == d[k].name;
    }
  }

  lemma LevelOfGroup(cache: seq<Entry>, base: string, i: nat, s: seq<Entry>, inner: string)
    requires Index(cache) && s == Level(cache, base) && i < |s|
    requires Boundary(s, i, base) && !IsFile(s[i], base) && inner == Inner(base, DirOf(s[i], base))
    ensures Index(cache[i..]) && Run(cache[i..], inner) == Run(s[i..], inner)
    ensures Level(cache[i..], inner) == Under(s, inner)
    ensures Size(Level(cache[i..], inner), inner) < Size(s, base)
  {
    hide Less, Slash, Size, IsFile, DirOf, Run, Under, Index;
    IndexParts(cache, i);
    var m := Run(s[i..], inner);
    RunOfSuffix(cache, base, i, s, inner);
    assert Level(cache[i..], inner) == s[i..][..m];
    GroupIsRun(s, i, base, inner, m);
    SmallerGroup(s, base, i, m, inner);
  }

  lemma RunOfSuffix(cache: seq<Entry>, base: string, i: nat, s: seq<Entry>, inner: string)
    requires |s| <= |cache| && s == cache[..|s|] && i < |s| && (|s| < |cache| ==> !Below(cache[|s|], base))
    requires |base| < |inner| && inner[..|base|] == base
    ensures Run(cache[i..], inner) == Run(s[i..], inner)
    ensures var m := Run(s[i..], inner); i + m <= |s| && cache[i..][..m] == s[i..i + m] == s[i..][..m]
  {
    hide Run, Below;
    var a, b := s[i..], cache[|s|..];
    OutsideIsOutside(cache, |s|, base, inner);
    RunAppend(a, b, inner);
    Rejoin(cache, i, |s|);
    TakeFront(a, b, Run(a, inner));
    TakeMiddle(s, i, Run(a, inner));
  }

  lemma Rejoin(s: seq<Entry>, i: nat, n: nat)
    requires i <= n <= |s|
    ensures s[i..] == s[..n][i..] + s[n..]
  {
  }

  lemma TakeFront(a: seq<Entry>, b: seq<Entry>, m: nat)
    requires m <= |a|
    ensures (a + b)[..m] == a[..m]
  {
  }

  lemma TakeMiddle(s: seq<Entry>, i: nat, m: nat)
    requires i + m <= |s|
    ensures s[i..][..m] == s[i..i + m]
  {
  }

  lemma OutsideIsOutside(cache: seq<Entry>, n: nat, base: string, inner: string)
    requires n <= |cache| && (n < |cache| ==> !Below(cache[n], base))
    requires |base| < |inner| && inner[..|base|] == base
    ensures cache[n..] == [] || !Below(cache[n..][0], inner)
  {
    if n < |cache| {
      var name := cache[n].name;
      assert |inner| <= |name| ==> name[..|inner|][..|base|] == name[..|base|];
    }
  }

  lemma {:induction false} RunAppend(a: seq<Entry>, b: seq<Entry>, base: string)
    requires b == [] || !Below(b[0], base)
    ensures Run(a + b, base) == Run(a, base)
  {
    if a == [] {
      assert a + b == b;
    } else {
      assert (a + b)[1..] == a[1..] + b;
      RunAppend(a[1..], b, base);
    }
  }

  lemma SmallerGroup(s: seq<Entry>, base: string, i: nat, m: nat, inner: string)
    requires AllBelow(s, base) && i <= |s| && 1 <= m <= |s[i..]| && |base| < |inner|
    requires AllBelow(s[i..][..m], inner)
    ensures Size(s[i..][..m], inner) < Size(s, base)
  {
    var rest := s[i..];
    SizeSplit(s, base, i);
    SizeSplit(rest, base, m);
    SizeDeeper(rest[..m], base, inner);
  }

  lemma VisitFile(hash: Hash, it: Tree, s: seq<Entry>, base: string, i: nat)
    requires Index(s) && AllBelow(s, base) && i < |s| && Visited(hash, it, s, base, i) && IsFile(s[i], base)
    ensures Visited(hash, it, s, base, i + 1)
  {
    FileBoundary(s, i, base);
  }

  /** The first loop of update_one: every directory of the level is brought up to date. */
  method UpdateSubs(hash: Hash, it0: Tree, cache: seq<Entry>, base: string, store0: set<Oid>,
                    missingOk: bool, dryrun: bool)
    returns (ok: bool, it: Tree, store: set<Oid>)
    requires Index(cache) && CacheOk(hash, it0, Level(cache, base), base)
    ensures CacheOk(hash, it, Level(cache, base), base) && it.count == it0.count
    ensures ok ==> Visited(hash, it, Level(cache, base), base, |Level(cache, base)|)
    ensures ok ==> UsedStored(it.down, store, dryrun)
    ensures ok && !missingOk ==> DirsChecked(it0.down, Level(cache, base), base, |Level(cache, base)|, store)
    ensures missingOk ==> ok
    ensures DirsChecked(it0.down, Level(cache, base), base, |Level(cache, base)|, store0) ==>
      ((dryrun ==> TreesStored(hash, Level(cache, base), base, store0)) ==> ok)
    ensures store0 <= store && (dryrun ==> store == store0)
    ensures if ok then OnlyUsed(it.down, store0, store) else OnlyBelow(it.down, store0, store)
    decreases Size(Level(cache, base), base), 1
  {
    hide TreesStored, OnlyUsed, OnlyBelow, Less, Slash, Under, CacheOk, Matches, SubOk, Reused, ReusedBelow, Untouched,
      UsedStored, Visited, DirsChecked, IsFile, SortedNames;
    ghost var s := Level(cache, base);
    store := store0;
    it := ClearUsed(hash, it0, s, base);
    OkNames(hash, it0, s, base);
    NoneMet(it0.down, it.down, s, base);
    NoneUsed(it.down, store, dryrun);
    NoneChecked(it0.down, s, base, store);
    NothingWritten(it.down, store);
    var i := 0;
    while i < |cache| && Below(cache[i], base)
      invariant 0 <= i <= |s| && it.count == it0.count
      invariant Visited(hash, it, s, base, i) && Untouched(it0.down, it.down, s, base, i)
      invariant UsedStored(it.down, store, dryrun) && store0 <= store && (dryrun ==> store == store0)
      invariant !missingOk ==> DirsChecked(it0.down, s, base, i, store)
      invariant OnlyUsed(it.down, store0, store)
    {
      assert i < |s| && cache[i] == s[i];
      if IsFile(cache[i], base) {
        VisitFile(hash, it, s, base, i);
        MetFile(it0.down, it.down, s, base, i, i + 1);
        FileChecked(it0.down, s, base, i, store);
        i := i + 1;
      } else {
        var subcnt;
        DirsCheckedLater(it0.down, s, base, store0, store);
        TreesLater(hash, s, base, store0, store);
        subcnt, it, store := UpdateSub(hash, it, cache, base, i, store, missingOk, dryrun, s, it0.down, store0);
        if subcnt < 0 {
          return false, it, store;
        }
        i := i + subcnt;
      }
    }
    VisitedIsOk(hash, it, s, base, i);
    return true, it, store;
  }

  lemma OkNames(hash: Hash, it: Tree, s: seq<Entry>, base: string)
    requires Index(s) && AllBelow(s, base) && CacheOk(hash, it, s, base)
    ensures SortedNames(it.down)
  {
  }

  lemma NothingWritten(down: seq<Sub>, store: set<Oid>)
    ensures OnlyUsed(down, store, store)
  {
  }

  lemma NoneChecked(down: seq<Sub>, s: seq<Entry>, base: string, store: set<Oid>)
    requires AllBelow(s, base)
    ensures DirsChecked(down, s, base, 0, store)
  {
  }

  lemma FileChecked(down: seq<Sub>, s: seq<Entry>, base: string, i: nat, store: set<Oid>)
    requires AllBelow(s, base) && i < |s| && IsFile(s[i], base)
    ensures DirsChecked(down, s, base, i, store) ==> DirsChecked(down, s, base, i + 1, store)
  {
    hide IsFile, ReusedBelow;
  }

  lemma NoneUsed(down: seq<Sub>, store: set<Oid>, dryrun: bool)
    requires forall k :: 0 <= k < |down| ==> !down[k].used
    ensures UsedStored(down, store, dryrun)
  {
  }

  lemma DirsCheckedLater(down: seq<Sub>, s: seq<Entry>, base: string, store0: set<Oid>, store: set<Oid>)
    requires AllBelow(s, base) && store0 <= store
    ensures DirsChecked(down, s, base, |s|, store0) ==> DirsChecked(down, s, base, |s|, store)
  {
    hide Reused, ReusedBelow, DirsChecked;
    if DirsChecked(down, s, base, |s|, store0) {
      DirsCheckedMore(down, s, base, |s|, store0, store);
    }
  }

  /** What is known of a subtree when its turn comes. */
  lemma AtGroup(hash: Hash, it: Tree, s: seq<Entry>, base: string, i: nat, pos: nat, inner: string)
    requires Index(s) && AllBelow(s, base) && i < |s| && Visited(hash, it, s, base, i)
    requires pos < |it.down| && inner == Inner(base, it.down[pos].name)
    ensures Boundary(s, i, base) && CacheOk(hash, it, s, base)
    ensures Index(Under(s, inner)) && AllBelow(Under(s, inner), inner)
    ensures CacheOk(hash, it.down[pos].tree, Under(s, inner), inner)
  {
    hide Less, Under, Slash, Matches, Boundary;
    UnderIsIndex(s, inner);
    assert SubOk(hash, it.down[pos], s, base);
  }

  lemma SubFailed(hash: Hash, it: Tree, s: seq<Entry>, base: string, pos: nat, inner: string, tree: Tree, r: int)
    requires Index(s) && AllBelow(s, base) && CacheOk(hash, it, s, base)
    requires pos < |it.down| && inner == Inner(base, it.down[pos].name)
    requires Index(Under(s, inner)) && AllBelow(Under(s, inner), inner)
    requires Updated(hash, it.down[pos].tree, tree, Under(s, inner), inner, r)
    ensures CacheOk(hash, it.(down := it.down[pos := it.down[pos].(tree := tree)]), s, base)
  {
    hide Less, Under, Slash, Matches, CacheOk;
    ReplaceSub(hash, it, s, base, pos, it.down[pos].(tree := tree));
  }

  lemma SubFinished(hash: Hash, it: Tree, s: seq<Entry>, base: string, i: nat, pos: nat, inner: string, tree: Tree,
                    r: int)
    requires Index(s) && AllBelow(s, base) && i < |s| && Visited(hash, it, s, base, i) && !IsFile(s[i], base)
    requires pos < |it.down| && it.down[pos].name == DirOf(s[i], base) && inner == Inner(base, it.down[pos].name)
    requires Index(Under(s, inner)) && AllBelow(Under(s, inner), inner) && r >= 0
    requires Updated(hash, it.down[pos].tree, tree, Under(s, inner), inner, r)
    ensures 0 < r && i + r <= |s|
    ensures Visited(hash, it.(down := it.down[pos := Sub(it.down[pos].name, tree, r, true)]), s, base, i + r)
  {
    hide Less, Under, Slash, Run, Matches, CacheOk, IsFile, DirOf;
    var m := Run(s[i..], inner);
    GroupIsRun(s, i, base, inner, m);
    FinishSub(hash, it, s, base, i, m, pos, tree);
  }

  lemma StoredToo(down: seq<Sub>, pos: nat, sub: Sub, store0: set<Oid>, store: set<Oid>, dryrun: bool)
    requires UsedStored(down, store0, dryrun) && store0 <= store && pos < |down|
    requires dryrun || sub.tree.oid in store
    ensures UsedStored(down[pos := sub], store, dryrun)
  {
  }

  lemma StoredSame(down0: seq<Sub>, down: seq<Sub>, store: set<Oid>, dryrun: bool)
    requires UsedStored(down0, store, dryrun)
    requires forall k :: 0 <= k < |down| && down[k].used ==> down[k] in down0
    ensures UsedStored(down, store, dryrun)
  {
  }

  lemma LevelAt(cache: seq<Entry>, base: string, i: nat, s: seq<Entry>)
    requires Index(cache) && s == Level(cache, base) && i < |s|
    ensures i < |cache| && cache[i] == s[i] && Index(s) && AllBelow(s, base) && Below(cache[i], base)
  {
  }

  lemma VisitedIsOk(hash: Hash, it: Tree, s: seq<Entry>, base: string, i: nat)
    requires Index(s) && AllBelow(s, base) && i <= |s| && Visited(hash, it, s, base, i)
    ensures CacheOk(hash, it, s, base) && SortedDown(it.down)
  {
  }

  /** One directory of the level; down0 is the array from before the update. */
  method UpdateSub(hash: Hash, it0: Tree, cache: seq<Entry>, base: string, i: nat, store0: set<Oid>,
                   missingOk: bool, dryrun: bool, ghost s: seq<Entry>, ghost down0: seq<Sub>, ghost start: set<Oid>)
    returns (subcnt: int, it: Tree, store: set<Oid>)
    requires Index(cache) && s == Level(cache, base) && i < |s|
    requires Visited(hash, it0, s, base, i) && !IsFile(cache[i], base)
    requires UsedStored(it0.down, store0, dryrun)
    requires SortedNames(down0) && Untouched(down0, it0.down, s, base, i) && OnlyUsed(it0.down, start, store0)
    ensures CacheOk(hash, it, s, base) && it.count == it0.count
    ensures subcnt >= 0 ==> subcnt > 0 && i + subcnt <= |s| && Visited(hash, it, s, base, i + subcnt)
    ensures subcnt >= 0 ==> UsedStored(it.down, store, dryrun)
    ensures subcnt >= 0 ==> i + subcnt <= |s| && Untouched(down0, it.down, s, base, i + subcnt)
    ensures subcnt >= 0 && !missingOk && DirsChecked(down0, s, base, i, store0) ==>
      i + subcnt <= |s| && DirsChecked(down0, s, base, i + subcnt, store)
    ensures missingOk ==> subcnt >= 0
    ensures DirsChecked(down0, s, base, |s|, store0) && (dryrun ==> TreesStored(hash, s, base, store0)) ==> subcnt >= 0
    ensures store0 <= store && (dryrun ==> store == store0)
    ensures if subcnt >= 0 then OnlyUsed(it.down, start, store) else OnlyBelow(it.down, start, store)
    decreases Size(s, base), 0
  {
    hide Less, AtMost, Slash, Run, Under, Matches, CacheOk, SubOk, SubMatches, Visited, Boundary, UsedStored,
      Items, Index, AllBelow, Size, Updated, Level, IsFile, DirOf, Checked, DirsChecked, Untouched, OriginOf,
      SortedNames, FoundOrNew, HasUsed, OnlyUsed, OnlyBelow, OnlyTrees, TreesStored;
    LevelAt(cache, base, i, s);
    var name := DirOf(cache[i], base);
    var pos;
    it, pos := FindOrCreate(hash, it0, name, s, base, i);
    StoredSame(it0.down, it.down, store0, dryrun);
    ghost var inner := Inner(base, name);
    AtGroup(hash, it, s, base, i, pos, inner);
    TurnComes(down0, it0.down, it.down, s, base, i, pos);
    LevelOfGroup(cache, base, i, s, inner);
    NoSlashInDir(cache[i], base);
    CheckedInsideIf(down0, s, base, name, it.down[pos].tree, store0);
    TreesInside(hash, s, base, inner, store0);
    ghost var tree0, down := it.down[pos].tree, it.down;
    var tree;
    subcnt, tree, store := UpdateOne(hash, it.down[pos].tree, cache[i..], Inner(base, name), store0, missingOk, dryrun);
    OnlyUsedSame(it0.down, it.down, pos, name, start, store0);
    if subcnt < 0 {
      OnlyUsedMore(it.down, pos, it.down[pos].(tree := tree), start, store0, store);
      SubFailed(hash, it, s, base, pos, inner, tree, subcnt);
      it := it.(down := it.down[pos := it.down[pos].(tree := tree)]);
      return;
    }
    SubFinished(hash, it, s, base, i, pos, inner, tree, subcnt);
    StoredToo(it.down, pos, Sub(name, tree, subcnt, true), store0, store, dryrun);
    OnlyUsedMore(it.down, pos, Sub(name, tree, subcnt, true), start, store0, store);
    TurnDone(down0, it0.down, it.down, s, base, i, subcnt, pos, Sub(name, tree, subcnt, true));
    it := it.(down := it.down[pos := Sub(it.down[pos].name, tree, subcnt, true)]);
    VisitedIsOk(hash, it, s, base, i + subcnt);
    CheckedOutsideIf(hash, down0, s, base, i, subcnt, inner, tree0, tree, store0, store);
  }

  lemma CheckedInsideIf(down0: seq<Sub>, s: seq<Entry>, base: string, dir: string, tree: Tree, store: set<Oid>)
    requires Index(s) && AllBelow(s, base) && SortedNames(down0) && OriginOf(down0, dir, tree) && Slash(dir) == |dir|
    ensures AllBelow(Under(s, Inner(base, dir)), Inner(base, dir))
    ensures DirsChecked(down0, s, base, |s|, store) ==>
      Checked(tree, Under(s, Inner(base, dir)), Inner(base, dir), store)
  {
    hide Slash, Checked, DirsChecked, Under, OriginOf, SortedNames, Index, AllBelow;
    UnderIsIndex(s, Inner(base, dir));
    if DirsChecked(down0, s, base, |s|, store) {
      CheckedInside(down0, s, base, dir, tree, store);
    }
  }

  lemma CheckedOutsideIf(hash: Hash, down0: seq<Sub>, s: seq<Entry>, base: string, i: nat, r: int, inner: string,
                         tree0: Tree, tree: Tree, store0: set<Oid>, store: set<Oid>)
    requires Index(s) && AllBelow(s, base) && i < |s| && Boundary(s, i, base) && !IsFile(s[i], base)
    requires inner == Inner(base, DirOf(s[i], base)) && SortedNames(down0) && OriginOf(down0, DirOf(s[i], base), tree0)
    requires Index(Under(s, inner)) && AllBelow(Under(s, inner), inner) && r >= 0 && store0 <= store
    requires Updated(hash, tree0, tree, Under(s, inner), inner, r)
    ensures i + r <= |s|
    ensures DirsChecked(down0, s, base, i, store0) && Checked(tree0, Under(s, inner), inner, store) ==>
      DirsChecked(down0, s, base, i + r, store)
  {
    hide Less, Slash, Run, Under, Matches, CacheOk, Index, Checked, DirsChecked, IsFile, DirOf, Boundary,
      SortedNames, OriginOf;
    GroupIsRun(s, i, base, inner, Run(s[i..], inner));
    NoSlashInDir(s[i], base);
    if DirsChecked(down0, s, base, i, store0) && Checked(tree0, Under(s, inner), inner, store) {
      DirsCheckedMore(down0, s, base, i, store0, store);
      CheckedOutside(down0, s, base, i, r, DirOf(s[i], base), tree0, store);
    }
  }

  // ---------------------------------------------------------------- second loop: the tree object

  /** Exactly the directories of the level are present, and all are done. */
  ghost predicate Complete(hash: Hash, it: Tree, s: seq<Entry>, base: string)
    requires Index(s) && AllBelow(s, base)
  {
    && SortedDown(it.down)
    && (forall k :: 0 <= k < |it.down| ==> SubDone(hash, it.down[k], s, base))
    && (forall j :: 0 <= j < |s| && !IsFile(s[j], base) ==> HasSub(it.down, DirOf(s[j], base)))
  }

  /** discard_unused_subtrees: the used entries move to the front, the rest is cut off. */
  method DiscardUnused(hash: Hash, it0: Tree, ghost s: seq<Entry>, ghost base: string) returns (it: Tree)
    requires Index(s) && AllBelow(s, base) && Visited(hash, it0, s, base, |s|)
    ensures Complete(hash, it, s, base) && CacheOk(hash, it, s, base)
    ensures it.count == it0.count
    ensures forall k :: 0 <= k < |it.down| ==> it.down[k].used && it.down[k] in it0.down
    ensures forall k :: 0 <= k < |it0.down| && it0.down[k].used ==> it0.down[k] in it.down
  {
    hide Visited, CacheOk, Complete, UsedFront, Index, AllBelow, SortedDown;
    var down: seq<Sub> := [];
    NoneInFront(hash, it0, s, base);
    var src := 0;
    while src < |it0.down|
      invariant 0 <= src <= |it0.down|
      invariant UsedFront(it0.down, src, down)
    {
      NextInFront(it0.down, src, down);
      if it0.down[src].used {
        down := down + [it0.down[src]];
      }
      src := src + 1;
    }
    it := it0.(down := down);
    AllInFront(it0.down, down);
    UsedAreComplete(hash, it0, it, s, base);
  }

  /** down holds the used entries among the first src, in order and before what is still to come. */
  ghost predicate UsedFront(all: seq<Sub>, src: nat, down: seq<Sub>)
    requires src <= |all|
  {
    && SortedDown(all) && SortedDown(down)
    && (forall k :: 0 <= k < |down| ==> down[k].used && down[k] in all[..src])
    && (forall k :: 0 <= k < src && all[k].used ==> all[k] in down)
  }

  lemma NoneInFront(hash: Hash, it: Tree, s: seq<Entry>, base: string)
    requires Index(s) && AllBelow(s, base) && Visited(hash, it, s, base, |s|)
    ensures UsedFront(it.down, 0, [])
  {
    hide Less, Slash, Under;
  }

  lemma NextInFront(all: seq<Sub>, src: nat, down: seq<Sub>)
    requires src < |all| && UsedFront(all, src, down)
    ensures UsedFront(all, src + 1, if all[src].used then down + [all[src]] else down)
  {
    hide SortedDown;
    var sub := all[src];
    var more := if sub.used then down + [sub] else down;
    if sub.used {
      DroppedInOrder(all, src, down);
      LastSorted(all, src, down);
    }
    forall k | 0 <= k < |more|
      ensures more[k].used && more[k] in all[..src + 1]
    {
      assert all[..src + 1] == all[..src] + [sub];
    }
    forall k | 0 <= k < src + 1 && all[k].used
      ensures all[k] in more
    {
      assert k < src ==> all[k] in down;
    }
  }

  lemma LastSorted(all: seq<Sub>, src: nat, down: seq<Sub>)
    requires src < |all| && SortedDown(all) && SortedDown(down)
    requires forall k :: 0 <= k < |down| ==> SubLess(down[k].name, all[src].name)
    ensures SortedDown(down + [all[src]])
  {
    hide SubLess, Slash;
  }

  lemma AllInFront(all: seq<Sub>, down: seq<Sub>)
    requires UsedFront(all, |all|, down)
    ensures SortedDown(down)
    ensures forall k :: 0 <= k < |down| ==> down[k].used && down[k] in all
    ensures forall k :: 0 <= k < |all| && all[k].used ==> all[k] in down
  {
    hide Less, SubLess, Slash;
    assert all[..|all|] == all;
  }

  lemma DroppedInOrder(all: seq<Sub>, src: nat, down: seq<Sub>)
    requires SortedDown(all) && src < |all|
    requires forall k :: 0 <= k < |down| ==> down[k] in all[..src]
    ensures forall k :: 0 <= k < |down| ==> SubLess(down[k].name, all[src].name)
  {
    hide SubLess;
  }

  lemma UsedAreComplete(hash: Hash, it0: Tree, it: Tree, s: seq<Entry>, base: string)
    requires Index(s) && AllBelow(s, base) && Visited(hash, it0, s, base, |s|)
    requires it.count == it0.count && it.oid == it0.oid && SortedDown(it.down)
    requires forall k :: 0 <= k < |it.down| ==> it.down[k].used && it.down[k] in it0.down
    requires forall k :: 0 <= k < |it0.down| && it0.down[k].used ==> it0.down[k] in it.down
    ensures Complete(hash, it, s, base) && CacheOk(hash, it, s, base)
  {
    hide AtMost, Slash, Under, SubLess;
    forall k | 0 <= k < |it.down|
      ensures SubDone(hash, it.down[k], s, base) && SubOk(hash, it.down[k], s, base)
    {
      var x :| 0 <= x < |it0.down| && it0.down[x] == it.down[k];
      assert SubDone(hash, it0.down[x], s, base);
    }
    forall j | 0 <= j < |s| && !IsFile(s[j], base)
      ensures HasSub(it.down, DirOf(s[j], base))
    {
      assert HasUsed(it0.down, DirOf(s[j], base));
      var x :| 0 <= x < |it0.down| && it0.down[x].name == DirOf(s[j], base) && it0.down[x].used;
      var k :| 0 <= k < |it.down| && it.down[k] == it0.down[x];
    }
  }

  lemma FirstItem(hash: Hash, s: seq<Entry>, base: string, m: nat)
    requires Index(s) && AllBelow(s, base) && s != [] && !IsFile(s[0], base)
    requires m == Run(s, Inner(base, DirOf(s[0], base)))
    ensures Index(s[..m]) && AllBelow(s[..m], Inner(base, DirOf(s[0], base))) && Index(s[m..]) && AllBelow(s[m..], base)
    ensures Items(hash, s, base)
         == [Item(DIR_MODE, DirOf(s[0], base), TreeId(hash, s[..m], Inner(base, DirOf(s[0], base))))]
            + Items(hash, s[m..], base)
  {
    FirstGroup(s, base);
  }

  lemma FirstFile(hash: Hash, t: seq<Entry>, base: string)
    requires Index(t) && AllBelow(t, base) && t != [] && IsFile(t[0], base)
    ensures Items(hash, t, base) == [Item(t[0].mode, Rest(t[0], base), t[0].oid)] + Items(hash, t[1..], base)
  {
    SizeSplit(t, base, 1);
  }

  /** The finished entry of a directory holds the id and the extent of its group. */
  lemma NextGroup(hash: Hash, it: Tree, s: seq<Entry>, base: string, i: nat, sub: Sub, inner: string, m: nat,
                  group: seq<Entry>)
    requires Index(s) && AllBelow(s, base) && i < |s| && Complete(hash, it, s, base) && Boundary(s, i, base)
    requires !IsFile(s[i], base) && sub in it.down && sub.name == DirOf(s[i], base)
    requires inner == Inner(base, sub.name) && m == Run(s[i..], inner) && group == s[i..][..m]
    ensures 1 <= m == sub.count && i + m <= |s| && Boundary(s, i + m, base)
    ensures Index(group) && AllBelow(group, inner) && sub.tree.oid == TreeId(hash, group, inner)
  {
    hide AtMost, Slash, Run, Boundary, Items, Inner;
    GroupIsRun(s, i, base, inner, m);
    assert SubDone(hash, sub, s, base);
    UnderIsIndex(s, inner);
    assert Matches(hash, sub.tree, Under(s, inner), inner);
    assert group == s[i..i + m];
  }

  lemma FileLine(hash: Hash, base: string, s: seq<Entry>, i: nat, t: seq<Entry>) returns (rest: seq<Entry>)
    requires Index(s) && AllBelow(s, base) && i < |s| && Boundary(s, i, base) && IsFile(s[i], base)
    requires t == s[i..] && Index(t) && AllBelow(t, base)
    ensures Boundary(s, i + 1, base) && rest == s[i + 1..] && Index(rest) && AllBelow(rest, base)
    ensures Items(hash, t, base) == [Item(s[i].mode, Rest(s[i], base), s[i].oid)] + Items(hash, rest, base)
  {
    FileBoundary(s, i, base);
    FirstFile(hash, t, base);
    rest := s[i + 1..];
    SuffixIsIndex(s, i + 1, base);
    assert t[0] == s[i] && t[1..] == rest;
  }

  /** Line k stands for the entries from cuts[k] to cuts[k + 1]: one file, or all there is in one directory, whose line
      bears the id of the tree built from them alone. */
  ghost predicate LineAt(hash: Hash, s: seq<Entry>, base: string, lo: nat, hi: nat, item: Item)
    requires Index(s) && AllBelow(s, base)
  {
    && lo < hi <= |s|
    && (IsFile(s[lo], base) ==> hi == lo + 1 && item == Item(s[lo].mode, Rest(s[lo], base), s[lo].oid))
    && (!IsFile(s[lo], base) ==>
         var inner := Inner(base, DirOf(s[lo], base));
         UnderIsIndex(s, inner);
         && s[lo..hi] == Under(s, inner)
         && item == Item(DIR_MODE, DirOf(s[lo], base), TreeId(hash, Under(s, inner), inner)))
  }

  /** The lines cover the entries from i on, in order and without gap. */
  ghost predicate Laid(hash: Hash, s: seq<Entry>, base: string, i: nat, cuts: seq<nat>, items: seq<Item>)
    requires Index(s) && AllBelow(s, base) && i <= |s|
  {
    && |cuts| == |items| + 1 && cuts[0] == i && cuts[|items|] == |s|
    && forall k :: 0 <= k < |items| ==> LineAt(hash, s, base, cuts[k], cuts[k + 1], items[k])
  }

  lemma LaidMore(hash: Hash, s: seq<Entry>, base: string, i: nat, n: nat, cuts: seq<nat>, item: Item, items: seq<Item>)
    requires Index(s) && AllBelow(s, base) && LineAt(hash, s, base, i, n, item) && Laid(hash, s, base, n, cuts, items)
    ensures Laid(hash, s, base, i, [i] + cuts, [item] + items)
  {
    hide LineAt, Index, AllBelow;
    var c, t := [i] + cuts, [item] + items;
    forall k | 0 <= k < |t|
      ensures LineAt(hash, s, base, c[k], c[k + 1], t[k])
    {
      assert k > 0 ==> c[k] == cuts[k - 1] && t[k] == items[k - 1];
      assert c[k + 1] == cuts[k];
    }
  }

  /** The tree object of a level lists each file once and each directory once, in index order, and nothing else. */
  lemma {:induction false} ItemsByPlace(hash: Hash, s: seq<Entry>, base: string, i: nat) returns (cuts: seq<nat>)
    requires Index(s) && AllBelow(s, base) && i <= |s| && Boundary(s, i, base)
    ensures Index(s[i..]) && AllBelow(s[i..], base)
    ensures Laid(hash, s, base, i, cuts, Items(hash, s[i..], base))
    decreases |s| - i
  {
    hide Less, Slash, Under, Run, Items, Boundary, IsFile, DirOf, LineAt, Laid, Index, AllBelow, Below;
    SuffixIsIndex(s, i, base);
    if i == |s| {
      cuts := [|s|];
      NothingLaid(hash, s, base);
    } else if FileAt(s, i, base) {
      var rest := FileLine(hash, base, s, i, s[i..]);
      cuts := ItemsByPlace(hash, s, base, i + 1);
      FileLaid(hash, s, base, i);
      LaidMore(hash, s, base, i, i + 1, cuts, Item(s[i].mode, RestAt(s, i, base), s[i].oid), Items(hash, rest, base));
      cuts := [i] + cuts;
    } else {
      var m, item := DirLaid(hash, s, base, i);
      SuffixIsIndex(s, i + m, base);
      cuts := ItemsByPlace(hash, s, base, i + m);
      LaidMore(hash, s, base, i, i + m, cuts, item, Items(hash, s[i + m..], base));
      cuts := [i] + cuts;
    }
  }

  ghost predicate FileAt(s: seq<Entry>, i: nat, base: string)
    requires AllBelow(s, base) && i < |s|
  {
    IsFile(s[i], base)
  }

  ghost function RestAt(s: seq<Entry>, i: nat, base: string): string
    requires AllBelow(s, base) && i < |s|
  {
    Rest(s[i], base)
  }

  lemma NothingLaid(hash: Hash, s: seq<Entry>, base: string)
    requires Index(s) && AllBelow(s, base)
    ensures Index(s[|s|..]) && AllBelow(s[|s|..], base) && Laid(hash, s, base, |s|, [|s|], Items(hash, s[|s|..], base))
  {
    hide Less;
  }

  lemma FileLaid(hash: Hash, s: seq<Entry>, base: string, i: nat)
    requires Index(s) && AllBelow(s, base) && i < |s| && IsFile(s[i], base)
    ensures LineAt(hash, s, base, i, i + 1, Item(s[i].mode, RestAt(s, i, base), s[i].oid))
  {
    hide Index, Under, IsFile, Below;
  }

  lemma DirLaid(hash: Hash, s: seq<Entry>, base: string, i: nat) returns (m: nat, item: Item)
    requires Index(s) && AllBelow(s, base) && i < |s| && Boundary(s, i, base) && !IsFile(s[i], base)
    ensures 1 <= m && i + m <= |s| && Boundary(s, i + m, base) && LineAt(hash, s, base, i, i + m, item)
    ensures Index(s[i..]) && AllBelow(s[i..], base) && Index(s[i + m..]) && AllBelow(s[i + m..], base)
    ensures Items(hash, s[i..], base) == [item] + Items(hash, s[i + m..], base)
  {
    hide Less, Slash, Under, Run, Items, Boundary, IsFile, DirOf, Index, Below, Inner;
    var dir := DirOf(s[i], base);
    var inner := Inner(base, dir);
    m := Run(s[i..], inner);
    GroupIsRun(s, i, base, inner, m);
    UnderIsIndex(s, inner);
    item := Item(DIR_MODE, dir, TreeId(hash, Under(s, inner), inner));
    SuffixIsIndex(s, i, base);
    SuffixIsIndex(s, i + m, base);
    FirstItem(hash, s[i..], base, m);
    assert s[i..][..m] == s[i..i + m] && s[i..][m..] == s[i + m..];
  }

  lemma SuffixIsIndex(s: seq<Entry>, k: nat, base: string)
    requires Index(s) && AllBelow(s, base) && k <= |s|
    ensures Index(s[k..]) && AllBelow(s[k..], base)
  {
    hide Less, Below;
  }

  lemma DirLine(hash: Hash, it: Tree, base: string, s: seq<Entry>, i: nat, t: seq<Entry>, pos: nat)
    returns (rest: seq<Entry>)
    requires Index(s) && AllBelow(s, base) && i < |s| && Complete(hash, it, s, base) && Boundary(s, i, base)
    requires !IsFile(s[i], base) && pos < |it.down| && it.down[pos].name == DirOf(s[i], base)
    requires t == s[i..] && Index(t) && AllBelow(t, base)
    ensures var count := it.down[pos].count;
      1 <= count && i + count <= |s| && Boundary(s, i + count, base) && rest == s[i + count..]
    ensures Index(rest) && AllBelow(rest, base)
    ensures Items(hash, t, base)
         == [Item(DIR_MODE, it.down[pos].name, it.down[pos].tree.oid)] + Items(hash, rest, base)
    ensures forall j :: i <= j < i + it.down[pos].count && j < |s| ==>
      !IsFile(s[j], base) && DirOf(s[j], base) == it.down[pos].name
  {
    hide AtMost, Slash, Under, Run, Size, Items, Boundary, Complete;
    var inner := Inner(base, it.down[pos].name);
    var m := Run(s[i..], inner);
    NextGroup(hash, it, s, base, i, it.down[pos], inner, m, s[i..][..m]);
    var count := it.down[pos].count;
    FirstItem(hash, t, base, count);
    rest := s[i + count..];
    SuffixIsIndex(s, i + count, base);
    assert t[count..] == rest;
    SameDirectory(s, i, base, m);
  }

  /** All entries of a group are in the one directory. */
  lemma SameDirectory(s: seq<Entry>, i: nat, base: string, m: nat)
    requires Index(s) && AllBelow(s, base) && i < |s| && Boundary(s, i, base) && !IsFile(s[i], base)
    requires m == Run(s[i..], Inner(base, DirOf(s[i], base)))
    ensures forall j :: i <= j < i + m && j < |s| ==> !IsFile(s[j], base) && DirOf(s[j], base) == DirOf(s[i], base)
  {
    hide Slash, Run, Boundary, IsFile, DirOf, Below;
    GroupRange(s, i, base);
    NoSlashInDir(s[i], base);
    forall j | i <= j < i + m && j < |s|
      ensures !IsFile(s[j], base) && DirOf(s[j], base) == DirOf(s[i], base)
    {
      OnlyItsDirectory(s[j], base, DirOf(s[i], base));
    }
  }

  /** The line for the entry at i, and how many entries it stands for. */
  method NextLine(hash: Hash, it: Tree, e: Entry, base: string, ghost s: seq<Entry>, ghost i: nat, ghost t: seq<Entry>)
    returns (item: Item, count: nat, ghost rest: seq<Entry>)
    requires Index(s) && AllBelow(s, base) && i < |s| && e == s[i]
    requires Complete(hash, it, s, base) && Boundary(s, i, base)
    requires t == s[i..] && Index(t) && AllBelow(t, base)
    ensures 1 <= count && i + count <= |s| && Boundary(s, i + count, base)
    ensures rest == s[i + count..] && Index(rest) && AllBelow(rest, base)
    ensures Items(hash, t, base) == [item] + Items(hash, rest, base)
    ensures IsFile(e, base) ==> item.mode == e.mode && item.oid == e.oid && count == 1
    ensures !IsFile(e, base) ==> item.mode == DIR_MODE && Directory(it.down, s, base, i, count, item.oid)
  {
    hide AtMost, Slash, Under, Run, Size, Items, Boundary;
    if IsFile(e, base) {
      rest := FileLine(hash, base, s, i, t);
      return Item(e.mode, Rest(e, base), e.oid), 1, rest;
    }
    var pos := SubtreePos(it.down, DirOf(e, base));
    if pos < 0 {
      GoesAtIsAbsent(it.down, DirOf(e, base), -1 - pos);
      assert false;
    }
    item, count := Item(DIR_MODE, it.down[pos].name, it.down[pos].tree.oid), it.down[pos].count;
    rest := DirLine(hash, it, base, s, i, t, pos);
  }

  /** The entries from i on are in one directory, and the id is that of its subtree. */
  ghost predicate Directory(down: seq<Sub>, s: seq<Entry>, base: string, i: nat, count: nat, oid: Oid)
    requires AllBelow(s, base) && i + count <= |s|
  {
    exists pos :: 0 <= pos < |down| && down[pos].tree.oid == oid
      && forall j :: i <= j < i + count ==> !IsFile(s[j], base) && DirOf(s[j], base) == down[pos].name
  }

  /** Whatever was listed up to i is in the store. */
  ghost predicate AllThere(down: seq<Sub>, s: seq<Entry>, base: string, i: nat, store: set<Oid>)
    requires AllBelow(s, base) && i <= |s|
  {
    && (forall j :: 0 <= j < i && IsFile(s[j], base) ==> Stored(s[j], store))
    && (forall j, k :: 0 <= j < i && !IsFile(s[j], base) && 0 <= k < |down| && down[k].name == DirOf(s[j], base)
          ==> down[k].tree.oid in store)
  }

  lemma LineThere(down: seq<Sub>, s: seq<Entry>, base: string, i: nat, count: nat, item: Item, store: set<Oid>)
    requires AllBelow(s, base) && 1 <= count && i + count <= |s| && SortedNames(down)
    requires AllThere(down, s, base, i, store) && (item.mode == GITLINK_MODE || item.oid in store)
    requires IsFile(s[i], base) ==> item.mode == s[i].mode && item.oid == s[i].oid && count == 1
    requires !IsFile(s[i], base) ==> item.mode == DIR_MODE && Directory(down, s, base, i, count, item.oid)
    ensures AllThere(down, s, base, i + count, store)
  {
    hide Below, IsFile, DirOf, SubLess;
    if !IsFile(s[i], base) {
      var pos :| 0 <= pos < |down| && down[pos].tree.oid == item.oid
        && forall j :: i <= j < i + count ==> !IsFile(s[j], base) && DirOf(s[j], base) == down[pos].name;
      forall k | 0 <= k < |down| && down[k].name == down[pos].name
        ensures k == pos
      {
        SubLessOrder(down[k].name, down[pos].name, "");
      }
    }
  }

  /** A line whose object is missing stands for a file or a subtree whose object is missing. */
  lemma LineMissing(down: seq<Sub>, s: seq<Entry>, base: string, i: nat, count: nat, item: Item, store: set<Oid>)
    requires AllBelow(s, base) && 1 <= count && i + count <= |s|
    requires item.mode != GITLINK_MODE && item.oid !in store
    requires IsFile(s[i], base) ==> item.mode == s[i].mode && item.oid == s[i].oid && count == 1
    requires !IsFile(s[i], base) ==> item.mode == DIR_MODE && Directory(down, s, base, i, count, item.oid)
    ensures !(FilesListed(s, base, store) && DownStored(down, store))
  {
    hide Below, IsFile, DirOf;
  }

  /** Every subtree of a complete level is listed. */
  lemma LevelThere(hash: Hash, it: Tree, s: seq<Entry>, base: string, store: set<Oid>)
    requires Index(s) && AllBelow(s, base) && Complete(hash, it, s, base) && AllThere(it.down, s, base, |s|, store)
    ensures FilesListed(s, base, store) && DownStored(it.down, store)
  {
    hide Less, Below, IsFile, DirOf, Under, SubLess, Slash, Matches, Index, AllBelow;
    forall k | 0 <= k < |it.down|
      ensures it.down[k].tree.oid in store
    {
      var inner := Inner(base, it.down[k].name);
      assert SubDone(hash, it.down[k], s, base);
      UnderMembers(s, inner);
      var e := Under(s, inner)[0];
      assert e in Under(s, inner);
      var j :| 0 <= j < |s| && s[j] == e;
      OnlyItsDirectory(e, base, it.down[k].name);
    }
  }

  lemma Appended(a: seq<Item>, x: Item, b: seq<Item>)
    ensures (a + [x]) + b == a + ([x] + b)
  {
  }

  ghost predicate DownStored(down: seq<Sub>, store: set<Oid>) {
    forall k :: 0 <= k < |down| ==> down[k].tree.oid in store
  }

  lemma NoItems(hash: Hash, s: seq<Entry>, base: string)
    requires s == []
    ensures Index(s) && AllBelow(s, base) && Items(hash, s, base) == []
  {
  }

  lemma NothingThere(down: seq<Sub>, s: seq<Entry>, base: string, store: set<Oid>)
    requires AllBelow(s, base)
    ensures AllThere(down, s, base, 0, store)
  {
  }

  lemma CompleteNames(hash: Hash, it: Tree, s: seq<Entry>, base: string)
    requires Index(s) && AllBelow(s, base) && Complete(hash, it, s, base)
    ensures SortedNames(it.down)
  {
  }

  /** The second loop of update_one; it fails exactly when the object of a file or of a subtree is missing. */
  method WriteLevel(hash: Hash, it: Tree, cache: seq<Entry>, base: string, store: set<Oid>, missingOk: bool)
    returns (ok: bool, buffer: seq<Item>)
    requires Index(cache) && Complete(hash, it, Level(cache, base), base)
    ensures ok ==> buffer == Items(hash, Level(cache, base), base)
    ensures ok <==> missingOk || (FilesListed(Level(cache, base), base, store) && DownStored(it.down, store))
  {
    hide Less, Slash, Under, Items, Complete, AllThere, Directory, FilesListed, DownStored, IsFile, DirOf, SortedNames,
      Past;
    ghost var s := Level(cache, base);
    ghost var all := Items(hash, s, base);
    ghost var t, left := s, all;
    NothingThere(it.down, s, base, store);
    buffer := [];
    var i := 0;
    while i < |cache| && Below(cache[i], base)
      invariant 0 <= i <= |s| && Boundary(s, i, base)
      invariant t == s[i..] && Index(t) && AllBelow(t, base)
      invariant left == Items(hash, t, base) && buffer + left == all
      invariant !missingOk ==> AllThere(it.down, s, base, i, store)
    {
      assert i < |s| && cache[i] == s[i];
      var item, count;
      ghost var rest;
      item, count, rest := NextLine(hash, it, cache[i], base, s, i, t);
      if item.mode != GITLINK_MODE && !missingOk && item.oid !in store {
        LineMissing(it.down, s, base, i, count, item, store);
        return false, [];
      }
      if !missingOk {
        CompleteNames(hash, it, s, base);
        LineThere(it.down, s, base, i, count, item, store);
      }
      left := Items(hash, rest, base);
      Appended(buffer, item, left);
      buffer := buffer + [item];
      t := rest;
      i := i + count;
    }
    NoItems(hash, t, base);
    if !missingOk {
      LevelThere(hash, it, s, base, store);
    }
    return true, buffer;
  }

  lemma UsedAreStored(all: seq<Sub>, down: seq<Sub>, store: set<Oid>, dryrun: bool)
    requires UsedStored(all, store, dryrun)
    requires forall k :: 0 <= k < |down| ==> down[k].used && down[k] in all
    ensures dryrun || DownStored(down, store)
  {
  }

  /** The subtrees of a complete level are in the store when the trees of all directories are. */
  lemma DownOfTrees(hash: Hash, it: Tree, s: seq<Entry>, base: string, store: set<Oid>)
    requires Index(s) && AllBelow(s, base) && Complete(hash, it, s, base)
    ensures TreesStored(hash, s, base, store) ==> DownStored(it.down, store)
  {
    hide Under, Index, AllBelow, Less, SubLess, Slash, CacheOk, SubOk;
    if TreesStored(hash, s, base, store) {
      forall k | 0 <= k < |it.down|
        ensures it.down[k].tree.oid in store
      {
        var dirs := it.down[k].name + "/";
        assert base + dirs == Inner(base, it.down[k].name);
        assert TreeStored(hash, s, base + dirs, store);
        SubIsStored(hash, it.down[k], s, base, store);
      }
    }
  }

  lemma SubIsStored(hash: Hash, sub: Sub, s: seq<Entry>, base: string, store: set<Oid>)
    requires Index(s) && SubDone(hash, sub, s, base) && TreeStored(hash, s, Inner(base, sub.name), store)
    ensures sub.tree.oid in store
  {
    hide Under, Index, Items;
    var inner := Inner(base, sub.name);
    UnderIsIndex(s, inner);
    assert inner[|inner| - 1] == '/';
    assert Matches(hash, sub.tree, Under(s, inner), inner);
  }

  lemma NothingMore(it: Tree, store: set<Oid>)
    ensures OnlyTrees(it, store, store)
  {
  }

  lemma DownLater(down: seq<Sub>, store0: set<Oid>, store: set<Oid>)
    requires store0 <= store && DownStored(down, store0)
    ensures DownStored(down, store)
  {
  }

  lemma FilesLater(s: seq<Entry>, base: string, store0: set<Oid>, store: set<Oid>)
    requires AllBelow(s, base) && store0 <= store
    ensures FilesListed(s, base, store0) ==> FilesListed(s, base, store)
  {
    hide IsFile, Below;
  }

  lemma TakenOver(hash: Hash, it: Tree, s: seq<Entry>, base: string, store: set<Oid>)
    requires Index(s) && AllBelow(s, base) && CacheOk(hash, it, s, base) && 0 <= it.count && it.oid in store
    ensures Updated(hash, it, it, s, base, it.count) && Checked(it, s, base, store)
  {
    hide Index, TreeId, SubMatches, SubOk, ReusedBelow, Below;
  }

  lemma NotUpdated(hash: Hash, it0: Tree, it: Tree, s: seq<Entry>, base: string)
    requires Index(s) && AllBelow(s, base) && CacheOk(hash, it, s, base) && it.count == it0.count
    ensures Updated(hash, it0, it, s, base, -1)
  {
    hide Index, AllBelow, TreeId, SubMatches, SubOk;
  }

  lemma CheckedNow(it: Tree, s: seq<Entry>, base: string, store0: set<Oid>, store: set<Oid>)
    requires AllBelow(s, base) && store0 <= store
    requires FilesListed(s, base, store0) && DirsChecked(it.down, s, base, |s|, store0)
    ensures Checked(it, s, base, store)
  {
    hide IsFile, Below, ReusedBelow;
    DirsCheckedMore(it.down, s, base, |s|, store0, store);
  }

  lemma IsUpdated(hash: Hash, it0: Tree, done: Tree, it: Tree, s: seq<Entry>, base: string, buffer: seq<Item>)
    requires Index(s) && AllBelow(s, base) && Complete(hash, done, s, base)
    requires it.down == done.down && it.count == |s| && buffer == Items(hash, s, base) && it.oid == hash(buffer)
    ensures Updated(hash, it0, it, s, base, |s|)
  {
    hide Index, AllBelow, SubOk, CacheOk, Items, IsFile, DirOf, SortedDown, HasSub;
    assert Matches(hash, it, s, base) by {
      forall k | 0 <= k < |it.down|
        ensures SubMatches(hash, it.down[k], s, base)
      {
        assert SubDone(hash, it.down[k], s, base);
      }
    }
    MatchesIsOk(hash, it, s, base);
  }

  /** update_one: the number of entries of the level, or -1. */
  method UpdateOne(hash: Hash, it0: Tree, cache: seq<Entry>, base: string, store0: set<Oid>,
                   missingOk: bool, dryrun: bool)
    returns (r: int, it: Tree, store: set<Oid>)
    requires Index(cache) && CacheOk(hash, it0, Level(cache, base), base)
    ensures Updated(hash, it0, it, Level(cache, base), base, r)
    ensures store0 <= store && (r >= 0 && !dryrun ==> it.oid in store) && (dryrun ==> store == store0)
    ensures r >= 0 && !missingOk ==> Checked(it0, Level(cache, base), base, store)
    ensures r >= 0 && !missingOk ==> (it == it0 && it.oid in store) || DownStored(it.down, store)
    ensures missingOk || Enough(hash, it0, Level(cache, base), base, store0, dryrun) ==> r >= 0
    ensures OnlyTrees(it, store0, store)
    decreases Size(Level(cache, base), base), 2
  {
    hide Less, Slash, Under, Run, Items, Matches, CacheOk, Visited, Complete, Checked, DirsChecked, FilesListed,
      DownStored, UsedStored, Index, AllBelow, Updated, OnlyTrees, OnlyUsed, OnlyBelow, TreesStored;
    ghost var s := Level(cache, base);
    it, store := it0, store0;
    NothingMore(it, store);
    if 0 <= it.count && it.oid in store {
      TakenOver(hash, it, s, base, store);
      return it.count, it, store;
    }
    CheckedParts(it0, s, base, store);
    var ok;
    ok, it, store := UpdateSubs(hash, it, cache, base, store, missingOk, dryrun);
    if !ok {
      NotUpdated(hash, it0, it, s, base);
      BelowIsTrees(it, store0, store, store);
      return -1, it, store;
    }
    ghost var all := it.down;
    it := DiscardUnused(hash, it, s, base);
    UsedKept(all, it.down, store0, store);
    UsedAreStored(all, it.down, store, dryrun);
    FilesLater(s, base, store0, store);
    DownOfTrees(hash, it, s, base, store);
    TreesLater(hash, s, base, store0, store);
    var buffer;
    ok, buffer := WriteLevel(hash, it, cache, base, store, missingOk);
    if !ok {
      NotUpdated(hash, it0, it, s, base);
      BelowIsTrees(it, store0, store, store);
      return -1, it, store;
    }
    var oid := hash(buffer);
    ghost var before := store;
    if !dryrun {
      store := store + {oid};
    }
    if !missingOk {
      CheckedNow(it0, s, base, before, store);
      DownLater(it.down, before, store);
    }
    var i := Run(cache, base);
    ghost var done := it;
    it := Tree(i, oid, it.down);
    IsUpdated(hash, it0, done, it, s, base, buffer);
    BelowIsTrees(it, store0, before, store);
    return i, it, store;
  }
}

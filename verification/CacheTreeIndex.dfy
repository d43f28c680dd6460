/** The index with its cached tree (cache-tree.c): every edit invalidates the edited path, and
    an update then agrees with building the tree from nothing. */
module CacheTreeIndex {
  import opened Basics
  import opened CacheTree
  import opened CacheTreeUpdate

  // ---------------------------------------------------------------- invalidation

  function IndexOf(down: seq<Sub>, name: string): (k: nat)
    ensures k <= |down| && (k < |down| ==> down[k].name == name)
    ensures forall i :: 0 <= i < k ==> down[i].name != name
  {
    if down == [] || down[0].name == name then 0 else 1 + IndexOf(down[1..], name)
  }

  /** The nodes along a path become invalid; a subtree in the place of the last name is dropped. */
  ghost function Invalidated(it: Tree, path: string): Tree
    decreases |path|
  {
    var n := Slash(path);
    var k := IndexOf(it.down, path[..n]);
    if k == |it.down| then it.(count := -1)
    else if n == |path| then Tree(-1, it.oid, Without(it.down, k))
    else Tree(-1, it.oid, With(it.down, k, Invalidated(it.down[k].tree, path[n + 1..])))
  }

  function Without(down: seq<Sub>, k: nat): seq<Sub>
    requires k < |down|
  {
    down[..k] + down[k + 1..]
  }

  function With(down: seq<Sub>, k: nat, tree: Tree): seq<Sub>
    requires k < |down|
  {
    down[k := down[k].(tree := tree)]
  }

  ghost predicate SortedTree(it: Tree)
    decreases it
  {
    SortedDown(it.down) && forall k :: 0 <= k < |it.down| ==> SortedTree(it.down[k].tree)
  }

  lemma {:induction false} OkIsSorted(hash: Hash, it: Tree, s: seq<Entry>, base: string)
    requires Index(s) && AllBelow(s, base) && CacheOk(hash, it, s, base)
    ensures SortedTree(it)
    decreases it
  {
    forall k | 0 <= k < |it.down|
      ensures SortedTree(it.down[k].tree)
    {
      var inner := Inner(base, it.down[k].name);
      UnderIsIndex(s, inner);
      assert SubOk(hash, it.down[k], s, base);
      OkIsSorted(hash, it.down[k].tree, Under(s, inner), inner);
    }
  }

  // ---------------------------------------------------------------- what invalidation changes

  /** The node of a directory, named by the directories that lead to it. */
  ghost function Node(it: Tree, dirs: seq<string>): Option<Tree>
    decreases |dirs|
  {
    if dirs == [] then Some(it)
    else
      var k := IndexOf(it.down, dirs[0]);
      if k == |it.down| then None else Node(it.down[k].tree, dirs[1..])
  }

  ghost function PathOf(dirs: seq<string>): string {
    if dirs == [] then "" else dirs[0] + "/" + PathOf(dirs[1..])
  }

  /** Above the path every node becomes invalid and keeps its id; the one in the place of the last name is gone with all
      below it; every other node is as before. */
  lemma {:induction false} InvalidatesThePath(it: Tree, path: string, dirs: seq<string>)
    requires SortedTree(it)
    ensures var before, after := Node(it, dirs), Node(Invalidated(it, path), dirs);
      && (HasPrefix(path, PathOf(dirs)) && before.Some? ==>
            after.Some? && after.value.count == -1 && after.value.oid == before.value.oid)
      && (HasPrefix(path, PathOf(dirs)) && before.None? ==> after.None?)
      && (HasPrefix(PathOf(dirs), path + "/") ==> after.None?)
      && (!HasPrefix(path, PathOf(dirs)) && !HasPrefix(PathOf(dirs), path + "/") ==> after == before)
    decreases |dirs|
  {
    hide Slash, SortedDown, HasPrefix, Invalidated;
    if dirs == [] {
      RootInvalid(it, path);
    } else {
      var n, k := Slash(path), IndexOf(it.down, dirs[0]);
      SplitPath(path, dirs);
      if k == |it.down| {
        StaysAbsent(it, path, dirs);
      } else {
        NamePlain(it, k);
        if path[..n] != dirs[0] {
          OtherKept(it, path, k);
        } else if n == |path| {
          LastDropped(it, path, k);
        } else {
          NextOnPath(it, path, k);
          InvalidatesThePath(it.down[k].tree, path[n + 1..], dirs[1..]);
        }
      }
    }
  }

  lemma RootInvalid(it: Tree, path: string)
    ensures HasPrefix(path, PathOf([])) && !HasPrefix(PathOf([]), path + "/")
    ensures Invalidated(it, path).count == -1 && Invalidated(it, path).oid == it.oid
  {
  }

  /** Comparing a path with a directory, by first names. */
  lemma SplitPath(path: string, dirs: seq<string>)
    requires dirs != []
    ensures var n := Slash(path);
      Slash(dirs[0]) == |dirs[0]| ==>
        && (HasPrefix(path, PathOf(dirs)) <==>
              n < |path| && path[..n] == dirs[0] && HasPrefix(path[n + 1..], PathOf(dirs[1..])))
        && (HasPrefix(PathOf(dirs), path + "/") <==>
              path[..n] == dirs[0] && (n < |path| ==> HasPrefix(PathOf(dirs[1..]), path[n + 1..] + "/")))
  {
    if Slash(dirs[0]) == |dirs[0]| {
      SplitAbove(path, dirs[0], PathOf(dirs[1..]));
      SplitBelow(path, dirs[0], PathOf(dirs[1..]));
    }
  }

  lemma PrefixParts(s: string, p: string, q: string)
    ensures HasPrefix(s, p + q) <==> HasPrefix(s, p) && HasPrefix(s[|p|..], q)
  {
    if HasPrefix(s, p + q) {
      assert s[..|p|] == s[..|p + q|][..|p|] == p;
      assert s[|p|..][..|q|] == s[..|p + q|][|p|..] == q;
    }
    if HasPrefix(s, p) && HasPrefix(s[|p|..], q) {
      assert s[..|p + q|] == s[..|p|] + s[|p|..][..|q|];
    }
  }

  /** A path lies below a name exactly when that is its first name and more follows. */
  lemma FirstName(path: string, dir: string)
    requires Slash(dir) == |dir|
    ensures HasPrefix(path, dir + "/") <==> Slash(path) < |path| && path[..Slash(path)] == dir
  {
    hide Slash;
    PlainName(dir);
    if HasPrefix(path, dir + "/") {
      assert forall i :: 0 <= i <= |dir| ==> path[i] == path[..|dir| + 1][i] == (dir + "/")[i];
      FirstSlash(path, |dir|);
    }
    if Slash(path) < |path| && path[..Slash(path)] == dir {
      assert path[..|dir| + 1] == dir + [path[|dir|]];
    }
  }

  lemma SplitAbove(path: string, dir: string, rest: string)
    requires Slash(dir) == |dir|
    ensures var n := Slash(path);
      HasPrefix(path, dir + "/" + rest) <==> n < |path| && path[..n] == dir && HasPrefix(path[n + 1..], rest)
  {
    hide Slash, HasPrefix;
    FirstName(path, dir);
    PrefixParts(path, dir + "/", rest);
  }

  lemma SplitBelow(path: string, dir: string, rest: string)
    requires Slash(dir) == |dir|
    ensures var n := Slash(path);
      HasPrefix(dir + "/" + rest, path + "/") <==>
        path[..n] == dir && (n < |path| ==> HasPrefix(rest, path[n + 1..] + "/"))
  {
    hide Slash, HasPrefix;
    var n := Slash(path);
    var all, first := dir + "/" + rest, path[..n];
    FirstPlain(path);
    FirstName(all, first);
    SlashBehind(dir, rest);
    if n < |path| {
      PrefixParts(all, first + "/", path[n + 1..] + "/");
      assert path + "/" == (first + "/") + (path[n + 1..] + "/");
      assert all[|dir| + 1..] == rest;
    } else {
      assert path == first;
    }
  }

  lemma FirstPlain(path: string)
    ensures Slash(path[..Slash(path)]) == Slash(path)
  {
    var first := path[..Slash(path)];
    assert forall i :: 0 <= i < |first| ==> first[i] == path[i];
  }

  lemma SlashBehind(dir: string, rest: string)
    requires Slash(dir) == |dir|
    ensures var all := dir + "/" + rest; Slash(all) == |dir| < |all| && all[..|dir|] == dir
  {
    hide Slash;
    PlainName(dir);
    FirstSlash(dir + "/" + rest, |dir|);
  }

  lemma NamePlain(it: Tree, k: nat)
    requires SortedTree(it) && k < |it.down|
    ensures Slash(it.down[k].name) == |it.down[k].name| && SortedTree(it.down[k].tree)
  {
    hide Slash, SubLess;
  }

  lemma IndexWith(down: seq<Sub>, k: nat, tree: Tree, name: string)
    requires k < |down|
    ensures IndexOf(With(down, k, tree), name) == IndexOf(down, name)
  {
    var x, y := IndexOf(down, name), IndexOf(With(down, k, tree), name);
    assert x < |down| ==> With(down, k, tree)[x].name == name;
    assert y < |down| ==> down[y].name == name;
  }

  lemma IndexWithout(down: seq<Sub>, k: nat, name: string)
    requires SortedDown(down) && k < |down|
    ensures down[k].name == name ==> IndexOf(Without(down, k), name) == |down| - 1
    ensures down[k].name != name && IndexOf(down, name) < |down| ==>
      var y := IndexOf(Without(down, k), name);
      y < |down| - 1 && Without(down, k)[y] == down[IndexOf(down, name)]
    ensures IndexOf(down, name) == |down| ==> IndexOf(Without(down, k), name) == |down| - 1
  {
    hide SortedDown, Without;
    var w := Without(down, k);
    var x, y := IndexOf(down, name), IndexOf(w, name);
    WithoutAt(down, k);
    if y < |w| {
      OneName(down, if y < k then y else y + 1, k);
      OneName(down, if y < k then y else y + 1, x);
    }
    if x < |down| && x != k {
      assert w[if x < k then x else x - 1] == down[x];
    }
  }

  lemma WithoutAt(down: seq<Sub>, k: nat)
    requires k < |down|
    ensures |Without(down, k)| == |down| - 1
    ensures forall i :: 0 <= i < |down| - 1 ==> Without(down, k)[i] == down[if i < k then i else i + 1]
  {
  }

  lemma OneName(down: seq<Sub>, a: nat, b: nat)
    requires SortedDown(down) && a < |down| && b <= |down|
    ensures b < |down| && down[a].name == down[b].name ==> a == b
  {
    hide Slash;
    if b < |down| {
      SubLessOrder(down[a].name, down[b].name, "");
    }
  }

  lemma StaysAbsent(it: Tree, path: string, dirs: seq<string>)
    requires SortedTree(it) && dirs != [] && IndexOf(it.down, dirs[0]) == |it.down|
    ensures Node(Invalidated(it, path), dirs).None?
  {
    hide Slash, SortedDown;
    var k := IndexOf(it.down, path[..Slash(path)]);
    if k < |it.down| {
      IndexWithout(it.down, k, dirs[0]);
      if Slash(path) < |path| {
        IndexWith(it.down, k, Invalidated(it.down[k].tree, path[Slash(path) + 1..]), dirs[0]);
      }
    }
  }

  /** A subtree under another name stays. */
  lemma OtherKept(it: Tree, path: string, k: nat)
    requires SortedTree(it) && k < |it.down| && IndexOf(it.down, it.down[k].name) == k
    requires path[..Slash(path)] != it.down[k].name
    ensures var down := Invalidated(it, path).down; var y := IndexOf(down, it.down[k].name);
      y < |down| && down[y].tree == it.down[k].tree
  {
    hide Slash, SortedDown;
    var x := IndexOf(it.down, path[..Slash(path)]);
    if x < |it.down| {
      IndexWithout(it.down, x, it.down[k].name);
      if Slash(path) < |path| {
        IndexWith(it.down, x, Invalidated(it.down[x].tree, path[Slash(path) + 1..]), it.down[k].name);
      }
    }
  }

  lemma LastDropped(it: Tree, path: string, k: nat)
    requires SortedTree(it) && k < |it.down| && IndexOf(it.down, it.down[k].name) == k
    requires Slash(path) == |path| && path[..Slash(path)] == it.down[k].name
    ensures var down := Invalidated(it, path).down; IndexOf(down, it.down[k].name) == |down|
  {
    hide Slash, SortedDown;
    IndexWithout(it.down, k, it.down[k].name);
  }

  lemma NextOnPath(it: Tree, path: string, k: nat)
    requires SortedTree(it) && k < |it.down| && IndexOf(it.down, it.down[k].name) == k
    requires Slash(path) < |path| && path[..Slash(path)] == it.down[k].name
    ensures var down := Invalidated(it, path).down;
      && IndexOf(down, it.down[k].name) == k < |down|
      && down[k].tree == Invalidated(it.down[k].tree, path[Slash(path) + 1..])
  {
    hide Slash, SortedDown;
    IndexWith(it.down, k, Invalidated(it.down[k].tree, path[Slash(path) + 1..]), it.down[k].name);
  }

  /** No node on the way to an invalidated path is taken over, so the next update looks for the object there. */
  lemma {:induction false} NotReused(it: Tree, path: string, store: set<Oid>)
    requires SortedTree(it)
    ensures !Reused(Invalidated(it, path), path, store)
    decreases |path|
  {
    hide Slash, SortedDown, SubLess;
    var n := Slash(path);
    var k := IndexOf(it.down, path[..n]);
    if n < |path| {
      if k < |it.down| {
        NamePlain(it, k);
        NotReused(it.down[k].tree, path[n + 1..], store);
        var tree := Invalidated(it.down[k].tree, path[n + 1..]);
        forall x | 0 <= x < |it.down| && it.down[x].name == path[..n]
          ensures x == k
        {
          OnlyIndex(it.down, x, k);
        }
        assert Invalidated(it, path).down == With(it.down, k, tree);
      }
    }
  }

  lemma OnlyIndex(down: seq<Sub>, x: nat, k: nat)
    requires SortedDown(down) && x < |down| && k < |down| && down[x].name == down[k].name
    ensures x == k
  {
    OneName(down, x, k);
  }

  // ---------------------------------------------------------------- invalidation in place

  /** do_invalidate_path. */
  method DoInvalidatePath(it: Tree, path: string) returns (r: Tree)
    requires SortedTree(it)
    ensures r == Invalidated(it, path)
    decreases |path|
  {
    hide Slash, SubLess;
    var n := Slash(path);
    var name := path[..n];
    var pos := SubtreePos(it.down, name);
    if pos < 0 {
      AbsentIndex(it.down, name, -1 - pos);
      return it.(count := -1);
    }
    FoundIsIndexOf(it.down, name, pos);
    if n == |path| {
      return Tree(-1, it.oid, Without(it.down, pos));
    }
    var tree := DoInvalidatePath(it.down[pos].tree, path[n + 1..]);
    return Tree(-1, it.oid, With(it.down, pos, tree));
  }

  lemma AbsentIndex(down: seq<Sub>, name: string, p: int)
    requires GoesAt(down, name, p)
    ensures IndexOf(down, name) == |down|
  {
    GoesAtIsAbsent(down, name, p);
    assert IndexOf(down, name) < |down| ==> HasSub(down, name);
  }

  lemma FoundIsIndexOf(down: seq<Sub>, name: string, pos: nat)
    requires SortedDown(down) && pos < |down| && down[pos].name == name
    ensures IndexOf(down, name) == pos
  {
    SubLessOrder(name, name, "");
  }

  // ---------------------------------------------------------------- what an edit changes

  /** The entries that do not have this name. */
  ghost function Others(s: seq<Entry>, name: string): seq<Entry> {
    if s == [] then []
    else (if s[0].name != name then [s[0]] else []) + Others(s[1..], name)
  }

  /** Filtering by directory and by name commute. */
  lemma {:induction false} OthersUnder(s: seq<Entry>, name: string, base: string)
    ensures Under(Others(s, name), base) == Others(Under(s, base), name)
  {
    hide Under, Others, Below;
    OthersStep(s, name);
    UnderStep(s, base);
    if s != [] {
      var x, o, u := s[0], Others(s[1..], name), Under(s[1..], base);
      OthersUnder(s[1..], name, base);
      assert ([x] + o)[1..] == o && ([x] + u)[1..] == u;
      UnderStep([x] + o, base);
      OthersStep([x] + u, name);
    }
  }

  lemma OthersStep(s: seq<Entry>, name: string)
    ensures Others(s, name) ==
      if s == [] then [] else if s[0].name != name then [s[0]] + Others(s[1..], name) else Others(s[1..], name)
  {
  }

  lemma {:induction false} OthersOutside(s: seq<Entry>, name: string)
    requires forall i :: 0 <= i < |s| ==> s[i].name != name
    ensures Others(s, name) == s
  {
    if s != [] {
      OthersOutside(s[1..], name);
    }
  }

  /** A directory that does not contain the edited path is not affected by the edit. */
  lemma UnderUnaffected(s: seq<Entry>, s': seq<Entry>, name: string, base: string)
    requires Index(s) && Index(s') && Others(s, name) == Others(s', name)
    requires |base| >= |name| || name[..|base|] != base
    ensures Under(s, base) == Under(s', base)
  {
    OthersUnder(s, name, base);
    OthersUnder(s', name, base);
    UnderIsIndex(s, base);
    UnderIsIndex(s', base);
    OthersOutside(Under(s, base), name);
    OthersOutside(Under(s', base), name);
  }

  /** A path lies below the directory of its first component and below no other of its level. */
  lemma PathComponent(base: string, path: string, dir: string)
    requires Slash(dir) == |dir|
    ensures var name, inner := base + path, Inner(base, dir);
      (|inner| < |name| && name[..|inner|] == inner) ==> Slash(path) < |path| && path[..Slash(path)] == dir
  {
    var name, inner := base + path, Inner(base, dir);
    if |inner| < |name| && name[..|inner|] == inner {
      assert forall i :: 0 <= i <= |dir| ==> path[i] == name[..|inner|][|base| + i] == inner[|base| + i];
      FirstSlash(path, |dir|);
      assert path[..|dir|] == dir;
    }
  }

  lemma OtherSubOk(hash: Hash, sub: Sub, s: seq<Entry>, s': seq<Entry>, base: string, path: string)
    requires Index(s) && Index(s') && Others(s, base + path) == Others(s', base + path)
    requires SubOk(hash, sub, s, base) && Slash(sub.name) == |sub.name|
    requires Slash(path) == |path| || sub.name != path[..Slash(path)]
    ensures SubOk(hash, sub, s', base)
  {
    PathComponent(base, path, sub.name);
    UnderUnaffected(s, s', base + path, Inner(base, sub.name));
  }

  /** After an edit and the invalidation of its path, nothing cached is wrong. */
  lemma {:induction false} InvalidatedIsOk(hash: Hash, it: Tree, path: string, s: seq<Entry>, s': seq<Entry>,
                                           base: string)
    requires Index(s) && AllBelow(s, base) && CacheOk(hash, it, s, base)
    requires Index(s') && AllBelow(s', base) && Others(s, base + path) == Others(s', base + path)
    ensures CacheOk(hash, Invalidated(it, path), s', base)
    decreases |path|
  {
    hide AtMost, Slash, Under, Others, SubOk;
    var n := Slash(path);
    var k := IndexOf(it.down, path[..n]);
    forall x | 0 <= x < |it.down| && x != k
      ensures SubOk(hash, it.down[x], s', base)
    {
      OtherName(it.down, path[..n], x);
      OtherSubOk(hash, it.down[x], s, s', base, path);
    }
    if k < |it.down| {
      if n == |path| {
        WithoutOk(hash, it, s', base, k);
      } else {
        OnPathOk(hash, it, path, s, s', base, k);
        WithOk(hash, it, s', base, k, Invalidated(it.down[k].tree, path[n + 1..]));
      }
    }
  }

  lemma WithoutOk(hash: Hash, it: Tree, s: seq<Entry>, base: string, k: nat)
    requires Index(s) && AllBelow(s, base) && SortedDown(it.down) && k < |it.down|
    requires forall x :: 0 <= x < |it.down| && x != k ==> SubOk(hash, it.down[x], s, base)
    ensures CacheOk(hash, Tree(-1, it.oid, Without(it.down, k)), s, base)
  {
    var down := Without(it.down, k);
    assert forall i :: 0 <= i < |down| ==> down[i] == it.down[if i < k then i else i + 1];
  }

  lemma WithOk(hash: Hash, it: Tree, s: seq<Entry>, base: string, k: nat, tree: Tree)
    requires Index(s) && AllBelow(s, base) && SortedDown(it.down) && k < |it.down|
    requires forall x :: 0 <= x < |it.down| && x != k ==> SubOk(hash, it.down[x], s, base)
    requires SubOk(hash, it.down[k].(tree := tree), s, base)
    ensures CacheOk(hash, Tree(-1, it.oid, With(it.down, k, tree)), s, base)
  {
  }

  lemma OtherName(down: seq<Sub>, name: string, x: nat)
    requires SortedDown(down) && x < |down| && x != IndexOf(down, name)
    ensures down[x].name != name
  {
    SubLessOrder(name, name, "");
  }

  lemma {:induction false} OnPathOk(hash: Hash, it: Tree, path: string, s: seq<Entry>, s': seq<Entry>, base: string,
                                    k: nat)
    requires Index(s) && AllBelow(s, base) && CacheOk(hash, it, s, base)
    requires Index(s') && AllBelow(s', base) && Others(s, base + path) == Others(s', base + path)
    requires Slash(path) < |path| && k < |it.down| && it.down[k].name == path[..Slash(path)]
    ensures SubOk(hash, it.down[k].(tree := Invalidated(it.down[k].tree, path[Slash(path) + 1..])), s', base)
    decreases |path|, 0
  {
    hide AtMost, Slash, Under, Others, Invalidated;
    var n := Slash(path);
    var inner := Inner(base, path[..n]);
    assert base + path == inner + path[n + 1..];
    UnderIsIndex(s, inner);
    UnderIsIndex(s', inner);
    OthersUnder(s, base + path, inner);
    OthersUnder(s', base + path, inner);
    assert SubOk(hash, it.down[k], s, base);
    InvalidatedIsOk(hash, it.down[k].tree, path[n + 1..], Under(s, inner), Under(s', inner), inner);
  }

  lemma RootPath(hash: Hash, it: Tree, path: string, s: seq<Entry>, s': seq<Entry>)
    requires Index(s) && AllBelow(s, "") && CacheOk(hash, it, s, "")
    requires Index(s') && Others(s', path) == Others(s, path)
    ensures AllBelow(s', "") && CacheOk(hash, Invalidated(it, path), s', "")
  {
    assert "" + path == path;
    InvalidatedIsOk(hash, it, path, s, s', "");
  }

  // ---------------------------------------------------------------- the index

  /** struct index_state, as far as the cached tree is concerned. */
  class IndexState {
    var cache: seq<Entry>
    var cacheTree: Tree
    var treeChanged: bool

    /** The index is sorted, and whatever the cached tree marks as valid is right. */
    ghost predicate Valid(hash: Hash)
      reads this
    {
      Index(cache) && AllBelow(cache, "") && CacheOk(hash, cacheTree, cache, "")
    }

    constructor (ghost hash: Hash)
      ensures Valid(hash) && cache == [] && cacheTree == EMPTY
    {
      cache := [];
      cacheTree := EMPTY;
      treeChanged := false;
    }

    /** cache_tree_invalidate_path. */
    method InvalidatePath(ghost hash: Hash, path: string)
      requires Valid(hash)
      modifies this
      ensures Valid(hash) && cache == old(cache)
      ensures cacheTree == Invalidated(old(cacheTree), path) && treeChanged
    {
      OkIsSorted(hash, cacheTree, cache, "");
      RootPath(hash, cacheTree, path, cache, cache);
      cacheTree := DoInvalidatePath(cacheTree, path);
      treeChanged := true;
    }

    /** An edit: the entries of one name are added, replaced or removed, and its path is invalidated. */
    method Edit(ghost hash: Hash, path: string, cache': seq<Entry>)
      requires Valid(hash) && Index(cache') && Others(cache', path) == Others(cache, path)
      modifies this
      ensures Valid(hash) && cache == cache'
      ensures cacheTree == Invalidated(old(cacheTree), path) && treeChanged
    {
      OkIsSorted(hash, cacheTree, cache, "");
      RootPath(hash, cacheTree, path, cache, cache');
      cacheTree := DoInvalidatePath(cacheTree, path);
      cache := cache';
      treeChanged := true;
    }

    /** verify_cache: no unmerged entry, and no name right before a name below it. */
    method VerifyCache() returns (ok: bool)
      ensures ok <==> Merged(cache) && NoAdjacentConflict(cache)
    {
      var i := 0;
      while i < |cache|
        invariant 0 <= i <= |cache|
        invariant Merged(cache[..i])
      {
        if cache[i].stage != 0 {
          return false;
        }
        assert cache[..i + 1] == cache[..i] + [cache[i]];
        i := i + 1;
      }
      assert cache[..i] == cache;
      i := 0;
      while i + 1 < |cache|
        invariant 0 <= i && (i < |cache| || i == 0)
        invariant forall k :: 0 <= k < i && k + 1 < |cache| ==> !HasPrefix(cache[k + 1].name, cache[k].name + "/")
      {
        var thisName, nextName := cache[i].name, cache[i + 1].name;
        SlashFollows(nextName, thisName);
        if |thisName| < |nextName| && nextName[..|thisName|] == thisName && nextName[|thisName|] == '/' {
          return false;
        }
        i := i + 1;
      }
      return true;
    }

    /** cache_tree_update: 0 and a tree that matches the index, or -1. */
    method Update(hash: Hash, store0: set<Oid>, missingOk: bool, dryrun: bool) returns (r: int, store: set<Oid>)
      requires Valid(hash)
      modifies this
      ensures Valid(hash) && cache == old(cache) && store0 <= store && (dryrun ==> store == store0)
      ensures r == 0 || r == -1
      ensures treeChanged == (r == 0 || old(treeChanged))
      ensures r == 0 ==> Merged(cache) && NoAdjacentConflict(cache) && Matches(hash, cacheTree, cache, "")
      ensures r == 0 && !dryrun ==> cacheTree.oid in store
      ensures OnlyTrees(cacheTree, store0, store)
      ensures r == 0 && !missingOk ==> Checked(old(cacheTree), cache, "", store)
      ensures r == 0 && !missingOk && old(cacheTree) == EMPTY ==> Listed(cache, store)
      ensures Merged(cache) && NoAdjacentConflict(cache) ==>
        (missingOk || Enough(hash, old(cacheTree), cache, "", store0, dryrun) ==> r == 0)
      ensures !(Merged(cache) && NoAdjacentConflict(cache)) ==> r == -1 && cacheTree == old(cacheTree)
    {
      var ok := VerifyCache();
      store := store0;
      NothingMore(cacheTree, store);
      if !ok {
        return -1, store;
      }
      RootLevel(cache);
      EmptyReusesNothing(cache, "", store0);
      var i;
      i, cacheTree, store := UpdateOne(hash, cacheTree, cache, "", store0, missingOk, dryrun);
      if i < 0 {
        return -1, store;
      }
      EmptyReusesNothing(cache, "", store);
      treeChanged := true;
      return 0, store;
    }
  }

  predicate Merged(s: seq<Entry>) {
    forall i :: 0 <= i < |s| ==> s[i].stage == 0
  }

  predicate NoAdjacentConflict(s: seq<Entry>) {
    forall k :: 0 <= k && k + 1 < |s| ==> !HasPrefix(s[k + 1].name, s[k].name + "/")
  }

  lemma SlashFollows(next: string, name: string)
    ensures HasPrefix(next, name + "/") <==> |name| < |next| && next[..|name|] == name && next[|name|] == '/'
  {
    var n := |name|;
    if n < |next| {
      assert next[..n + 1] == next[..n] + [next[n]];
    }
  }

  lemma RootLevel(s: seq<Entry>)
    requires Index(s) && AllBelow(s, "")
    ensures Level(s, "") == s
  {
    assert s[..|s|] == s;
  }
}

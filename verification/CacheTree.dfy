/** The cache of tree ids kept beside the index (cache-tree.c): its nodes, the index entries
    they describe, and what a node must say to agree with building the tree from nothing. */
module CacheTree {

  // ---------------------------------------------------------------- names

  /** Bytewise order of names, as memcmp on the common length followed by the length. */
  predicate Less(a: string, b: string) {
    if b == "" then false
    else if a == "" then true
    else a[0] < b[0] || (a[0] == b[0] && Less(a[1..], b[1..]))
  }

  predicate AtMost(a: string, b: string) {
    a == b || Less(a, b)
  }

  lemma {:induction false} LessTotal(a: string, b: string)
    ensures Less(a, b) || a == b || Less(b, a)
    ensures !(Less(a, b) && Less(b, a)) && !Less(a, a)
  {
    if a != "" && b != "" {
      LessTotal(a[1..], b[1..]);
      assert a == [a[0]] + a[1..] && b == [b[0]] + b[1..];
    }
    if a != "" {
      LessTotal(a[1..], a[1..]);
    }
  }

  lemma {:induction false} LessTrans(a: string, b: string, c: string)
    requires Less(a, b) && Less(b, c)
    ensures Less(a, c)
  {
    if a != "" && a[0] == b[0] && b[0] == c[0] {
      LessTrans(a[1..], b[1..], c[1..]);
    }
  }

  predicate HasPrefix(s: string, p: string) {
    |p| <= |s| && s[..|p|] == p
  }

  /** Whatever sorts between two names with a common prefix has that prefix too. */
  lemma {:induction false} PrefixConvex(p: string, a: string, b: string, c: string)
    requires HasPrefix(a, p) && HasPrefix(c, p) && AtMost(a, b) && AtMost(b, c)
    ensures HasPrefix(b, p)
  {
    if p != "" && a != b && b != c {
      assert a[0] == p[0] && c[0] == p[0];
      assert b[0] == p[0];
      assert a[1..][..|p| - 1] == a[..|p|][1..] == p[1..];
      assert c[1..][..|p| - 1] == c[..|p|][1..] == p[1..];
      PrefixConvex(p[1..], a[1..], b[1..], c[1..]);
      assert b[..|p|] == [b[0]] + b[1..][..|p| - 1];
      assert p == [p[0]] + p[1..];
    }
  }

  /** strchr: the position of the first slash, or the length. */
  function Slash(s: string): (n: nat)
    ensures n <= |s|
    ensures forall i :: 0 <= i < n ==> s[i] != '/'
    ensures n < |s| ==> s[n] == '/'
  {
    if s == "" || s[0] == '/' then 0 else 1 + Slash(s[1..])
  }

  // ---------------------------------------------------------------- index entries

  type Oid = s: string | |s| == 20 witness "00000000000000000000"

  datatype Entry = Entry(name: string, mode: nat, oid: Oid, stage: nat)

  /** Part of the sorted index; no name ends in a slash. */
  ghost predicate Index(s: seq<Entry>) {
    && (forall i, j :: 0 <= i < j < |s| ==> AtMost(s[i].name, s[j].name))
    && (forall i :: 0 <= i < |s| ==> s[i].name != "" && s[i].name[|s[i].name| - 1] != '/')
  }

  /** Not at the end of the level: the name lies below base. */
  predicate Below(e: Entry, base: string) {
    |base| < |e.name| && e.name[..|base|] == base
  }

  ghost predicate AllBelow(s: seq<Entry>, base: string) {
    forall i :: 0 <= i < |s| ==> Below(s[i], base)
  }

  function Under(s: seq<Entry>, base: string): seq<Entry> {
    if s == [] then []
    else (if Below(s[0], base) then [s[0]] else []) + Under(s[1..], base)
  }

  /** How many entries at the front lie below base. */
  function Run(s: seq<Entry>, base: string): (n: nat)
    ensures n <= |s|
    ensures AllBelow(s[..n], base)
    ensures n < |s| ==> !Below(s[n], base)
    decreases |s|
  {
    if s == [] || !Below(s[0], base) then 0
    else
      var n := 1 + Run(s[1..], base);
      assert forall i :: 0 <= i < n ==> Below(s[i], base) by {
        assert forall i :: 1 <= i < n ==> s[i] == s[1..][..n - 1][i - 1];
      }
      n
  }

  /** The part of the name that belongs to the level of base. */
  function Rest(e: Entry, base: string): string
    requires Below(e, base)
  {
    e.name[|base|..]
  }

  predicate IsFile(e: Entry, base: string)
    requires Below(e, base)
  {
    Slash(Rest(e, base)) == |Rest(e, base)|
  }

  function DirOf(e: Entry, base: string): string
    requires Below(e, base)
  {
    Rest(e, base)[..Slash(Rest(e, base))]
  }

  function Inner(base: string, dir: string): string {
    base + dir + "/"
  }

  /** An entry in a directory lies below that directory. */
  lemma InItsDirectory(e: Entry, base: string)
    requires Below(e, base) && !IsFile(e, base) && e.name[|e.name| - 1] != '/'
    ensures Below(e, Inner(base, DirOf(e, base)))
  {
    hide Slash;
    var rest := Rest(e, base);
    assert e.name == base + rest;
    assert rest == DirOf(e, base) + "/" + rest[Slash(rest) + 1..];
  }

  lemma {:induction false} FirstSlash(s: string, k: nat)
    requires k < |s| && s[k] == '/' && forall i :: 0 <= i < k ==> s[i] != '/'
    ensures Slash(s) == k
  {
    if k > 0 {
      assert s[0] != '/';
      FirstSlash(s[1..], k - 1);
    }
  }

  /** An entry lies below at most one directory of a level. */
  lemma OnlyItsDirectory(e: Entry, base: string, dir: string)
    requires Below(e, Inner(base, dir)) && Slash(dir) == |dir|
    ensures Below(e, base) && !IsFile(e, base) && DirOf(e, base) == dir
  {
    hide Slash;
    var rest := e.name[|base|..];
    InnerPrefix(e.name, base, dir);
    PlainName(dir);
    FirstSlash(rest, |dir|);
    assert rest[..|dir|] == dir;
  }

  lemma InnerPrefix(name: string, base: string, dir: string)
    requires |base| + |dir| + 1 < |name| && name[..|base| + |dir| + 1] == base + dir + "/"
    ensures name[..|base|] == base && (forall i :: 0 <= i < |dir| ==> name[|base|..][i] == dir[i])
    ensures name[|base|..][|dir|] == '/'
  {
    var inner := base + dir + "/";
    assert forall i :: 0 <= i < |inner| ==> name[i] == name[..|inner|][i] == inner[i];
  }

  lemma PlainName(dir: string)
    requires Slash(dir) == |dir|
    ensures forall i :: 0 <= i < |dir| ==> dir[i] != '/'
  {
  }

  // ---------------------------------------------------------------- sizes, for termination

  ghost function Size(s: seq<Entry>, base: string): nat
    requires AllBelow(s, base)
  {
    if s == [] then 0 else |s[0].name| - |base| + Size(s[1..], base)
  }

  lemma {:induction false} SizeSplit(s: seq<Entry>, base: string, n: nat)
    requires AllBelow(s, base) && n <= |s|
    ensures Size(s, base) == Size(s[..n], base) + Size(s[n..], base)
    ensures Size(s, base) >= |s|
  {
    if s != [] {
      if n > 0 {
        SizeSplit(s[1..], base, n - 1);
        assert s[..n][1..] == s[1..][..n - 1] && s[n..] == s[1..][n - 1..];
      } else {
        SizeSplit(s[1..], base, 0);
        assert s[1..][0..] == s[1..] && s[0..] == s;
      }
    }
  }

  lemma {:induction false} SizeDeeper(s: seq<Entry>, base: string, inner: string)
    requires AllBelow(s, base) && AllBelow(s, inner) && |base| < |inner|
    ensures s != [] ==> Size(s, inner) < Size(s, base)
    ensures Size(s, inner) <= Size(s, base)
  {
    if s != [] {
      SizeDeeper(s[1..], base, inner);
    }
  }

  // ---------------------------------------------------------------- trees from nothing

  const DIR_MODE: nat := 0x4000
  const GITLINK_MODE: nat := 0xe000

  /** One line of a tree object. */
  datatype Item = Item(mode: nat, name: string, oid: Oid)

  type Hash = seq<Item> -> Oid

  lemma IndexParts(s: seq<Entry>, n: nat)
    requires Index(s) && n <= |s|
    ensures Index(s[..n]) && Index(s[n..])
  {
    hide Less;
  }

  lemma NameEnds(s: seq<Entry>, k: nat)
    requires Index(s) && k < |s|
    ensures s[k].name != "" && s[k].name[|s[k].name| - 1] != '/'
  {
  }

  lemma BelowParts(s: seq<Entry>, base: string, n: nat)
    requires AllBelow(s, base) && n <= |s|
    ensures AllBelow(s[..n], base) && AllBelow(s[n..], base)
  {
    hide Below;
  }

  /** The entries of the first directory of a level: never none of them. */
  lemma FirstGroup(s: seq<Entry>, base: string)
    requires Index(s) && AllBelow(s, base) && s != [] && !IsFile(s[0], base)
    ensures var inner := Inner(base, DirOf(s[0], base)); var n := Run(s, inner);
      && 1 <= n <= |s| && Index(s[..n]) && Index(s[n..]) && AllBelow(s[n..], base)
      && Size(s[..n], inner) < Size(s, base) && Size(s[n..], base) < Size(s, base)
  {
    hide Less, Slash, IsFile, DirOf, Size, Index;
    var inner := Inner(base, DirOf(s[0], base));
    NameEnds(s, 0);
    InItsDirectory(s[0], base);
    var n := Run(s, inner);
    IndexParts(s, n);
    BelowParts(s, base, n);
    SizeSplit(s, base, n);
    SizeDeeper(s[..n], base, inner);
    SizeSplit(s[..n], base, 0);
  }

  /** The lines of the tree object for a level, in index order. */
  ghost function Items(hash: Hash, s: seq<Entry>, base: string): seq<Item>
    requires Index(s) && AllBelow(s, base)
    decreases Size(s, base)
  {
    if s == [] then []
    else if IsFile(s[0], base) then
      SizeSplit(s, base, 1);
      [Item(s[0].mode, Rest(s[0], base), s[0].oid)] + Items(hash, s[1..], base)
    else
      FirstGroup(s, base);
      var dir := DirOf(s[0], base);
      var n := Run(s, Inner(base, dir));
      [Item(DIR_MODE, dir, hash(Items(hash, s[..n], Inner(base, dir))))] + Items(hash, s[n..], base)
  }

  ghost function TreeId(hash: Hash, s: seq<Entry>, base: string): Oid
    requires Index(s) && AllBelow(s, base)
  {
    hash(Items(hash, s, base))
  }

  // ---------------------------------------------------------------- nodes

  /** struct cache_tree; a negative count marks the node invalid. */
  datatype Tree = Tree(count: int, oid: Oid, down: seq<Sub>)

  /** struct cache_tree_sub; count and used are scratch fields of an update. */
  datatype Sub = Sub(name: string, tree: Tree, count: nat, used: bool)

  const NULL_OID: Oid := "00000000000000000000"

  /** cache_tree(). */
  const EMPTY: Tree := Tree(-1, NULL_OID, [])

  /** subtree_name_cmp: shorter names first. */
  predicate SubLess(a: string, b: string) {
    |a| < |b| || (|a| == |b| && Less(a, b))
  }

  ghost predicate SortedNames(down: seq<Sub>) {
    forall i, j :: 0 <= i < j < |down| ==> SubLess(down[i].name, down[j].name)
  }

  ghost predicate SortedDown(down: seq<Sub>) {
    && SortedNames(down)
    && (forall i :: 0 <= i < |down| ==> Slash(down[i].name) == |down[i].name|)
  }

  lemma {:induction false} UnderMembers(s: seq<Entry>, base: string)
    ensures forall e :: e in Under(s, base) <==> e in s && Below(e, base)
    ensures |Under(s, base)| <= |s|
  {
    if s != [] {
      UnderMembers(s[1..], base);
      assert s == [s[0]] + s[1..];
    }
  }

  lemma UnderStep(s: seq<Entry>, base: string)
    ensures Under(s, base) ==
      if s == [] then [] else if Below(s[0], base) then [s[0]] + Under(s[1..], base) else Under(s[1..], base)
  {
    hide Below;
  }

  lemma FrontAtMost(s: seq<Entry>)
    requires Index(s) && s != []
    ensures Index([s[0]]) && forall k :: 0 <= k < |s[1..]| ==> AtMost(s[0].name, s[1..][k].name)
  {
    hide Less;
  }

  lemma NothingIsIndex(base: string)
    ensures Index([]) && AllBelow([], base)
  {
  }

  lemma BelowCons(e: Entry, u: seq<Entry>, base: string)
    requires AllBelow(u, base)
    ensures Below(e, base) ==> AllBelow([e] + u, base)
  {
    hide Below;
  }

  lemma {:induction false} UnderIsIndex(s: seq<Entry>, base: string)
    requires Index(s)
    ensures Index(Under(s, base)) && AllBelow(Under(s, base), base)
  {
    hide Under, Less, AtMost, Below, Index, AllBelow;
    UnderStep(s, base);
    NothingIsIndex(base);
    if s != [] {
      IndexParts(s, 1);
      FrontAtMost(s);
      UnderIsIndex(s[1..], base);
      UnderMembers(s[1..], base);
      var u := Under(s[1..], base);
      forall j | 0 <= j < |u|
        ensures AtMost(s[0].name, u[j].name)
      {
        assert u[j] in s[1..];
        var k :| 0 <= k < |s[1..]| && s[1..][k] == u[j];
      }
      IndexCons(s[0], u);
      BelowCons(s[0], u, base);
    }
  }

  lemma IndexCons(e: Entry, u: seq<Entry>)
    requires Index([e]) && Index(u) && forall j :: 0 <= j < |u| ==> AtMost(e.name, u[j].name)
    ensures Index([e] + u)
  {
    hide Less;
    var v := [e] + u;
    assert forall j :: 0 < j < |v| ==> v[j] == u[j - 1];
    assert v[0] == [e][0];
  }

  /** The node, and every node below it, says what building the tree from s alone would say. */
  ghost predicate Matches(hash: Hash, it: Tree, s: seq<Entry>, base: string)
    requires Index(s) && AllBelow(s, base)
    decreases it
  {
    && it.count == |s| && it.oid == TreeId(hash, s, base)
    && SortedDown(it.down)
    && (forall k :: 0 <= k < |it.down| ==> SubMatches(hash, it.down[k], s, base))
    && (forall j :: 0 <= j < |s| && !IsFile(s[j], base) ==> HasSub(it.down, DirOf(s[j], base)))
  }

  ghost predicate SubMatches(hash: Hash, sub: Sub, s: seq<Entry>, base: string)
    requires Index(s)
    decreases sub
  {
    var inner := Inner(base, sub.name);
    UnderIsIndex(s, inner);
    Under(s, inner) != [] && Matches(hash, sub.tree, Under(s, inner), inner)
  }

  ghost predicate HasSub(down: seq<Sub>, name: string) {
    exists k :: 0 <= k < |down| && down[k].name == name
  }

  /** What holds of a cached tree at all times: a node that is marked valid matches the index. */
  ghost predicate CacheOk(hash: Hash, it: Tree, s: seq<Entry>, base: string)
    requires Index(s) && AllBelow(s, base)
    decreases it
  {
    && SortedDown(it.down)
    && (it.count >= 0 ==> Matches(hash, it, s, base))
    && (forall k :: 0 <= k < |it.down| ==> SubOk(hash, it.down[k], s, base))
  }

  ghost predicate SubOk(hash: Hash, sub: Sub, s: seq<Entry>, base: string)
    requires Index(s)
    decreases sub
  {
    var inner := Inner(base, sub.name);
    UnderIsIndex(s, inner);
    CacheOk(hash, sub.tree, Under(s, inner), inner)
  }

  lemma {:induction false} MatchesIsOk(hash: Hash, it: Tree, s: seq<Entry>, base: string)
    requires Index(s) && AllBelow(s, base) && Matches(hash, it, s, base)
    ensures CacheOk(hash, it, s, base)
    decreases it
  {
    forall k | 0 <= k < |it.down|
      ensures SubOk(hash, it.down[k], s, base)
    {
      var inner := Inner(base, it.down[k].name);
      UnderIsIndex(s, inner);
      assert SubMatches(hash, it.down[k], s, base);
      MatchesIsOk(hash, it.down[k].tree, Under(s, inner), inner);
    }
  }

  /** An index has one matching tree: the ids, counts and shape leave nothing open. */
  lemma {:induction false} MatchesIsUnique(hash: Hash, a: Tree, b: Tree, s: seq<Entry>, base: string)
    requires Index(s) && AllBelow(s, base) && Matches(hash, a, s, base) && Matches(hash, b, s, base)
    ensures Same(a, b)
    decreases a
  {
    SameNames(hash, a, b, s, base);
    SameNames(hash, b, a, s, base);
    SortedSame(a.down, b.down);
    forall k | 0 <= k < |a.down|
      ensures Same(a.down[k].tree, b.down[k].tree)
    {
      var inner := Inner(base, a.down[k].name);
      UnderIsIndex(s, inner);
      assert SubMatches(hash, a.down[k], s, base) && SubMatches(hash, b.down[k], s, base);
      MatchesIsUnique(hash, a.down[k].tree, b.down[k].tree, Under(s, inner), inner);
    }
  }

  /** Equal trees, the scratch fields aside. */
  ghost predicate Same(a: Tree, b: Tree)
    decreases a
  {
    && a.count == b.count && a.oid == b.oid && |a.down| == |b.down|
    && forall k :: 0 <= k < |a.down| ==> a.down[k].name == b.down[k].name && Same(a.down[k].tree, b.down[k].tree)
  }

  lemma SameNames(hash: Hash, a: Tree, b: Tree, s: seq<Entry>, base: string)
    requires Index(s) && AllBelow(s, base) && Matches(hash, a, s, base) && Matches(hash, b, s, base)
    ensures forall k :: 0 <= k < |a.down| ==> HasSub(b.down, a.down[k].name)
  {
    forall k | 0 <= k < |a.down|
      ensures HasSub(b.down, a.down[k].name)
    {
      var name := a.down[k].name;
      assert SubMatches(hash, a.down[k], s, base);
      UnderIsIndex(s, Inner(base, name));
      UnderMembers(s, Inner(base, name));
      var e := Under(s, Inner(base, name))[0];
      assert e in Under(s, Inner(base, name));
      var j :| 0 <= j < |s| && s[j] == e;
      OnlyItsDirectory(e, base, name);
    }
  }

  lemma SubLessOrder(a: string, b: string, c: string)
    ensures SubLess(a, b) || a == b || SubLess(b, a)
    ensures !(SubLess(a, b) && SubLess(b, a)) && !SubLess(a, a)
    ensures SubLess(a, b) && SubLess(b, c) ==> SubLess(a, c)
  {
    LessTotal(a, b);
    LessTotal(a, a);
    if Less(a, b) && Less(b, c) {
      LessTrans(a, b, c);
    }
  }

  /** Two sorted arrays with the same names list them in the same order. */
  lemma {:induction false} SortedSame(a: seq<Sub>, b: seq<Sub>)
    requires SortedDown(a) && SortedDown(b)
    requires forall k :: 0 <= k < |a| ==> HasSub(b, a[k].name)
    requires forall k :: 0 <= k < |b| ==> HasSub(a, b[k].name)
    ensures |a| == |b| && forall k :: 0 <= k < |a| ==> a[k].name == b[k].name
  {
    hide Less, SubLess, Slash;
    assert a != [] ==> HasSub(b, a[0].name);
    assert b != [] ==> HasSub(a, b[0].name);
    if a != [] && b != [] {
      FirstSame(a, b);
      TailNames(a, b);
      TailNames(b, a);
      SortedSame(a[1..], b[1..]);
      forall k | 0 <= k < |a|
        ensures a[k].name == b[k].name
      {
        assert k > 0 ==> a[1..][k - 1].name == b[1..][k - 1].name;
      }
    }
  }

  lemma FirstSame(a: seq<Sub>, b: seq<Sub>)
    requires SortedDown(a) && SortedDown(b) && a != [] && b != []
    requires HasSub(b, a[0].name) && HasSub(a, b[0].name)
    ensures a[0].name == b[0].name
  {
    var i :| 0 <= i < |b| && b[i].name == a[0].name;
    var j :| 0 <= j < |a| && a[j].name == b[0].name;
    SubLessOrder(a[0].name, b[0].name, "");
  }

  lemma TailNames(a: seq<Sub>, b: seq<Sub>)
    requires SortedDown(a) && a != [] && b != [] && a[0].name == b[0].name
    requires forall k :: 0 <= k < |a| ==> HasSub(b, a[k].name)
    ensures forall k :: 0 <= k < |a[1..]| ==> HasSub(b[1..], a[1..][k].name)
  {
    forall k | 0 <= k < |a[1..]|
      ensures HasSub(b[1..], a[1..][k].name)
    {
      var i :| 0 <= i < |b| && b[i].name == a[k + 1].name;
      SubLessOrder(a[0].name, a[k + 1].name, "");
      assert b[1..][i - 1].name == a[k + 1].name;
    }
  }
}

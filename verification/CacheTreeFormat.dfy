/** The on-disk form of a cached tree (cache-tree.c, write_one and read_one).  A char is a byte. */
module CacheTreeFormat {
  import opened CacheTree
  import opened CacheTreeUpdate

  // ---------------------------------------------------------------- numbers

  predicate IsDigit(c: char) {
    '0' <= c <= '9'
  }

  predicate IsSpace(c: char) {
    c == ' ' || '\t' <= c <= '\r'
  }

  /** printf %d. */
  function Decimal(n: int): string {
    if n < 0 then "-" + DecimalNat(-n) else DecimalNat(n)
  }

  function DecimalNat(n: nat): (s: string)
    ensures s != "" && forall i :: 0 <= i < |s| ==> IsDigit(s[i])
  {
    if n < 10 then ['0' + n as char] else DecimalNat(n / 10) + ['0' + (n % 10) as char]
  }

  function ValueOf(s: string): nat
    requires forall i :: 0 <= i < |s| ==> IsDigit(s[i])
  {
    if s == "" then 0
    else
      assert IsDigit(s[|s| - 1]);
      ValueOf(s[..|s| - 1]) * 10 + (s[|s| - 1] as int - '0' as int)
  }

  function DigitRun(s: string): (n: nat)
    ensures n <= |s|
    ensures forall i :: 0 <= i < n ==> IsDigit(s[i])
    ensures n < |s| ==> !IsDigit(s[n])
  {
    if s == "" || !IsDigit(s[0]) then 0 else 1 + DigitRun(s[1..])
  }

  function SpaceRun(s: string): (n: nat)
    ensures n <= |s|
  {
    if s == "" || !IsSpace(s[0]) then 0 else 1 + SpaceRun(s[1..])
  }

  datatype Number = NoNumber | Number(value: int, length: nat)

  /** A sign and digits; the length counts both. */
  function Signed(t: string): (r: Number)
    ensures r.Number? ==> r.length <= |t|
  {
    var sign := if t != "" && (t[0] == '-' || t[0] == '+') then 1 else 0;
    var digits := DigitRun(t[sign..]);
    if digits == 0 then NoNumber
    else
      var value: int := ValueOf(t[sign..][..digits]);
      Number(if sign == 1 && t[0] == '-' then -value else value, sign + digits)
  }

  /** strtol in base 10: leading space, a sign, digits; the length counts all of it. */
  function StrToL(s: string): (r: Number)
    ensures r.Number? ==> r.length <= |s|
  {
    var space := SpaceRun(s);
    match Signed(s[space..])
    case NoNumber => NoNumber
    case Number(value, length) => Number(value, space + length)
  }

  lemma {:induction false} ValueOfDecimal(n: nat)
    ensures ValueOf(DecimalNat(n)) == n
  {
    if n >= 10 {
      ValueOfDecimal(n / 10);
      var s := DecimalNat(n);
      assert s[..|s| - 1] == DecimalNat(n / 10);
    }
  }

  lemma {:induction false} DigitRunOf(d: string, rest: string)
    requires forall i :: 0 <= i < |d| ==> IsDigit(d[i])
    requires rest == "" || !IsDigit(rest[0])
    ensures DigitRun(d + rest) == |d|
  {
    if d == "" {
      assert d + rest == rest;
    } else {
      assert (d + rest)[1..] == d[1..] + rest;
      DigitRunOf(d[1..], rest);
    }
  }

  lemma Split<T>(a: seq<T>, b: seq<T>)
    ensures (a + b)[..|a|] == a && (a + b)[|a|..] == b
  {
  }

  lemma Associate<T>(a: seq<T>, b: seq<T>, c: seq<T>)
    ensures (a + b) + c == a + (b + c)
  {
  }

  lemma SignedNatural(n: nat, rest: string)
    requires rest == "" || !IsDigit(rest[0])
    ensures
      var d := DecimalNat(n);
      && Signed(d + rest) == Number(n, |d|)
      && Signed("-" + (d + rest)) == Number(0 - (n as int), |d| + 1)
  {
    hide DecimalNat, ValueOf, DigitRun;
    var d := DecimalNat(n);
    ValueOfDecimal(n);
    DigitRunOf(d, rest);
    Split(d, rest);
    var t, u := d + rest, "-" + (d + rest);
    assert IsDigit(t[0]) && t[0..] == t && u[1..] == t;
  }

  lemma NoSpace(s: string, value: int, length: nat)
    requires s != "" && !IsSpace(s[0]) && Signed(s) == Number(value, length)
    ensures StrToL(s) == Number(value, length) && StrToL(" " + s) == Number(value, length + 1)
  {
    hide Signed;
    var t := " " + s;
    assert t[1..] == s && s[0..] == s;
    assert SpaceRun(s) == 0 && SpaceRun(t[1..]) == 0;
  }

  /** Reading back a printed number, with or without a blank before it. */
  lemma ReadNumber(n: int, rest: string)
    requires rest == "" || !IsDigit(rest[0])
    ensures StrToL(Decimal(n) + rest) == Number(n, |Decimal(n)|)
    ensures StrToL(" " + (Decimal(n) + rest)) == Number(n, |Decimal(n)| + 1)
  {
    hide DecimalNat, Signed, StrToL;
    var d := DecimalNat(if n < 0 then -n else n);
    SignedNatural(if n < 0 then -n else n, rest);
    assert IsDigit(d[0]);
    if n < 0 {
      Associate("-", d, rest);
    }
    NoSpace(Decimal(n) + rest, n, |Decimal(n)|);
  }

  // ---------------------------------------------------------------- writing

  /** What write_one accepts, with names that contain no NUL. */
  ghost predicate Writable(it: Tree)
    decreases it
  {
    && SortedNames(it.down)
    && forall k :: 0 <= k < |it.down| ==> '\0' !in it.down[k].name && Writable(it.down[k].tree)
  }

  /** The bytes of one node and everything below it. */
  function Written(it: Tree, path: string): string
    decreases it, 1
  {
    Node(path, it.count, |it.down|, if it.count >= 0 then it.oid else "", WrittenSubs(it, 0))
  }

  /** A name, a line with the two counts, the id of a valid node, and the subtrees. */
  function Node(path: string, count: int, nr: nat, oid: string, subs: string): string {
    path + ("\0" + (Line(count, nr) + (oid + subs)))
  }

  function Line(count: int, nr: nat): string {
    Decimal(count) + (" " + (Decimal(nr) + "\n"))
  }

  /** The bytes of the subtrees from the k-th on. */
  function WrittenSubs(it: Tree, k: nat): string
    requires k <= |it.down|
    decreases it, 0, |it.down| - k
  {
    if k == |it.down| then "" else Written(it.down[k].tree, it.down[k].name) + WrittenSubs(it, k + 1)
  }

  /** write_one, which dies on an unsorted array. */
  method WriteOne(buffer0: string, it: Tree, path: string) returns (buffer: string)
    requires Writable(it)
    ensures buffer == buffer0 + Written(it, path)
    decreases it
  {
    var oid := if 0 <= it.count then it.oid else "";
    buffer := buffer0 + path;
    buffer := buffer + ("\0" + Line(it.count, |it.down|));
    buffer := buffer + oid;
    ghost var head, subs := buffer, WrittenSubs(it, 0);
    var i := 0;
    while i < |it.down|
      invariant 0 <= i <= |it.down|
      invariant buffer + WrittenSubs(it, i) == head + subs
    {
      assert i > 0 ==> SubLess(it.down[i - 1].name, it.down[i].name);
      Associate(buffer, Written(it.down[i].tree, it.down[i].name), WrittenSubs(it, i + 1));
      buffer := WriteOne(buffer, it.down[i].tree, it.down[i].name);
      i := i + 1;
    }
    assert buffer + "" == buffer;
    HeadAndSubs(buffer0, path, Line(it.count, |it.down|), oid, subs);
  }

  lemma HeadAndSubs(buffer: string, path: string, line: string, oid: string, subs: string)
    ensures buffer + path + ("\0" + line) + oid + subs == buffer + (path + ("\0" + (line + (oid + subs))))
  {
  }

  /** The bytes of a small tree: 12 entries, with an invalid subtree and one of 3 entries, the shorter name first. */
  lemma KnownBytes(a: Oid, b: Oid, c: Oid)
    ensures var it := Tree(12, a, [Sub("src", Tree(-1, b, []), 7, true), Sub("apps", Tree(3, c, []), 0, false)]);
      Writable(it) && Written(it, "") == "\0" + "12 2\n" + a + "src\0" + "-1 0\n" + "apps\0" + "3 0\n" + c
  {
    var it := Tree(12, a, [Sub("src", Tree(-1, b, []), 7, true), Sub("apps", Tree(3, c, []), 0, false)]);
    TwelveTwo();
    LeafBytes(Tree(-1, b, []), "src", "-1", "");
    LeafBytes(Tree(3, c, []), "apps", "3", c);
    TwoSubs(it);
    KnownParts(a, c);
  }

  lemma TwelveTwo()
    ensures Line(12, 2) == "12 2\n"
  {
    assert DecimalNat(1) == "1";
    assert DecimalNat(12) == "12";
  }

  lemma LeafBytes(it: Tree, path: string, count: string, oid: string)
    requires it.down == [] && count == Decimal(it.count) && oid == if it.count >= 0 then it.oid else ""
    ensures Written(it, path) == path + ("\0" + (count + " 0\n" + oid))
  {
    assert WrittenSubs(it, 0) == "";
    assert Line(it.count, 0) == count + " 0\n";
    assert oid + "" == oid;
  }

  lemma TwoSubs(it: Tree)
    requires |it.down| == 2
    ensures WrittenSubs(it, 0)
      == Written(it.down[0].tree, it.down[0].name) + Written(it.down[1].tree, it.down[1].name)
  {
    hide Written;
    assert WrittenSubs(it, 2) == "";
    assert WrittenSubs(it, 1) == Written(it.down[1].tree, it.down[1].name) + "";
    assert WrittenSubs(it, 0) == Written(it.down[0].tree, it.down[0].name) + WrittenSubs(it, 1);
  }

  lemma KnownParts(a: string, c: string)
    ensures "" + ("\0" + ("12 2\n"
      + (a + ("src" + ("\0" + ("-1" + " 0\n" + "")) + ("apps" + ("\0" + ("3" + " 0\n" + c)))))))
      == "\0" + "12 2\n" + a + "src\0" + "-1 0\n" + "apps\0" + "3 0\n" + c
  {
  }

  // ---------------------------------------------------------------- reading

  function IndexOfAny(s: string, a: char, b: char): (n: nat)
    ensures n <= |s|
    ensures n < |s| ==> s[n] == a || s[n] == b
    ensures forall i :: 0 <= i < n ==> s[i] != a && s[i] != b
  {
    if s == "" || s[0] == a || s[0] == b then 0 else 1 + IndexOfAny(s[1..], a, b)
  }

  datatype Reading = Corrupt | Died | Got(tree: Tree, rest: string)

  /** cache_tree_sub followed by setting its tree: replaced if present, else put in its place. */
  function PutSub(down: seq<Sub>, name: string, tree: Tree): seq<Sub> {
    if down == [] then [Sub(name, tree, 0, false)]
    else if down[0].name == name then [down[0].(tree := tree)] + down[1..]
    else if SubLess(down[0].name, name) then [down[0]] + PutSub(down[1..], name, tree)
    else [Sub(name, tree, 0, false)] + down
  }

  datatype Head = BadHead | Head(it: Tree, nr: int, rest: string)

  /** The part of read_one before its loop: the name, and what stands behind it. */
  function ReadHead(buf: string): (h: Head)
    ensures h.Head? ==> |h.rest| < |buf| && h.it.down == []
  {
    var n := IndexOfAny(buf, '\0', '\0');
    if n == |buf| then BadHead else ReadCounts(buf[n + 1..])
  }

  /** The line with the counts, and the id. */
  function ReadCounts(s: string): (h: Head)
    ensures h.Head? ==> |h.rest| <= |s| && h.it.down == []
  {
    var count := StrToL(s);
    if count.NoNumber? then BadHead
    else
      var nr := StrToL(s[count.length..]);
      if nr.NoNumber? then BadHead
      else
        var line := IndexOfAny(s, '\0', '\n');
        if line == |s| then BadHead else ReadId(count.value, nr.value, s[line + 1..])
  }

  function ReadId(count: int, nr: int, t: string): (h: Head)
    ensures h.Head? ==> |h.rest| <= |t| && h.it.down == []
  {
    if count < 0 then Head(Tree(count, NULL_OID, []), nr, t)
    else if |t| < 20 then BadHead
    else Head(Tree(count, t[..20], []), nr, t[20..])
  }

  /** read_one. */
  function Read(buf: string): (r: Reading)
    ensures r.Got? ==> |r.rest| < |buf|
    decreases |buf|, 0
  {
    match ReadHead(buf)
    case BadHead => Corrupt
    case Head(it, nr, rest) => ReadSubs(rest, nr, nr, it)
  }

  /** The loop of read_one over the subtrees, with left of them still to come. */
  function ReadSubs(buf: string, left: int, nr: int, it: Tree): (r: Reading)
    ensures r.Got? ==> |r.rest| <= |buf|
    decreases |buf|, 1
  {
    if left <= 0 then (if nr != |it.down| then Died else Got(it, buf))
    else
      match Read(buf)
      case Got(tree, rest) =>
        var name := buf[..IndexOfAny(buf, '\0', '\0')];
        ReadSubs(rest, left - 1, nr, it.(down := PutSub(it.down, name, tree)))
      case bad => bad
  }

  lemma PutSubFound(down: seq<Sub>, name: string, tree: Tree, pos: nat)
    requires SortedNames(down) && pos < |down| && down[pos].name == name
    ensures PutSub(down, name, tree) == down[pos := down[pos].(tree := tree)]
  {
    SubLessOrder(name, name, "");
    if pos > 0 {
      assert SubLess(down[0].name, name);
      PutSubFound(down[1..], name, tree, pos - 1);
    }
  }

  lemma {:induction false} PutSubAbsent(down: seq<Sub>, name: string, tree: Tree, pos: nat)
    requires SortedNames(down) && GoesAt(down, name, pos)
    ensures PutSub(down, name, tree) == down[..pos] + [Sub(name, tree, 0, false)] + down[pos..]
  {
    SubLessOrder(name, name, "");
    if pos > 0 {
      PutSubAbsent(down[1..], name, tree, pos - 1);
      assert down[..pos] == [down[0]] + down[1..][..pos - 1];
    } else if down != [] {
      SubLessOrder(name, down[0].name, "");
      assert down[..0] + [Sub(name, tree, 0, false)] + down[0..] == [Sub(name, tree, 0, false)] + down;
    }
  }

  lemma InsertSorted(down: seq<Sub>, sub: Sub, pos: nat)
    requires SortedNames(down) && GoesAt(down, sub.name, pos)
    ensures SortedNames(down[..pos] + [sub] + down[pos..])
  {
    var d := down[..pos] + [sub] + down[pos..];
    assert forall k :: 0 <= k < |d| ==> d[k] == if k < pos then down[k] else if k == pos then sub else down[k - 1];
  }

  /** cache_tree_sub with the subtree set at once. */
  method CacheTreeSub(down: seq<Sub>, name: string, tree: Tree) returns (r: seq<Sub>)
    requires SortedNames(down)
    ensures r == PutSub(down, name, tree) && SortedNames(r)
  {
    var pos := SubtreePos(down, name);
    if 0 <= pos {
      PutSubFound(down, name, tree, pos);
      return down[pos := down[pos].(tree := tree)];
    }
    pos := -pos - 1;
    PutSubAbsent(down, name, tree, pos);
    InsertSorted(down, Sub(name, tree, 0, false), pos);
    return down[..pos] + [Sub(name, tree, 0, false)] + down[pos..];
  }

  lemma ReadingOfHead(buf: string)
    ensures Read(buf)
         == match ReadHead(buf) case BadHead => Corrupt case Head(it, nr, rest) => ReadSubs(rest, nr, nr, it)
  {
  }

  lemma ReadingOfSubs(buf: string, left: int, nr: int, it: Tree)
    ensures ReadSubs(buf, left, nr, it)
         == if left <= 0 then (if nr != |it.down| then Died else Got(it, buf))
            else match Read(buf)
                 case Got(tree, rest) =>
                   ReadSubs(rest, left - 1, nr, it.(down := PutSub(it.down, buf[..IndexOfAny(buf, '\0', '\0')], tree)))
                 case bad => bad
  {
  }

  lemma ReadingOfNone(buf: string, left: int, nr: int, it: Tree)
    requires left <= 0
    ensures ReadSubs(buf, left, nr, it) == if nr != |it.down| then Died else Got(it, buf)
  {
  }

  lemma NoneSorted(down: seq<Sub>)
    requires down == []
    ensures SortedNames(down)
  {
  }

  /** read_one, with its loops. */
  method ReadOne(buf: string) returns (r: Reading)
    ensures r == Read(buf) && (r.Got? ==> |r.rest| < |buf|)
    decreases |buf|, 0
  {
    hide *;
    ReadingOfHead(buf);
    var h := ReadHead(buf);
    if h.BadHead? {
      return Corrupt;
    }
    r := ReadSubtrees(h.rest, h.nr, h.it);
  }

  /** The loop of read_one over the subtrees. */
  method ReadSubtrees(buf: string, nr: int, it0: Tree) returns (r: Reading)
    requires it0.down == []
    ensures r == ReadSubs(buf, nr, nr, it0)
    decreases |buf|, 2
  {
    hide *;
    NoneSorted(it0.down);
    var rest, it, i := buf, it0, 0;
    ghost var result := ReadSubs(buf, nr, nr, it0);
    while i < nr
      invariant 0 <= i && |rest| <= |buf| && SortedNames(it.down)
      invariant result == ReadSubs(rest, nr - i, nr, it)
      decreases nr - i
    {
      var sub;
      sub, it := ReadSubtree(rest, it, nr - i, nr);
      if !sub.Got? {
        return sub;
      }
      rest := sub.rest;
      i := i + 1;
    }
    ReadingOfNone(rest, nr - i, nr, it);
    return if nr != |it.down| then Died else Got(it, rest);
  }

  /** One subtree: read, and put in its place. */
  method ReadSubtree(buf: string, it0: Tree, ghost left: int, ghost nr: int) returns (sub: Reading, it: Tree)
    requires left > 0 && SortedNames(it0.down)
    ensures sub.Got? ==> |sub.rest| < |buf| && SortedNames(it.down)
    ensures ReadSubs(buf, left, nr, it0) == if sub.Got? then ReadSubs(sub.rest, left - 1, nr, it) else sub
    decreases |buf|, 1
  {
    hide *;
    ReadingOfSubs(buf, left, nr, it0);
    it := it0;
    sub := ReadOne(buf);
    if sub.Got? {
      var down := CacheTreeSub(it.down, buf[..IndexOfAny(buf, '\0', '\0')], sub.tree);
      it := it.(down := down);
    }
  }

  /** cache_tree_read: the whole tree starts with an empty name. */
  function CacheTreeRead(buf: string): Reading {
    if buf != "" && buf[0] != '\0' then Corrupt else Read(buf)
  }

  // ---------------------------------------------------------------- the round trip

  /** What reading can give back: the ids of invalid nodes and the scratch fields are not written. */
  function Kept(it: Tree): Tree
    decreases it, 1
  {
    Tree(it.count, if it.count >= 0 then it.oid else NULL_OID, KeptSubs(it, |it.down|))
  }

  function KeptSubs(it: Tree, k: nat): (r: seq<Sub>)
    requires k <= |it.down|
    ensures |r| == k && forall i :: 0 <= i < k ==> r[i].name == it.down[i].name
    decreases it, 0, k
  {
    if k == 0 then [] else KeptSubs(it, k - 1) + [Sub(it.down[k - 1].name, Kept(it.down[k - 1].tree), 0, false)]
  }

  lemma {:induction false} PutLast(down: seq<Sub>, name: string, tree: Tree)
    requires forall i :: 0 <= i < |down| ==> SubLess(down[i].name, name)
    ensures PutSub(down, name, tree) == down + [Sub(name, tree, 0, false)]
  {
    if down != [] {
      SubLessOrder(name, name, "");
      PutLast(down[1..], name, tree);
    }
  }

  lemma {:induction false} IndexOfAnyIs(s: string, a: char, b: char, n: nat)
    requires n < |s| && (s[n] == a || s[n] == b) && forall i :: 0 <= i < n ==> s[i] != a && s[i] != b
    ensures IndexOfAny(s, a, b) == n
  {
    if n > 0 {
      IndexOfAnyIs(s[1..], a, b, n - 1);
    }
  }

  lemma IndexOfNul(path: string, rest: string)
    requires '\0' !in path
    ensures IndexOfAny(path + ("\0" + rest), '\0', '\0') == |path|
    ensures (path + ("\0" + rest))[..|path|] == path && (path + ("\0" + rest))[|path| + 1..] == rest
  {
    var buf := path + ("\0" + rest);
    assert forall i :: 0 <= i < |path| ==> buf[i] == path[i];
    IndexOfAnyIs(buf, '\0', '\0', |path|);
  }

  lemma DecimalIsPlain(n: int)
    ensures forall i :: 0 <= i < |Decimal(n)| ==> Decimal(n)[i] != '\0' && Decimal(n)[i] != '\n'
  {
  }

  lemma EndOfLine(a: string, b: string, body: string)
    requires forall i :: 0 <= i < |a| ==> a[i] != '\0' && a[i] != '\n'
    requires forall i :: 0 <= i < |b| ==> b[i] != '\0' && b[i] != '\n'
    ensures var s := a + (" " + (b + ("\n" + body))); var n := IndexOfAny(s, '\0', '\n');
      n < |s| && s[n + 1..] == body
  {
    var s := a + (" " + (b + ("\n" + body)));
    var n := |a| + 1 + |b|;
    forall i | 0 <= i < n
      ensures s[i] != '\0' && s[i] != '\n'
    {
      assert s[i] == if i < |a| then a[i] else if i == |a| then ' ' else b[i - |a| - 1];
    }
    IndexOfAnyIs(s, '\0', '\n', n);
  }

  lemma LineAndBody(a: string, b: string, body: string)
    ensures (a + (" " + (b + "\n"))) + body == a + (" " + (b + ("\n" + body)))
  {
  }

  /** Reading the line with the two counts. */
  lemma ReadLine(count: int, nr: nat, body: string)
    ensures var s := Line(count, nr) + body; var n := IndexOfAny(s, '\0', '\n');
      && StrToL(s) == Number(count, |Decimal(count)|)
      && StrToL(s[|Decimal(count)|..]) == Number(nr, |Decimal(nr)| + 1)
      && n < |s| && s[n + 1..] == body
  {
    hide Decimal, DecimalNat, StrToL, IndexOfAny;
    var a, b := Decimal(count), Decimal(nr);
    var t := " " + (b + ("\n" + body));
    LineAndBody(a, b, body);
    ReadNumber(count, t);
    Split(a, t);
    ReadNumber(nr, "\n" + body);
    DecimalIsPlain(count);
    DecimalIsPlain(nr);
    EndOfLine(a, b, body);
  }

  lemma ReadNodeHead(path: string, count: int, nr: nat, oid: string, body: string)
    requires '\0' !in path && |oid| == if count >= 0 then 20 else 0
    ensures ReadHead(Node(path, count, nr, oid, body)) ==
      Head(Tree(count, if count >= 0 then oid else NULL_OID, []), nr, body)
  {
    hide StrToL, IndexOfAny, Decimal, Line;
    IndexOfNul(path, Line(count, nr) + (oid + body));
    ReadLine(count, nr, oid + body);
    Split(oid, body);
  }

  /** Reading one node up to its subtrees. */
  lemma ReadNode(path: string, count: int, nr: nat, oid: string, body: string)
    requires '\0' !in path && |oid| == if count >= 0 then 20 else 0
    ensures Read(Node(path, count, nr, oid, body))
         == ReadSubs(body, nr, nr, Tree(count, if count >= 0 then oid else NULL_OID, []))
  {
    ReadNodeHead(path, count, nr, oid, body);
  }

  lemma NodeAndRest(path: string, count: int, nr: nat, oid: string, subs: string, rest: string)
    ensures Node(path, count, nr, oid, subs) + rest == Node(path, count, nr, oid, subs + rest)
  {
    var line := Line(count, nr);
    Associate(oid, subs, rest);
    Associate(line, oid + subs, rest);
    Associate("\0", line + (oid + subs), rest);
    Associate(path, "\0" + (line + (oid + subs)), rest);
  }

  /** Reading a written node gives it back and stops right behind it. */
  lemma {:induction false} ReadWritten(it: Tree, path: string, rest: string)
    requires Writable(it) && '\0' !in path
    ensures Read(Written(it, path) + rest) == Got(Kept(it), rest)
    decreases it, 1
  {
    hide IndexOfAny, Line;
    var oid := if it.count >= 0 then it.oid else "";
    NodeAndRest(path, it.count, |it.down|, oid, WrittenSubs(it, 0), rest);
    ReadNode(path, it.count, |it.down|, oid, WrittenSubs(it, 0) + rest);
    ReadWrittenSubs(it, 0, rest);
  }

  /** The tree that read_one has put together after k subtrees. */
  function Partial(it: Tree, k: nat): Tree
    requires k <= |it.down|
  {
    Tree(it.count, if it.count >= 0 then it.oid else NULL_OID, KeptSubs(it, k))
  }

  /** Reading on from the k-th subtree. */
  function ReadFrom(it: Tree, k: nat, rest: string): Reading
    requires k <= |it.down|
  {
    ReadSubs(WrittenSubs(it, k) + rest, |it.down| - k, |it.down|, Partial(it, k))
  }

  lemma NextPartial(it: Tree, k: nat)
    requires Writable(it) && k < |it.down|
    ensures var p := Partial(it, k);
      p.(down := PutSub(p.down, it.down[k].name, Kept(it.down[k].tree))) == Partial(it, k + 1)
  {
    PutLast(KeptSubs(it, k), it.down[k].name, Kept(it.down[k].tree));
  }

  lemma {:induction false} ReadWrittenSubs(it: Tree, k: nat, rest: string)
    requires Writable(it) && k <= |it.down|
    ensures ReadFrom(it, k, rest) == Got(Kept(it), rest)
    decreases it, 0, |it.down| - k
  {
    if k == |it.down| {
      ReadNoSubs(it, rest);
    } else {
      ReadWritten(it.down[k].tree, it.down[k].name, WrittenSubs(it, k + 1) + rest);
      ReadWrittenSubs(it, k + 1, rest);
      ReadNextSub(it, k, rest);
    }
  }

  lemma WrittenSubsStep(it: Tree, k: nat, rest: string)
    requires k < |it.down|
    ensures WrittenSubs(it, k) + rest == Written(it.down[k].tree, it.down[k].name) + (WrittenSubs(it, k + 1) + rest)
  {
    var first, tail := Written(it.down[k].tree, it.down[k].name), WrittenSubs(it, k + 1);
    assert WrittenSubs(it, k) == first + tail;
    Associate(first, tail, rest);
  }

  lemma ReadNextSub(it: Tree, k: nat, rest: string)
    requires Writable(it) && k < |it.down|
    requires var sub, tail := it.down[k], WrittenSubs(it, k + 1) + rest;
      && Read(Written(sub.tree, sub.name) + tail) == Got(Kept(sub.tree), tail)
      && ReadFrom(it, k + 1, rest) == Got(Kept(it), rest)
    ensures ReadFrom(it, k, rest) == Got(Kept(it), rest)
  {
    hide Read, ReadSubs, Written, WrittenSubs, Kept, PutSub, Partial, IndexOfAny, SubLess;
    var sub := it.down[k];
    var tail := WrittenSubs(it, k + 1) + rest;
    var buf := Written(sub.tree, sub.name) + tail;
    WrittenSubsStep(it, k, rest);
    WrittenName(sub.tree, sub.name, tail);
    NextPartial(it, k);
    ReadSubsStep(buf, sub.name, Kept(sub.tree), tail, |it.down| - k, |it.down|, Partial(it, k));
  }

  lemma ReadNoSubs(it: Tree, rest: string)
    ensures ReadFrom(it, |it.down|, rest) == Got(Kept(it), rest)
  {
    assert "" + rest == rest;
  }

  lemma ReadSubsStep(buf: string, name: string, tree: Tree, tail: string, left: int, nr: int, it: Tree)
    requires left > 0 && Read(buf) == Got(tree, tail) && buf[..IndexOfAny(buf, '\0', '\0')] == name
    ensures ReadSubs(buf, left, nr, it) == ReadSubs(tail, left - 1, nr, it.(down := PutSub(it.down, name, tree)))
  {
  }

  lemma WrittenName(it: Tree, name: string, tail: string)
    requires '\0' !in name
    ensures var buf := Written(it, name) + tail; buf[..IndexOfAny(buf, '\0', '\0')] == name
  {
    var oid := if it.count >= 0 then it.oid else "";
    NodeAndRest(name, it.count, |it.down|, oid, WrittenSubs(it, 0), tail);
    IndexOfNul(name, Line(it.count, |it.down|) + (oid + (WrittenSubs(it, 0) + tail)));
  }

  /** cache_tree_read undoes cache_tree_write, and consumes exactly what was written. */
  lemma RoundTrip(it: Tree, rest: string)
    requires Writable(it)
    ensures CacheTreeRead(Written(it, "") + rest) == Got(Kept(it), rest)
  {
    assert Written(it, "")[0] == '\0';
    ReadWritten(it, "", rest);
  }
}

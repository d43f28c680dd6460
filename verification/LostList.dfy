/** The doubly linked lists of lost lines and the surgery coalesce_lines does on them
    (combine-diff.c:164-285, 315-335). */
module LostList {
  import opened Coalesce

  class Line {
    const text: string
    var parents: set<nat>
    var next: Line?
    var prev: Line?

    constructor (text: string, parents: set<nat>)
      ensures this.text == text && this.parents == parents && next == null && prev == null
    {
      this.text, this.parents, next, prev := text, parents, null, null;
    }
  }

  function At(s: seq<Line>, k: int): Line? {
    if 0 <= k < |s| then s[k] else null
  }

  function Back(s: seq<Line>, before: Line?, k: nat): Line?
    requires k <= |s|
  {
    if k == 0 then before else s[k - 1]
  }

  ghost predicate NoRepeat(s: seq<Line>) {
    forall k, l :: 0 <= k < l < |s| ==> s[k] != s[l]
  }

  ghost predicate LinkAt(s: seq<Line>, before: Line?, k: nat)
    requires k < |s|
    reads s`next, s`prev
  {
    s[k].next == At(s, k + 1) && s[k].prev == Back(s, before, k)
  }

  /** The nodes in order, each linked to its neighbours; before is what the first one points back to. */
  ghost predicate Chained(s: seq<Line>, before: Line?)
    reads s`next, s`prev
  {
    NoRepeat(s) && forall k :: 0 <= k < |s| ==> LinkAt(s, before, k)
  }

  ghost predicate Linked(s: seq<Line>)
    reads s`next, s`prev
  {
    Chained(s, null)
  }

  ghost function Values(s: seq<Line>): (v: seq<Lost>)
    reads s
    ensures |v| == |s| && forall k :: 0 <= k < |s| ==> v[k] == Lost(s[k].text, s[k].parents)
  {
    seq(|s|, k requires 0 <= k < |s| reads s => Lost(s[k].text, s[k].parents))
  }

  ghost predicate Spells(s: seq<Line>, t: seq<string>) {
    |s| == |t| && forall k :: 0 <= k < |s| ==> s[k].text == t[k]
  }

  // ---------------------------------------------------------------- the tables

  /** What the two tables are to hold. */
  datatype Table = Table(lcs: (nat, nat) -> nat, toward: (nat, nat) -> Direction)

  ghost predicate Recurs(t: Table, m: Match, b: seq<string>, a: seq<string>, i: nat, j: nat)
    requires 1 <= i <= |b| && 1 <= j <= |a|
  {
    if m(b[i - 1], a[j - 1]) then t.toward(i, j) == Both && t.lcs(i, j) == t.lcs(i - 1, j - 1) + 1
    else if t.lcs(i, j - 1) >= t.lcs(i - 1, j) then t.toward(i, j) == New && t.lcs(i, j) == t.lcs(i, j - 1)
    else t.toward(i, j) == Base && t.lcs(i, j) == t.lcs(i - 1, j)
  }

  ghost predicate RecursAll(t: Table, m: Match, b: seq<string>, a: seq<string>) {
    forall i, j :: 1 <= i <= |b| && 1 <= j <= |a| ==> Recurs(t, m, b, a, i, j)
  }

  ghost function TableFor(m: Match, b: seq<string>, a: seq<string>): Table {
    Table((i: nat, j: nat) => if i <= |b| && j <= |a| then Lcs(m, b, a, i, j) else 0,
          (i: nat, j: nat) => if i <= |b| && j <= |a| then Toward(m, b, a, i, j) else Base)
  }

  lemma TableRecurs(m: Match, b: seq<string>, a: seq<string>)
    ensures RecursAll(TableFor(m, b, a), m, b, a)
  {
    forall i, j | 1 <= i <= |b| && 1 <= j <= |a|
      ensures Recurs(TableFor(m, b, a), m, b, a, i, j)
    {
      CellRecurs(m, b, a, i, j);
    }
  }

  lemma CellRecurs(m: Match, b: seq<string>, a: seq<string>, i: nat, j: nat)
    requires 1 <= i <= |b| && 1 <= j <= |a|
    ensures Recurs(TableFor(m, b, a), m, b, a, i, j)
  {
  }

  lemma TableEdges(m: Match, b: seq<string>, a: seq<string>)
    ensures forall j :: 0 <= j <= |a| ==> TableFor(m, b, a).lcs(0, j) == 0
    ensures forall j :: 0 <= j <= |a| ==> TableFor(m, b, a).toward(0, j) == if j == 0 then Base else New
    ensures forall i :: 0 <= i <= |b| ==> TableFor(m, b, a).lcs(i, 0) == 0 && TableFor(m, b, a).toward(i, 0) == Base
  {
  }

  /** The first cells of a row hold what they are to hold. */
  ghost predicate RowDone(t: Table, lcs: array2<nat>, directions: array2<Direction>, i: nat, cells: nat)
    requires lcs.Length0 == directions.Length0 && lcs.Length1 == directions.Length1
    requires i < lcs.Length0 && cells <= lcs.Length1
    reads lcs, directions
  {
    forall j :: 0 <= j < cells ==> lcs[i, j] == t.lcs(i, j) && directions[i, j] == t.toward(i, j)
  }

  ghost predicate RowsDone(t: Table, lcs: array2<nat>, directions: array2<Direction>,
                           from: nat, to: nat, cells: nat)
    requires lcs.Length0 == directions.Length0 && lcs.Length1 == directions.Length1
    requires to <= lcs.Length0 && cells <= lcs.Length1
    reads lcs, directions
  {
    forall i :: from <= i < to ==> RowDone(t, lcs, directions, i, cells)
  }

  /** Fills the table of directions and finds both ends. */
  method FillTables(m: Match, base: Line, added: Line, ghost bs: seq<Line>, ghost ns: seq<Line>, lenBase: nat,
                    lenAdded: nat, ghost b: seq<string>, ghost a: seq<string>)
    returns (directions: array2<Direction>, baseEnd: Line, addedEnd: Line)
    requires Linked(bs) && Linked(ns) && |bs| == lenBase > 0 && |ns| == lenAdded > 0 && bs[0] == base && ns[0] == added
    requires Spells(bs, b) && Spells(ns, a)
    ensures fresh(directions) && directions.Length0 == lenBase + 1 && directions.Length1 == lenAdded + 1
    ensures forall i, j :: 0 <= i <= lenBase && 0 <= j <= lenAdded ==> directions[i, j] == Toward(m, b, a, i, j)
    ensures baseEnd == bs[lenBase - 1] && addedEnd == ns[lenAdded - 1]
  {
    var lcs := new nat[lenBase + 1, lenAdded + 1]((i, j) => 0);
    directions := new Direction[lenBase + 1, lenAdded + 1]((i, j) => if j == 0 then Base else New);
    ghost var t := TableFor(m, b, a);
    TableRecurs(m, b, a);
    TableEdges(m, b, a);
    baseEnd, addedEnd := FillRows(m, base, added, bs, ns, lenBase, lenAdded, lcs, directions, b, a, t);
    forall k, j | 0 <= k <= lenBase && 0 <= j <= lenAdded
      ensures directions[k, j] == Toward(m, b, a, k, j)
    {
      assert RowDone(t, lcs, directions, k, lenAdded + 1);
    }
  }

  method FillRows(m: Match, base: Line, added: Line, ghost bs: seq<Line>, ghost ns: seq<Line>, lenBase: nat,
                  lenAdded: nat, lcs: array2<nat>, directions: array2<Direction>, ghost b: seq<string>,
                  ghost a: seq<string>, ghost t: Table)
    returns (baseEnd: Line, addedEnd: Line)
    requires Linked(bs) && Linked(ns) && |bs| == lenBase > 0 && |ns| == lenAdded > 0 && bs[0] == base && ns[0] == added
    requires Spells(bs, b) && Spells(ns, a) && RecursAll(t, m, b, a)
    requires lcs.Length0 == directions.Length0 == lenBase + 1 && lcs.Length1 == directions.Length1 == lenAdded + 1
    requires RowsDone(t, lcs, directions, 0, 1, lenAdded + 1) && RowsDone(t, lcs, directions, 1, lenBase + 1, 1)
    modifies lcs, directions
    ensures RowsDone(t, lcs, directions, 0, lenBase + 1, lenAdded + 1)
    ensures baseEnd == bs[lenBase - 1] && addedEnd == ns[lenAdded - 1]
  {
    baseEnd, addedEnd := base, added;
    var i := 1;
    while i < lenBase + 1
      invariant 1 <= i <= lenBase + 1
      invariant RowsDone(t, lcs, directions, 0, i, lenAdded + 1) && RowsDone(t, lcs, directions, i, lenBase + 1, 1)
      invariant baseEnd == bs[if i <= lenBase then i - 1 else lenBase - 1]
      invariant i > lenBase ==> addedEnd == ns[lenAdded - 1]
    {
      addedEnd := FillNext(m, baseEnd, added, ns, lenAdded, lcs, directions, i, b, a, t);
      assert LinkAt(bs, null, i - 1);
      if baseEnd.next != null {
        baseEnd := baseEnd.next;
      }
      i := i + 1;
    }
  }

  method FillNext(m: Match, baseEnd: Line, added: Line, ghost ns: seq<Line>, lenAdded: nat, lcs: array2<nat>,
                  directions: array2<Direction>, i: nat, ghost b: seq<string>, ghost a: seq<string>, ghost t: Table)
    returns (addedEnd: Line)
    requires Linked(ns) && |ns| == lenAdded > 0 && ns[0] == added && Spells(ns, a) && RecursAll(t, m, b, a)
    requires 1 <= i <= |b| && baseEnd.text == b[i - 1]
    requires lcs.Length0 == directions.Length0 == |b| + 1 && lcs.Length1 == directions.Length1 == lenAdded + 1
    requires RowsDone(t, lcs, directions, 0, i, lenAdded + 1) && RowsDone(t, lcs, directions, i, |b| + 1, 1)
    modifies lcs, directions
    ensures RowsDone(t, lcs, directions, 0, i + 1, lenAdded + 1) && RowsDone(t, lcs, directions, i + 1, |b| + 1, 1)
    ensures addedEnd == ns[lenAdded - 1]
  {
    assert RowDone(t, lcs, directions, i - 1, lenAdded + 1) && RowDone(t, lcs, directions, i, 1);
    addedEnd := FillRow(m, baseEnd, added, ns, lenAdded, lcs, directions, i, b, a, t);
    ghost var width := lenAdded + 1;
    forall k | 0 <= k < i
      ensures RowDone(t, lcs, directions, k, width)
    {
      assert old(RowDone(t, lcs, directions, k, width));
    }
    forall k | i < k < |b| + 1
      ensures RowDone(t, lcs, directions, k, 1)
    {
      assert old(RowDone(t, lcs, directions, k, 1));
    }
  }

  method FillRow(m: Match, baseEnd: Line, added: Line, ghost ns: seq<Line>, lenAdded: nat, lcs: array2<nat>,
                 directions: array2<Direction>, i: nat, ghost b: seq<string>, ghost a: seq<string>, ghost t: Table)
    returns (addedEnd: Line)
    requires Linked(ns) && |ns| == lenAdded > 0 && ns[0] == added && Spells(ns, a) && RecursAll(t, m, b, a)
    requires 1 <= i <= |b| && baseEnd.text == b[i - 1]
    requires lcs.Length0 == directions.Length0 == |b| + 1 && lcs.Length1 == directions.Length1 == lenAdded + 1
    requires RowDone(t, lcs, directions, i - 1, lenAdded + 1) && RowDone(t, lcs, directions, i, 1)
    modifies lcs, directions
    ensures RowDone(t, lcs, directions, i, lenAdded + 1) && OthersKept(lcs, directions, i)
    ensures addedEnd == ns[lenAdded - 1]
  {
    addedEnd := added;
    var j := 1;
    while j < lenAdded + 1
      invariant 1 <= j <= lenAdded + 1
      invariant RowDone(t, lcs, directions, i, j) && OthersKept(lcs, directions, i)
      invariant addedEnd == ns[if j <= lenAdded then j - 1 else lenAdded - 1]
    {
      assert Recurs(t, m, b, a, i, j);
      FillCell(m, baseEnd.text, addedEnd.text, lcs, directions, i, j, b, a, t);
      assert LinkAt(ns, null, j - 1);
      if addedEnd.next != null {
        addedEnd := addedEnd.next;
      }
      j := j + 1;
    }
  }

  twostate predicate OthersKept(lcs: array2<nat>, directions: array2<Direction>, i: nat)
    requires lcs.Length0 == directions.Length0 && lcs.Length1 == directions.Length1
    reads lcs, directions
  {
    forall k, l :: 0 <= k < lcs.Length0 && k != i && 0 <= l < lcs.Length1 ==>
      lcs[k, l] == old(lcs[k, l]) && directions[k, l] == old(directions[k, l])
  }

  method FillCell(m: Match, baseText: string, addedText: string, lcs: array2<nat>, directions: array2<Direction>,
                  i: nat, j: nat, ghost b: seq<string>, ghost a: seq<string>, ghost t: Table)
    requires 1 <= i <= |b| && 1 <= j <= |a| && baseText == b[i - 1] && addedText == a[j - 1]
    requires lcs.Length0 == directions.Length0 == |b| + 1 && lcs.Length1 == directions.Length1 == |a| + 1
    requires Recurs(t, m, b, a, i, j)
    requires RowDone(t, lcs, directions, i - 1, |a| + 1) && RowDone(t, lcs, directions, i, j)
    modifies lcs, directions
    ensures RowDone(t, lcs, directions, i, j + 1) && OthersKept(lcs, directions, i)
  {
    assert lcs[i - 1, j] == t.lcs(i - 1, j) && lcs[i, j - 1] == t.lcs(i, j - 1)
      && lcs[i - 1, j - 1] == t.lcs(i - 1, j - 1);
    if m(baseText, addedText) {
      lcs[i, j] := lcs[i - 1, j - 1] + 1;
      directions[i, j] := Both;
    } else if lcs[i, j - 1] >= lcs[i - 1, j] {
      lcs[i, j] := lcs[i, j - 1];
      directions[i, j] := New;
    } else {
      lcs[i, j] := lcs[i - 1, j];
      directions[i, j] := Base;
    }
  }

  // ---------------------------------------------------------------- surgery

  lemma Shortened(s: seq<Line>, k: nat)
    requires NoRepeat(s) && k < |s|
    ensures var t := s[..k] + s[k + 1..];
      NoRepeat(t) && forall l :: 0 <= l < |t| ==> t[l] == s[if l < k then l else l + 1]
  {
  }

  /** Takes a node out of its list. */
  method Unlink(head: Line?, ghost s: seq<Line>, line: Line, ghost k: nat) returns (newHead: Line?)
    requires Linked(s) && k < |s| && s[k] == line && head == s[0]
    modifies s
    ensures Linked(s[..k] + s[k + 1..]) && newHead == At(s[..k] + s[k + 1..], 0)
    ensures line.prev == old(line.prev)
    ensures forall x :: x in s ==> x.parents == old(x.parents)
  {
    newHead := head;
    assert LinkAt(s, null, k);
    assert k > 0 ==> s[k - 1] in s;
    assert k + 1 < |s| ==> s[k + 1] in s;
    if line.prev != null {
      line.prev.next := line.next;
    } else {
      newHead := line.next;
    }
    if line.next != null {
      line.next.prev := line.prev;
    }
    ghost var t := s[..k] + s[k + 1..];
    Shortened(s, k);
    forall l | 0 <= l < |t|
      ensures LinkAt(t, null, l)
    {
      assert old(LinkAt(s, null, if l < k then l else l + 1));
    }
  }

  lemma Lengthened(s: seq<Line>, line: Line, k: nat)
    requires NoRepeat(s) && k <= |s| && line !in s
    ensures
      var t := s[..k] + [line] + s[k..];
      && NoRepeat(t) && |t| == |s| + 1 && t[k] == line
      && forall l :: 0 <= l < |t| && l != k ==> t[l] == s[if l < k then l else l - 1]
  {
  }

  /** Puts a node into a list after baseEnd, or at its head; there it still points back to where it
      came from. */
  method Insert(base: Line, ghost s: seq<Line>, ghost before: Line?, baseEnd: Line?, line: Line, ghost k: nat)
    returns (newBase: Line)
    requires Chained(s, before) && k <= |s| && |s| > 0 && base == s[0] && line !in s && baseEnd == At(s, k - 1)
    modifies s, line
    ensures Chained(s[..k] + [line] + s[k..], if k == 0 then old(line.prev) else before)
    ensures newBase == if k == 0 then line else base
    ensures forall x :: x in s || x == line ==> x.parents == old(x.parents)
  {
    newBase := base;
    assert k > 0 ==> s[k - 1] in s && LinkAt(s, before, k - 1);
    assert k < |s| ==> s[k] in s;
    if baseEnd != null {
      line.next := baseEnd.next;
      line.prev := baseEnd;
      line.prev.next := line;
    } else {
      line.next := base;
      newBase := line;
    }
    if line.next != null {
      line.next.prev := line;
    }
    ghost var t, first := s[..k] + [line] + s[k..], if k == 0 then old(line.prev) else before;
    Lengthened(s, line, k);
    forall l | 0 <= l < |t|
      ensures LinkAt(t, first, l)
    {
      assert l != k ==> old(LinkAt(s, before, if l < k then l else l - 1));
    }
  }

  // ---------------------------------------------------------------- going back over the tables

  /** Both lists in the middle of the walk: the first i base nodes and what is merged behind them, the
      first j new nodes and the matched ones behind them. */
  ghost predicate Walking(bs: seq<Line>, ns: seq<Line>, i: nat, j: nat, tail: seq<Line>, kept: seq<Line>, before: Line?)
    requires i <= |bs| && j <= |ns|
    reads (bs[..i] + tail)`next, (bs[..i] + tail)`prev, (ns[..j] + kept)`next, (ns[..j] + kept)`prev
  {
    && Chained(bs[..i] + tail, before) && Linked(ns[..j] + kept)
    && Apart(bs[..i] + tail, ns[..j] + kept)
    && (before == null || (i == 0 && before == At(ns, j - 1)))
  }

  ghost predicate Apart(s: seq<Line>, t: seq<Line>) {
    forall k, l :: 0 <= k < |s| && 0 <= l < |t| ==> s[k] != t[l]
  }

  /** A node leaves one list for a place in another. */
  method Transfer(base: Line, added: Line?, line: Line, baseEnd: Line?, ghost cur: seq<Line>, ghost left: seq<Line>,
                  ghost rest: seq<Line>, ghost i: nat, ghost j: nat, ghost before: Line?)
    returns (newBase: Line, newAdded: Line?, newEnd: Line?)
    requires Chained(cur, before) && Linked(left) && Apart(cur, left)
    requires i <= |cur| && |cur| > 0 && base == cur[0] && baseEnd == At(cur, i - 1)
    requires j < |left| && left[j] == line && added == left[0] && rest == left[..j] + left[j + 1..]
    modifies cur, left
    ensures Linked(rest) && newAdded == At(rest, 0) && newEnd == Back(left, null, j)
    ensures Chained(cur[..i] + [line] + cur[i..], if i == 0 then newEnd else before)
    ensures newBase == if i == 0 then line else base
    ensures forall x :: x in cur || x in left ==> x.parents == old(x.parents)
  {
    hide NoRepeat;
    RestApart(cur, left, j);
    assert LinkAt(left, null, j);
    newAdded := Unlink(added, left, line, j);
    newEnd := line.prev;
    newBase := Insert(base, cur, before, baseEnd, line, i);
  }

  lemma RestApart(cur: seq<Line>, left: seq<Line>, j: nat)
    requires NoRepeat(left) && Apart(cur, left) && j < |left|
    ensures left[j] !in cur && Apart(cur + [left[j]], left[..j] + left[j + 1..])
    ensures forall x :: x in left[..j] + left[j + 1..] ==> x !in cur && x != left[j]
  {
    var rest := left[..j] + left[j + 1..];
    assert forall k :: 0 <= k < |rest| ==> rest[k] == left[if k < j then k else k + 1];
  }

  /** A new node moves over. */
  method MoveOver(base: Line, added: Line?, addedEnd: Line, baseEnd: Line?, ghost bs: seq<Line>, ghost ns: seq<Line>,
                  ghost i: nat, ghost j: nat, ghost tail: seq<Line>, ghost kept: seq<Line>, ghost before: Line?)
    returns (newBase: Line, newAdded: Line?, newEnd: Line?, ghost first: Line?)
    requires i <= |bs| && 0 < j <= |ns| && Walking(bs, ns, i, j, tail, kept, before)
    requires |bs[..i] + tail| > 0 && base == (bs[..i] + tail)[0] && added == At(ns[..j] + kept, 0)
    requires addedEnd == ns[j - 1] && baseEnd == At(bs, i - 1)
    modifies bs[..i] + tail, ns[..j] + kept
    ensures Walking(bs, ns, i, j - 1, [addedEnd] + tail, kept, first)
    ensures newBase == (bs[..i] + ([addedEnd] + tail))[0] && newAdded == At(ns[..j - 1] + kept, 0)
    ensures newEnd == At(ns, j - 2)
    ensures forall x :: x in bs[..i] + tail || x in ns[..j] + kept ==> x.parents == old(x.parents)
  {
    hide NoRepeat, Apart, Chained, Linked;
    ghost var cur, left, rest := bs[..i] + tail, ns[..j] + kept, ns[..j - 1] + kept;
    WalkingTells(bs, ns, i, j, tail, kept, before);
    MoveParts(bs, ns, i, j, tail, kept, addedEnd);
    newBase, newAdded, newEnd := Transfer(base, added, addedEnd, baseEnd, cur, left, rest, i, j - 1, before);
    first := if i == 0 then newEnd else before;
  }

  lemma WalkingTells(bs: seq<Line>, ns: seq<Line>, i: nat, j: nat, tail: seq<Line>, kept: seq<Line>, before: Line?)
    requires i <= |bs| && j <= |ns| && Walking(bs, ns, i, j, tail, kept, before)
    ensures Chained(bs[..i] + tail, before) && Linked(ns[..j] + kept) && NoRepeat(ns[..j] + kept)
    ensures Apart(bs[..i] + tail, ns[..j] + kept)
  {
  }

  /** The two lists as sequences, before and after the node moves over. */
  lemma MoveParts(bs: seq<Line>, ns: seq<Line>, i: nat, j: nat, tail: seq<Line>, kept: seq<Line>, line: Line)
    requires i <= |bs| && 0 < j <= |ns| && line == ns[j - 1]
    requires Apart(bs[..i] + tail, ns[..j] + kept) && NoRepeat(ns[..j] + kept)
    ensures
      var cur, left, rest := bs[..i] + tail, ns[..j] + kept, ns[..j - 1] + kept;
      && j <= |left| && left[j - 1] == line && Back(left, null, j - 1) == At(ns, j - 2)
      && line !in cur && line !in rest && (forall x :: x in rest ==> x !in cur && x in left)
      && (forall x :: x in cur ==> x !in left)
      && left[..j - 1] + left[j..] == rest
      && cur[..i] + [line] + cur[i..] == bs[..i] + ([line] + tail)
      && Apart(bs[..i] + ([line] + tail), rest)
  {
    var cur, left := bs[..i] + tail, ns[..j] + kept;
    var rest, wide := ns[..j - 1] + kept, bs[..i] + ([line] + tail);
    assert left[j - 1] == line;
    assert left[..j - 1] + left[j..] == rest;
    assert cur[..i] + [line] + cur[i..] == wide;
    assert forall k :: 0 <= k < |rest| ==> rest[k] == left[if k < j - 1 then k else k + 1];
    assert forall k :: 0 <= k < |wide| && k != i ==> wide[k] == cur[if k < i then k else k - 1];
    assert wide[i] == line;
  }

  /** The directions and the merged prefixes, as the walk meets them. */
  datatype Plan = Plan(toward: (nat, nat) -> Direction, merge: (nat, nat) -> seq<Lost>)

  ghost predicate Follows(p: Plan, mask: set<nat>, B: seq<Lost>, A: seq<Lost>, i: nat, j: nat)
    requires i <= |B| && j <= |A|
  {
    i != 0 || j != 0 ==>
      match p.toward(i, j)
      case Both => i > 0 && j > 0 && p.merge(i, j) == p.merge(i - 1, j - 1) + [Marked(B[i - 1], mask)]
      case New => j > 0 && p.merge(i, j) == p.merge(i, j - 1) + [A[j - 1]]
      case Base => i > 0 && p.merge(i, j) == p.merge(i - 1, j) + [B[i - 1]]
  }

  ghost function PlanFor(m: Match, B: seq<Lost>, A: seq<Lost>, mask: set<nat>): Plan {
    Plan((i: nat, j: nat) => if i <= |B| && j <= |A| then Toward(m, Texts(B), Texts(A), i, j) else Base,
         (i: nat, j: nat) => if i <= |B| && j <= |A| then Merge(m, B, A, mask, i, j) else [])
  }

  ghost predicate FollowsAll(p: Plan, mask: set<nat>, B: seq<Lost>, A: seq<Lost>) {
    forall i, j :: 0 <= i <= |B| && 0 <= j <= |A| ==> Follows(p, mask, B, A, i, j)
  }

  lemma PlanFollows(m: Match, B: seq<Lost>, A: seq<Lost>, mask: set<nat>)
    ensures FollowsAll(PlanFor(m, B, A, mask), mask, B, A)
  {
    var p := PlanFor(m, B, A, mask);
    forall i, j | 0 <= i <= |B| && 0 <= j <= |A|
      ensures Follows(p, mask, B, A, i, j)
    {
      MergeStep(m, B, A, mask, i, j);
    }
  }

  lemma MergeStep(m: Match, B: seq<Lost>, A: seq<Lost>, mask: set<nat>, i: nat, j: nat)
    requires i <= |B| && j <= |A|
    ensures Follows(PlanFor(m, B, A, mask), mask, B, A, i, j)
  {
  }

  /** The nodes not yet reached are as they were, and the rest is merged. */
  ghost predicate Merging(p: Plan, mask: set<nat>, B: seq<Lost>, A: seq<Lost>, bs: seq<Line>, ns: seq<Line>, i: nat,
                          j: nat, tail: seq<Line>)
    requires |bs| == |B| && |ns| == |A| && i <= |B| && j <= |A|
    reads bs, ns, tail
  {
    && (forall k :: 0 <= k < i ==> Lost(bs[k].text, bs[k].parents) == B[k])
    && (forall k :: 0 <= k < j ==> Lost(ns[k].text, ns[k].parents) == A[k])
    && p.merge(i, j) + Values(tail) == p.merge(|B|, |A|)
  }

  /** The node the walk passes joins the tail. */
  lemma Joined(rest: seq<Lost>, line: Line, tail: seq<Line>)
    ensures rest + [Lost(line.text, line.parents)] + Values(tail) == rest + Values([line] + tail)
  {
    assert Values([line] + tail) == [Lost(line.text, line.parents)] + Values(tail);
  }

  /** The walk steps back over both ends, or over the base end alone. */
  lemma SteppedBack(bs: seq<Line>, ns: seq<Line>, i: nat, j: nat, tail: seq<Line>, kept: seq<Line>, before: Line?)
    requires 0 < i <= |bs| && j <= |ns| && Walking(bs, ns, i, j, tail, kept, before)
    ensures Walking(bs, ns, i - 1, j, [bs[i - 1]] + tail, kept, before)
    ensures j > 0 ==> Walking(bs, ns, i - 1, j - 1, [bs[i - 1]] + tail, [ns[j - 1]] + kept, before)
    ensures bs[..i] + tail == bs[..i - 1] + ([bs[i - 1]] + tail)
    ensures j > 0 ==> ns[..j] + kept == ns[..j - 1] + ([ns[j - 1]] + kept)
    ensures bs[i - 1] !in tail && bs[i - 1].prev == At(bs, i - 2)
    ensures j > 0 ==> ns[j - 1].prev == At(ns, j - 2)
  {
    var cur := bs[..i] + tail;
    assert cur == bs[..i - 1] + ([bs[i - 1]] + tail);
    assert LinkAt(cur, before, i - 1) && cur[i - 1] == bs[i - 1];
    if j > 0 {
      var left := ns[..j] + kept;
      assert left == ns[..j - 1] + ([ns[j - 1]] + kept);
      assert LinkAt(left, null, j - 1);
    }
    forall k | 0 <= k < |tail|
      ensures tail[k] != bs[i - 1]
    {
      assert cur[i + k] == tail[k];
    }
  }

  method PassBoth(ghost p: Plan, mask: set<nat>, baseEnd: Line, ghost B: seq<Lost>, ghost A: seq<Lost>,
                  ghost bs: seq<Line>, ghost ns: seq<Line>, ghost i: nat, ghost j: nat, ghost tail: seq<Line>)
    requires |bs| == |B| && |ns| == |A| && 0 < i <= |B| && 0 < j <= |A| && baseEnd == bs[i - 1] && baseEnd !in tail
    requires Merging(p, mask, B, A, bs, ns, i, j, tail)
    requires NoRepeat(bs) && Apart(bs, ns)
    requires Follows(p, mask, B, A, i, j) && p.toward(i, j) == Both
    modifies baseEnd`parents
    ensures Merging(p, mask, B, A, bs, ns, i - 1, j - 1, [bs[i - 1]] + tail)
  {
    baseEnd.parents := baseEnd.parents + mask;
    assert Values(tail) == old(Values(tail));
    Joined(p.merge(i - 1, j - 1), baseEnd, tail);
  }

  /** Everything that holds between two steps of the walk. */
  ghost predicate Going(p: Plan, mask: set<nat>, B: seq<Lost>, A: seq<Lost>, bs: seq<Line>, ns: seq<Line>, i: nat,
                        j: nat, tail: seq<Line>, kept: seq<Line>, before: Line?, merged: Line, rest: Line?,
                        baseEnd: Line?, addedEnd: Line?, len: nat)
    requires |bs| == |B| && |ns| == |A| && i <= |B| && j <= |A|
    reads bs, ns, tail, kept
  {
    && Walking(bs, ns, i, j, tail, kept, before) && Merging(p, mask, B, A, bs, ns, i, j, tail)
    && |bs[..i] + tail| > 0 && merged == (bs[..i] + tail)[0] && rest == At(ns[..j] + kept, 0)
    && baseEnd == At(bs, i - 1) && addedEnd == At(ns, j - 1)
    && len == i + |tail|
    && Drawn(tail, bs, ns) && Drawn(kept, bs, ns)
  }

  ghost predicate Drawn(s: seq<Line>, bs: seq<Line>, ns: seq<Line>) {
    forall x :: x in s ==> x in bs || x in ns
  }

  lemma DrawnMore(s: seq<Line>, x: Line, bs: seq<Line>, ns: seq<Line>)
    requires Drawn(s, bs, ns) && (x in bs || x in ns)
    ensures Drawn([x] + s, bs, ns)
  {
  }

  lemma Members(s: seq<Line>, t: seq<Line>)
    ensures forall x :: x in s || x in t <==> x in s + t
    ensures forall k :: 0 <= k < |s| ==> s[k] in s + t
    ensures forall k :: 0 <= k < |t| ==> t[k] in s + t
  {
  }

  method StepNew(ghost p: Plan, mask: set<nat>, merged: Line, rest: Line?, addedEnd: Line, baseEnd: Line?, len: nat,
                 ghost B: seq<Lost>, ghost A: seq<Lost>, ghost bs: seq<Line>, ghost ns: seq<Line>, ghost i: nat,
                 ghost j: nat, ghost tail: seq<Line>, ghost kept: seq<Line>, ghost before: Line?)
    returns (newMerged: Line, newRest: Line?, newEnd: Line?, ghost first: Line?, ghost tail1: seq<Line>)
    requires |bs| == |B| && |ns| == |A| && i <= |B| && 0 < j <= |A|
    requires Going(p, mask, B, A, bs, ns, i, j, tail, kept, before, merged, rest, baseEnd, addedEnd, len)
    requires Follows(p, mask, B, A, i, j) && p.toward(i, j) == New
    modifies bs, ns
    ensures Going(p, mask, B, A, bs, ns, i, j - 1, tail1, kept, first, newMerged, newRest, baseEnd, newEnd, len + 1)
  {
    Members(bs[..i], tail);
    Members(ns[..j], kept);
    assert Drawn(bs[..i] + tail, bs, ns) && Drawn(ns[..j] + kept, bs, ns);
    assert forall k :: 0 <= k < i ==> bs[..i][k] == bs[k];
    assert forall k :: 0 <= k < j ==> ns[..j][k] == ns[k];
    newMerged, newRest, newEnd, first := MoveOver(merged, rest, addedEnd, baseEnd, bs, ns, i, j, tail, kept, before);
    assert Values(tail) == old(Values(tail));
    Joined(p.merge(i, j - 1), addedEnd, tail);
    tail1 := [ns[j - 1]] + tail;
  }

  method StepBoth(ghost p: Plan, mask: set<nat>, merged: Line, rest: Line?, addedEnd: Line, baseEnd: Line, len: nat,
                  ghost B: seq<Lost>, ghost A: seq<Lost>, ghost bs: seq<Line>, ghost ns: seq<Line>, ghost i: nat,
                  ghost j: nat, ghost tail: seq<Line>, ghost kept: seq<Line>, ghost before: Line?)
    returns (newBaseEnd: Line?, newEnd: Line?, ghost tail1: seq<Line>, ghost kept1: seq<Line>)
    requires |bs| == |B| && |ns| == |A| && 0 < i <= |B| && 0 < j <= |A| && NoRepeat(bs) && Apart(bs, ns)
    requires Going(p, mask, B, A, bs, ns, i, j, tail, kept, before, merged, rest, baseEnd, addedEnd, len)
    requires Follows(p, mask, B, A, i, j) && p.toward(i, j) == Both
    modifies bs
    ensures Going(p, mask, B, A, bs, ns, i - 1, j - 1, tail1, kept1, before, merged, rest, newBaseEnd, newEnd, len)
  {
    hide Drawn, NoRepeat, Walking, Merging, Apart;
    SteppedBack(bs, ns, i, j, tail, kept, before);
    DrawnMore(tail, bs[i - 1], bs, ns);
    DrawnMore(kept, ns[j - 1], bs, ns);
    PassBoth(p, mask, baseEnd, B, A, bs, ns, i, j, tail);
    newBaseEnd, newEnd := baseEnd.prev, addedEnd.prev;
    tail1, kept1 := [bs[i - 1]] + tail, [ns[j - 1]] + kept;
  }

  method StepBase(ghost p: Plan, mask: set<nat>, merged: Line, rest: Line?, addedEnd: Line?, baseEnd: Line, len: nat,
                  ghost B: seq<Lost>, ghost A: seq<Lost>, ghost bs: seq<Line>, ghost ns: seq<Line>, ghost i: nat,
                  ghost j: nat, ghost tail: seq<Line>, ghost kept: seq<Line>, ghost before: Line?)
    returns (newBaseEnd: Line?, ghost tail1: seq<Line>)
    requires |bs| == |B| && |ns| == |A| && 0 < i <= |B| && j <= |A|
    requires Going(p, mask, B, A, bs, ns, i, j, tail, kept, before, merged, rest, baseEnd, addedEnd, len)
    requires Follows(p, mask, B, A, i, j) && p.toward(i, j) == Base
    ensures Going(p, mask, B, A, bs, ns, i - 1, j, tail1, kept, before, merged, rest, newBaseEnd, addedEnd, len)
  {
    SteppedBack(bs, ns, i, j, tail, kept, before);
    Joined(p.merge(i - 1, j), baseEnd, tail);
    newBaseEnd := baseEnd.prev;
    tail1 := [bs[i - 1]] + tail;
  }

  /** One round of the walk. */
  method Step(ghost p: Plan, mask: set<nat>, directions: array2<Direction>, merged: Line, rest: Line?,
              addedEnd: Line?, baseEnd: Line?, len: nat, ghost B: seq<Lost>, ghost A: seq<Lost>, ghost bs: seq<Line>,
              ghost ns: seq<Line>, i: nat, j: nat, ghost tail: seq<Line>, ghost kept: seq<Line>, ghost before: Line?)
    returns (i1: nat, j1: nat, merged1: Line, rest1: Line?, addedEnd1: Line?, baseEnd1: Line?, len1: nat,
             ghost tail1: seq<Line>, ghost kept1: seq<Line>, ghost before1: Line?)
    requires |bs| == |B| && |ns| == |A| && i <= |B| && j <= |A| && (i != 0 || j != 0) && NoRepeat(bs) && Apart(bs, ns)
    requires directions.Length0 == |B| + 1 && directions.Length1 == |A| + 1 && Follows(p, mask, B, A, i, j)
    requires directions[i, j] == p.toward(i, j)
    requires Going(p, mask, B, A, bs, ns, i, j, tail, kept, before, merged, rest, baseEnd, addedEnd, len)
    modifies bs, ns
    ensures i1 <= i && j1 <= j && i1 + j1 < i + j
    ensures Going(p, mask, B, A, bs, ns, i1, j1, tail1, kept1, before1, merged1, rest1, baseEnd1, addedEnd1, len1)
  {
    hide Walking, Merging, Drawn;
    i1, j1, merged1, rest1, addedEnd1, baseEnd1, len1 := i, j, merged, rest, addedEnd, baseEnd, len;
    tail1, kept1, before1 := tail, kept, before;
    if directions[i, j] == Both {
      i1, j1 := i - 1, j - 1;
      baseEnd1, addedEnd1, tail1, kept1 :=
        StepBoth(p, mask, merged, rest, addedEnd, baseEnd, len, B, A, bs, ns, i, j, tail, kept, before);
    } else if directions[i, j] == New {
      j1, len1 := j - 1, len + 1;
      merged1, rest1, addedEnd1, before1, tail1 :=
        StepNew(p, mask, merged, rest, addedEnd, baseEnd, len, B, A, bs, ns, i, j, tail, kept, before);
    } else {
      i1 := i - 1;
      baseEnd1, tail1 :=
        StepBase(p, mask, merged, rest, addedEnd, baseEnd, len, B, A, bs, ns, i, j, tail, kept, before);
    }
  }

  /** The whole of coalesce_lines.  The nodes of the result are rs, in order. */
  method CoalesceLines(m: Match, base: Line?, lenBase: nat, added: Line?, lenAdded: nat, mask: set<nat>,
                       ghost bs: seq<Line>, ghost ns: seq<Line>)
    returns (merged: Line?, len: nat, ghost rs: seq<Line>)
    requires Linked(bs) && Linked(ns) && Apart(bs, ns)
    requires lenBase == |bs| && lenAdded == |ns| && base == At(bs, 0) && added == At(ns, 0)
    modifies bs, ns
    ensures Linked(rs) && merged == At(rs, 0) && len == |rs|
    ensures Values(rs) == Coalesced(m, old(Values(bs)), old(Values(ns)), mask)
    ensures forall x :: x in rs ==> x in bs || x in ns
  {
    if added == null {
      return base, lenBase, bs;
    }
    if base == null {
      return added, lenAdded, ns;
    }
    ghost var B, A := Values(bs), Values(ns);
    var directions, lastBase, lastAdded := FillTables(m, base, added, bs, ns, lenBase, lenAdded, Texts(B), Texts(A));
    PlanFollows(m, B, A, mask);
    ghost var p := PlanFor(m, B, A, mask);
    merged, len, rs := GoBack(p, directions, base, lenBase, lastBase, added, lenAdded, lastAdded, mask, bs, ns, B, A);
  }

  lemma StartGoing(p: Plan, mask: set<nat>, B: seq<Lost>, A: seq<Lost>, bs: seq<Line>, ns: seq<Line>)
    requires Linked(bs) && Linked(ns) && Apart(bs, ns) && B == Values(bs) && A == Values(ns) && |bs| > 0 && |ns| > 0
    ensures Going(p, mask, B, A, bs, ns, |bs|, |ns|, [], [], null, bs[0], ns[0], bs[|bs| - 1], ns[|ns| - 1], |bs|)
    ensures NoRepeat(bs)
  {
    assert bs[..|bs|] + [] == bs && ns[..|ns|] + [] == ns;
    assert p.merge(|B|, |A|) + Values([]) == p.merge(|B|, |A|);
  }

  lemma DoneGoing(p: Plan, mask: set<nat>, B: seq<Lost>, A: seq<Lost>, bs: seq<Line>, ns: seq<Line>, tail: seq<Line>,
                  kept: seq<Line>, before: Line?, merged: Line, rest: Line?, baseEnd: Line?, addedEnd: Line?, len: nat)
    requires |bs| == |B| && |ns| == |A| && p.merge(0, 0) == []
    requires Going(p, mask, B, A, bs, ns, 0, 0, tail, kept, before, merged, rest, baseEnd, addedEnd, len)
    ensures Linked(tail) && merged == At(tail, 0) && len == |tail|
    ensures Values(tail) == p.merge(|B|, |A|) && forall x :: x in tail ==> x in bs || x in ns
  {
    assert bs[..0] + tail == tail;
    assert [] + Values(tail) == Values(tail);
  }

  method GoBack(ghost p: Plan, directions: array2<Direction>, base: Line, lenBase: nat, lastBase: Line,
                added: Line, lenAdded: nat, lastAdded: Line, mask: set<nat>,
                ghost bs: seq<Line>, ghost ns: seq<Line>, ghost B: seq<Lost>, ghost A: seq<Lost>)
    returns (merged: Line, len: nat, ghost rs: seq<Line>)
    requires Linked(bs) && Linked(ns) && Apart(bs, ns) && B == Values(bs) && A == Values(ns)
    requires lenBase == |bs| > 0 && lenAdded == |ns| > 0 && base == bs[0] && added == ns[0]
    requires lastBase == bs[lenBase - 1] && lastAdded == ns[lenAdded - 1]
    requires directions.Length0 == lenBase + 1 && directions.Length1 == lenAdded + 1
    requires forall i, j :: 0 <= i <= lenBase && 0 <= j <= lenAdded ==> directions[i, j] == p.toward(i, j)
    requires FollowsAll(p, mask, B, A) && p.merge(0, 0) == []
    modifies bs, ns
    ensures Linked(rs) && merged == At(rs, 0) && len == |rs|
    ensures Values(rs) == p.merge(lenBase, lenAdded)
    ensures forall x :: x in rs ==> x in bs || x in ns
  {
    hide Going, Linked, Apart;
    merged, len := base, lenBase;
    var rest: Line? := added;
    var baseEnd: Line?, addedEnd: Line? := lastBase, lastAdded;
    var i, j := lenBase, lenAdded;
    ghost var tail: seq<Line>, kept: seq<Line>, before: Line? := [], [], null;
    StartGoing(p, mask, B, A, bs, ns);
    while i != 0 || j != 0
      invariant 0 <= i <= lenBase && 0 <= j <= lenAdded
      invariant Going(p, mask, B, A, bs, ns, i, j, tail, kept, before, merged, rest, baseEnd, addedEnd, len)
      decreases i + j
    {
      assert Follows(p, mask, B, A, i, j);
      i, j, merged, rest, addedEnd, baseEnd, len, tail, kept, before :=
        Step(p, mask, directions, merged, rest, addedEnd, baseEnd, len, B, A, bs, ns, i, j, tail, kept, before);
    }
    DoneGoing(p, mask, B, A, bs, ns, tail, kept, before, merged, rest, baseEnd, addedEnd, len);
    rs := tail;
  }

  // ---------------------------------------------------------------- lines lost from the current parent

  /** A line without its newline. */
  function Chomp(line: string): string {
    if line != "" && line[|line| - 1] == '\n' then line[..|line| - 1] else line
  }

  class Bucket {
    var lostHead: Line?
    var lostTail: Line?
    var len: nat
    ghost var nodes: seq<Line>

    ghost predicate Valid()
      reads this, nodes
    {
      Linked(nodes) && lostHead == At(nodes, 0) && lostTail == At(nodes, |nodes| - 1) && len == |nodes|
    }

    method AppendLost(n: nat, line: string)
      requires Valid() && line != "" && n < 64
      modifies this, nodes
      ensures Valid() && Values(nodes) == old(Values(nodes)) + [Lost(Chomp(line), {n})]
      ensures |nodes| > 0 && fresh(nodes[|nodes| - 1]) && nodes[..|nodes| - 1] == old(nodes)
    {
      var text := line;
      if line[|line| - 1] == '\n' {
        text := line[..|line| - 1];
      }
      var node := new Line(text, {n});
      LinkLast(node);
    }

    method LinkLast(node: Line)
      requires Valid() && node !in nodes && node.next == null
      modifies this, nodes, node
      ensures Valid() && nodes == old(nodes) + [node]
      ensures forall x :: x in nodes ==> x.parents == old(x.parents)
    {
      ghost var was := nodes;
      assert |was| > 0 ==> LinkAt(was, null, |was| - 1) && was[|was| - 1] in was;
      node.prev := lostTail;
      if node.prev != null {
        node.prev.next := node;
      } else {
        lostHead := node;
      }
      lostTail := node;
      len := len + 1;
      nodes := was + [node];
      forall k | 0 <= k < |nodes|
        ensures LinkAt(nodes, null, k)
      {
        assert k < |was| ==> old(LinkAt(was, null, k));
      }
    }
  }
}

/** Merging the lines lost from one more parent into those already lost (combine-diff.c,
    coalesce_lines): what the merged list is and what it preserves. */
module Coalesce {

  /** A lost line and the parents that had it. */
  datatype Lost = Lost(text: string, parents: set<nat>)

  type Match = (string, string) -> bool

  function Texts(lines: seq<Lost>): (t: seq<string>)
    ensures |t| == |lines| && forall k :: 0 <= k < |lines| ==> t[k] == lines[k].text
  {
    seq(|lines|, k requires 0 <= k < |lines| => lines[k].text)
  }

  // ---------------------------------------------------------------- the longest common subsequence

  function Max(a: nat, b: nat): nat {
    if a < b then b else a
  }

  function Lcs(m: Match, base: seq<string>, added: seq<string>, i: nat, j: nat): nat
    requires i <= |base| && j <= |added|
    decreases i + j
  {
    if i == 0 || j == 0 then 0
    else if m(base[i - 1], added[j - 1]) then Lcs(m, base, added, i - 1, j - 1) + 1
    else Max(Lcs(m, base, added, i, j - 1), Lcs(m, base, added, i - 1, j))
  }

  /** Pairs of matching positions, both rising. */
  ghost predicate Aligned(m: Match, base: seq<string>, added: seq<string>, i: nat, j: nat, pairs: seq<(nat, nat)>)
    requires i <= |base| && j <= |added|
  {
    && (forall k :: 0 <= k < |pairs| ==> pairs[k].0 < i && pairs[k].1 < j && m(base[pairs[k].0], added[pairs[k].1]))
    && (forall k, l :: 0 <= k < l < |pairs| ==> pairs[k].0 < pairs[l].0 && pairs[k].1 < pairs[l].1)
  }

  /** No alignment is longer. */
  lemma {:induction false} LcsIsLongest(m: Match, base: seq<string>, added: seq<string>, i: nat, j: nat,
                                        pairs: seq<(nat, nat)>)
    requires i <= |base| && j <= |added| && Aligned(m, base, added, i, j, pairs)
    ensures |pairs| <= Lcs(m, base, added, i, j)
    decreases i + j
  {
    if pairs != [] {
      var last := pairs[|pairs| - 1];
      var rest := pairs[..|pairs| - 1];
      if m(base[i - 1], added[j - 1]) {
        LcsIsLongest(m, base, added, i - 1, j - 1, rest);
      } else if last.0 < i - 1 {
        assert Aligned(m, base, added, i - 1, j, pairs);
        LcsIsLongest(m, base, added, i - 1, j, pairs);
      } else {
        assert Aligned(m, base, added, i, j - 1, pairs);
        LcsIsLongest(m, base, added, i, j - 1, pairs);
      }
    }
  }

  /** Some alignment is as long. */
  lemma {:induction false} LcsIsReached(m: Match, base: seq<string>, added: seq<string>, i: nat, j: nat)
    returns (pairs: seq<(nat, nat)>)
    requires i <= |base| && j <= |added|
    ensures Aligned(m, base, added, i, j, pairs) && |pairs| == Lcs(m, base, added, i, j)
    decreases i + j
  {
    if i == 0 || j == 0 {
      pairs := [];
    } else if m(base[i - 1], added[j - 1]) {
      pairs := LcsIsReached(m, base, added, i - 1, j - 1);
      pairs := pairs + [(i - 1, j - 1)];
    } else if Lcs(m, base, added, i, j - 1) >= Lcs(m, base, added, i - 1, j) {
      pairs := LcsIsReached(m, base, added, i, j - 1);
    } else {
      pairs := LcsIsReached(m, base, added, i - 1, j);
    }
  }

  datatype Direction = Both | Base | New

  /** What the table of directions holds. */
  function Toward(m: Match, base: seq<string>, added: seq<string>, i: nat, j: nat): Direction
    requires i <= |base| && j <= |added|
  {
    if j == 0 then Base
    else if i == 0 then New
    else if m(base[i - 1], added[j - 1]) then Both
    else if Lcs(m, base, added, i, j - 1) >= Lcs(m, base, added, i - 1, j) then New
    else Base
  }

  // ---------------------------------------------------------------- the merged list

  function Marked(line: Lost, mask: set<nat>): Lost {
    line.(parents := line.parents + mask)
  }

  /** The first i base lines and the first j new ones merged, following the directions back; a line
      that matches gets the new parent's mask. */
  function Merge(m: Match, base: seq<Lost>, added: seq<Lost>, mask: set<nat>, i: nat, j: nat): seq<Lost>
    requires i <= |base| && j <= |added|
    decreases i + j
  {
    if i == 0 && j == 0 then []
    else
      match Toward(m, Texts(base), Texts(added), i, j)
      case Both => Merge(m, base, added, mask, i - 1, j - 1) + [Marked(base[i - 1], mask)]
      case New => Merge(m, base, added, mask, i, j - 1) + [added[j - 1]]
      case Base => Merge(m, base, added, mask, i - 1, j) + [base[i - 1]]
  }

  /** What coalesce_lines returns. */
  function Coalesced(m: Match, base: seq<Lost>, added: seq<Lost>, mask: set<nat>): seq<Lost> {
    if added == [] then base
    else if base == [] then added
    else Merge(m, base, added, mask, |base|, |added|)
  }

  /** How the table of lengths goes back with the directions. */
  lemma LcsToward(m: Match, base: seq<string>, added: seq<string>, i: nat, j: nat)
    requires i <= |base| && j <= |added| && (i != 0 || j != 0)
    ensures
      var l := Lcs(m, base, added, i, j);
      match Toward(m, base, added, i, j)
      case Both => i > 0 && j > 0 && l == Lcs(m, base, added, i - 1, j - 1) + 1
      case New => j > 0 && l == Lcs(m, base, added, i, j - 1)
      case Base => i > 0 && l == Lcs(m, base, added, i - 1, j)
  {
  }

  lemma LcsOfNone(m: Match, base: seq<string>, added: seq<string>)
    ensures Lcs(m, base, added, 0, 0) == 0
  {
  }

  lemma {:induction false} MergeLength(m: Match, base: seq<Lost>, added: seq<Lost>, mask: set<nat>, i: nat, j: nat,
                                       l: nat)
    requires i <= |base| && j <= |added| && l == Lcs(m, Texts(base), Texts(added), i, j)
    ensures |Merge(m, base, added, mask, i, j)| == i + j - l
    decreases i + j
  {
    hide Lcs, Texts;
    var b, a := Texts(base), Texts(added);
    LcsOfNone(m, b, a);
    if i != 0 || j != 0 {
      LcsToward(m, b, a, i, j);
      match Toward(m, b, a, i, j)
      case Both => MergeLength(m, base, added, mask, i - 1, j - 1, l - 1);
      case New => MergeLength(m, base, added, mask, i, j - 1, l);
      case Base => MergeLength(m, base, added, mask, i - 1, j, l);
    }
  }

  /** The merged list is as short as any alignment allows. */
  lemma CoalescedLength(m: Match, base: seq<Lost>, added: seq<Lost>, mask: set<nat>)
    ensures |Coalesced(m, base, added, mask)| == |base| + |added| - Lcs(m, Texts(base), Texts(added), |base|, |added|)
    ensures forall pairs :: Aligned(m, Texts(base), Texts(added), |base|, |added|, pairs) ==>
      |Coalesced(m, base, added, mask)| <= |base| + |added| - |pairs|
  {
    if base != [] && added != [] {
      MergeLength(m, base, added, mask, |base|, |added|, Lcs(m, Texts(base), Texts(added), |base|, |added|));
    }
    forall pairs | Aligned(m, Texts(base), Texts(added), |base|, |added|, pairs)
      ensures |pairs| <= Lcs(m, Texts(base), Texts(added), |base|, |added|)
    {
      LcsIsLongest(m, Texts(base), Texts(added), |base|, |added|, pairs);
    }
  }

  /** The lines a parent had. */
  function Of(lines: seq<Lost>, n: nat): seq<string> {
    if lines == [] then []
    else
      var last := lines[|lines| - 1];
      Of(lines[..|lines| - 1], n) + if n in last.parents then [last.text] else []
  }

  /** The list as it was before a mask came. */
  function Before(lines: seq<Lost>, mask: set<nat>): seq<Lost> {
    if lines == [] then []
    else
      var last := lines[|lines| - 1];
      Before(lines[..|lines| - 1], mask) + Unmarked(last, mask)
  }

  function Unmarked(line: Lost, mask: set<nat>): seq<Lost> {
    if line.parents <= mask then [] else [line.(parents := line.parents - mask)]
  }

  /** Line by line the same up to the match. */
  ghost predicate Matching(m: Match, a: seq<string>, b: seq<string>) {
    |a| == |b| && forall k :: 0 <= k < |a| ==> a[k] == b[k] || m(a[k], b[k])
  }

  ghost predicate NotYet(base: seq<Lost>, mask: set<nat>) {
    forall k :: 0 <= k < |base| ==> base[k].parents !! mask && base[k].parents != {}
  }

  ghost predicate OnlyFrom(added: seq<Lost>, n: nat) {
    forall k :: 0 <= k < |added| ==> added[k].parents == {n}
  }

  lemma OneMore(lines: seq<Lost>, line: Lost, n: nat)
    ensures Of(lines + [line], n) == Of(lines, n) + if n in line.parents then [line.text] else []
  {
    assert (lines + [line])[..|lines|] == lines;
  }

  lemma OneMoreBefore(lines: seq<Lost>, line: Lost, mask: set<nat>)
    ensures Before(lines + [line], mask) == Before(lines, mask) + Unmarked(line, mask)
  {
    assert (lines + [line])[..|lines|] == lines;
  }

  /** The lines marked for the new parent are its lines, and taking the mask away gives the old list. */
  ghost predicate Kept(m: Match, base: seq<Lost>, added: seq<Lost>, n: nat, mask: set<nat>, r: seq<Lost>) {
    Matching(m, Of(r, n), Texts(added)) && Before(r, mask) == base
  }

  lemma UnmarkedMarked(line: Lost, mask: set<nat>)
    requires line.parents !! mask && line.parents != {}
    ensures Unmarked(line, mask) == [line] && Unmarked(Marked(line, mask), mask) == [line]
  {
    var p :| p in line.parents;
    assert p in Marked(line, mask).parents;
    assert line.parents - mask == line.parents && Marked(line, mask).parents - mask == line.parents;
  }

  lemma UnmarkedNew(line: Lost, mask: set<nat>)
    requires line.parents <= mask
    ensures Unmarked(line, mask) == []
  {
  }

  lemma TextsOneMore(lines: seq<Lost>, line: Lost)
    ensures Texts(lines + [line]) == Texts(lines) + [line.text]
  {
  }

  lemma KeptBoth(m: Match, base: seq<Lost>, added: seq<Lost>, n: nat, mask: set<nat>, r: seq<Lost>, b: Lost, a: Lost)
    requires Kept(m, base, added, n, mask, r) && m(b.text, a.text)
    requires n in mask && b.parents !! mask && b.parents != {}
    ensures Kept(m, base + [b], added + [a], n, mask, r + [Marked(b, mask)])
  {
    hide Of, Before, Texts, Unmarked;
    OneMore(r, Marked(b, mask), n);
    OneMoreBefore(r, Marked(b, mask), mask);
    UnmarkedMarked(b, mask);
    TextsOneMore(added, a);
  }

  lemma KeptNew(m: Match, base: seq<Lost>, added: seq<Lost>, n: nat, mask: set<nat>, r: seq<Lost>, a: Lost)
    requires Kept(m, base, added, n, mask, r) && a.parents == {n} && n in mask
    ensures Kept(m, base, added + [a], n, mask, r + [a])
  {
    hide Of, Before, Texts, Unmarked;
    OneMore(r, a, n);
    OneMoreBefore(r, a, mask);
    TextsOneMore(added, a);
    UnmarkedNew(a, mask);
  }

  lemma KeptBase(m: Match, base: seq<Lost>, added: seq<Lost>, n: nat, mask: set<nat>, r: seq<Lost>, b: Lost)
    requires Kept(m, base, added, n, mask, r) && n in mask && b.parents !! mask && b.parents != {}
    ensures Kept(m, base + [b], added, n, mask, r + [b])
  {
    hide Of, Before, Texts, Unmarked;
    OneMore(r, b, n);
    OneMoreBefore(r, b, mask);
    UnmarkedMarked(b, mask);
  }

  lemma KeptNone(m: Match, base: seq<Lost>, added: seq<Lost>, n: nat, mask: set<nat>)
    requires base == [] && added == []
    ensures Kept(m, base, added, n, mask, [])
  {
  }

  lemma {:induction false} MergeKeepsBoth(m: Match, base: seq<Lost>, added: seq<Lost>, n: nat, mask: set<nat>, i: nat,
                                          j: nat, r: seq<Lost>)
    requires i <= |base| && j <= |added| && n in mask && NotYet(base, mask) && OnlyFrom(added, n)
    requires r == Merge(m, base, added, mask, i, j)
    ensures Kept(m, base[..i], added[..j], n, mask, r)
    decreases i + j
  {
    hide Lcs, Kept, Of, Before, Texts;
    if i == 0 && j == 0 {
      KeptNone(m, base[..i], added[..j], n, mask);
    } else {
      var rest := r[..|r| - 1];
      assert i > 0 ==> base[..i] == base[..i - 1] + [base[i - 1]];
      assert j > 0 ==> added[..j] == added[..j - 1] + [added[j - 1]];
      match Toward(m, Texts(base), Texts(added), i, j)
      case Both =>
        MergeKeepsBoth(m, base, added, n, mask, i - 1, j - 1, rest);
        KeptBoth(m, base[..i - 1], added[..j - 1], n, mask, rest, base[i - 1], added[j - 1]);
      case New =>
        MergeKeepsBoth(m, base, added, n, mask, i, j - 1, rest);
        KeptNew(m, base[..i], added[..j - 1], n, mask, rest, added[j - 1]);
      case Base =>
        MergeKeepsBoth(m, base, added, n, mask, i - 1, j, rest);
        KeptBase(m, base[..i - 1], added[..j], n, mask, rest, base[i - 1]);
    }
  }

  // ---------------------------------------------------------------- what merging means to each parent

  ghost predicate Exact(m: Match) {
    forall a, b :: m(a, b) ==> a == b
  }

  /** Lines of the parents before n, and of some of them. */
  ghost predicate Below(lines: seq<Lost>, n: nat) {
    forall k :: 0 <= k < |lines| ==> lines[k].parents != {} && forall p :: p in lines[k].parents ==> p < n
  }

  lemma BelowOneMore(lines: seq<Lost>, line: Lost, was: Lost, n: nat)
    requires Below(lines, n + 1) && was.parents != {} && (forall p :: p in was.parents ==> p <= n)
    requires line == was || line == Marked(was, {n})
    ensures Below(lines + [line], n + 1)
  {
    assert line.parents != {} by {
      var p :| p in was.parents;
      assert p in line.parents;
    }
  }

  lemma {:induction false} MergeBelow(m: Match, base: seq<Lost>, added: seq<Lost>, n: nat, i: nat, j: nat, r: seq<Lost>)
    requires i <= |base| && j <= |added| && Below(base, n) && OnlyFrom(added, n)
    requires r == Merge(m, base, added, {n}, i, j)
    ensures Below(r, n + 1)
    decreases i + j
  {
    hide Lcs, Texts;
    if i != 0 || j != 0 {
      match Toward(m, Texts(base), Texts(added), i, j)
      case Both =>
        var rest := Merge(m, base, added, {n}, i - 1, j - 1);
        MergeBelow(m, base, added, n, i - 1, j - 1, rest);
        BelowOneMore(rest, Marked(base[i - 1], {n}), base[i - 1], n);
      case New =>
        var rest := Merge(m, base, added, {n}, i, j - 1);
        MergeBelow(m, base, added, n, i, j - 1, rest);
        BelowOneMore(rest, added[j - 1], added[j - 1], n);
      case Base =>
        var rest := Merge(m, base, added, {n}, i - 1, j);
        MergeBelow(m, base, added, n, i - 1, j, rest);
        BelowOneMore(rest, base[i - 1], base[i - 1], n);
    }
  }

  /** Parents outside the mask have the same lines with or without it. */
  lemma {:induction false} OfBefore(lines: seq<Lost>, mask: set<nat>, k: nat)
    requires k !in mask
    ensures Of(Before(lines, mask), k) == Of(lines, k)
  {
    if lines != [] {
      var rest, last := lines[..|lines| - 1], lines[|lines| - 1];
      OfBefore(rest, mask, k);
      if last.parents <= mask {
        assert Before(lines, mask) == Before(rest, mask);
      } else {
        OneMore(Before(rest, mask), last.(parents := last.parents - mask), k);
      }
    }
  }

  lemma {:induction false} OfNone(lines: seq<Lost>, n: nat)
    requires forall k :: 0 <= k < |lines| ==> n !in lines[k].parents
    ensures Of(lines, n) == []
  {
    if lines != [] {
      OfNone(lines[..|lines| - 1], n);
    }
  }

  lemma {:induction false} OfAll(lines: seq<Lost>, n: nat)
    requires OnlyFrom(lines, n)
    ensures Of(lines, n) == Texts(lines)
  {
    if lines != [] {
      var rest := lines[..|lines| - 1];
      OfAll(rest, n);
      assert Texts(lines) == Texts(rest) + [lines[|lines| - 1].text];
    }
  }

  lemma {:induction false} OfOthers(lines: seq<Lost>, n: nat, k: nat)
    requires OnlyFrom(lines, n) && k != n
    ensures Of(lines, k) == []
  {
    OfNone(lines, k);
  }

  // ---------------------------------------------------------------- the width of the mask

  /** What `1 << n` gives as an int of 32 bits widened to the 64 bits of the parent map: one bit, and
      the bits above it when it is the sign bit.  From 32 on the shift is undefined; whatever int comes
      of it is widened by its sign. */
  ghost predicate IntShift(n: nat, mask: set<nat>) {
    && (forall b :: b in mask ==> b < 64)
    && (forall b :: 32 <= b < 64 ==> (b in mask <==> 31 in mask))
    && (n < 32 ==> forall b :: 0 <= b < 32 ==> (b in mask <==> b == n))
  }

  /** The new parent k == n owns its lines, and an earlier parent k what it did. */
  ghost predicate Owns(base: seq<Lost>, added: seq<Lost>, r: seq<Lost>, n: nat, k: nat) {
    Of(r, k) == if k == n then Texts(added) else Of(base, k)
  }

  /** With exact matching the merged list holds the new parent's lines as its own, and every earlier
      parent's as before. */
  lemma CoalescedKeepsAll(m: Match, base: seq<Lost>, added: seq<Lost>, n: nat, mask: set<nat>, k: nat)
    requires Exact(m) && Below(base, n) && OnlyFrom(added, n) && IntShift(n, mask) && n < 32 && k <= n
    ensures Owns(base, added, Coalesced(m, base, added, mask), n, k)
  {
    var r := Coalesced(m, base, added, mask);
    if added == [] {
      OfNone(base, n);
    } else if base == [] {
      OfAll(added, n);
      if k != n {
        OfOthers(added, n, k);
      }
    } else {
      assert NotYet(base, mask) by {
        MaskAbove(n, mask);
      }
      MergeKeepsBoth(m, base, added, n, mask, |base|, |added|, r);
      assert base[..|base|] == base && added[..|added|] == added;
      if k != n {
        OfBefore(r, mask, k);
      }
    }
  }

  lemma MaskAbove(n: nat, mask: set<nat>)
    requires IntShift(n, mask) && n < 32
    ensures n in mask && (forall b :: b in mask ==> b >= n) && (n < 31 ==> mask == {n})
  {
    assert n < 31 ==> 31 !in mask;
    forall b | b in mask
      ensures b >= n && (n < 31 ==> b == n)
    {
    }
  }

  /** Below the sign bit nothing but the new parent is marked. */
  lemma CoalescedBelow(m: Match, base: seq<Lost>, added: seq<Lost>, n: nat, mask: set<nat>)
    requires Below(base, n) && OnlyFrom(added, n) && IntShift(n, mask) && n < 31
    ensures Below(Coalesced(m, base, added, mask), n + 1)
  {
    MaskAbove(n, mask);
    if added != [] && base != [] {
      MergeBelow(m, base, added, n, |base|, |added|, Coalesced(m, base, added, mask));
    }
  }

  /** Merging the n-th parent keeps everyone's lines, whatever the lists are. */
  ghost predicate KeepsAll(m: Match, n: nat, mask: set<nat>) {
    forall base, added, k: nat :: Below(base, n) && OnlyFrom(added, n) && k <= n ==>
      Owns(base, added, Coalesced(m, base, added, mask), n, k)
  }

  /** Exactly the parents below the width of an int are merged without harm. */
  lemma KeepsAllBelowIntWidth(m: Match, n: nat, mask: set<nat>)
    requires Exact(m) && m("x", "x") && n < 64 && IntShift(n, mask)
    ensures KeepsAll(m, n, mask) <==> n < 32
  {
    if n < 32 {
      forall base, added, k: nat | Below(base, n) && OnlyFrom(added, n) && k <= n
        ensures Owns(base, added, Coalesced(m, base, added, mask), n, k)
      {
        CoalescedKeepsAll(m, base, added, n, mask, k);
      }
    } else {
      SharedLineHarmed(m, n, mask);
    }
  }

  /** From 32 on, a line the parents 0 and n share is enough: n does not get it, or 31 does. */
  lemma SharedLineHarmed(m: Match, n: nat, mask: set<nat>)
    requires m("x", "x") && 32 <= n < 64 && IntShift(n, mask)
    ensures var base, added := [Lost("x", {0})], [Lost("x", {n})];
      && Below(base, n) && OnlyFrom(added, n)
      && !Owns(base, added, Coalesced(m, base, added, mask), n, if n in mask then 31 else n)
  {
    var base, added := [Lost("x", {0})], [Lost("x", {n})];
    var r := Coalesced(m, base, added, mask);
    assert Toward(m, Texts(base), Texts(added), 1, 1) == Both;
    assert Merge(m, base, added, mask, 0, 0) == [];
    assert r == [Marked(base[0], mask)];
    OneMore([], r[0], n);
    OneMore([], r[0], 31);
    OneMore([], base[0], 31);
    assert [] + r == r && [] + base == base;
  }
}

/** Reading one diff per parent into the lines of the result (combine-diff.c, consume_line and
    combine_diff).  Lists of lost lines are values here; LostList has them as linked nodes. */
module CombineDiff {
  import opened Coalesce
  import LostList

  /** One line of the result, or the end of the file. */
  datatype SLine = SLine(lost: seq<Lost>, plost: seq<Lost>, flag: set<nat>)

  datatype Event = Header(ob: nat, on: nat, nb: nat, nn: nat) | Minus(line: string) | Plus | Other

  datatype Bucket = NoBucket | Bucket(at: nat)

  datatype Reader = Reader(lno: nat, bucket: Bucket)

  // ---------------------------------------------------------------- one line of a diff

  predicate Fits(r: Reader, size: nat, ev: Event) {
    match ev
    case Header(_, _, nb, nn) => if nn == 0 then nb < size else 1 <= nb <= size
    case Minus(line) => line != "" && (r.bucket.NoBucket? || r.bucket.at < size)
    case Plus => r.bucket.NoBucket? || 1 <= r.lno <= size
    case Other => true
  }

  function Moved(r: Reader, ev: Event): Reader {
    match ev
    case Header(_, _, nb, nn) => Reader(nb, Bucket(if nn == 0 || nb == 0 then nb else nb - 1))
    case Plus => if r.bucket.NoBucket? then r else r.(lno := r.lno + 1)
    case _ => r
  }

  function Consumed(r: Reader, sl: seq<SLine>, n: nat, ev: Event): (t: seq<SLine>)
    requires Fits(r, |sl|, ev)
    ensures |t| == |sl|
  {
    if r.bucket.NoBucket? then sl
    else
      match ev
      case Minus(line) =>
        sl[r.bucket.at := sl[r.bucket.at].(plost := sl[r.bucket.at].plost + [Lost(LostList.Chomp(line), {n})])]
      case Plus => sl[r.lno - 1 := sl[r.lno - 1].(flag := sl[r.lno - 1].flag + {n})]
      case _ => sl
  }

  /** Reading events one after another leads from r and sl to r1 and t. */
  ghost predicate Reads(r: Reader, sl: seq<SLine>, n: nat, events: seq<Event>, r1: Reader, t: seq<SLine>)
    decreases |events|
  {
    if events == [] then r1 == r && t == sl
    else Fits(r, |sl|, events[0]) && Reads(Moved(r, events[0]), Consumed(r, sl, n, events[0]), n, events[1..], r1, t)
  }

  lemma {:induction false} ReadsInTwo(r: Reader, sl: seq<SLine>, n: nat, a: seq<Event>, r1: Reader, s1: seq<SLine>,
                                      b: seq<Event>, r2: Reader, s2: seq<SLine>)
    requires Reads(r, sl, n, a, r1, s1) && Reads(r1, s1, n, b, r2, s2)
    ensures Reads(r, sl, n, a + b, r2, s2)
    decreases |a|
  {
    if a == [] {
      assert a + b == b;
    } else {
      assert (a + b)[0] == a[0] && (a + b)[1..] == a[1..] + b;
      ReadsInTwo(Moved(r, a[0]), Consumed(r, sl, n, a[0]), n, a[1..], r1, s1, b, r2, s2);
    }
  }

  // ---------------------------------------------------------------- diffs without context

  /** Common lines before it, lines only the parent had, lines only the result has. */
  datatype Hunk = Hunk(skip: nat, minus: seq<string>, plus: nat)

  /** The hunks lie in order between a position and the end of the result. */
  predicate InBounds(script: seq<Hunk>, size: nat, at: nat) {
    if script == [] then at <= size
    else
      var h := script[0];
      && (forall k :: 0 <= k < |h.minus| ==> h.minus[k] != "")
      && InBounds(script[1..], size, at + h.skip + h.plus)
  }

  lemma {:induction false} BoundsRise(script: seq<Hunk>, size: nat, at: nat)
    requires InBounds(script, size, at)
    ensures at <= size
  {
    if script != [] {
      BoundsRise(script[1..], size, at + script[0].skip + script[0].plus);
    }
  }

  function Chomped(lines: seq<string>): seq<string> {
    if lines == [] then [] else [LostList.Chomp(lines[0])] + Chomped(lines[1..])
  }

  function Ended(lines: seq<string>): seq<string> {
    if lines == [] then [] else [lines[0] + "\n"] + Ended(lines[1..])
  }

  /** The lines of a diff end in a newline; without it they are the lines of the parent. */
  lemma {:induction false} ChompedEnded(lines: seq<string>)
    ensures Chomped(Ended(lines)) == lines
  {
    if lines != [] {
      ChompedEnded(lines[1..]);
      assert Ended(lines)[1..] == Ended(lines[1..]);
      assert (lines[0] + "\n")[..|lines[0]|] == lines[0];
      assert lines == [lines[0]] + lines[1..];
    }
  }

  /** The parent's lines, from the place that corresponds to a position in the result. */
  ghost function Parent(script: seq<Hunk>, R: seq<string>, at: nat): seq<string>
    requires InBounds(script, |R|, at)
  {
    if script == [] then R[at..]
    else
      var h := script[0];
      BoundsRise(script[1..], |R|, at + h.skip + h.plus);
      R[at..at + h.skip] + Chomped(h.minus) + Parent(script[1..], R, at + h.skip + h.plus)
  }

  function Minuses(lines: seq<string>): seq<Event> {
    if lines == [] then [] else [Minus(lines[0])] + Minuses(lines[1..])
  }

  function Pluses(plus: nat): seq<Event> {
    if plus == 0 then [] else [Plus] + Pluses(plus - 1)
  }

  /** An empty range is named by the line before it. */
  function HeaderOf(h: Hunk, oldAt: nat, at: nat): Event {
    Header(if h.minus == [] then oldAt + h.skip else oldAt + h.skip + 1, |h.minus|,
           if h.plus == 0 then at + h.skip else at + h.skip + 1, h.plus)
  }

  function EventsOf(h: Hunk, oldAt: nat, at: nat): seq<Event> {
    [HeaderOf(h, oldAt, at)] + (Minuses(h.minus) + Pluses(h.plus))
  }

  /** The events of the diff of R[at..] against that parent. */
  function Diff(script: seq<Hunk>, oldAt: nat, at: nat): seq<Event> {
    if script == [] then []
    else
      var h := script[0];
      EventsOf(h, oldAt, at) + Diff(script[1..], oldAt + h.skip + |h.minus|, at + h.skip + h.plus)
  }

  // ---------------------------------------------------------------- the parent put together again

  /** The result's line at y, when parent n had it. */
  function Surviving(sl: seq<SLine>, R: seq<string>, n: nat, y: nat): seq<string>
    requires y < |sl|
  {
    if y < |R| && n !in sl[y].flag then [R[y]] else []
  }

  /** Before merging: the parent's own lost lines and the surviving lines, up to a position. */
  function Pending(sl: seq<SLine>, R: seq<string>, n: nat, x: nat): seq<string>
    requires x <= |sl|
  {
    if x == 0 then [] else Pending(sl, R, n, x - 1) + Texts(sl[x - 1].plost) + Surviving(sl, R, n, x - 1)
  }

  /** All that was read of the parent. */
  function Collected(sl: seq<SLine>, R: seq<string>, n: nat): seq<string>
    requires |R| < |sl|
  {
    Pending(sl, R, n, |R| + 1)
  }

  ghost predicate NothingBeyond(sl: seq<SLine>, cnt: nat) {
    forall y :: cnt < y < |sl| ==> sl[y].plost == []
  }

  /** After merging: the lost lines marked for the parent and the surviving lines. */
  function Rebuilt(sl: seq<SLine>, R: seq<string>, n: nat, x: nat): seq<string>
    requires x <= |sl|
  {
    if x == 0 then [] else Rebuilt(sl, R, n, x - 1) + Of(sl[x - 1].lost, n) + Surviving(sl, R, n, x - 1)
  }

  /** What the reader has seen of the parent is done; nothing is marked from there on. */
  ghost predicate ReadUpTo(sl: seq<SLine>, R: seq<string>, n: nat, at: nat, done: seq<string>) {
    && at <= |R| < |sl|
    && Pending(sl, R, n, at) + Texts(sl[at].plost) == done
    && (forall y :: at < y < |sl| ==> sl[y].plost == [])
    && (forall y :: at <= y < |sl| ==> n !in sl[y].flag)
  }

  /** Only the parent's own marks change. */
  ghost predicate OnlyMarks(was: seq<SLine>, sl: seq<SLine>, n: nat) {
    && |was| == |sl|
    && (forall y :: 0 <= y < |sl| ==> sl[y].lost == was[y].lost && sl[y].flag - {n} == was[y].flag - {n})
    && (forall y :: 0 <= y < |sl| ==> OwnFrom(was[y].plost, sl[y].plost, n))
  }

  ghost predicate OwnFrom(was: seq<Lost>, plost: seq<Lost>, n: nat) {
    OnlyFrom(was, n) ==> OnlyFrom(plost, n)
  }

  lemma {:induction false} PendingAgrees(sl: seq<SLine>, t: seq<SLine>, R: seq<string>, n: nat, x: nat)
    requires x <= |sl| == |t|
    requires forall y :: 0 <= y < x ==> sl[y].plost == t[y].plost && (n in sl[y].flag <==> n in t[y].flag)
    ensures Pending(sl, R, n, x) == Pending(t, R, n, x)
  {
    if x > 0 {
      PendingAgrees(sl, t, R, n, x - 1);
    }
  }

  /** Common lines are passed without an event. */
  lemma {:induction false} SkipRead(sl: seq<SLine>, R: seq<string>, n: nat, at: nat, skip: nat, done: seq<string>)
    requires ReadUpTo(sl, R, n, at, done) && at + skip <= |R|
    ensures ReadUpTo(sl, R, n, at + skip, done + R[at..at + skip])
    decreases skip
  {
    hide ReadUpTo;
    if skip == 0 {
      assert done + R[at..at] == done;
    } else {
      var x := at + skip - 1;
      SkipRead(sl, R, n, at, skip - 1, done);
      SkipOne(sl, R, n, x, done + R[at..x]);
      assert done + R[at..x] + [R[x]] == done + R[at..at + skip];
    }
  }

  lemma SkipOne(sl: seq<SLine>, R: seq<string>, n: nat, at: nat, done: seq<string>)
    requires ReadUpTo(sl, R, n, at, done) && at < |R|
    ensures ReadUpTo(sl, R, n, at + 1, done + [R[at]])
  {
    hide Texts;
    NoTexts(sl[at + 1].plost);
    assert Surviving(sl, R, n, at) == [R[at]];
    assert done + [R[at]] + [] == done + [R[at]];
  }

  lemma MinusRead(r: Reader, sl: seq<SLine>, R: seq<string>, n: nat, at: nat, done: seq<string>, line: string)
    requires ReadUpTo(sl, R, n, at, done) && r.bucket == Bucket(at) && line != ""
    ensures ReadUpTo(Consumed(r, sl, n, Minus(line)), R, n, at, done + [LostList.Chomp(line)])
    ensures Fits(r, |sl|, Minus(line)) && Moved(r, Minus(line)) == r
    ensures OnlyMarks(sl, Consumed(r, sl, n, Minus(line)), n)
  {
    hide Texts, OnlyMarks;
    MinusMarks(r, sl, n, line);
    var t := Consumed(r, sl, n, Minus(line));
    PendingAgrees(sl, t, R, n, at);
    TextsOneMore(sl[at].plost, Lost(LostList.Chomp(line), {n}));
    Regrouped(Pending(sl, R, n, at), Texts(sl[at].plost), [LostList.Chomp(line)]);
  }

  lemma PlusRead(r: Reader, sl: seq<SLine>, R: seq<string>, n: nat, at: nat, done: seq<string>)
    requires ReadUpTo(sl, R, n, at, done) && r.bucket.Bucket? && r.lno == at + 1 && at < |R|
    ensures ReadUpTo(Consumed(r, sl, n, Plus), R, n, at + 1, done)
    ensures Fits(r, |sl|, Plus) && Moved(r, Plus) == r.(lno := at + 2)
    ensures OnlyMarks(sl, Consumed(r, sl, n, Plus), n)
  {
    hide Texts, OnlyMarks;
    var t := Consumed(r, sl, n, Plus);
    PlusMarks(r, sl, n);
    PendingAgrees(sl, t, R, n, at);
    NoTexts(t[at + 1].plost);
    assert Pending(t, R, n, at + 1) == done + [];
    assert done + [] == done;
  }

  lemma Regrouped(a: seq<string>, b: seq<string>, c: seq<string>)
    ensures a + (b + c) == a + b + c
  {
  }

  lemma NoTexts(lines: seq<Lost>)
    ensures lines == [] ==> Texts(lines) == []
  {
  }

  lemma PlusMarks(r: Reader, sl: seq<SLine>, n: nat)
    requires Fits(r, |sl|, Plus)
    ensures OnlyMarks(sl, Consumed(r, sl, n, Plus), n)
  {
  }

  lemma MinusMarks(r: Reader, sl: seq<SLine>, n: nat, line: string)
    requires Fits(r, |sl|, Minus(line))
    ensures OnlyMarks(sl, Consumed(r, sl, n, Minus(line)), n)
  {
  }

  // ---------------------------------------------------------------- a whole diff

  lemma OneRead(r: Reader, sl: seq<SLine>, n: nat, ev: Event, rest: seq<Event>, events: seq<Event>, r1: Reader,
                t: seq<SLine>)
    requires Fits(r, |sl|, ev) && Reads(Moved(r, ev), Consumed(r, sl, n, ev), n, rest, r1, t) && events == [ev] + rest
    ensures Reads(r, sl, n, events, r1, t)
  {
    assert events[1..] == rest;
  }

  lemma {:induction false} MinusesRead(r: Reader, sl: seq<SLine>, R: seq<string>, n: nat, at: nat, done: seq<string>,
                                       lines: seq<string>, events: seq<Event>, done1: seq<string>)
    returns (t: seq<SLine>)
    requires ReadUpTo(sl, R, n, at, done) && r.bucket == Bucket(at)
    requires forall k :: 0 <= k < |lines| ==> lines[k] != ""
    requires events == Minuses(lines) && done1 == done + Chomped(lines)
    ensures Reads(r, sl, n, events, r, t)
    ensures ReadUpTo(t, R, n, at, done1) && OnlyMarks(sl, t, n)
    decreases |lines|
  {
    hide ReadUpTo, OnlyMarks, Reads, Consumed, Fits, Moved;
    if lines == [] {
      assert done1 == done;
      t := sl;
      NothingRead(r, sl, n);
    } else {
      var line, rest, more := lines[0], Minuses(lines[1..]), Chomped(lines[1..]);
      MinusRead(r, sl, R, n, at, done, line);
      var s1 := Consumed(r, sl, n, Minus(line));
      OneMoreDone(done, LostList.Chomp(line), more);
      t := MinusesRead(r, s1, R, n, at, done + [LostList.Chomp(line)], lines[1..], rest, done1);
      OneRead(r, sl, n, Minus(line), rest, events, r, t);
      MarksTwice(sl, s1, t, n);
    }
  }

  lemma OneMoreDone(done: seq<string>, line: string, more: seq<string>)
    ensures done + [line] + more == done + ([line] + more)
  {
  }

  lemma {:induction false} PlusesRead(r: Reader, sl: seq<SLine>, R: seq<string>, n: nat, at: nat, done: seq<string>,
                                      plus: nat, events: seq<Event>)
    returns (r1: Reader, t: seq<SLine>)
    requires ReadUpTo(sl, R, n, at, done) && r.bucket.Bucket? && at + plus <= |R| && (plus > 0 ==> r.lno == at + 1)
    requires events == Pluses(plus)
    ensures Reads(r, sl, n, events, r1, t)
    ensures ReadUpTo(t, R, n, at + plus, done) && OnlyMarks(sl, t, n)
    decreases plus
  {
    hide ReadUpTo, OnlyMarks, Reads, Consumed, Fits, Moved;
    if plus == 0 {
      r1, t := r, sl;
      NothingRead(r, sl, n);
    } else {
      var rest := Pluses(plus - 1);
      PlusRead(r, sl, R, n, at, done);
      var s1 := Consumed(r, sl, n, Plus);
      r1, t := PlusesRead(Moved(r, Plus), s1, R, n, at + 1, done, plus - 1, rest);
      OneRead(r, sl, n, Plus, rest, events, r1, t);
      MarksTwice(sl, s1, t, n);
    }
  }

  lemma NothingRead(r: Reader, sl: seq<SLine>, n: nat)
    ensures Reads(r, sl, n, [], r, sl) && OnlyMarks(sl, sl, n)
  {
  }

  lemma MarksTwice(a: seq<SLine>, b: seq<SLine>, c: seq<SLine>, n: nat)
    requires OnlyMarks(a, b, n) && OnlyMarks(b, c, n)
    ensures OnlyMarks(a, c, n)
  {
    forall y | 0 <= y < |a|
      ensures OwnFrom(a[y].plost, c[y].plost, n)
    {
      assert OwnFrom(a[y].plost, b[y].plost, n) && OwnFrom(b[y].plost, c[y].plost, n);
    }
  }

  /** The lines of one hunk. */
  lemma BodyRead(h: Hunk, r: Reader, sl: seq<SLine>, R: seq<string>, n: nat, at: nat, done: seq<string>,
                 done1: seq<string>, events: seq<Event>)
    returns (r1: Reader, t: seq<SLine>)
    requires at + h.plus <= |R| && forall k :: 0 <= k < |h.minus| ==> h.minus[k] != ""
    requires ReadUpTo(sl, R, n, at, done) && r.bucket == Bucket(at) && (h.plus > 0 ==> r.lno == at + 1)
    requires events == Minuses(h.minus) + Pluses(h.plus) && done1 == done + Chomped(h.minus)
    ensures Reads(r, sl, n, events, r1, t) && OnlyMarks(sl, t, n)
    ensures ReadUpTo(t, R, n, at + h.plus, done1)
  {
    hide ReadUpTo, OnlyMarks, Reads, Minuses, Pluses, Chomped;
    var minuses, pluses := Minuses(h.minus), Pluses(h.plus);
    var mid := MinusesRead(r, sl, R, n, at, done, h.minus, minuses, done1);
    r1, t := PlusesRead(r, mid, R, n, at, done1, h.plus, pluses);
    ReadsInTwo(r, sl, n, minuses, r, mid, pluses, r1, t);
    MarksTwice(sl, mid, t, n);
  }

  /** The events of one hunk. */
  lemma HunkRead(h: Hunk, r: Reader, sl: seq<SLine>, R: seq<string>, n: nat, oldAt: nat, at: nat, done: seq<string>,
                 events: seq<Event>, next: nat, done1: seq<string>)
    returns (r1: Reader, t: seq<SLine>)
    requires at + h.skip + h.plus == next <= |R| && forall k :: 0 <= k < |h.minus| ==> h.minus[k] != ""
    requires ReadUpTo(sl, R, n, at, done)
    requires events == EventsOf(h, oldAt, at) && done1 == done + R[at..at + h.skip] + Chomped(h.minus)
    ensures Reads(r, sl, n, events, r1, t) && OnlyMarks(sl, t, n)
    ensures ReadUpTo(t, R, n, next, done1)
  {
    hide OnlyMarks, Reads, Minuses, Pluses, Chomped, Pending;
    SkipRead(sl, R, n, at, h.skip, done);
    var ev := HeaderOf(h, oldAt, at);
    var body := Minuses(h.minus) + Pluses(h.plus);
    r1, t := BodyRead(h, Moved(r, ev), sl, R, n, at + h.skip, done + R[at..at + h.skip], done1, body);
    HeaderRead(r, sl, n, ev, body, r1, t);
  }

  lemma HeaderRead(r: Reader, sl: seq<SLine>, n: nat, ev: Event, rest: seq<Event>, r1: Reader, t: seq<SLine>)
    requires Fits(r, |sl|, ev) && ev.Header? && Reads(Moved(r, ev), sl, n, rest, r1, t)
    ensures Reads(r, sl, n, [ev] + rest, r1, t)
  {
    OneRead(r, sl, n, ev, rest, [ev] + rest, r1, t);
  }

  /** The first hunk is read, and the rest of the diff is left. */
  lemma FirstRead(script: seq<Hunk>, r: Reader, sl: seq<SLine>, R: seq<string>, n: nat, oldAt: nat, at: nat,
                  next: nat, old1: nat, done: seq<string>, events: seq<Event>, parent: seq<string>)
    returns (r1: Reader, t: seq<SLine>, done1: seq<string>, first: seq<Event>)
    requires script != [] && InBounds(script, |R|, at) && ReadUpTo(sl, R, n, at, done)
    requires events == Diff(script, oldAt, at) && parent == Parent(script, R, at)
    requires next == at + script[0].skip + script[0].plus && old1 == oldAt + script[0].skip + |script[0].minus|
    ensures Reads(r, sl, n, first, r1, t) && OnlyMarks(sl, t, n) && next <= |R| && ReadUpTo(t, R, n, next, done1)
    ensures InBounds(script[1..], |R|, next) && events == first + Diff(script[1..], old1, next)
    ensures done1 + Parent(script[1..], R, next) == done + parent
  {
    hide ReadUpTo, OnlyMarks, Reads, EventsOf, Chomped, InBounds, Parent, Diff;
    var h := script[0];
    FirstHunk(script, R, oldAt, at);
    first := EventsOf(h, oldAt, at);
    var common, lost := R[at..at + h.skip], Chomped(h.minus);
    done1 := done + common + lost;
    r1, t := HunkRead(h, r, sl, R, n, oldAt, at, done, first, next, done1);
    Grouped(done, common, lost, Parent(script[1..], R, next));
  }

  /** Reading the events of a valid diff collects exactly the parent. */
  lemma {:induction false} ScriptRead(script: seq<Hunk>, r: Reader, sl: seq<SLine>, R: seq<string>, n: nat,
                                      oldAt: nat, at: nat, done: seq<string>, events: seq<Event>, parent: seq<string>)
    returns (r1: Reader, t: seq<SLine>)
    requires InBounds(script, |R|, at) && ReadUpTo(sl, R, n, at, done)
    requires events == Diff(script, oldAt, at) && parent == Parent(script, R, at)
    ensures Reads(r, sl, n, events, r1, t) && OnlyMarks(sl, t, n)
    ensures Collected(t, R, n) == done + parent && NothingBeyond(t, |R|)
    decreases |script|
  {
    if script == [] {
      EndRead(sl, R, n, at, done);
      r1, t := r, sl;
    } else {
      hide ReadUpTo, OnlyMarks, Reads, InBounds, Parent, Diff, Collected, NothingBeyond;
      var next, old1 := at + script[0].skip + script[0].plus, oldAt + script[0].skip + |script[0].minus|;
      var r0, s0, done1, first := FirstRead(script, r, sl, R, n, oldAt, at, next, old1, done, events, parent);
      var rest, later := Diff(script[1..], old1, next), Parent(script[1..], R, next);
      r1, t := ScriptRead(script[1..], r0, s0, R, n, old1, next, done1, rest, later);
      BothRead(r, sl, n, first, r0, s0, rest, r1, t, events);
      MarksTwice(sl, s0, t, n);
    }
  }

  lemma BothRead(r: Reader, sl: seq<SLine>, n: nat, a: seq<Event>, r1: Reader, s1: seq<SLine>,
                 b: seq<Event>, r2: Reader, s2: seq<SLine>, events: seq<Event>)
    requires Reads(r, sl, n, a, r1, s1) && Reads(r1, s1, n, b, r2, s2) && events == a + b
    ensures Reads(r, sl, n, events, r2, s2)
  {
    ReadsInTwo(r, sl, n, a, r1, s1, b, r2, s2);
  }

  lemma FirstHunk(script: seq<Hunk>, R: seq<string>, oldAt: nat, at: nat)
    requires script != [] && InBounds(script, |R|, at)
    ensures
      var h := script[0];
      var next := at + h.skip + h.plus;
      && next <= |R| && InBounds(script[1..], |R|, next)
      && (forall k :: 0 <= k < |h.minus| ==> h.minus[k] != "")
      && Diff(script, oldAt, at) == EventsOf(h, oldAt, at) + Diff(script[1..], oldAt + h.skip + |h.minus|, next)
      && Parent(script, R, at) == R[at..at + h.skip] + Chomped(h.minus) + Parent(script[1..], R, next)
  {
    BoundsRise(script[1..], |R|, at + script[0].skip + script[0].plus);
  }

  lemma EndRead(sl: seq<SLine>, R: seq<string>, n: nat, at: nat, done: seq<string>)
    requires ReadUpTo(sl, R, n, at, done)
    ensures Collected(sl, R, n) == done + R[at..] && NothingBeyond(sl, |R|)
  {
    SkipRead(sl, R, n, at, |R| - at, done);
    assert R[at..|R|] == R[at..];
  }

  lemma Grouped(a: seq<string>, b: seq<string>, c: seq<string>, d: seq<string>)
    ensures a + b + c + d == a + (b + c + d)
  {
  }

  // ---------------------------------------------------------------- where a diff puts what it holds

  /** The lines only the parent has right before position y of the result. */
  function LostAt(script: seq<Hunk>, at: nat, y: nat): seq<string> {
    if script == [] then []
    else
      var h := script[0];
      (if at + h.skip == y then Chomped(h.minus) else []) + LostAt(script[1..], at + h.skip + h.plus, y)
  }

  /** The parent does not have the line at y. */
  predicate PlusAt(script: seq<Hunk>, at: nat, y: nat) {
    script != [] &&
    var h := script[0];
    at + h.skip <= y < at + h.skip + h.plus || PlusAt(script[1..], at + h.skip + h.plus, y)
  }

  /** Each position got the lines lost there, and the flag where the parent lacks the line. */
  ghost predicate Placed(script: seq<Hunk>, at: nat, sl: seq<SLine>, t: seq<SLine>, n: nat) {
    && |t| == |sl|
    && forall y :: 0 <= y < |sl| ==>
      && Texts(t[y].plost) == Texts(sl[y].plost) + LostAt(script, at, y)
      && t[y].flag == sl[y].flag + if PlusAt(script, at, y) then {n} else {}
  }

  lemma {:induction false} ReadsSplit(r: Reader, sl: seq<SLine>, n: nat, a: seq<Event>, b: seq<Event>, r2: Reader,
                                      s2: seq<SLine>) returns (r1: Reader, s1: seq<SLine>)
    requires Reads(r, sl, n, a + b, r2, s2)
    ensures Reads(r, sl, n, a, r1, s1) && Reads(r1, s1, n, b, r2, s2)
    decreases |a|
  {
    if a == [] {
      assert a + b == b;
      r1, s1 := r, sl;
    } else {
      assert (a + b)[0] == a[0] && (a + b)[1..] == a[1..] + b;
      r1, s1 := ReadsSplit(Moved(r, a[0]), Consumed(r, sl, n, a[0]), n, a[1..], b, r2, s2);
    }
  }

  ghost predicate MinusesPlaced(sl: seq<SLine>, t: seq<SLine>, at: nat, lines: seq<string>) {
    && |t| == |sl|
    && forall y :: 0 <= y < |sl| ==>
      t[y].flag == sl[y].flag && Texts(t[y].plost) == Texts(sl[y].plost) + if y == at then Chomped(lines) else []
  }

  lemma {:induction false} MinusesPlaces(r: Reader, sl: seq<SLine>, n: nat, at: nat, lines: seq<string>, r1: Reader,
                                         t: seq<SLine>)
    requires Reads(r, sl, n, Minuses(lines), r1, t) && r.bucket == Bucket(at)
    ensures r1 == r && MinusesPlaced(sl, t, at, lines)
    decreases |lines|
  {
    hide Texts;
    if lines != [] {
      var ev := Minus(lines[0]);
      var s1 := Consumed(r, sl, n, ev);
      assert Minuses(lines)[1..] == Minuses(lines[1..]);
      MinusesPlaces(r, s1, n, at, lines[1..], r1, t);
      TextsOneMore(sl[at].plost, Lost(LostList.Chomp(lines[0]), {n}));
      Regrouped(Texts(sl[at].plost), [LostList.Chomp(lines[0])], Chomped(lines[1..]));
    }
  }

  ghost predicate PlusesPlaced(sl: seq<SLine>, t: seq<SLine>, n: nat, at: nat, plus: nat) {
    && |t| == |sl|
    && forall y :: 0 <= y < |sl| ==>
      t[y].plost == sl[y].plost && t[y].flag == sl[y].flag + if at <= y < at + plus then {n} else {}
  }

  lemma {:induction false} PlusesPlaces(r: Reader, sl: seq<SLine>, n: nat, at: nat, plus: nat, r1: Reader,
                                        t: seq<SLine>)
    requires Reads(r, sl, n, Pluses(plus), r1, t) && r.bucket.Bucket? && (plus > 0 ==> r.lno == at + 1)
    ensures PlusesPlaced(sl, t, n, at, plus)
    decreases plus
  {
    if plus > 0 {
      assert Pluses(plus)[1..] == Pluses(plus - 1);
      PlusesPlaces(Moved(r, Plus), Consumed(r, sl, n, Plus), n, at + 1, plus - 1, r1, t);
    }
  }

  lemma HunkPlaces(h: Hunk, r: Reader, sl: seq<SLine>, n: nat, oldAt: nat, at: nat, r1: Reader, t: seq<SLine>)
    returns (s1: seq<SLine>)
    requires Reads(r, sl, n, EventsOf(h, oldAt, at), r1, t)
    ensures MinusesPlaced(sl, s1, at + h.skip, h.minus) && PlusesPlaced(s1, t, n, at + h.skip, h.plus)
  {
    hide Minuses, Pluses, MinusesPlaced, PlusesPlaced;
    var ev, body := HeaderOf(h, oldAt, at), Minuses(h.minus) + Pluses(h.plus);
    assert EventsOf(h, oldAt, at)[1..] == body;
    var r0 := Moved(r, ev);
    assert Reads(r0, sl, n, body, r1, t);
    var r2;
    r2, s1 := ReadsSplit(r0, sl, n, Minuses(h.minus), Pluses(h.plus), r1, t);
    MinusesPlaces(r0, sl, n, at + h.skip, h.minus, r2, s1);
    PlusesPlaces(r2, s1, n, at + h.skip, h.plus, r1, t);
  }

  /** Reading a diff puts each line lost where it belongs, and nothing anywhere else. */
  lemma {:induction false} ScriptPlaces(script: seq<Hunk>, r: Reader, sl: seq<SLine>, n: nat, oldAt: nat, at: nat,
                                        r1: Reader, t: seq<SLine>)
    requires Reads(r, sl, n, Diff(script, oldAt, at), r1, t)
    ensures Placed(script, at, sl, t, n)
    decreases |script|
  {
    hide EventsOf, Diff, Reads, Placed, MinusesPlaced, PlusesPlaced;
    if script == [] {
      NothingPlaced(r, sl, n, oldAt, at, r1, t);
    } else {
      var h := script[0];
      var next, old1 := at + h.skip + h.plus, oldAt + h.skip + |h.minus|;
      var r0, s0 := SplitDiff(script, r, sl, n, oldAt, at, r1, t);
      var s1 := HunkPlaces(h, r, sl, n, oldAt, at, r0, s0);
      ScriptPlaces(script[1..], r0, s0, n, old1, next, r1, t);
      HunkThenRest(script, sl, s1, s0, t, n, at);
    }
  }

  lemma NothingPlaced(r: Reader, sl: seq<SLine>, n: nat, oldAt: nat, at: nat, r1: Reader, t: seq<SLine>)
    requires Reads(r, sl, n, Diff([], oldAt, at), r1, t)
    ensures Placed([], at, sl, t, n)
  {
    hide Texts;
  }

  lemma SplitDiff(script: seq<Hunk>, r: Reader, sl: seq<SLine>, n: nat, oldAt: nat, at: nat, r1: Reader, t: seq<SLine>)
    returns (r0: Reader, s0: seq<SLine>)
    requires script != [] && Reads(r, sl, n, Diff(script, oldAt, at), r1, t)
    ensures Reads(r, sl, n, EventsOf(script[0], oldAt, at), r0, s0)
    ensures Reads(r0, s0, n, Diff(script[1..], oldAt + script[0].skip + |script[0].minus|,
                                  at + script[0].skip + script[0].plus), r1, t)
  {
    hide EventsOf, Reads;
    r0, s0 := ReadsSplit(r, sl, n, EventsOf(script[0], oldAt, at),
                         Diff(script[1..], oldAt + script[0].skip + |script[0].minus|,
                              at + script[0].skip + script[0].plus), r1, t);
  }

  lemma HunkThenRest(script: seq<Hunk>, sl: seq<SLine>, s1: seq<SLine>, s0: seq<SLine>, t: seq<SLine>, n: nat, at: nat)
    requires script != []
    requires MinusesPlaced(sl, s1, at + script[0].skip, script[0].minus)
    requires PlusesPlaced(s1, s0, n, at + script[0].skip, script[0].plus)
    requires Placed(script[1..], at + script[0].skip + script[0].plus, s0, t, n)
    ensures Placed(script, at, sl, t, n)
  {
    hide Texts, Chomped, LostAt, PlusAt;
    forall y | 0 <= y < |sl|
      ensures Texts(t[y].plost) == Texts(sl[y].plost) + LostAt(script, at, y)
      ensures t[y].flag == sl[y].flag + if PlusAt(script, at, y) then {n} else {}
    {
      AtStep(script, at, y);
      var h := script[0];
      var first := if y == at + h.skip then Chomped(h.minus) else [];
      Regrouped(Texts(sl[y].plost), first, LostAt(script[1..], at + h.skip + h.plus, y));
    }
  }

  lemma AtStep(script: seq<Hunk>, at: nat, y: nat)
    requires script != []
    ensures
      var h := script[0];
      var next := at + h.skip + h.plus;
      && LostAt(script, at, y) == (if y == at + h.skip then Chomped(h.minus) else []) + LostAt(script[1..], next, y)
      && (PlusAt(script, at, y) <==> at + h.skip <= y < at + h.skip + h.plus || PlusAt(script[1..], next, y))
  {
    hide Chomped;
  }

  // ---------------------------------------------------------------- the lines of the result, in place

  /** Only one parent's numbers change. */
  twostate predicate OtherColumns(pLno: array2<nat>, n: nat)
    reads pLno
  {
    forall y, k :: 0 <= y < pLno.Length0 && 0 <= k < pLno.Length1 && k != n ==> pLno[y, k] == old(pLno[y, k])
  }

  class CombineDiffState {
    var lno: nat
    var ob: nat
    var on: nat
    var nb: nat
    var nn: nat
    const n: nat
    var lostBucket: Bucket
    const sline: array<SLine>
    const pLno: array2<nat>

    constructor (n: nat, sline: array<SLine>, pLno: array2<nat>)
      ensures this.n == n && this.sline == sline && this.pLno == pLno && Place() == Reader(1, NoBucket)
    {
      this.n, this.sline, this.pLno := n, sline, pLno;
      lno, lostBucket, ob, on, nb, nn := 1, NoBucket, 0, 0, 0, 0;
    }

    function Place(): Reader
      reads this
    {
      Reader(lno, lostBucket)
    }

    /** One line of the diff. */
    method ConsumeLine(ev: Event)
      requires n < 64 && Fits(Place(), sline.Length, ev) && pLno.Length0 == sline.Length && n < pLno.Length1
      modifies this, sline, pLno
      ensures Place() == Moved(old(Place()), ev) && sline[..] == Consumed(old(Place()), old(sline[..]), n, ev)
      ensures OtherColumns(pLno, n)
    {
      if ev.Header? {
        ob, on, nb, nn := ev.ob, ev.on, ev.nb, ev.nn;
        lno := nb;
        if nn == 0 {
          lostBucket := Bucket(nb);
          if nb == 0 {
            nb := 1;
          }
        } else {
          lostBucket := Bucket(nb - 1);
        }
        pLno[nb - 1, n] := ob;
        return;
      }
      if lostBucket.NoBucket? {
        return;
      }
      match ev
      case Minus(line) =>
        var s := sline[lostBucket.at];
        var text := if line[|line| - 1] == '\n' then line[..|line| - 1] else line;
        sline[lostBucket.at] := s.(plost := s.plost + [Lost(text, {n})]);
      case Plus =>
        sline[lno - 1] := sline[lno - 1].(flag := sline[lno - 1].flag + {n});
        lno := lno + 1;
      case Other =>
    }
  }

  // ---------------------------------------------------------------- merging and numbering

  function Merged(m: Match, s: SLine, mask: set<nat>): SLine {
    SLine(Coalesced(m, s.lost, s.plost, mask), [], s.flag)
  }

  /** The end line takes no part. */
  function MergedAll(m: Match, sl: seq<SLine>, mask: set<nat>): (t: seq<SLine>)
    requires |sl| > 0
    ensures |t| == |sl| && t[|sl| - 1] == sl[|sl| - 1]
    ensures forall y :: 0 <= y < |sl| - 1 ==> t[y] == Merged(m, sl[y], mask)
  {
    seq(|sl|, y requires 0 <= y < |sl| => if y < |sl| - 1 then Merged(m, sl[y], mask) else sl[y])
  }

  method CountMarked(lost: seq<Lost>, n: nat, start: nat) returns (total: nat)
    ensures total == start + |Of(lost, n)|
  {
    total := start;
    var i := 0;
    while i < |lost|
      invariant i <= |lost| && total == start + |Of(lost[..i], n)|
    {
      OneMore(lost[..i], lost[i], n);
      assert lost[..i + 1] == lost[..i] + [lost[i]];
      if n in lost[i].parents {
        total := total + 1;
      }
      i := i + 1;
    }
    assert lost[..i] == lost;
  }

  /** How many lines of the parent one position brings. */
  function Advance(sl: seq<SLine>, cnt: nat, n: nat, y: nat): nat
    requires y < |sl|
  {
    |Of(sl[y].lost, n)| + if y < cnt && n !in sl[y].flag then 1 else 0
  }

  ghost predicate Counts(count: nat -> nat, sl: seq<SLine>, cnt: nat, n: nat) {
    count(0) == 0 && forall y: nat :: y < |sl| ==> count(y + 1) == count(y) + Advance(sl, cnt, n, y)
  }

  /** Numbers the lines for one parent and merges its lost lines. */
  method AssignNumbers(m: Match, n: nat, mask: set<nat>, sline: array<SLine>, pLno: array2<nat>, cnt: nat,
                       ghost final: seq<SLine>, ghost count: nat -> nat)
    requires sline.Length == pLno.Length0 == cnt + 2 && n < pLno.Length1
    requires final == MergedAll(m, sline[..], mask) && Counts(count, final, cnt, n)
    modifies sline, pLno
    ensures sline[..] == final
    ensures forall y :: 0 <= y <= cnt + 1 ==> pLno[y, n] == 1 + count(y)
    ensures OtherColumns(pLno, n)
  {
    hide Coalesced, Of;
    ghost var was := sline[..];
    var pos, lno := 1, 0;
    while lno <= cnt
      invariant lno <= cnt + 1 && pos == 1 + count(lno)
      invariant forall y :: 0 <= y < cnt + 2 ==> sline[y] == if y < lno then final[y] else was[y]
      invariant forall y :: 0 <= y < lno ==> pLno[y, n] == 1 + count(y)
      invariant OtherColumns(pLno, n)
    {
      pos := NumberAt(m, n, mask, sline, pLno, lno, cnt, pos);
      assert count(lno + 1) == count(lno) + Advance(final, cnt, n, lno);
      lno := lno + 1;
    }
    pLno[lno, n] := pos;
    assert sline[..] == final;
  }

  method NumberAt(m: Match, n: nat, mask: set<nat>, sline: array<SLine>, pLno: array2<nat>, lno: nat, cnt: nat,
                  start: nat)
    returns (pos: nat)
    requires lno <= cnt && sline.Length == pLno.Length0 == cnt + 2 && n < pLno.Length1
    modifies sline, pLno
    ensures sline[..] == old(sline[..])[lno := Merged(m, old(sline[lno]), mask)]
    ensures forall y, k :: 0 <= y < cnt + 2 && 0 <= k < pLno.Length1 ==>
      pLno[y, k] == if y == lno && k == n then start else old(pLno[y, k])
    ensures pos == start + Advance(sline[..], cnt, n, lno)
  {
    pLno[lno, n] := start;
    sline[lno], pos := NumberLine(m, n, mask, sline[lno], lno < cnt, start);
  }

  /** Merges the lost lines at one position and counts the parent's lines there. */
  method NumberLine(m: Match, n: nat, mask: set<nat>, s: SLine, line: bool, start: nat) returns (t: SLine, pos: nat)
    ensures t == Merged(m, s, mask)
    ensures pos == start + |Of(t.lost, n)| + if line && n !in t.flag then 1 else 0
  {
    t := s;
    if s.plost != [] {
      t := SLine(Coalesced(m, s.lost, s.plost, mask), [], s.flag);
    }
    pos := CountMarked(t.lost, n, start);
    if line && n !in t.flag {
      pos := pos + 1;
    }
  }

  /** The list now is as short as merging the lines read into the one before can be, and no shorter. */
  ghost predicate Shortest(m: Match, was: seq<Lost>, read: seq<string>, now: seq<Lost>) {
    && (forall pairs :: Aligned(m, Texts(was), read, |was|, |read|, pairs) ==> |now| <= |was| + |read| - |pairs|)
    && (exists pairs :: Aligned(m, Texts(was), read, |was|, |read|, pairs) && |now| == |was| + |read| - |pairs|)
  }

  lemma CoalescedShortest(m: Match, base: seq<Lost>, added: seq<Lost>, mask: set<nat>)
    ensures Shortest(m, base, Texts(added), Coalesced(m, base, added, mask))
  {
    hide Coalesced, Lcs, Aligned, Texts;
    CoalescedLength(m, base, added, mask);
    var pairs := LcsIsReached(m, Texts(base), Texts(added), |base|, |added|);
  }

  /** What one more parent does to the lost lines of each position, and to the marks of the result's lines. */
  ghost predicate Taken(m: Match, script: seq<Hunk>, n: nat, was: seq<SLine>, now: seq<SLine>, cnt: nat) {
    && |was| == |now| == cnt + 2
    && (forall y :: 0 <= y <= cnt ==> Shortest(m, was[y].lost, LostAt(script, 0, y), now[y].lost))
    && (forall y :: 0 <= y <= cnt ==> now[y].flag == was[y].flag + if PlusAt(script, 0, y) then {n} else {})
  }

  /** At each position the new parent owns the lines it lost there, and every earlier one what it did. */
  ghost predicate Given(script: seq<Hunk>, n: nat, was: seq<SLine>, now: seq<SLine>, cnt: nat) {
    && |was| == |now| == cnt + 2
    && forall y, k :: 0 <= y <= cnt && 0 <= k <= n ==>
      Of(now[y].lost, k) == if k == n then LostAt(script, 0, y) else Of(was[y].lost, k)
  }

  lemma MergedGiven(m: Match, script: seq<Hunk>, n: nat, mask: set<nat>, was: seq<SLine>, t: seq<SLine>, cnt: nat)
    requires Exact(m) && |was| == cnt + 2 && Holds(was, n) && OnlyMarks(was, t, n) && Placed(script, 0, was, t, n)
    requires IntShift(n, mask) && n < 32
    ensures Given(script, n, was, MergedAll(m, t, mask), cnt)
  {
    hide Coalesced, Texts, LostAt, PlusAt, Below, Exact, IntShift, Of;
    forall y, k | 0 <= y <= cnt && 0 <= k <= n
      ensures Of(Coalesced(m, t[y].lost, t[y].plost, mask), k) ==
        if k == n then LostAt(script, 0, y) else Of(was[y].lost, k)
    {
      NoTexts(was[y].plost);
      assert Texts(t[y].plost) == [] + LostAt(script, 0, y) == LostAt(script, 0, y);
      assert OwnFrom(was[y].plost, t[y].plost, n);
      CoalescedKeepsAll(m, t[y].lost, t[y].plost, n, mask, k);
    }
  }

  lemma MergedTaken(m: Match, script: seq<Hunk>, n: nat, mask: set<nat>, was: seq<SLine>, t: seq<SLine>, cnt: nat)
    requires |was| == cnt + 2 && Waiting(was, n) && OnlyMarks(was, t, n) && Placed(script, 0, was, t, n)
    ensures Taken(m, script, n, was, MergedAll(m, t, mask), cnt)
  {
    hide Coalesced, Shortest, Texts, LostAt, PlusAt;
    forall y | 0 <= y <= cnt
      ensures Shortest(m, was[y].lost, LostAt(script, 0, y), Coalesced(m, t[y].lost, t[y].plost, mask))
    {
      NoTexts(was[y].plost);
      assert Texts(t[y].plost) == [] + LostAt(script, 0, y) == LostAt(script, 0, y);
      CoalescedShortest(m, t[y].lost, t[y].plost, mask);
    }
  }

  // ---------------------------------------------------------------- one parent

  /** Nothing is waiting to be merged, and the result's lines are marked for the first n parents only. */
  ghost predicate Waiting(sl: seq<SLine>, n: nat) {
    forall y :: 0 <= y < |sl| ==> sl[y].plost == [] && forall k :: k in sl[y].flag ==> k < n
  }

  /** The first n parents are merged, and nothing of the others is there. */
  ghost predicate Holds(sl: seq<SLine>, n: nat) {
    Waiting(sl, n) && forall y :: 0 <= y < |sl| ==> Below(sl[y].lost, n)
  }

  lemma {:induction false} RebuiltAgrees(sl: seq<SLine>, t: seq<SLine>, R: seq<string>, n: nat, k: nat, x: nat)
    requires x <= |sl| && x <= |t|
    requires forall y :: 0 <= y < x ==> Of(sl[y].lost, n) == Of(t[y].lost, k) && (n in sl[y].flag <==> k in t[y].flag)
    ensures Rebuilt(sl, R, n, x) == Rebuilt(t, R, k, x)
  {
    hide Rebuilt, Of;
    RebuiltStep(sl, R, n, x);
    RebuiltStep(t, R, k, x);
    if x > 0 {
      RebuiltAgrees(sl, t, R, n, k, x - 1);
      assert Of(sl[x - 1].lost, n) == Of(t[x - 1].lost, k);
      assert Surviving(sl, R, n, x - 1) == Surviving(t, R, k, x - 1);
    }
  }

  lemma RebuiltStep(sl: seq<SLine>, R: seq<string>, n: nat, x: nat)
    requires x <= |sl|
    ensures Rebuilt(sl, R, n, x) ==
      if x == 0 then [] else Rebuilt(sl, R, n, x - 1) + Of(sl[x - 1].lost, n) + Surviving(sl, R, n, x - 1)
  {
    hide Of, Surviving;
  }

  lemma {:induction false} RebuiltFromPending(sl: seq<SLine>, t: seq<SLine>, R: seq<string>, n: nat, x: nat)
    requires x <= |sl| && x <= |t|
    requires forall y :: 0 <= y < x ==> Of(sl[y].lost, n) == Texts(t[y].plost) && (n in sl[y].flag <==> n in t[y].flag)
    ensures Rebuilt(sl, R, n, x) == Pending(t, R, n, x)
  {
    hide Rebuilt, Of, Texts;
    RebuiltStep(sl, R, n, x);
    if x > 0 {
      RebuiltFromPending(sl, t, R, n, x - 1);
      assert Of(sl[x - 1].lost, n) == Texts(t[x - 1].plost);
      assert Surviving(sl, R, n, x - 1) == Surviving(t, R, n, x - 1);
    }
  }

  /** Earlier parents are put together as before, up to every position. */
  ghost predicate SameEarlier(was: seq<SLine>, sl: seq<SLine>, R: seq<string>, n: nat)
    requires |was| == |sl| == |R| + 2
  {
    forall k, x :: 0 <= k < n && 0 <= x <= |R| + 1 ==> Rebuilt(sl, R, k, x) == Rebuilt(was, R, k, x)
  }

  /** What is read for parent n is merged: it can be put together, and so can every earlier one. */
  lemma ParentMerged(m: Match, was: seq<SLine>, t: seq<SLine>, R: seq<string>, n: nat, mask: set<nat>)
    requires Exact(m) && |was| == |R| + 2 && Holds(was, n) && OnlyMarks(was, t, n) && NothingBeyond(t, |R|)
    requires IntShift(n, mask) && n < 32
    ensures Rebuilt(MergedAll(m, t, mask), R, n, |R| + 1) == Collected(t, R, n)
    ensures SameEarlier(was, MergedAll(m, t, mask), R, n)
  {
    hide Coalesced, Below, Exact, IntShift, Rebuilt, Pending;
    var final := MergedAll(m, t, mask);
    forall y, k: nat | 0 <= y <= |R| && k <= n
      ensures Of(final[y].lost, k) == if k == n then Texts(t[y].plost) else Of(was[y].lost, k)
    {
      assert OwnFrom(was[y].plost, t[y].plost, n);
      CoalescedKeepsAll(m, t[y].lost, t[y].plost, n, mask, k);
    }
    RebuiltFromPending(final, t, R, n, |R| + 1);
    forall k, x | 0 <= k < n && 0 <= x <= |R| + 1
      ensures Rebuilt(final, R, k, x) == Rebuilt(was, R, k, x)
    {
      forall y | 0 <= y < x
        ensures k in final[y].flag <==> k in was[y].flag
      {
        assert k in t[y].flag - {n} <==> k in was[y].flag - {n};
      }
      RebuiltAgrees(final, was, R, k, k, x);
    }
  }

  /** What is left is ready for the next parent, as long as no mask has touched the sign bit. */
  lemma MergedHolds(m: Match, was: seq<SLine>, t: seq<SLine>, cnt: nat, n: nat, mask: set<nat>)
    requires |was| == cnt + 2 && Waiting(was, n) && OnlyMarks(was, t, n) && NothingBeyond(t, cnt) && IntShift(n, mask)
    ensures Waiting(MergedAll(m, t, mask), n + 1)
    ensures Holds(was, n) && n < 31 ==> Holds(MergedAll(m, t, mask), n + 1)
  {
    hide Coalesced, Below, IntShift;
    var final := MergedAll(m, t, mask);
    forall y, k | 0 <= y < |t| && k in t[y].flag
      ensures k <= n
    {
      assert k != n ==> k in t[y].flag - {n};
    }
    if Holds(was, n) && n < 31 {
      forall y | 0 <= y < |t|
        ensures Below(final[y].lost, n + 1)
      {
        assert OwnFrom(was[y].plost, t[y].plost, n);
        if y <= cnt {
          CoalescedBelow(m, t[y].lost, t[y].plost, n, mask);
        } else {
          BelowMore(was[y].lost, n);
        }
      }
    }
  }

  lemma BelowMore(lost: seq<Lost>, n: nat)
    requires Below(lost, n)
    ensures Below(lost, n + 1)
  {
  }

  /** Merging what is read for parent n leaves every parent as it should be, whatever was read. */
  ghost predicate MergesAll(m: Match, n: nat, mask: set<nat>) {
    forall was, t, R {:trigger MergesTo(m, was, t, R, n, mask)} :: Read(was, t, R, n) ==>
      MergesTo(m, was, t, R, n, mask)
  }

  ghost predicate Read(was: seq<SLine>, t: seq<SLine>, R: seq<string>, n: nat) {
    |was| == |R| + 2 && Holds(was, n) && OnlyMarks(was, t, n) && NothingBeyond(t, |R|)
  }

  ghost predicate MergesTo(m: Match, was: seq<SLine>, t: seq<SLine>, R: seq<string>, n: nat, mask: set<nat>) {
    && |was| == |t| == |R| + 2
    && Rebuilt(MergedAll(m, t, mask), R, n, |R| + 1) == Collected(t, R, n)
    && SameEarlier(was, MergedAll(m, t, mask), R, n)
  }

  /** It does so for exactly the parents below the width of an int. */
  lemma MergesAllBelowIntWidth(m: Match, n: nat, mask: set<nat>)
    requires Exact(m) && m("x", "x") && n < 64 && IntShift(n, mask)
    ensures MergesAll(m, n, mask) <==> n < 32
  {
    if n < 32 {
      forall was, t, R | Read(was, t, R, n)
        ensures MergesTo(m, was, t, R, n, mask)
      {
        ParentMerged(m, was, t, R, n, mask);
      }
    } else {
      SharedLineMisread(m, n, mask);
    }
  }

  /** Two parents have the one line the empty result lacks: parent n loses it, or parent 31 gains it. */
  lemma SharedLineMisread(m: Match, n: nat, mask: set<nat>)
    requires m("x", "x") && 32 <= n < 64 && IntShift(n, mask)
    ensures
      var end := SLine([], [], {});
      var was, t := [SLine([Lost("x", {0})], [], {}), end], [SLine([Lost("x", {0})], [Lost("x", {n})], {}), end];
      Read(was, t, [], n) && !MergesTo(m, was, t, [], n, mask)
  {
    hide IntShift, Coalesced;
    var end := SLine([], [], {});
    var base, added := [Lost("x", {0})], [Lost("x", {n})];
    var was, t := [SLine(base, [], {}), end], [SLine(base, added, {}), end];
    SharedLineHarmed(m, n, mask);
    var final := MergedAll(m, t, mask);
    FirstRebuilt(final, n);
    FirstRebuilt(final, 31);
    FirstRebuilt(was, 31);
    assert Collected(t, [], n) == Texts(added) by {
      assert Pending(t, [], n, 0) == [];
      assert [] + Texts(added) + [] == Texts(added);
    }
  }

  lemma FirstRebuilt(sl: seq<SLine>, n: nat)
    requires |sl| > 0
    ensures Rebuilt(sl, [], n, 1) == Of(sl[0].lost, n)
  {
    assert Rebuilt(sl, [], n, 0) == [];
    assert [] + Of(sl[0].lost, n) + [] == Of(sl[0].lost, n);
  }

  /** Every parent below n can be put together from what the lines hold, and its line numbers count it. */
  ghost predicate Rebuilds(sl: seq<SLine>, R: seq<string>, parents: seq<seq<string>>, n: nat)
    requires |R| + 2 == |sl| && n <= |parents|
  {
    forall k :: 0 <= k < n ==> Rebuilt(sl, R, k, |R| + 1) == parents[k]
  }

  ghost predicate Numbered(sl: seq<SLine>, R: seq<string>, pLno: array2<nat>, n: nat)
    requires |R| + 2 == |sl| == pLno.Length0 && n <= pLno.Length1
    reads pLno
  {
    forall y, k :: 0 <= y <= |R| + 1 && 0 <= k < n ==> pLno[y, k] == 1 + Tally(sl, R, k)(y)
  }

  /** How many of a parent's lines lie before a position. */
  ghost function Tally(sl: seq<SLine>, R: seq<string>, n: nat): nat -> nat {
    (x: nat) => if x <= |sl| then |Rebuilt(sl, R, n, x)| else 0
  }

  lemma TallyCounts(sl: seq<SLine>, R: seq<string>, n: nat)
    ensures Counts(Tally(sl, R, n), sl, |R|, n)
  {
    hide Of;
  }

  /** One parent read and merged; mask is what `1 << n` gives. */
  method CombineDiff(m: Match, events: seq<Event>, n: nat, mask: set<nat>, sline: array<SLine>, pLno: array2<nat>,
                     cnt: nat, ghost R: seq<string>, ghost script: seq<Hunk>)
    requires Exact(m) && |R| == cnt && sline.Length == pLno.Length0 == cnt + 2 && n < pLno.Length1
    requires n < 64 && IntShift(n, mask) && Waiting(sline[..], n) && (n < 32 ==> Holds(sline[..], n))
    requires InBounds(script, cnt, 0) && events == Diff(script, 0, 0)
    modifies sline, pLno
    ensures Waiting(sline[..], n + 1) && (n < 31 ==> Holds(sline[..], n + 1))
    ensures n < 32 ==> Rebuilt(sline[..], R, n, cnt + 1) == Parent(script, R, 0)
    ensures n < 32 ==> SameEarlier(old(sline[..]), sline[..], R, n)
    ensures forall y :: 0 <= y <= cnt + 1 ==> pLno[y, n] == 1 + Tally(sline[..], R, n)(y)
    ensures Taken(m, script, n, old(sline[..]), sline[..], cnt)
    ensures n < 32 ==> Given(script, n, old(sline[..]), sline[..], cnt)
    ensures OtherColumns(pLno, n)
  {
    hide Exact, InBounds, Diff, Waiting, Holds, IntShift, OnlyMarks, NothingBeyond, Collected, SameEarlier, Parent,
      Rebuilt, Placed, Taken, Given;
    ghost var was := sline[..];
    ghost var t := ReadDiff(events, n, sline, pLno, R, script);
    ghost var final := MergedAll(m, t, mask);
    TallyCounts(final, R, n);
    AssignNumbers(m, n, mask, sline, pLno, cnt, final, Tally(final, R, n));
    MergedHolds(m, was, t, cnt, n, mask);
    MergedTaken(m, script, n, mask, was, t, cnt);
    if n < 32 {
      ParentMerged(m, was, t, R, n, mask);
      MergedGiven(m, script, n, mask, was, t, cnt);
    }
  }

  lemma StartRead(sl: seq<SLine>, R: seq<string>, n: nat)
    requires |sl| == |R| + 2 && Waiting(sl, n)
    ensures ReadUpTo(sl, R, n, 0, [])
  {
  }

  /** Feeds the diff to consume_line, line by line. */
  method ReadDiff(events: seq<Event>, n: nat, sline: array<SLine>, pLno: array2<nat>, ghost R: seq<string>,
                  ghost script: seq<Hunk>)
    returns (ghost t: seq<SLine>)
    requires sline.Length == pLno.Length0 == |R| + 2 && n < pLno.Length1 && n < 64
    requires InBounds(script, |R|, 0) && events == Diff(script, 0, 0) && Waiting(sline[..], n)
    modifies sline, pLno
    ensures sline[..] == t && OnlyMarks(old(sline[..]), t, n) && NothingBeyond(t, |R|)
    ensures Collected(t, R, n) == Parent(script, R, 0)
    ensures Placed(script, 0, old(sline[..]), t, n)
    ensures OtherColumns(pLno, n)
  {
    hide ReadUpTo, OnlyMarks, Collected, NothingBeyond, Diff, Parent, InBounds, Pending, Placed;
    var state := new CombineDiffState(n, sline, pLno);
    ghost var r1;
    StartRead(sline[..], R, n);
    r1, t := ScriptRead(script, Reader(1, NoBucket), sline[..], R, n, 0, 0, [], events, Parent(script, R, 0));
    ScriptPlaces(script, Reader(1, NoBucket), sline[..], n, 0, 0, r1, t);
    var i := 0;
    while i < |events|
      invariant i <= |events| && state.sline == sline && state.pLno == pLno && state.n == n
      invariant Reads(state.Place(), sline[..], n, events[i..], r1, t)
      invariant OtherColumns(pLno, n)
    {
      assert events[i..][1..] == events[i + 1..];
      state.ConsumeLine(events[i]);
      i := i + 1;
    }
    assert [] + Parent(script, R, 0) == Parent(script, R, 0);
  }

  // ---------------------------------------------------------------- a parent seen before

  /** Parent i is marked wherever parent j is. */
  function Alike(lost: seq<Lost>, i: nat, j: nat): seq<Lost> {
    if lost == [] then []
    else
      var last := lost[|lost| - 1];
      Alike(lost[..|lost| - 1], i, j) + [if j in last.parents then Marked(last, {i}) else last]
  }

  function AlikeLine(s: SLine, i: nat, j: nat): SLine {
    SLine(Alike(s.lost, i, j), s.plost, if j in s.flag then s.flag + {i} else s.flag)
  }

  lemma {:induction false} AlikeKeeps(lost: seq<Lost>, i: nat, j: nat, k: nat)
    requires Below(lost, i) && j < i
    ensures Of(Alike(lost, i, j), k) == if k == i then Of(lost, j) else Of(lost, k)
    ensures Below(Alike(lost, i, j), i + 1)
  {
    hide Of;
    if lost == [] {
      OfNone(lost, j);
      OfNone(lost, k);
    } else {
      var rest, last := lost[..|lost| - 1], lost[|lost| - 1];
      assert lost == rest + [last];
      AlikeKeeps(rest, i, j, k);
      var marked := if j in last.parents then Marked(last, {i}) else last;
      assert Alike(lost, i, j) == Alike(rest, i, j) + [marked];
      OneMore(Alike(rest, i, j), marked, k);
      OneMore(rest, last, k);
      OneMore(rest, last, j);
      BelowOneMore(Alike(rest, i, j), marked, last, i);
    }
  }

  /** The parent reused is put together as the one it is the same as. */
  lemma ReusedMeans(was: seq<SLine>, sl: seq<SLine>, R: seq<string>, i: nat, j: nat)
    requires |was| == |sl| == |R| + 2 && Holds(was, i) && j < i
    requires (forall y :: 0 <= y <= |R| ==> sl[y] == AlikeLine(was[y], i, j)) && sl[|R| + 1] == was[|R| + 1]
    ensures Holds(sl, i + 1) && SameEarlier(was, sl, R, i)
    ensures forall x :: 0 <= x <= |R| + 1 ==> Rebuilt(sl, R, i, x) == Rebuilt(was, R, j, x)
  {
    hide Alike, Below, Rebuilt, Of;
    forall y, k: nat | 0 <= y <= |R|
      ensures Of(sl[y].lost, k) == if k == i then Of(was[y].lost, j) else Of(was[y].lost, k)
    {
      AlikeKeeps(was[y].lost, i, j, k);
    }
    BelowMore(was[|R| + 1].lost, i);
    ReusedWaits(was, sl, |R|, i, j);
    forall y | 0 <= y < |sl|
      ensures Below(sl[y].lost, i + 1)
    {
      if y <= |R| {
        AlikeKeeps(was[y].lost, i, j, i);
      }
    }
    forall x | 0 <= x <= |R| + 1
      ensures Rebuilt(sl, R, i, x) == Rebuilt(was, R, j, x)
    {
      RebuiltAgrees(sl, was, R, i, j, x);
    }
    forall k, x | 0 <= k < i && 0 <= x <= |R| + 1
      ensures Rebuilt(sl, R, k, x) == Rebuilt(was, R, k, x)
    {
      RebuiltAgrees(sl, was, R, k, k, x);
    }
  }

  lemma ReusedWaits(was: seq<SLine>, sl: seq<SLine>, cnt: nat, i: nat, j: nat)
    requires |was| == |sl| == cnt + 2 && Waiting(was, i)
    requires (forall y :: 0 <= y <= cnt ==> sl[y] == AlikeLine(was[y], i, j)) && sl[cnt + 1] == was[cnt + 1]
    ensures Waiting(sl, i + 1)
  {
    hide Alike;
    forall y | 0 <= y < |sl|
      ensures sl[y].plost == [] && forall k :: k in sl[y].flag ==> k <= i
    {
      assert was[y].plost == [];
    }
  }

  method MarkAlike(lost: seq<Lost>, i: nat, j: nat) returns (marked: seq<Lost>)
    ensures marked == Alike(lost, i, j)
  {
    marked := [];
    var x := 0;
    while x < |lost|
      invariant x <= |lost| && marked == Alike(lost[..x], i, j)
    {
      assert lost[..x + 1][..x] == lost[..x];
      marked := marked + [if j in lost[x].parents then lost[x].(parents := lost[x].parents + {i}) else lost[x]];
      x := x + 1;
    }
    assert lost[..x] == lost;
  }

  method ReuseCombineDiff(sline: array<SLine>, pLno: array2<nat>, cnt: nat, i: nat, j: nat)
    requires sline.Length == pLno.Length0 == cnt + 2 && j < i < pLno.Length1
    modifies sline, pLno
    ensures forall y :: 0 <= y <= cnt ==> sline[y] == AlikeLine(old(sline[y]), i, j)
    ensures sline[cnt + 1] == old(sline[cnt + 1])
    ensures forall y :: 0 <= y <= cnt + 1 ==> pLno[y, i] == old(pLno[y, j])
    ensures OtherColumns(pLno, i)
  {
    hide Alike;
    var lno := 0;
    while lno <= cnt
      invariant lno <= cnt + 1
      invariant forall y :: 0 <= y < lno ==> sline[y] == AlikeLine(old(sline[y]), i, j)
      invariant forall y :: lno <= y < cnt + 2 ==> sline[y] == old(sline[y])
      invariant forall y :: 0 <= y < lno ==> pLno[y, i] == old(pLno[y, j])
      invariant OtherColumns(pLno, i)
    {
      pLno[lno, i] := pLno[lno, j];
      var marked := MarkAlike(sline[lno].lost, i, j);
      sline[lno] := sline[lno].(lost := marked);
      if j in sline[lno].flag {
        sline[lno] := sline[lno].(flag := sline[lno].flag + {i});
      }
      lno := lno + 1;
    }
    pLno[lno, i] := pLno[lno, j];
  }

  // ---------------------------------------------------------------- all parents

  /** What `1 << n` gives as an int, for every n below the width of the parent map. */
  type Shift = nat -> set<nat>

  ghost predicate IntShifts(shift: Shift) {
    forall n: nat :: n < 64 ==> IntShift(n, shift(n))
  }

  /** A parent with the blob of an earlier one adds no line; any other is merged. */
  ghost predicate Step(m: Match, oids: seq<string>, script: seq<Hunk>, i: nat, was: seq<SLine>, now: seq<SLine>,
                       cnt: nat)
    requires i < |oids|
  {
    if oids[i] in oids[..i] then
      |was| == |now| == cnt + 2 && forall y :: 0 <= y <= cnt ==> Texts(now[y].lost) == Texts(was[y].lost)
    else Taken(m, script, i, was, now, cnt)
  }

  lemma {:induction false} AlikeTexts(lost: seq<Lost>, i: nat, j: nat)
    ensures Texts(Alike(lost, i, j)) == Texts(lost)
  {
    if lost != [] {
      AlikeTexts(lost[..|lost| - 1], i, j);
      assert lost == lost[..|lost| - 1] + [lost[|lost| - 1]];
    }
  }

  lemma ReusedStep(m: Match, oids: seq<string>, script: seq<Hunk>, i: nat, j: nat, was: seq<SLine>, sl: seq<SLine>,
                   cnt: nat)
    requires j < i < |oids| && oids[i] == oids[j] && |was| == |sl| == cnt + 2
    requires forall y :: 0 <= y <= cnt ==> sl[y] == AlikeLine(was[y], i, j)
    ensures Step(m, oids, script, i, was, sl, cnt)
  {
    hide Alike, Texts;
    assert oids[..i][j] == oids[i];
    forall y | 0 <= y <= cnt
      ensures Texts(sl[y].lost) == Texts(was[y].lost)
    {
      AlikeTexts(was[y].lost, i, j);
    }
  }

  /** Reads one more parent, or marks it like an earlier one of the same blob. */
  method CombineNext(m: Match, oids: seq<string>, diff: seq<Event>, mask: set<nat>, sline: array<SLine>,
                     pLno: array2<nat>, cnt: nat, i: nat, ghost R: seq<string>, ghost script: seq<Hunk>,
                     ghost parents: seq<seq<string>>)
    requires Exact(m) && |R| == cnt && sline.Length == pLno.Length0 == cnt + 2
    requires i < |oids| == |parents| == pLno.Length1
    requires InBounds(script, cnt, 0) && diff == Diff(script, 0, 0) && parents[i] == Parent(script, R, 0)
    requires forall j :: 0 <= j < i && oids[i] == oids[j] ==> parents[i] == parents[j]
    requires i < 64 && IntShift(i, mask) && Waiting(sline[..], i)
    requires i < 32 ==> Holds(sline[..], i) && Rebuilds(sline[..], R, parents, i) && Numbered(sline[..], R, pLno, i)
    modifies sline, pLno
    ensures Waiting(sline[..], i + 1) && (i < 31 ==> Holds(sline[..], i + 1))
    ensures i < 32 ==> SameEarlier(old(sline[..]), sline[..], R, i)
    ensures i < 32 ==> Rebuilt(sline[..], R, i, cnt + 1) == parents[i]
    ensures i < 32 ==> forall y :: 0 <= y <= cnt + 1 ==> pLno[y, i] == 1 + Tally(sline[..], R, i)(y)
    ensures Step(m, oids, script, i, old(sline[..]), sline[..], cnt)
    ensures OtherColumns(pLno, i)
  {
    hide Exact, InBounds, Diff, Waiting, Holds, IntShift, SameEarlier, Parent, Rebuilt, AlikeLine, Taken;
    ghost var was := sline[..];
    var j := 0;
    while j < i && oids[i] != oids[j]
      invariant j <= i && oids[i] !in oids[..j]
    {
      j := j + 1;
    }
    if j < i {
      ReuseCombineDiff(sline, pLno, cnt, i, j);
      ReusedWaits(was, sline[..], cnt, i, j);
      ReusedStep(m, oids, script, i, j, was, sline[..], cnt);
      if i < 32 {
        ReusedMeans(was, sline[..], R, i, j);
      }
    } else {
      CombineDiff(m, diff, i, mask, sline, pLno, cnt, R, script);
    }
  }

  /** However many parents up to 32 are read one after another, each can be put together from the lines
      that survive and the lost lines marked for it, and the line numbers count its lines.  The steps are the lines
      of the result before each parent: every one that is not reused is merged into lists as short as can be. */
  method CombineParents(m: Match, shift: Shift, oids: seq<string>, diffs: seq<seq<Event>>, sline: array<SLine>,
                        pLno: array2<nat>, cnt: nat, ghost R: seq<string>, ghost scripts: seq<seq<Hunk>>,
                        ghost parents: seq<seq<string>>)
    returns (ghost steps: seq<seq<SLine>>)
    requires Exact(m) && IntShifts(shift)
    requires |R| == cnt && sline.Length == pLno.Length0 == cnt + 2 && |oids| == pLno.Length1 <= 64
    requires |oids| == |diffs| == |scripts| == |parents|
    requires forall i :: 0 <= i < |oids| ==>
      InBounds(scripts[i], cnt, 0) && diffs[i] == Diff(scripts[i], 0, 0) && parents[i] == Parent(scripts[i], R, 0)
    requires forall i, j :: 0 <= i < j < |oids| && oids[i] == oids[j] ==> parents[i] == parents[j]
    requires forall y :: 0 <= y < sline.Length ==> sline[y] == SLine([], [], {})
    modifies sline, pLno
    ensures |oids| <= 32 ==> Rebuilds(sline[..], R, parents, |parents|) && Numbered(sline[..], R, pLno, |parents|)
    ensures |steps| == |oids| + 1 && steps[0] == old(sline[..]) && steps[|oids|] == sline[..]
    ensures forall i :: 0 <= i < |oids| ==> Step(m, oids, scripts[i], i, steps[i], steps[i + 1], cnt)
  {
    hide Exact, InBounds, Diff, Waiting, Holds, IntShift, SameEarlier, Parent, Rebuilt, Rebuilds, Step, Stepped;
    var i := 0;
    steps := [sline[..]];
    NothingTaken(m, oids, scripts, steps, sline[..], R, parents, cnt);
    while i < |oids|
      invariant i <= |oids| && Waiting(sline[..], i) && (i < 32 ==> Holds(sline[..], i))
      invariant i <= 32 ==> Rebuilds(sline[..], R, parents, i) && Numbered(sline[..], R, pLno, i)
      invariant |steps| == i + 1 && steps[0] == old(sline[..]) && steps[i] == sline[..]
      invariant Stepped(m, oids, scripts, steps, i, cnt)
    {
      ghost var was := sline[..];
      CombineNext(m, oids, diffs[i], shift(i), sline, pLno, cnt, i, R, scripts[i], parents);
      if i < 32 {
        EarlierKept(was, sline[..], R, parents, i);
      }
      SteppedMore(m, oids, scripts, steps, i, sline[..], cnt);
      steps := steps + [sline[..]];
      i := i + 1;
    }
    SteppedAll(m, oids, scripts, steps, cnt);
  }

  ghost predicate Stepped(m: Match, oids: seq<string>, scripts: seq<seq<Hunk>>, steps: seq<seq<SLine>>, n: nat,
                          cnt: nat)
    requires n <= |oids| == |scripts| && |steps| == n + 1
  {
    forall i :: 0 <= i < n ==> Step(m, oids, scripts[i], i, steps[i], steps[i + 1], cnt)
  }

  lemma SteppedMore(m: Match, oids: seq<string>, scripts: seq<seq<Hunk>>, steps: seq<seq<SLine>>, n: nat,
                    now: seq<SLine>, cnt: nat)
    requires n < |oids| == |scripts| && |steps| == n + 1 && Stepped(m, oids, scripts, steps, n, cnt)
    requires Step(m, oids, scripts[n], n, steps[n], now, cnt)
    ensures Stepped(m, oids, scripts, steps + [now], n + 1, cnt)
  {
    hide Step;
  }

  lemma SteppedAll(m: Match, oids: seq<string>, scripts: seq<seq<Hunk>>, steps: seq<seq<SLine>>, cnt: nat)
    requires |oids| == |scripts| && |steps| == |oids| + 1 && Stepped(m, oids, scripts, steps, |oids|, cnt)
    ensures forall i :: 0 <= i < |oids| ==> Step(m, oids, scripts[i], i, steps[i], steps[i + 1], cnt)
  {
    hide Step;
  }

  lemma NothingTaken(m: Match, oids: seq<string>, scripts: seq<seq<Hunk>>, steps: seq<seq<SLine>>, sl: seq<SLine>,
                     R: seq<string>, parents: seq<seq<string>>, cnt: nat)
    requires |oids| == |scripts| && |steps| == 1 && |sl| == |R| + 2
    requires forall y :: 0 <= y < |sl| ==> sl[y] == SLine([], [], {})
    ensures Waiting(sl, 0) && Holds(sl, 0) && Rebuilds(sl, R, parents, 0)
    ensures Stepped(m, oids, scripts, steps, 0, cnt)
  {
  }

  lemma EarlierKept(was: seq<SLine>, sl: seq<SLine>, R: seq<string>, parents: seq<seq<string>>, i: nat)
    requires |was| == |sl| == |R| + 2 && i < |parents| && SameEarlier(was, sl, R, i) && Rebuilds(was, R, parents, i)
    requires Rebuilt(sl, R, i, |R| + 1) == parents[i]
    ensures Rebuilds(sl, R, parents, i + 1)
    ensures forall y, k :: 0 <= y <= |R| + 1 && 0 <= k < i ==> Tally(sl, R, k)(y) == Tally(was, R, k)(y)
  {
    hide Rebuilt;
  }
}

/** Line ends on checkout (convert.c): the whole-buffer conversion and the streaming filter that
    must give the same bytes.  A char is a byte. */
module Convert {
  import opened Basics

  predicate EndsCr(s: string) {
    s != "" && s[|s| - 1] == '\r'
  }

  /** A CR put before each LF that no CR precedes. */
  function Crlf(s: string): string {
    if s == "" then ""
    else
      var before, c := s[..|s| - 1], s[|s| - 1];
      Crlf(before) + if c == '\n' && !EndsCr(before) then "\r\n" else [c]
  }

  lemma CrlfOneMore(s: string, c: char)
    ensures Crlf(s + [c]) == Crlf(s) + if c == '\n' && !EndsCr(s) then "\r\n" else [c]
    ensures EndsCr(s + [c]) == (c == '\r')
  {
    assert (s + [c])[..|s|] == s;
  }

  /** Bytes without a line end are copied. */
  lemma {:induction false} CrlfPlain(s: string, plain: string)
    requires '\n' !in plain
    ensures Crlf(s + plain) == Crlf(s) + plain
  {
    hide Crlf, EndsCr;
    if plain == "" {
      assert s + plain == s && Crlf(s) + plain == Crlf(s);
    } else {
      var before, c := plain[..|plain| - 1], plain[|plain| - 1];
      CrlfPlain(s, before);
      CrlfOneMore(s + before, c);
      LastApart(s, plain);
      LastApart(Crlf(s), plain);
    }
  }

  lemma LastApart(s: string, t: string)
    requires t != ""
    ensures s + t == s + t[..|t| - 1] + [t[|t| - 1]]
  {
  }

  /** Converting twice is converting once. */
  lemma {:induction false} CrlfTwice(s: string)
    ensures Crlf(Crlf(s)) == Crlf(s)
    ensures EndsCr(Crlf(s)) == EndsCr(s)
  {
    if s != "" {
      var before, c := s[..|s| - 1], s[|s| - 1];
      CrlfTwice(before);
      if c == '\n' && !EndsCr(before) {
        CrlfOneMore(Crlf(before), '\r');
        CrlfOneMore(Crlf(before) + "\r", '\n');
        assert Crlf(s) == Crlf(before) + "\r" + "\n";
      } else {
        CrlfOneMore(Crlf(before), c);
      }
    }
  }

  // ---------------------------------------------------------------- statistics

  function Count(s: string, p: char -> bool): nat {
    if s == "" then 0 else Count(s[..|s| - 1], p) + if p(s[|s| - 1]) then 1 else 0
  }

  /** How often a CR stands right before an LF. */
  function Pairs(s: string): nat {
    if s == "" then 0
    else Pairs(s[..|s| - 1]) + if s[|s| - 1] == '\n' && EndsCr(s[..|s| - 1]) then 1 else 0
  }

  /** BS, HT, ESC and FF. */
  predicate Harmless(c: char) {
    c == 8 as char || c == '\t' || c == 27 as char || c == 12 as char
  }

  predicate Printable(c: char) {
    Harmless(c) || (32 as char <= c && c != 127 as char)
  }

  predicate Nonprintable(c: char) {
    c != '\r' && c != '\n' && !Printable(c)
  }

  datatype Stats = Stats(nul: nat, cr: nat, lf: nat, crlf: nat, printable: nat, nonprintable: nat)

  predicate IsCr(c: char) { c == '\r' }
  predicate IsLf(c: char) { c == '\n' }
  predicate IsNul(c: char) { c == 0 as char }

  /** What the counters hold once s is read; the end-of-file character is not yet forgiven. */
  function Counted(s: string): Stats {
    Stats(Count(s, IsNul), Count(s, IsCr), Count(s, IsLf), Pairs(s), Count(s, Printable), Count(s, Nonprintable))
  }

  predicate EndsInEof(s: string) {
    s != "" && s[|s| - 1] == 26 as char
  }

  function StatsOf(s: string): Stats {
    var t := Counted(s);
    if EndsInEof(s) && t.nonprintable > 0 then t.(nonprintable := t.nonprintable - 1) else t
  }

  lemma CountedOneMore(s: string, c: char)
    ensures Counted(s + [c]) ==
      (var t := Counted(s);
       Stats(t.nul + (if IsNul(c) then 1 else 0), t.cr + (if IsCr(c) then 1 else 0), t.lf + (if IsLf(c) then 1 else 0),
             t.crlf + (if c == '\n' && EndsCr(s) then 1 else 0),
             t.printable + (if Printable(c) then 1 else 0), t.nonprintable + if Nonprintable(c) then 1 else 0))
  {
    assert (s + [c])[..|s|] == s;
  }

  method GatherStats(buf: string) returns (stats: Stats)
    ensures stats == StatsOf(buf)
  {
    stats := Stats(0, 0, 0, 0, 0, 0);
    var i := 0;
    while i < |buf|
      invariant 0 <= i <= |buf|
      invariant Counted(buf[..i]) ==
        if EndsCr(buf[..i]) && i < |buf| && buf[i] == '\n' then stats.(crlf := Pairs(buf[..i])) else stats
      invariant EndsCr(buf[..i]) && i < |buf| && buf[i] == '\n' ==> stats.crlf == Pairs(buf[..i]) + 1
    {
      var c := buf[i];
      CountedOneMore(buf[..i], c);
      assert buf[..i + 1] == buf[..i] + [c];
      i := i + 1;
      if c == '\r' {
        stats := stats.(cr := stats.cr + 1);
        if i < |buf| && buf[i] == '\n' {
          stats := stats.(crlf := stats.crlf + 1);
        }
        continue;
      }
      if c == '\n' {
        stats := stats.(lf := stats.lf + 1);
        continue;
      }
      if c == 127 as char {
        stats := stats.(nonprintable := stats.nonprintable + 1);
      } else if c < 32 as char {
        if Harmless(c) {
          stats := stats.(printable := stats.printable + 1);
        } else if c == 0 as char {
          stats := stats.(nul := stats.nul + 1, nonprintable := stats.nonprintable + 1);
        } else {
          stats := stats.(nonprintable := stats.nonprintable + 1);
        }
      } else {
        stats := stats.(printable := stats.printable + 1);
      }
    }
    assert buf[..i] == buf;
    if |buf| >= 1 && buf[|buf| - 1] == 26 as char {
      stats := stats.(nonprintable := stats.nonprintable - 1);
    }
  }

  /** The counters foretell the length of the result, and whether there is anything to do. */
  lemma {:induction false} StatsForetell(s: string)
    ensures Pairs(s) <= Count(s, IsLf)
    ensures |Crlf(s)| == |s| + Count(s, IsLf) - Pairs(s)
    ensures Pairs(s) == Count(s, IsLf) <==> Crlf(s) == s
  {
    if s != "" {
      var before := s[..|s| - 1];
      StatsForetell(before);
      assert s == before + [s[|s| - 1]];
    }
  }

  predicate LoneCrAt(s: string, i: nat)
    requires i < |s|
  {
    s[i] == '\r' && !(i + 1 < |s| && s[i + 1] == '\n')
  }

  predicate LoneCr(s: string) {
    exists i :: 0 <= i < |s| && LoneCrAt(s, i)
  }

  /** Every CR but the lone ones is counted as a pair. */
  lemma {:induction false} PairsMissLoneCr(s: string)
    ensures Pairs(s) <= Count(s, IsCr)
    ensures EndsCr(s) ==> Pairs(s) < Count(s, IsCr)
    ensures Pairs(s) != Count(s, IsCr) <==> LoneCr(s)
  {
    if s != "" {
      var before, c := s[..|s| - 1], s[|s| - 1];
      PairsMissLoneCr(before);
      if c == '\n' && EndsCr(before) {
        PairsMissLoneCr(s[..|s| - 2]);
        PairClosed(s);
      } else if c == '\r' {
        assert LoneCrAt(s, |s| - 1);
      } else {
        assert forall i :: 0 <= i < |before| ==> LoneCrAt(before, i) == LoneCrAt(s, i);
      }
    }
  }

  lemma PairClosed(s: string)
    requires |s| >= 2 && s[|s| - 1] == '\n' && s[|s| - 2] == '\r'
    ensures Pairs(s) == Pairs(s[..|s| - 2]) + 1 && Count(s, IsCr) == Count(s[..|s| - 2], IsCr) + 1
    ensures LoneCr(s) == LoneCr(s[..|s| - 2])
  {
    var rest := s[..|s| - 2];
    CountedOneMore(rest, '\r');
    CountedOneMore(rest + ['\r'], '\n');
    assert s == rest + ['\r'] + ['\n'];
    LoneCrBefore(rest);
  }

  lemma LoneCrBefore(rest: string)
    ensures LoneCr(rest + ['\r'] + ['\n']) == LoneCr(rest)
  {
    var s := rest + ['\r'] + ['\n'];
    forall i: nat | i < |rest|
      ensures LoneCrAt(rest, i) == LoneCrAt(s, i)
    {
      assert s[i] == rest[i];
      assert i + 1 < |rest| ==> s[i + 1] == rest[i + 1];
    }
    assert s[|rest|] == '\r' && s[|rest| + 1] == '\n';
  }

  // ---------------------------------------------------------------- the whole buffer

  datatype CrlfAction = Guess | Binary | Text | Input | CrLf | Auto

  datatype AutoCrlf = Off | On | OnInput

  datatype Eol = EolUnset | EolCrLf | EolLf

  datatype Settings = Settings(autoCrlf: AutoCrlf, coreEol: Eol, native: Eol)

  function OutputEol(action: CrlfAction, settings: Settings): Eol {
    match action
    case Binary => EolUnset
    case CrLf => EolCrLf
    case Input => EolLf
    case Guess => if settings.autoCrlf == Off then EolUnset else ConfiguredEol(settings)
    case Text => ConfiguredEol(settings)
    case Auto => ConfiguredEol(settings)
  }

  function ConfiguredEol(settings: Settings): Eol {
    match settings.autoCrlf
    case On => EolCrLf
    case OnInput => EolLf
    case Off => if settings.coreEol == EolUnset then settings.native else settings.coreEol
  }

  predicate Guessing(action: CrlfAction) {
    action == Auto || action == Guess
  }

  predicate IsBinary(stats: Stats) {
    stats.nul > 0 || stats.printable / 128 < stats.nonprintable
  }

  method MemChr(s: string, from: nat, c: char) returns (at: nat)
    requires from <= |s|
    ensures from <= at <= |s|
    ensures c !in s[from..at] && (at < |s| ==> s[at] == c)
  {
    at := from;
    while at < |s| && s[at] != c
      invariant from <= at <= |s| && c !in s[from..at]
    {
      at := at + 1;
    }
  }

  // ---------------------------------------------------------------- what the counters stand for

  /** Bytes that count against text: DEL, and those below 32 but BS, TAB, LF, FF, CR and ESC. */
  predicate IsControl(c: char) {
    || c == 127 as char
    || (c < 32 as char && c as int !in {8, 9, 10, 12, 13, 27})
  }

  /** Where they stand; an end-of-file byte in the last place is forgiven. */
  ghost function ControlsAt(s: string): set<nat> {
    set i | 0 <= i < |s| && IsControl(s[i]) && !(i == |s| - 1 && s[i] == 26 as char)
  }

  /** Where the other bytes stand that are no part of a line end. */
  ghost function OthersAt(s: string): set<nat> {
    set i | 0 <= i < |s| && !IsControl(s[i]) && s[i] !in "\r\n"
  }

  ghost function Positions(s: string, p: char -> bool): set<nat> {
    set i | 0 <= i < |s| && p(s[i])
  }

  lemma {:induction false} CountMeans(s: string, p: char -> bool)
    ensures |Positions(s, p)| == Count(s, p)
  {
    if s == "" {
      assert Positions(s, p) == {};
    } else {
      var before := s[..|s| - 1];
      CountMeans(before, p);
      assert Positions(s, p) == Positions(before, p) + if p(s[|s| - 1]) then {|s| - 1} else {};
    }
  }

  /** Text that a guessing action takes for binary: it holds a NUL, or fewer than 128 bytes for each control byte. */
  lemma BinaryMeans(s: string)
    ensures IsBinary(StatsOf(s)) <==> 0 as char in s || |OthersAt(s)| < 128 * |ControlsAt(s)|
  {
    hide Count, ControlsAt, OthersAt, Positions;
    NulsCounted(s);
    ControlsCounted(s);
    OthersCounted(s);
  }

  lemma OthersCounted(s: string)
    ensures |OthersAt(s)| == Count(s, Printable)
  {
    hide Count;
    CountMeans(s, Printable);
    assert OthersAt(s) == Positions(s, Printable);
  }

  lemma ControlsCounted(s: string)
    ensures |ControlsAt(s)| == Count(s, Nonprintable) - if EndsInEof(s) then 1 else 0
  {
    hide Count;
    CountMeans(s, Nonprintable);
    var all := Positions(s, Nonprintable);
    if EndsInEof(s) {
      assert |s| - 1 in all;
      assert ControlsAt(s) == all - {|s| - 1};
    } else {
      assert ControlsAt(s) == all;
    }
  }

  lemma {:induction false} NulsCounted(s: string)
    ensures Count(s, IsNul) > 0 <==> 0 as char in s
  {
    if s != "" {
      NulsCounted(s[..|s| - 1]);
      assert s == s[..|s| - 1] + [s[|s| - 1]];
    }
  }

  /** A clean text is never taken for binary, however short it is. */
  lemma CleanIsNotBinary(s: string)
    requires forall c :: c in s ==> c as int in {8, 9, 10, 12, 13, 27} || (c >= 32 as char && c != 127 as char)
    ensures !IsBinary(StatsOf(s))
  {
    BinaryMeans(s);
    assert forall i :: 0 <= i < |s| ==> s[i] in s;
    assert ControlsAt(s) == {};
  }

  /** A LF that no CR precedes. */
  predicate NakedAt(s: string, i: nat)
    requires i < |s|
  {
    s[i] == '\n' && !(i > 0 && s[i - 1] == '\r')
  }

  ghost function NakedBefore(s: string, n: nat): set<nat>
    requires n <= |s|
  {
    set i | 0 <= i < n && NakedAt(s, i)
  }

  /** Where a byte of s, and the CR put in before it, stand in t. */
  ghost predicate PlacedIn(s: string, i: nat, t: string)
    requires i < |s|
  {
    var at := i + |NakedBefore(s, i + 1)|;
    at < |t| && t[at] == s[i] && (NakedAt(s, i) ==> at > 0 && t[at - 1] == '\r')
  }

  /** Each byte is moved by the number of CRs put in up to it, and the CRs stand right before the naked LFs. */
  lemma {:induction false} CrlfPlaces(s: string)
    ensures |Crlf(s)| == |s| + |NakedBefore(s, |s|)|
    ensures forall i: nat :: i < |s| ==> PlacedIn(s, i, Crlf(s))
  {
    hide Crlf, NakedBefore, PlacedIn;
    if s == "" {
      EmptyCrlf();
    } else {
      var before, last := s[..|s| - 1], |s| - 1;
      CrlfPlaces(before);
      CrlfOneMore(before, s[last]);
      assert s == before + [s[last]];
      NakedOneMore(s);
      forall i: nat | i < |s|
        ensures PlacedIn(s, i, Crlf(s))
      {
        if i < last {
          StaysPlaced(s, i, Crlf(before), Crlf(s));
        } else {
          LastPlaced(s, Crlf(before), Crlf(s));
        }
      }
    }
  }

  lemma StaysPlaced(s: string, i: nat, t: string, u: string)
    requires i + 1 < |s| && PlacedIn(s[..|s| - 1], i, t) && t <= u
    ensures PlacedIn(s, i, u)
  {
    assert NakedBefore(s, i + 1) == NakedBefore(s[..|s| - 1], i + 1);
  }

  lemma LastPlaced(s: string, t: string, u: string)
    requires s != "" && |t| == |s| - 1 + |NakedBefore(s, |s| - 1)|
    requires u == t + if NakedAt(s, |s| - 1) then "\r\n" else [s[|s| - 1]]
    ensures PlacedIn(s, |s| - 1, u)
  {
    NakedOneMore(s);
  }

  lemma EmptyCrlf()
    ensures Crlf("") == "" && NakedBefore("", 0) == {}
  {
  }

  lemma NakedOneMore(s: string)
    requires s != ""
    ensures NakedBefore(s, |s| - 1) == NakedBefore(s[..|s| - 1], |s| - 1)
    ensures |NakedBefore(s, |s|)| == |NakedBefore(s, |s| - 1)| + if NakedAt(s, |s| - 1) then 1 else 0
  {
    assert NakedBefore(s, |s|) == NakedBefore(s, |s| - 1) + if NakedAt(s, |s| - 1) then {|s| - 1} else {};
  }

  /** Conversion changes exactly the texts with a naked LF. */
  lemma ChangesNaked(s: string)
    ensures Crlf(s) != s <==> exists i :: 0 <= i < |s| && NakedAt(s, i)
  {
    hide Crlf;
    CrlfPlaces(s);
    if i :| 0 <= i < |s| && NakedAt(s, i) {
      assert i in NakedBefore(s, |s|);
      assert |Crlf(s)| > |s|;
    } else {
      NothingMoved(s, Crlf(s));
    }
  }

  lemma NothingMoved(s: string, t: string)
    requires forall i :: 0 <= i < |s| ==> !NakedAt(s, i)
    requires |t| == |s| + |NakedBefore(s, |s|)| && forall i: nat :: i < |s| ==> PlacedIn(s, i, t)
    ensures t == s
  {
    assert NakedBefore(s, |s|) == {};
    forall i: nat | i < |s|
      ensures t[i] == s[i]
    {
      assert PlacedIn(s, i, t) && NakedBefore(s, i + 1) == {};
    }
  }

  /** When a checkout writes CR LF: always for eol=crlf; with autocrlf on for every text, named so or guessed; with
      autocrlf off for named text whose configured or, failing that, native line end is CR LF. */
  predicate WantsCrLf(action: CrlfAction, settings: Settings) {
    || action == CrLf
    || (action in {Text, Auto, Guess} && settings.autoCrlf == On)
    || (action in {Text, Auto} && settings.autoCrlf == Off
        && (settings.coreEol == EolCrLf || (settings.coreEol == EolUnset && settings.native == EolCrLf)))
  }

  method CrlfToWorktree(src: string, action: CrlfAction, settings: Settings) returns (r: Option<string>)
    ensures r.Some? ==> r.value == Crlf(src)
    ensures r.Some? <==>
      && WantsCrLf(action, settings)
      && (exists i :: 0 <= i < |src| && NakedAt(src, i))
      && (action == Guess ==> '\r' !in src)
      && (action in {Auto, Guess} ==>
            !LoneCr(src) && 0 as char !in src && |OthersAt(src)| >= 128 * |ControlsAt(src)|)
  {
    if src == "" || OutputEol(action, settings) != EolCrLf {
      return None;
    }
    var stats := GatherStats(src);
    StatsForetell(src);
    ChangesNaked(src);
    PairsMissLoneCr(src);
    CrsCounted(src);
    BinaryMeans(src);
    if stats.lf == 0 || stats.lf == stats.crlf {
      return None;
    }
    if Guessing(action) {
      if action == Guess && (stats.cr > 0 || stats.crlf > 0) {
        return None;
      }
      if stats.cr != stats.crlf || IsBinary(stats) {
        return None;
      }
    }
    var buf := CopyLines(src);
    return Some(buf);
  }

  lemma LineCopied(src: string, pos: nat, nl: nat)
    requires pos <= nl < |src| && src[nl] == '\n' && '\n' !in src[pos..nl]
    ensures Crlf(src[..nl + 1]) ==
      if EndsCr(src[..nl]) then Crlf(src[..pos]) + src[pos..nl + 1] else Crlf(src[..pos]) + src[pos..nl] + "\r\n"
  {
    LineRun(src, pos, nl);
    CrlfOneMore(src[..nl], '\n');
    assert src[..nl + 1] == src[..nl] + ['\n'];
    assert Crlf(src[..pos]) + src[pos..nl + 1] == Crlf(src[..pos]) + src[pos..nl] + "\n";
  }

  lemma LineRun(src: string, pos: nat, nl: nat)
    requires pos <= nl <= |src| && '\n' !in src[pos..nl]
    ensures Crlf(src[..nl]) == Crlf(src[..pos]) + src[pos..nl]
  {
    CrlfPlain(src[..pos], src[pos..nl]);
    assert src[..pos] + src[pos..nl] == src[..nl];
  }

  method CopyLines(src: string) returns (buf: string)
    ensures buf == Crlf(src)
  {
    buf := "";
    var pos := 0;
    while true
      invariant pos <= |src| && buf == Crlf(src[..pos])
      invariant pos > 0 ==> src[pos - 1] == '\n'
      decreases |src| - pos
    {
      var nl := MemChr(src, pos, '\n');
      if nl == |src| {
        break;
      }
      LineCopied(src, pos, nl);
      if nl > pos && src[nl - 1] == '\r' {
        buf := buf + src[pos..nl + 1];
      } else {
        buf := buf + src[pos..nl];
        buf := buf + "\r\n";
      }
      pos := nl + 1;
    }
    LineRun(src, pos, |src|);
    assert src[..|src|] == src;
    buf := buf + src[pos..];
  }

  lemma {:induction false} CrsCounted(s: string)
    ensures Count(s, IsCr) > 0 <==> '\r' in s
  {
    if s != "" {
      CrsCounted(s[..|s| - 1]);
      assert s == s[..|s| - 1] + [s[|s| - 1]];
    }
  }
}

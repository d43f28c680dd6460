/** The parser and the writer of configuration files as config.c runs them, one character at a time. */
module ConfigFile {
  import opened Basics
  import opened Config

  lemma ToldTwice(a: seq<Call>, b: seq<Call>, rest: Outcome)
    ensures Telling(a, Telling(b, rest)) == Telling(a + b, rest)
  {
  }

  ghost predicate Stands(parse: (string, Place) -> Outcome, fn: Callback, s: string, at: Place) {
    Legal(at) ==> parse(s, at) == SourceFrom(fn, s, at)
  }

  ghost predicate Parses(parse: (string, Place) -> Outcome, fn: Callback) {
    forall s, at :: Stands(parse, fn, s, at)
  }

  class ConfigSource {
    const buf: string
    var pos: nat
    var eof: bool
    var value: string
    var varName: string
    var calls: seq<Call>

    constructor (buf: string)
      ensures Valid() && Rest() == buf && varName == "" && calls == []
    {
      this.buf, pos, eof, value, varName, calls := buf, 0, false, "", "", [];
    }

    ghost predicate Valid()
      reads this
    {
      pos <= |buf| && (eof ==> pos == |buf|)
    }

    ghost function Rest(): string
      requires Valid()
      reads this
    {
      buf[pos..]
    }

    method GetNextChar() returns (c: char)
      requires Valid()
      modifies this`pos, this`eof
      ensures Valid() && Next(c, eof, Rest()) == NextChar(old(Rest()))
    {
      if pos == |buf| {
        eof := true;
        return '\n';
      }
      c := buf[pos];
      pos := pos + 1;
      if c == '\r' && pos < |buf| {
        c := buf[pos];
        pos := pos + 1;
        if c != '\n' {
          pos := pos - 1;
          c := '\r';
        }
      }
    }

    method AddSpaces(space: nat)
      modifies this`value
      ensures value == old(value) + Spaces(space)
    {
      var left, done := space, 0;
      while left > 0
        invariant left + done == space && value == old(value) + Spaces(done)
      {
        value := value + " ";
        left, done := left - 1, done + 1;
        assert old(value) + Spaces(done - 1) + " " == old(value) + Spaces(done);
      }
    }

    /** What is still to be read of a value. */
    ghost function ValueHere(quote: bool, comment: bool, space: nat): Parsed
      requires Valid()
      reads this
    {
      ValueFrom(Rest(), value, quote, comment, space)
    }

    method ParseValue() returns (ok: bool)
      requires Valid()
      modifies this`pos, this`eof, this`value
      ensures Valid()
      ensures
        var r := ValueFrom(old(Rest()), "", false, false, 0);
        ok == r.Parsed? && (ok ==> Parsed(value, Rest()) == r)
    {
      value := "";
      var quote, comment, space, done := false, false, 0, false;
      ok := false;
      ghost var r := ValueHere(quote, comment, space);
      while !done
        invariant Valid()
        invariant if done then r == (if ok then Parsed(value, Rest()) else Bad)
                  else r == ValueHere(quote, comment, space)
        decreases !done, |Rest()|
      {
        done, ok, quote, comment, space := ParseValueChar(quote, comment, space);
      }
    }

    /** One round of the loop. */
    method ParseValueChar(wasQuote: bool, wasComment: bool, wasSpace: nat)
      returns (done: bool, ok: bool, quote: bool, comment: bool, space: nat)
      requires Valid()
      modifies this`pos, this`eof, this`value
      ensures Valid() && (!done ==> |Rest()| < |old(Rest())|)
      ensures old(ValueHere(wasQuote, wasComment, wasSpace)) ==
        if !done then ValueHere(quote, comment, space) else if ok then Parsed(value, Rest()) else Bad
    {
      done, ok, quote, comment, space := false, false, wasQuote, wasComment, wasSpace;
      var c := GetNextChar();
      if c == '\n' {
        done, ok := true, !quote;
        return;
      }
      if comment {
        return;
      }
      if IsSpace(c) && !quote {
        if |value| > 0 {
          space := space + 1;
        }
        return;
      }
      if !quote && (c == ';' || c == '#') {
        comment := true;
        return;
      }
      AddSpaces(space);
      space := 0;
      if c == '\\' {
        c := GetNextChar();
        match Unescape(c) {
          case Continue =>
          case Unknown => done := true;
          case Means(d) => value := value + [d];
        }
        return;
      }
      if c == '"' {
        quote := !quote;
        return;
      }
      value := value + [c];
    }

    method AddName() returns (c: char)
      requires Valid()
      modifies this`pos, this`eof, this`varName
      ensures Valid() && Name(varName, Next(c, eof, Rest())) == NameFrom(old(Rest()), old(varName))
    {
      ghost var r := NameFrom(Rest(), varName);
      while true
        invariant Valid() && r == NameFrom(Rest(), varName)
        decreases |Rest()|
      {
        c := GetNextChar();
        if eof || !IsKeyChar(c) {
          break;
        }
        varName := varName + [ToLower(c)];
      }
    }

    method SkipBlank(was: char) returns (c: char)
      requires Valid()
      modifies this`pos, this`eof
      ensures Valid() && Next(c, eof, Rest()) == SkipBlanks(old(Next(was, eof, Rest())))
    {
      c := was;
      ghost var r := SkipBlanks(Next(was, eof, Rest()));
      while c == ' ' || c == '\t'
        invariant Valid() && r == SkipBlanks(Next(c, eof, Rest()))
        invariant eof && |Rest()| < |old(Rest())| ==> c == '\n'
        decreases |Rest()|, c == ' ' || c == '\t'
      {
        c := GetNextChar();
      }
    }

    /** The callback's answer, or -1. */
    method GetValue(fn: Callback) returns (ret: int)
      requires Valid()
      modifies this`pos, this`eof, this`varName, this`value, this`calls
      ensures Valid()
      ensures
        match LineFrom(old(Rest()), old(varName))
        case BadLine => ret < 0 && calls == old(calls)
        case Line(call, rest) =>
          ret == fn(call) && calls == old(calls) + [call] && varName == call.key && Rest() == rest
    {
      var c := AddName();
      c := SkipBlank(c);
      var given: Option<string> := None;
      if c != '\n' {
        if c != '=' {
          return -1;
        }
        var ok := ParseValue();
        if !ok {
          return -1;
        }
        given := Some(value);
      }
      calls := calls + [Call(varName, given)];
      ret := fn(Call(varName, given));
    }

    method GetExtendedBaseVar(was: char) returns (ok: bool)
      requires Valid()
      modifies this`pos, this`eof, this`varName
      ensures Valid()
      ensures
        var r := ExtendedBaseFrom(old(Rest()), old(varName), was);
        ok == r.Parsed? && (ok ==> Parsed(varName, Rest()) == r)
    {
      var c := was;
      ok := SkipToQuote(was);
      if !ok {
        return;
      }
      varName := varName + ".";
      ok := AddSubsection();
      if !ok {
        return;
      }
      c := GetNextChar();
      ok := c == ']';
    }

    /** True when a quote comes after the blanks. */
    method SkipToQuote(was: char) returns (ok: bool)
      requires Valid()
      modifies this`pos, this`eof
      ensures Valid()
      ensures
        var r := SkipSpaces(old(Rest()), was);
        ok == (r.Some? && r.value.c == '"') && (ok ==> Rest() == r.value.rest)
    {
      var c := was;
      ghost var r := SkipSpaces(Rest(), c);
      while true
        invariant Valid() && r == SkipSpaces(Rest(), c)
        decreases |Rest()|, c != '\n'
      {
        if c == '\n' {
          return false;
        }
        c := GetNextChar();
        if !IsSpace(c) {
          break;
        }
      }
      ok := c == '"';
    }

    method AddSubsection() returns (ok: bool)
      requires Valid()
      modifies this`pos, this`eof, this`varName
      ensures Valid()
      ensures
        var r := SubsectionFrom(old(Rest()), old(varName));
        ok == r.Parsed? && (ok ==> Parsed(varName, Rest()) == r)
    {
      ghost var r := SubsectionFrom(Rest(), varName);
      while true
        invariant Valid() && r == SubsectionFrom(Rest(), varName)
        decreases |Rest()|
      {
        var c := GetNextChar();
        if c == '\n' {
          return false;
        }
        if c == '"' {
          return true;
        }
        if c == '\\' {
          c := GetNextChar();
          if c == '\n' {
            return false;
          }
        }
        varName := varName + [c];
      }
    }

    method GetBaseVar() returns (ok: bool)
      requires Valid()
      modifies this`pos, this`eof, this`varName
      ensures Valid()
      ensures
        var r := BaseFrom(old(Rest()), old(varName));
        ok == r.Parsed? && (ok ==> Parsed(varName, Rest()) == r)
    {
      ghost var r := BaseFrom(Rest(), varName);
      while true
        invariant Valid() && r == BaseFrom(Rest(), varName)
        decreases |Rest()|
      {
        var c := GetNextChar();
        if eof {
          return false;
        }
        if c == ']' {
          return true;
        }
        if IsSpace(c) {
          ok := GetExtendedBaseVar(c);
          return;
        }
        if !IsKeyChar(c) && c != '.' {
          return false;
        }
        varName := varName + [ToLower(c)];
      }
    }

    ghost predicate Standing(at: Place)
      reads this
    {
      at.varName == varName && Legal(at)
    }

    method ParseSource(fn: Callback) returns (ok: bool)
      requires Valid() && varName == ""
      modifies this
      ensures Valid()
      ensures
        var r := SourceFrom(fn, old(Rest()), START);
        calls == old(calls) + r.calls && ok == r.ok
    {
      ghost var parse := (s: string, at: Place) => if Legal(at) then SourceFrom(fn, s, at) else Outcome([], false);
      assert Parses(parse, fn);
      assert Stands(parse, fn, Rest(), START);
      ok := ParseLoop(fn, parse);
    }

    method ParseLoop(fn: Callback, ghost parse: (string, Place) -> Outcome) returns (ok: bool)
      requires Valid() && varName == "" && Parses(parse, fn)
      modifies this
      ensures Valid()
      ensures Outcome(calls, ok) == Telling(old(calls), parse(old(Rest()), START))
    {
      var comment, baselen, bom, done := false, 0, Seen(0), false;
      ok := false;
      ghost var rest := parse(Rest(), START);
      ghost var whole := Telling(calls, rest);
      while !done
        invariant Valid() && Standing(Place(varName, baselen, comment, bom))
        invariant rest == if done then Outcome([], ok) else parse(Rest(), Place(varName, baselen, comment, bom))
        invariant whole == Telling(calls, rest)
        decreases !done, |Rest()|
      {
        ghost var before, more := calls, [];
        done, ok, baselen, comment, bom, more := ParseStep(fn, baselen, comment, bom, parse);
        rest := if done then Outcome([], ok) else parse(Rest(), Place(varName, baselen, comment, bom));
        ToldTwice(before, more, rest);
      }
    }

    method ParseStep(fn: Callback, wasBaselen: nat, wasComment: bool, wasBom: Bom,
                     ghost parse: (string, Place) -> Outcome)
      returns (done: bool, ok: bool, baselen: nat, comment: bool, bom: Bom, ghost told: seq<Call>)
      requires Valid() && Standing(Place(varName, wasBaselen, wasComment, wasBom)) && Parses(parse, fn)
      modifies this
      ensures Valid() && (!done ==> |Rest()| < |old(Rest())|) && calls == old(calls) + told
      ensures Standing(Place(varName, baselen, comment, bom))
      ensures parse(old(Rest()), old(Place(varName, wasBaselen, wasComment, wasBom))) ==
        Telling(told, if done then Outcome([], ok) else parse(Rest(), Place(varName, baselen, comment, bom)))
    {
      hide SourceFrom, OneTurn;
      ghost var s, at := Rest(), Place(varName, wasBaselen, wasComment, wasBom);
      assert Stands(parse, fn, s, at);
      done, ok, baselen, comment, bom, told := ParseRound(fn, wasBaselen, wasComment, wasBom);
      ghost var next := Place(varName, baselen, comment, bom);
      assert Stands(parse, fn, Rest(), next);
      if done {
        SourceEnds(fn, s, at, told, ok);
      } else {
        SourceGoes(fn, s, at, told, Rest(), next);
      }
    }

    /** A section header, after its bracket. */
    method OpenSection() returns (ok: bool)
      requires Valid()
      modifies this`pos, this`eof, this`varName
      ensures Valid()
      ensures
        var r := BaseFrom(old(Rest()), "");
        ok == (r.Parsed? && r.text != "") && (ok ==> varName == r.text + "." && Rest() == r.rest)
    {
      varName := "";
      ok := GetBaseVar();
      ok := ok && |varName| >= 1;
      if ok {
        varName := varName + ".";
      }
    }

    /** A byte order mark at the beginning is skipped; part of one is an error. */
    method SkipBom(c: char, was: Bom) returns (skip: bool, bad: bool, bom: Bom)
      requires was.Seen? ==> was.n <= 3
      ensures skip == (was.Seen? && was.n < 3 && c == UTF8_BOM[was.n])
      ensures bad == (was.Seen? && 0 < was.n < 3 && !skip)
      ensures bom == if skip then Seen(was.n + 1) else if was == Seen(0) then Settled else was
    {
      skip, bad, bom := false, false, was;
      if bom.Seen? && bom.n < 3 {
        if c == UTF8_BOM[bom.n] {
          skip, bom := true, Seen(bom.n + 1);
        } else if bom.n != 0 {
          bad := true;
        } else {
          bom := Settled;
        }
      }
    }

    /** One round of the outer loop. */
    method ParseRound(fn: Callback, wasBaselen: nat, wasComment: bool, wasBom: Bom)
      returns (done: bool, ok: bool, baselen: nat, comment: bool, bom: Bom, ghost told: seq<Call>)
      requires Valid() && Standing(Place(varName, wasBaselen, wasComment, wasBom))
      modifies this
      ensures Valid() && calls == old(calls) + told
      ensures Standing(Place(varName, baselen, comment, bom))
      ensures old(OneTurn(fn, Rest(), Place(varName, wasBaselen, wasComment, wasBom))) ==
        if done then Ends(told, ok) else Goes(told, Rest(), Place(varName, baselen, comment, bom))
    {
      hide LineFrom, BaseFrom, Valid, Rest;
      done, ok, baselen, comment, bom, told := false, false, wasBaselen, wasComment, wasBom, [];
      var c := GetNextChar();
      var skip;
      skip, done, bom := SkipBom(c, wasBom);
      if skip || done {
        return;
      }
      if c == '\n' {
        if eof {
          done, ok := true, true;
        }
        comment := false;
        return;
      }
      if comment || IsSpace(c) {
        return;
      }
      if c == '#' || c == ';' {
        comment := true;
        return;
      }
      if c == '[' {
        var header := OpenSection();
        done, baselen := !header, if header then |varName| else 0;
        return;
      }
      if !IsAlpha(c) {
        done := true;
        return;
      }
      done, told := ParseLine(fn, baselen, c);
      if done {
        baselen := 0;
      }
    }

    /** A line that starts with a variable's name; done when it is bad or the callback stops. */
    method ParseLine(fn: Callback, baselen: nat, c: char) returns (done: bool, ghost told: seq<Call>)
      requires Valid() && baselen <= |varName|
      modifies this
      ensures Valid() && calls == old(calls) + told
      ensures
        match LineFrom(old(Rest()), old(varName)[..baselen] + [ToLower(c)])
        case BadLine => done && told == []
        case Line(call, rest) => done == (fn(call) < 0) && told == [call] && varName == call.key && Rest() == rest
    {
      varName := varName[..baselen] + [ToLower(c)];
      var ret := GetValue(fn);
      told := calls[|old(calls)|..];
      done := ret < 0;
    }
  }

  // ---------------------------------------------------------------- keys and the writer

  method StrRChr(s: string, c: char) returns (at: int)
    ensures -1 <= at < |s| && (forall i :: at < i < |s| ==> s[i] != c) && (at >= 0 ==> s[at] == c)
  {
    at := |s| - 1;
    while at >= 0 && s[at] != c
      invariant -1 <= at < |s| && forall i :: at < i < |s| ==> s[i] != c
    {
      at := at - 1;
    }
  }

  method ParseKey(key: string) returns (k: Key)
    ensures k == ParsedKey(key)
  {
    var last := StrRChr(key, '.');
    assert last == LastDot(key);
    if last <= 0 || last == |key| - 1 {
      return NoSectionOrName;
    }
    var stored, dot, i := "", false, 0;
    while i < |key|
      invariant i <= |key| && GoodTo(key, FirstDot(key), last, i)
      invariant dot == (i > FirstDot(key))
      invariant |stored| == i && forall k :: 0 <= k < i ==> stored[k] == StoredAt(key, FirstDot(key), last, k)
    {
      var c := key[i];
      if c == '.' {
        dot := true;
      }
      if !dot || i > last {
        if !IsKeyChar(c) || (i == last + 1 && !IsAlpha(c)) {
          assert !GoodAt(key, FirstDot(key), last, i);
          return InvalidKey;
        }
        c := ToLower(c);
      } else if c == '\n' {
        assert !GoodAt(key, FirstDot(key), last, i);
        return InvalidKey;
      }
      stored := stored + [c];
      i := i + 1;
    }
    StoredCanonical(key, last, stored);
    k := Key(stored, last);
  }

  /** A character as stored. */
  function StoredAt(key: string, first: nat, last: nat, i: nat): char
    requires i < |key|
  {
    if i < first || i > last then ToLower(key[i]) else key[i]
  }

  lemma {:induction false} LoweredIs(s: string, t: string)
    requires |t| == |s| && forall i :: 0 <= i < |s| ==> t[i] == ToLower(s[i])
    ensures t == Lowered(s)
  {
    if s != "" {
      LoweredIs(s[1..], t[1..]);
      assert t == [t[0]] + t[1..];
    }
  }

  lemma StoredCanonical(key: string, last: nat, stored: string)
    requires last < |key| && key[last] == '.' && |stored| == |key|
    requires forall i :: 0 <= i < |key| ==> stored[i] == StoredAt(key, FirstDot(key), last, i)
    ensures stored == Canonical(key, last)
  {
    FirstDotOfPrefix(key, last);
    StoredBase(key, key[..last], stored, FirstDot(key), last);
    StoredName(key, key[last + 1..], stored, FirstDot(key), last);
    AroundDot(stored, last);
  }

  lemma AroundDot(s: string, last: nat)
    requires last < |s| && s[last] == '.'
    ensures s == s[..last] + "." + s[last + 1..]
  {
  }

  lemma StoredName(key: string, name: string, stored: string, first: nat, last: nat)
    requires first <= last < |key| == |stored| && name == key[last + 1..]
    requires forall i :: 0 <= i < |key| ==> stored[i] == StoredAt(key, first, last, i)
    ensures stored[last + 1..] == Lowered(name)
  {
    LoweredIs(name, stored[last + 1..]);
  }

  lemma StoredBase(key: string, base: string, stored: string, first: nat, last: nat)
    requires first <= last < |key| == |stored| && base == key[..last] && FirstDot(base) == first
    requires forall i :: 0 <= i < |key| ==> stored[i] == StoredAt(key, first, last, i)
    ensures stored[..last] == CanonicalBase(base) && stored[last] == key[last]
  {
    LoweredIs(base[..first], stored[..first]);
    Middle(key, stored, first, last);
    assert stored[..last] == stored[..first] + stored[first..last];
  }

  lemma Middle(key: string, stored: string, first: nat, last: nat)
    requires first <= last < |key| == |stored|
    requires forall i :: 0 <= i < |key| ==> stored[i] == StoredAt(key, first, last, i)
    ensures stored[first..last] == key[..last][first..] && stored[last] == key[last]
  {
  }

  /** Parsing the canonical form of an accepted key gives the same key again. */
  lemma CanonicalIsStable(key: string)
    requires ParsedKey(key).Key?
    ensures ParsedKey(ParsedKey(key).canonical) == ParsedKey(key)
  {
    hide FirstDot, LastDot, StoredAt, GoodAt, Canonical;
    var first, last := FirstDot(key), LastDot(key);
    var t := seq(|key|, i requires 0 <= i < |key| => StoredAt(key, first, last, i));
    StoredCanonical(key, last, t);
    DotsKept(key, t, first, last);
    StoredIsGood(key, t, first, last);
    StoredTwice(key, t, first, last);
    StoredCanonical(t, last, t);
  }

  /** The canonical form is the key with its upper-case letters before the first and behind the last dot in lower case;
      what is before the last dot names the section. */
  lemma CanonicalMeans(key: string)
    requires ParsedKey(key).Key?
    ensures
      var first, last, t := FirstDot(key), LastDot(key), ParsedKey(key).canonical;
      && |t| == |key| && ParsedKey(key).baselen == last
      && (forall i :: first <= i <= last ==> t[i] == key[i])
      && (forall i :: 0 <= i < |key| && !(first <= i <= last) ==>
            if 'A' <= key[i] <= 'Z' then t[i] as int == key[i] as int - 'A' as int + 'a' as int else t[i] == key[i])
  {
    hide FirstDot, LastDot, GoodAt, Canonical;
    var first, last := FirstDot(key), LastDot(key);
    var t := seq(|key|, i requires 0 <= i < |key| => StoredAt(key, first, last, i));
    StoredCanonical(key, last, t);
  }

  lemma StoredIsGood(key: string, t: string, first: nat, last: nat)
    requires |t| == |key| && GoodTo(key, first, last, |key|)
    requires forall i :: 0 <= i < |key| ==> t[i] == StoredAt(key, first, last, i)
    ensures GoodTo(t, first, last, |t|)
  {
    forall i | 0 <= i < |t|
      ensures GoodAt(t, first, last, i)
    {
      assert GoodAt(key, first, last, i);
    }
  }

  lemma StoredTwice(key: string, t: string, first: nat, last: nat)
    requires |t| == |key| && forall i :: 0 <= i < |key| ==> t[i] == StoredAt(key, first, last, i)
    ensures forall i :: 0 <= i < |t| ==> t[i] == StoredAt(t, first, last, i)
  {
  }

  lemma DotsKept(key: string, t: string, first: nat, last: nat)
    requires first == FirstDot(key) <= last == LastDot(key) && last < |key| == |t|
    requires forall i :: 0 <= i < |key| ==> t[i] == StoredAt(key, first, last, i)
    ensures FirstDot(t) == first && LastDot(t) == last && t[last] == '.'
  {
    assert t[first] == '.' && t[last] == '.';
    assert forall i :: 0 <= i < first ==> t[i] != '.';
    assert forall i :: last < i < |t| ==> t[i] != '.';
  }

  method StoreWriteSection(key: string, baselen: nat) returns (sb: string)
    requires baselen <= |key|
    ensures sb == SectionText(key[..baselen])
  {
    ghost var base := key[..baselen];
    var dot := 0;
    while dot < baselen && key[dot] != '.'
      invariant dot <= baselen && forall i :: 0 <= i < dot ==> base[i] != '.'
    {
      dot := dot + 1;
    }
    assert dot == FirstDot(base);
    assert base[..dot] == key[..dot];
    if dot < baselen {
      sb := "[" + key[..dot] + " \"";
      sb := EscapeName(sb, base[dot + 1..], key, dot + 1, baselen);
      sb := sb + "\"]\n";
    } else {
      sb := "[" + key[..baselen] + "]\n";
    }
  }

  method EscapeName(start: string, ghost name: string, key: string, from: nat, to: nat) returns (sb: string)
    requires from <= to <= |key| && name == key[from..to]
    ensures sb == start + EscapedName(name)
  {
    sb := start;
    var i := from;
    assert name[..0] == "" && start + "" == start;
    while i < to
      invariant from <= i <= to && sb == start + EscapedName(name[..i - from])
    {
      ghost var before := EscapedName(name[..i - from]);
      EscapedNameOneMore(name[..i - from], key[i]);
      assert name[..i + 1 - from] == name[..i - from] + [key[i]];
      if key[i] == '"' || key[i] == '\\' {
        sb := sb + ['\\'];
      }
      sb := sb + [key[i]];
      assert sb == start + (before + EscapedName1(key[i]));
      i := i + 1;
    }
    assert name[..i - from] == name;
  }

  lemma {:induction false} EscapedNameOneMore(s: string, c: char)
    ensures EscapedName(s + [c]) == EscapedName(s) + EscapedName1(c)
  {
    if s == "" {
      assert s + [c] == [c];
      assert EscapedName([c]) == EscapedName1(c) + EscapedName([]);
    } else {
      assert (s + [c])[1..] == s[1..] + [c];
      EscapedNameOneMore(s[1..], c);
    }
  }

  lemma {:induction false} EscapedOneMore(s: string, c: char)
    ensures Escaped(s + [c]) == Escaped(s) + Escape1(c)
  {
    if s == "" {
      assert s + [c] == [c];
      assert Escaped([c]) == Escape1(c) + Escaped([]);
    } else {
      assert (s + [c])[1..] == s[1..] + [c];
      EscapedOneMore(s[1..], c);
    }
  }

  method StoreWritePair(key: string, baselen: nat, value: string) returns (sb: string)
    requires baselen < |key|
    ensures sb == PairText(key[baselen + 1..], value)
  {
    var quote := QuoteFor(value);
    sb := "\t" + key[baselen + 1..] + " = " + quote;
    sb := EscapeValue(sb, value);
    sb := sb + quote + "\n";
  }

  method QuoteFor(value: string) returns (quote: string)
    ensures quote == Quote(value)
  {
    quote := "";
    if |value| > 0 && value[0] == ' ' {
      quote := "\"";
    }
    var i := 0;
    while i < |value|
      invariant i <= |value|
      invariant quote == if (|value| > 0 && value[0] == ' ') || ';' in value[..i] || '#' in value[..i] then "\"" else ""
    {
      assert value[..i + 1] == value[..i] + [value[i]];
      if value[i] == ';' || value[i] == '#' {
        quote := "\"";
      }
      i := i + 1;
    }
    assert value[..i] == value;
    if i > 0 && value[i - 1] == ' ' {
      quote := "\"";
    }
  }

  method EscapeValue(start: string, value: string) returns (sb: string)
    ensures sb == start + Escaped(value)
  {
    hide Escaped;
    sb := start;
    var i := 0;
    assert value[..0] == "";
    EscapedStep("", "");
    while i < |value|
      invariant i <= |value| && sb == start + Escaped(value[..i])
    {
      EscapedOneMore(value[..i], value[i]);
      assert value[..i + 1] == value[..i] + [value[i]];
      ghost var before := Escaped(value[..i]);
      sb := EscapeOne(sb, value[i]);
      assert sb == start + (before + Escape1(value[i]));
      i := i + 1;
    }
    assert value[..i] == value;
  }

  method EscapeOne(start: string, c: char) returns (sb: string)
    ensures sb == start + Escape1(c)
  {
    sb := start;
    if c == '\n' {
      sb := sb + "\\n";
    } else if c == '\t' {
      sb := sb + "\\t";
    } else {
      if c == '"' || c == '\\' {
        sb := sb + "\\";
      }
      sb := sb + [c];
    }
  }
}

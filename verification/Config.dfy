/** Configuration files (config.c): what the parser makes of a text, and what the writer prints.
    A char is a byte of the file. */
module Config {
  import opened Basics

  // ---------------------------------------------------------------- characters

  /** git's own isspace, locale independent. */
  predicate IsSpace(c: char) {
    c == ' ' || c == '\t' || c == '\n' || c == '\r'
  }

  predicate IsAlpha(c: char) {
    'a' <= c <= 'z' || 'A' <= c <= 'Z'
  }

  predicate IsKeyChar(c: char) {
    IsAlpha(c) || '0' <= c <= '9' || c == '-'
  }

  function ToLower(c: char): char {
    if 'A' <= c <= 'Z' then c + 32 as char else c
  }

  function Lowered(s: string): string {
    if s == "" then "" else [ToLower(s[0])] + Lowered(s[1..])
  }

  /** A character of the file; the end of the file reads as a newline, and so does CR LF. */
  datatype Next = Next(c: char, eof: bool, rest: string)

  function NextChar(s: string): (n: Next)
    ensures |n.rest| < |s| || (s == "" && n == Next('\n', true, ""))
  {
    if s == "" then Next('\n', true, "")
    else if s[0] == '\r' && |s| > 1 && s[1] == '\n' then Next('\n', false, s[2..])
    else Next(s[0], false, s[1..])
  }

  // ---------------------------------------------------------------- values

  datatype Parsed = Bad | Parsed(text: string, rest: string)

  function Spaces(n: nat): string {
    if n == 0 then "" else Spaces(n - 1) + " "
  }

  datatype Escape = Continue | Unknown | Means(c: char)

  function Unescape(c: char): Escape {
    if c == '\n' then Continue
    else if c == 't' then Means('\t')
    else if c == 'b' then Means(8 as char)
    else if c == 'n' then Means('\n')
    else if c == '\\' || c == '"' then Means(c)
    else Unknown
  }

  /** Parses the rest of a value, given what is collected and how many spaces wait to be kept. */
  function ValueFrom(s: string, value: string, quote: bool, comment: bool, space: nat): (r: Parsed)
    ensures r.Parsed? ==> |r.rest| <= |s|
    decreases |s|
  {
    var n := NextChar(s);
    if n.c == '\n' then if quote then Bad else Parsed(value, n.rest)
    else if comment then ValueFrom(n.rest, value, quote, comment, space)
    else if IsSpace(n.c) && !quote then
      ValueFrom(n.rest, value, quote, comment, if value == "" then space else space + 1)
    else if !quote && (n.c == ';' || n.c == '#') then ValueFrom(n.rest, value, quote, true, space)
    else
      var kept := value + Spaces(space);
      if n.c == '\\' then
        var e := NextChar(n.rest);
        match Unescape(e.c)
        case Continue => ValueFrom(e.rest, kept, quote, comment, 0)
        case Unknown => Bad
        case Means(c) => ValueFrom(e.rest, kept + [c], quote, comment, 0)
      else if n.c == '"' then ValueFrom(n.rest, kept, !quote, comment, 0)
      else ValueFrom(n.rest, kept + [n.c], quote, comment, 0)
  }

  // ---------------------------------------------------------------- keys

  /** The characters of a name, and the character after them. */
  datatype Name = Name(text: string, stop: Next)

  function NameFrom(s: string, name: string): (r: Name)
    ensures |r.stop.rest| <= |s| && name <= r.text
    decreases |s|
  {
    var n := NextChar(s);
    if n.eof || !IsKeyChar(n.c) then Name(name, n) else NameFrom(n.rest, name + [ToLower(n.c)])
  }

  function SkipBlanks(n: Next): (r: Next)
    ensures |r.rest| <= |n.rest|
    decreases |n.rest|
  {
    if n.c == ' ' || n.c == '\t' then
      var m := NextChar(n.rest);
      if m.eof then m else SkipBlanks(m)
    else n
  }

  /** What the callback is told; a key without a value has none. */
  datatype Call = Call(key: string, value: Option<string>)

  datatype Line = BadLine | Line(call: Call, rest: string)

  /** The rest of a line that starts with a variable's name. */
  function LineFrom(s: string, name: string): (r: Line)
    ensures r.Line? ==> |r.rest| <= |s| && name <= r.call.key
  {
    var key := NameFrom(s, name);
    var n := SkipBlanks(key.stop);
    if n.c == '\n' then Line(Call(key.text, None), n.rest)
    else if n.c != '=' then BadLine
    else
      match ValueFrom(n.rest, "", false, false, 0)
      case Bad => BadLine
      case Parsed(text, rest) => Line(Call(key.text, Some(text)), rest)
  }

  // ---------------------------------------------------------------- section headers

  /** Up to the quote that opens the subsection. */
  function SkipSpaces(s: string, c: char): (r: Option<Next>)
    ensures r.Some? ==> |r.value.rest| <= |s|
    decreases |s|
  {
    if c == '\n' then None
    else
      var n := NextChar(s);
      if !IsSpace(n.c) then Some(n) else if s == "" then None else SkipSpaces(n.rest, n.c)
  }

  /** Up to the quote that closes it. */
  function SubsectionFrom(s: string, name: string): (r: Parsed)
    ensures r.Parsed? ==> |r.rest| <= |s|
    decreases |s|
  {
    var n := NextChar(s);
    if n.c == '\n' then Bad
    else if n.c == '"' then Parsed(name, n.rest)
    else if n.c == '\\' then
      var e := NextChar(n.rest);
      if e.c == '\n' then Bad else SubsectionFrom(e.rest, name + [e.c])
    else SubsectionFrom(n.rest, name + [n.c])
  }

  function ExtendedBaseFrom(s: string, name: string, c: char): (r: Parsed)
    ensures r.Parsed? ==> |r.rest| <= |s|
  {
    match SkipSpaces(s, c)
    case None => Bad
    case Some(open) =>
      if open.c != '"' then Bad
      else
        match SubsectionFrom(open.rest, name + ".")
        case Bad => Bad
        case Parsed(text, rest) =>
          var close := NextChar(rest);
          if close.c != ']' then Bad else Parsed(text, close.rest)
  }

  function BaseFrom(s: string, name: string): (r: Parsed)
    ensures r.Parsed? ==> |r.rest| <= |s|
    decreases |s|
  {
    var n := NextChar(s);
    if n.eof then Bad
    else if n.c == ']' then Parsed(name, n.rest)
    else if IsSpace(n.c) then ExtendedBaseFrom(n.rest, name, n.c)
    else if !IsKeyChar(n.c) && n.c != '.' then Bad
    else BaseFrom(n.rest, name + [ToLower(n.c)])
  }

  // ---------------------------------------------------------------- a whole file

  const UTF8_BOM := [0xef as char, 0xbb as char, 0xbf as char]

  /** How much of a byte order mark was seen; none is looked for after the first other character. */
  datatype Bom = Seen(n: nat) | Settled

  datatype Outcome = Outcome(calls: seq<Call>, ok: bool)

  /** Where the parser stands between two characters at the outer level. */
  datatype Place = Place(varName: string, baselen: nat, comment: bool, bom: Bom)

  type Callback = Call -> int

  predicate Legal(at: Place) {
    at.baselen <= |at.varName| && (at.bom.Seen? ==> at.bom.n <= 3)
  }

  /** What one character at the outer level, and all that belongs to it, comes to: the end, or calls and
      the place where the parser goes on. */
  datatype Turn = Ends(calls: seq<Call>, ok: bool) | Goes(told: seq<Call>, rest: string, next: Place)

  function OuterTurn(fn: Callback, n: Next, here: Place): (t: Turn)
    requires Legal(here)
    ensures t.Goes? ==> |t.rest| <= |n.rest| && !(n.eof && n.c == '\n') && Legal(t.next)
  {
    if n.c == '\n' then if n.eof then Ends([], true) else Goes([], n.rest, here.(comment := false))
    else if here.comment || IsSpace(n.c) then Goes([], n.rest, here)
    else if n.c == '#' || n.c == ';' then Goes([], n.rest, here.(comment := true))
    else if n.c == '[' then
      match BaseFrom(n.rest, "")
      case Bad => Ends([], false)
      case Parsed(base, rest) =>
        if base == "" then Ends([], false) else Goes([], rest, here.(varName := base + ".", baselen := |base| + 1))
    else if !IsAlpha(n.c) then Ends([], false)
    else LineTurn(fn, LineFrom(n.rest, here.varName[..here.baselen] + [ToLower(n.c)]), here)
  }

  function LineTurn(fn: Callback, line: Line, here: Place): Turn {
    match line
    case BadLine => Ends([], false)
    case Line(call, rest) =>
      if fn(call) < 0 then Ends([call], false) else Goes([call], rest, here.(varName := call.key))
  }

  function OneTurn(fn: Callback, s: string, at: Place): (t: Turn)
    requires Legal(at)
    ensures t.Goes? ==> |t.rest| < |s| && Legal(t.next)
  {
    var n := NextChar(s);
    var looking := at.bom.Seen? && at.bom.n < 3;
    if looking && n.c == UTF8_BOM[at.bom.n] then Goes([], n.rest, at.(bom := Seen(at.bom.n + 1)))
    else if looking && at.bom.n > 0 then Ends([], false)
    else OuterTurn(fn, n, if looking then at.(bom := Settled) else at)
  }

  /** What was called already comes first. */
  function Telling(told: seq<Call>, rest: Outcome): Outcome {
    Outcome(told + rest.calls, rest.ok)
  }

  function SourceFrom(fn: Callback, s: string, at: Place): Outcome
    requires Legal(at)
    decreases |s|
  {
    match OneTurn(fn, s, at)
    case Ends(calls, ok) => Outcome(calls, ok)
    case Goes(told, rest, next) => Telling(told, SourceFrom(fn, rest, next))
  }

  lemma SourceGoes(fn: Callback, s: string, at: Place, told: seq<Call>, rest: string, next: Place)
    requires Legal(at) && OneTurn(fn, s, at) == Goes(told, rest, next)
    ensures Legal(next) && SourceFrom(fn, s, at) == Telling(told, SourceFrom(fn, rest, next))
    ensures told == [] ==> SourceFrom(fn, s, at) == SourceFrom(fn, rest, next)
  {
    hide OneTurn;
  }

  lemma SourceEnds(fn: Callback, s: string, at: Place, calls: seq<Call>, ok: bool)
    requires Legal(at) && OneTurn(fn, s, at) == Ends(calls, ok)
    ensures SourceFrom(fn, s, at) == Outcome(calls, ok)
  {
    hide OneTurn;
  }

  // ---------------------------------------------------------------- what is written

  function Escaped(value: string): string {
    if value == "" then "" else Escape1(value[0]) + Escaped(value[1..])
  }

  function Escape1(c: char): string {
    if c == '\n' then "\\n" else if c == '\t' then "\\t" else if c == '"' || c == '\\' then ['\\', c] else [c]
  }

  /** Leading and trailing spaces and comment characters need quotes. */
  predicate NeedsQuote(value: string) {
    value != "" && (value[0] == ' ' || value[|value| - 1] == ' ' || ';' in value || '#' in value)
  }

  function PairText(name: string, value: string): string {
    var quote := if NeedsQuote(value) then "\"" else "";
    "\t" + name + " = " + quote + Escaped(value) + quote + "\n"
  }

  // ---------------------------------------------------------------- reading back a value

  lemma NextOf(c: char, rest: string)
    requires c == '\r' ==> rest == "" || rest[0] != '\n'
    ensures NextChar([c] + rest) == Next(c, false, rest)
  {
    assert ([c] + rest)[1..] == rest;
  }

  /** A character that is kept: itself, or what an escape means. */
  lemma ValueKeeps(s: string, value: string, quote: bool, space: nat, n: Next)
    requires n == NextChar(s) && n.c != '\n'
    requires quote || !(IsSpace(n.c) || n.c == ';' || n.c == '#')
    ensures
      var kept := value + Spaces(space);
      var e := NextChar(n.rest);
      && (n.c == '"' ==> ValueFrom(s, value, quote, false, space) == ValueFrom(n.rest, kept, !quote, false, 0))
      && (n.c == '\\' && Unescape(e.c).Means? ==>
           ValueFrom(s, value, quote, false, space) == ValueFrom(e.rest, kept + [Unescape(e.c).c], quote, false, 0))
      && (n.c != '"' && n.c != '\\' ==>
           ValueFrom(s, value, quote, false, space) == ValueFrom(n.rest, kept + [n.c], quote, false, 0))
  {
    hide NextChar, Spaces;
  }

  /** One printed character is read back, inside quotes or, if it is none of a few, outside. */
  lemma EscapeRead(c: char, rest: string, value: string, quote: bool, space: nat)
    requires if quote then rest != "" && rest[0] != '\n' else c != ' ' && c != '\r' && c != ';' && c != '#'
    ensures ValueFrom(Escape1(c) + rest, value, quote, false, space)
         == ValueFrom(rest, value + Spaces(space) + [c], quote, false, 0)
  {
    hide ValueFrom, NextChar, Spaces;
    var s := Escape1(c) + rest;
    if Escape1(c) == [c] {
      NextOf(c, rest);
      ValueKeeps(s, value, quote, space, Next(c, false, rest));
    } else {
      var e := Escape1(c)[1];
      assert s == ['\\'] + ([e] + rest);
      NextOf('\\', [e] + rest);
      NextOf(e, rest);
      ValueKeeps(s, value, quote, space, Next('\\', false, [e] + rest));
    }
  }

  lemma QuotedChar(c: char, rest: string, value: string)
    requires rest != "" && rest[0] != '\n'
    ensures ValueFrom(Escape1(c) + rest, value, true, false, 0) == ValueFrom(rest, value + [c], true, false, 0)
  {
    hide ValueFrom, Escape1;
    EscapeRead(c, rest, value, true, 0);
    assert value + Spaces(0) == value;
  }

  /** Where the value ends. */
  lemma ValueEnds(before: string, space: nat, more: string)
    ensures ValueFrom("\n" + more, before, false, false, space) == Parsed(before, more)
  {
    hide Spaces;
    assert "\n" + more == ['\n'] + more;
    NextOf('\n', more);
  }

  lemma QuoteEnds(before: string, more: string)
    ensures ValueFrom("\"\n" + more, before, true, false, 0) == Parsed(before, more)
  {
    hide ValueFrom;
    var close := "\n" + more;
    assert "\"\n" + more == ['"'] + close;
    NextOf('"', close);
    ValueKeeps("\"\n" + more, before, true, 0, Next('"', false, close));
    assert before + Spaces(0) == before;
    ValueEnds(before, 0, more);
  }

  lemma EscapedStep(value: string, close: string)
    ensures value == "" ==> Escaped(value) + close == close
    ensures value != "" ==> Escaped(value) + close == Escape1(value[0]) + (Escaped(value[1..]) + close)
  {
    hide Escape1;
  }

  lemma {:induction false} QuotedRead(value: string, before: string, more: string)
    ensures ValueFrom(Escaped(value) + ("\"\n" + more), before, true, false, 0) == Parsed(before + value, more)
    decreases |value|
  {
    hide ValueFrom, Escaped, Escape1;
    var close := "\"\n" + more;
    EscapedStep(value, close);
    if value == "" {
      QuoteEnds(before, more);
      assert before + value == before;
    } else {
      var rest := Escaped(value[1..]) + close;
      EscapedStart(value[1..], close);
      QuotedChar(value[0], rest, before);
      QuotedRead(value[1..], before + [value[0]], more);
      assert before + value == before + [value[0]] + value[1..];
    }
  }

  lemma PlainSpace(rest: string, value: string, space: nat)
    ensures ValueFrom(" " + rest, value, false, false, space)
      == ValueFrom(rest, value, false, false, if value == "" then space else space + 1)
  {
    NextOf(' ', rest);
  }

  /** Spaces inside a value wait for the next character. */
  ghost predicate Printable(value: string, before: string, space: nat) {
    && ';' !in value && '#' !in value
    && (if value == "" then space == 0 else value[|value| - 1] != ' ')
    && (before == "" ==> space == 0 && (value == "" || value[0] != ' '))
  }

  lemma {:induction false} PlainRead(value: string, before: string, space: nat, more: string, text: string)
    requires Printable(value, before, space) && '\r' !in value && text == before + Spaces(space) + value
    ensures ValueFrom(Escaped(value) + ("\n" + more), before, false, false, space) == Parsed(text, more)
    decreases |value|
  {
    hide ValueFrom, Escaped;
    EscapedStep(value, "\n" + more);
    if value == "" {
      ValueEnds(before, space, more);
      assert text == before;
    } else {
      var c, tail := value[0], value[1..];
      var rest := Escaped(tail) + ("\n" + more);
      PrintableTail(value, before, space, text);
      if c == ' ' {
        PlainSpace(rest, before, space);
        PlainRead(tail, before, space + 1, more, text);
      } else {
        EscapeRead(c, rest, before, false, space);
        PlainRead(tail, before + Spaces(space) + [c], 0, more, text);
      }
    }
  }

  lemma PrintableTail(value: string, before: string, space: nat, text: string)
    requires value != "" && Printable(value, before, space) && text == before + Spaces(space) + value
    ensures
      var kept := before + Spaces(space) + [value[0]];
      value[0] != ' ' ==> Printable(value[1..], kept, 0) && text == kept + Spaces(0) + value[1..]
    ensures value[0] == ' ' ==>
      before != "" && Printable(value[1..], before, space + 1) && text == before + Spaces(space + 1) + value[1..]
  {
    assert value == [value[0]] + value[1..];
    var kept := before + Spaces(space) + [value[0]];
    assert text == kept + value[1..];
    assert kept + Spaces(0) == kept;
    assert Spaces(space + 1) == Spaces(space) + " ";
  }

  lemma {:induction false} SpacesHoldNoCr(n: nat)
    ensures '\r' !in Spaces(n)
  {
    if n > 0 {
      SpacesHoldNoCr(n - 1);
    }
  }

  /** Outside quotes every CR is lost. */
  lemma {:induction false} PlainLosesCr(value: string, before: string, space: nat, more: string)
    requires ';' !in value && '#' !in value && '\r' !in before
    ensures
      var r := ValueFrom(Escaped(value) + ("\n" + more), before, false, false, space);
      r.Parsed? && r.rest == more && '\r' !in r.text
    decreases |value|
  {
    hide ValueFrom, Escaped, Spaces;
    EscapedStep(value, "\n" + more);
    if value == "" {
      ValueEnds(before, space, more);
    } else {
      var c, tail := value[0], value[1..];
      var rest := Escaped(tail) + ("\n" + more);
      if c == ' ' {
        PlainSpace(rest, before, space);
        PlainLosesCr(tail, before, if before == "" then space else space + 1, more);
      } else if c == '\r' && tail == "" {
        EscapedStep(tail, "\n" + more);
        LastCr(before, space, more);
      } else if c == '\r' {
        EscapedStart(tail, "\n" + more);
        InnerCr(rest, before, space);
        PlainLosesCr(tail, before, if before == "" then space else space + 1, more);
      } else {
        EscapeRead(c, rest, before, false, space);
        SpacesHoldNoCr(space);
        PlainLosesCr(tail, before + Spaces(space) + [c], 0, more);
      }
    }
  }

  /** A CR before the line end is read as part of it, and one before anything else as a space. */
  lemma LastCr(before: string, space: nat, more: string)
    ensures ValueFrom("\r" + ("\n" + more), before, false, false, space) == Parsed(before, more)
  {
    hide Spaces;
    var s := "\r" + ("\n" + more);
    assert s[0] == '\r' && s[1] == '\n' && s[2..] == more;
  }

  lemma InnerCr(rest: string, before: string, space: nat)
    requires rest != "" && rest[0] != '\n'
    ensures ValueFrom("\r" + rest, before, false, false, space)
         == ValueFrom(rest, before, false, false, if before == "" then space else space + 1)
  {
    NextOf('\r', rest);
  }

  /** No newline is printed raw. */
  lemma EscapedStart(value: string, close: string)
    requires value == "" ==> close != "" && close[0] != '\n'
    ensures Escaped(value) + close != "" && (Escaped(value) + close)[0] != '\n'
  {
  }

  function Quote(value: string): string {
    if NeedsQuote(value) then "\"" else ""
  }

  /** A value as printed, and what follows it. */
  function Printed(value: string, more: string): string {
    Quote(value) + Escaped(value) + Quote(value) + "\n" + more
  }

  lemma QuotedValueRead(value: string, more: string)
    requires NeedsQuote(value)
    ensures ValueFrom(Printed(value, more), "", false, false, 0) == Parsed(value, more)
  {
    hide ValueFrom, Escaped;
    var rest := Escaped(value) + ("\"\n" + more);
    assert Printed(value, more) == ['"'] + rest;
    NextOf('"', rest);
    ValueKeeps(Printed(value, more), "", false, 0, Next('"', false, rest));
    QuotedRead(value, "", more);
    assert "" + value == value && "" + Spaces(0) == "";
  }

  lemma PlainValueRead(value: string, more: string) returns (text: string)
    requires !NeedsQuote(value)
    ensures ValueFrom(Printed(value, more), "", false, false, 0) == Parsed(text, more)
    ensures text == value <==> '\r' !in value
  {
    hide ValueFrom, Escaped;
    var s := Escaped(value) + ("\n" + more);
    assert Printed(value, more) == s;
    if '\r' !in value {
      assert "" + Spaces(0) + value == value;
      PlainRead(value, "", 0, more, value);
      text := value;
    } else {
      PlainLosesCr(value, "", 0, more);
      text := ValueFrom(s, "", false, false, 0).text;
    }
  }

  /** What is read back of a printed value: the value itself, exactly when it is quoted or holds no CR. */
  lemma ValueRead(value: string, more: string) returns (text: string)
    ensures ValueFrom(" " + Printed(value, more), "", false, false, 0) == Parsed(text, more)
    ensures text == value <==> NeedsQuote(value) || '\r' !in value
  {
    PlainSpace(Printed(value, more), "", 0);
    if NeedsQuote(value) {
      QuotedValueRead(value, more);
      text := value;
    } else {
      text := PlainValueRead(value, more);
    }
  }

  // ---------------------------------------------------------------- reading back a line

  ghost predicate AllKeyChars(name: string) {
    forall i :: 0 <= i < |name| ==> IsKeyChar(name[i])
  }

  lemma {:induction false} NameRead(name: string, rest: string, stem: string, text: string)
    requires AllKeyChars(name) && text == stem + Lowered(name)
    ensures NameFrom(name + (" " + rest), stem) == Name(text, Next(' ', false, rest))
    decreases |name|
  {
    if name == "" {
      assert name + (" " + rest) == " " + rest;
      NextOf(' ', rest);
      assert text == stem;
    } else {
      var tail := name[1..] + (" " + rest);
      assert name + (" " + rest) == [name[0]] + tail;
      NextOf(name[0], tail);
      assert stem + [ToLower(name[0])] + Lowered(name[1..]) == text;
      NameRead(name[1..], rest, stem + [ToLower(name[0])], text);
    }
  }

  lemma BlankRead(rest: string)
    ensures SkipBlanks(Next(' ', false, "= " + rest)) == Next('=', false, " " + rest)
  {
    NextOf('=', " " + rest);
    assert "= " + rest == "=" + (" " + rest);
  }

  ghost predicate Variable(name: string) {
    name != "" && IsAlpha(name[0]) && AllKeyChars(name)
  }

  lemma LineRead(name: string, value: string, more: string, stem: string, key: string, line: string)
    returns (text: string)
    requires AllKeyChars(name) && key == stem + Lowered(name) && line == name + (" " + ("= " + Printed(value, more)))
    ensures LineFrom(line, stem) == Line(Call(key, Some(text)), more)
    ensures text == value <==> NeedsQuote(value) || '\r' !in value
  {
    NameRead(name, "= " + Printed(value, more), stem, key);
    BlankRead(Printed(value, more));
    text := ValueRead(value, more);
  }

  /** After the mark was looked for, outside a comment. */
  ghost predicate AtLine(at: Place) {
    at.baselen <= |at.varName| && !at.comment && at.bom == Settled
  }

  /** Reading the printed line calls back once, and goes on after it. */
  lemma PairRead(fn: Callback, name: string, value: string, more: string, at: Place) returns (text: string)
    requires Variable(name) && AtLine(at)
    ensures text == value <==> NeedsQuote(value) || '\r' !in value
    ensures
      var stem := at.varName[..at.baselen];
      var call := Call(stem + Lowered(name), Some(text));
      SourceFrom(fn, PairText(name, value) + more, at) ==
        if fn(call) < 0 then Outcome([call], false)
        else Telling([call], SourceFrom(fn, more, at.(varName := call.key)))
  {
    hide SourceFrom, OneTurn, LineFrom, Printed, PairText, NextChar, NeedsQuote, Telling;
    var stem := at.varName[..at.baselen];
    var line := name[1..] + (" " + ("= " + Printed(value, more)));
    var tail := [name[0]] + line;
    PairTextParts(name, value, more, line);
    BlankTurn(fn, '\t', tail, at);
    SourceGoes(fn, ['\t'] + tail, at, [], tail, at);
    assert stem + [ToLower(name[0])] + Lowered(name[1..]) == stem + Lowered(name);
    text := LineRead(name[1..], value, more, stem + [ToLower(name[0])], stem + Lowered(name), line);
    var call := Call(stem + Lowered(name), Some(text));
    LetterTurn(fn, name[0], line, at, Line(call, more));
    if fn(call) < 0 {
      SourceEnds(fn, tail, at, [call], false);
    } else {
      SourceGoes(fn, tail, at, [call], more, at.(varName := call.key));
    }
  }

  lemma BlankTurn(fn: Callback, c: char, rest: string, at: Place)
    requires AtLine(at) && (c == '\t' || c == '\n')
    ensures OneTurn(fn, [c] + rest, at) == Goes([], rest, at)
  {
    hide LineFrom, BaseFrom;
    NextOf(c, rest);
  }

  lemma LetterTurn(fn: Callback, c: char, rest: string, at: Place, line: Line)
    requires AtLine(at) && IsAlpha(c) && LineFrom(rest, at.varName[..at.baselen] + [ToLower(c)]) == line
    ensures OneTurn(fn, [c] + rest, at) == LineTurn(fn, line, at)
  {
    hide LineFrom, BaseFrom;
    NextOf(c, rest);
  }

  lemma HeaderTurn(fn: Callback, rest: string, at: Place, base: string, more: string)
    requires Legal(at) && !at.comment && (at.bom == Settled || at.bom == Seen(0))
    requires BaseFrom(rest, "") == Parsed(base, more) && base != ""
    ensures OneTurn(fn, ['['] + rest, at)
         == Goes([], more, at.(varName := base + ".", baselen := |base| + 1, bom := Settled))
  {
    hide LineFrom, BaseFrom;
    NextOf('[', rest);
  }

  lemma PairTextParts(name: string, value: string, more: string, line: string)
    requires name != "" && line == name[1..] + (" " + ("= " + Printed(value, more)))
    ensures PairText(name, value) + more == ['\t'] + ([name[0]] + line)
  {
    hide Escaped, NeedsQuote;
    var q, v := Quote(value), Escaped(value);
    var printed := q + v + q + "\n";
    assert Printed(value, more) == printed + more;
    assert PairText(name, value) == "\t" + name + " = " + printed;
    Respelled(name, printed, more);
  }

  lemma Respelled(name: string, printed: string, more: string)
    requires name != ""
    ensures "\t" + name + " = " + printed + more
         == ['\t'] + ([name[0]] + (name[1..] + (" " + ("= " + (printed + more)))))
  {
    assert name == [name[0]] + name[1..];
  }

  // ---------------------------------------------------------------- reading back a section header

  /** memchr and strrchr. */
  function FirstDot(s: string): (n: nat)
    ensures n <= |s| && (forall i :: 0 <= i < n ==> s[i] != '.') && (n < |s| ==> s[n] == '.')
  {
    if s == "" || s[0] == '.' then 0 else 1 + FirstDot(s[1..])
  }

  function LastDot(s: string): (n: int)
    ensures -1 <= n < |s| && (forall i :: n < i < |s| ==> s[i] != '.') && (n >= 0 ==> s[n] == '.')
  {
    if s == "" then -1 else if s[|s| - 1] == '.' then |s| - 1 else LastDot(s[..|s| - 1])
  }

  function EscapedName(name: string): string {
    if name == "" then "" else EscapedName1(name[0]) + EscapedName(name[1..])
  }

  function EscapedName1(c: char): string {
    if c == '"' || c == '\\' then ['\\', c] else [c]
  }

  /** The header of a section and perhaps a subsection. */
  function SectionText(base: string): string {
    var dot := FirstDot(base);
    if dot < |base| then SubsectionHeader(base[..dot], EscapedName(base[dot + 1..])) else PlainHeader(base)
  }

  function SubsectionHeader(section: string, sub: string): string {
    "[" + section + " \"" + sub + "\"]\n"
  }

  function PlainHeader(section: string): string {
    "[" + section + "]\n"
  }

  /** What the parser calls a section: lower case up to the first dot. */
  function CanonicalBase(base: string): string {
    var dot := FirstDot(base);
    Lowered(base[..dot]) + base[dot..]
  }

  ghost predicate Base(base: string) {
    base != "" && AllKeyChars(base[..FirstDot(base)]) && '\n' !in base
  }

  lemma SubsectionChar(c: char, rest: string, before: string)
    requires c != '\n' && rest != "" && rest[0] != '\n'
    ensures SubsectionFrom(EscapedName1(c) + rest, before) == SubsectionFrom(rest, before + [c])
  {
    NextOf(c, rest);
    if c == '"' || c == '\\' {
      assert EscapedName1(c) + rest == ['\\'] + ([c] + rest);
      NextOf('\\', [c] + rest);
    }
  }

  lemma {:induction false} SubsectionRead(name: string, more: string, before: string, text: string)
    requires '\n' !in name && text == before + name
    ensures SubsectionFrom(EscapedName(name) + ("\"]\n" + more), before) == Parsed(text, "]\n" + more)
    decreases |name|
  {
    hide SubsectionFrom, EscapedName, EscapedName1;
    var close := "\"]\n" + more;
    EscapedNameStep(name, close);
    if name == "" {
      SubsectionEnds(before, more);
      assert text == before;
    } else {
      var c, rest := name[0], EscapedName(name[1..]) + close;
      assert before + [c] + name[1..] == text;
      SubsectionRead(name[1..], more, before + [c], text);
      EscapedNameStart(name[1..], close);
      SubsectionChar(c, rest, before);
    }
  }

  lemma SubsectionEnds(before: string, more: string)
    ensures SubsectionFrom("\"]\n" + more, before) == Parsed(before, "]\n" + more)
  {
    assert "\"]\n" + more == ['"'] + ("]\n" + more);
    NextOf('"', "]\n" + more);
  }

  lemma EscapedNameStep(name: string, close: string)
    ensures name == "" ==> EscapedName(name) + close == close
    ensures name != "" ==> EscapedName(name) + close == EscapedName1(name[0]) + (EscapedName(name[1..]) + close)
  {
    hide EscapedName1;
  }

  lemma EscapedNameStart(name: string, close: string)
    requires '\n' !in name && close != "" && close[0] != '\n'
    ensures EscapedName(name) + close != "" && (EscapedName(name) + close)[0] != '\n'
  {
  }

  /** The part of the header up to the bracket or the blank. */
  lemma {:induction false} BaseRead(name: string, rest: string, before: string, text: string)
    requires AllKeyChars(name) && text == before + Lowered(name) && rest != "" && !IsKeyChar(rest[0]) && rest[0] != '\n'
    ensures BaseFrom(name + rest, before) == BaseFrom(rest, text)
    decreases |name|
  {
    if name == "" {
      assert name + rest == rest && text == before;
    } else {
      assert name + rest == [name[0]] + (name[1..] + rest);
      NextOf(name[0], name[1..] + rest);
      assert before + [ToLower(name[0])] + Lowered(name[1..]) == text;
      BaseRead(name[1..], rest, before + [ToLower(name[0])], text);
    }
  }

  /** From the blank after the section's name. */
  lemma ExtendedRead(sub: string, more: string, before: string, text: string)
    requires '\n' !in sub && text == before + "." + sub
    ensures BaseFrom([' '] + (['"'] + (EscapedName(sub) + "\"]\n" + more)), before) == Parsed(text, "\n" + more)
  {
    hide SubsectionFrom, EscapedName, NextChar;
    var rest := EscapedName(sub) + "\"]\n" + more;
    assert rest == EscapedName(sub) + ("\"]\n" + more);
    NextOf(' ', ['"'] + rest);
    NextOf('"', rest);
    SubsectionRead(sub, more, before + ".", text);
    assert "]\n" + more == [']'] + ("\n" + more);
    NextOf(']', "\n" + more);
  }

  lemma Nested(section: string, sub: string, more: string)
    ensures SubsectionHeader(section, sub) + more == ['['] + (section + ([' '] + (['"'] + (sub + "\"]\n" + more))))
    ensures PlainHeader(section) + more == ['['] + (section + ([']'] + ("\n" + more)))
  {
    var end := sub + "\"]\n" + more;
    assert SubsectionHeader(section, sub) + more == "[" + section + " \"" + end;
    assert " \"" + end == [' '] + (['"'] + end);
    assert "[" + section + " \"" + end == ['['] + (section + (" \"" + end));
  }

  lemma HeaderRead(base: string, more: string) returns (rest: string)
    requires Base(base)
    ensures SectionText(base) + more == ['['] + rest
    ensures BaseFrom(rest, "") == Parsed(CanonicalBase(base), "\n" + more)
  {
    var dot := FirstDot(base);
    var section := Lowered(base[..dot]);
    assert "" + section == section;
    if dot < |base| {
      var sub := base[dot + 1..];
      assert base[dot..] == "." + sub;
      assert section + "." + sub == CanonicalBase(base);
      rest := SubsectionHeaderRead(base[..dot], sub, more, CanonicalBase(base));
    } else {
      assert base[..dot] == base && CanonicalBase(base) == section;
      rest := PlainHeaderRead(base, more);
    }
  }

  lemma SubsectionHeaderRead(section: string, sub: string, more: string, text: string) returns (rest: string)
    requires AllKeyChars(section) && '\n' !in sub && text == Lowered(section) + "." + sub
    ensures SubsectionHeader(section, EscapedName(sub)) + more == ['['] + rest
    ensures BaseFrom(rest, "") == Parsed(text, "\n" + more)
  {
    var tail := [' '] + (['"'] + (EscapedName(sub) + "\"]\n" + more));
    rest := section + tail;
    Nested(section, EscapedName(sub), more);
    assert "" + Lowered(section) == Lowered(section);
    BaseRead(section, tail, "", Lowered(section));
    ExtendedRead(sub, more, Lowered(section), text);
  }

  lemma PlainHeaderRead(section: string, more: string) returns (rest: string)
    requires AllKeyChars(section)
    ensures PlainHeader(section) + more == ['['] + rest
    ensures BaseFrom(rest, "") == Parsed(Lowered(section), "\n" + more)
  {
    var tail := [']'] + ("\n" + more);
    rest := section + tail;
    Nested(section, "", more);
    assert "" + Lowered(section) == Lowered(section);
    BaseRead(section, tail, "", Lowered(section));
    NextOf(']', "\n" + more);
  }

  /** Reading the printed header opens the section. */
  lemma SectionRead(fn: Callback, base: string, more: string, at: Place, open: Place)
    requires Base(base) && at.baselen <= |at.varName| && !at.comment && (at.bom == Settled || at.bom == Seen(0))
    requires open == Place(CanonicalBase(base) + ".", |CanonicalBase(base)| + 1, false, Settled)
    ensures SourceFrom(fn, SectionText(base) + more, at) == SourceFrom(fn, more, open)
  {
    hide SourceFrom, OneTurn, BaseFrom, CanonicalBase, SectionText;
    var rest := HeaderRead(base, more);
    CanonicalNotEmpty(base);
    HeaderTurn(fn, rest, at, CanonicalBase(base), "\n" + more);
    SourceGoes(fn, ['['] + rest, at, [], "\n" + more, open);
    assert "\n" + more == ['\n'] + more;
    BlankTurn(fn, '\n', more, open);
    SourceGoes(fn, "\n" + more, open, [], more, open);
  }

  lemma CanonicalNotEmpty(base: string)
    requires base != ""
    ensures CanonicalBase(base) != ""
  {
    var dot := FirstDot(base);
    assert dot > 0 ==> Lowered(base[..dot]) != "";
  }

  // ---------------------------------------------------------------- keys given by the caller

  datatype Key = NoSectionOrName | InvalidKey | Key(canonical: string, baselen: nat)

  /** A character is allowed where it stands; the subsection may hold anything but a newline. */
  predicate GoodAt(key: string, first: nat, last: nat, i: nat)
    requires i < |key|
  {
    if i < first || i > last then IsKeyChar(key[i]) && (i == last + 1 ==> IsAlpha(key[i])) else key[i] != '\n'
  }

  predicate GoodTo(key: string, first: nat, last: nat, n: nat)
    requires n <= |key|
  {
    forall i :: 0 <= i < n ==> GoodAt(key, first, last, i)
  }

  function Canonical(key: string, last: nat): string
    requires last < |key|
  {
    CanonicalBase(key[..last]) + "." + Lowered(key[last + 1..])
  }

  function ParsedKey(key: string): (k: Key)
    ensures k.Key? ==> 0 < k.baselen < |key| - 1
  {
    var last := LastDot(key);
    if last <= 0 || last == |key| - 1 then NoSectionOrName
    else if GoodTo(key, FirstDot(key), last, |key|) then Key(Canonical(key, last), last)
    else InvalidKey
  }

  lemma {:induction false} FirstDotOfPrefix(key: string, last: nat)
    requires last < |key| && key[last] == '.'
    ensures FirstDot(key) <= last && FirstDot(key[..last]) == FirstDot(key)
  {
    if key[0] != '.' {
      assert key[1..][last - 1] == '.' && key[..last][1..] == key[1..][..last - 1];
      FirstDotOfPrefix(key[1..], last - 1);
    }
  }

  /** What an accepted key is made of. */
  lemma KeyParts(key: string, last: nat, base: string, name: string)
    requires 0 < last < |key| - 1 && key[last] == '.' && GoodTo(key, FirstDot(key), last, |key|)
    requires base == key[..last] && name == key[last + 1..]
    ensures Base(base) && Variable(name)
  {
    var first := FirstDot(key);
    FirstDotOfPrefix(key, last);
    forall i | 0 <= i < |base|
      ensures i < first ==> IsKeyChar(base[i])
      ensures base[i] != '\n'
    {
      assert base[i] == key[i] && GoodAt(key, first, last, i);
    }
    NameGood(key, first, last, name);
  }

  lemma NameGood(key: string, first: nat, last: nat, name: string)
    requires first <= last < |key| - 1 && GoodTo(key, first, last, |key|) && name == key[last + 1..]
    ensures Variable(name)
  {
    var n := |name|;
    forall i | 0 <= i < n
      ensures IsKeyChar(name[i]) && (i == 0 ==> IsAlpha(name[i]))
    {
      assert name[i] == key[last + 1 + i] && GoodAt(key, first, last, last + 1 + i);
    }
  }

  const START := Place("", 0, false, Seen(0))

  lemma WrittenRead(fn: Callback, base: string, name: string, value: string, key: string) returns (text: string)
    requires Base(base) && Variable(name) && key == CanonicalBase(base) + "." + Lowered(name)
    ensures
      var call := Call(key, Some(text));
      SourceFrom(fn, SectionText(base) + PairText(name, value), START) == Outcome([call], fn(call) >= 0)
    ensures text == value <==> NeedsQuote(value) || '\r' !in value
  {
    var stem := CanonicalBase(base) + ".";
    var open := Place(stem, |stem|, false, Settled);
    SectionRead(fn, base, PairText(name, value), START, open);
    assert open.varName[..open.baselen] == stem;
    text := PairRead(fn, name, value, "", open);
    assert PairText(name, value) + "" == PairText(name, value);
  }

  /** A key and value written to a new file and read back: the callback is called once, with the
      canonical key, and with the value exactly when the value is quoted or holds no CR. */
  lemma RoundTrip(fn: Callback, key: string, value: string, base: string, name: string) returns (text: string)
    requires ParsedKey(key).Key? && base == key[..ParsedKey(key).baselen] && name == key[ParsedKey(key).baselen + 1..]
    ensures
      var call := Call(ParsedKey(key).canonical, Some(text));
      SourceFrom(fn, SectionText(base) + PairText(name, value), START) == Outcome([call], fn(call) >= 0)
    ensures text == value <==> NeedsQuote(value) || '\r' !in value
  {
    var k := ParsedKey(key);
    KeyParts(key, k.baselen, base, name);
    text := WrittenRead(fn, base, name, value, k.canonical);
  }

  /** Several values written under one section are all read back, in order. */
  function PairTexts(name: string, values: seq<string>): string {
    if values == [] then "" else PairText(name, values[0]) + PairTexts(name, values[1..])
  }

  ghost predicate Kept(value: string) {
    NeedsQuote(value) || '\r' !in value
  }

  function CallsFor(key: string, values: seq<string>): seq<Call> {
    if values == [] then [] else [Call(key, Some(values[0]))] + CallsFor(key, values[1..])
  }

  lemma PairsEnd(fn: Callback, at: Place)
    requires AtLine(at)
    ensures SourceFrom(fn, "", at) == Outcome([], true)
  {
  }

  lemma {:induction false} PairsRead(fn: Callback, name: string, values: seq<string>, at: Place, stem: string,
                                     key: string)
    requires Variable(name) && AtLine(at) && stem == at.varName[..at.baselen] && key == stem + Lowered(name)
    requires forall v :: v in values ==> Kept(v)
    requires forall call :: fn(call) >= 0
    ensures SourceFrom(fn, PairTexts(name, values), at) == Outcome(CallsFor(key, values), true)
    decreases |values|
  {
    hide PairText, Variable, NeedsQuote, Lowered;
    PairsEnd(fn, at);
    if values != [] {
      var value, more := values[0], PairTexts(name, values[1..]);
      assert Kept(value);
      var text := PairRead(fn, name, value, more, at);
      assert key[..at.baselen] == stem;
      PairsRead(fn, name, values[1..], at.(varName := key), stem, key);
    }
  }
}

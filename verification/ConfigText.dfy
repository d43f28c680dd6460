/** What a configuration file means, line by line (config.c, git_parse_source): comments, blank lines, headers with
    dots, names without a value, escapes, and the byte order mark, none of which the writer prints. */
module ConfigText {
  import opened Basics
  import opened Config

  // ---------------------------------------------------------------- characters of a line

  lemma NextFirst(s: string)
    requires s != "" && s[0] != '\r'
    ensures NextChar(s) == Next(s[0], false, s[1..])
  {
  }

  predicate IsBlank(c: char) {
    c == ' ' || c == '\t'
  }

  ghost predicate Blanks(s: string) {
    forall i :: 0 <= i < |s| ==> IsBlank(s[i])
  }

  // ---------------------------------------------------------------- values

  /** A comment ends a value where it begins, spaces before it dropped. */
  lemma CommentEndsValue(mark: char, text: string, rest: string, value: string, space: nat)
    requires (mark == '#' || mark == ';') && '\n' !in text
    ensures ValueFrom([mark] + (text + ("\n" + rest)), value, false, false, space) == Parsed(value, rest)
  {
    NextOf(mark, text + ("\n" + rest));
    ValueComment(text, rest, value, space);
  }

  lemma {:induction false} ValueComment(text: string, rest: string, value: string, space: nat)
    requires '\n' !in text
    ensures ValueFrom(text + ("\n" + rest), value, false, true, space) == Parsed(value, rest)
    decreases |text|
  {
    var s := text + ("\n" + rest);
    if text == "" {
      assert s == ['\n'] + rest;
      NextOf('\n', rest);
    } else if text == "\r" {
      assert s[0] == '\r' && s[1] == '\n' && s[2..] == rest;
    } else {
      var tail := text[1..] + ("\n" + rest);
      assert s == [text[0]] + tail;
      NextOf(text[0], tail);
      ValueComment(text[1..], rest, value, space);
    }
  }

  /** A backslash before a line end, also one with CR, goes on with the next line. */
  lemma LineContinued(rest: string, value: string, quote: bool, space: nat)
    ensures ValueFrom("\\\n" + rest, value, quote, false, space)
         == ValueFrom(rest, value + Spaces(space), quote, false, 0)
    ensures ValueFrom("\\\r\n" + rest, value, quote, false, space)
         == ValueFrom(rest, value + Spaces(space), quote, false, 0)
  {
    hide Spaces;
    assert "\\\n" + rest == ['\\'] + (['\n'] + rest);
    NextOf('\\', ['\n'] + rest);
    NextOf('\n', rest);
    CrLfContinued(rest, value, quote, space);
  }

  lemma CrLfContinued(rest: string, value: string, quote: bool, space: nat)
    ensures ValueFrom("\\\r\n" + rest, value, quote, false, space)
         == ValueFrom(rest, value + Spaces(space), quote, false, 0)
  {
    hide Spaces;
    var t := "\r\n" + rest;
    assert "\\\r\n" + rest == ['\\'] + t;
    NextOf('\\', t);
    assert t[0] == '\r' && t[1] == '\n' && t[2..] == rest;
  }

  /** The five escapes, and nothing else behind a backslash. */
  lemma EscapeMeans(c: char, rest: string, value: string, quote: bool, space: nat)
    requires c == '\r' ==> rest == "" || rest[0] != '\n'
    ensures var r := ValueFrom(['\\'] + ([c] + rest), value, quote, false, space);
      var kept := value + Spaces(space);
      && (c == 't' ==> r == ValueFrom(rest, kept + "\t", quote, false, 0))
      && (c == 'n' ==> r == ValueFrom(rest, kept + "\n", quote, false, 0))
      && (c == 'b' ==> r == ValueFrom(rest, kept + [8 as char], quote, false, 0))
      && (c == '\\' || c == '"' ==> r == ValueFrom(rest, kept + [c], quote, false, 0))
      && (c !in "tnb\\\"\n" ==> r == Bad)
  {
    hide Spaces;
    NextOf('\\', [c] + rest);
    NextOf(c, rest);
  }

  /** A quote changes between the two ways of reading, and is dropped. */
  lemma QuoteTurns(rest: string, value: string, quote: bool, space: nat)
    ensures ValueFrom(['"'] + rest, value, quote, false, space)
         == ValueFrom(rest, value + Spaces(space), !quote, false, 0)
  {
    hide Spaces;
    NextOf('"', rest);
  }

  /** Outside quotes blanks at the beginning are dropped, and any other waits as a space for what follows. */
  lemma BlankWaits(c: char, rest: string, value: string, space: nat)
    requires IsBlank(c)
    ensures ValueFrom([c] + rest, value, false, false, space)
      == ValueFrom(rest, value, false, false, if value == "" then space else space + 1)
  {
    NextOf(c, rest);
  }

  /** Inside quotes everything but a quote, a backslash and a line end stands for itself. */
  lemma QuotedKeeps(c: char, rest: string, value: string)
    requires c !in "\"\\\n" && (c == '\r' ==> rest == "" || rest[0] != '\n')
    ensures ValueFrom([c] + rest, value, true, false, 0) == ValueFrom(rest, value + [c], true, false, 0)
  {
    NextOf(c, rest);
    assert value + Spaces(0) == value;
  }

  /** A line that ends inside quotes is bad, and so is the end of the file there. */
  lemma {:induction false} OpenQuoteIsBad(text: string, rest: string, value: string, space: nat)
    requires '\n' !in text && '"' !in text && '\\' !in text && (rest == "" || rest[0] == '\n')
    ensures ValueFrom(text + rest, value, true, false, space) == Bad
    decreases |text|
  {
    var s := text + rest;
    if text == "" {
      assert s == rest;
      if rest != "" {
        NextFirst(rest);
      }
    } else if text != "\r" || rest == "" {
      assert s == [text[0]] + (text[1..] + rest);
      NextOf(text[0], text[1..] + rest);
      OpenQuoteIsBad(text[1..], rest, value + Spaces(space) + [text[0]], 0);
    }
  }

  // ---------------------------------------------------------------- names

  lemma NameGoesOn(c: char, t: string, stem: string)
    requires IsKeyChar(c)
    ensures NameFrom([c] + t, stem) == NameFrom(t, stem + [ToLower(c)])
  {
    NextOf(c, t);
  }

  lemma NameEnds(t: string, stem: string)
    requires t != "" && !IsKeyChar(t[0])
    ensures NameFrom(t, stem) == Name(stem, NextChar(t))
  {
  }

  lemma LoweredStep(name: string, stem: string)
    ensures name == "" ==> stem + Lowered(name) == stem
    ensures name != "" ==> stem + [ToLower(name[0])] + Lowered(name[1..]) == stem + Lowered(name)
  {
  }

  lemma {:induction false} NameStops(name: string, t: string, stem: string)
    requires AllKeyChars(name) && t != "" && !IsKeyChar(t[0])
    ensures NameFrom(name + t, stem) == Name(stem + Lowered(name), NextChar(t))
    decreases |name|
  {
    hide NameFrom, NextChar, Lowered;
    LoweredStep(name, stem);
    if name == "" {
      assert name + t == t;
      NameEnds(t, stem);
    } else {
      var tail := name[1..] + t;
      assert name + t == [name[0]] + tail;
      NameGoesOn(name[0], tail, stem);
      NameStops(name[1..], t, stem + [ToLower(name[0])]);
    }
  }

  lemma {:induction false} BlanksSkipped(blanks: string, t: string)
    requires Blanks(blanks) && t != "" && !IsBlank(t[0])
    ensures SkipBlanks(NextChar(blanks + t)) == NextChar(t)
    decreases |blanks|
  {
    if blanks == "" {
      assert blanks + t == t;
    } else {
      assert blanks + t == [blanks[0]] + (blanks[1..] + t);
      NextOf(blanks[0], blanks[1..] + t);
      BlanksSkipped(blanks[1..], t);
    }
  }

  /** A name alone on its line has no value. */
  lemma BareName(name: string, blanks: string, rest: string, stem: string)
    requires AllKeyChars(name) && Blanks(blanks)
    ensures LineFrom(name + (blanks + ("\n" + rest)), stem) == Line(Call(stem + Lowered(name), None), rest)
  {
    hide NameFrom, SkipBlanks, ValueFrom;
    var t := "\n" + rest;
    assert t == ['\n'] + rest;
    NextOf('\n', rest);
    BlanksSkipped(blanks, t);
    assert blanks == "" ==> blanks + t == t;
    NameStops(name, blanks + t, stem);
  }

  /** A name must be followed by an equals sign or the end of the line. */
  lemma NameNeedsEquals(name: string, blanks: string, c: char, rest: string, stem: string)
    requires AllKeyChars(name) && Blanks(blanks) && c !in "=\n\r" && !IsBlank(c) && !(blanks == "" && IsKeyChar(c))
    ensures LineFrom(name + (blanks + ([c] + rest)), stem) == BadLine
  {
    hide NameFrom, SkipBlanks, ValueFrom;
    var t := [c] + rest;
    NextOf(c, rest);
    BlanksSkipped(blanks, t);
    assert blanks == "" ==> blanks + t == t;
    NameStops(name, blanks + t, stem);
  }

  // ---------------------------------------------------------------- headers

  ghost predicate KeyCharsAndDots(name: string) {
    forall i :: 0 <= i < |name| ==> IsKeyChar(name[i]) || name[i] == '.'
  }

  lemma {:induction false} BaseReadUpTo(name: string, rest: string, before: string)
    requires KeyCharsAndDots(name)
    ensures BaseFrom(name + rest, before) == BaseFrom(rest, before + Lowered(name))
    decreases |name|
  {
    hide BaseFrom, NextChar, Lowered, ToLower, IsKeyChar;
    LoweredStep(name, before);
    if name == "" {
      assert name + rest == rest;
    } else {
      assert name + rest == [name[0]] + (name[1..] + rest);
      BaseGoesOn(name[0], name[1..] + rest, before);
      BaseReadUpTo(name[1..], rest, before + [ToLower(name[0])]);
    }
  }

  lemma BaseGoesOn(c: char, rest: string, before: string)
    requires IsKeyChar(c) || c == '.'
    ensures BaseFrom([c] + rest, before) == BaseFrom(rest, before + [ToLower(c)])
  {
    NextOf(c, rest);
  }

  /** A header without a subsection is put in lower case, what stands behind a dot too. */
  lemma DottedRead(name: string, rest: string, before: string)
    requires KeyCharsAndDots(name)
    ensures BaseFrom(name + ([']'] + rest), before) == Parsed(before + Lowered(name), rest)
  {
    BaseReadUpTo(name, [']'] + rest, before);
    NextOf(']', rest);
  }

  /** A header holds nothing but key characters and dots before its bracket or blank, and does not end with the file. */
  lemma HeaderRejects(name: string, c: char, rest: string, before: string)
    requires KeyCharsAndDots(name) && !IsKeyChar(c) && !IsSpace(c) && c != '.' && c != ']'
    ensures BaseFrom(name + ([c] + rest), before) == Bad && BaseFrom(name + "", before) == Bad
  {
    BaseReadUpTo(name, [c] + rest, before);
    BaseReadUpTo(name, "", before);
    NextOf(c, rest);
  }

  /** Any number of blanks may stand before the quote of a subsection. */
  lemma {:induction false} BlanksBefore(blanks: string, c: char, rest: string, was: char)
    requires Blanks(blanks) && !IsSpace(c) && was != '\n'
    ensures SkipSpaces(blanks + ([c] + rest), was) == Some(Next(c, false, rest))
    decreases |blanks|
  {
    var t := [c] + rest;
    NextOf(c, rest);
    if blanks == "" {
      assert blanks + t == t;
    } else {
      assert blanks + t == [blanks[0]] + (blanks[1..] + t);
      NextOf(blanks[0], blanks[1..] + t);
      BlanksBefore(blanks[1..], c, rest, blanks[0]);
    }
  }

  /** Behind the blank of a header only a quote may follow. */
  lemma SubsectionNeedsQuote(blanks: string, c: char, rest: string, name: string)
    requires Blanks(blanks) && !IsSpace(c) && c != '"'
    ensures ExtendedBaseFrom(blanks + ([c] + rest), name, ' ') == Bad
  {
    hide SkipSpaces;
    BlanksBefore(blanks, c, rest, ' ');
  }

  /** In a subsection a backslash stands for the character behind it, whatever that is. */
  lemma SubsectionEscape(c: char, rest: string, name: string)
    requires c != '\n' && (c == '\r' ==> rest == "" || rest[0] != '\n')
    ensures SubsectionFrom(['\\'] + ([c] + rest), name) == SubsectionFrom(rest, name + [c])
  {
    NextOf('\\', [c] + rest);
    NextOf(c, rest);
  }

  /** A subsection ends on its line. */
  lemma {:induction false} SubsectionStaysOpen(text: string, rest: string, name: string)
    requires '"' !in text && '\\' !in text && (rest == "" || rest[0] == '\n')
    ensures SubsectionFrom(text + rest, name) == Bad
    decreases |text|
  {
    var s := text + rest;
    if text == "" {
      assert s == rest;
      if rest != "" {
        NextFirst(rest);
      }
    } else if text[0] != '\n' && (text[0] != '\r' || |s| == 1 || s[1] != '\n') {
      assert s == [text[0]] + (text[1..] + rest);
      NextOf(text[0], text[1..] + rest);
      SubsectionStaysOpen(text[1..], rest, name + [text[0]]);
    }
  }

  /** A header that cannot be read, or is empty, ends the parsing. */
  lemma BadHeader(fn: Callback, rest: string, at: Place)
    requires Outside(at) && (BaseFrom(rest, "") == Bad || (rest != "" && rest[0] == ']'))
    ensures SourceFrom(fn, ['['] + rest, at) == Outcome([], false)
  {
    hide LineFrom;
    NextOf('[', rest);
    assert rest != "" && rest[0] == ']' ==> BaseFrom(rest, "") == Parsed("", rest[1..]);
    SourceEnds(fn, ['['] + rest, at, [], false);
  }

  // ---------------------------------------------------------------- the outer level

  /** Outside a comment, and with no part of a byte order mark read. */
  ghost predicate Outside(at: Place) {
    Legal(at) && !at.comment && (at.bom == Settled || at.bom == Seen(0))
  }

  function Settle(at: Place): Place {
    at.(bom := Settled)
  }

  /** No mark is looked for once the text begins with something else. */
  lemma NoMark(fn: Callback, s: string, at: Place)
    requires Outside(at) && (s == "" || s[0] != UTF8_BOM[0])
    ensures SourceFrom(fn, s, at) == SourceFrom(fn, s, Settle(at))
  {
    hide OuterTurn;
    assert NextChar(s).c != UTF8_BOM[0];
    assert OneTurn(fn, s, at) == OneTurn(fn, s, Settle(at));
  }

  lemma {:induction false} InComment(fn: Callback, text: string, rest: string, at: Place)
    requires Legal(at) && at.comment && at.bom == Settled && '\n' !in text
    ensures SourceFrom(fn, text + ("\n" + rest), at) == SourceFrom(fn, rest, at.(comment := false))
    decreases |text|
  {
    hide SourceFrom, OneTurn;
    var s := text + ("\n" + rest);
    if text == "" {
      assert s == ['\n'] + rest;
      CommentTurn(fn, '\n', rest, at);
      SourceGoes(fn, s, at, [], rest, at.(comment := false));
    } else if text == "\r" {
      CrLfTurn(fn, s, rest, at);
      SourceGoes(fn, s, at, [], rest, at.(comment := false));
    } else {
      var tail := text[1..] + ("\n" + rest);
      assert s == [text[0]] + tail;
      CommentTurn(fn, text[0], tail, at);
      SourceGoes(fn, s, at, [], tail, at);
      InComment(fn, text[1..], rest, at);
    }
  }

  lemma CommentTurn(fn: Callback, c: char, rest: string, at: Place)
    requires Legal(at) && at.comment && at.bom == Settled && (c == '\r' ==> rest == "" || rest[0] != '\n')
    ensures OneTurn(fn, [c] + rest, at) == Goes([], rest, if c == '\n' then at.(comment := false) else at)
  {
    hide LineFrom, BaseFrom;
    NextOf(c, rest);
  }

  lemma CrLfTurn(fn: Callback, s: string, rest: string, at: Place)
    requires Legal(at) && at.bom == Settled && s == "\r" + ("\n" + rest)
    ensures OneTurn(fn, s, at) == Goes([], rest, at.(comment := false))
  {
    hide LineFrom, BaseFrom;
    assert s[0] == '\r' && s[1] == '\n' && s[2..] == rest;
  }

  lemma MarkTurn(fn: Callback, mark: char, rest: string, at: Place)
    requires AtLine(at) && (mark == '#' || mark == ';')
    ensures OneTurn(fn, [mark] + rest, at) == Goes([], rest, at.(comment := true))
  {
    hide LineFrom, BaseFrom;
    NextOf(mark, rest);
  }

  /** A comment line changes nothing, wherever it stands. */
  lemma CommentSkipped(fn: Callback, mark: char, text: string, rest: string, at: Place)
    requires Outside(at) && (mark == '#' || mark == ';') && '\n' !in text
    ensures SourceFrom(fn, [mark] + (text + ("\n" + rest)), at) == SourceFrom(fn, rest, Settle(at))
  {
    hide SourceFrom, OneTurn;
    var s := [mark] + (text + ("\n" + rest));
    NoMark(fn, s, at);
    MarkTurn(fn, mark, text + ("\n" + rest), Settle(at));
    SourceGoes(fn, s, Settle(at), [], text + ("\n" + rest), Settle(at).(comment := true));
    InComment(fn, text, rest, Settle(at).(comment := true));
  }

  /** White space changes nothing between lines. */
  lemma SpaceSkipped(fn: Callback, c: char, rest: string, at: Place)
    requires AtLine(at) && IsSpace(c)
    ensures SourceFrom(fn, [c] + rest, at) == SourceFrom(fn, rest, at)
  {
    hide SourceFrom, OneTurn;
    if c == '\r' && rest != "" && rest[0] == '\n' {
      var more := rest[1..];
      assert [c] + rest == "\r" + ("\n" + more) && rest == ['\n'] + more;
      CrLfTurn(fn, [c] + rest, more, at);
      SourceGoes(fn, [c] + rest, at, [], more, at);
      SpaceTurn(fn, '\n', more, at);
      SourceGoes(fn, rest, at, [], more, at);
    } else {
      SpaceTurn(fn, c, rest, at);
      SourceGoes(fn, [c] + rest, at, [], rest, at);
    }
  }

  lemma SpaceTurn(fn: Callback, c: char, rest: string, at: Place)
    requires AtLine(at) && IsSpace(c) && (c == '\r' ==> rest == "" || rest[0] != '\n')
    ensures OneTurn(fn, [c] + rest, at) == Goes([], rest, at)
  {
    hide LineFrom, BaseFrom;
    NextOf(c, rest);
  }

  /** A line can start with a letter, a bracket or a comment mark only. */
  lemma StrayIsBad(fn: Callback, c: char, rest: string, at: Place)
    requires AtLine(at) && !IsSpace(c) && !IsAlpha(c) && c !in "#;["
    ensures SourceFrom(fn, [c] + rest, at) == Outcome([], false)
  {
    hide LineFrom, BaseFrom;
    NextOf(c, rest);
    SourceEnds(fn, [c] + rest, at, [], false);
  }

  // ---------------------------------------------------------------- the byte order mark

  lemma MarkPart(fn: Callback, n: nat, s: string, at: Place)
    requires n < 3 && Legal(at) && at.bom == Seen(n) && s != ""
    ensures s[0] == UTF8_BOM[n] ==> SourceFrom(fn, s, at) == SourceFrom(fn, s[1..], at.(bom := Seen(n + 1)))
    ensures s[0] != UTF8_BOM[n] && n > 0 ==> SourceFrom(fn, s, at) == Outcome([], false)
  {
    hide SourceFrom, OuterTurn;
    if s[0] == UTF8_BOM[n] {
      assert OneTurn(fn, s, at) == Goes([], s[1..], at.(bom := Seen(n + 1)));
      SourceGoes(fn, s, at, [], s[1..], at.(bom := Seen(n + 1)));
    } else if n > 0 {
      NotMark(s, n);
      SourceEnds(fn, s, at, [], false);
    }
  }

  lemma NotMark(s: string, n: nat)
    requires n < 3 && s != "" && s[0] != UTF8_BOM[n]
    ensures NextChar(s).c != UTF8_BOM[n]
  {
  }

  /** Once the mark is complete, no other is looked for. */
  lemma {:induction false} MarkIsOver(fn: Callback, s: string, at: Place)
    requires Legal(at) && at.bom == Seen(3)
    ensures SourceFrom(fn, s, at) == SourceFrom(fn, s, Settle(at))
    decreases |s|
  {
    hide SourceFrom;
    var a, b := OneTurn(fn, s, at), OneTurn(fn, s, Settle(at));
    OverTurn(fn, s, at);
    match a
    case Ends(calls, ok) =>
      SourceEnds(fn, s, at, calls, ok);
      SourceEnds(fn, s, Settle(at), calls, ok);
    case Goes(told, rest, next) =>
      SourceGoes(fn, s, at, told, rest, next);
      SourceGoes(fn, s, Settle(at), told, rest, Settle(next));
      MarkIsOver(fn, rest, next);
  }

  lemma OverTurn(fn: Callback, s: string, at: Place)
    requires Legal(at) && at.bom == Seen(3)
    ensures var a, b := OneTurn(fn, s, at), OneTurn(fn, s, Settle(at));
      match a
      case Ends(calls, ok) => b == a
      case Goes(told, rest, next) => next.bom == Seen(3) && b == Goes(told, rest, Settle(next))
  {
    hide NextChar, BaseFrom, LineFrom;
  }

  /** A byte order mark at the beginning of the file is skipped. */
  lemma MarkSkipped(fn: Callback, s: string)
    ensures SourceFrom(fn, UTF8_BOM + s, START) == SourceFrom(fn, s, Settle(START))
  {
    hide SourceFrom;
    var a := UTF8_BOM + s;
    assert a[1..][1..][1..] == s;
    MarkPart(fn, 0, a, START);
    MarkPart(fn, 1, a[1..], START.(bom := Seen(1)));
    MarkPart(fn, 2, a[1..][1..], START.(bom := Seen(2)));
    MarkIsOver(fn, s, START.(bom := Seen(3)));
  }

  /** A part of the mark is an error. */
  lemma PartOfMarkIsBad(fn: Callback, s: string)
    requires s != "" && s[0] == UTF8_BOM[0] && !(UTF8_BOM <= s)
    ensures SourceFrom(fn, s, START) == Outcome([], false)
  {
    hide SourceFrom;
    MarkPart(fn, 0, s, START);
    if s[1..] == "" {
      MarkCutShort(fn, 1);
    } else {
      MarkPart(fn, 1, s[1..], START.(bom := Seen(1)));
      if s[1] == UTF8_BOM[1] {
        if s[1..][1..] == "" {
          MarkCutShort(fn, 2);
        } else {
          MarkPart(fn, 2, s[1..][1..], START.(bom := Seen(2)));
          assert s[2] == UTF8_BOM[2] ==> UTF8_BOM <= s;
        }
      }
    }
  }

  lemma MarkCutShort(fn: Callback, n: nat)
    requires 0 < n < 3
    ensures SourceFrom(fn, "", START.(bom := Seen(n))) == Outcome([], false)
  {
    SourceEnds(fn, "", START.(bom := Seen(n)), [], false);
  }

  // ---------------------------------------------------------------- whole files

  /** A line of a file; a pair and a header are as the writer prints them, the rest is written by hand. */
  datatype FileLine =
    | Blank(blanks: string)
    | Remark(indent: string, mark: char, text: string)
    | Header(base: string)
    | Dotted(section: string)
    | Bare(indent: string, name: string, blanks: string)
    | Pair(name: string, value: string)

  ghost predicate GoodLine(line: FileLine) {
    match line
    case Blank(blanks) => Blanks(blanks)
    case Remark(indent, mark, text) => Blanks(indent) && (mark == '#' || mark == ';') && '\n' !in text
    case Header(base) => Base(base)
    case Dotted(section) => section != "" && KeyCharsAndDots(section)
    case Bare(indent, name, blanks) => Blanks(indent) && Variable(name) && Blanks(blanks)
    case Pair(name, value) => Variable(name) && Kept(value)
  }

  function TextOf(line: FileLine): string {
    match line
    case Blank(blanks) => blanks + "\n"
    case Remark(indent, mark, text) => indent + [mark] + text + "\n"
    case Header(base) => SectionText(base)
    case Dotted(section) => "[" + section + "]"
    case Bare(indent, name, blanks) => indent + name + blanks + "\n"
    case Pair(name, value) => PairText(name, value)
  }

  function TextsOf(lines: seq<FileLine>): string {
    if lines == [] then "" else TextOf(lines[0]) + TextsOf(lines[1..])
  }

  /** The calls a file stands for, when it goes on in the section stem. */
  function Meaning(lines: seq<FileLine>, stem: string): seq<Call> {
    if lines == [] then []
    else
      match lines[0]
      case Blank(_) => Meaning(lines[1..], stem)
      case Remark(_, _, _) => Meaning(lines[1..], stem)
      case Header(base) => Meaning(lines[1..], CanonicalBase(base) + ".")
      case Dotted(section) => Meaning(lines[1..], Lowered(section) + ".")
      case Bare(_, name, _) => [Call(stem + Lowered(name), None)] + Meaning(lines[1..], stem)
      case Pair(name, value) => [Call(stem + Lowered(name), Some(value))] + Meaning(lines[1..], stem)
  }

  /** Calling back until the callback refuses. */
  function Told(fn: Callback, calls: seq<Call>): Outcome {
    if calls == [] then Outcome([], true)
    else if fn(calls[0]) < 0 then Outcome([calls[0]], false)
    else Telling([calls[0]], Told(fn, calls[1..]))
  }

  lemma {:induction false} BlanksGone(fn: Callback, blanks: string, rest: string, at: Place)
    requires AtLine(at) && Blanks(blanks)
    ensures SourceFrom(fn, blanks + rest, at) == SourceFrom(fn, rest, at)
    decreases |blanks|
  {
    hide SourceFrom;
    if blanks == "" {
      assert blanks + rest == rest;
    } else {
      assert blanks + rest == [blanks[0]] + (blanks[1..] + rest);
      SpaceSkipped(fn, blanks[0], blanks[1..] + rest, at);
      BlanksGone(fn, blanks[1..], rest, at);
    }
  }

  lemma BlankRead(fn: Callback, blanks: string, more: string, at: Place)
    requires AtLine(at) && Blanks(blanks)
    ensures SourceFrom(fn, TextOf(Blank(blanks)) + more, at) == SourceFrom(fn, more, at)
  {
    hide SourceFrom;
    assert TextOf(Blank(blanks)) + more == blanks + (['\n'] + more);
    BlanksGone(fn, blanks, ['\n'] + more, at);
    SpaceSkipped(fn, '\n', more, at);
  }

  lemma RemarkRead(fn: Callback, indent: string, mark: char, text: string, more: string, at: Place)
    requires AtLine(at) && Blanks(indent) && (mark == '#' || mark == ';') && '\n' !in text
    ensures SourceFrom(fn, TextOf(Remark(indent, mark, text)) + more, at) == SourceFrom(fn, more, at)
  {
    hide SourceFrom;
    var s := [mark] + (text + ("\n" + more));
    assert TextOf(Remark(indent, mark, text)) + more == indent + s;
    BlanksGone(fn, indent, s, at);
    CommentSkipped(fn, mark, text, more, at);
  }

  lemma DottedOpens(fn: Callback, section: string, more: string, at: Place)
    requires AtLine(at) && section != "" && KeyCharsAndDots(section)
    ensures var open := Place(Lowered(section) + ".", |Lowered(section)| + 1, false, Settled);
      AtLine(open) && SourceFrom(fn, TextOf(Dotted(section)) + more, at) == SourceFrom(fn, more, open)
  {
    hide SourceFrom, OneTurn, BaseFrom;
    var rest := section + ([']'] + more);
    assert TextOf(Dotted(section)) + more == ['['] + rest;
    DottedRead(section, more, "");
    assert "" + Lowered(section) == Lowered(section);
    HeaderTurn(fn, rest, at, Lowered(section), more);
    SourceGoes(fn, ['['] + rest, at, [], more, Place(Lowered(section) + ".", |Lowered(section)| + 1, false, Settled));
  }

  lemma BareRead(fn: Callback, indent: string, name: string, blanks: string, more: string, at: Place)
    requires AtLine(at) && Blanks(indent) && Variable(name) && Blanks(blanks)
    ensures
      var call := Call(at.varName[..at.baselen] + Lowered(name), None);
      SourceFrom(fn, TextOf(Bare(indent, name, blanks)) + more, at) ==
        if fn(call) < 0 then Outcome([call], false)
        else Telling([call], SourceFrom(fn, more, at.(varName := call.key)))
  {
    hide SourceFrom, OneTurn, LineFrom, Telling, TextOf, Blanks, NextChar, Variable, AllKeyChars, Lowered, ToLower;
    NameParts(name);
    var stem := at.varName[..at.baselen];
    var line := name[1..] + (blanks + ("\n" + more));
    var call := Call(stem + Lowered(name), None);
    BareParts(indent, name, blanks, more, line);
    BlanksGone(fn, indent, [name[0]] + line, at);
    BareName(name[1..], blanks, more, stem + [ToLower(name[0])]);
    LoweredStep(name, stem);
    LetterTurn(fn, name[0], line, at, Line(call, more));
    if fn(call) < 0 {
      SourceEnds(fn, [name[0]] + line, at, [call], false);
    } else {
      SourceGoes(fn, [name[0]] + line, at, [call], more, at.(varName := call.key));
    }
  }

  lemma NameParts(name: string)
    requires Variable(name)
    ensures name != "" && IsAlpha(name[0]) && AllKeyChars(name[1..])
  {
  }

  lemma BareParts(indent: string, name: string, blanks: string, more: string, line: string)
    requires name != "" && line == name[1..] + (blanks + ("\n" + more))
    ensures TextOf(Bare(indent, name, blanks)) + more == indent + ([name[0]] + line)
  {
    assert name == [name[0]] + name[1..];
  }

  /** One line of a file, and the place where parsing goes on. */
  lemma LineMeans(fn: Callback, line: FileLine, more: string, at: Place) returns (next: Place)
    requires AtLine(at) && GoodLine(line)
    ensures AtLine(next)
    ensures
      var stem, whole := at.varName[..at.baselen], SourceFrom(fn, TextOf(line) + more, at);
      match line
      case Blank(_) => next == at && whole == SourceFrom(fn, more, next)
      case Remark(_, _, _) => next == at && whole == SourceFrom(fn, more, next)
      case Header(base) =>
        next.varName[..next.baselen] == CanonicalBase(base) + "." && whole == SourceFrom(fn, more, next)
      case Dotted(section) =>
        next.varName[..next.baselen] == Lowered(section) + "." && whole == SourceFrom(fn, more, next)
      case Bare(_, name, _) =>
        var call := Call(stem + Lowered(name), None);
        next.varName[..next.baselen] == stem
        && whole == if fn(call) < 0 then Outcome([call], false) else Telling([call], SourceFrom(fn, more, next))
      case Pair(name, value) =>
        var call := Call(stem + Lowered(name), Some(value));
        next.varName[..next.baselen] == stem
        && whole == if fn(call) < 0 then Outcome([call], false) else Telling([call], SourceFrom(fn, more, next))
  {
    hide SourceFrom, TextOf, NeedsQuote, Variable, Blanks, CanonicalBase, Lowered, Base, KeyCharsAndDots;
    var stem := at.varName[..at.baselen];
    next := at;
    match line
    case Blank(blanks) => BlankRead(fn, blanks, more, at);
    case Remark(indent, mark, text) => RemarkRead(fn, indent, mark, text, more, at);
    case Header(base) =>
      next := Place(CanonicalBase(base) + ".", |CanonicalBase(base)| + 1, false, Settled);
      HeaderText(base);
      SectionRead(fn, base, more, at, next);
    case Dotted(section) =>
      next := Place(Lowered(section) + ".", |Lowered(section)| + 1, false, Settled);
      DottedOpens(fn, section, more, at);
    case Bare(indent, name, blanks) =>
      next := at.(varName := stem + Lowered(name));
      BareRead(fn, indent, name, blanks, more, at);
    case Pair(name, value) =>
      next := at.(varName := stem + Lowered(name));
      PairOf(name, value);
      var text := PairRead(fn, name, value, more, at);
  }

  lemma HeaderText(base: string)
    ensures TextOf(Header(base)) == SectionText(base)
  {
  }

  lemma PairOf(name: string, value: string)
    ensures TextOf(Pair(name, value)) == PairText(name, value)
  {
  }

  lemma {:induction false} LinesRead(fn: Callback, lines: seq<FileLine>, at: Place)
    requires AtLine(at) && forall i :: 0 <= i < |lines| ==> GoodLine(lines[i])
    ensures SourceFrom(fn, TextsOf(lines), at) == Told(fn, Meaning(lines, at.varName[..at.baselen]))
    decreases |lines|
  {
    hide SourceFrom, TextOf, GoodLine, CanonicalBase, Lowered;
    if lines == [] {
      PairsEnd(fn, at);
    } else {
      assert GoodLine(lines[0]);
      var next := LineMeans(fn, lines[0], TextsOf(lines[1..]), at);
      LinesRead(fn, lines[1..], next);
      if lines[0].Bare? || lines[0].Pair? {
        var m := Meaning(lines, at.varName[..at.baselen]);
        assert m[1..] == Meaning(lines[1..], at.varName[..at.baselen]);
      }
    }
  }

  /** A whole file makes exactly the calls it stands for, with or without a byte order mark in front. */
  lemma FileRead(fn: Callback, lines: seq<FileLine>)
    requires forall i :: 0 <= i < |lines| ==> GoodLine(lines[i])
    ensures SourceFrom(fn, TextsOf(lines), START) == Told(fn, Meaning(lines, ""))
    ensures SourceFrom(fn, UTF8_BOM + TextsOf(lines), START) == Told(fn, Meaning(lines, ""))
  {
    hide SourceFrom, TextsOf, GoodLine;
    LinesRead(fn, lines, Settle(START));
    FileStart(lines);
    NoMark(fn, TextsOf(lines), START);
    MarkSkipped(fn, TextsOf(lines));
  }

  lemma FileStart(lines: seq<FileLine>)
    requires forall i :: 0 <= i < |lines| ==> GoodLine(lines[i])
    ensures TextsOf(lines) == "" || TextsOf(lines)[0] != UTF8_BOM[0]
  {
    if lines != [] {
      LineStart(lines[0]);
    }
  }

  lemma LineStart(line: FileLine)
    requires GoodLine(line)
    ensures TextOf(line) != "" && TextOf(line)[0] != UTF8_BOM[0]
  {
    hide Escaped, NeedsQuote, EscapedName, Lowered, FirstDot;
  }
}

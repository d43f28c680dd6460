/** Checking and repairing the encoding of a commit message (commit.c, verify_utf8).
    Bit operations on bytes are written as division and remainder by powers of two. */
module Utf8 {
  type Byte = b: int | 0 <= b < 256

  /** Code points a message may hold: no surrogates (section 3 of RFC 3629), no noncharacters. */
  predicate Allowed(cp: nat) {
    && cp <= 0x10ffff
    && !(0xd800 <= cp <= 0xdfff)
    && cp % 0x10000 < 0xfffe
    && !(0xfdd0 <= cp <= 0xfdef)
  }

  /** The encoding of section 3 of RFC 3629. */
  function Encode(cp: nat): (r: seq<Byte>)
    requires cp <= 0x10ffff
    ensures 1 <= |r| <= 4
  {
    var high := cp / 64;
    if cp <= 0x7f then [cp]
    else if cp <= 0x7ff then [0xc0 + high, Tail(cp)]
    else if cp <= 0xffff then [0xe0 + high / 64, Tail(high), Tail(cp)]
    else [0xf0 + high / 64 / 64, Tail(high / 64), Tail(high), Tail(cp)]
  }

  function Tail(bits: nat): Byte {
    0x80 + bits % 64
  }

  predicate AllAllowed(cps: seq<nat>) {
    forall i :: 0 <= i < |cps| ==> Allowed(cps[i])
  }

  function EncodeAll(cps: seq<nat>): seq<Byte>
    requires AllAllowed(cps)
  {
    if cps == [] then [] else Encode(cps[0]) + EncodeAll(cps[1..])
  }

  ghost predicate Encodes(buf: seq<Byte>, cps: seq<nat>) {
    AllAllowed(cps) && buf == EncodeAll(cps)
  }

  ghost predicate WellFormed(buf: seq<Byte>) {
    exists cps :: Encodes(buf, cps)
  }

  ghost predicate Starts(buf: seq<Byte>, cp: nat) {
    Allowed(cp) && Encode(cp) <= buf
  }

  /** Some character of the encoding stands at the front. */
  ghost predicate StartsSome(buf: seq<Byte>) {
    exists cp :: Starts(buf, cp)
  }

  // ---------------------------------------------------------------- reading back

  /** What a leading byte promises: how many more bytes there should be. */
  function Extra(c: Byte): nat {
    if c < 0xc0 then 0 else if c < 0xe0 then 1 else if c < 0xf0 then 2 else if c < 0xf8 then 3
    else if c < 0xfc then 4 else if c < 0xfe then 5 else if c < 0xff then 6 else 7
  }

  /** The bits the leading byte contributes. */
  function LeadBits(c: Byte, extra: nat): nat
    requires 1 <= extra <= 3
  {
    c % (if extra == 1 then 32 else if extra == 2 then 16 else 8)
  }

  /** The value of a leading byte followed by k tail bytes. */
  function Value(buf: seq<Byte>, extra: nat, k: nat): nat
    requires 1 <= extra <= 3 && k < |buf|
  {
    if k == 0 then LeadBits(buf[0], extra) else Value(buf, extra, k - 1) * 64 + buf[k] % 64
  }

  predicate InRange(cp: nat, extra: nat)
    requires 1 <= extra <= 3
  {
    if extra == 1 then 0x80 <= cp <= 0x7ff else if extra == 2 then 0x800 <= cp <= 0xffff else 0x10000 <= cp <= 0x10ffff
  }

  /** A leading byte and the tail bytes it promises, together in range. */
  ghost predicate Reads(buf: seq<Byte>, extra: nat, cp: nat) {
    && 1 <= extra <= 3 && extra < |buf|
    && Extra(buf[0]) == extra
    && (forall k :: 1 <= k <= extra ==> buf[k] / 64 == 2)
    && Value(buf, extra, extra) == cp && InRange(cp, extra)
  }

  lemma Value1(buf: seq<Byte>, extra: nat)
    requires 1 <= extra <= 3 && extra < |buf|
    ensures Value(buf, extra, 1) == LeadBits(buf[0], extra) * 64 + buf[1] % 64
    ensures extra >= 2 ==> Value(buf, extra, 2) == Value(buf, extra, 1) * 64 + buf[2] % 64
    ensures extra >= 3 ==> Value(buf, extra, 3) == Value(buf, extra, 2) * 64 + buf[3] % 64
  {
    assert Value(buf, extra, 0) == LeadBits(buf[0], extra);
  }

  /** Reading a multi-byte character back gives its code point. */
  lemma ReadsEncoded(buf: seq<Byte>, cp: nat)
    requires 0x80 <= cp <= 0x10ffff && Encode(cp) <= buf
    ensures Reads(buf, |Encode(cp)| - 1, cp)
  {
    var r := Encode(cp);
    assert forall k :: 0 <= k < |r| ==> buf[k] == r[k];
    ValueOfEncoded(buf, cp);
  }

  lemma TailBits(bits: nat)
    ensures Tail(bits) % 64 == bits % 64 && Tail(bits) / 64 == 2
    ensures bits / 64 * 64 + bits % 64 == bits
  {
  }

  lemma LeadingBits(c: Byte, extra: nat, bits: nat)
    requires 1 <= extra <= 3
    requires extra == 1 ==> c == 0xc0 + bits && bits < 32
    requires extra == 2 ==> c == 0xe0 + bits && bits < 16
    requires extra == 3 ==> c == 0xf0 + bits && bits < 8
    ensures LeadBits(c, extra) == bits && Extra(c) == extra
  {
  }

  lemma ValueOfEncoded(buf: seq<Byte>, cp: nat)
    requires 0x80 <= cp <= 0x10ffff && Encode(cp) <= buf
    ensures var extra := |Encode(cp)| - 1; Value(buf, extra, extra) == cp
  {
    var r := Encode(cp);
    assert forall k :: 0 <= k < |r| ==> buf[k] == r[k];
    Value1(buf, |r| - 1);
    var high := cp / 64;
    TailBits(cp);
    TailBits(high);
    TailBits(high / 64);
    LeadingBits(buf[0], |r| - 1, if |r| == 2 then high else if |r| == 3 then high / 64 else high / 64 / 64);
  }

  /** What reads as a character is its encoding. */
  lemma EncodedReads(buf: seq<Byte>, extra: nat, cp: nat)
    requires Reads(buf, extra, cp)
    ensures 0x80 <= cp <= 0x10ffff && Encode(cp) == buf[..extra + 1]
  {
    Value1(buf, extra);
    forall k | 1 <= k <= extra
      ensures buf[k] / 64 == 2
    {
    }
    var v := LeadBits(buf[0], extra);
    AppendedBits(v, buf[1]);
    if extra >= 2 {
      AppendedBits(Value(buf, extra, 1), buf[2]);
    }
    if extra == 3 {
      AppendedBits(Value(buf, extra, 2), buf[3]);
    }
    LeadingByte(buf[0], extra);
    var high := cp / 64;
    assert high == Value(buf, extra, extra - 1);
    if extra == 1 {
      assert Encode(cp) == [buf[0], buf[1]];
    } else if extra == 2 {
      assert high / 64 == v;
      assert Encode(cp) == [buf[0], buf[1], buf[2]];
    } else {
      assert high / 64 / 64 == v;
      assert Encode(cp) == [buf[0], buf[1], buf[2], buf[3]];
    }
  }

  lemma LeadingByte(c: Byte, extra: nat)
    requires 1 <= extra <= 3 && Extra(c) == extra && c >= 0x80
    ensures c == (if extra == 1 then 0xc0 else if extra == 2 then 0xe0 else 0xf0) + LeadBits(c, extra)
  {
  }

  lemma AppendedBits(v: nat, b: Byte)
    requires b / 64 == 2
    ensures (v * 64 + b % 64) / 64 == v && Tail(v * 64 + b % 64) == b
  {
  }

  /** The checks that find_invalid_utf8 makes on one character. */
  ghost predicate Acceptable(buf: seq<Byte>)
    requires buf != []
  {
    buf[0] < 0x80 ||
    var extra := Extra(buf[0]);
    1 <= extra <= 3 && extra < |buf| && Reads(buf, extra, Value(buf, extra, extra)) && Allowed(Value(buf, extra, extra))
  }

  lemma FrontCharacter(buf: seq<Byte>, cp: nat)
    requires Starts(buf, cp)
    ensures buf != [] && Acceptable(buf)
    ensures if buf[0] < 0x80 then cp == buf[0] && |Encode(cp)| == 1
            else |Encode(cp)| == Extra(buf[0]) + 1 && cp == Value(buf, Extra(buf[0]), Extra(buf[0]))
  {
    assert buf[0] == Encode(cp)[0];
    if cp >= 0x80 {
      ReadsEncoded(buf, cp);
    }
  }

  lemma AcceptableStarts(buf: seq<Byte>) returns (cp: nat)
    requires buf != [] && Acceptable(buf)
    ensures Starts(buf, cp)
    ensures Encode(cp) == buf[..if buf[0] < 0x80 then 1 else Extra(buf[0]) + 1]
  {
    if buf[0] < 0x80 {
      cp := buf[0];
    } else {
      cp := Value(buf, Extra(buf[0]), Extra(buf[0]));
      EncodedReads(buf, Extra(buf[0]), cp);
    }
  }

  /** The checks accept exactly the buffers that start with an allowed character. */
  lemma ChecksAreExact(buf: seq<Byte>)
    requires buf != []
    ensures Acceptable(buf) <==> StartsSome(buf)
  {
    if Acceptable(buf) {
      var cp := AcceptableStarts(buf);
    }
    if cp :| Starts(buf, cp) {
      FrontCharacter(buf, cp);
    }
  }

  lemma FrontIsUnique(buf: seq<Byte>, a: nat, b: nat)
    requires Starts(buf, a) && Starts(buf, b)
    ensures a == b
  {
    FrontCharacter(buf, a);
    FrontCharacter(buf, b);
  }

  // ---------------------------------------------------------------- whole buffers

  lemma {:induction false} EncodeAllAppend(a: seq<nat>, b: seq<nat>)
    requires AllAllowed(a) && AllAllowed(b)
    ensures AllAllowed(a + b) && EncodeAll(a + b) == EncodeAll(a) + EncodeAll(b)
  {
    hide Encode;
    if a == [] {
      assert a + b == b;
    } else {
      EncodeAllAppend(a[1..], b);
      assert (a + b)[1..] == a[1..] + b;
      Associate(Encode(a[0]), EncodeAll(a[1..]), EncodeAll(b));
    }
  }

  lemma WellFormedAppend(a: seq<Byte>, b: seq<Byte>)
    requires WellFormed(a) && WellFormed(b)
    ensures WellFormed(a + b)
  {
    var x :| Encodes(a, x);
    var y :| Encodes(b, y);
    EncodeAllAppend(x, y);
    assert Encodes(a + b, x + y);
  }

  lemma WellFormedCharacter(cp: nat)
    requires Allowed(cp)
    ensures WellFormed(Encode(cp))
  {
    assert Encodes(Encode(cp), [cp]);
  }

  /** A well-formed buffer stays decodable behind every well-formed prefix. */
  lemma {:induction false} RestStarts(buf: seq<Byte>, all: seq<nat>, k: nat, cps: seq<nat>)
    requires Encodes(buf, all) && k < |buf| && Encodes(buf[..k], cps)
    ensures StartsSome(buf[k..])
  {
    hide Encode;
    assert buf[..|buf|] == buf;
    StripFront(buf, |buf|, all);
    if cps == [] {
      assert buf[k..] == buf;
      assert Starts(buf, all[0]);
    } else {
      StripFront(buf, k, cps);
      FrontIsUnique(buf, cps[0], all[0]);
      var n := |Encode(cps[0])|;
      assert buf[n..][..|buf| - n] == buf[n..];
      assert buf[k..] == buf[n..][k - n..];
      RestStarts(buf[n..], all[1..], k - n, cps[1..]);
    }
  }

  /** Characters are kept, and every byte at which none starts is taken for Latin-1. */
  ghost function Repair(buf: seq<Byte>): seq<Byte> {
    if buf == [] then []
    else if StartsSome(buf) then
      var cp :| Starts(buf, cp);
      Encode(cp) + Repair(buf[|Encode(cp)|..])
    else Encode(buf[0]) + Repair(buf[1..])
  }

  lemma RepairFront(buf: seq<Byte>, cp: nat)
    requires Starts(buf, cp)
    ensures |Encode(cp)| <= |buf| && Repair(buf) == Encode(cp) + Repair(buf[|Encode(cp)|..])
  {
    assert |Encode(cp)| <= |buf| && buf != [];
    forall other | Starts(buf, other)
      ensures other == cp
    {
      FrontIsUnique(buf, cp, other);
    }
  }

  lemma StripFront(buf: seq<Byte>, k: nat, cps: seq<nat>)
    requires k <= |buf| && cps != [] && Encodes(buf[..k], cps)
    ensures Starts(buf, cps[0])
    ensures var n := |Encode(cps[0])|;
      && n <= k && buf[..k] == Encode(cps[0]) + buf[n..k] && Encodes(buf[n..][..k - n], cps[1..])
  {
    assert Allowed(cps[0]);
    var n := |Encode(cps[0])|;
    assert Encode(cps[0]) <= buf[..k] <= buf;
    assert buf[n..][..k - n] == buf[..k][n..] == EncodeAll(cps[1..]);
  }

  lemma {:induction false} RepairKeeps(buf: seq<Byte>, k: nat, cps: seq<nat>)
    requires k <= |buf| && Encodes(buf[..k], cps)
    ensures Repair(buf) == buf[..k] + Repair(buf[k..])
  {
    if cps == [] {
      assert buf[k..] == buf;
    } else {
      StripFront(buf, k, cps);
      RepairFront(buf, cps[0]);
      var n := |Encode(cps[0])|;
      var rest := buf[n..];
      RepairKeeps(rest, k - n, cps[1..]);
      assert rest[k - n..] == buf[k..] && rest[..k - n] == buf[n..k];
      Associate(Encode(cps[0]), buf[n..k], Repair(buf[k..]));
    }
  }

  lemma Associate(a: seq<Byte>, b: seq<Byte>, c: seq<Byte>)
    ensures a + (b + c) == a + b + c
  {
  }

  lemma Latin1Character(c: Byte)
    requires c >= 0x80
    ensures [0xc0 + c / 64, 0x80 + c % 64] == Encode(c)
    ensures WellFormed(Encode(c))
  {
    WellFormedCharacter(c);
  }

  lemma NoAsciiFails(buf: seq<Byte>)
    requires buf != [] && !StartsSome(buf)
    ensures buf[0] >= 0x80
  {
    ChecksAreExact(buf);
  }

  /** One round of the repair: a good stretch is kept and the byte behind it re-encoded. */
  lemma RepairStep(rest: seq<Byte>, bad: nat)
    requires bad < |rest| && WellFormed(rest[..bad]) && !StartsSome(rest[bad..])
    ensures Repair(rest) == rest[..bad] + Encode(rest[bad]) + Repair(rest[bad + 1..])
  {
    var cps :| Encodes(rest[..bad], cps);
    RepairKeeps(rest, bad, cps);
    RepairByte(rest[bad..]);
    assert rest[bad..][1..] == rest[bad + 1..];
    Associate(rest[..bad], Encode(rest[bad]), Repair(rest[bad + 1..]));
  }

  lemma RepairByte(buf: seq<Byte>)
    requires buf != [] && !StartsSome(buf)
    ensures Repair(buf) == Encode(buf[0]) + Repair(buf[1..])
  {
  }

  lemma NothingToRepair(rest: seq<Byte>)
    requires WellFormed(rest)
    ensures Repair(rest) == rest
  {
    var cps :| Encodes(rest, cps);
    assert rest[..|rest|] == rest;
    RepairKeeps(rest, |rest|, cps);
  }

  /** A message as it was: characters, and bytes where no character starts. */
  datatype Piece = Character(cp: nat) | Stray(byte: Byte)

  ghost predicate GoodPiece(p: Piece) {
    p.Character? ==> Allowed(p.cp)
  }

  ghost predicate GoodPieces(pieces: seq<Piece>) {
    forall i :: 0 <= i < |pieces| ==> GoodPiece(pieces[i])
  }

  ghost function Raw(pieces: seq<Piece>): seq<Byte>
    requires GoodPieces(pieces)
  {
    if pieces == [] then []
    else
      assert GoodPiece(pieces[0]);
      (match pieces[0] case Character(cp) => Encode(cp) case Stray(b) => [b]) + Raw(pieces[1..])
  }

  /** Each piece as a code point: a stray byte is the Latin-1 character of its value. */
  function CodePoints(pieces: seq<Piece>): (cps: seq<nat>)
    ensures |cps| == |pieces|
  {
    if pieces == [] then []
    else [match pieces[0] case Character(cp) => cp case Stray(b) => b] + CodePoints(pieces[1..])
  }

  /** The text is made of the pieces, bytes are stray only where no character starts, and the result encodes the pieces,
      every stray byte as the Latin-1 character it is. */
  ghost predicate ReadAsLatin1(text: seq<Byte>, pieces: seq<Piece>, result: seq<Byte>) {
    && GoodPieces(pieces) && Raw(pieces) == text
    && (forall i :: 0 <= i < |pieces| && pieces[i].Stray? ==> !StartsSome(Raw(pieces[i..])))
    && Encodes(result, CodePoints(pieces))
  }

  lemma {:induction false} RepairPieces(buf: seq<Byte>) returns (pieces: seq<Piece>)
    ensures ReadAsLatin1(buf, pieces, Repair(buf))
    decreases |buf|
  {
    hide StartsSome, Encode;
    pieces := [];
    if buf != [] {
      if StartsSome(buf) {
        var cp := FrontOf(buf);
        RepairFront(buf, cp);
        var rest := buf[|Encode(cp)|..];
        pieces := RepairPieces(rest);
        PieceInFront(Character(cp), pieces, buf, rest, Repair(rest));
        pieces := [Character(cp)] + pieces;
      } else {
        RepairByte(buf);
        NoAsciiFails(buf);
        var rest := buf[1..];
        pieces := RepairPieces(rest);
        PieceInFront(Stray(buf[0]), pieces, buf, rest, Repair(rest));
        pieces := [Stray(buf[0])] + pieces;
      }
    }
  }

  lemma FrontOf(buf: seq<Byte>) returns (cp: nat)
    requires StartsSome(buf)
    ensures Starts(buf, cp) && buf == Encode(cp) + buf[|Encode(cp)|..] && 1 <= |Encode(cp)| <= |buf|
  {
    cp :| Starts(buf, cp);
  }

  lemma PieceInFront(p: Piece, pieces: seq<Piece>, buf: seq<Byte>, rest: seq<Byte>, result: seq<Byte>)
    requires GoodPiece(p) && ReadAsLatin1(rest, pieces, result)
    requires match p case Character(cp) => buf == Encode(cp) + rest
                     case Stray(b) => b >= 0x80 && buf == [b] + rest && !StartsSome(buf)
    ensures ReadAsLatin1(buf, [p] + pieces, Encode(match p case Character(cp) => cp case Stray(b) => b) + result)
  {
    hide Encode, StartsSome;
    var all := [p] + pieces;
    assert all[1..] == pieces;
    forall i | 0 <= i < |all| && all[i].Stray?
      ensures !StartsSome(Raw(all[i..]))
    {
      if i == 0 {
        assert all[0..] == all;
      } else {
        assert all[i..] == pieces[i - 1..] && all[i] == pieces[i - 1];
      }
    }
    var cp := match p case Character(cp) => cp case Stray(b) => b;
    LatinAllowed(p);
    assert CodePoints(all) == [cp] + CodePoints(pieces);
    EncodedInFront(cp, CodePoints(pieces), result);
  }

  lemma LatinAllowed(p: Piece)
    requires GoodPiece(p)
    ensures Allowed(match p case Character(cp) => cp case Stray(b) => b)
  {
  }

  lemma EncodedInFront(cp: nat, cps: seq<nat>, result: seq<Byte>)
    requires Allowed(cp) && Encodes(result, cps)
    ensures Encodes(Encode(cp) + result, [cp] + cps)
  {
    hide Encode;
    assert ([cp] + cps)[1..] == cps;
  }

  /** The leading byte after so many shifts, as long as high bits were found. */
  function Shifted(c0: Byte, bytes: nat): int {
    match bytes
    case 0 => c0 case 1 => 2 * c0 - 0x100 case 2 => 4 * c0 - 0x300 case 3 => 8 * c0 - 0x700
    case 4 => 16 * c0 - 0xf00 case 5 => 32 * c0 - 0x1f00 case 6 => 64 * c0 - 0x3f00 case _ => 128 * c0 - 0x7f00
  }

  lemma ShiftStep(c0: Byte, bytes: nat)
    requires bytes <= 7 && 0x80 <= Shifted(c0, bytes) < 256 && Shifted(c0, bytes) / 64 % 2 == 1
    ensures bytes < 7 && 0x80 <= Shifted(c0, bytes + 1) < 256
    ensures Shifted(c0, bytes + 1) == Shifted(c0, bytes) * 2 % 256
  {
    var c := Shifted(c0, bytes);
    assert 0xc0 <= c;
    assert c * 2 - 256 == c * 2 % 256;
  }

  lemma ShiftStops(c0: Byte, bytes: nat)
    requires bytes <= 7 && 0x80 <= Shifted(c0, bytes) < 256 && Shifted(c0, bytes) / 64 % 2 != 1
    ensures bytes == Extra(c0)
  {
    assert Shifted(c0, bytes) < 0xc0;
  }

  lemma ShiftedLead(c0: Byte, bytes: nat)
    requires 1 <= bytes <= 3 && 0x80 <= Shifted(c0, bytes) < 0xc0
    ensures Shifted(c0, bytes) % 128 / (if bytes == 1 then 2 else if bytes == 2 then 4 else 8) == LeadBits(c0, bytes)
  {
    var base := if bytes == 1 then 0xc0 else if bytes == 2 then 0xe0 else 0xf0;
    assert Shifted(c0, bytes) % 128 == Shifted(c0, bytes) - 128;
    assert LeadBits(c0, bytes) == c0 - base;
  }

  /** The shifting loop that counts the further high bits of a leading byte. */
  method CountHighBits(c0: Byte) returns (c: Byte, bytes: nat)
    requires c0 >= 0x80
    ensures bytes == Extra(c0)
    ensures bytes == 1 ==> c % 128 / 2 == LeadBits(c0, 1)
    ensures bytes == 2 ==> c % 128 / 4 == LeadBits(c0, 2)
    ensures bytes == 3 ==> c % 128 / 8 == LeadBits(c0, 3)
  {
    hide LeadBits, Extra;
    c, bytes := c0, 0;
    while c / 64 % 2 == 1
      invariant bytes <= 7 && c >= 0x80 && c == Shifted(c0, bytes)
      decreases 7 - bytes
    {
      ShiftStep(c0, bytes);
      c := c * 2 % 256;
      bytes := bytes + 1;
    }
    ShiftStops(c0, bytes);
    if 1 <= bytes <= 3 {
      ShiftedLead(c0, bytes);
    }
  }

  /** One multi-byte character, with every check of the loop body. */
  method CheckCharacter(buf: seq<Byte>, at: nat) returns (good: bool, next: nat)
    requires at < |buf| && buf[at] >= 0x80
    ensures good <==> Acceptable(buf[at..])
    ensures good ==> next == at + Extra(buf[at]) + 1
  {
    hide LeadBits, Extra, Value, Allowed, InRange;
    next := at;
    var c, bytes := CountHighBits(buf[at]);
    if bytes < 1 || 3 < bytes {
      return false, at;
    }
    if |buf| - at - 1 < bytes {
      return false, at;
    }
    var codepoint: nat := if bytes == 1 then c % 128 / 2 else if bytes == 2 then c % 128 / 4 else c % 128 / 8;
    good, codepoint := ReadTail(buf, at, bytes, codepoint);
    if !good {
      return false, at;
    }
    good := CheckRange(codepoint, bytes);
    next := at + bytes + 1;
  }

  /** The bytes behind the leading one. */
  method ReadTail(buf: seq<Byte>, at: nat, bytes: nat, lead: nat) returns (good: bool, codepoint: nat)
    requires 1 <= bytes <= 3 && at + bytes < |buf| && lead == LeadBits(buf[at], bytes)
    ensures good <==> forall k :: 1 <= k <= bytes ==> buf[at..][k] / 64 == 2
    ensures good ==> codepoint == Value(buf[at..], bytes, bytes)
  {
    hide LeadBits;
    ghost var rest := buf[at..];
    good, codepoint := true, lead;
    var k := 0;
    while k < bytes
      invariant 0 <= k <= bytes
      invariant codepoint == Value(rest, bytes, k)
      invariant forall j :: 1 <= j <= k ==> rest[j] / 64 == 2
    {
      k := k + 1;
      var b := buf[at + k];
      assert rest[k] == b;
      codepoint := codepoint * 64 + b % 64;
      if b / 64 != 2 {
        return false, 0;
      }
    }
  }

  /** The length has to fit, and surrogates and noncharacters are refused. */
  method CheckRange(codepoint: nat, bytes: nat) returns (good: bool)
    requires 1 <= bytes <= 3
    ensures good <==> InRange(codepoint, bytes) && Allowed(codepoint)
  {
    var minVal := if bytes == 1 then 0x80 else if bytes == 2 then 0x800 else 0x10000;
    var maxVal := if bytes == 1 then 0x7ff else if bytes == 2 then 0xffff else 0x10ffff;
    if codepoint < minVal || codepoint > maxVal {
      return false;
    }
    if codepoint / 2048 == 27 || codepoint % 65536 / 2 == 0x7fff || 0xfdd0 <= codepoint <= 0xfdef {
      return false;
    }
    return true;
  }

  /** find_invalid_utf8: the offset of the first byte at which no character starts, or -1. */
  method FindInvalidUtf8(buf: seq<Byte>) returns (bad: int)
    ensures bad == -1 <==> WellFormed(buf)
    ensures -1 <= bad < |buf|
    ensures bad >= 0 ==> WellFormed(buf[..bad]) && !StartsSome(buf[bad..]) && buf[bad] >= 0x80
  {
    var offset := 0;
    assert Encodes(buf[..0], []);
    while offset < |buf|
      invariant 0 <= offset <= |buf|
      invariant WellFormed(buf[..offset])
    {
      var next := offset + 1;
      var good := true;
      if buf[offset] >= 0x80 {
        good, next := CheckCharacter(buf, offset);
      }
      ChecksAreExact(buf[offset..]);
      if !good {
        if all :| Encodes(buf, all) {
          var cps :| Encodes(buf[..offset], cps);
          RestStarts(buf, all, offset, cps);
        }
        return offset;
      }
      var cp := AcceptableStarts(buf[offset..]);
      WellFormedCharacter(cp);
      WellFormedAppend(buf[..offset], Encode(cp));
      assert buf[..next] == buf[..offset] + Encode(cp);
      offset := next;
    }
    assert buf[..offset] == buf;
    return -1;
  }

  class StrBuf {
    var buf: seq<Byte>

    constructor (buf: seq<Byte>)
      ensures this.buf == buf
    {
      this.buf := buf;
    }

    method Remove(pos: nat, len: nat)
      requires pos + len <= |buf|
      modifies this
      ensures buf == old(buf[..pos] + buf[pos + len..])
    {
      buf := buf[..pos] + buf[pos + len..];
    }

    method Insert(pos: nat, data: seq<Byte>)
      requires pos <= |buf|
      modifies this
      ensures buf == old(buf[..pos]) + data + old(buf[pos..])
    {
      buf := buf[..pos] + data + buf[pos..];
    }

    /** The byte at pos is taken for Latin-1 and replaced by its two-byte encoding. */
    method Reencode(pos: nat)
      requires pos < |buf| && buf[pos] >= 0x80
      modifies this
      ensures pos + 2 <= |buf|
      ensures buf[..pos + 2] == old(buf[..pos]) + Encode(old(buf[pos]))
      ensures buf[pos + 2..] == old(buf[pos + 1..])
    {
      var c := buf[pos];
      Remove(pos, 1);
      var replace := [0xc0 + c / 64, 0x80 + c % 64];
      Insert(pos, replace);
      Latin1Character(c);
    }

    /** One round of the loop: finds the next bad byte behind pos and re-encodes it. */
    method RepairNext(pos: nat, ghost text: seq<Byte>) returns (clean: bool, next: nat)
      requires pos <= |buf| && Repaired(text, buf[..pos], buf[pos..])
      modifies this
      ensures clean <==> WellFormed(old(buf[pos..]))
      ensures clean ==> buf == old(buf)
      ensures !clean ==> next <= |buf| && |buf| - next < |old(buf)| - pos
      ensures !clean ==> Repaired(text, buf[..next], buf[next..])
    {
      hide Repaired, WellFormed, Encode, StartsSome;
      ghost var done, rest := buf[..pos], buf[pos..];
      var bad := FindInvalidUtf8(buf[pos..]);
      if bad < 0 {
        return true, pos;
      }
      RepairRound(text, done, rest, bad);
      next := pos + bad;
      Resliced(buf, pos, bad);
      Reencode(next);
      next := next + 2;
      clean := false;
    }

    /** verify_utf8. */
    method VerifyUtf8() returns (ok: bool)
      modifies this
      ensures buf == Repair(old(buf)) && WellFormed(buf)
      ensures exists pieces :: ReadAsLatin1(old(buf), pieces, buf)
      ensures ok <==> WellFormed(old(buf))
      ensures ok <==> buf == old(buf)
    {
      ok := true;
      var pos := 0;
      ghost var text := buf;
      ghost var pieces := RepairPieces(text);
      NothingDone(text);
      while true
        invariant 0 <= pos <= |buf|
        invariant Repaired(text, buf[..pos], buf[pos..])
        invariant if ok then pos == 0 && buf == text else !WellFormed(text)
        decreases |buf| - pos
      {
        assert ok ==> buf[pos..] == text;
        var clean, next := RepairNext(pos, text);
        if clean {
          SplitAt(buf, pos);
          AllDone(text, buf[..pos], buf[pos..]);
          return;
        }
        ok := false;
        pos := next;
      }
    }
  }

  lemma NothingDone(text: seq<Byte>)
    ensures Repaired(text, text[..0], text[0..])
  {
    assert Encodes([], []);
    assert text[0..] == text;
  }

  lemma AllDone(text: seq<Byte>, done: seq<Byte>, rest: seq<Byte>)
    requires Repaired(text, done, rest) && WellFormed(rest)
    ensures Repair(text) == done + rest && WellFormed(done + rest)
  {
    NothingToRepair(rest);
    WellFormedAppend(done, rest);
  }

  lemma Resliced(buf: seq<Byte>, pos: nat, bad: nat)
    requires pos + bad < |buf|
    ensures buf[..pos + bad] == buf[..pos] + buf[pos..][..bad]
    ensures buf[pos + bad] == buf[pos..][bad]
    ensures buf[pos + bad + 1..] == buf[pos..][bad + 1..]
  {
  }

  lemma SplitAt(buf: seq<Byte>, pos: nat)
    requires pos <= |buf|
    ensures buf == buf[..pos] + buf[pos..]
  {
  }

  ghost predicate Repaired(text: seq<Byte>, done: seq<Byte>, rest: seq<Byte>) {
    WellFormed(done) && Repair(text) == done + Repair(rest)
  }

  lemma RepairRound(text: seq<Byte>, done: seq<Byte>, rest: seq<Byte>, bad: nat)
    requires Repaired(text, done, rest)
    requires bad < |rest| && WellFormed(rest[..bad]) && !StartsSome(rest[bad..])
    ensures rest[bad] >= 0x80 && |Encode(rest[bad])| == 2
    ensures Repaired(text, done + rest[..bad] + Encode(rest[bad]), rest[bad + 1..])
  {
    RepairStep(rest, bad);
    NoAsciiFails(rest[bad..]);
    Latin1Character(rest[bad]);
    WellFormedAppend(done, rest[..bad]);
    WellFormedAppend(done + rest[..bad], Encode(rest[bad]));
    Associate(done, rest[..bad], Encode(rest[bad]));
    Associate(done, rest[..bad] + Encode(rest[bad]), Repair(rest[bad + 1..]));
  }
}

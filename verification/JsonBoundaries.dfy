/**
 On UTF-8 input the parser stays on character boundaries, so the failures that report invalid
 UTF-8 or an invalid scalar value never occur.
 */
module JsonBoundaries {
  import opened Prelude
  import opened Utf8
  import opened JsonValues
  import opened JsonGrammar
  import opened JsonParsing
  import Completeness = JsonCompleteness
  import Soundness = JsonSoundness

  /** The bytes left to read are whole characters. */
  predicate Boundary(rest: seq<byte>) {
    Decode(rest).Some?
  }

  predicate NeverReported(kind: ErrorKind) {
    kind.InvalidUtf8InString? || kind.InvalidUtf8InNumber? || kind.InvalidScalar?
  }

  /** These two failures come after a byte that may be only the first of its character. */
  predicate MaySplitCharacter(kind: ErrorKind) {
    kind.InvalidEscape? || kind.InvalidHexDigit?
  }

  /** The parser has read some of `s` and has still to read `rest`. */
  predicate Suffix(rest: seq<byte>, s: seq<byte>) {
    |rest| <= |s| && rest == s[|s| - |rest|..]
  }

  /** Some byte has been read; the position after it is a boundary exactly when that byte is ASCII. */
  predicate AfterSomeByte(s: seq<byte>, rest: seq<byte>) {
    |rest| < |s| && (Boundary(rest) <==> s[|s| - |rest| - 1] < 0x80)
  }

  /**
   The position stays at a boundary, with one exception: a byte that is no escape letter or no
   hexadecimal digit has been read, and it is not ASCII.
   */
  predicate Kept<T>(s: seq<byte>, r: Parsed<T>) {
    Suffix(r.rest, s) &&
    match r
    case Parsed(_, rest) => Boundary(rest)
    case Failed(kind, rest) =>
      !NeverReported(kind)
      && if MaySplitCharacter(kind) && rest != [] then AfterSomeByte(s, rest) else Boundary(rest)
  }

  lemma SuffixLater(s: seq<byte>, t: seq<byte>, rest: seq<byte>)
    requires Suffix(t, s) && Suffix(rest, t)
    ensures Suffix(rest, s)
    ensures |rest| < |t| ==> t[|t| - |rest| - 1] == s[|s| - |rest| - 1]
  {
    assert t[|t| - |rest|..] == s[|s| - |rest|..];
  }

  /** What is kept from a later position on is kept. */
  lemma Later<T>(s: seq<byte>, t: seq<byte>, r: Parsed<T>)
    requires Suffix(t, s) && Kept(t, r)
    ensures Kept(s, r)
  {
    hide Boundary;
    SuffixLater(s, t, r.rest);
  }

  lemma AfterAscii(s: seq<byte>)
    requires Boundary(s) && s != [] && s[0] < 0x80
    ensures Boundary(s[1..]) && Suffix(s[1..], s)
  {
  }

  lemma AfterWide(s: seq<byte>)
    requires Boundary(s) && s != [] && s[0] >= 0x80
    ensures s[1..] != [] && !Boundary(s[1..])
  {
  }

  lemma {:induction false} SkipSpaceKept(s: seq<byte>)
    requires Boundary(s)
    ensures Boundary(SkipSpace(s)) && Suffix(SkipSpace(s), s)
  {
    if s != [] && IsSpace(s[0]) {
      SkipSpaceKept(s[1..]);
      SuffixLater(s, s[1..], SkipSpace(s));
    }
  }

  lemma {:induction false} SkipDigitsKept(s: seq<byte>)
    requires Boundary(s)
    ensures Boundary(SkipDigits(s)) && Suffix(SkipDigits(s), s)
  {
    if s != [] && IsDigit(s[0]) {
      SkipDigitsKept(s[1..]);
      SuffixLater(s, s[1..], SkipDigits(s));
    }
  }

  lemma {:induction false} AfterKeyword(s: seq<byte>, keyword: seq<byte>)
    requires Boundary(s) && keyword <= s
    requires forall i | 0 <= i < |keyword| :: keyword[i] < 0x80
    ensures Boundary(s[|keyword|..])
  {
    if keyword != [] {
      AfterAscii(s);
      AfterKeyword(s[1..], keyword[1..]);
      assert s[1..][|keyword| - 1..] == s[|keyword|..];
    }
  }

  // Numbers

  lemma IntegerKept(s: seq<byte>)
    requires Boundary(s)
    ensures Kept(s, ParseInteger(s))
  {
    hide Boundary, Suffix, AfterSomeByte, SkipDigits;
    WholeIsSuffix(s);
    if s != [] && IsDigit(s[0]) {
      TokenKept(s, s);
      SkipDigitsKept(s[1..]);
      SuffixLater(s, s[1..], SkipDigits(s[1..]));
    }
  }

  lemma FractionKept(s: seq<byte>)
    requires Boundary(s)
    ensures Kept(s, ParseFraction(s))
  {
    hide Boundary, Suffix, AfterSomeByte, SkipDigits;
    WholeIsSuffix(s);
    if StartsWith(s, 0x2E) {
      TokenKept(s, s);
      SkipDigitsKept(s[1..]);
      SuffixLater(s, s[1..], SkipDigits(s[1..]));
    }
  }

  lemma ExponentKept(s: seq<byte>)
    requires Boundary(s)
    ensures Kept(s, ParseExponent(s))
  {
    hide Boundary, Suffix, SkipDigits;
    WholeIsSuffix(s);
    if s != [] && s[0] in {0x65, 0x45} {
      TokenKept(s, s);
      var digits := s[1..];
      if digits != [] && IsSign(digits[0]) {
        TokenKept(s, digits);
        digits := digits[1..];
      }
      SkipDigitsKept(digits);
      SuffixLater(s, digits, SkipDigits(digits));
    }
  }

  lemma NumberEndKept(s: seq<byte>)
    requires Boundary(s)
    ensures Kept(s, ParseNumberEnd(s))
  {
    hide ParseInteger, ParseFraction, ParseExponent, Boundary, Suffix, AfterSomeByte;
    var start := if StartsWith(s, 0x2D) then s[1..] else s;
    StartKept(s, start);
    var integer := ParseInteger(start);
    IntegerKept(start);
    Later(s, start, integer);
    if integer.Parsed? {
      var fraction := ParseFraction(integer.rest);
      FractionKept(integer.rest);
      Later(s, integer.rest, fraction);
      if fraction.Parsed? {
        ExponentKept(fraction.rest);
        Later(s, fraction.rest, ParseExponent(fraction.rest));
      }
    }
  }

  lemma StartKept(s: seq<byte>, start: seq<byte>)
    requires Boundary(s) && start == if StartsWith(s, 0x2D) then s[1..] else s
    ensures Boundary(start) && Suffix(start, s)
  {
    if StartsWith(s, 0x2D) {
      AfterAscii(s);
    }
  }

  lemma NumberKept(s: seq<byte>)
    requires Boundary(s)
    ensures Kept(s, ParseNumber(s))
  {
    hide ParseNumberEnd, Boundary, Suffix, AfterSomeByte, Decode;
    NumberEndKept(s);
    if ParseNumberEnd(s).Parsed? {
      var n := Soundness.NumberSound(s);
    }
  }

  // Strings

  lemma {:induction false} QuadKept(s: seq<byte>, count: nat, value: nat)
    requires Boundary(s)
    ensures Kept(s, ParseQuad(s, count, value))
    decreases count
  {
    hide Boundary;
    if count != 0 && s != [] {
      if s[0] < 0x80 {
        AfterAscii(s);
      } else {
        AfterWide(s);
      }
      if IsHexDigit(s[0]) {
        QuadKept(s[1..], count - 1, value * 16 + HexDigit(s[0]));
        Later(s, s[1..], ParseQuad(s[1..], count - 1, value * 16 + HexDigit(s[0])));
      }
    }
  }

  lemma LowKept(s: seq<byte>, high: nat)
    requires Boundary(s) && HighSurrogate(high)
    ensures Kept(s, ParseLow(s, high))
  {
    hide ParseQuad, Boundary, Suffix, AfterSomeByte;
    WholeIsSuffix(s);
    if StartsWith(s, 0x5C) {
      TokenKept(s, s);
      var letter := s[1..];
      if StartsWith(letter, 0x75) {
        TokenKept(s, letter);
        assert letter[1..] == s[2..];
        QuadKept(s[2..], 4, 0);
        Later(s, s[2..], ParseQuad(s[2..], 4, 0));
      }
    }
  }

  lemma UnicodeKept(s: seq<byte>)
    requires Boundary(s)
    ensures Kept(s, ParseUnicodeEscape(s))
  {
    hide ParseQuad, ParseLow, QuadValue, Boundary, Suffix, AfterSomeByte;
    var quad := ParseQuad(s, 4, 0);
    QuadKept(s, 4, 0);
    if quad.Parsed? {
      var q := Soundness.QuadSound(s);
      if HighSurrogate(quad.value) {
        LowKept(quad.rest, quad.value);
        Later(s, quad.rest, ParseLow(quad.rest, quad.value));
      }
    }
  }

  lemma EscapeKept(s: seq<byte>)
    requires Boundary(s)
    ensures Kept(s, ParseEscape(s))
  {
    hide ParseUnicodeEscape, Boundary;
    if s != [] {
      if s[0] < 0x80 {
        AfterAscii(s);
      } else {
        AfterWide(s);
      }
      if s[0] == 0x75 {
        UnicodeKept(s[1..]);
        Later(s, s[1..], ParseUnicodeEscape(s[1..]));
      }
    }
  }

  /** One of the next `count` bytes should be a hexadecimal digit but begins a character that is not ASCII. */
  predicate SplitsQuad(s: seq<byte>, count: nat) {
    count > 0 && s != [] && (s[0] >= 0x80 || (IsHexDigit(s[0]) && SplitsQuad(s[1..], count - 1)))
  }

  /** The same for the digits of a `\u` escape, or of the second half of a surrogate pair. */
  predicate SplitsUnicode(s: seq<byte>) {
    SplitsQuad(s, 4)
    || (|s| >= 6 && IsQuad(s[..4]) && HighSurrogate(QuadValue(s[..4])) && s[4..6] == [0x5C, 0x75]
        && SplitsQuad(s[6..], 4))
  }

  /** What follows a backslash is no escape, because of a character that is not ASCII. */
  predicate SplitsEscape(s: seq<byte>) {
    s != [] && if s[0] == 0x75 then SplitsUnicode(s[1..]) else s[0] >= 0x80
  }

  lemma {:induction false} QuadSplits(s: seq<byte>, count: nat, value: nat)
    requires Boundary(s)
    ensures Boundary(ParseQuad(s, count, value).rest) <==> !SplitsQuad(s, count)
    ensures SplitsQuad(s, count) ==>
        ParseQuad(s, count, value).Failed? && ParseQuad(s, count, value).kind == InvalidHexDigit
    decreases count
  {
    hide Boundary;
    if count == 0 || s == [] {
    } else if s[0] >= 0x80 {
      AfterWide(s);
    } else {
      AfterAscii(s);
      if IsHexDigit(s[0]) {
        QuadSplits(s[1..], count - 1, value * 16 + HexDigit(s[0]));
      }
    }
  }

  lemma LowSplits(s: seq<byte>, high: nat)
    requires Boundary(s) && HighSurrogate(high)
    ensures Boundary(ParseLow(s, high).rest) <==> !(|s| >= 2 && s[..2] == [0x5C, 0x75] && SplitsQuad(s[2..], 4))
    ensures !Boundary(ParseLow(s, high).rest) ==> ParseLow(s, high).Failed? && ParseLow(s, high).kind == InvalidHexDigit
  {
    hide ParseQuad, SplitsQuad, Boundary;
    if StartsWith(s, 0x5C) {
      AfterAscii(s);
      if StartsWith(s[1..], 0x75) {
        AfterAscii(s[1..]);
        assert s[1..][1..] == s[2..];
        QuadSplits(s[2..], 4, 0);
      }
    }
  }

  lemma UnicodeSplits(s: seq<byte>)
    requires Boundary(s)
    ensures Boundary(ParseUnicodeEscape(s).rest) <==> !SplitsUnicode(s)
    ensures SplitsUnicode(s) ==> ParseUnicodeEscape(s).Failed? && ParseUnicodeEscape(s).kind == InvalidHexDigit
  {
    hide ParseQuad, ParseLow, SplitsQuad, QuadValue, Boundary;
    QuadSplits(s, 4, 0);
    var quad := ParseQuad(s, 4, 0);
    if quad.Parsed? {
      var q := Soundness.QuadSound(s);
      assert s[..4] == q && s[4..] == quad.rest;
      if HighSurrogate(quad.value) {
        LowSplits(quad.rest, quad.value);
        assert |s| >= 6 ==> s[4..6] == quad.rest[..2] && s[6..] == quad.rest[2..];
      }
    } else if |s| >= 6 && IsQuad(s[..4]) {
      assert s == s[..4] + s[4..];
      Completeness.QuadComplete(s[..4], s[4..]);
    }
  }

  /** The parser leaves an escape inside a character exactly when the bytes after the backslash split one. */
  lemma EscapeSplits(s: seq<byte>)
    requires Boundary(s)
    ensures Boundary(ParseEscape(s).rest) <==> !SplitsEscape(s)
    ensures SplitsEscape(s) ==> ParseEscape(s).Failed? && MaySplitCharacter(ParseEscape(s).kind)
  {
    hide ParseUnicodeEscape, SplitsUnicode, Boundary;
    if s != [] {
      if s[0] == 0x75 {
        AfterAscii(s);
        UnicodeSplits(s[1..]);
      } else if s[0] >= 0x80 {
        AfterWide(s);
      } else {
        AfterAscii(s);
      }
    }
  }

  lemma WideKept(s: seq<byte>)
    requires Boundary(s) && s != [] && s[0] >= 0x80
    ensures ParseWide(s).Parsed? && Boundary(ParseWide(s).rest) && Suffix(ParseWide(s).rest, s)
  {
    var bs := s[..Width(s[0])];
    assert bs[..Width(bs[0])] == bs && bs[Width(bs[0])..] == [];
    assert Decode([]).Some?;
  }

  lemma {:induction false} CharsKept(s: seq<byte>, output: string)
    requires Boundary(s)
    ensures Kept(s, ParseChars(s, output))
    decreases |s|
  {
    hide ParseEscape, ParseWide, Boundary, Suffix, AfterSomeByte;
    if s == [] {
      WholeIsSuffix(s);
    } else if s[0] == 0x5C {
      AfterAscii(s);
      var escape := ParseEscape(s[1..]);
      EscapeKept(s[1..]);
      Later(s, s[1..], escape);
      if escape.Parsed? {
        CharsKept(escape.rest, output + [escape.value]);
        Later(s, escape.rest, ParseChars(escape.rest, output + [escape.value]));
      }
    } else if s[0] < 0x80 {
      AfterAscii(s);
      if 0x20 <= s[0] && s[0] != 0x22 {
        CharsKept(s[1..], output + [s[0] as char]);
        Later(s, s[1..], ParseChars(s[1..], output + [s[0] as char]));
      }
    } else {
      var wide := ParseWide(s);
      WideKept(s);
      CharsKept(wide.rest, output + wide.value);
      Later(s, wide.rest, ParseChars(wide.rest, output + wide.value));
    }
  }

  lemma WholeIsSuffix(s: seq<byte>)
    ensures Suffix(s, s)
  {
  }

  lemma DropIsSuffix(s: seq<byte>, n: nat)
    requires n <= |s|
    ensures Suffix(s[n..], s)
  {
  }

  lemma StringKept(s: seq<byte>)
    requires Boundary(s)
    ensures Kept(s, ParseString(s))
  {
    hide ParseChars, Boundary, AfterSomeByte;
    if StartsWith(s, 0x22) {
      AfterAscii(s);
      CharsKept(s[1..], "");
      Later(s, s[1..], ParseChars(s[1..], ""));
    }
  }

  // Values

  lemma KeywordKept(s: seq<byte>, keyword: seq<byte>, value: JsonValue)
    requires Boundary(s) && keyword != []
    requires forall i | 0 <= i < |keyword| :: keyword[i] < 0x80
    ensures Kept(s, ParseKeyword(s, keyword, value))
  {
    hide Boundary, Suffix, AfterSomeByte;
    WholeIsSuffix(s);
    if keyword <= s {
      AfterKeyword(s, keyword);
      DropIsSuffix(s, |keyword|);
    }
  }

  /** The four punctuation bytes that may follow white space. */
  lemma TokenKept(s: seq<byte>, t: seq<byte>)
    requires Boundary(t) && Suffix(t, s) && t != [] && t[0] < 0x80
    ensures Boundary(t[1..]) && Suffix(t[1..], s)
  {
    hide Boundary;
    AfterAscii(t);
    SuffixLater(s, t, t[1..]);
  }

  lemma SpaceKept(s: seq<byte>, t: seq<byte>)
    requires Boundary(t) && Suffix(t, s)
    ensures Boundary(SkipSpace(t)) && Suffix(SkipSpace(t), s)
  {
    hide Boundary;
    SkipSpaceKept(t);
    SuffixLater(s, t, SkipSpace(t));
  }

  lemma {:induction false} ValueKept(s: seq<byte>)
    requires Boundary(s)
    ensures Kept(s, ParseValue(s))
    decreases |s|, 1
  {
    hide ParseString, ParseNumber, ParseKeyword, ParseArray, ParseObject, Boundary, Suffix, AfterSomeByte, SkipSpace,
        Kept;
    SkipSpaceKept(s);
    var token := SkipSpace(s);
    SpaceShortens(s);
    if token != [] {
      KeywordKept(token, [0x6E, 0x75, 0x6C, 0x6C], Null);
      KeywordKept(token, [0x74, 0x72, 0x75, 0x65], Bool(true));
      KeywordKept(token, [0x66, 0x61, 0x6C, 0x73, 0x65], Bool(false));
      StringKept(token);
      NumberKept(token);
      ArrayKept(token);
      ObjectKept(token);
    }
    TokenValueKept(s, token);
  }

  lemma SpaceShortens(s: seq<byte>)
    ensures |SkipSpace(s)| <= |s|
  {
  }

  /** A value is whatever its first byte announces. */
  lemma TokenValueKept(s: seq<byte>, token: seq<byte>)
    requires Boundary(token) && Suffix(token, s) && token == SkipSpace(s)
    requires token != [] ==>
               && Kept(token, ParseKeyword(token, [0x6E, 0x75, 0x6C, 0x6C], Null))
               && Kept(token, ParseKeyword(token, [0x74, 0x72, 0x75, 0x65], Bool(true)))
               && Kept(token, ParseKeyword(token, [0x66, 0x61, 0x6C, 0x73, 0x65], Bool(false)))
               && Kept(token, ParseString(token)) && Kept(token, ParseNumber(token))
               && Kept(token, ParseArray(token)) && Kept(token, ParseObject(token))
    ensures Kept(s, ParseValue(s))
  {
    hide ParseString, ParseNumber, ParseKeyword, ParseArray, ParseObject, Boundary, Suffix, AfterSomeByte, SkipSpace;
    WholeIsSuffix(token);
    assert Kept(token, ParseValue(s));
    Later(s, token, ParseValue(s));
  }

  lemma {:induction false} ArrayKept(s: seq<byte>)
    requires Boundary(s)
    ensures Kept(s, ParseArray(s))
    decreases |s|, 0
  {
    hide ParseItems, Boundary, Suffix, AfterSomeByte, SkipSpace;
    WholeIsSuffix(s);
    if StartsWith(s, 0x5B) {
      TokenKept(s, s);
      SpaceKept(s, s[1..]);
      var inside := SkipSpace(s[1..]);
      SpaceShortens(s[1..]);
      if StartsWith(inside, 0x5D) {
        TokenKept(s, inside);
      } else {
        ItemsKept(inside, []);
        Later(s, inside, ParseItems(inside, []));
      }
    }
  }

  lemma {:induction false} ObjectKept(s: seq<byte>)
    requires Boundary(s)
    ensures Kept(s, ParseObject(s))
    decreases |s|, 0
  {
    hide ParseMembers, Boundary, Suffix, AfterSomeByte, SkipSpace;
    WholeIsSuffix(s);
    if StartsWith(s, 0x7B) {
      TokenKept(s, s);
      SpaceKept(s, s[1..]);
      var inside := SkipSpace(s[1..]);
      SpaceShortens(s[1..]);
      if StartsWith(inside, 0x7D) {
        TokenKept(s, inside);
      } else {
        MembersKept(inside, map[]);
        Later(s, inside, ParseMembers(inside, map[]));
      }
    }
  }

  lemma {:induction false} ItemsKept(s: seq<byte>, values: seq<JsonValue>)
    requires Boundary(s)
    ensures Kept(s, ParseItems(s, values))
    decreases |s|, 2
  {
    hide ParseValue, Boundary, Suffix, AfterSomeByte, SkipSpace;
    var value := ParseValue(s);
    ValueKept(s);
    if value.Parsed? {
      SpaceKept(s, value.rest);
      var next := SkipSpace(value.rest);
      SpaceShortens(value.rest);
      if next != [] && next[0] < 0x80 {
        TokenKept(s, next);
        if next[0] == 0x2C {
          SpaceKept(s, next[1..]);
          var inside := SkipSpace(next[1..]);
          SpaceShortens(next[1..]);
          ItemsKept(inside, values + [value.value]);
          Later(s, inside, ParseItems(inside, values + [value.value]));
        }
      }
    }
  }

  lemma {:induction false} MemberKept(s: seq<byte>)
    requires Boundary(s)
    ensures Kept(s, ParseMember(s))
    decreases |s|, 2
  {
    hide ParseValue, ParseString, Boundary, Suffix, AfterSomeByte, SkipSpace;
    WholeIsSuffix(s);
    SpaceKept(s, s);
    var token := SkipSpace(s);
    SpaceShortens(s);
    var key := ParseString(token);
    StringKept(token);
    Later(s, token, key);
    if key.Parsed? {
      SpaceKept(s, key.rest);
      var colon := SkipSpace(key.rest);
      SpaceShortens(key.rest);
      if StartsWith(colon, 0x3A) {
        TokenKept(s, colon);
        SpaceKept(s, colon[1..]);
        var value := SkipSpace(colon[1..]);
        SpaceShortens(colon[1..]);
        ValueKept(value);
        Later(s, value, ParseValue(value));
      }
    }
  }

  lemma {:induction false} MembersKept(s: seq<byte>, members: map<string, JsonValue>)
    requires Boundary(s)
    ensures Kept(s, ParseMembers(s, members))
    decreases |s|, 3
  {
    hide ParseMember, Boundary, Suffix, AfterSomeByte, SkipSpace;
    var member := ParseMember(s);
    MemberKept(s);
    if member.Parsed? {
      SpaceKept(s, member.rest);
      var next := SkipSpace(member.rest);
      SpaceShortens(member.rest);
      if next != [] && next[0] < 0x80 {
        TokenKept(s, next);
        if next[0] == 0x2C {
          var extended := members[member.value.0 := member.value.1];
          MembersKept(next[1..], extended);
          Later(s, next[1..], ParseMembers(next[1..], extended));
        }
      }
    }
  }

  /**
   On any string the three failures cannot be reached, and the parser stops at a character
   boundary, except in one case: it has read, for an escape letter or a hexadecimal digit, the
   first byte of a character that is not ASCII.
   */
  lemma TextKept(text: string)
    ensures Kept(Encode(text), ParseText(Encode(text)))
  {
    hide ParseValue, Boundary, Suffix, AfterSomeByte, SkipSpace;
    var s := Encode(text);
    WholeIsBoundary(text);
    WholeIsSuffix(s);
    SpaceKept(s, s);
    var token := SkipSpace(s);
    var value := ParseValue(token);
    ValueKept(token);
    Later(s, token, value);
    if value.Parsed? {
      SpaceKept(s, value.rest);
    }
  }

  lemma WholeIsBoundary(text: string)
    ensures Boundary(Encode(text))
  {
    DecodeEncoded(text);
  }

  /**
   The exception does occur: in the text `"\é` the parser has read the first of the two bytes of
   the character after the backslash.
   */
  lemma FailureInsideCharacter()
    ensures ParseText(Encode("\"\\\U{E9}")) == Failed(InvalidEscape, [0xA9])
    ensures !Boundary([0xA9])
  {
    var s := "\"\\\U{E9}";
    assert s[1..] == "\\\U{E9}" && s[1..][1..] == "\U{E9}" && "\U{E9}"[1..] == "";
    assert Encode("") == [];
    assert Encode("\U{E9}") == [0xC3, 0xA9] + Encode("");
    assert Encode("\\\U{E9}") == [0x5C] + [0xC3, 0xA9];
    var bs: seq<byte> := [0x22, 0x5C, 0xC3, 0xA9];
    assert Encode(s) == [0x22] + ([0x5C] + [0xC3, 0xA9]) == bs;
    assert SkipSpace(bs) == bs;
    assert bs[1..] == [0x5C, 0xC3, 0xA9] && bs[1..][1..] == [0xC3, 0xA9] && bs[1..][1..][1..] == [0xA9];
    assert ParseChars(bs[1..], "") == Failed(InvalidEscape, [0xA9]);
  }
}

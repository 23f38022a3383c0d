/**
 The texts that the JSON parser refuses: which failure it reports, and where, by the way the text is
 spelled up to there. What has been read is given by parse trees of the grammar.
 */
module JsonFailures {
  import opened Prelude
  import opened Utf8
  import opened JsonValues
  import opened JsonGrammar
  import opened JsonParsing
  import Completeness = JsonCompleteness
  import Soundness = JsonSoundness

  // Escapes

  /** Fewer than four hexadecimal digits, and then the end or a byte that is none, which is consumed. */
  ghost predicate QuadBreaks(s: seq<byte>, rest: seq<byte>) {
    exists ds: seq<byte> ::
      && |ds| < 4 && (forall d | d in ds :: IsHexDigit(d))
      && ((s == ds && rest == []) || exists b: byte :: !IsHexDigit(b) && s == ds + ([b] + rest))
  }

  /** What is wrong with the bytes behind a backslash. */
  ghost predicate EscapeBreaks(s: seq<byte>, kind: ErrorKind, rest: seq<byte>) {
    || (s == [] && kind == UnterminatedEscape && rest == [])
    || (exists letter: byte :: letter != 0x75 && ShortEscape(letter).None? && s == [letter] + rest
                               && kind == InvalidEscape)
    || (exists quad: seq<byte> :: s == [0x75] + quad && QuadBreaks(quad, rest) && kind == InvalidHexDigit)
    || (exists quad: seq<byte> :: IsQuad(quad) && LowSurrogate(QuadValue(quad)) && s == [0x75] + (quad + rest)
                       && kind == UnexpectedLowSurrogate)
    || (exists high: seq<byte>, t: seq<byte> :: IsQuad(high) && HighSurrogate(QuadValue(high))
                                                && s == [0x75] + (high + t) && LowBreaks(t, kind, rest))
  }

  /** What is wrong with the bytes behind the first half of a surrogate pair. */
  ghost predicate LowBreaks(s: seq<byte>, kind: ErrorKind, rest: seq<byte>) {
    || (!StartsWith(s, 0x5C) && s == rest && kind == Expected(0x5C))
    || (s == [0x5C] + rest && !StartsWith(rest, 0x75) && kind == Expected(0x75))
    || (exists quad: seq<byte> :: s == [0x5C, 0x75] + quad && QuadBreaks(quad, rest) && kind == InvalidHexDigit)
    || (exists quad: seq<byte> :: IsQuad(quad) && !LowSurrogate(QuadValue(quad)) && s == [0x5C, 0x75] + (quad + rest)
                       && kind == InvalidLowSurrogate)
  }

  lemma {:induction false} QuadBreaksFound(s: seq<byte>, count: nat, value: nat) returns (ds: seq<byte>)
    requires ParseQuad(s, count, value).Failed?
    ensures var r := ParseQuad(s, count, value);
            && r.kind == InvalidHexDigit && |ds| < count && (forall d | d in ds :: IsHexDigit(d))
            && ((s == ds && r.rest == []) || exists b: byte :: !IsHexDigit(b) && s == ds + ([b] + r.rest))
    decreases count
  {
    hide IsHexDigit, HexDigit;
    if s == [] || !IsHexDigit(s[0]) {
      ds := [];
      assert s != [] ==> s == [] + ([s[0]] + s[1..]);
    } else {
      var others := QuadBreaksFound(s[1..], count - 1, value * 16 + HexDigit(s[0]));
      ds := [s[0]] + others;
      var rest := ParseQuad(s, count, value).rest;
      if s[1..] != others {
        var b: byte :| !IsHexDigit(b) && s[1..] == others + ([b] + rest);
        assert s == ds + ([b] + rest);
      }
    }
  }

  lemma {:induction false} QuadFails(ds: seq<byte>, tail: seq<byte>, count: nat, value: nat)
    requires |ds| < count && (forall d | d in ds :: IsHexDigit(d)) && (tail == [] || !IsHexDigit(tail[0]))
    ensures ParseQuad(ds + tail, count, value) == Failed(InvalidHexDigit, if tail == [] then [] else tail[1..])
  {
    if ds == [] {
      assert ds + tail == tail;
    } else {
      assert (ds + tail)[1..] == ds[1..] + tail;
      QuadFails(ds[1..], tail, count - 1, value * 16 + HexDigit(ds[0]));
    }
  }

  lemma QuadExactly(s: seq<byte>, kind: ErrorKind, rest: seq<byte>)
    ensures ParseQuad(s, 4, 0) == Failed(kind, rest) <==> QuadBreaks(s, rest) && kind == InvalidHexDigit
  {
    hide ParseQuad, IsHexDigit;
    if ParseQuad(s, 4, 0) == Failed(kind, rest) {
      var ds := QuadBreaksFound(s, 4, 0);
    }
    if QuadBreaks(s, rest) {
      var ds: seq<byte> :|
        && |ds| < 4 && (forall d | d in ds :: IsHexDigit(d))
        && ((s == ds && rest == []) || exists b: byte :: !IsHexDigit(b) && s == ds + ([b] + rest));
      if s == ds && rest == [] {
        assert ds + [] == s;
        QuadFails(ds, [], 4, 0);
      } else {
        var b: byte :| !IsHexDigit(b) && s == ds + ([b] + rest);
        QuadFails(ds, [b] + rest, 4, 0);
        assert ([b] + rest)[1..] == rest;
      }
    }
  }

  lemma QuadReads(s: seq<byte>, rest: seq<byte>)
    ensures forall v :: ParseQuad(s, 4, 0) == Parsed(v, rest) <==>
                        exists quad :: IsQuad(quad) && s == quad + rest && QuadValue(quad) == v
  {
    hide ParseQuad, QuadValue;
    if ParseQuad(s, 4, 0).Parsed? {
      var quad := Soundness.QuadSound(s);
    }
    forall quad | IsQuad(quad) && s == quad + rest
      ensures ParseQuad(s, 4, 0) == Parsed(QuadValue(quad), rest)
    {
      Completeness.QuadComplete(quad, rest);
    }
  }

  /** The four ways to fail behind the first half of a pair, by what has been read. */
  lemma LowFails(s: seq<byte>, high: nat, kind: ErrorKind, rest: seq<byte>)
    requires HighSurrogate(high) && LowBreaks(s, kind, rest)
    ensures ParseLow(s, high) == Failed(kind, rest)
  {
    hide ParseQuad, QuadValue, IsQuad, QuadBreaks;
    if s == [0x5C] + rest && !StartsWith(rest, 0x75) && kind == Expected(0x75) {
      assert s[1..] == rest;
    } else if quad: seq<byte> :| s == [0x5C, 0x75] + quad && QuadBreaks(quad, rest) && kind == InvalidHexDigit {
      Escaped(s, quad);
      QuadExactly(quad, kind, rest);
    } else if quad: seq<byte> :| IsQuad(quad) && !LowSurrogate(QuadValue(quad)) && s == [0x5C, 0x75] + (quad + rest)
                                 && kind == InvalidLowSurrogate {
      Escaped(s, quad + rest);
      Completeness.QuadComplete(quad, rest);
    }
  }

  lemma Escaped(s: seq<byte>, t: seq<byte>)
    requires s == [0x5C, 0x75] + t
    ensures s[1..] == [0x75] + t && s[2..] == t && StartsWith(s, 0x5C) && StartsWith(s[1..], 0x75)
  {
  }

  lemma LowExactly(s: seq<byte>, high: nat, kind: ErrorKind, rest: seq<byte>)
    requires HighSurrogate(high)
    ensures ParseLow(s, high) == Failed(kind, rest) <==> LowBreaks(s, kind, rest)
  {
    hide ParseQuad, QuadValue, IsQuad, QuadBreaks;
    if ParseLow(s, high) == Failed(kind, rest) && StartsWith(s, 0x5C) {
      assert s == [0x5C] + s[1..];
      if StartsWith(s[1..], 0x75) {
        var t := s[2..];
        assert s == [0x5C, 0x75] + t;
        QuadExactly(t, kind, rest);
        if ParseQuad(t, 4, 0).Parsed? {
          var quad := Soundness.QuadSound(t);
          assert s == [0x5C, 0x75] + (quad + rest);
        }
      }
    }
    if LowBreaks(s, kind, rest) {
      LowFails(s, high, kind, rest);
    }
  }

  lemma EscapeFails(s: seq<byte>, kind: ErrorKind, rest: seq<byte>)
    requires EscapeBreaks(s, kind, rest)
    ensures ParseEscape(s) == Failed(kind, rest)
  {
    hide ParseQuad, QuadValue, IsQuad, QuadBreaks, ParseLow, LowBreaks;
    if letter: byte :| letter != 0x75 && ShortEscape(letter).None? && s == [letter] + rest && kind == InvalidEscape {
      assert s[1..] == rest;
    } else if quad: seq<byte> :| s == [0x75] + quad && QuadBreaks(quad, rest) && kind == InvalidHexDigit {
      assert s[1..] == quad;
      QuadExactly(quad, kind, rest);
    } else if quad: seq<byte> :| IsQuad(quad) && LowSurrogate(QuadValue(quad)) && s == [0x75] + (quad + rest)
                                 && kind == UnexpectedLowSurrogate {
      assert s[1..] == quad + rest;
      Completeness.QuadComplete(quad, rest);
    } else if high: seq<byte>, t: seq<byte> :| IsQuad(high) && HighSurrogate(QuadValue(high))
                                               && s == [0x75] + (high + t) && LowBreaks(t, kind, rest) {
      assert s[1..] == high + t;
      Completeness.QuadComplete(high, t);
      LowFails(t, QuadValue(high), kind, rest);
    }
  }

  /** An escape fails exactly as it is spelled. */
  lemma EscapeExactly(s: seq<byte>, kind: ErrorKind, rest: seq<byte>)
    ensures ParseEscape(s) == Failed(kind, rest) <==> EscapeBreaks(s, kind, rest)
  {
    hide ParseQuad, QuadValue, IsQuad, QuadBreaks, ParseLow, LowBreaks;
    if ParseEscape(s) == Failed(kind, rest) && s != [] {
      assert s == [s[0]] + s[1..];
      if s[0] == 0x75 {
        var t := s[1..];
        QuadExactly(t, kind, rest);
        if ParseQuad(t, 4, 0).Parsed? {
          var quad := Soundness.QuadSound(t);
          var r := ParseQuad(t, 4, 0).rest;
          assert s == [0x75] + (quad + r);
          if HighSurrogate(QuadValue(quad)) {
            LowExactly(r, QuadValue(quad), kind, rest);
          }
        }
      }
    }
    if EscapeBreaks(s, kind, rest) {
      EscapeFails(s, kind, rest);
    }
  }

  // Strings

  /** Pieces without a closing quotation mark. */
  function OpenBytes(ps: seq<Piece>): seq<byte> {
    if ps == [] then [] else PieceBytes(ps[0]) + OpenBytes(ps[1..])
  }

  /** What is wrong with the next byte of a string. */
  ghost predicate CharBreaks(s: seq<byte>, kind: ErrorKind, rest: seq<byte>) {
    || (s == [] && kind == UnterminatedString && rest == [])
    || (exists b: byte :: b < 0x20 && s == [b] + rest && kind == ControlByte)
    || (exists escape: seq<byte> :: s == [0x5C] + escape && EscapeBreaks(escape, kind, rest))
    || (exists b: byte :: b >= 0x80 && s == [b] + rest && kind == InvalidUtf8InString
                          && forall c: char, t: seq<byte> :: s != EncodeChar(c) + t)
  }

  /** Pieces of a string, and then something wrong. */
  ghost predicate CharsBreak(s: seq<byte>, kind: ErrorKind, rest: seq<byte>) {
    exists ps: seq<Piece>, t: seq<byte> :: ArePieces(ps) && s == OpenBytes(ps) + t && CharBreaks(t, kind, rest)
  }

  lemma WideFails(s: seq<byte>)
    requires s != [] && s[0] >= 0x80
    ensures ParseWide(s).Failed? <==> forall c: char, t: seq<byte> :: s != EncodeChar(c) + t
    ensures ParseWide(s).Failed? ==> ParseWide(s) == Failed(InvalidUtf8InString, s[1..])
  {
    if ParseWide(s).Parsed? {
      var p := Soundness.WideSound(s);
    }
    forall c: char, t: seq<byte> | s == EncodeChar(c) + t
      ensures ParseWide(s).Parsed?
    {
      WideReads(c, t);
    }
  }

  lemma WideReads(c: char, t: seq<byte>)
    requires c as int >= 0x80
    ensures var s := EncodeChar(c) + t; s[0] >= 0x80 && ParseWide(s).Parsed?
  {
    var bs := EncodeChar(c);
    var s := bs + t;
    assert s[..|bs|] == bs && s[0] == bs[0];
    DecodeEncodedChar(c);
    DecodeEncoded([c]);
    assert Encode([c]) == bs + [] == bs;
  }

  lemma CharFails(s: seq<byte>, output: string, kind: ErrorKind, rest: seq<byte>)
    requires CharBreaks(s, kind, rest)
    ensures ParseChars(s, output) == Failed(kind, rest)
  {
    hide ParseEscape, EscapeBreaks, EncodeChar, ParseWide;
    if b: byte :| b < 0x20 && s == [b] + rest && kind == ControlByte {
      assert s[1..] == rest;
    } else if escape: seq<byte> :| s == [0x5C] + escape && EscapeBreaks(escape, kind, rest) {
      assert s[1..] == escape;
      EscapeFails(escape, kind, rest);
    } else if b: byte :| b >= 0x80 && s == [b] + rest && kind == InvalidUtf8InString
                         && forall c: char, t: seq<byte> :: s != EncodeChar(c) + t {
      assert s[1..] == rest;
      WideFails(s);
    }
  }

  lemma Associates<T>(a: seq<T>, b: seq<T>, c: seq<T>)
    ensures (a + b) + c == a + (b + c)
  {
  }

  lemma OpenSplit(ps: seq<Piece>, t: seq<byte>, output: string)
    requires ps != [] && ArePieces(ps)
    ensures OpenBytes(ps) + t == PieceBytes(ps[0]) + (OpenBytes(ps[1..]) + t)
    ensures output + [PieceChar(ps[0])] + PiecesString(ps[1..]) == output + PiecesString(ps)
  {
    hide PieceBytes, PieceChar, IsPiece;
    Associates(PieceBytes(ps[0]), OpenBytes(ps[1..]), t);
    Associates(output, [PieceChar(ps[0])], PiecesString(ps[1..]));
  }

  lemma {:induction false} OpenRead(ps: seq<Piece>, t: seq<byte>, output: string)
    requires ArePieces(ps)
    ensures ParseChars(OpenBytes(ps) + t, output) == ParseChars(t, output + PiecesString(ps))
  {
    hide ParseChars, PieceBytes, PieceChar, IsPiece;
    if ps == [] {
      assert OpenBytes(ps) + t == t && output + PiecesString(ps) == output;
    } else {
      hide OpenBytes, PiecesString;
      OpenSplit(ps, t, output);
      Completeness.PieceComplete(ps[0], OpenBytes(ps[1..]) + t, output);
      OpenRead(ps[1..], t, output + [PieceChar(ps[0])]);
    }
  }

  lemma {:induction false} CharsBreakFound(s: seq<byte>, output: string) returns (ps: seq<Piece>, t: seq<byte>)
    requires ParseChars(s, output).Failed?
    ensures ArePieces(ps) && s == OpenBytes(ps) + t
    ensures CharBreaks(t, ParseChars(s, output).kind, ParseChars(s, output).rest)
    decreases |s|
  {
    hide ParseEscape, ParseWide, PieceBytes, EncodeChar, IsPiece, EscapeBreaks, CharBreaks;
    if s == [] {
      ps, t := [], s;
      CharEnds(s, output);
    } else if s[0] == 0x5C && ParseEscape(s[1..]).Parsed? {
      var p := Soundness.EscapeSound(s[1..]);
      var after := ParseEscape(s[1..]).rest;
      var others;
      assert s == [0x5C] + s[1..];
      others, t := CharsBreakFound(after, output + [PieceChar(p)]);
      ps := OpenInFront(p, others, s, after, t);
    } else if 0x20 <= s[0] < 0x80 && s[0] != 0x22 && s[0] != 0x5C {
      Soundness.AsciiPiece(s[0]);
      var p := Raw(s[0] as char);
      var others;
      others, t := CharsBreakFound(s[1..], output + [s[0] as char]);
      assert s == [s[0]] + s[1..];
      ps := OpenInFront(p, others, s, s[1..], t);
    } else if s[0] >= 0x80 && ParseWide(s).Parsed? {
      var p := Soundness.WideSound(s);
      var after := ParseWide(s).rest;
      var others;
      others, t := CharsBreakFound(after, output + [PieceChar(p)]);
      ps := OpenInFront(p, others, s, after, t);
    } else {
      ps, t := [], s;
      CharEnds(s, output);
    }
  }

  lemma OpenInFront(p: Piece, others: seq<Piece>, s: seq<byte>, after: seq<byte>, t: seq<byte>)
      returns (ps: seq<Piece>)
    requires IsPiece(p) && ArePieces(others) && s == PieceBytes(p) + after && after == OpenBytes(others) + t
    ensures ps == [p] + others && ArePieces(ps) && s == OpenBytes(ps) + t
  {
    hide IsPiece, PieceBytes;
    ps := [p] + others;
    assert ps[1..] == others;
  }

  /** When the string fails at its next byte. */
  lemma CharEnds(s: seq<byte>, output: string)
    requires ParseChars(s, output).Failed?
    requires s != [] && s[0] == 0x5C ==> ParseEscape(s[1..]).Failed?
    requires s != [] && s[0] >= 0x80 ==> ParseWide(s).Failed?
    requires s != [] ==> s[0] < 0x20 || s[0] == 0x5C || s[0] >= 0x80
    ensures CharBreaks(s, ParseChars(s, output).kind, ParseChars(s, output).rest)
  {
    hide ParseEscape, ParseWide, EncodeChar, EscapeBreaks;
    if s != [] {
      assert s == [s[0]] + s[1..];
      if s[0] == 0x5C {
        var r := ParseEscape(s[1..]);
        EscapeExactly(s[1..], r.kind, r.rest);
      } else if s[0] >= 0x80 {
        WideFails(s);
      }
    }
  }

  /** A string fails exactly as it is spelled, behind its opening quotation mark. */
  lemma CharsExactly(s: seq<byte>, output: string, kind: ErrorKind, rest: seq<byte>)
    ensures ParseChars(s, output) == Failed(kind, rest) <==> CharsBreak(s, kind, rest)
  {
    hide ParseChars, CharBreaks, ArePieces;
    if ParseChars(s, output) == Failed(kind, rest) {
      var ps, t := CharsBreakFound(s, output);
    }
    if CharsBreak(s, kind, rest) {
      var ps: seq<Piece>, t: seq<byte> :| ArePieces(ps) && s == OpenBytes(ps) + t && CharBreaks(t, kind, rest);
      OpenRead(ps, t, output);
      CharFails(t, output + PiecesString(ps), kind, rest);
    }
  }

  // Numbers

  predicate NoDigitNext(rest: seq<byte>) {
    rest == [] || !IsDigit(rest[0])
  }

  /** What is wrong with a number, behind its minus sign if it has one. */
  ghost predicate NumberBreaks(s: seq<byte>, kind: ErrorKind, rest: seq<byte>) {
    || (s == rest && NoDigitNext(rest) && kind == InvalidNumber)
    || (s == [0x30] + rest && !NoDigitNext(rest) && kind == LeadingZero)
    || (exists i: seq<byte> :: IsInteger(i) && s == i + ([0x2E] + rest) && NoDigitNext(rest)
                               && kind == FractionWithoutDigits)
    || (exists i: seq<byte>, f: seq<byte>, tail: seq<byte> :: IsInteger(i) && IsFraction(f) && s == i + (f + tail)
                               && ExponentBreaks(tail, rest) && kind == ExponentWithoutDigits)
  }

  /** The letter of an exponent, a sign if there is one, and then no digit. */
  ghost predicate ExponentBreaks(s: seq<byte>, rest: seq<byte>): (r: bool)
    ensures r ==> s != [] && s[0] in {0x65, 0x45}
  {
    exists e: byte, sign: seq<byte> ::
      && e in {0x65, 0x45} && s == [e] + (sign + rest) && NoDigitNext(rest)
      && ((sign == [] && (rest == [] || !IsSign(rest[0]))) || (|sign| == 1 && IsSign(sign[0])))
  }

  /** Where a number ends: what follows cannot continue it. */
  predicate EndsAfter(n: NumberText, rest: seq<byte>) {
    rest != [] ==>
      && (rest[0] == 0x2E ==> n.fraction != [] || n.exponent != [])
      && (rest[0] in {0x65, 0x45} ==> n.exponent != [])
      && !IsDigit(rest[0])
  }

  function AfterMinus(s: seq<byte>): seq<byte> {
    if StartsWith(s, 0x2D) then s[1..] else s
  }

  lemma NoDigitsSkipped(s: seq<byte>)
    ensures SkipDigits(s) == s <==> NoDigitNext(s)
    ensures NoDigitNext(SkipDigits(s))
  {
    if s != [] && IsDigit(s[0]) {
      assert |SkipDigits(s[1..])| < |s|;
    }
  }

  lemma IntegerReads(i: seq<byte>, s: seq<byte>)
    requires IsInteger(i) && NoDigitNext(s)
    ensures ParseInteger(i + s) == Parsed((), s)
  {
    Completeness.IntegerComplete(i, s);
  }

  lemma FractionReads(f: seq<byte>, s: seq<byte>)
    requires IsFraction(f) && NoDigitNext(s) && (f == [] ==> !StartsWith(s, 0x2E))
    ensures ParseFraction(f + s) == Parsed((), s)
  {
    if f == [] {
      assert f + s == s;
    } else {
      assert (f + s)[1..] == f[1..] + s;
      Completeness.DigitsAreSkipped(f[1..], s);
      NoDigitsSkipped(f[1..] + s);
    }
  }

  lemma ExponentReads(e: seq<byte>, s: seq<byte>)
    requires IsExponent(e) && NoDigitNext(s) && (e == [] ==> !(s != [] && s[0] in {0x65, 0x45}))
    ensures ParseExponent(e + s) == Parsed((), s)
  {
    if e == [] {
      assert e + s == s;
    } else {
      assert (e + s)[1..] == e[1..] + s;
      if Digits(e[1..]) {
        assert !IsSign((e[1..] + s)[0]);
        Completeness.DigitsAreSkipped(e[1..], s);
        NoDigitsSkipped(e[1..] + s);
      } else {
        assert (e[1..] + s)[1..] == e[2..] + s;
        Completeness.DigitsAreSkipped(e[2..], s);
        NoDigitsSkipped(e[2..] + s);
      }
    }
  }

  lemma FractionFails(i: seq<byte>, rest: seq<byte>)
    requires IsInteger(i) && NoDigitNext(rest)
    ensures ParseInteger(i + ([0x2E] + rest)) == Parsed((), [0x2E] + rest)
    ensures ParseFraction([0x2E] + rest) == Failed(FractionWithoutDigits, rest)
  {
    IntegerReads(i, [0x2E] + rest);
    assert ([0x2E] + rest)[1..] == rest;
    NoDigitsSkipped(rest);
  }

  lemma ExponentFails(s: seq<byte>, rest: seq<byte>)
    requires ExponentBreaks(s, rest)
    ensures ParseExponent(s) == Failed(ExponentWithoutDigits, rest)
  {
    hide SkipDigits;
    var e: byte, sign: seq<byte> :|
      && e in {0x65, 0x45} && s == [e] + (sign + rest) && NoDigitNext(rest)
      && ((sign == [] && (rest == [] || !IsSign(rest[0]))) || (|sign| == 1 && IsSign(sign[0])));
    assert s[1..] == sign + rest;
    assert sign != [] ==> (sign + rest)[1..] == rest;
    assert sign == [] ==> sign + rest == rest;
    NoDigitsSkipped(rest);
  }

  /** The three parts of a number that can fail. */
  lemma NumberStops(s: seq<byte>, kind: ErrorKind, rest: seq<byte>)
    requires var i := ParseInteger(AfterMinus(s));
             || i == Failed(kind, rest)
             || (i.Parsed? && var f := ParseFraction(i.rest);
                              || f == Failed(kind, rest)
                              || (f.Parsed? && ParseExponent(f.rest) == Failed(kind, rest)))
    ensures ParseNumber(s) == Failed(kind, rest)
  {
    hide ParseExponent, ParseFraction, ParseInteger;
  }

  lemma IntegerFails(t: seq<byte>, kind: ErrorKind, rest: seq<byte>)
    requires || (t == rest && NoDigitNext(rest) && kind == InvalidNumber)
             || (t == [0x30] + rest && !NoDigitNext(rest) && kind == LeadingZero)
    ensures ParseInteger(t) == Failed(kind, rest)
  {
    if t != rest {
      assert t[1..] == rest;
    }
  }

  /** An integer, a fraction, and an exponent that breaks. */
  lemma ExponentReached(i: seq<byte>, f: seq<byte>, tail: seq<byte>)
    requires IsInteger(i) && IsFraction(f) && tail != [] && tail[0] in {0x65, 0x45}
    ensures ParseInteger(i + (f + tail)) == Parsed((), f + tail) && ParseFraction(f + tail) == Parsed((), tail)
  {
    hide ParseFraction, ParseInteger, IsInteger, IsFraction;
    FractionNotDigit(f, tail);
    IntegerReads(i, f + tail);
    FractionReads(f, tail);
  }

  lemma NumberFails(s: seq<byte>, kind: ErrorKind, rest: seq<byte>)
    requires NumberBreaks(AfterMinus(s), kind, rest)
    ensures ParseNumber(s) == Failed(kind, rest)
  {
    hide ParseExponent, ParseFraction, ParseInteger, ParseNumber, IsInteger, IsFraction, AfterMinus, NoDigitNext,
        ExponentBreaks;
    var t := AfterMinus(s);
    if i: seq<byte> :| IsInteger(i) && t == i + ([0x2E] + rest) && NoDigitNext(rest) && kind == FractionWithoutDigits {
      FractionFails(i, rest);
    } else if i: seq<byte>, f: seq<byte>, tail: seq<byte> :| IsInteger(i) && IsFraction(f) && t == i + (f + tail)
                                                             && ExponentBreaks(tail, rest)
                                                             && kind == ExponentWithoutDigits {
      ExponentReached(i, f, tail);
      ExponentFails(tail, rest);
    } else {
      IntegerFails(t, kind, rest);
    }
    NumberStops(s, kind, rest);
  }

  lemma FractionNotDigit(f: seq<byte>, tail: seq<byte>)
    requires IsFraction(f) && NoDigitNext(tail)
    ensures NoDigitNext(f + tail)
  {
  }

  lemma FractionBreakFound(i: seq<byte>, s: seq<byte>)
    requires IsInteger(i) && ParseFraction(s).Failed?
    ensures ParseFraction(s).kind == FractionWithoutDigits && NoDigitNext(ParseFraction(s).rest)
    ensures i + s == i + ([0x2E] + ParseFraction(s).rest)
  {
    assert s == [0x2E] + s[1..];
    NoDigitsSkipped(s[1..]);
  }

  lemma ExponentBreakFound(s: seq<byte>)
    requires ParseExponent(s).Failed?
    ensures ParseExponent(s).kind == ExponentWithoutDigits && ExponentBreaks(s, ParseExponent(s).rest)
  {
    hide SkipDigits;
    var e, signed := s[0], s[1..];
    assert s == [e] + signed;
    if signed != [] && IsSign(signed[0]) {
      var sign := [signed[0]];
      assert signed == sign + signed[1..];
      NoDigitsSkipped(signed[1..]);
    } else {
      assert signed == [] + signed;
      NoDigitsSkipped(signed);
    }
  }

  lemma NumberBreakFound(s: seq<byte>)
    requires ParseNumber(s).Failed?
    ensures NumberBreaks(AfterMinus(s), ParseNumber(s).kind, ParseNumber(s).rest)
  {
    hide ParseExponent, ParseFraction, ParseNumber, IsInteger, IsFraction, ExponentBreaks;
    NumberFailsEarly(s);
    var t := AfterMinus(s);
    if ParseInteger(t).Failed? {
      assert t != [] ==> t == [t[0]] + t[1..];
    } else {
      var i := Soundness.IntegerSound(t);
      var afterInteger := ParseInteger(t).rest;
      if ParseFraction(afterInteger).Failed? {
        FractionBreakFound(i, afterInteger);
      } else {
        var f := Soundness.FractionSound(afterInteger);
        ExponentBreakFound(ParseFraction(afterInteger).rest);
      }
    }
  }

  /** The text of a number can always be decoded. */
  lemma NumberFailsEarly(s: seq<byte>)
    requires ParseNumber(s).Failed?
    ensures ParseNumberEnd(s).Failed? && ParseNumber(s) == Failed(ParseNumberEnd(s).kind, ParseNumberEnd(s).rest)
  {
    if ParseNumberEnd(s).Parsed? {
      var n := Soundness.NumberSound(s);
    }
  }

  lemma NumberFailsExactly(s: seq<byte>, kind: ErrorKind, rest: seq<byte>)
    ensures ParseNumber(s) == Failed(kind, rest) <==> NumberBreaks(AfterMinus(s), kind, rest)
  {
    hide ParseNumber, NumberBreaks, AfterMinus;
    if ParseNumber(s) == Failed(kind, rest) {
      NumberBreakFound(s);
    }
    if NumberBreaks(AfterMinus(s), kind, rest) {
      NumberFails(s, kind, rest);
    }
  }

  lemma NumberEndReads(n: NumberText, rest: seq<byte>)
    requires IsNumber(n) && EndsAfter(n, rest)
    ensures ParseNumberEnd(NumberBytes(n) + rest) == Parsed((), rest)
  {
    hide ParseExponent, ParseFraction, ParseInteger, IsInteger, IsFraction, IsExponent, EndsAfter;
    var afterFraction := n.exponent + rest;
    var afterInteger := n.fraction + afterFraction;
    Completeness.AppendInside(if n.minus then [0x2D] else [], n.integer, n.fraction, n.exponent, rest);
    Completeness.MinusComplete(n.minus, n.integer, afterInteger);
    PartsApart(n, rest);
    IntegerReads(n.integer, afterInteger);
    FractionReads(n.fraction, afterFraction);
    ExponentReads(n.exponent, rest);
  }

  lemma NumberReads(n: NumberText, rest: seq<byte>)
    requires IsNumber(n) && EndsAfter(n, rest)
    ensures ParseNumber(NumberBytes(n) + rest) == Parsed((NumberIsAscii(n); AsciiString(NumberBytes(n))), rest)
  {
    hide ParseNumberEnd, NumberBytes, IsNumber, EndsAfter;
    var bs := NumberBytes(n);
    var s := bs + rest;
    NumberEndReads(n, rest);
    NumberIsAscii(n);
    Completeness.AsciiDecodes(bs);
    assert s[..|s| - |rest|] == bs;
  }

  lemma PartsApart(n: NumberText, rest: seq<byte>)
    requires IsNumber(n) && EndsAfter(n, rest)
    ensures NoDigitNext(n.fraction + (n.exponent + rest)) && NoDigitNext(n.exponent + rest) && NoDigitNext(rest)
    ensures n.fraction == [] ==> !StartsWith(n.exponent + rest, 0x2E)
    ensures n.exponent == [] ==> !(rest != [] && rest[0] in {0x65, 0x45})
  {
    assert n.exponent == [] ==> n.exponent + rest == rest;
    assert n.fraction == [] ==> n.fraction + (n.exponent + rest) == n.exponent + rest;
  }

  lemma IntegerEnds(s: seq<byte>)
    requires ParseInteger(s).Parsed?
    ensures NoDigitNext(ParseInteger(s).rest)
  {
    if StartsWith(s, 0x30) {
      assert s[1..] != [] ==> s[1..][0] == s[1];
    }
  }

  lemma FractionEnds(s: seq<byte>) returns (f: seq<byte>)
    requires ParseFraction(s).Parsed? && NoDigitNext(s)
    ensures var rest := ParseFraction(s).rest;
            && IsFraction(f) && s == f + rest && NoDigitNext(rest) && (f == [] ==> !StartsWith(rest, 0x2E))
  {
    f := Soundness.FractionSound(s);
    if StartsWith(s, 0x2E) {
      NoDigitsSkipped(s[1..]);
    }
  }

  lemma ExponentEnds(s: seq<byte>) returns (e: seq<byte>)
    requires ParseExponent(s).Parsed? && NoDigitNext(s)
    ensures var rest := ParseExponent(s).rest;
            && IsExponent(e) && s == e + rest && NoDigitNext(rest)
            && (e == [] ==> rest == s && !(rest != [] && rest[0] in {0x65, 0x45}))
  {
    e := Soundness.ExponentSound(s);
  }

  lemma NumberEndRead(s: seq<byte>) returns (n: NumberText)
    requires ParseNumberEnd(s).Parsed?
    ensures IsNumber(n) && s == NumberBytes(n) + ParseNumberEnd(s).rest && EndsAfter(n, ParseNumberEnd(s).rest)
  {
    hide ParseInteger, ParseFraction, ParseExponent, IsInteger, IsFraction, IsExponent;
    var minus, start := StartsWith(s, 0x2D), AfterMinus(s);
    var i := Soundness.IntegerSound(start);
    IntegerEnds(start);
    var afterInteger := ParseInteger(start).rest;
    var f := FractionEnds(afterInteger);
    var afterFraction := ParseFraction(afterInteger).rest;
    var e := ExponentEnds(afterFraction);
    n := NumberText(minus, i, f, e);
    Completeness.AppendInside(if minus then [0x2D] else [], i, f, e, ParseExponent(afterFraction).rest);
    assert s == (if minus then [0x2D] else []) + start;
  }

  lemma NumberRead(s: seq<byte>) returns (n: NumberText)
    requires ParseNumber(s).Parsed?
    ensures IsNumber(n) && s == NumberBytes(n) + ParseNumber(s).rest && EndsAfter(n, ParseNumber(s).rest)
    ensures ParseNumber(s).value == (NumberIsAscii(n); AsciiString(NumberBytes(n)))
  {
    hide ParseNumberEnd, NumberBytes, IsNumber, EndsAfter;
    n := NumberEndRead(s);
    var m := Soundness.NumberSound(s);
    NumberIsAscii(n);
    assert NumberBytes(n) == s[..|s| - |ParseNumber(s).rest|] == NumberBytes(m);
  }

  // Values

  /** What follows the value cannot continue it. */
  predicate Ends(t: Tree, rest: seq<byte>) {
    t.NumberTree? ==> EndsAfter(t.number, rest)
  }

  /** White space, a value of the grammar, and then `rest`. */
  ghost predicate Reads(s: seq<byte>, v: JsonValue, rest: seq<byte>): (r: bool)
    ensures r ==> |rest| < |s|
  {
    exists ws: seq<byte>, t: Tree ::
      && AllSpace(ws) && WellFormed(t) && DistinctKeys(t) && Ends(t, rest)
      && s == ws + (Bytes(t) + rest) && Denote(t) == v
  }

  lemma OtherValueReads(t: Tree, rest: seq<byte>)
    requires WellFormed(t) && DistinctKeys(t) && !t.NumberTree?
    ensures ParseValue(Bytes(t) + rest) == Parsed(Denote(t), rest)
  {
    hide ParseValue, ParseItems, ParseMembers, SkipSpace, DenoteItems, DenoteMembers, ItemsBytes, MembersBytes,
        WellFormedItems, WellFormedMembers, DistinctKeysItems, DistinctKeysMembers;
    match t
    case EmptyArray(ws) =>
      assert Bytes(t) + rest == [0x5B] + (ws + ([0x5D] + rest));
      Completeness.TokenAfterSpace(ws, 0x5D, rest);
      Completeness.ArrayOpens(ws + ([0x5D] + rest));
    case EmptyObject(ws) =>
      assert Bytes(t) + rest == [0x7B] + (ws + ([0x7D] + rest));
      Completeness.TokenAfterSpace(ws, 0x7D, rest);
      Completeness.ObjectOpens(ws + ([0x7D] + rest));
    case ArrayTree(items) =>
      assert Bytes(t) + rest == [0x5B] + (ItemsBytes(items) + rest);
      Completeness.ArrayOpens(ItemsBytes(items) + rest);
      Completeness.ItemsStart(items, rest, []);
      Completeness.ItemsComplete(items, rest, []);
      assert [] + DenoteItems(items) == DenoteItems(items);
    case ObjectTree(members) =>
      assert Bytes(t) + rest == [0x7B] + (MembersBytes(members) + rest);
      Completeness.ObjectOpens(MembersBytes(members) + rest);
      Completeness.MembersStart(members, rest, map[]);
      Completeness.MembersComplete(members, rest, map[]);
      assert map[] + DenoteMembers(members) == DenoteMembers(members);
    case _ =>
      ScalarReads(t, rest);
  }

  lemma ScalarReads(t: Tree, rest: seq<byte>)
    requires WellFormed(t) && (t.NullTree? || t.BoolTree? || t.StringTree?)
    ensures ParseValue(Bytes(t) + rest) == Parsed(Denote(t), rest)
  {
    hide ParseNumber, ParseChars, PiecesBytes, PiecesString, NumberBytes, IsNumber;
    var s := Bytes(t) + rest;
    Completeness.FirstByte(t);
    assert SkipSpace(s) == s;
    assert s[|Bytes(t)|..] == rest && s[..|Bytes(t)|] == Bytes(t);
    if t.StringTree? {
      assert s == [0x22] + (PiecesBytes(t.pieces) + rest);
      Completeness.StringComplete(t.pieces, rest);
    }
  }

  lemma NumberValueReads(n: NumberText, rest: seq<byte>)
    requires IsNumber(n) && EndsAfter(n, rest)
    ensures ParseValue(Bytes(NumberTree(n)) + rest) == Parsed(Denote(NumberTree(n)), rest)
  {
    hide ParseNumber, NumberBytes, IsNumber, ParseChars;
    var s := NumberBytes(n) + rest;
    Completeness.NumberFirstByte(n);
    assert SkipSpace(s) == s;
    NumberReads(n, rest);
  }

  lemma NumberValue(s: seq<byte>, ws: seq<byte>, n: NumberText, rest: seq<byte>)
    requires AllSpace(ws) && IsNumber(n) && s == ws + (NumberBytes(n) + rest) && ParseValue(s).Parsed?
    ensures var token := NumberBytes(n) + rest;
            && ParseNumber(token).Parsed?
            && ParseValue(s) == Parsed(Number(ParseNumber(token).value), ParseNumber(token).rest)
  {
    hide ParseNumber, NumberBytes, IsNumber, ParseChars;
    Completeness.ValueSkipsSpace(ws, NumberBytes(n) + rest);
    Completeness.NumberFirstByte(n);
    assert SkipSpace(NumberBytes(n) + rest) == NumberBytes(n) + rest;
  }

  lemma ValueRead(s: seq<byte>)
    requires ParseValue(s).Parsed?
    ensures Reads(s, ParseValue(s).value, ParseValue(s).rest)
  {
    hide ParseValue, ParseNumber, NumberBytes, EndsAfter, IsNumber;
    var ws, t := Soundness.ValueSound(s);
    if t.NumberTree? {
      var token := NumberBytes(t.number) + ParseValue(s).rest;
      NumberValue(s, ws, t.number, ParseValue(s).rest);
      var n := NumberRead(token);
      t := NumberTree(n);
    }
    assert Ends(t, ParseValue(s).rest);
  }

  /** A value is read exactly where its text ends. */
  lemma ValueReadsExactly(s: seq<byte>, v: JsonValue, rest: seq<byte>)
    ensures ParseValue(s) == Parsed(v, rest) <==> Reads(s, v, rest)
  {
    hide ParseValue, WellFormed, DistinctKeys, Bytes, Denote, EndsAfter;
    if ParseValue(s) == Parsed(v, rest) {
      ValueRead(s);
    }
    if Reads(s, v, rest) {
      var ws: seq<byte>, t: Tree :|
        && AllSpace(ws) && WellFormed(t) && DistinctKeys(t) && Ends(t, rest)
        && s == ws + (Bytes(t) + rest) && Denote(t) == v;
      Completeness.ValueSkipsSpace(ws, Bytes(t) + rest);
      if t.NumberTree? {
        NumberIsWellFormed(t);
        NumberValueReads(t.number, rest);
      } else {
        OtherValueReads(t, rest);
      }
    }
  }

  lemma NumberIsWellFormed(t: Tree)
    requires WellFormed(t) && t.NumberTree?
    ensures IsNumber(t.number)
  {
  }

  // Refused values

  function Keyword(first: byte): seq<byte> {
    if first == 0x6E then [0x6E, 0x75, 0x6C, 0x6C]
    else if first == 0x74 then [0x74, 0x72, 0x75, 0x65]
    else [0x66, 0x61, 0x6C, 0x73, 0x65]
  }

  ghost predicate ValueBreaks(s: seq<byte>, kind: ErrorKind, rest: seq<byte>)
    decreases |s|, 1
  {
    TokenBreaks(SkipSpace(s), kind, rest)
  }

  /** What is wrong with a value, by its first byte. */
  ghost predicate TokenBreaks(t: seq<byte>, kind: ErrorKind, rest: seq<byte>)
    decreases |t|, 0
  {
    if t == [] then rest == [] && kind == UnexpectedEnd
    else if t[0] in {0x6E, 0x74, 0x66} then !(Keyword(t[0]) <= t) && rest == t && kind == InvalidKeyword
    else if t[0] == 0x22 then CharsBreak(t[1..], kind, rest)
    else if t[0] == 0x2D || IsDigit(t[0]) then NumberBreaks(AfterMinus(t), kind, rest)
    else if t[0] == 0x5B then !StartsWith(SkipSpace(t[1..]), 0x5D) && ItemsBreak(t[1..], kind, rest)
    else if t[0] == 0x7B then !StartsWith(SkipSpace(t[1..]), 0x7D) && MembersBreak(t[1..], {}, kind, rest)
    else rest == t && kind == UnexpectedToken
  }

  /** Values with commas between them, and then something wrong. */
  ghost predicate ItemsBreak(s: seq<byte>, kind: ErrorKind, rest: seq<byte>)
    decreases |s|, 2
  {
    || ValueBreaks(s, kind, rest)
    || exists v, after :: Reads(s, v, after) &&
         var next := SkipSpace(after);
         if StartsWith(next, 0x2C) then ItemsBreak(next[1..], kind, rest)
         else !StartsWith(next, 0x5D) && rest == next && kind == Expected(0x2C)
  }

  /** The rest of a key with its closing quotation mark, and then `rest`. */
  ghost predicate KeyReads(s: seq<byte>, key: string, rest: seq<byte>): (r: bool)
    ensures r ==> |rest| < |s|
  {
    exists ps: seq<Piece> :: ArePieces(ps) && s == PiecesBytes(ps) + rest && PiecesString(ps) == key
  }

  /** Members with commas between them, all with new keys, and then something wrong. */
  ghost predicate MembersBreak(s: seq<byte>, keys: set<string>, kind: ErrorKind, rest: seq<byte>)
    decreases |s|, 3
  {
    var t := SkipSpace(s);
    if !StartsWith(t, 0x22) then rest == t && kind == Expected(0x22)
    else
      || CharsBreak(t[1..], kind, rest)
      || exists key, after :: KeyReads(t[1..], key, after) && AfterKeyBreaks(SkipSpace(after), key, keys, kind, rest)
  }

  ghost predicate AfterKeyBreaks(t: seq<byte>, key: string, keys: set<string>, kind: ErrorKind, rest: seq<byte>)
    decreases |t|, 4
  {
    if !StartsWith(t, 0x3A) then rest == t && kind == Expected(0x3A)
    else
      || ValueBreaks(t[1..], kind, rest)
      || exists v, after :: Reads(t[1..], v, after) &&
           var next := SkipSpace(after);
           if key in keys then rest == after && kind == DuplicateKey(key)
           else if StartsWith(next, 0x2C) then MembersBreak(next[1..], keys + {key}, kind, rest)
           else !StartsWith(next, 0x7D) && rest == next && kind == Expected(0x2C)
  }

  /** What is wrong with a text: its value, or what follows that. */
  ghost predicate TextBreaks(bs: seq<byte>, kind: ErrorKind, rest: seq<byte>) {
    || ValueBreaks(bs, kind, rest)
    || exists v, after :: Reads(bs, v, after) && rest == SkipSpace(after) && rest != [] && kind == TrailingContent
  }

  lemma SkippedTwice(s: seq<byte>)
    ensures SkipSpace(SkipSpace(s)) == SkipSpace(s) && |SkipSpace(s)| <= |s|
    ensures ParseValue(SkipSpace(s)) == ParseValue(s)
    ensures forall values :: ParseItems(SkipSpace(s), values) == ParseItems(s, values)
    ensures forall members :: ParseMembers(SkipSpace(s), members) == ParseMembers(s, members)
  {
    hide ParseString, ParseArray, ParseObject, ParseNumber, ParseKeyword;
  }

  lemma StringFailsExactly(t: seq<byte>, kind: ErrorKind, rest: seq<byte>)
    requires StartsWith(t, 0x22)
    ensures ParseString(t) == Failed(kind, rest) <==> CharsBreak(t[1..], kind, rest)
  {
    hide CharsBreak, ParseChars;
    CharsExactly(t[1..], "", kind, rest);
  }

  lemma {:induction false} ValueFailsExactly(s: seq<byte>, kind: ErrorKind, rest: seq<byte>)
    ensures ParseValue(s) == Failed(kind, rest) <==> ValueBreaks(s, kind, rest)
    decreases |s|, 1
  {
    hide ParseValue, TokenBreaks, SkipSpace;
    SkippedTwice(s);
    TokenFailsExactly(SkipSpace(s), kind, rest);
  }

  lemma {:induction false} TokenFailsExactly(t: seq<byte>, kind: ErrorKind, rest: seq<byte>)
    requires SkipSpace(t) == t
    ensures ParseValue(t) == Failed(kind, rest) <==> TokenBreaks(t, kind, rest)
    decreases |t|, 0
  {
    hide ParseString, ParseNumber, ParseItems, ParseMembers, CharsBreak, NumberBreaks, ItemsBreak, MembersBreak,
        AfterMinus, SkipSpace;
    if t != [] && t[0] == 0x22 {
      StringFailsExactly(t, kind, rest);
    } else if t != [] && (t[0] == 0x2D || IsDigit(t[0])) {
      NumberFailsExactly(t, kind, rest);
    } else if t != [] && t[0] == 0x5B {
      SkippedTwice(t[1..]);
      ItemsFailExactly(t[1..], [], kind, rest);
    } else if t != [] && t[0] == 0x7B {
      SkippedTwice(t[1..]);
      var none: map<string, JsonValue> := map[];
      assert none.Keys == {};
      MembersFailExactly(t[1..], none, kind, rest);
    }
  }

  lemma {:induction false} ItemsFailExactly(s: seq<byte>, values: seq<JsonValue>, kind: ErrorKind, rest: seq<byte>)
    ensures ParseItems(s, values) == Failed(kind, rest) <==> ItemsBreak(s, kind, rest)
    decreases |s|, 2
  {
    hide ParseValue, SkipSpace, Reads, ValueBreaks;
    ValueFailsExactly(s, kind, rest);
    ReadsOnce(s);
    if ParseValue(s).Parsed? {
      var v, after := ParseValue(s).value, ParseValue(s).rest;
      var next := SkipSpace(after);
      SkippedTwice(after);
      if StartsWith(next, 0x2C) {
        SkippedTwice(next[1..]);
        ItemsFailExactly(next[1..], values + [v], kind, rest);
      }
    }
  }

  lemma ReadsOnce(s: seq<byte>)
    ensures forall v, after :: Reads(s, v, after) <==> ParseValue(s) == Parsed(v, after)
  {
    hide ParseValue, Reads;
    forall v, after
      ensures Reads(s, v, after) <==> ParseValue(s) == Parsed(v, after)
    {
      ValueReadsExactly(s, v, after);
    }
  }

  /** What the parser does behind a key. */
  ghost function AfterKey(t: seq<byte>, key: string, members: map<string, JsonValue>): Parsed<JsonValue> {
    if !StartsWith(t, 0x3A) then Failed(Expected(0x3A), t)
    else
      match ParseValue(t[1..])
      case Failed(kind, rest) => Failed(kind, rest)
      case Parsed(value, rest) =>
        var next := SkipSpace(rest);
        if key in members then Failed(DuplicateKey(key), rest)
        else if StartsWith(next, 0x7D) then Parsed(Object(members[key := value]), next[1..])
        else if StartsWith(next, 0x2C) then ParseMembers(next[1..], members[key := value])
        else Failed(Expected(0x2C), next)
  }

  lemma MembersByKey(s: seq<byte>, members: map<string, JsonValue>)
    ensures var key := ParseString(SkipSpace(s));
            ParseMembers(s, members) == if key.Failed? then Failed(key.kind, key.rest)
                                        else AfterKey(SkipSpace(key.rest), key.value, members)
  {
    hide ParseString, ParseValue, SkipSpace;
    if ParseString(SkipSpace(s)).Parsed? {
      var colon := SkipSpace(ParseString(SkipSpace(s)).rest);
      if StartsWith(colon, 0x3A) {
        SkippedTwice(colon[1..]);
      }
    }
  }

  lemma KeyReadsOnce(t: seq<byte>)
    requires StartsWith(t, 0x22)
    ensures forall key, after :: KeyReads(t[1..], key, after) <==> ParseString(t) == Parsed(key, after)
  {
    hide ParseString, PiecesBytes, PiecesString, ArePieces;
    assert t == [0x22] + t[1..];
    if ParseString(t).Parsed? {
      var ps := Soundness.StringSound(t);
      assert t[1..] == PiecesBytes(ps) + ParseString(t).rest;
    }
    forall key, after | KeyReads(t[1..], key, after)
      ensures ParseString(t) == Parsed(key, after)
    {
      var ps: seq<Piece> :| ArePieces(ps) && t[1..] == PiecesBytes(ps) + after && PiecesString(ps) == key;
      Completeness.StringComplete(ps, after);
    }
  }

  lemma {:induction false} MembersFailExactly(s: seq<byte>, members: map<string, JsonValue>,
                                              kind: ErrorKind, rest: seq<byte>)
    ensures ParseMembers(s, members) == Failed(kind, rest) <==> MembersBreak(s, members.Keys, kind, rest)
    decreases |s|, 3
  {
    hide ParseMembers, ParseString, SkipSpace, CharsBreak, AfterKeyBreaks, AfterKey, KeyReads;
    MembersByKey(s, members);
    var t := SkipSpace(s);
    SkippedTwice(s);
    if StartsWith(t, 0x22) {
      StringFailsExactly(t, kind, rest);
      KeyReadsOnce(t);
      if ParseString(t).Parsed? {
        var key, after := ParseString(t).value, ParseString(t).rest;
        SkippedTwice(after);
        AfterKeyFailsExactly(SkipSpace(after), key, members, kind, rest);
      }
    } else {
      NoKey(t);
    }
  }

  lemma NoKey(t: seq<byte>)
    requires !StartsWith(t, 0x22)
    ensures ParseString(t) == Failed(Expected(0x22), t)
  {
  }

  lemma {:induction false} AfterKeyFailsExactly(t: seq<byte>, key: string, members: map<string, JsonValue>,
                                                kind: ErrorKind, rest: seq<byte>)
    ensures AfterKey(t, key, members) == Failed(kind, rest) <==> AfterKeyBreaks(t, key, members.Keys, kind, rest)
    decreases |t|, 4
  {
    hide ParseValue, SkipSpace, Reads, ValueBreaks, ParseMembers, MembersBreak;
    if StartsWith(t, 0x3A) {
      var s := t[1..];
      ValueFailsExactly(s, kind, rest);
      ReadsOnce(s);
      if ParseValue(s).Parsed? && key !in members {
        var v, after := ParseValue(s).value, ParseValue(s).rest;
        var next := SkipSpace(after);
        SkippedTwice(after);
        if StartsWith(next, 0x2C) {
          assert members[key := v].Keys == members.Keys + {key};
          MembersFailExactly(next[1..], members[key := v], kind, rest);
        }
      }
    }
  }

  /** A text is refused with one failure at one place, given by how it is spelled. */
  lemma TextFailsExactly(bs: seq<byte>, kind: ErrorKind, rest: seq<byte>)
    ensures ParseText(bs) == Failed(kind, rest) <==> TextBreaks(bs, kind, rest)
  {
    hide ParseValue, SkipSpace, Reads, ValueBreaks;
    SkippedTwice(bs);
    ValueFailsExactly(bs, kind, rest);
    ReadsOnce(bs);
  }
}

/**
 Where the parser stops inside an escape: at the backslash that ends a text which the parser reads
 to its end. So the exact condition for a position inside a character can be stated on the text.
 */
module JsonStops {
  import opened Prelude
  import opened Utf8
  import opened JsonValues
  import opened JsonGrammar
  import opened JsonParsing
  import opened JsonBoundaries
  import Completeness = JsonCompleteness
  import Soundness = JsonSoundness

  /** The parser has read everything, and the last byte was the backslash of an escape. */
  predicate EndsInEscape<T>(r: Parsed<T>) {
    r.Failed? && r.kind == UnterminatedEscape && r.rest == []
  }

  /** The failure is one of the two that can leave the parser inside a character. */
  predicate FailsInEscape<T>(r: Parsed<T>) {
    r.Failed? && MaySplitCharacter(r.kind)
  }

  predicate SameFailure<T, U>(r: Parsed<T>, q: Parsed<U>) {
    r.Failed? && q.Failed? && r.kind == q.kind && r.rest == q.rest
  }

  /** The escape after the backslash at `i` fails as `r` does. */
  predicate StopsAt<T>(s: seq<byte>, i: nat, r: Parsed<T>) {
    i < |s| && s[i] == 0x5C && SameFailure(ParseEscape(s[i + 1..]), r)
  }

  predicate EndsWithBackslash(p: seq<byte>) {
    p != [] && p[|p| - 1] == 0x5C
  }

  /** A stop in `t` is a stop behind any bytes before it. */
  lemma StopsLater<T>(before: seq<byte>, t: seq<byte>, k: nat, r: Parsed<T>)
    requires StopsAt(t, k, r)
    ensures StopsAt(before + t, |before| + k, r)
    ensures (before + t)[..|before| + k + 1] == before + t[..k + 1]
    ensures t[..k + 1] != [] && t[..k + 1][0] == t[0]
  {
    assert (before + t)[|before| + k + 1..] == t[k + 1..];
  }

  // Strings

  /** The first character of a string that goes on after it. */
  lemma FirstPiece(s: seq<byte>) returns (p: Piece, after: seq<byte>)
    requires s != [] && s[0] >= 0x20 && s[0] != 0x22
    requires s[0] == 0x5C ==> ParseEscape(s[1..]).Parsed?
    requires s[0] >= 0x80 ==> ParseWide(s).Parsed?
    ensures IsPiece(p) && s == PieceBytes(p) + after
  {
    hide ParseEscape, ParseWide;
    if s[0] == 0x5C {
      p := Soundness.EscapeSound(s[1..]);
      after := ParseEscape(s[1..]).rest;
      assert s == [0x5C] + s[1..];
    } else if s[0] < 0x80 {
      p, after := Raw(s[0] as char), s[1..];
      Soundness.AsciiPiece(s[0]);
    } else {
      p := Soundness.WideSound(s);
      after := ParseWide(s).rest;
    }
  }

  lemma WideKind(s: seq<byte>)
    requires s != []
    ensures s[0] >= 0x80 && ParseWide(s).Failed? ==> ParseWide(s).kind == InvalidUtf8InString
  {
    hide Decode;
  }

  lemma {:induction false} CharsStop(s: seq<byte>, output: string) returns (i: nat)
    requires FailsInEscape(ParseChars(s, output))
    ensures StopsAt(s, i, ParseChars(s, output)) && EndsInEscape(ParseChars(s[..i + 1], output))
    decreases |s|
  {
    hide ParseEscape, ParseWide, PieceBytes, PieceChar, IsPiece;
    if s[0] == 0x5C && ParseEscape(s[1..]).Failed? {
      i := 0;
      BackslashOnly(s[..1], output);
    } else {
      WideKind(s);
      var p, after := FirstPiece(s);
      Completeness.PieceComplete(p, after, output);
      var k := CharsStop(after, output + [PieceChar(p)]);
      i := |PieceBytes(p)| + k;
      StopsLater(PieceBytes(p), after, k, ParseChars(s, output));
      Completeness.PieceComplete(p, after[..k + 1], output);
    }
  }

  lemma BackslashOnly(s: seq<byte>, output: string)
    requires s == [0x5C]
    ensures EndsInEscape(ParseChars(s, output))
  {
    assert s[1..] == [];
  }

  /** A backslash is the only escape that fails for want of a byte. */
  lemma EscapeUnterminated(s: seq<byte>)
    requires ParseEscape(s).Failed? && ParseEscape(s).kind == UnterminatedEscape
    ensures s == []
  {
    hide ParseQuad;
    if s != [] && s[0] == 0x75 {
      QuadKind(s[1..], 4, 0);
      if ParseQuad(s[1..], 4, 0).Parsed? {
        var rest := ParseQuad(s[1..], 4, 0).rest;
        if |rest| >= 2 {
          QuadKind(rest[2..], 4, 0);
        }
      }
    }
  }

  lemma {:induction false} QuadKind(s: seq<byte>, count: nat, value: nat)
    ensures ParseQuad(s, count, value).Failed? ==> ParseQuad(s, count, value).kind == InvalidHexDigit
    decreases count
  {
    if count > 0 && s != [] && IsHexDigit(s[0]) {
      QuadKind(s[1..], count - 1, value * 16 + HexDigit(s[0]));
    }
  }

  lemma {:induction false} CharsReach(p: seq<byte>, q: seq<byte>, output: string)
    requires EndsInEscape(ParseChars(p, output)) && ParseEscape(q).Failed?
    ensures EndsWithBackslash(p) && SameFailure(ParseChars(p + q, output), ParseEscape(q))
    decreases |p|
  {
    hide ParseEscape, ParseWide, PieceBytes, PieceChar, IsPiece;
    if p[0] == 0x5C && ParseEscape(p[1..]).Failed? {
      EscapeUnterminated(p[1..]);
      assert p == [0x5C] && (p + q)[1..] == q;
    } else {
      WideKind(p);
      var piece, after := FirstPiece(p);
      Completeness.PieceComplete(piece, after, output);
      CharsReach(after, q, output + [PieceChar(piece)]);
      Completeness.PieceComplete(piece, after + q, output);
      assert p + q == PieceBytes(piece) + (after + q);
    }
  }

  lemma StringStop(s: seq<byte>) returns (i: nat)
    requires FailsInEscape(ParseString(s))
    ensures StopsAt(s, i, ParseString(s)) && EndsInEscape(ParseString(s[..i + 1]))
  {
    hide ParseChars;
    var k := CharsStop(s[1..], "");
    i := k + 1;
    assert s == [0x22] + s[1..];
    StopsLater([0x22], s[1..], k, ParseString(s));
    assert s[..i + 1][1..] == s[1..][..k + 1];
  }

  lemma StringReach(p: seq<byte>, q: seq<byte>)
    requires EndsInEscape(ParseString(p)) && ParseEscape(q).Failed?
    ensures EndsWithBackslash(p) && SameFailure(ParseString(p + q), ParseEscape(q))
  {
    hide ParseChars, ParseEscape;
    CharsReach(p[1..], q, "");
    assert (p + q)[1..] == p[1..] + q;
  }

  // Values, by their first byte

  lemma NumberKind(s: seq<byte>)
    ensures !FailsInEscape(ParseNumber(s)) && !EndsInEscape(ParseNumber(s))
  {
    hide SkipDigits, Decode;
  }

  /** Only strings, arrays and objects hold escapes. */
  lemma ValueByFirst(s: seq<byte>)
    requires s != [] && !IsSpace(s[0])
    ensures s[0] == 0x22 ==> (ParseValue(s).Failed? <==> ParseString(s).Failed?)
    ensures s[0] == 0x22 && ParseValue(s).Failed? ==> SameFailure(ParseValue(s), ParseString(s))
    ensures s[0] == 0x5B ==> ParseValue(s) == ParseArray(s)
    ensures s[0] == 0x7B ==> ParseValue(s) == ParseObject(s)
    ensures s[0] !in {0x22, 0x5B, 0x7B} ==> !FailsInEscape(ParseValue(s)) && !EndsInEscape(ParseValue(s))
  {
    hide ParseNumber, ParseString, ParseArray, ParseObject;
    NumberKind(s);
  }

  lemma ValueAtEnd(s: seq<byte>)
    requires SkipSpace(s) == []
    ensures !FailsInEscape(ParseValue(s)) && !EndsInEscape(ParseValue(s))
  {
  }

  lemma {:induction false} ValueStop(s: seq<byte>) returns (i: nat)
    requires FailsInEscape(ParseValue(s))
    ensures StopsAt(s, i, ParseValue(s)) && EndsInEscape(ParseValue(s[..i + 1]))
    decreases |s|, 1
  {
    hide ParseValue, ParseString, ParseArray, ParseObject, SkipSpace, ParseEscape;
    var ws := Soundness.SpaceSound(s);
    var token := SkipSpace(s);
    Soundness.SpaceLength(s);
    TokenFirst(s);
    if token == [] {
      ValueAtEnd(s);
    } else {
      Completeness.ValueSkipsSpace(ws, token);
      ValueByFirst(token);
      var k;
      if token[0] == 0x22 {
        k := StringStop(token);
      } else if token[0] == 0x5B {
        k := ArrayStop(token);
      } else {
        k := ObjectStop(token);
      }
      i := |ws| + k;
      StopsLater(ws, token, k, ParseValue(s));
      ValueByFirst(token[..k + 1]);
      Completeness.ValueSkipsSpace(ws, token[..k + 1]);
    }
  }

  lemma TokenFirst(s: seq<byte>)
    ensures SkipSpace(s) != [] ==> !IsSpace(SkipSpace(s)[0])
  {
  }

  lemma {:induction false} ValueReach(p: seq<byte>, q: seq<byte>)
    requires EndsInEscape(ParseValue(p)) && ParseEscape(q).Failed?
    ensures EndsWithBackslash(p) && SameFailure(ParseValue(p + q), ParseEscape(q))
    decreases |p|, 1
  {
    hide ParseValue, ParseString, ParseArray, ParseObject, SkipSpace, ParseEscape;
    var ws := Soundness.SpaceSound(p);
    var token := SkipSpace(p);
    Soundness.SpaceLength(p);
    TokenFirst(p);
    if token == [] {
      ValueAtEnd(p);
    } else {
      Completeness.ValueSkipsSpace(ws, token);
      ValueByFirst(token);
      if token[0] == 0x22 {
        StringReach(token, q);
      } else if token[0] == 0x5B {
        ArrayReach(token, q);
      } else {
        ObjectReach(token, q);
      }
      ValueByFirst(token + q);
      Completeness.ValueSkipsSpace(ws, token + q);
      assert p + q == ws + (token + q);
    }
  }

  // Arrays

  lemma ArrayInside(ws: seq<byte>, t: seq<byte>)
    requires AllSpace(ws) && t != [] && !IsSpace(t[0]) && t[0] != 0x5D
    ensures ParseArray([0x5B] + (ws + t)) == ParseItems(t, [])
  {
    hide ParseItems, SkipSpace;
    SpaceThenToken(ws, t);
    assert ([0x5B] + (ws + t))[1..] == ws + t;
  }

  lemma SpaceThenToken(ws: seq<byte>, t: seq<byte>)
    requires AllSpace(ws) && t != [] && !IsSpace(t[0])
    ensures SkipSpace(ws + t) == t
  {
    Completeness.TokenAfterSpace(ws, t[0], t[1..]);
    assert t == [t[0]] + t[1..];
  }

  lemma {:induction false} ArrayStop(s: seq<byte>) returns (i: nat)
    requires FailsInEscape(ParseArray(s))
    ensures StopsAt(s, i, ParseArray(s)) && EndsInEscape(ParseArray(s[..i + 1]))
    decreases |s|, 0
  {
    hide ParseItems, SkipSpace, ParseEscape, IsSpace;
    var ws := Soundness.SpaceSound(s[1..]);
    var inside := SkipSpace(s[1..]);
    Soundness.SpaceLength(s[1..]);
    TokenFirst(s[1..]);
    var k := ItemsStop(inside, []);
    i := 1 + |ws| + k;
    assert s == [0x5B] + ws + inside;
    StopsLater([0x5B] + ws, inside, k, ParseArray(s));
    ArrayInside(ws, inside[..k + 1]);
    assert [0x5B] + ws + inside[..k + 1] == [0x5B] + (ws + inside[..k + 1]);
  }

  lemma {:induction false} ArrayReach(p: seq<byte>, q: seq<byte>)
    requires EndsInEscape(ParseArray(p)) && ParseEscape(q).Failed?
    ensures EndsWithBackslash(p) && SameFailure(ParseArray(p + q), ParseEscape(q))
    decreases |p|, 0
  {
    hide ParseItems, SkipSpace, ParseEscape, IsSpace;
    var ws := Soundness.SpaceSound(p[1..]);
    var inside := SkipSpace(p[1..]);
    Soundness.SpaceLength(p[1..]);
    TokenFirst(p[1..]);
    ItemsReach(inside, q, []);
    ArrayInside(ws, inside + q);
    assert p == [0x5B] + (ws + inside) && p + q == [0x5B] + (ws + (inside + q));
  }

  /** One item, its comma and the white space around it are read before whatever follows. */
  lemma ItemRead(before: seq<byte>, t: Tree, ws: seq<byte>, space: seq<byte>, x: seq<byte>, values: seq<JsonValue>)
    requires AllSpace(before) && WellFormed(t) && DistinctKeys(t) && AllSpace(ws) && AllSpace(space)
    requires x != [] && !IsSpace(x[0])
    ensures ParseItems(before + (Bytes(t) + (ws + ([0x2C] + (space + x)))), values)
        == ParseItems(x, values + [Denote(t)])
  {
    hide ParseValue, SkipSpace, Bytes, Denote, WellFormed, DistinctKeys, Completeness.EndsNumber;
    var tail := ws + ([0x2C] + (space + x));
    Completeness.ValueSkipsSpace(before, Bytes(t) + tail);
    Completeness.TailEndsNumber(ws, 0x2C, space + x);
    Completeness.ValueComplete(t, tail);
    Completeness.TokenAfterSpace(ws, 0x2C, space + x);
    SpaceThenToken(space, x);
  }

  lemma ItemsFail(s: seq<byte>, values: seq<JsonValue>)
    requires ParseValue(s).Failed?
    ensures SameFailure(ParseItems(s, values), ParseValue(s))
  {
    hide ParseValue;
  }

  /** An array that fails behind its first value: the value, and the rest of the items. */
  lemma FirstItem(s: seq<byte>, values: seq<JsonValue>)
      returns (before: seq<byte>, t: Tree, ws: seq<byte>, space: seq<byte>, inside: seq<byte>)
    requires ParseValue(s).Parsed? && (FailsInEscape(ParseItems(s, values)) || EndsInEscape(ParseItems(s, values)))
    ensures AllSpace(before) && WellFormed(t) && DistinctKeys(t) && AllSpace(ws) && AllSpace(space)
    ensures s == before + (Bytes(t) + (ws + ([0x2C] + (space + inside))))
    ensures inside != [] && !IsSpace(inside[0]) && |inside| < |s|
    ensures ParseItems(s, values) == ParseItems(inside, values + [Denote(t)])
  {
    hide ParseValue, SkipSpace, Bytes, Denote, WellFormed, DistinctKeys;
    before, t := Soundness.ValueSound(s);
    var rest := ParseValue(s).rest;
    ws := Soundness.SpaceSound(rest);
    var next := SkipSpace(rest);
    Soundness.SpaceLength(rest);
    ValueShortens(s);
    space := Soundness.SpaceSound(next[1..]);
    inside := SkipSpace(next[1..]);
    Soundness.SpaceLength(next[1..]);
    TokenFirst(next[1..]);
    assert next == [0x2C] + (space + inside);
    if inside == [] {
      ItemsAtEnd(values + [Denote(t)]);
    }
  }

  lemma ValueShortens(s: seq<byte>)
    ensures ParseValue(s).Parsed? ==> |ParseValue(s).rest| < |s|
  {
    hide ParseString, ParseNumber, ParseArray, ParseObject;
  }

  lemma ItemsAtEnd(values: seq<JsonValue>)
    ensures !FailsInEscape(ParseItems([], values)) && !EndsInEscape(ParseItems([], values))
  {
    hide ParseValue;
    ValueAtEnd([]);
    NothingToRead();
  }

  lemma NothingToRead()
    ensures ParseValue([]) == Failed(UnexpectedEnd, [])
  {
  }

  lemma {:induction false} ItemsStop(s: seq<byte>, values: seq<JsonValue>) returns (i: nat)
    requires FailsInEscape(ParseItems(s, values))
    ensures StopsAt(s, i, ParseItems(s, values)) && EndsInEscape(ParseItems(s[..i + 1], values))
    decreases |s|, 2
  {
    hide ParseValue, ParseItems, ParseEscape, Bytes, Denote, WellFormed, DistinctKeys, IsSpace;
    if ParseValue(s).Failed? {
      ItemsFail(s, values);
      i := ValueStop(s);
      ItemsFail(s[..i + 1], values);
    } else {
      var before, t, ws, space, inside := FirstItem(s, values);
      var k := ItemsStop(inside, values + [Denote(t)]);
      var read := before + (Bytes(t) + (ws + ([0x2C] + space)));
      ItemText(before, Bytes(t), ws, space, inside);
      i := |read| + k;
      StopsLater(read, inside, k, ParseItems(s, values));
      ItemRead(before, t, ws, space, inside[..k + 1], values);
      ItemText(before, Bytes(t), ws, space, inside[..k + 1]);
    }
  }

  lemma ItemText(a: seq<byte>, b: seq<byte>, c: seq<byte>, d: seq<byte>, x: seq<byte>)
    ensures a + (b + (c + ([0x2C] + (d + x)))) == a + (b + (c + ([0x2C] + d))) + x
  {
  }

  lemma {:induction false} ItemsReach(p: seq<byte>, q: seq<byte>, values: seq<JsonValue>)
    requires EndsInEscape(ParseItems(p, values)) && ParseEscape(q).Failed?
    ensures EndsWithBackslash(p) && SameFailure(ParseItems(p + q, values), ParseEscape(q))
    ensures p != []
    decreases |p|, 2
  {
    hide ParseValue, ParseItems, ParseEscape, Bytes, Denote, WellFormed, DistinctKeys, IsSpace;
    if ParseValue(p).Failed? {
      ItemsFail(p, values);
      ValueReach(p, q);
      ItemsFail(p + q, values);
    } else {
      var before, t, ws, space, inside := FirstItem(p, values);
      ItemsReach(inside, q, values + [Denote(t)]);
      ItemRead(before, t, ws, space, inside + q, values);
      ItemText(before, Bytes(t), ws, space, inside);
      ItemText(before, Bytes(t), ws, space, inside + q);
      LastOfSuffix(before + (Bytes(t) + (ws + ([0x2C] + space))), inside, q);
    }
  }

  lemma LastOfSuffix(a: seq<byte>, p: seq<byte>, q: seq<byte>)
    requires EndsWithBackslash(p)
    ensures EndsWithBackslash(a + p) && a + p + q == a + (p + q)
  {
  }

  // Objects

  lemma ObjectInside(ws: seq<byte>, t: seq<byte>)
    requires AllSpace(ws) && t != [] && !IsSpace(t[0]) && t[0] != 0x7D
    ensures ParseObject([0x7B] + (ws + t)) == ParseMembers(t, map[])
  {
    hide ParseMembers, SkipSpace;
    SpaceThenToken(ws, t);
    assert ([0x7B] + (ws + t))[1..] == ws + t;
  }

  lemma {:induction false} ObjectStop(s: seq<byte>) returns (i: nat)
    requires FailsInEscape(ParseObject(s))
    ensures StopsAt(s, i, ParseObject(s)) && EndsInEscape(ParseObject(s[..i + 1]))
    decreases |s|, 0
  {
    hide ParseMembers, SkipSpace, ParseEscape, IsSpace;
    var ws := Soundness.SpaceSound(s[1..]);
    var inside := SkipSpace(s[1..]);
    Soundness.SpaceLength(s[1..]);
    TokenFirst(s[1..]);
    var k := MembersStop(inside, map[]);
    i := 1 + |ws| + k;
    assert s == [0x7B] + ws + inside;
    StopsLater([0x7B] + ws, inside, k, ParseObject(s));
    ObjectInside(ws, inside[..k + 1]);
    assert [0x7B] + ws + inside[..k + 1] == [0x7B] + (ws + inside[..k + 1]);
  }

  lemma {:induction false} ObjectReach(p: seq<byte>, q: seq<byte>)
    requires EndsInEscape(ParseObject(p)) && ParseEscape(q).Failed?
    ensures EndsWithBackslash(p) && SameFailure(ParseObject(p + q), ParseEscape(q))
    decreases |p|, 0
  {
    hide ParseMembers, SkipSpace, ParseEscape, IsSpace;
    var ws := Soundness.SpaceSound(p[1..]);
    var inside := SkipSpace(p[1..]);
    Soundness.SpaceLength(p[1..]);
    TokenFirst(p[1..]);
    MembersReach(inside, q, map[]);
    ObjectInside(ws, inside + q);
    assert p == [0x7B] + (ws + inside) && p + q == [0x7B] + (ws + (inside + q));
  }

  /** What a member is read as, whatever its value is. */
  lemma MemberRead(ws: seq<byte>, key: seq<Piece>, beforeColon: seq<byte>, afterColon: seq<byte>, x: seq<byte>)
    requires AllSpace(ws) && ArePieces(key) && AllSpace(beforeColon) && AllSpace(afterColon)
    ensures var r, value := ParseMember(KeyText(ws, key, beforeColon, afterColon) + x), ParseValue(x);
            && (value.Failed? ==> SameFailure(r, value))
            && (value.Parsed? ==> r == Parsed((PiecesString(key), value.value), value.rest))
  {
    hide ParseValue, ParseString, SkipSpace, PiecesBytes, PiecesString;
    var colon := [0x3A] + (afterColon + x);
    KeyTextSplit(ws, key, beforeColon, afterColon, x);
    Completeness.TokenAfterSpace(ws, 0x22, PiecesBytes(key) + (beforeColon + colon));
    Completeness.StringComplete(key, beforeColon + colon);
    Completeness.TokenAfterSpace(beforeColon, 0x3A, afterColon + x);
    Completeness.ValueSkipsSpace(afterColon, x);
    SkippedValue(afterColon + x);
  }

  /** A key, its colon and the white space around them. */
  function KeyText(ws: seq<byte>, key: seq<Piece>, beforeColon: seq<byte>, afterColon: seq<byte>): seq<byte> {
    ws + ([0x22] + (PiecesBytes(key) + (beforeColon + ([0x3A] + afterColon))))
  }

  lemma KeyTextSplit(ws: seq<byte>, key: seq<Piece>, beforeColon: seq<byte>, afterColon: seq<byte>, x: seq<byte>)
    ensures KeyText(ws, key, beforeColon, afterColon) + x
         == ws + ([0x22] + (PiecesBytes(key) + (beforeColon + ([0x3A] + (afterColon + x)))))
  {
    hide PiecesBytes;
  }

  lemma SkippedValue(s: seq<byte>)
    ensures ParseValue(SkipSpace(s)) == ParseValue(s)
  {
    hide ParseValue;
    var ws := Soundness.SpaceSound(s);
    Completeness.ValueSkipsSpace(ws, SkipSpace(s));
  }

  /** A member whose key fails. */
  lemma KeyFails(ws: seq<byte>, t: seq<byte>)
    requires AllSpace(ws) && t != [] && !IsSpace(t[0]) && ParseString(t).Failed?
    ensures SameFailure(ParseMember(ws + t), ParseString(t))
  {
    hide ParseString, SkipSpace;
    SpaceThenToken(ws, t);
  }

  /** A member that fails behind its colon: what was read, and the bytes of the value. */
  lemma ValueFails(s: seq<byte>) returns (ws: seq<byte>, key: seq<Piece>, beforeColon: seq<byte>,
      afterColon: seq<byte>, x: seq<byte>)
    requires ParseString(SkipSpace(s)).Parsed? && (FailsInEscape(ParseMember(s)) || EndsInEscape(ParseMember(s)))
    ensures AllSpace(ws) && ArePieces(key) && AllSpace(beforeColon) && AllSpace(afterColon)
    ensures s == KeyText(ws, key, beforeColon, afterColon) + x && |x| < |s|
    ensures SameFailure(ParseMember(s), ParseValue(x))
  {
    hide ParseValue, ParseString, SkipSpace, PiecesBytes;
    ws := Soundness.SpaceSound(s);
    var token := SkipSpace(s);
    Soundness.SpaceLength(s);
    key := Soundness.StringSound(token);
    var rest := ParseString(token).rest;
    beforeColon := Soundness.SpaceSound(rest);
    var colon := SkipSpace(rest);
    Soundness.SpaceLength(rest);
    afterColon := Soundness.SpaceSound(colon[1..]);
    x := SkipSpace(colon[1..]);
    Soundness.SpaceLength(colon[1..]);
    assert colon == [0x3A] + (afterColon + x);
    KeyTextSplit(ws, key, beforeColon, afterColon, x);
  }

  lemma {:induction false} MemberStop(s: seq<byte>) returns (i: nat)
    requires FailsInEscape(ParseMember(s))
    ensures StopsAt(s, i, ParseMember(s)) && EndsInEscape(ParseMember(s[..i + 1]))
    decreases |s|, 2
  {
    hide ParseValue, ParseString, ParseMember, SkipSpace, ParseEscape, KeyText, IsSpace;
    var token := SkipSpace(s);
    TokenFirst(s);
    if ParseString(token).Failed? {
      var ws := Soundness.SpaceSound(s);
      KeyPresent(s);
      KeyFails(ws, token);
      var k := StringStop(token);
      i := |ws| + k;
      StopsLater(ws, token, k, ParseMember(s));
      KeyFails(ws, token[..k + 1]);
    } else {
      var ws, key, beforeColon, afterColon, x := ValueFails(s);
      var k := ValueStop(x);
      var read := KeyText(ws, key, beforeColon, afterColon);
      i := |read| + k;
      StopsLater(read, x, k, ParseMember(s));
      MemberRead(ws, key, beforeColon, afterColon, x[..k + 1]);
    }
  }

  /** An object that fails in an escape does not fail for want of a key. */
  lemma KeyPresent(s: seq<byte>)
    requires FailsInEscape(ParseMember(s)) || EndsInEscape(ParseMember(s))
    ensures SkipSpace(s) != []
  {
    hide ParseValue, SkipSpace;
  }

  lemma {:induction false} MemberReach(p: seq<byte>, q: seq<byte>)
    requires EndsInEscape(ParseMember(p)) && ParseEscape(q).Failed?
    ensures EndsWithBackslash(p) && SameFailure(ParseMember(p + q), ParseEscape(q))
    decreases |p|, 2
  {
    hide ParseValue, ParseString, ParseMember, SkipSpace, ParseEscape, KeyText, IsSpace;
    var token := SkipSpace(p);
    TokenFirst(p);
    if ParseString(token).Failed? {
      var ws := Soundness.SpaceSound(p);
      KeyPresent(p);
      KeyFails(ws, token);
      StringReach(token, q);
      KeyFails(ws, token + q);
      LastOfSuffix(ws, token, q);
    } else {
      var ws, key, beforeColon, afterColon, x := ValueFails(p);
      ValueReach(x, q);
      MemberRead(ws, key, beforeColon, afterColon, x + q);
      LastOfSuffix(KeyText(ws, key, beforeColon, afterColon), x, q);
    }
  }

  /** A member with a new key and its comma are read before whatever follows. */
  lemma MembersRead(m: Member, x: seq<byte>, members: map<string, JsonValue>)
    requires WellFormedMember(m) && DistinctKeys(m.item) && KeyOf(m) !in members
    ensures ParseMembers(MemberBytes(m) + ([0x2C] + x), members) == ParseMembers(x, members[KeyOf(m) := Denote(m.item)])
  {
    hide ParseValue, ParseMember, SkipSpace, Bytes, Denote, WellFormed, DistinctKeys, PiecesBytes, PiecesString,
        KeyText, Completeness.EndsNumber;
    var tail := m.after + ([0x2C] + x);
    var value := Bytes(m.item) + tail;
    Soundness.MemberText(m, [0x2C] + x);
    KeyTextSplit(m.before, m.key, m.beforeColon, m.afterColon, value);
    MemberRead(m.before, m.key, m.beforeColon, m.afterColon, value);
    Completeness.TailEndsNumber(m.after, 0x2C, x);
    Completeness.ValueComplete(m.item, tail);
    Completeness.TokenAfterSpace(m.after, 0x2C, x);
  }

  lemma MembersFail(s: seq<byte>, members: map<string, JsonValue>)
    requires ParseMember(s).Failed?
    ensures SameFailure(ParseMembers(s, members), ParseMember(s))
  {
    hide ParseMember;
  }

  /** An object that fails behind its first member: the member, and the rest of the members. */
  lemma FirstMember(s: seq<byte>, members: map<string, JsonValue>) returns (m: Member, x: seq<byte>)
    requires ParseMember(s).Parsed? && (FailsInEscape(ParseMembers(s, members))
        || EndsInEscape(ParseMembers(s, members)))
    ensures WellFormedMember(m) && WellFormed(m.item) && DistinctKeys(m.item) && KeyOf(m) !in members
    ensures s == MemberBytes(m) + ([0x2C] + x) && |x| < |s|
    ensures ParseMembers(s, members) == ParseMembers(x, members[KeyOf(m) := Denote(m.item)])
  {
    hide ParseMember, SkipSpace, MemberBytes, Denote, WellFormed, DistinctKeys, PiecesString;
    m := Soundness.MemberSound(s);
    var next := SkipSpace(ParseMember(s).rest);
    x := next[1..];
    assert next == [0x2C] + x;
  }

  lemma {:induction false} MembersStop(s: seq<byte>, members: map<string, JsonValue>) returns (i: nat)
    requires FailsInEscape(ParseMembers(s, members))
    ensures StopsAt(s, i, ParseMembers(s, members)) && EndsInEscape(ParseMembers(s[..i + 1], members))
    decreases |s|, 3
  {
    hide ParseMember, ParseMembers, ParseEscape, MemberBytes, Denote, WellFormed, WellFormedMember, DistinctKeys, KeyOf;
    if ParseMember(s).Failed? {
      MembersFail(s, members);
      i := MemberStop(s);
      MembersFail(s[..i + 1], members);
    } else {
      var m, x := FirstMember(s, members);
      var k := MembersStop(x, members[KeyOf(m) := Denote(m.item)]);
      var read := MemberBytes(m) + [0x2C];
      assert s == read + x;
      i := |read| + k;
      StopsLater(read, x, k, ParseMembers(s, members));
      MembersRead(m, x[..k + 1], members);
      assert read + x[..k + 1] == MemberBytes(m) + ([0x2C] + x[..k + 1]);
    }
  }

  lemma {:induction false} MembersReach(p: seq<byte>, q: seq<byte>, members: map<string, JsonValue>)
    requires EndsInEscape(ParseMembers(p, members)) && ParseEscape(q).Failed?
    ensures EndsWithBackslash(p) && SameFailure(ParseMembers(p + q, members), ParseEscape(q))
    decreases |p|, 3
  {
    hide ParseMember, ParseMembers, ParseEscape, MemberBytes, Denote, WellFormed, WellFormedMember, DistinctKeys, KeyOf;
    if ParseMember(p).Failed? {
      MembersFail(p, members);
      MemberReach(p, q);
      MembersFail(p + q, members);
    } else {
      var m, x := FirstMember(p, members);
      MembersReach(x, q, members[KeyOf(m) := Denote(m.item)]);
      MembersRead(m, x + q, members);
      assert p + q == MemberBytes(m) + ([0x2C] + (x + q));
      LastOfSuffix(MemberBytes(m) + [0x2C], x, q);
      assert p == MemberBytes(m) + [0x2C] + x;
    }
  }

  // Texts

  lemma TextStop(s: seq<byte>) returns (i: nat)
    requires FailsInEscape(ParseText(s))
    ensures StopsAt(s, i, ParseText(s)) && EndsInEscape(ParseText(s[..i + 1]))
  {
    hide ParseValue, SkipSpace, ParseEscape;
    SkippedValue(s);
    i := ValueStop(s);
    SkippedValue(s[..i + 1]);
  }

  lemma TextReach(p: seq<byte>, q: seq<byte>)
    requires EndsInEscape(ParseText(p)) && ParseEscape(q).Failed?
    ensures EndsWithBackslash(p) && SameFailure(ParseText(p + q), ParseEscape(q))
  {
    hide ParseValue, SkipSpace, ParseEscape;
    SkippedValue(p);
    ValueReach(p, q);
    SkippedValue(p + q);
  }

  /** After an ASCII byte of a text there is a character boundary. */
  lemma {:induction false} AfterAsciiByte(s: seq<byte>, i: nat)
    requires Boundary(s) && i < |s| && s[i] < 0x80
    ensures Boundary(s[i + 1..])
    decreases |s|
  {
    if i == 0 {
      AfterAscii(s);
    } else {
      var w := Width(s[0]);
      EncodeDecodedChar(s[..w]);
      assert s[..w][0] == s[0];
      WideBytes(s[..w], i);
      AfterAsciiByte(s[w..], i - w);
      assert s[w..][i - w + 1..] == s[i + 1..];
    }
  }

  /** Only the first byte of a character can be ASCII. */
  lemma WideBytes(bs: seq<byte>, i: nat)
    requires DecodeChar(bs).Some? && (0 < i < |bs| ==> bs[i] < 0x80)
    ensures i == 0 || i >= |bs|
  {
  }

  /** The text is read up to the backslash at `i`, and no escape follows because of a character that is not ASCII. */
  predicate SplitsAt(bs: seq<byte>, i: nat) {
    i < |bs| && EndsInEscape(ParseText(bs[..i + 1])) && SplitsEscape(bs[i + 1..])
  }

  /**
   The parser stops inside a character exactly when the text has a backslash such that the text up
   to it is read to its end, as an unfinished escape, and what follows it splits a character.
   */
  lemma SplitsExactly(text: string)
    ensures var bs := Encode(text);
            Boundary(ParseText(bs).rest) <==> forall i: nat :: !SplitsAt(bs, i)
  {
    hide Encode, ParseText, ParseEscape, SplitsEscape, Boundary, Suffix;
    var bs := Encode(text);
    var r := ParseText(bs);
    WholeIsBoundary(text);
    TextKept(text);
    if !Boundary(r.rest) {
      var i := TextStop(bs);
      AfterAsciiByte(bs, i);
      EscapeSplits(bs[i + 1..]);
      assert SplitsAt(bs, i);
    }
    if i: nat :| SplitsAt(bs, i) {
      BackslashBefore(bs, i);
      AfterAsciiByte(bs, i);
      EscapeSplits(bs[i + 1..]);
      TextReach(bs[..i + 1], bs[i + 1..]);
      assert bs == bs[..i + 1] + bs[i + 1..];
    }
  }

  lemma BackslashBefore(bs: seq<byte>, i: nat)
    requires i < |bs| && EndsInEscape(ParseText(bs[..i + 1]))
    ensures bs[i] == 0x5C
  {
    hide ParseText;
    assert ParseEscape([0x78]).Failed?;
    TextReach(bs[..i + 1], [0x78]);
  }

  /** In particular a text is safe when no backslash in it is followed by bytes that split an escape. */
  lemma SafeWithoutSplits(text: string)
    requires var bs := Encode(text); forall i | 0 <= i < |bs| && bs[i] == 0x5C :: !SplitsEscape(bs[i + 1..])
    ensures Boundary(ParseText(Encode(text)).rest)
  {
    hide Encode, ParseText, SplitsEscape, Boundary;
    SplitsExactly(text);
    var bs := Encode(text);
    forall i: nat
      ensures !SplitsAt(bs, i)
    {
      if i < |bs| && EndsInEscape(ParseText(bs[..i + 1])) {
        BackslashBefore(bs, i);
      }
    }
  }
}

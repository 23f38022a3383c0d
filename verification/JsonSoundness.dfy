/** Whatever the parser accepts is a text of the grammar, and denotes the value it returns. */
module JsonSoundness {
  import opened Prelude
  import opened Utf8
  import opened JsonValues
  import opened JsonGrammar
  import opened JsonParsing
  import Completeness = JsonCompleteness

  lemma {:induction false} SpaceSound(s: seq<byte>) returns (ws: seq<byte>)
    ensures AllSpace(ws) && s == ws + SkipSpace(s)
  {
    if s != [] && IsSpace(s[0]) {
      var others := SpaceSound(s[1..]);
      ws := [s[0]] + others;
    } else {
      ws := [];
    }
  }

  lemma {:induction false} DigitsSound(s: seq<byte>) returns (ds: seq<byte>)
    ensures AllDigits(ds) && s == ds + SkipDigits(s)
  {
    if s != [] && IsDigit(s[0]) {
      var others := DigitsSound(s[1..]);
      ds := [s[0]] + others;
    } else {
      ds := [];
    }
  }

  // Numbers

  lemma IntegerSound(s: seq<byte>) returns (i: seq<byte>)
    requires ParseInteger(s).Parsed?
    ensures IsInteger(i) && s == i + ParseInteger(s).rest
  {
    if StartsWith(s, 0x30) {
      i := [s[0]];
    } else {
      var others := DigitsSound(s[1..]);
      i := [s[0]] + others;
    }
  }

  lemma FractionSound(s: seq<byte>) returns (f: seq<byte>)
    requires ParseFraction(s).Parsed?
    ensures IsFraction(f) && s == f + ParseFraction(s).rest
  {
    if StartsWith(s, 0x2E) {
      var ds := DigitsSound(s[1..]);
      f := [s[0]] + ds;
      assert f[1..] == ds;
    } else {
      f := [];
    }
  }

  lemma ExponentSound(s: seq<byte>) returns (e: seq<byte>)
    requires ParseExponent(s).Parsed?
    ensures IsExponent(e) && s == e + ParseExponent(s).rest
  {
    if s != [] && s[0] in {0x65, 0x45} {
      var signed := s[1..];
      if signed != [] && IsSign(signed[0]) {
        var ds := DigitsSound(signed[1..]);
        e := [s[0], signed[0]] + ds;
        assert e[2..] == ds;
      } else {
        var ds := DigitsSound(signed);
        e := [s[0]] + ds;
        assert e[1..] == ds;
      }
    } else {
      e := [];
    }
  }

  lemma NumberEndSound(s: seq<byte>) returns (n: NumberText)
    requires ParseNumberEnd(s).Parsed?
    ensures IsNumber(n) && s == NumberBytes(n) + ParseNumberEnd(s).rest
  {
    hide ParseInteger, ParseFraction, ParseExponent, AllDigits;
    var minus := StartsWith(s, 0x2D);
    var start := if minus then s[1..] else s;
    var i := IntegerSound(start);
    var afterInteger := ParseInteger(start).rest;
    var f := FractionSound(afterInteger);
    var afterFraction := ParseFraction(afterInteger).rest;
    var e := ExponentSound(afterFraction);
    n := NumberText(minus, i, f, e);
    Completeness.AppendInside(if minus then [0x2D] else [], i, f, e, ParseExponent(afterFraction).rest);
    assert s == (if minus then [0x2D] else []) + start;
  }

  lemma NumberSound(s: seq<byte>) returns (n: NumberText)
    requires ParseNumberEnd(s).Parsed?
    ensures ParseNumber(s).Parsed? && ParseNumber(s).rest == ParseNumberEnd(s).rest
    ensures IsNumber(n) && s == NumberBytes(n) + ParseNumber(s).rest
    ensures ParseNumber(s).value == (NumberIsAscii(n); AsciiString(NumberBytes(n)))
  {
    n := NumberEndSound(s);
    NumberIsAscii(n);
    Completeness.AsciiDecodes(NumberBytes(n));
    assert s[..|s| - |ParseNumberEnd(s).rest|] == NumberBytes(n);
  }

  // Strings

  lemma QuadSound(s: seq<byte>) returns (q: seq<byte>)
    requires ParseQuad(s, 4, 0).Parsed?
    ensures IsQuad(q) && s == q + ParseQuad(s, 4, 0).rest
    ensures ParseQuad(s, 4, 0).value == QuadValue(q)
  {
    assert ParseQuad(s[1..], 3, HexDigit(s[0])).Parsed?;
    assert s[1..][1..] == s[2..] && s[2..][1..] == s[3..] && s[3..][1..] == s[4..];
    assert ParseQuad(s[2..], 2, HexDigit(s[0]) * 16 + HexDigit(s[1])).Parsed?;
    assert ParseQuad(s[3..], 1, (HexDigit(s[0]) * 16 + HexDigit(s[1])) * 16 + HexDigit(s[2])).Parsed?;
    q := s[..4];
    Completeness.QuadComplete(q, s[4..]);
    assert s == q + s[4..];
  }

  lemma EscapeSound(s: seq<byte>) returns (p: Piece)
    requires ParseEscape(s).Parsed?
    ensures IsPiece(p) && PieceChar(p) == ParseEscape(s).value
    ensures [0x5C] + s == PieceBytes(p) + ParseEscape(s).rest
  {
    hide ParseQuad, QuadValue;
    if s[0] == 0x75 {
      var quad := QuadSound(s[1..]);
      var rest := ParseQuad(s[1..], 4, 0).rest;
      assert s == [0x75] + (quad + rest);
      if HighSurrogate(QuadValue(quad)) {
        var low := QuadSound(rest[2..]);
        p := Pair(quad, low);
        assert rest == [0x5C, 0x75] + (low + ParseQuad(rest[2..], 4, 0).rest);
      } else {
        p := Hex(quad);
      }
    } else {
      p := Short(s[0]);
    }
  }

  lemma WideSound(s: seq<byte>) returns (p: Piece)
    requires s != [] && s[0] >= 0x80
    requires ParseWide(s).Parsed?
    ensures IsPiece(p) && ParseWide(s).value == [PieceChar(p)]
    ensures s == PieceBytes(p) + ParseWide(s).rest
  {
    var bs := s[..Width(s[0])];
    assert bs[..Width(bs[0])] == bs && bs[Width(bs[0])..] == [];
    p := Raw(DecodeChar(bs).value);
    EncodeDecodedChar(bs);
    assert Decode(bs) == Some([p.c] + "") && [p.c] + "" == [p.c];
  }

  lemma AsciiPiece(b: byte)
    requires b < 0x80
    ensures IsPiece(Raw(b as char)) == (b >= 0x20 && b != 0x22 && b != 0x5C)
    ensures PieceBytes(Raw(b as char)) == [b]
  {
  }

  lemma PieceInFront(p: Piece, others: seq<Piece>, s: seq<byte>, after: seq<byte>, rest: seq<byte>)
    requires IsPiece(p) && ArePieces(others) && s == PieceBytes(p) + after && after == PiecesBytes(others) + rest
    ensures ArePieces([p] + others) && s == PiecesBytes([p] + others) + rest
    ensures PiecesString([p] + others) == [PieceChar(p)] + PiecesString(others)
  {
    hide PieceBytes, IsPiece;
    assert ([p] + others)[1..] == others;
  }

  lemma {:induction false} CharsSound(s: seq<byte>, output: string) returns (ps: seq<Piece>)
    requires ParseChars(s, output).Parsed?
    ensures ArePieces(ps)
    ensures s == PiecesBytes(ps) + ParseChars(s, output).rest
    ensures ParseChars(s, output).value == output + PiecesString(ps)
    decreases |s|
  {
    hide ParseEscape, ParseWide, PieceBytes, EncodeChar, IsPiece;
    if s[0] == 0x22 {
      ps := [];
    } else {
      var p: Piece, after: seq<byte>;
      if s[0] == 0x5C {
        p := EscapeSound(s[1..]);
        after := ParseEscape(s[1..]).rest;
        assert s == [0x5C] + s[1..];
      } else if s[0] < 0x80 {
        p, after := Raw(s[0] as char), s[1..];
        AsciiPiece(s[0]);
      } else {
        p := WideSound(s);
        after := ParseWide(s).rest;
      }
      var others := CharsSound(after, output + [PieceChar(p)]);
      ps := [p] + others;
      PieceInFront(p, others, s, after, ParseChars(after, output + [PieceChar(p)]).rest);
      assert output + [PieceChar(p)] + PiecesString(others) == output + PiecesString(ps);
    }
  }

  lemma StringSound(s: seq<byte>) returns (ps: seq<Piece>)
    requires ParseString(s).Parsed?
    ensures ArePieces(ps)
    ensures s == [0x22] + (PiecesBytes(ps) + ParseString(s).rest)
    ensures ParseString(s).value == PiecesString(ps)
  {
    ps := CharsSound(s[1..], "");
    assert "" + PiecesString(ps) == PiecesString(ps);
  }

  // Values

  lemma ScalarSound(s: seq<byte>) returns (t: Tree)
    requires s != [] && SkipSpace(s) == s && s[0] !in {0x5B, 0x7B}
    requires ParseValue(s).Parsed?
    ensures WellFormed(t) && DistinctKeys(t) && Denote(t) == ParseValue(s).value
    ensures s == Bytes(t) + ParseValue(s).rest
  {
    hide ParseNumberEnd, ParseChars, NumberBytes, IsNumber;
    if s[0] == 0x22 {
      var ps := StringSound(s);
      t := StringTree(ps);
      assert s == Bytes(t) + ParseValue(s).rest;
    } else if s[0] == 0x2D || IsDigit(s[0]) {
      var n := NumberSound(s);
      t := NumberTree(n);
    } else {
      t := if s[0] == 0x6E then NullTree else BoolTree(s[0] == 0x74);
    }
  }

  lemma {:induction false} ValueSound(s: seq<byte>) returns (ws: seq<byte>, t: Tree)
    requires ParseValue(s).Parsed?
    ensures AllSpace(ws) && WellFormed(t) && DistinctKeys(t)
    ensures Denote(t) == ParseValue(s).value
    ensures s == ws + (Bytes(t) + ParseValue(s).rest)
    decreases |s|, 1
  {
    ws := SpaceSound(s);
    var token := SkipSpace(s);
    SpaceLength(s);
    Completeness.ValueSkipsSpace(ws, token);
    assert token != [] by { assert ParseValue(s).Parsed?; }
    if token[0] == 0x5B {
      t := ArraySound(token);
    } else if token[0] == 0x7B {
      t := ObjectSound(token);
    } else {
      t := ScalarSound(token);
    }
  }

  lemma {:induction false} ArraySound(s: seq<byte>) returns (t: Tree)
    requires s != [] && s[0] == 0x5B && ParseValue(s).Parsed?
    ensures WellFormed(t) && DistinctKeys(t) && Denote(t) == ParseValue(s).value
    ensures s == Bytes(t) + ParseValue(s).rest
    decreases |s|, 0
  {
    hide ParseValue, SkipSpace, ParseItems, ItemsBytes, DenoteItems, WellFormedItems, DistinctKeysItems, IsSpace,
        WidenItems;
    var space := SpaceSound(s[1..]);
    var inside := SkipSpace(s[1..]);
    SpaceLength(s[1..]);
    assert s == [0x5B] + s[1..];
    Completeness.ArrayOpens(s[1..]);
    if StartsWith(inside, 0x5D) {
      t := EmptyArray(space);
      assert inside == [0x5D] + inside[1..];
    } else {
      var items := ItemsSound(inside, []);
      t := ArrayTree(WidenItems(items, space));
      ArrayAround(items, space);
      assert [] + DenoteItems(items) == DenoteItems(items);
    }
  }

  lemma {:induction false} ObjectSound(s: seq<byte>) returns (t: Tree)
    requires s != [] && s[0] == 0x7B && ParseValue(s).Parsed?
    ensures WellFormed(t) && DistinctKeys(t) && Denote(t) == ParseValue(s).value
    ensures s == Bytes(t) + ParseValue(s).rest
    decreases |s|, 0
  {
    hide ParseValue, SkipSpace, ParseMembers, MembersBytes, DenoteMembers, WellFormedMembers, DistinctKeysMembers,
        IsSpace, WidenMembers;
    var space := SpaceSound(s[1..]);
    var inside := SkipSpace(s[1..]);
    SpaceLength(s[1..]);
    assert s == [0x7B] + s[1..];
    Completeness.ObjectOpens(s[1..]);
    if StartsWith(inside, 0x7D) {
      t := EmptyObject(space);
      assert inside == [0x7D] + inside[1..];
    } else {
      var members := MembersSound(inside, map[]);
      t := ObjectTree(WidenMembers(members, space));
      ObjectAround(members, space);
      assert map[] + DenoteMembers(members) == DenoteMembers(members);
    }
  }

  /** The same items after more white space. */
  function WidenItems(items: Items, ws: seq<byte>): Items {
    items.(before := ws + items.before)
  }

  lemma ItemsWidened(items: Items, ws: seq<byte>)
    requires WellFormedItems(items) && DistinctKeysItems(items) && AllSpace(ws)
    ensures WellFormedItems(WidenItems(items, ws)) && DistinctKeysItems(WidenItems(items, ws))
    ensures DenoteItems(WidenItems(items, ws)) == DenoteItems(items)
    ensures ItemsBytes(WidenItems(items, ws)) == ws + ItemsBytes(items)
  {
    hide Bytes;
  }

  function WidenMembers(ms: Members, ws: seq<byte>): Members {
    ms.(member := ms.member.(before := ws + ms.member.before))
  }

  lemma MembersWidened(ms: Members, ws: seq<byte>)
    requires WellFormedMembers(ms) && DistinctKeysMembers(ms) && AllSpace(ws)
    ensures WellFormedMembers(WidenMembers(ms, ws)) && DistinctKeysMembers(WidenMembers(ms, ws))
    ensures DenoteMembers(WidenMembers(ms, ws)) == DenoteMembers(ms)
    ensures MembersBytes(WidenMembers(ms, ws)) == ws + MembersBytes(ms)
  {
    hide Bytes, PiecesBytes;
    var m, wide := ms.member, WidenMembers(ms, ws).member;
    assert WellFormedMember(m) && WellFormedMember(wide);
    assert MemberBytes(wide) == ws + MemberBytes(m);
  }

  lemma ArrayAround(items: Items, ws: seq<byte>)
    requires WellFormedItems(items) && DistinctKeysItems(items) && AllSpace(ws)
    ensures var t := ArrayTree(WidenItems(items, ws));
            WellFormed(t) && DistinctKeys(t) && Denote(t) == Array(DenoteItems(items))
            && Bytes(t) == [0x5B] + (ws + ItemsBytes(items))
  {
    hide ItemsBytes, DenoteItems, WellFormedItems, DistinctKeysItems, WidenItems;
    ItemsWidened(items, ws);
  }

  lemma ObjectAround(ms: Members, ws: seq<byte>)
    requires WellFormedMembers(ms) && DistinctKeysMembers(ms) && AllSpace(ws)
    ensures var t := ObjectTree(WidenMembers(ms, ws));
            WellFormed(t) && DistinctKeys(t) && Denote(t) == Object(DenoteMembers(ms))
            && Bytes(t) == [0x7B] + (ws + MembersBytes(ms))
  {
    hide MembersBytes, DenoteMembers, WellFormedMembers, DistinctKeysMembers, WidenMembers;
    MembersWidened(ms, ws);
  }

  lemma {:induction false} ItemsSound(s: seq<byte>, values: seq<JsonValue>) returns (items: Items)
    requires ParseItems(s, values).Parsed?
    ensures WellFormedItems(items) && DistinctKeysItems(items)
    ensures ParseItems(s, values).value == Array(values + DenoteItems(items))
    ensures s == ItemsBytes(items) + ParseItems(s, values).rest
    decreases |s|, 2
  {
    hide ParseValue, SkipSpace, WidenItems, Bytes, Denote, IsSpace, DistinctKeys, WellFormed;
    var before, item := ValueSound(s);
    var rest := ParseValue(s).rest;
    var after := SpaceSound(rest);
    var next := SkipSpace(rest);
    if StartsWith(next, 0x5D) {
      items := LastItem(before, item, after);
      assert next == [0x5D] + next[1..];
      assert values + DenoteItems(items) == values + [Denote(item)];
    } else {
      var space := SpaceSound(next[1..]);
      var inside := SkipSpace(next[1..]);
      var found := ItemsSound(inside, values + [Denote(item)]);
      ItemsWidened(found, space);
      var others := WidenItems(found, space);
      items := MoreItems(before, item, after, others);
      AfterComma(next, space, ItemsBytes(found), ParseItems(s, values).rest);
      Appended(values, Denote(item), DenoteItems(others));
    }
    Completeness.ItemsText(items, ParseItems(s, values).rest);
  }

  lemma AfterComma(next: seq<byte>, space: seq<byte>, text: seq<byte>, rest: seq<byte>)
    requires StartsWith(next, 0x2C) && next[1..] == space + (text + rest)
    ensures next == [0x2C] + ((space + text) + rest)
  {
  }

  lemma Appended(values: seq<JsonValue>, value: JsonValue, others: seq<JsonValue>)
    ensures values + [value] + others == values + ([value] + others)
  {
  }

  lemma MemberText(m: Member, next: seq<byte>)
    ensures MemberBytes(m) + next == m.before + ([0x22] + (PiecesBytes(m.key) + (m.beforeColon + ([0x3A] +
              (m.afterColon + (Bytes(m.item) + (m.after + next)))))))
  {
    hide Bytes, PiecesBytes;
    var fromItem := m.afterColon + (Bytes(m.item) + m.after);
    assert fromItem + next == m.afterColon + (Bytes(m.item) + (m.after + next));
    var fromColon := m.beforeColon + ([0x3A] + fromItem);
    assert fromColon + next == m.beforeColon + ([0x3A] + (fromItem + next));
  }

  lemma {:induction false} MemberSound(s: seq<byte>) returns (m: Member)
    requires ParseMember(s).Parsed?
    ensures WellFormedMember(m) && WellFormed(m.item) && DistinctKeys(m.item)
    ensures ParseMember(s).value == (KeyOf(m), Denote(m.item))
    ensures s == MemberBytes(m) + SkipSpace(ParseMember(s).rest)
    decreases |s|, 2
  {
    hide ParseValue, ParseString, SkipSpace, Bytes, PiecesBytes;
    var before := SpaceSound(s);
    var key := StringSound(SkipSpace(s));
    var rest := ParseString(SkipSpace(s)).rest;
    var beforeColon := SpaceSound(rest);
    var colon := SkipSpace(rest);
    var afterColon := SpaceSound(colon[1..]);
    var fromItem := SkipSpace(colon[1..]);
    SpaceLength(s);
    SpaceLength(rest);
    SpaceLength(colon[1..]);
    var beforeItem, item := ValueSound(fromItem);
    var after := SpaceSound(ParseValue(fromItem).rest);
    var next := SkipSpace(ParseValue(fromItem).rest);
    m := Member(before, key, beforeColon, afterColon + beforeItem, item, after);
    var value := Bytes(item) + (after + next);
    assert colon == [0x3A] + ((afterColon + beforeItem) + value);
    assert s == before + ([0x22] + (PiecesBytes(key) + (beforeColon + ([0x3A] + (m.afterColon + value)))));
    MemberText(m, next);
  }

  lemma {:induction false} MembersSound(s: seq<byte>, members: map<string, JsonValue>) returns (ms: Members)
    requires ParseMembers(s, members).Parsed?
    ensures WellFormedMembers(ms) && DistinctKeysMembers(ms)
    ensures members.Keys !! DenoteMembers(ms).Keys
    ensures ParseMembers(s, members).value == Object(members + DenoteMembers(ms))
    ensures s == MembersBytes(ms) + ParseMembers(s, members).rest
    decreases |s|, 3
  {
    hide ParseMember, SkipSpace, Bytes, PiecesBytes, MemberBytes, WellFormed, Denote, DistinctKeys, PiecesString,
        IsSpace, AllSpace;
    hide ParseMembers, MembersBytes, WellFormedMembers, DenoteMembers, DistinctKeysMembers, WellFormedMember, KeyOf;
    MembersStep(s, members);
    var m := MemberSound(s);
    var next := SkipSpace(ParseMember(s).rest);
    SpaceLength(ParseMember(s).rest);
    if StartsWith(next, 0x7D) {
      ms := MembersEnd(m, members);
      Rejoined(MemberBytes(m), 0x7D, [], next);
    } else {
      var (key, value) := ParseMember(s).value;
      var others := MembersSound(next[1..], members[key := value]);
      ms := MembersJoined(m, others, members);
      Rejoined(MemberBytes(m), 0x2C, MembersBytes(others), next);
    }
  }

  lemma Rejoined(before: seq<byte>, token: byte, text: seq<byte>, next: seq<byte>)
    requires StartsWith(next, token) && text <= next[1..]
    ensures before + next == before + ([token] + text) + next[1 + |text|..]
    ensures next[1..][|text|..] == next[1 + |text|..]
  {
    assert next == [token] + text + next[1 + |text|..];
  }

  lemma MembersStep(s: seq<byte>, members: map<string, JsonValue>)
    requires ParseMembers(s, members).Parsed?
    ensures ParseMember(s).Parsed? && ParseMember(s).value.0 !in members
    ensures var next, extended := SkipSpace(ParseMember(s).rest),
        members[ParseMember(s).value.0 := ParseMember(s).value.1];
            if StartsWith(next, 0x7D) then ParseMembers(s, members) == Parsed(Object(extended), next[1..])
            else StartsWith(next, 0x2C) && ParseMembers(s, members) == ParseMembers(next[1..], extended)
  {
    hide ParseMember, SkipSpace;
  }

  lemma MembersEnd(m: Member, members: map<string, JsonValue>) returns (ms: Members)
    requires WellFormedMember(m) && DistinctKeys(m.item) && KeyOf(m) !in members
    ensures ms == LastMember(m) && WellFormedMembers(ms) && DistinctKeysMembers(ms)
    ensures MembersBytes(ms) == MemberBytes(m) + ([0x7D] + [])
    ensures members.Keys !! DenoteMembers(ms).Keys
    ensures members + DenoteMembers(ms) == members[KeyOf(m) := Denote(m.item)]
  {
    hide WellFormed, Denote, DistinctKeys, MemberBytes, PiecesString;
    ms := LastMember(m);
  }

  /** A member with a new key in front of members whose keys are new after it. */
  lemma MembersJoined(m: Member, others: Members, members: map<string, JsonValue>) returns (ms: Members)
    requires WellFormedMember(m) && DistinctKeys(m.item) && KeyOf(m) !in members
    requires WellFormedMembers(others) && DistinctKeysMembers(others)
    requires members[KeyOf(m) := Denote(m.item)].Keys !! DenoteMembers(others).Keys
    ensures ms == MoreMembers(m, others) && WellFormedMembers(ms) && DistinctKeysMembers(ms)
    ensures MembersBytes(ms) == MemberBytes(m) + ([0x2C] + MembersBytes(others))
    ensures members.Keys !! DenoteMembers(ms).Keys
    ensures members + DenoteMembers(ms) == members[KeyOf(m) := Denote(m.item)] + DenoteMembers(others)
  {
    hide WellFormed, Denote, DistinctKeys, MemberBytes, PiecesString;
    ms := MoreMembers(m, others);
    assert KeyOf(m) in members[KeyOf(m) := Denote(m.item)].Keys;
  }

  lemma SpaceLength(s: seq<byte>)
    ensures |SkipSpace(s)| <= |s|
  {
  }

  /** Soundness: an accepted text is in the grammar and denotes the value returned. */
  lemma TextSound(bs: seq<byte>)
    requires ParseText(bs).Parsed?
    ensures ParseText(bs).rest == [] && JsonText(bs, ParseText(bs).value)
  {
    hide ParseValue, Bytes, WellFormed, DistinctKeys, Denote, IsSpace, SkipSpace;
    var ws := SpaceSound(bs);
    var space, t := ValueSound(SkipSpace(bs));
    var after := SpaceSound(ParseValue(SkipSpace(bs)).rest);
    assert after + [] == after;
    assert bs == (ws + space) + (Bytes(t) + after);
    assert SpansText(bs, ws + space, t, after);
  }

  /**
   The parser accepts exactly the texts of RFC 8259 without repeated keys and without unpaired
   surrogates, each with the one value that it denotes.
   */
  lemma ParsesExactlyTheGrammar(bs: seq<byte>, v: JsonValue)
    ensures ParseText(bs) == Parsed(v, []) <==> JsonText(bs, v)
  {
    if ParseText(bs) == Parsed(v, []) {
      TextSound(bs);
    }
    if JsonText(bs, v) {
      Completeness.TextComplete(bs, v);
    }
  }
}

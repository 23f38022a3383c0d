/** Every text of the grammar is accepted, with the value that its parse tree denotes. */
module JsonCompleteness {
  import opened Prelude
  import opened Utf8
  import opened JsonValues
  import opened JsonGrammar
  import opened JsonParsing

  lemma {:induction false} SpaceIsSkipped(ws: seq<byte>, s: seq<byte>)
    requires AllSpace(ws)
    ensures SkipSpace(ws + s) == SkipSpace(s)
  {
    if ws == [] {
      assert ws + s == s;
    } else {
      SpaceIsSkipped(ws[1..], s);
      assert (ws + s)[1..] == ws[1..] + s;
    }
  }

  lemma {:induction false} DigitsAreSkipped(ds: seq<byte>, s: seq<byte>)
    requires AllDigits(ds)
    requires s == [] || !IsDigit(s[0])
    ensures SkipDigits(ds + s) == s
  {
    if ds == [] {
      assert ds + s == s;
    } else {
      DigitsAreSkipped(ds[1..], s);
      assert (ds + s)[1..] == ds[1..] + s;
    }
  }

  // Numbers

  /** No byte of `rest` could still belong to a number that ends before it. */
  predicate EndsNumber(rest: seq<byte>) {
    rest == [] || (!IsDigit(rest[0]) && rest[0] !in {0x2E, 0x65, 0x45})
  }

  lemma ExponentComplete(e: seq<byte>, rest: seq<byte>)
    requires IsExponent(e) && EndsNumber(rest)
    ensures ParseExponent(e + rest) == Parsed((), rest)
  {
    if e == [] {
      assert e + rest == rest;
    } else {
      var signed := (e + rest)[1..];
      assert signed == e[1..] + rest;
      if Digits(e[1..]) {
        DigitsAreSkipped(e[1..], rest);
      } else {
        assert signed[1..] == e[2..] + rest;
        DigitsAreSkipped(e[2..], rest);
      }
    }
  }

  lemma FractionComplete(f: seq<byte>, s: seq<byte>)
    requires IsFraction(f)
    requires s == [] || (!IsDigit(s[0]) && s[0] != 0x2E)
    ensures ParseFraction(f + s) == Parsed((), s)
  {
    if f == [] {
      assert f + s == s;
    } else {
      assert (f + s)[1..] == f[1..] + s;
      DigitsAreSkipped(f[1..], s);
    }
  }

  lemma IntegerComplete(i: seq<byte>, s: seq<byte>)
    requires IsInteger(i)
    requires s == [] || !IsDigit(s[0])
    ensures ParseInteger(i + s) == Parsed((), s)
  {
    assert (i + s)[1..] == i[1..] + s;
    DigitsAreSkipped(i[1..], s);
  }

  lemma {:induction false} AsciiDecodes(bs: seq<byte>)
    requires forall i | 0 <= i < |bs| :: bs[i] < 0x80
    ensures Decode(bs) == Some(AsciiString(bs))
  {
    if bs != [] {
      AsciiDecodes(bs[1..]);
      assert AsciiString(bs) == [bs[0] as char] + AsciiString(bs[1..]);
    }
  }

  lemma NumberEndComplete(n: NumberText, rest: seq<byte>)
    requires IsNumber(n) && EndsNumber(rest)
    ensures ParseNumberEnd(NumberBytes(n) + rest) == Parsed((), rest)
  {
    hide ParseExponent, ParseFraction, ParseInteger, SkipDigits, AllDigits;
    var s := NumberBytes(n) + rest;
    var afterFraction := n.exponent + rest;
    var afterInteger := n.fraction + afterFraction;
    var afterMinus := n.integer + afterInteger;
    AppendInside(if n.minus then [0x2D] else [], n.integer, n.fraction, n.exponent, rest);
    MinusComplete(n.minus, n.integer, afterInteger);
    ExponentComplete(n.exponent, rest);
    FractionComplete(n.fraction, afterFraction);
    IntegerComplete(n.integer, afterInteger);
  }

  lemma AppendInside(a: seq<byte>, b: seq<byte>, c: seq<byte>, d: seq<byte>, rest: seq<byte>)
    ensures (a + (b + (c + d))) + rest == a + (b + (c + (d + rest)))
  {
  }

  lemma MinusComplete(minus: bool, i: seq<byte>, s: seq<byte>)
    requires IsInteger(i)
    ensures var t := (if minus then [0x2D] else []) + (i + s);
            (if StartsWith(t, 0x2D) then t[1..] else t) == i + s
  {
    assert [] + (i + s) == i + s;
    assert ([0x2D] + (i + s))[1..] == i + s;
  }

  lemma NumberComplete(n: NumberText, rest: seq<byte>)
    requires IsNumber(n) && EndsNumber(rest)
    ensures ParseNumber(NumberBytes(n) + rest) == Parsed((NumberIsAscii(n); AsciiString(NumberBytes(n))), rest)
  {
    var bs := NumberBytes(n);
    var s := bs + rest;
    assert ParseNumberEnd(s) == Parsed((), rest) by { NumberEndComplete(n, rest); }
    assert Decode(bs).Some? && Decode(bs).value == (NumberIsAscii(n); AsciiString(bs)) by {
      NumberIsAscii(n);
      AsciiDecodes(bs);
    }
    assert s[..|s| - |rest|] == bs;
  }

  // Strings

  lemma DigitComplete(d: byte, s: seq<byte>, count: nat, value: nat)
    requires IsHexDigit(d) && count > 0
    ensures ParseQuad([d] + s, count, value) == ParseQuad(s, count - 1, value * 16 + HexDigit(d))
  {
    assert ([d] + s)[1..] == s;
  }

  lemma QuadComplete(q: seq<byte>, s: seq<byte>)
    requires IsQuad(q)
    ensures ParseQuad(q + s, 4, 0) == Parsed(QuadValue(q), s)
  {
    hide ParseQuad, HexDigit, IsHexDigit;
    assert q + s == [q[0]] + ([q[1]] + ([q[2]] + ([q[3]] + s)));
    DigitComplete(q[0], [q[1]] + ([q[2]] + ([q[3]] + s)), 4, 0);
    DigitComplete(q[1], [q[2]] + ([q[3]] + s), 3, HexDigit(q[0]));
    DigitComplete(q[2], [q[3]] + s, 2, HexDigit(q[0]) * 16 + HexDigit(q[1]));
    DigitComplete(q[3], s, 1, (HexDigit(q[0]) * 16 + HexDigit(q[1])) * 16 + HexDigit(q[2]));
    QuadDone(s, QuadValue(q));
  }

  lemma QuadDone(s: seq<byte>, value: nat)
    ensures ParseQuad(s, 0, value) == Parsed(value, s)
  {
  }

  lemma RawComplete(c: char, s: seq<byte>, output: string)
    requires IsUnescaped(c)
    ensures ParseChars(EncodeChar(c) + s, output) == ParseChars(s, output + [c])
  {
    var bs := EncodeChar(c);
    var t := bs + s;
    assert t[..|bs|] == bs && t[|bs|..] == s && t[0] == bs[0];
    DecodeEncodedChar(c);
    if c as int >= 0x80 {
      DecodeEncoded([c]);
      assert Encode([c]) == bs + Encode([]) == bs;
      assert ParseWide(t) == Parsed([c], s);
    }
  }

  lemma LowComplete(high: nat, low: seq<byte>, s: seq<byte>)
    requires HighSurrogate(high) && IsQuad(low) && LowSurrogate(QuadValue(low))
    ensures ParseLow([0x5C, 0x75] + (low + s), high) == Parsed(PairChar(high, QuadValue(low)), s)
  {
    var t := [0x5C, 0x75] + (low + s);
    assert t[1..] == [0x75] + (low + s) && t[2..] == low + s;
    QuadComplete(low, s);
  }

  lemma EscapeComplete(p: Piece, s: seq<byte>)
    requires IsPiece(p) && !p.Raw?
    ensures ParseEscape((PieceBytes(p) + s)[1..]) == Parsed(PieceChar(p), s)
  {
    hide ParseEscape, PieceChar;
    match p
    case Short(letter) =>
      ShortComplete(letter, s);
      Cut(letter, [], s);
      assert [0x5C, letter] + [] == [0x5C, letter] && [] + s == s;
    case Hex(quad) =>
      HexComplete(quad, s);
      Cut(0x75, quad, s);
    case Pair(high, low) =>
      PairComplete(high, low, s);
      Cut(0x75, high + ([0x5C, 0x75] + low), s);
      Nested(high, [0x5C, 0x75], low, s);
  }

  lemma Cut(letter: byte, text: seq<byte>, s: seq<byte>)
    ensures (([0x5C, letter] + text) + s)[1..] == [letter] + (text + s)
  {
  }

  lemma ShortComplete(letter: byte, s: seq<byte>)
    requires IsPiece(Short(letter))
    ensures ParseEscape([letter] + s) == Parsed(PieceChar(Short(letter)), s)
  {
    assert ([letter] + s)[1..] == s;
  }

  lemma HexComplete(quad: seq<byte>, s: seq<byte>)
    requires IsPiece(Hex(quad))
    ensures ParseEscape([0x75] + (quad + s)) == Parsed(PieceChar(Hex(quad)), s)
  {
    hide ParseQuad, QuadValue;
    assert ([0x75] + (quad + s))[1..] == quad + s;
    QuadComplete(quad, s);
  }

  lemma PairComplete(high: seq<byte>, low: seq<byte>, s: seq<byte>)
    requires IsPiece(Pair(high, low))
    ensures ParseEscape([0x75] + (high + ([0x5C, 0x75] + (low + s)))) == Parsed(PieceChar(Pair(high, low)), s)
  {
    hide ParseQuad, ParseLow, QuadValue;
    var tail := [0x5C, 0x75] + (low + s);
    assert ([0x75] + (high + tail))[1..] == high + tail;
    QuadComplete(high, tail);
    LowComplete(QuadValue(high), low, s);
  }

  /** One piece adds its one character to the string that is being read. */
  lemma PieceComplete(p: Piece, s: seq<byte>, output: string)
    requires IsPiece(p)
    ensures ParseChars(PieceBytes(p) + s, output) == ParseChars(s, output + [PieceChar(p)])
  {
    if p.Raw? {
      RawComplete(p.c, s, output);
    } else {
      EscapeComplete(p, s);
    }
  }

  lemma CloseComplete(rest: seq<byte>, output: string)
    ensures ParseChars([0x22] + rest, output) == Parsed(output, rest)
  {
    assert ([0x22] + rest)[1..] == rest;
  }

  lemma {:induction false} CharsComplete(ps: seq<Piece>, rest: seq<byte>, output: string)
    requires ArePieces(ps)
    ensures ParseChars(PiecesBytes(ps) + rest, output) == Parsed(output + PiecesString(ps), rest)
  {
    hide ParseChars, PieceChar, PieceBytes;
    if ps == [] {
      CloseComplete(rest, output);
      assert output + PiecesString(ps) == output;
    } else {
      var tail := PiecesBytes(ps[1..]) + rest;
      PieceComplete(ps[0], tail, output);
      CharsComplete(ps[1..], rest, output + [PieceChar(ps[0])]);
      assert PiecesBytes(ps) + rest == PieceBytes(ps[0]) + tail;
      assert output + [PieceChar(ps[0])] + PiecesString(ps[1..]) == output + PiecesString(ps);
    }
  }

  lemma StringComplete(ps: seq<Piece>, rest: seq<byte>)
    requires ArePieces(ps)
    ensures ParseString([0x22] + (PiecesBytes(ps) + rest)) == Parsed(PiecesString(ps), rest)
  {
    assert ([0x22] + (PiecesBytes(ps) + rest))[1..] == PiecesBytes(ps) + rest;
    CharsComplete(ps, rest, "");
    assert "" + PiecesString(ps) == PiecesString(ps);
  }

  // Values

  lemma ValueSkipsSpace(ws: seq<byte>, s: seq<byte>)
    requires AllSpace(ws)
    ensures ParseValue(ws + s) == ParseValue(s)
  {
    SpaceIsSkipped(ws, s);
  }

  /** White space before the next token does not matter. */
  lemma TokenAfterSpace(ws: seq<byte>, token: byte, s: seq<byte>)
    requires AllSpace(ws) && !IsSpace(token)
    ensures SkipSpace(ws + ([token] + s)) == [token] + s
    ensures ([token] + s)[1..] == s
  {
    SpaceIsSkipped(ws, [token] + s);
  }

  lemma NumberFirstByte(n: NumberText)
    requires IsNumber(n)
    ensures NumberBytes(n) != []
    ensures NumberBytes(n)[0] == 0x2D || IsDigit(NumberBytes(n)[0])
  {
  }

  /** No value begins with white space or a closing bracket. */
  lemma FirstByte(t: Tree)
    requires WellFormed(t)
    ensures Bytes(t) != [] && !IsSpace(Bytes(t)[0]) && Bytes(t)[0] != 0x5D
  {
    if t.NumberTree? {
      NumberFirstByte(t.number);
    }
  }

  lemma ValueAfterSpace(ws: seq<byte>, t: Tree, s: seq<byte>)
    requires AllSpace(ws) && WellFormed(t)
    ensures SkipSpace(ws + (Bytes(t) + s)) == Bytes(t) + s
  {
    FirstByte(t);
    SpaceIsSkipped(ws, Bytes(t) + s);
  }

  lemma ArrayOpens(s: seq<byte>)
    ensures ParseValue([0x5B] + s) ==
            var inside := SkipSpace(s);
            if StartsWith(inside, 0x5D) then Parsed(Array([]), inside[1..]) else ParseItems(inside, [])
  {
    hide ParseNumber, ParseString, ParseMembers, ParseItems;
    assert ([0x5B] + s)[1..] == s;
  }

  lemma ObjectOpens(s: seq<byte>)
    ensures ParseValue([0x7B] + s) ==
            var inside := SkipSpace(s);
            if StartsWith(inside, 0x7D) then Parsed(Object(map[]), inside[1..]) else ParseMembers(inside, map[])
  {
    hide ParseNumber, ParseString, ParseMembers, ParseItems;
    assert ([0x7B] + s)[1..] == s;
  }

  lemma ScalarComplete(t: Tree, rest: seq<byte>)
    requires WellFormed(t) && EndsNumber(rest)
    requires t.NullTree? || t.BoolTree? || t.NumberTree? || t.StringTree?
    ensures ParseValue(Bytes(t) + rest) == Parsed(Denote(t), rest)
  {
    hide ParseNumber, ParseChars, PiecesBytes, PiecesString, NumberBytes, IsNumber;
    var s := Bytes(t) + rest;
    FirstByte(t);
    assert SkipSpace(s) == s;
    assert s[|Bytes(t)|..] == rest && s[..|Bytes(t)|] == Bytes(t);
    match t
    case NumberTree(n) =>
      NumberFirstByte(n);
      NumberComplete(n, rest);
    case StringTree(ps) =>
      assert s == [0x22] + (PiecesBytes(ps) + rest);
      StringComplete(ps, rest);
    case _ =>
  }

  lemma {:induction false} ValueComplete(t: Tree, rest: seq<byte>)
    requires WellFormed(t) && DistinctKeys(t)
    requires EndsNumber(rest)
    ensures ParseValue(Bytes(t) + rest) == Parsed(Denote(t), rest)
    decreases t, 0
  {
    hide ParseValue, ParseItems, ParseMembers, SkipSpace, DenoteItems, DenoteMembers, ItemsBytes, MembersBytes,
        WellFormedItems, WellFormedMembers, DistinctKeysItems, DistinctKeysMembers, EndsNumber;
    match t
    case EmptyArray(ws) =>
      assert Bytes(t) + rest == [0x5B] + (ws + ([0x5D] + rest));
      TokenAfterSpace(ws, 0x5D, rest);
      ArrayOpens(ws + ([0x5D] + rest));
    case EmptyObject(ws) =>
      assert Bytes(t) + rest == [0x7B] + (ws + ([0x7D] + rest));
      TokenAfterSpace(ws, 0x7D, rest);
      ObjectOpens(ws + ([0x7D] + rest));
    case ArrayTree(items) =>
      assert Bytes(t) + rest == [0x5B] + (ItemsBytes(items) + rest);
      ArrayOpens(ItemsBytes(items) + rest);
      ItemsStart(items, rest, []);
      ItemsComplete(items, rest, []);
      assert [] + DenoteItems(items) == DenoteItems(items);
    case ObjectTree(members) =>
      assert Bytes(t) + rest == [0x7B] + (MembersBytes(members) + rest);
      ObjectOpens(MembersBytes(members) + rest);
      MembersStart(members, rest, map[]);
      MembersComplete(members, rest, map[]);
      assert map[] + DenoteMembers(members) == DenoteMembers(members);
    case _ =>
      ScalarComplete(t, rest);
  }

  /** What follows the last value of `items` and its white space. */
  function ItemsTail(items: Items, rest: seq<byte>): seq<byte> {
    if items.LastItem? then [0x5D] + rest else [0x2C] + (ItemsBytes(items.others) + rest)
  }

  lemma ItemsText(items: Items, rest: seq<byte>)
    ensures ItemsBytes(items) + rest == items.before + (Bytes(items.item) + (items.after + ItemsTail(items, rest)))
  {
    hide Bytes;
  }

  lemma ItemsStart(items: Items, rest: seq<byte>, values: seq<JsonValue>)
    requires WellFormedItems(items)
    ensures !StartsWith(SkipSpace(ItemsBytes(items) + rest), 0x5D)
    ensures ParseItems(SkipSpace(ItemsBytes(items) + rest), values) == ParseItems(ItemsBytes(items) + rest, values)
  {
    var tail := items.after + ItemsTail(items, rest);
    ItemsText(items, rest);
    ValueAfterSpace(items.before, items.item, tail);
    ValueSkipsSpace(items.before, Bytes(items.item) + tail);
    FirstByte(items.item);
  }

  lemma TailEndsNumber(ws: seq<byte>, token: byte, s: seq<byte>)
    requires AllSpace(ws) && token in {0x2C, 0x5D, 0x7D}
    ensures EndsNumber(ws + ([token] + s))
  {
    var t := ws + ([token] + s);
    assert t[0] == if ws == [] then token else ws[0];
  }

  lemma {:induction false} ItemsComplete(items: Items, rest: seq<byte>, values: seq<JsonValue>)
    requires WellFormedItems(items) && DistinctKeysItems(items)
    ensures ParseItems(ItemsBytes(items) + rest, values) == Parsed(Array(values + DenoteItems(items)), rest)
    decreases items, 1
  {
    hide ParseValue, SkipSpace, Bytes;
    var afterItem := items.after + ItemsTail(items, rest);
    ItemsText(items, rest);
    ValueSkipsSpace(items.before, Bytes(items.item) + afterItem);
    match items
    case LastItem(_, item, after) =>
      TailEndsNumber(after, 0x5D, rest);
      ValueComplete(item, afterItem);
      TokenAfterSpace(after, 0x5D, rest);
      assert DenoteItems(items) == [Denote(item)];
    case MoreItems(_, item, after, others) =>
      var tail := ItemsBytes(others) + rest;
      TailEndsNumber(after, 0x2C, tail);
      ValueComplete(item, afterItem);
      TokenAfterSpace(after, 0x2C, tail);
      ItemsStart(others, rest, values + [Denote(item)]);
      ItemsComplete(others, rest, values + [Denote(item)]);
      assert values + [Denote(item)] + DenoteItems(others) == values + DenoteItems(items);
  }

  function MembersTail(ms: Members, rest: seq<byte>): seq<byte> {
    if ms.LastMember? then [0x7D] + rest else [0x2C] + (MembersBytes(ms.others) + rest)
  }

  function FromItem(ms: Members, rest: seq<byte>): seq<byte> {
    Bytes(ms.member.item) + (ms.member.after + MembersTail(ms, rest))
  }

  function FromColon(ms: Members, rest: seq<byte>): seq<byte> {
    ms.member.beforeColon + ([0x3A] + (ms.member.afterColon + FromItem(ms, rest)))
  }

  lemma MembersText(ms: Members, rest: seq<byte>)
    ensures MembersBytes(ms) + rest == ms.member.before + ([0x22] + (PiecesBytes(ms.member.key) + FromColon(ms, rest)))
  {
    hide Bytes, PiecesBytes;
    var m, tail := ms.member, MembersTail(ms, rest);
    var item := Bytes(m.item) + m.after;
    var colon := m.beforeColon + ([0x3A] + (m.afterColon + item));
    MembersSplit(ms, rest);
    Nested(m.before, [0x22], PiecesBytes(m.key) + colon, tail);
    Nested(PiecesBytes(m.key), m.beforeColon, [0x3A] + (m.afterColon + item), tail);
    Nested([0x3A], m.afterColon, item, tail);
    assert item + tail == FromItem(ms, rest);
  }

  lemma Nested(a: seq<byte>, b: seq<byte>, c: seq<byte>, d: seq<byte>)
    ensures (a + (b + c)) + d == a + (b + (c + d))
  {
  }

  lemma MembersSplit(ms: Members, rest: seq<byte>)
    ensures MembersBytes(ms) + rest == MemberBytes(ms.member) + MembersTail(ms, rest)
  {
    hide MemberBytes;
  }

  lemma MembersStart(ms: Members, rest: seq<byte>, members: map<string, JsonValue>)
    requires WellFormedMembers(ms)
    ensures !StartsWith(SkipSpace(MembersBytes(ms) + rest), 0x7D)
    ensures ParseMembers(SkipSpace(MembersBytes(ms) + rest), members) == ParseMembers(MembersBytes(ms) + rest, members)
  {
    hide Bytes, PiecesBytes, MembersBytes, FromColon, SkipSpace, ParseString, ParseValue;
    var s := PiecesBytes(ms.member.key) + FromColon(ms, rest);
    MembersText(ms, rest);
    assert WellFormedMember(ms.member);
    TokenAfterSpace(ms.member.before, 0x22, s);
    TokenAfterSpace([], 0x22, s);
    assert [] + ([0x22] + s) == [0x22] + s;
  }

  lemma {:induction false} MemberComplete(ms: Members, rest: seq<byte>)
    requires WellFormedMembers(ms) && DistinctKeysMembers(ms)
    ensures WellFormedMember(ms.member)
    ensures ParseMember(MembersBytes(ms) + rest)
            == Parsed((KeyOf(ms.member), Denote(ms.member.item)), ms.member.after + MembersTail(ms, rest))
    decreases ms, 1
  {
    hide ParseValue, ParseString, SkipSpace, Bytes, PiecesBytes, PiecesString;
    var m := ms.member;
    assert WellFormedMember(m);
    var afterItem := m.after + MembersTail(ms, rest);
    var fromItem := FromItem(ms, rest);
    MembersText(ms, rest);
    TokenAfterSpace(m.before, 0x22, PiecesBytes(m.key) + FromColon(ms, rest));
    StringComplete(m.key, FromColon(ms, rest));
    TokenAfterSpace(m.beforeColon, 0x3A, m.afterColon + fromItem);
    ValueAfterSpace(m.afterColon, m.item, afterItem);
    TailEndsNumber(m.after, if ms.LastMember? then 0x7D else 0x2C, if ms.LastMember? then rest
        else MembersBytes(ms.others) + rest);
    ValueComplete(m.item, afterItem);
  }

  lemma {:induction false} MembersComplete(ms: Members, rest: seq<byte>, members: map<string, JsonValue>)
    requires WellFormedMembers(ms) && DistinctKeysMembers(ms)
    requires members.Keys !! DenoteMembers(ms).Keys
    ensures ParseMembers(MembersBytes(ms) + rest, members) == Parsed(Object(members + DenoteMembers(ms)), rest)
    decreases ms, 2
  {
    hide ParseMember, SkipSpace, Bytes, MemberBytes, WellFormed, Denote, DistinctKeys, PiecesString;
    var m := ms.member;
    MemberComplete(ms, rest);
    var extended := members[KeyOf(m) := Denote(m.item)];
    match ms
    case LastMember(_) =>
      TokenAfterSpace(m.after, 0x7D, rest);
      assert members + DenoteMembers(ms) == extended;
    case MoreMembers(_, others) =>
      TokenAfterSpace(m.after, 0x2C, MembersBytes(others) + rest);
      MembersComplete(others, rest, extended);
      assert extended + DenoteMembers(others) == members + DenoteMembers(ms);
  }

  /** Completeness: the parser returns the value of any text of the grammar. */
  lemma TextComplete(bs: seq<byte>, v: JsonValue)
    requires JsonText(bs, v)
    ensures ParseText(bs) == Parsed(v, [])
  {
    var before: seq<byte>, t: Tree, after: seq<byte> :| SpansText(bs, before, t, after) && Denote(t) == v;
    SpaceIsSkipped(before, Bytes(t) + after);
    FirstByte(t);
    ValueComplete(t, after);
    SpaceIsSkipped(after, []);
    assert after + [] == after;
  }
}

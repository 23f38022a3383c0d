/** The printer's text is in the grammar and denotes the value printed, so parsing undoes it. */
module JsonRoundTrip {
  import opened Prelude
  import opened Utf8
  import opened KeyOrder
  import opened JsonValues
  import opened JsonGrammar
  import opened JsonParsing
  import opened JsonPrinting
  import opened JsonParser
  import Completeness = JsonCompleteness
  import Soundness = JsonSoundness

  ghost predicate IsNumberText(text: string) {
    exists n :: IsNumber(n) && (NumberIsAscii(n); AsciiString(NumberBytes(n)) == text)
  }

  /** The text of every number is a number of section 6 of RFC 8259. */
  ghost predicate ValidNumbers(v: JsonValue)
    decreases v
  {
    match v
    case Number(text) => IsNumberText(text)
    case Array(items) => forall i | 0 <= i < |items| :: ValidNumbers(items[i])
    case Object(members) => forall k | k in members :: ValidNumbers(members[k])
    case _ => true
  }

  // Strings

  function LetterByte(d: nat): (b: byte)
    requires d < 16
    ensures IsHexDigit(b) && HexDigit(b) == d && b < 0x80 && HexLetter(d) == b as char
  {
    if d < 10 then 0x30 + d else 0x61 + d - 10
  }

  function PrettyPiece(c: char): Piece {
    if c == '\"' then Short(0x22)
    else if c == '\\' then Short(0x5C)
    else if c as int == 8 then Short(0x62)
    else if c as int == 12 then Short(0x66)
    else if c == '\n' then Short(0x6E)
    else if c == '\r' then Short(0x72)
    else if c == '\t' then Short(0x74)
    else if c as int <= 0x1F then Hex([0x30, 0x30, LetterByte(c as int / 16), LetterByte(c as int % 16)])
    else Raw(c)
  }

  function PrettyPieces(s: string): (ps: seq<Piece>)
    ensures |ps| == |s| && forall i | 0 <= i < |s| :: ps[i] == PrettyPiece(s[i])
  {
    seq(|s|, i requires 0 <= i < |s| => PrettyPiece(s[i]))
  }

  lemma EncodeAscii(c: char, s: string)
    requires c as int < 0x80
    ensures Encode([c] + s) == [c as int] + Encode(s)
  {
    assert ([c] + s)[1..] == s;
  }

  lemma EncodeTwo(c: char, d: char)
    requires c as int < 0x80
    ensures Encode([c, d]) == [c as int] + EncodeChar(d)
  {
    assert [c, d][1..] == [d] && [d][1..] == [];
    assert EncodeChar(d) + Encode([]) == EncodeChar(d);
  }

  lemma ControlPieceCorrect(c: char)
    requires PrettyPiece(c).Hex?
    ensures IsPiece(PrettyPiece(c)) && PieceChar(PrettyPiece(c)) == c
  {
    var quad := PrettyPiece(c).quad;
    assert QuadValue(quad) == HexDigit(quad[2]) * 16 + HexDigit(quad[3]) == c as int;
  }

  lemma ControlPieceBytes(c: char)
    requires PrettyPiece(c).Hex?
    ensures Encode(EscapeChar(c)) == PieceBytes(PrettyPiece(c))
  {
    hide Encode;
    var high, low := HexLetter(c as int / 16), HexLetter(c as int % 16);
    EncodeTwo('\\', 'u');
    EncodeTwo('0', '0');
    EncodeTwo(high, low);
    EncodeConcat("\\u", "00");
    assert "\\u" + "00" == "\\u00";
    EncodeConcat("\\u00", [high, low]);
    assert [0x5C, 0x75] + [0x30, 0x30] + [high as int, low as int] == PieceBytes(PrettyPiece(c));
  }

  lemma PrettyPieceCorrect(c: char)
    ensures IsPiece(PrettyPiece(c)) && PieceChar(PrettyPiece(c)) == c
    ensures Encode(EscapeChar(c)) == PieceBytes(PrettyPiece(c))
  {
    var p := PrettyPiece(c);
    if p.Hex? {
      ControlPieceCorrect(c);
      ControlPieceBytes(c);
    } else if p.Raw? {
      assert [c][1..] == [] && EncodeChar(c) + [] == EncodeChar(c);
    } else {
      EncodeTwo('\\', EscapeChar(c)[1]);
      assert EscapeChar(c) == ['\\', EscapeChar(c)[1]];
    }
  }

  lemma PiecesStep(p: Piece, ps: seq<Piece>)
    requires IsPiece(p) && ArePieces(ps)
    ensures ArePieces([p] + ps)
    ensures PiecesBytes([p] + ps) == PieceBytes(p) + PiecesBytes(ps)
    ensures PiecesString([p] + ps) == [PieceChar(p)] + PiecesString(ps)
  {
    hide IsPiece, PieceBytes, PieceChar;
    assert ([p] + ps)[1..] == ps;
  }

  lemma {:induction false} PrettyPiecesCorrect(s: string)
    ensures ArePieces(PrettyPieces(s)) && PiecesString(PrettyPieces(s)) == s
    ensures Encode(EscapeChars(s) + "\"") == PiecesBytes(PrettyPieces(s))
  {
    hide PrettyPiece, EscapeChar, PieceBytes, PieceChar, IsPiece, Encode;
    if s == "" {
      EncodeAscii('\"', "");
      assert "" + "\"" == ['\"'] + "" && Encode("") == [] by { NoBytes(); }
    } else {
      hide ArePieces, PiecesString, PiecesBytes;
      PrettyPieceCorrect(s[0]);
      PrettyPiecesCorrect(s[1..]);
      PiecesStep(PrettyPiece(s[0]), PrettyPieces(s[1..]));
      assert PrettyPieces(s) == [PrettyPiece(s[0])] + PrettyPieces(s[1..]);
      assert [s[0]] + s[1..] == s;
      Append(EscapeChar(s[0]), EscapeChars(s[1..]), "\"");
      EncodeConcat(EscapeChar(s[0]), EscapeChars(s[1..]) + "\"");
    }
  }

  lemma NoBytes()
    ensures Encode("") == []
  {
  }

  lemma QuoteBytes(s: string)
    ensures Encode(Quote(s)) == [0x22] + PiecesBytes(PrettyPieces(s))
  {
    EncodeAscii('\"', EscapeChars(s) + "\"");
    PrettyPiecesCorrect(s);
  }

  // Trees

  function Spaces(count: nat): (ws: seq<byte>)
    ensures AllSpace(ws)
  {
    if count == 0 then [] else [0x20, 0x20] + Spaces(count - 1)
  }

  lemma {:induction false} IndentBytes(depth: nat)
    ensures Encode(Indent(depth)) == Spaces(depth)
  {
    if depth != 0 {
      IndentBytes(depth - 1);
      EncodeTwo(' ', ' ');
      EncodeConcat("  ", Indent(depth - 1));
    }
  }

  ghost function NumberOf(text: string): (n: NumberText)
    requires IsNumberText(text)
    ensures IsNumber(n) && (NumberIsAscii(n); AsciiString(NumberBytes(n)) == text)
  {
    var n :| IsNumber(n) && (NumberIsAscii(n); AsciiString(NumberBytes(n)) == text);
    n
  }

  /** The parse tree of the printed text. */
  ghost function PrettyTree(v: JsonValue, depth: nat): Tree
    requires ValidNumbers(v)
    decreases v, 1
  {
    match v
    case Null => NullTree
    case Bool(b) => BoolTree(b)
    case Number(text) => NumberTree(NumberOf(text))
    case String(chars) => StringTree(PrettyPieces(chars))
    case Array(items) => if items == [] then EmptyArray([]) else ArrayTree(PrettyItems(items, depth))
    case Object(members) =>
      if members == map[] then EmptyObject([]) else ObjectTree(PrettyMembers(v, Sorted(members.Keys), depth))
  }

  ghost function PrettyItems(items: seq<JsonValue>, depth: nat): Items
    requires items != [] && forall i | 0 <= i < |items| :: ValidNumbers(items[i])
    decreases items, 0
  {
    var before := [0x0A] + Spaces(depth + 1);
    var item := PrettyTree(items[0], depth + 1);
    if |items| == 1 then LastItem(before, item, [0x0A] + Spaces(depth))
    else MoreItems(before, item, [], PrettyItems(items[1..], depth))
  }

  ghost function PrettyMember(v: JsonValue, key: string, last: bool, depth: nat): Member
    requires v.Object? && key in v.members && ValidNumbers(v)
    decreases v, 0, 0
  {
    Member([0x0A] + Spaces(depth + 1), PrettyPieces(key), [], [0x20], PrettyTree(v.members[key], depth + 1),
           if last then [0x0A] + Spaces(depth) else [])
  }

  ghost function PrettyMembers(v: JsonValue, keys: seq<string>, depth: nat): Members
    requires v.Object? && ValidNumbers(v) && keys != [] && forall k | k in keys :: k in v.members
    decreases v, 0, |keys|
  {
    var member := PrettyMember(v, keys[0], |keys| == 1, depth);
    if |keys| == 1 then LastMember(member) else MoreMembers(member, PrettyMembers(v, keys[1..], depth))
  }

  lemma NumberTextBytes(text: string)
    requires IsNumberText(text)
    ensures Encode(text) == NumberBytes(NumberOf(text))
  {
    var n := NumberOf(text);
    NumberIsAscii(n);
    Completeness.AsciiDecodes(NumberBytes(n));
    EncodeDecoded(NumberBytes(n));
  }

  lemma LiteralBytes()
    ensures Encode("null") == [0x6E, 0x75, 0x6C, 0x6C]
    ensures Encode("true") == [0x74, 0x72, 0x75, 0x65]
    ensures Encode("false") == [0x66, 0x61, 0x6C, 0x73, 0x65]
    ensures Encode("[]") == [0x5B, 0x5D] && Encode("{}") == [0x7B, 0x7D]
  {
    hide Encode;
    EncodeTwo('n', 'u');
    EncodeTwo('l', 'l');
    EncodeConcat("nu", "ll");
    EncodeTwo('t', 'r');
    EncodeTwo('u', 'e');
    EncodeConcat("tr", "ue");
    EncodeTwo('f', 'a');
    EncodeTwo('l', 's');
    EncodeConcat("fa", "ls");
    EncodeAscii('e', "");
    assert "e" == ['e'] + "";
    EncodeConcat("fals", "e");
    EncodeTwo('[', ']');
    EncodeTwo('{', '}');
    assert "nu" + "ll" == "null" && "tr" + "ue" == "true" && "fa" + "ls" == "fals" && "fals" + "e" == "false";
  }

  /** The rest of a block: its lines, the indentation and the closing bracket. */
  function Block(lines: string, depth: nat, close: char): string {
    lines + (Indent(depth) + [close])
  }

  lemma CloseBytes(depth: nat, close: char)
    requires close as int < 0x80
    ensures Encode("\n" + Block("", depth, close)) == [0x0A] + (Spaces(depth) + [close as int])
  {
    IndentBytes(depth);
    EncodeConcat(Indent(depth), [close]);
    EncodeAscii(close, "");
    assert [close] + "" == [close];
    assert Block("", depth, close) == Indent(depth) + [close];
    EncodeAscii('\n', Block("", depth, close));
  }

  lemma LineInBlock(depth: nat, content: string, last: bool, lines: string, close: char)
    ensures "\n" + Block(Line(depth, content, last) + lines, depth, close)
            == ['\n'] + (Indent(depth + 1)
                + (content + ((if last then "" else ",") + ("\n" + Block(lines, depth, close)))))
  {
    hide Indent;
    var end, close := if last then "\n" else ",\n", Indent(depth) + [close];
    var comma := if last then "" else ",";
    assert end == comma + "\n";
    assert Line(depth, content, last) == Indent(depth + 1) + (content + end);
    Append(Indent(depth + 1) + (content + end), lines, close);
    Append(Indent(depth + 1), content + end, lines + close);
    Append(content, end, lines + close);
    Append(comma, "\n", lines + close);
    assert "\n" == ['\n'];
  }

  /** A line in front of a block: the comma belongs to the line, the line break to what follows. */
  lemma LineBytes(depth: nat, content: string, last: bool, lines: string, close: char)
    ensures Encode("\n" + Block(Line(depth, content, last) + lines, depth, close))
            == [0x0A] + (Spaces(depth + 1) + (Encode(content)
               + ((if last then [] else [0x2C]) + Encode("\n" + Block(lines, depth, close)))))
  {
    hide Encode, Indent, Block, Line, Spaces, EncodeChar;
    var indent, tail := Indent(depth + 1), "\n" + Block(lines, depth, close);
    var comma := if last then "" else ",";
    LineInBlock(depth, content, last, lines, close);
    EncodeAscii('\n', indent + (content + (comma + tail)));
    IndentBytes(depth + 1);
    EncodeConcat(indent, content + (comma + tail));
    EncodeConcat(content, comma + tail);
    EncodeConcat(comma, tail);
    CommaBytes(last);
  }

  lemma CommaBytes(last: bool)
    ensures Encode(if last then "" else ",") == if last then [] else [0x2C]
  {
    EncodeAscii(',', "");
    assert [','] + "" == ",";
  }

  lemma {:induction false} PrettyTreeCorrect(v: JsonValue, depth: nat)
    requires ValidNumbers(v)
    ensures WellFormed(PrettyTree(v, depth)) && DistinctKeys(PrettyTree(v, depth))
    ensures Denote(PrettyTree(v, depth)) == v
    ensures Encode(Render(v, depth)) == Bytes(PrettyTree(v, depth))
    decreases v, 2
  {
    hide Encode, Quote, NumberBytes, PiecesBytes, PiecesString;
    match v
    case Number(text) => NumberTextBytes(text);
    case String(chars) =>
      QuoteBytes(chars);
      PrettyPiecesCorrect(chars);
    case Array(items) => ArrayCorrect(v, depth);
    case Object(members) => ObjectCorrect(v, depth);
    case _ => LiteralBytes();
  }

  lemma {:induction false} ArrayCorrect(v: JsonValue, depth: nat)
    requires v.Array? && ValidNumbers(v)
    ensures WellFormed(PrettyTree(v, depth)) && DistinctKeys(PrettyTree(v, depth))
    ensures Denote(PrettyTree(v, depth)) == v
    ensures Encode(Render(v, depth)) == Bytes(PrettyTree(v, depth))
    decreases v, 1
  {
    hide Encode, RenderItems, Indent, PrettyItems, DenoteItems, WellFormedItems, DistinctKeysItems, ItemsBytes;
    if v.items == [] {
      LiteralBytes();
    } else {
      PrettyItemsCorrect(v.items, depth);
      var block := "\n" + Block(RenderItems(v.items, depth), depth, ']');
      assert Render(v, depth) == ['['] + block;
      EncodeAscii('[', block);
    }
  }

  lemma {:induction false} ObjectCorrect(v: JsonValue, depth: nat)
    requires v.Object? && ValidNumbers(v)
    ensures WellFormed(PrettyTree(v, depth)) && DistinctKeys(PrettyTree(v, depth))
    ensures Denote(PrettyTree(v, depth)) == v
    ensures Encode(Render(v, depth)) == Bytes(PrettyTree(v, depth))
    decreases v, 1
  {
    hide PrettyTree, Render, Encode, PrettyMembers, DenoteMembers, WellFormedMembers, DistinctKeysMembers,
        MembersBytes, RenderMembers, Block, ValidNumbers;
    ObjectText(v, depth);
    if v.members == map[] {
      LiteralBytes();
    } else {
      var keys := Sorted(v.members.Keys);
      SortedKeys(v.members);
      PrettyMembersCorrect(v, keys, depth);
      PrettyMembersBytes(v, keys, depth);
      EncodeAscii('{', "\n" + Block(RenderMembers(v, keys, depth), depth, '}'));
      ObjectTreeMeans(PrettyMembers(v, keys, depth));
    }
  }

  lemma ObjectTreeMeans(ms: Members)
    requires WellFormedMembers(ms) && DistinctKeysMembers(ms)
    ensures WellFormed(ObjectTree(ms)) && DistinctKeys(ObjectTree(ms))
    ensures Denote(ObjectTree(ms)) == Object(DenoteMembers(ms))
    ensures Bytes(ObjectTree(ms)) == [0x7B] + MembersBytes(ms)
  {
    hide DenoteMembers, MembersBytes;
  }

  lemma SortedKeys(members: map<string, JsonValue>)
    requires members != map[]
    ensures Sorted(members.Keys) != [] && Distinct(Sorted(members.Keys))
    ensures Picked(members, Sorted(members.Keys)) == members
  {
    hide Ascending;
    SortedDistinct(members.Keys);
    PickedAll(members);
    assert members.Keys != {};
    assert |Sorted(members.Keys)| == |members.Keys|;
  }

  /** The text and the tree of an object, unfolded once. */
  lemma ObjectText(v: JsonValue, depth: nat)
    requires v.Object? && ValidNumbers(v)
    ensures v.members == map[] ==> Render(v, depth) == "{}" && PrettyTree(v, depth) == EmptyObject([])
    ensures v.members != map[] ==>
              var keys := Sorted(v.members.Keys);
              && keys != []
              && Render(v, depth) == ['{'] + ("\n" + Block(RenderMembers(v, keys, depth), depth, '}'))
              && PrettyTree(v, depth) == ObjectTree(PrettyMembers(v, keys, depth))
  {
    hide RenderMembers, Indent, PrettyMembers, Ascending;
    if v.members != map[] {
      SortedKeys(v.members);
    }
  }

  lemma RegroupLast(space: seq<byte>, item: seq<byte>, end: seq<byte>, close: seq<byte>)
    ensures [0x0A] + (space + (item + ([] + ([0x0A] + (end + close)))))
        == ([0x0A] + space) + (item + (([0x0A] + end) + close))
  {
  }

  lemma RegroupMore(space: seq<byte>, item: seq<byte>, others: seq<byte>)
    ensures [0x0A] + (space + (item + ([0x2C] + others))) == ([0x0A] + space) + (item + ([] + ([0x2C] + others)))
  {
  }

  lemma {:induction false} PrettyItemsCorrect(items: seq<JsonValue>, depth: nat)
    requires items != [] && forall i | 0 <= i < |items| :: ValidNumbers(items[i])
    ensures WellFormedItems(PrettyItems(items, depth)) && DistinctKeysItems(PrettyItems(items, depth))
    ensures DenoteItems(PrettyItems(items, depth)) == items
    ensures Encode("\n" + Block(RenderItems(items, depth), depth, ']')) == ItemsBytes(PrettyItems(items, depth))
    decreases items, 0
  {
    hide Encode, Render, Bytes, Block, Line, PrettyTree, Spaces;
    var rendered, others := Render(items[0], depth + 1), RenderItems(items[1..], depth);
    PrettyTreeCorrect(items[0], depth + 1);
    LineBytes(depth, rendered, |items| == 1, others, ']');
    if |items| == 1 {
      CloseBytes(depth, ']');
      assert items == [items[0]];
      RegroupLast(Spaces(depth + 1), Encode(rendered), Spaces(depth), [0x5D]);
    } else {
      PrettyItemsCorrect(items[1..], depth);
      assert items == [items[0]] + items[1..];
      RegroupMore(Spaces(depth + 1), Encode(rendered), ItemsBytes(PrettyItems(items[1..], depth)));
    }
  }

  lemma MemberContentBytes(v: JsonValue, key: string, depth: nat)
    requires v.Object? && key in v.members && ValidNumbers(v)
    requires Encode(Render(v.members[key], depth + 1)) == Bytes(PrettyTree(v.members[key], depth + 1))
    ensures MemberBytes(PrettyMember(v, key, false, depth))
            == [0x0A] + (Spaces(depth + 1) + Encode(Quote(key) + (": " + Render(v.members[key], depth + 1))))
  {
    hide Encode, Render, Bytes, PrettyTree, Quote, Spaces, PiecesBytes;
    var rendered := Render(v.members[key], depth + 1);
    QuoteBytes(key);
    EncodeConcat(Quote(key), ": " + rendered);
    EncodeConcat(": ", rendered);
    EncodeTwo(':', ' ');
    var pieces := PiecesBytes(PrettyPieces(key));
    var content := ([0x22] + pieces) + ([0x3A, 0x20] + Encode(rendered));
    assert MemberBytes(PrettyMember(v, key, false, depth))
        == ([0x0A] + Spaces(depth + 1)) + ([0x22] + (pieces + ([] + ([0x3A] + ([0x20] + (Encode(rendered) + []))))));
    assert content == [0x22] + (pieces + ([] + ([0x3A] + ([0x20] + (Encode(rendered) + [])))));
  }

  lemma MemberLineBytes(v: JsonValue, key: string, last: bool, lines: string, depth: nat)
    requires v.Object? && key in v.members && ValidNumbers(v)
    requires Encode(Render(v.members[key], depth + 1)) == Bytes(PrettyTree(v.members[key], depth + 1))
    ensures Encode("\n" + Block(Line(depth, Quote(key) + (": " + Render(v.members[key], depth + 1)), last) + lines,
        depth, '}'))
            == MemberBytes(PrettyMember(v, key, false, depth))
                + ((if last then [] else [0x2C]) + Encode("\n" + Block(lines, depth, '}')))
  {
    hide Encode, Render, Bytes, Block, Line, PrettyTree, Quote, Spaces, PiecesBytes, MemberBytes, PrettyMember;
    var content := Quote(key) + (": " + Render(v.members[key], depth + 1));
    LineBytes(depth, content, last, lines, '}');
    MemberContentBytes(v, key, depth);
  }

  lemma {:induction false} PrettyMembersCorrect(v: JsonValue, keys: seq<string>, depth: nat)
    requires v.Object? && ValidNumbers(v) && keys != [] && forall k | k in keys :: k in v.members
    requires Distinct(keys)
    ensures WellFormedMembers(PrettyMembers(v, keys, depth)) && DistinctKeysMembers(PrettyMembers(v, keys, depth))
    ensures DenoteMembers(PrettyMembers(v, keys, depth)) == Picked(v.members, keys)
    decreases v, 0, |keys|
  {
    hide Bytes, PrettyTree, PrettyMember, WellFormedMember, Picked, WellFormed, Denote, DistinctKeys, ValidNumbers;
    hide DenoteMembers, WellFormedMembers, DistinctKeysMembers, KeyOf;
    var key := keys[0];
    var member := PrettyMember(v, key, |keys| == 1, depth);
    MemberCorrect(v, key, |keys| == 1, depth);
    PickedStep(v.members, keys, map[]);
    if |keys| == 1 {
      PickedNone(v.members, map[key := v.members[key]]);
      LastMemberMeans(member);
    } else {
      PrettyMembersCorrect(v, keys[1..], depth);
      MoreMembersMean(member, PrettyMembers(v, keys[1..], depth));
    }
    Unchanged(Picked(v.members, keys));
  }

  lemma Unchanged<T>(m: map<string, T>)
    ensures map[] + m == m
  {
  }

  lemma LastMemberMeans(m: Member)
    requires WellFormedMember(m) && DistinctKeys(m.item)
    ensures WellFormedMembers(LastMember(m)) && DistinctKeysMembers(LastMember(m))
    ensures DenoteMembers(LastMember(m)) == map[KeyOf(m) := Denote(m.item)]
  {
    hide KeyOf, WellFormed;
  }

  lemma MoreMembersMean(m: Member, others: Members)
    requires WellFormedMember(m) && DistinctKeys(m.item)
    requires WellFormedMembers(others) && DistinctKeysMembers(others) && KeyOf(m) !in DenoteMembers(others)
    ensures WellFormedMembers(MoreMembers(m, others)) && DistinctKeysMembers(MoreMembers(m, others))
    ensures DenoteMembers(MoreMembers(m, others)) == map[KeyOf(m) := Denote(m.item)] + DenoteMembers(others)
  {
    hide KeyOf, WellFormed;
  }

  lemma {:induction false} PrettyMembersBytes(v: JsonValue, keys: seq<string>, depth: nat)
    requires v.Object? && ValidNumbers(v) && keys != [] && forall k | k in keys :: k in v.members
    ensures Encode("\n" + Block(RenderMembers(v, keys, depth), depth, '}'))
        == MembersBytes(PrettyMembers(v, keys, depth))
    decreases v, 0, |keys|
  {
    hide Encode, Render, Bytes, Block, Line, PrettyTree, Quote, Spaces, MemberBytes, PrettyMember;
    var key := keys[0];
    MemberCorrect(v, key, false, depth);
    MemberLineBytes(v, key, |keys| == 1, RenderMembers(v, keys[1..], depth), depth);
    if |keys| == 1 {
      CloseBytes(depth, '}');
      AfterMoved(v, key, depth);
      RegroupClose(MemberBytes(PrettyMember(v, key, false, depth)), Spaces(depth), [0x7D]);
    } else {
      PrettyMembersBytes(v, keys[1..], depth);
    }
  }

  lemma RegroupClose(member: seq<byte>, end: seq<byte>, close: seq<byte>)
    ensures member + ([] + ([0x0A] + (end + close))) == (member + ([0x0A] + end)) + close
  {
  }

  lemma {:induction false} MemberCorrect(v: JsonValue, key: string, last: bool, depth: nat)
    requires v.Object? && key in v.members && ValidNumbers(v)
    ensures var m := PrettyMember(v, key, last, depth);
            && WellFormedMember(m) && DistinctKeys(m.item)
            && KeyOf(m) == key && Denote(m.item) == v.members[key]
    ensures Encode(Render(v.members[key], depth + 1)) == Bytes(PrettyTree(v.members[key], depth + 1))
    decreases v, 0, 0
  {
    hide Encode, Render, Bytes, PrettyTree;
    PrettyTreeCorrect(v.members[key], depth + 1);
    PrettyPiecesCorrect(key);
  }

  lemma AfterMoved(v: JsonValue, key: string, depth: nat)
    requires v.Object? && key in v.members && ValidNumbers(v)
    ensures MemberBytes(PrettyMember(v, key, true, depth))
        == MemberBytes(PrettyMember(v, key, false, depth)) + ([0x0A] + Spaces(depth))
  {
    hide Bytes, PrettyTree, PiecesBytes;
  }

  // Main results

  /** The number texts of a parse tree are valid, so those of a parsed value are. */
  lemma {:induction false} DenotedNumbersValid(t: Tree)
    requires WellFormed(t)
    ensures ValidNumbers(Denote(t))
    decreases t
  {
    match t
    case NumberTree(n) =>
      NumberIsAscii(n);
      assert IsNumberText(AsciiString(NumberBytes(n)));
    case ArrayTree(items) => DenotedItemsValid(items);
    case ObjectTree(members) => DenotedMembersValid(members);
    case _ =>
  }

  lemma {:induction false} DenotedItemsValid(items: Items)
    requires WellFormedItems(items)
    ensures forall i | 0 <= i < |DenoteItems(items)| :: ValidNumbers(DenoteItems(items)[i])
    decreases items
  {
    DenotedNumbersValid(items.item);
    if items.MoreItems? {
      DenotedItemsValid(items.others);
    }
  }

  lemma {:induction false} DenotedMembersValid(ms: Members)
    requires WellFormedMembers(ms)
    ensures forall k | k in DenoteMembers(ms) :: ValidNumbers(DenoteMembers(ms)[k])
    decreases ms
  {
    assert WellFormedMember(ms.member);
    DenotedNumbersValid(ms.member.item);
    if ms.MoreMembers? {
      DenotedMembersValid(ms.others);
    }
  }

  lemma PrettyText(v: JsonValue)
    requires ValidNumbers(v)
    ensures JsonText(Encode(RenderPretty(v)), v)
  {
    hide WellFormed, DistinctKeys, Denote, Bytes, Render, Encode;
    var t := PrettyTree(v, 0);
    PrettyTreeCorrect(v, 0);
    EncodeConcat(Render(v, 0), "\n");
    EncodeAscii('\n', "");
    assert ['\n'] + "" == "\n" && Encode("") == [] by { EncodeConcat("", ""); }
    assert SpansText(Encode(RenderPretty(v)), [], t, [0x0A]);
  }

  lemma ParsedValueValid(text: string, v: JsonValue)
    requires ParsedJson(text) == Ok(v)
    ensures ValidNumbers(v)
  {
    Soundness.TextSound(Encode(text));
    var before: seq<byte>, t: Tree, after: seq<byte> :| SpansText(Encode(text), before, t, after) && Denote(t) == v;
    DenotedNumbersValid(t);
  }

  /** Parsing undoes printing for exactly the values whose number texts are JSON numbers. */
  lemma PrintThenParse(v: JsonValue)
    ensures ParsedJson(RenderPretty(v)) == Ok(v) <==> ValidNumbers(v)
  {
    if ValidNumbers(v) {
      PrettyText(v);
      Soundness.ParsesExactlyTheGrammar(Encode(RenderPretty(v)), v);
    }
    if ParsedJson(RenderPretty(v)) == Ok(v) {
      ParsedValueValid(RenderPretty(v), v);
    }
  }

  /** Printing what was parsed gives a canonical text: it parses to the same value again. */
  lemma ParseThenPrint(text: string, v: JsonValue)
    requires ParsedJson(text) == Ok(v)
    ensures ParsedJson(RenderPretty(v)) == Ok(v)
  {
    ParsedValueValid(text, v);
    PrintThenParse(v);
  }

  lemma PrintingIsInjective(v: JsonValue, w: JsonValue)
    requires ValidNumbers(v) && ValidNumbers(w)
    requires RenderPretty(v) == RenderPretty(w)
    ensures v == w
  {
    PrintThenParse(v);
    PrintThenParse(w);
  }
}

/**
 The grammar of sections 2 to 7 of RFC 8259 as parse trees. `Bytes` is the text that a tree
 spans, `Denote` the value that it stands for. `WellFormed` holds for the trees of the grammar
 whose `\u` escapes form scalar values; `DistinctKeys` says that no object repeats a key.
 */
module JsonGrammar {
  import opened Prelude
  import opened Utf8
  import opened JsonValues

  /** One character of a string: written as it is, or by one of the escapes of section 7. */
  datatype Piece = Raw(c: char) | Short(letter: byte) | Hex(quad: seq<byte>) | Pair(high: seq<byte>, low: seq<byte>)

  datatype NumberText = NumberText(minus: bool, integer: seq<byte>, fraction: seq<byte>, exponent: seq<byte>)

  datatype Tree =
    | NullTree
    | BoolTree(value: bool)
    | NumberTree(number: NumberText)
    | StringTree(pieces: seq<Piece>)
    | EmptyArray(space: seq<byte>)
    | ArrayTree(items: Items)
    | EmptyObject(space: seq<byte>)
    | ObjectTree(members: Members)

  /** The values of an array that is not empty, with the white space around each of them. */
  datatype Items =
    | LastItem(before: seq<byte>, item: Tree, after: seq<byte>)
    | MoreItems(before: seq<byte>, item: Tree, after: seq<byte>, others: Items)

  datatype Member = Member(before: seq<byte>, key: seq<Piece>, beforeColon: seq<byte>, afterColon: seq<byte>,
                           item: Tree, after: seq<byte>)

  datatype Members = LastMember(member: Member) | MoreMembers(member: Member, others: Members)

  // White space (section 2)

  predicate IsSpace(b: byte) {
    b == 0x20 || b == 0x0A || b == 0x0D || b == 0x09
  }

  predicate AllSpace(bs: seq<byte>) {
    forall i | 0 <= i < |bs| :: IsSpace(bs[i])
  }

  // Numbers (section 6)

  predicate IsDigit(b: byte) {
    0x30 <= b <= 0x39
  }

  predicate AllDigits(bs: seq<byte>) {
    forall i | 0 <= i < |bs| :: IsDigit(bs[i])
  }

  predicate Digits(bs: seq<byte>) {
    bs != [] && AllDigits(bs)
  }

  predicate IsInteger(bs: seq<byte>) {
    Digits(bs) && (bs[0] == 0x30 ==> |bs| == 1)
  }

  predicate IsFraction(bs: seq<byte>) {
    bs == [] || (bs[0] == 0x2E && Digits(bs[1..]))
  }

  predicate IsSign(b: byte) {
    b == 0x2B || b == 0x2D
  }

  predicate IsExponent(bs: seq<byte>) {
    bs == [] || (bs[0] in {0x65, 0x45} && (Digits(bs[1..]) || (|bs| > 1 && IsSign(bs[1]) && Digits(bs[2..]))))
  }

  predicate IsNumber(n: NumberText) {
    IsInteger(n.integer) && IsFraction(n.fraction) && IsExponent(n.exponent)
  }

  function NumberBytes(n: NumberText): seq<byte> {
    (if n.minus then [0x2D] else []) + (n.integer + (n.fraction + n.exponent))
  }

  function AsciiString(bs: seq<byte>): (s: string)
    requires forall i | 0 <= i < |bs| :: bs[i] < 0x80
    ensures |s| == |bs| && forall i | 0 <= i < |bs| :: s[i] == bs[i] as char
  {
    seq(|bs|, i requires 0 <= i < |bs| => bs[i] as char)
  }

  lemma FractionIsAscii(f: seq<byte>)
    requires IsFraction(f)
    ensures forall b | b in f :: b < 0x80
  {
    assert f == [] || f == [f[0]] + f[1..];
  }

  lemma ExponentIsAscii(e: seq<byte>)
    requires IsExponent(e)
    ensures forall b | b in e :: b < 0x80
  {
    assert e == [] || e == [e[0]] + e[1..];
    assert |e| > 1 ==> e == [e[0], e[1]] + e[2..];
  }

  lemma NumberIsAscii(n: NumberText)
    requires IsNumber(n)
    ensures forall i | 0 <= i < |NumberBytes(n)| :: NumberBytes(n)[i] < 0x80
  {
    hide IsFraction, IsExponent;
    FractionIsAscii(n.fraction);
    ExponentIsAscii(n.exponent);
    forall i | 0 <= i < |NumberBytes(n)|
      ensures NumberBytes(n)[i] < 0x80
    {
      var b := NumberBytes(n)[i];
      assert b == 0x2D || b in n.integer || b in n.fraction || b in n.exponent;
    }
  }

  // Strings (section 7)

  predicate IsHexDigit(b: byte) {
    IsDigit(b) || 0x61 <= b <= 0x66 || 0x41 <= b <= 0x46
  }

  function HexDigit(b: byte): (d: nat)
    requires IsHexDigit(b)
    ensures d < 16
  {
    if IsDigit(b) then b - 0x30 else if 0x61 <= b <= 0x66 then b - 0x61 + 10 else b - 0x41 + 10
  }

  predicate IsQuad(q: seq<byte>) {
    |q| == 4 && forall i | 0 <= i < 4 :: IsHexDigit(q[i])
  }

  function QuadValue(q: seq<byte>): (v: nat)
    requires IsQuad(q)
    ensures v < 0x1_0000
  {
    ((HexDigit(q[0]) * 16 + HexDigit(q[1])) * 16 + HexDigit(q[2])) * 16 + HexDigit(q[3])
  }

  predicate HighSurrogate(v: nat) {
    0xD800 <= v <= 0xDBFF
  }

  predicate LowSurrogate(v: nat) {
    0xDC00 <= v <= 0xDFFF
  }

  /** The two-character escapes and the characters that they stand for. */
  function ShortEscape(letter: byte): Option<char> {
    match letter
    case 0x22 => Some('\"')
    case 0x5C => Some('\\')
    case 0x2F => Some('/')
    case 0x62 => Some(8 as char)
    case 0x66 => Some(12 as char)
    case 0x6E => Some('\n')
    case 0x72 => Some('\r')
    case 0x74 => Some('\t')
    case _ => None
  }

  predicate IsUnescaped(c: char) {
    c as int >= 0x20 && c != '\"' && c != '\\'
  }

  predicate IsPiece(p: Piece) {
    match p
    case Raw(c) => IsUnescaped(c)
    case Short(letter) => ShortEscape(letter).Some?
    case Hex(quad) => IsQuad(quad) && !HighSurrogate(QuadValue(quad)) && !LowSurrogate(QuadValue(quad))
    case Pair(high, low) =>
      IsQuad(high) && IsQuad(low) && HighSurrogate(QuadValue(high)) && LowSurrogate(QuadValue(low))
  }

  predicate ArePieces(ps: seq<Piece>) {
    forall i | 0 <= i < |ps| :: IsPiece(ps[i])
  }

  function PieceBytes(p: Piece): (bs: seq<byte>)
    ensures bs != []
  {
    match p
    case Raw(c) => EncodeChar(c)
    case Short(letter) => [0x5C, letter]
    case Hex(quad) => [0x5C, 0x75] + quad
    case Pair(high, low) => [0x5C, 0x75] + (high + ([0x5C, 0x75] + low))
  }

  /** The scalar value of a surrogate pair (section 2.2 of RFC 2781). */
  function PairChar(high: nat, low: nat): (c: char)
    requires HighSurrogate(high) && LowSurrogate(low)
    ensures 0x1_0000 <= c as int <= 0x10_FFFF
  {
    (0x1_0000 + (high - 0xD800) * 1024 + (low - 0xDC00)) as char
  }

  /** Surrogate pairs stand for the scalars above 0xFFFF, one pair for each of them. */
  lemma PairsOneToOne(high: nat, low: nat, c: char)
    requires HighSurrogate(high) && LowSurrogate(low) && 0x1_0000 <= c as int
    ensures var n := c as int - 0x1_0000;
            && HighSurrogate(0xD800 + n / 1024) && LowSurrogate(0xDC00 + n % 1024)
            && (PairChar(high, low) == c <==> high == 0xD800 + n / 1024 && low == 0xDC00 + n % 1024)
  {
    var n := c as int - 0x1_0000;
    assert n / 1024 * 1024 + n % 1024 == n;
    if PairChar(high, low) == c {
      assert n == (high - 0xD800) * 1024 + (low - 0xDC00);
    }
  }

  function PieceChar(p: Piece): char
    requires IsPiece(p)
  {
    match p
    case Raw(c) => c
    case Short(letter) => ShortEscape(letter).value
    case Hex(quad) => QuadValue(quad) as char
    case Pair(high, low) => PairChar(QuadValue(high), QuadValue(low))
  }

  /** The bytes of the pieces up to and with the closing quotation mark. */
  function PiecesBytes(ps: seq<Piece>): (bs: seq<byte>)
    ensures bs != []
  {
    if ps == [] then [0x22] else PieceBytes(ps[0]) + PiecesBytes(ps[1..])
  }

  function PiecesString(ps: seq<Piece>): string
    requires ArePieces(ps)
  {
    if ps == [] then "" else [PieceChar(ps[0])] + PiecesString(ps[1..])
  }

  // Values (sections 3 to 5)

  predicate WellFormed(t: Tree)
    decreases t
  {
    match t
    case NullTree => true
    case BoolTree(_) => true
    case NumberTree(n) => IsNumber(n)
    case StringTree(ps) => ArePieces(ps)
    case EmptyArray(ws) => AllSpace(ws)
    case ArrayTree(items) => WellFormedItems(items)
    case EmptyObject(ws) => AllSpace(ws)
    case ObjectTree(members) => WellFormedMembers(members)
  }

  predicate WellFormedItems(items: Items)
    decreases items
  {
    AllSpace(items.before) && WellFormed(items.item) && AllSpace(items.after)
    && (items.MoreItems? ==> WellFormedItems(items.others))
  }

  predicate WellFormedMember(m: Member)
    decreases m
  {
    AllSpace(m.before) && ArePieces(m.key) && AllSpace(m.beforeColon) && AllSpace(m.afterColon)
    && WellFormed(m.item) && AllSpace(m.after)
  }

  predicate WellFormedMembers(ms: Members)
    decreases ms
  {
    WellFormedMember(ms.member) && (ms.MoreMembers? ==> WellFormedMembers(ms.others))
  }

  function Bytes(t: Tree): (bs: seq<byte>)
    decreases t
  {
    match t
    case NullTree => [0x6E, 0x75, 0x6C, 0x6C]
    case BoolTree(b) => if b then [0x74, 0x72, 0x75, 0x65] else [0x66, 0x61, 0x6C, 0x73, 0x65]
    case NumberTree(n) => NumberBytes(n)
    case StringTree(ps) => [0x22] + PiecesBytes(ps)
    case EmptyArray(ws) => [0x5B] + (ws + [0x5D])
    case ArrayTree(items) => [0x5B] + ItemsBytes(items)
    case EmptyObject(ws) => [0x7B] + (ws + [0x7D])
    case ObjectTree(members) => [0x7B] + MembersBytes(members)
  }

  /** The values, the commas between them and the closing bracket. */
  function ItemsBytes(items: Items): seq<byte>
    decreases items
  {
    items.before + (Bytes(items.item) + (items.after +
      (match items
       case LastItem(_, _, _) => [0x5D]
       case MoreItems(_, _, _, others) => [0x2C] + ItemsBytes(others))))
  }

  function MemberBytes(m: Member): seq<byte>
    decreases m
  {
    m.before + ([0x22] + (PiecesBytes(m.key) + (m.beforeColon + ([0x3A] + (m.afterColon + (Bytes(m.item) + m.after))))))
  }

  /** The members, the commas between them and the closing brace. */
  function MembersBytes(ms: Members): seq<byte>
    decreases ms
  {
    MemberBytes(ms.member) +
      (match ms
       case LastMember(_) => [0x7D]
       case MoreMembers(_, others) => [0x2C] + MembersBytes(others))
  }

  function Denote(t: Tree): JsonValue
    requires WellFormed(t)
    decreases t
  {
    match t
    case NullTree => Null
    case BoolTree(b) => Bool(b)
    case NumberTree(n) => NumberIsAscii(n); Number(AsciiString(NumberBytes(n)))
    case StringTree(ps) => String(PiecesString(ps))
    case EmptyArray(_) => Array([])
    case ArrayTree(items) => Array(DenoteItems(items))
    case EmptyObject(_) => Object(map[])
    case ObjectTree(members) => Object(DenoteMembers(members))
  }

  function DenoteItems(items: Items): seq<JsonValue>
    requires WellFormedItems(items)
    decreases items
  {
    [Denote(items.item)] + (if items.MoreItems? then DenoteItems(items.others) else [])
  }

  function KeyOf(m: Member): string
    requires WellFormedMember(m)
  {
    PiecesString(m.key)
  }

  function DenoteMembers(ms: Members): map<string, JsonValue>
    requires WellFormedMembers(ms)
    decreases ms
  {
    map[KeyOf(ms.member) := Denote(ms.member.item)]
    + (if ms.MoreMembers? then DenoteMembers(ms.others) else map[])
  }

  predicate DistinctKeys(t: Tree)
    requires WellFormed(t)
    decreases t
  {
    match t
    case ArrayTree(items) => DistinctKeysItems(items)
    case ObjectTree(members) => DistinctKeysMembers(members)
    case _ => true
  }

  predicate DistinctKeysItems(items: Items)
    requires WellFormedItems(items)
    decreases items
  {
    DistinctKeys(items.item) && (items.MoreItems? ==> DistinctKeysItems(items.others))
  }

  predicate DistinctKeysMembers(ms: Members)
    requires WellFormedMembers(ms)
    decreases ms
  {
    assert WellFormedMember(ms.member);
    DistinctKeys(ms.member.item)
    && (ms.MoreMembers? ==> DistinctKeysMembers(ms.others) && KeyOf(ms.member) !in DenoteMembers(ms.others))
  }

  /** A JSON text: one value between white space. It stands for `v`. */
  ghost predicate JsonText(bs: seq<byte>, v: JsonValue) {
    exists before: seq<byte>, t: Tree, after: seq<byte> :: SpansText(bs, before, t, after) && Denote(t) == v
  }

  ghost predicate SpansText(bs: seq<byte>, before: seq<byte>, t: Tree, after: seq<byte>) {
    AllSpace(before) && AllSpace(after) && WellFormed(t) && DistinctKeys(t) && bs == before + (Bytes(t) + after)
  }
}

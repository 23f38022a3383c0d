/** The layout of printed texts, as a predicate on parse trees that fixes the text (`render_json` in lib_part_01.rs). */
module JsonLayout {
  import opened Utf8
  import opened KeyOrder
  import opened JsonValues
  import opened JsonGrammar
  import opened JsonPrinting
  import opened JsonRoundTrip

  // Strings

  predicate IsSmallHexDigit(b: byte) {
    0x30 <= b <= 0x39 || 0x61 <= b <= 0x66
  }

  /**
   Only what has to be escaped is: the quotation mark, the backslash and the control characters,
   by their letter where they have one and by `\u00` and two small hexadecimal digits otherwise.
   */
  predicate IsShortest(p: Piece) {
    match p
    case Raw(_) => true
    case Short(letter) => letter in {0x22, 0x5C, 0x62, 0x66, 0x6E, 0x72, 0x74}
    case Hex(quad) =>
      && |quad| == 4 && (forall i | 0 <= i < 4 :: IsSmallHexDigit(quad[i]))
      && quad[0] == quad[1] == 0x30 && quad[2] in {0x30, 0x31}
      && !(quad[2] == 0x30 && quad[3] in {0x38, 0x39, 0x61, 0x63, 0x64})
    case Pair(_, _) => false
  }

  predicate AreShortest(ps: seq<Piece>) {
    forall i | 0 <= i < |ps| :: IsShortest(ps[i])
  }

  lemma ShortestIsPretty(p: Piece)
    requires IsPiece(p) && IsShortest(p)
    ensures p == PrettyPiece(PieceChar(p))
  {
    if p.Hex? {
      HexIsPretty(p.quad);
    }
  }

  lemma SmallDigitIsLetter(b: byte)
    requires IsSmallHexDigit(b)
    ensures IsHexDigit(b) && LetterByte(HexDigit(b)) == b
  {
  }

  lemma HexIsPretty(quad: seq<byte>)
    requires IsPiece(Hex(quad)) && IsShortest(Hex(quad))
    ensures Hex(quad) == PrettyPiece(PieceChar(Hex(quad)))
  {
    SmallDigitIsLetter(quad[2]);
    SmallDigitIsLetter(quad[3]);
    var n := QuadValue(quad);
    assert n == HexDigit(quad[2]) * 16 + HexDigit(quad[3]);
    assert n / 16 == HexDigit(quad[2]) && n % 16 == HexDigit(quad[3]);
    assert n !in {8, 9, 10, 12, 13};
    assert quad == [0x30, 0x30, quad[2], quad[3]];
  }

  lemma PrettyIsShortest(c: char)
    ensures IsShortest(PrettyPiece(c))
  {
    if PrettyPiece(c).Hex? {
      var n := c as int;
      assert n / 16 in {0, 1} && n !in {8, 9, 10, 12, 13};
      assert n == n / 16 * 16 + n % 16;
    }
  }

  lemma {:induction false} ShortestArePretty(ps: seq<Piece>)
    requires ArePieces(ps) && AreShortest(ps)
    ensures ps == PrettyPieces(PiecesString(ps))
  {
    hide IsPiece, IsShortest, PrettyPiece, PieceChar;
    if ps != [] {
      ShortestIsPretty(ps[0]);
      ShortestArePretty(ps[1..]);
      assert PrettyPieces(PiecesString(ps)) == [PrettyPiece(PieceChar(ps[0]))] + PrettyPieces(PiecesString(ps[1..]));
      assert ps == [ps[0]] + ps[1..];
    }
  }

  // Trees

  /** A line break and two spaces for each level. */
  predicate StartsLine(space: seq<byte>, depth: nat) {
    |space| == 1 + 2 * depth && space[0] == 0x0A && forall i | 0 < i < |space| :: space[i] == 0x20
  }

  function Keys(ms: Members): seq<string>
    requires WellFormedMembers(ms)
    decreases ms
  {
    [KeyOf(ms.member)] + (if ms.MoreMembers? then Keys(ms.others) else [])
  }

  /**
   Each item and each member stands on its own line, indented by its depth, and so does a closing
   bracket; keys ascend; a space follows each colon; nothing else is between the tokens.
   */
  predicate Laid(t: Tree, depth: nat)
    requires WellFormed(t)
    decreases t
  {
    match t
    case StringTree(ps) => AreShortest(ps)
    case EmptyArray(space) => space == []
    case ArrayTree(items) => LaidItems(items, depth)
    case EmptyObject(space) => space == []
    case ObjectTree(members) => LaidMembers(members, depth) && Ascending(Keys(members))
    case _ => true
  }

  predicate LaidItems(items: Items, depth: nat)
    requires WellFormedItems(items)
    decreases items
  {
    && StartsLine(items.before, depth + 1) && Laid(items.item, depth + 1)
    && if items.MoreItems? then items.after == [] && LaidItems(items.others, depth) else StartsLine(items.after, depth)
  }

  /** One member, apart from what stands behind it. */
  predicate LaidMember(m: Member, depth: nat)
    requires WellFormedMember(m)
    decreases m
  {
    StartsLine(m.before, depth + 1) && AreShortest(m.key) && m.beforeColon == [] && m.afterColon == [0x20]
    && Laid(m.item, depth + 1)
  }

  predicate LaidMembers(ms: Members, depth: nat)
    requires WellFormedMembers(ms)
    decreases ms
  {
    LaidMember(ms.member, depth)
    && if ms.MoreMembers? then ms.member.after == [] && LaidMembers(ms.others, depth)
       else StartsLine(ms.member.after, depth)
  }

  // The printed text is laid out so

  lemma {:induction false} SpacesStartLine(depth: nat)
    ensures StartsLine([0x0A] + Spaces(depth), depth)
  {
    if depth != 0 {
      SpacesStartLine(depth - 1);
      var fewer := [0x0A] + Spaces(depth - 1);
      var space := [0x0A] + Spaces(depth);
      assert space == [0x0A, 0x20, 0x20] + Spaces(depth - 1);
      forall i | 0 < i < |space|
        ensures space[i] == 0x20
      {
        if i > 2 {
          assert space[i] == fewer[i - 2];
        }
      }
    }
  }

  lemma PiecesAreShortest(s: string)
    ensures AreShortest(PrettyPieces(s))
  {
    hide IsShortest, PrettyPiece;
    forall i | 0 <= i < |s|
      ensures IsShortest(PrettyPieces(s)[i])
    {
      PrettyIsShortest(s[i]);
    }
  }

  lemma {:induction false} PrettyIsLaid(v: JsonValue, depth: nat)
    requires ValidNumbers(v)
    ensures WellFormed(PrettyTree(v, depth)) && Laid(PrettyTree(v, depth), depth)
    decreases v, 1
  {
    PrettyTreeCorrect(v, depth);
    match v
    case String(chars) => PiecesAreShortest(chars);
    case Array(items) =>
      if items != [] {
        ItemsAreLaid(items, depth);
      }
    case Object(members) =>
      if members != map[] {
        SortedKeys(members);
        MembersAreLaid(v, Sorted(members.Keys), depth);
      }
    case _ =>
  }

  lemma {:induction false} ItemsAreLaid(items: seq<JsonValue>, depth: nat)
    requires items != [] && forall i | 0 <= i < |items| :: ValidNumbers(items[i])
    ensures WellFormedItems(PrettyItems(items, depth)) && LaidItems(PrettyItems(items, depth), depth)
    decreases items, 0
  {
    hide StartsLine, Spaces;
    SpacesStartLine(depth + 1);
    SpacesStartLine(depth);
    SpaceIsSpace(depth + 1);
    SpaceIsSpace(depth);
    PrettyIsLaid(items[0], depth + 1);
    if |items| > 1 {
      ItemsAreLaid(items[1..], depth);
    }
  }

  lemma SpaceIsSpace(depth: nat)
    ensures AllSpace([0x0A] + Spaces(depth))
  {
  }

  lemma LastIsLaid(m: Member, depth: nat)
    requires WellFormedMember(m) && LaidMember(m, depth) && StartsLine(m.after, depth)
    ensures WellFormedMembers(LastMember(m)) && LaidMembers(LastMember(m), depth) && Keys(LastMember(m)) == [KeyOf(m)]
  {
    hide StartsLine, WellFormedMember, Laid, KeyOf;
  }

  lemma MoreIsLaid(m: Member, others: Members, depth: nat)
    requires WellFormedMember(m) && LaidMember(m, depth) && m.after == []
    requires WellFormedMembers(others) && LaidMembers(others, depth)
    ensures var ms := MoreMembers(m, others);
            WellFormedMembers(ms) && LaidMembers(ms, depth) && Keys(ms) == [KeyOf(m)] + Keys(others)
  {
    hide StartsLine, WellFormedMember, Laid, KeyOf;
  }

  lemma MemberValid(v: JsonValue, key: string)
    requires v.Object? && key in v.members && ValidNumbers(v)
    ensures ValidNumbers(v.members[key]) && v.members[key] < v
  {
  }

  lemma {:induction false} MemberIsLaid(v: JsonValue, key: string, last: bool, depth: nat)
    requires v.Object? && key in v.members && ValidNumbers(v)
    ensures var m := PrettyMember(v, key, last, depth);
            && WellFormedMember(m) && LaidMember(m, depth) && KeyOf(m) == key
            && (last ==> StartsLine(m.after, depth)) && (!last ==> m.after == [])
    decreases v, 0, 0
  {
    hide StartsLine, Spaces, PrettyTree, AreShortest, Laid, KeyOf, WellFormedMember, ValidNumbers, Render, Bytes,
        Encode;
    MemberValid(v, key);
    SpacesStartLine(depth + 1);
    SpacesStartLine(depth);
    PiecesAreShortest(key);
    MemberCorrect(v, key, last, depth);
    PrettyIsLaid(v.members[key], depth + 1);
  }

  lemma {:induction false} MembersAreLaid(v: JsonValue, keys: seq<string>, depth: nat)
    requires v.Object? && ValidNumbers(v) && keys != [] && forall k | k in keys :: k in v.members
    ensures WellFormedMembers(PrettyMembers(v, keys, depth)) && LaidMembers(PrettyMembers(v, keys, depth), depth)
    ensures Keys(PrettyMembers(v, keys, depth)) == keys
    decreases v, 0, |keys|
  {
    hide PrettyMember, LaidMembers, LaidMember, WellFormedMembers, WellFormedMember, Keys, KeyOf, StartsLine;
    var key := keys[0];
    MemberIsLaid(v, key, |keys| == 1, depth);
    var m := PrettyMember(v, key, |keys| == 1, depth);
    if |keys| == 1 {
      LastIsLaid(m, depth);
      assert keys == [key];
    } else {
      MembersAreLaid(v, keys[1..], depth);
      MoreIsLaid(m, PrettyMembers(v, keys[1..], depth), depth);
      assert keys == [key] + keys[1..];
    }
  }

  // And it is the only text of its value that is

  lemma LinesStartAlike(a: seq<byte>, b: seq<byte>, depth: nat)
    requires StartsLine(a, depth) && StartsLine(b, depth)
    ensures a == b
  {
    assert |a| == |b| && forall i | 0 <= i < |a| :: a[i] == b[i];
  }

  lemma PiecesAlike(ps: seq<Piece>, qs: seq<Piece>)
    requires ArePieces(ps) && ArePieces(qs) && AreShortest(ps) && AreShortest(qs)
    requires PiecesString(ps) == PiecesString(qs)
    ensures ps == qs
  {
    ShortestArePretty(ps);
    ShortestArePretty(qs);
  }

  lemma NumbersAlike(n: NumberText, m: NumberText)
    requires IsNumber(n) && IsNumber(m) && Denote(NumberTree(n)) == Denote(NumberTree(m))
    ensures NumberBytes(n) == NumberBytes(m)
  {
    hide NumberBytes, IsNumber;
    NumberIsAscii(n);
    NumberIsAscii(m);
    var a, b := NumberBytes(n), NumberBytes(m);
    assert AsciiString(a) == AsciiString(b);
    forall i | 0 <= i < |a|
      ensures a[i] == b[i]
    {
      assert AsciiString(a)[i] == a[i] as char && AsciiString(b)[i] == b[i] as char;
    }
  }

  /** The value says which kind of tree it is. */
  lemma KindsAlike(t: Tree, u: Tree)
    requires WellFormed(t) && WellFormed(u) && Denote(t) == Denote(u)
    ensures t.NullTree? <==> u.NullTree?
    ensures t.BoolTree? <==> u.BoolTree?
    ensures t.NumberTree? <==> u.NumberTree?
    ensures t.StringTree? <==> u.StringTree?
    ensures t.EmptyArray? <==> u.EmptyArray?
    ensures t.ArrayTree? <==> u.ArrayTree?
    ensures t.EmptyObject? <==> u.EmptyObject?
    ensures t.ObjectTree? <==> u.ObjectTree?
  {
    hide NumberBytes, IsNumber, PiecesString, ArePieces;
    HasContent(t);
    HasContent(u);
  }

  lemma HasContent(t: Tree)
    requires WellFormed(t)
    ensures t.ArrayTree? ==> DenoteItems(t.items) != []
    ensures t.ObjectTree? ==> DenoteMembers(t.members) != map[]
  {
    if t.ObjectTree? {
      assert WellFormedMember(t.members.member);
      assert KeyOf(t.members.member) in DenoteMembers(t.members);
    }
  }

  /** Two trees laid out alike that stand for one value spell one text. */
  lemma {:induction false} LaidAlike(t: Tree, u: Tree, depth: nat)
    requires WellFormed(t) && DistinctKeys(t) && Laid(t, depth)
    requires WellFormed(u) && DistinctKeys(u) && Laid(u, depth)
    requires Denote(t) == Denote(u)
    ensures Bytes(t) == Bytes(u)
    decreases t, 1
  {
    hide NumberBytes, IsNumber, PiecesBytes, StartsLine, AreShortest, ArePieces;
    KindsAlike(t, u);
    match t
    case NumberTree(n) => NumbersAlike(n, u.number);
    case StringTree(ps) => PiecesAlike(ps, u.pieces);
    case ArrayTree(items) => ItemsAlike(items, u.items, depth);
    case ObjectTree(members) =>
      KeysAlike(members, u.members);
      MembersAlike(members, u.members, depth);
    case _ =>
  }

  lemma {:induction false} ItemsAlike(items: Items, others: Items, depth: nat)
    requires WellFormedItems(items) && DistinctKeysItems(items) && LaidItems(items, depth)
    requires WellFormedItems(others) && DistinctKeysItems(others) && LaidItems(others, depth)
    requires DenoteItems(items) == DenoteItems(others)
    ensures ItemsBytes(items) == ItemsBytes(others)
    decreases items
  {
    hide StartsLine, Laid, Bytes, Denote;
    ItemsSplit(items);
    ItemsSplit(others);
    LinesStartAlike(items.before, others.before, depth + 1);
    LaidAlike(items.item, others.item, depth + 1);
    if items.MoreItems? {
      ItemsAlike(items.others, others.others, depth);
    } else {
      LinesStartAlike(items.after, others.after, depth);
    }
  }

  lemma ItemsSplit(items: Items)
    requires WellFormedItems(items)
    ensures |DenoteItems(items)| > 1 <==> items.MoreItems?
    ensures DenoteItems(items)[0] == Denote(items.item)
    ensures items.MoreItems? ==> DenoteItems(items)[1..] == DenoteItems(items.others)
  {
    hide Denote;
  }

  lemma {:induction false} KeysDenoted(ms: Members)
    requires WellFormedMembers(ms)
    ensures forall k :: k in Keys(ms) <==> k in DenoteMembers(ms)
    decreases ms
  {
    hide Denote, KeyOf;
    assert WellFormedMember(ms.member);
    if ms.MoreMembers? {
      KeysDenoted(ms.others);
    }
  }

  lemma KeysAlike(ms: Members, ns: Members)
    requires WellFormedMembers(ms) && WellFormedMembers(ns)
    requires Ascending(Keys(ms)) && Ascending(Keys(ns)) && DenoteMembers(ms) == DenoteMembers(ns)
    ensures Keys(ms) == Keys(ns)
  {
    hide Ascending, Keys, DenoteMembers;
    KeysDenoted(ms);
    KeysDenoted(ns);
    AscendingUnique(Keys(ms), Keys(ns));
  }

  lemma MembersSplit(ms: Members)
    requires WellFormedMembers(ms) && DistinctKeysMembers(ms)
    ensures WellFormedMember(ms.member) && DistinctKeys(ms.member.item)
    ensures var key := KeyOf(ms.member);
            && Keys(ms)[0] == key && DenoteMembers(ms)[key] == Denote(ms.member.item)
            && (|Keys(ms)| > 1 <==> ms.MoreMembers?)
            && (ms.MoreMembers? ==> Keys(ms)[1..] == Keys(ms.others) && key !in DenoteMembers(ms.others)
                                    && DenoteMembers(ms)
                                        == map[key := DenoteMembers(ms)[key]] + DenoteMembers(ms.others))
  {
    hide Denote, DistinctKeys, KeyOf;
    assert WellFormedMember(ms.member);
  }

  lemma OthersAlike(key: string, v: JsonValue, a: map<string, JsonValue>, b: map<string, JsonValue>)
    requires key !in a && key !in b && map[key := v] + a == map[key := v] + b
    ensures a == b
  {
    forall k
      ensures k in a <==> k in b
      ensures k in a && k in b ==> a[k] == b[k]
    {
      assert k in map[key := v] + a <==> k in map[key := v] + b;
      assert k in a ==> (map[key := v] + a)[k] == a[k];
      assert k in b ==> (map[key := v] + b)[k] == b[k];
    }
  }

  lemma {:induction false} MembersAlike(ms: Members, ns: Members, depth: nat)
    requires WellFormedMembers(ms) && DistinctKeysMembers(ms) && LaidMembers(ms, depth)
    requires WellFormedMembers(ns) && DistinctKeysMembers(ns) && LaidMembers(ns, depth)
    requires Keys(ms) == Keys(ns) && DenoteMembers(ms) == DenoteMembers(ns)
    ensures MembersBytes(ms) == MembersBytes(ns)
    decreases ms
  {
    hide StartsLine, Laid, Bytes, Denote, Keys, DenoteMembers, PiecesBytes, AreShortest, ArePieces, DistinctKeys;
    MembersSplit(ms);
    MembersSplit(ns);
    var m, n := ms.member, ns.member;
    LinesStartAlike(m.before, n.before, depth + 1);
    PiecesAlike(m.key, n.key);
    LaidAlike(m.item, n.item, depth + 1);
    if ms.MoreMembers? {
      OthersAlike(KeyOf(m), Denote(m.item), DenoteMembers(ms.others), DenoteMembers(ns.others));
      MembersAlike(ms.others, ns.others, depth);
    } else {
      LinesStartAlike(m.after, n.after, depth);
    }
  }

  /** The printed text is the one text that is laid out so and stands for the value. */
  lemma PrintedExactly(v: JsonValue, depth: nat, bs: seq<byte>)
    requires ValidNumbers(v)
    ensures bs == Encode(Render(v, depth)) <==>
            exists t :: WellFormed(t) && DistinctKeys(t) && Laid(t, depth) && Denote(t) == v && Bytes(t) == bs
  {
    hide WellFormed, DistinctKeys, Laid, Denote, Bytes, Render, Encode;
    var pretty := PrettyTree(v, depth);
    PrettyTreeCorrect(v, depth);
    PrettyIsLaid(v, depth);
    forall t | WellFormed(t) && DistinctKeys(t) && Laid(t, depth) && Denote(t) == v
      ensures Bytes(t) == Encode(Render(v, depth))
    {
      LaidAlike(t, pretty, depth);
    }
  }
}

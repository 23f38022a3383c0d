/** The string literals of a TypeSpec line (`quoted_strings` in lib_part_03.rs). */
module QuotedStrings {
  import opened Prelude
  import opened Utf8
  import opened JsonValues
  import opened JsonGrammar
  import opened JsonParser
  import opened ParityErrors
  import JsonParsing
  import JsonPrinting
  import Soundness = JsonSoundness
  import Completeness = JsonCompleteness
  import Boundaries = JsonBoundaries
  import RoundTrip = JsonRoundTrip

  const UNTERMINATED := Message("unterminated TypeSpec string literal")
  const NOT_A_STRING := Message("TypeSpec string literal must be a string")

  /** What follows the literal that `s` continues, if its closing quotation mark is in `s`. */
  function AfterLiteral(s: string, escaped: bool): (rest: Option<string>)
    ensures rest.Some? ==> |rest.value| < |s| && rest.value == s[|s| - |rest.value|..]
  {
    if s == "" then None
    else if escaped then AfterLiteral(s[1..], false)
    else if s[0] == '\\' then AfterLiteral(s[1..], true)
    else if s[0] == '\"' then Some(s[1..])
    else AfterLiteral(s[1..], false)
  }

  function LiteralValue(literal: string): Result<string, ParityError> {
    match ParsedJson(literal)
    case Err(error) => Err(Json(error))
    case Ok(value) => if value.String? then Ok(value.chars) else Err(NOT_A_STRING)
  }

  /** The literals of `s`, added to `values`. */
  function Quoted(s: string, values: set<string>): Result<set<string>, ParityError>
    decreases |s|
  {
    if s == "" then Ok(values)
    else if s[0] != '\"' then Quoted(s[1..], values)
    else
      match AfterLiteral(s[1..], false)
      case None => Err(UNTERMINATED)
      case Some(rest) =>
        match LiteralValue(s[..|s| - |rest|])
        case Err(error) => Err(error)
        case Ok(value) => Quoted(rest, values + {value})
  }

  lemma AfterStep(s: string, i: nat, escaped: bool)
    requires i < |s|
    ensures var rest := s[i + 1..];
            AfterLiteral(s[i..], escaped)
            == if !escaped && s[i] == '\"' then Some(rest) else AfterLiteral(rest, !escaped && s[i] == '\\')
    ensures AfterLiteral(s[|s|..], escaped) == None
  {
    assert s[i..][1..] == s[i + 1..] && s[|s|..] == "";
  }

  /** The inner loop: the position after the literal that began just before `start`. */
  method CloseLiteral(value: string, start: nat) returns (end: Option<nat>)
    requires start <= |value|
    ensures end.Some? ==> start < end.value <= |value|
    ensures AfterLiteral(value[start..], false) == if end.Some? then Some(value[end.value..]) else None
  {
    hide AfterLiteral;
    var position := start;
    var escaped := false;
    while position < |value|
      invariant start <= position <= |value|
      invariant AfterLiteral(value[position..], escaped) == AfterLiteral(value[start..], false)
    {
      var character := value[position];
      AfterStep(value, position, escaped);
      position := position + 1;
      if escaped {
        escaped := false;
      } else if character == '\\' {
        escaped := true;
      } else if character == '\"' {
        return Some(position);
      }
    }
    end := None;
  }

  /** A literal that begins with a quotation mark is a string or no JSON at all. */
  lemma LiteralIsString(literal: string)
    requires literal != "" && literal[0] == '\"'
    ensures LiteralValue(literal) != Err(NOT_A_STRING)
  {
    hide JsonParsing.ParseString, JsonParsing.ParseArray, JsonParsing.ParseObject, JsonParsing.ParseNumber;
    assert Encode(literal)[0] == 0x22;
  }

  /** So the scanner never reports a literal that is not a string. */
  lemma {:induction false} ScanFindsStrings(s: string, values: set<string>)
    ensures Quoted(s, values) != Err(NOT_A_STRING)
    decreases |s|
  {
    hide LiteralValue, AfterLiteral;
    if s == "" {
    } else if s[0] != '\"' {
      ScanFindsStrings(s[1..], values);
    } else if AfterLiteral(s[1..], false).Some? {
      var rest := AfterLiteral(s[1..], false).value;
      var literal := s[..|s| - |rest|];
      LiteralIsString(literal);
      if LiteralValue(literal).Ok? {
        ScanFindsStrings(rest, values + {LiteralValue(literal).value});
      }
    }
  }

  /** What the scanner does with the next character, or with the literal that begins there. */
  lemma ScanStep(s: string, values: set<string>)
    ensures s == "" ==> Quoted(s, values) == Ok(values)
    ensures s != "" && s[0] != '\"' ==> Quoted(s, values) == Quoted(s[1..], values)
    ensures s != "" && s[0] == '\"' ==>
              if AfterLiteral(s[1..], false).None? then Quoted(s, values) == Err(UNTERMINATED)
              else
                var rest := AfterLiteral(s[1..], false).value;
                var value := LiteralValue(s[..|s| - |rest|]);
                Quoted(s, values) == if value.Ok? then Quoted(rest, values + {value.value}) else Err(value.error)
  {
    hide LiteralValue, AfterLiteral;
  }

  lemma Slices(s: string, from: nat, end: nat)
    requires from < end <= |s|
    ensures s[from..][1..] == s[from + 1..] && s[from..][..|s[from..]| - |s[end..]|] == s[from..end]
  {
  }

  method Scan(value: string) returns (r: Result<set<string>, ParityError>)
    ensures r == Quoted(value, {})
  {
    hide AfterLiteral, ParsedJson, JsonText, Describes, Encode, Quoted;
    var position := 0;
    var values: set<string> := {};
    while position < |value|
      invariant position <= |value|
      invariant Quoted(value[position..], values) == Quoted(value, {})
    {
      ScanStep(value[position..], values);
      Slices(value, position, position + 1);
      if value[position] != '\"' {
        position := position + 1;
        continue;
      }
      var start := position;
      var end := CloseLiteral(value, start + 1);
      if end.None? {
        return Err(UNTERMINATED);
      }
      position := end.value;
      Slices(value, start, position);
      var parsed := ParseJson(value[start..position]);
      if parsed.Err? {
        return Err(Json(parsed.error));
      }
      if !parsed.value.String? {
        return Err(NOT_A_STRING);
      }
      values := values + {parsed.value.chars};
    }
    ScanStep(value[position..], values);
    r := Ok(values);
  }

  // The scanner closes a literal where the parser does

  /** The characters of a piece as they stand in the source text. */
  function PieceSource(p: Piece): string
    requires IsPiece(p)
  {
    match p
    case Raw(c) => [c]
    case Short(letter) => ['\\', letter as char]
    case Hex(quad) => "\\u" + AsciiString(quad)
    case Pair(high, low) => "\\u" + AsciiString(high) + ("\\u" + AsciiString(low))
  }

  /** The pieces up to and with the closing quotation mark. */
  function PiecesSource(ps: seq<Piece>): string
    requires ArePieces(ps)
  {
    if ps == [] then "\"" else PieceSource(ps[0]) + PiecesSource(ps[1..])
  }

  lemma AsciiBytes(bs: seq<byte>)
    requires forall i | 0 <= i < |bs| :: bs[i] < 0x80
    ensures Encode(AsciiString(bs)) == bs
  {
    Completeness.AsciiDecodes(bs);
    EncodeDecoded(bs);
  }

  lemma EncodeOne(c: char)
    ensures Encode([c]) == EncodeChar(c)
  {
    assert [c][1..] == "" && EncodeChar(c) + Encode("") == EncodeChar(c);
  }

  lemma HexSourceBytes(quad: seq<byte>)
    requires forall i | 0 <= i < |quad| :: quad[i] < 0x80
    ensures Encode("\\u" + AsciiString(quad)) == [0x5C, 0x75] + quad
  {
    hide Encode, AsciiString;
    RoundTrip.EncodeTwo('\\', 'u');
    AsciiBytes(quad);
    EncodeConcat("\\u", AsciiString(quad));
  }

  lemma PairSourceBytes(high: seq<byte>, low: seq<byte>)
    requires forall i | 0 <= i < |high| :: high[i] < 0x80
    requires forall i | 0 <= i < |low| :: low[i] < 0x80
    ensures Encode("\\u" + AsciiString(high) + ("\\u" + AsciiString(low)))
            == [0x5C, 0x75] + (high + ([0x5C, 0x75] + low))
  {
    hide Encode, AsciiString;
    HexSourceBytes(high);
    HexSourceBytes(low);
    EncodeConcat("\\u" + AsciiString(high), "\\u" + AsciiString(low));
    assert [0x5C, 0x75] + high + ([0x5C, 0x75] + low) == [0x5C, 0x75] + (high + ([0x5C, 0x75] + low));
  }

  lemma PieceSourceBytes(p: Piece)
    requires IsPiece(p)
    ensures Encode(PieceSource(p)) == PieceBytes(p)
  {
    hide Encode, QuadValue, AsciiString;
    match p
    case Raw(c) => EncodeOne(c);
    case Short(letter) => RoundTrip.EncodeTwo('\\', letter as char);
    case Hex(quad) => HexSourceBytes(quad);
    case Pair(high, low) => PairSourceBytes(high, low);
  }

  lemma {:induction false} PiecesSourceBytes(ps: seq<Piece>)
    requires ArePieces(ps)
    ensures Encode(PiecesSource(ps)) == PiecesBytes(ps)
  {
    hide PieceSource, PieceBytes, IsPiece;
    if ps == [] {
      RoundTrip.EncodeAscii('\"', "");
      assert ['\"'] + "" == "\"";
    } else {
      PieceSourceBytes(ps[0]);
      PiecesSourceBytes(ps[1..]);
      EncodeConcat(PieceSource(ps[0]), PiecesSource(ps[1..]));
    }
  }

  /** No character that the scanner looks at. */
  predicate Plain(s: string) {
    forall i | 0 <= i < |s| :: s[i] != '\\' && s[i] != '\"'
  }

  lemma {:induction false} PlainSkipped(plain: string, s: string)
    requires Plain(plain)
    ensures AfterLiteral(plain + s, false) == AfterLiteral(s, false)
  {
    if plain == "" {
      assert plain + s == s;
    } else {
      PlainSkipped(plain[1..], s);
      assert (plain + s)[1..] == plain[1..] + s;
    }
  }

  lemma EscapedPlain(first: char, plain: string, s: string)
    requires Plain(plain)
    ensures AfterLiteral(['\\', first] + plain + s, false) == AfterLiteral(s, false)
  {
    var t := ['\\', first] + plain + s;
    assert t[1..] == [first] + (plain + s) && t[1..][1..] == plain + s;
    PlainSkipped(plain, s);
  }

  lemma QuadIsPlain(q: seq<byte>)
    requires IsQuad(q)
    ensures Plain(AsciiString(q))
  {
  }

  lemma PieceScanned(p: Piece, s: string)
    requires IsPiece(p)
    ensures AfterLiteral(PieceSource(p) + s, false) == AfterLiteral(s, false)
  {
    hide AfterLiteral, QuadValue;
    match p
    case Raw(c) => PlainSkipped([c], s);
    case Short(letter) =>
      EscapedPlain(letter as char, "", s);
      assert ['\\', letter as char] + "" + s == PieceSource(p) + s;
    case Hex(quad) =>
      QuadIsPlain(quad);
      EscapedPlain('u', AsciiString(quad), s);
    case Pair(high, low) =>
      QuadIsPlain(high);
      QuadIsPlain(low);
      EscapedPlain('u', AsciiString(low), s);
      EscapedPlain('u', AsciiString(high), "\\u" + AsciiString(low) + s);
      assert "\\u" + AsciiString(high) + ("\\u" + AsciiString(low)) + s
          == "\\u" + AsciiString(high) + ("\\u" + AsciiString(low) + s);
  }

  lemma QuoteScanned(s: string)
    ensures AfterLiteral("\"" + s, false) == Some(s)
  {
    assert ("\"" + s)[1..] == s;
  }

  lemma SourceSplit(ps: seq<Piece>, s: string)
    requires ArePieces(ps)
    ensures ps == [] ==> PiecesSource(ps) + s == "\"" + s
    ensures ps != [] ==> PiecesSource(ps) + s == PieceSource(ps[0]) + (PiecesSource(ps[1..]) + s)
  {
    hide PieceSource, IsPiece;
  }

  lemma {:induction false} PiecesScanned(ps: seq<Piece>, s: string)
    requires ArePieces(ps)
    ensures AfterLiteral(PiecesSource(ps) + s, false) == Some(s)
  {
    hide PieceSource, PiecesSource, IsPiece, AfterLiteral;
    SourceSplit(ps, s);
    if ps == [] {
      QuoteScanned(s);
    } else {
      PieceScanned(ps[0], PiecesSource(ps[1..]) + s);
      PiecesScanned(ps[1..], s);
    }
  }

  /** Where `parse_string` ends a string, the scanner closes the literal. */
  lemma ScannerClosesWithParser(s: string)
    requires JsonParsing.ParseString(Encode(['\"'] + s)).Parsed?
    ensures AfterLiteral(s, false).Some?
    ensures Encode(AfterLiteral(s, false).value) == JsonParsing.ParseString(Encode(['\"'] + s)).rest
  {
    hide Encode, Decode, AfterLiteral, JsonParsing.ParseString, PiecesSource, PiecesBytes;
    var bs := Encode(['\"'] + s);
    var ps := Soundness.StringSound(bs);
    var rest := JsonParsing.ParseString(bs).rest;
    DecodeEncoded(['\"'] + s);
    Boundaries.StringKept(bs);
    var after := Decode(rest).value;
    EncodeDecoded(rest);
    PiecesSourceBytes(ps);
    EncodeConcat(PiecesSource(ps), after);
    RoundTrip.EncodeAscii('\"', PiecesSource(ps) + after);
    RoundTrip.EncodeAscii('\"', s);
    EncodeInjective(['\"'] + s, ['\"'] + (PiecesSource(ps) + after));
    assert (['\"'] + s)[1..] == s && (['\"'] + (PiecesSource(ps) + after))[1..] == PiecesSource(ps) + after;
    PiecesScanned(ps, after);
  }

  // Scanning undoes escaping

  lemma LiteralParsed(ps: seq<Piece>)
    requires ArePieces(ps)
    ensures ParsedJson("\"" + PiecesSource(ps)) == Ok(String(PiecesString(ps)))
  {
    hide Encode, PiecesSource, PiecesBytes, PiecesString;
    var literal := "\"" + PiecesSource(ps);
    RoundTrip.EncodeAscii('\"', PiecesSource(ps));
    PiecesSourceBytes(ps);
    var t := StringTree(ps);
    assert Encode(literal) == [] + (Bytes(t) + []);
    assert SpansText(Encode(literal), [], t, []);
    Soundness.ParsesExactlyTheGrammar(Encode(literal), String(PiecesString(ps)));
  }

  /** Any literal of section 7 of RFC 8259 is read as one value, after text without quotation marks. */
  lemma LiteralQuoted(ps: seq<Piece>, s: string, values: set<string>)
    requires ArePieces(ps)
    ensures Quoted("\"" + PiecesSource(ps) + s, values) == Quoted(s, values + {PiecesString(ps)})
  {
    hide AfterLiteral, PiecesSource, PiecesString, Quoted, ParsedJson;
    var literal := "\"" + PiecesSource(ps);
    var t := literal + s;
    assert t[0] == '\"' && t[1..] == PiecesSource(ps) + s && t[..|t| - |s|] == literal;
    PiecesScanned(ps, s);
    ScanStep(t, values);
    LiteralParsed(ps);
  }

  lemma FillerSkipped(c: char, t: string, values: set<string>)
    requires c != '\"'
    ensures Quoted([c] + t, values) == Quoted(t, values)
  {
    hide AfterLiteral, LiteralValue;
    assert ([c] + t)[0] == c && ([c] + t)[1..] == t;
  }

  lemma {:induction false} QuotedStep(filler: string, ps: seq<Piece>, s: string, values: set<string>)
    requires '\"' !in filler && ArePieces(ps)
    ensures Quoted(filler + ("\"" + PiecesSource(ps) + s), values) == Quoted(s, values + {PiecesString(ps)})
  {
    hide PiecesSource, PiecesString, Quoted;
    var rest := "\"" + PiecesSource(ps) + s;
    if filler == "" {
      assert filler + rest == rest;
      LiteralQuoted(ps, s, values);
    } else {
      QuotedStep(filler[1..], ps, s, values);
      assert filler + rest == [filler[0]] + (filler[1..] + rest);
      FillerSkipped(filler[0], filler[1..] + rest, values);
    }
  }

  lemma {:induction false} FillerOnly(filler: string, values: set<string>)
    requires '\"' !in filler
    ensures Quoted(filler, values) == Ok(values)
  {
    if filler != "" {
      FillerOnly(filler[1..], values);
    }
  }

  /** The literals `strings`, written by the printer's escaper, each after its own filler. */
  function Interleaved(fillers: seq<string>, strings: seq<string>, last: string): string
    requires |fillers| == |strings|
  {
    if strings == [] then last
    else fillers[0] + (JsonPrinting.Quote(strings[0]) + Interleaved(fillers[1..], strings[1..], last))
  }

  lemma {:induction false} EscapedSource(s: string)
    ensures ArePieces(RoundTrip.PrettyPieces(s)) && PiecesString(RoundTrip.PrettyPieces(s)) == s
    ensures JsonPrinting.Quote(s) == "\"" + PiecesSource(RoundTrip.PrettyPieces(s))
  {
    hide Encode, PiecesSource, PiecesBytes, PiecesString, JsonPrinting.EscapeChars;
    var ps := RoundTrip.PrettyPieces(s);
    RoundTrip.PrettyPiecesCorrect(s);
    PiecesSourceBytes(ps);
    EncodeInjective(JsonPrinting.EscapeChars(s) + "\"", PiecesSource(ps));
  }

  /** Scanning undoes escaping: exactly the escaped strings are found, whatever stands between. */
  lemma {:induction false} QuotedInterleaved(fillers: seq<string>, strings: seq<string>, last: string,
      values: set<string>)
    requires |fillers| == |strings| && '\"' !in last
    requires forall i | 0 <= i < |fillers| :: '\"' !in fillers[i]
    ensures Quoted(Interleaved(fillers, strings, last), values) == Ok(values + set s | s in strings)
  {
    hide Quoted, PiecesSource, PiecesString, JsonPrinting.Quote;
    if strings == [] {
      FillerOnly(last, values);
      assert values + (set s | s in strings) == values;
    } else {
      var others := Interleaved(fillers[1..], strings[1..], last);
      EscapedSource(strings[0]);
      QuotedStep(fillers[0], RoundTrip.PrettyPieces(strings[0]), others, values);
      QuotedInterleaved(fillers[1..], strings[1..], last, values + {strings[0]});
      assert strings == [strings[0]] + strings[1..];
      assert values + {strings[0]} + (set s | s in strings[1..]) == values + set s | s in strings;
    }
  }
}

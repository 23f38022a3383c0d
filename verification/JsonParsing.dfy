/**
 What the parser in lib_part_01.rs computes, as functions of the bytes still to be read.
 A failure keeps those bytes too: the parser reports the offset at which they begin.
 */
module JsonParsing {
  import opened Prelude
  import opened Utf8
  import opened JsonValues
  import opened JsonGrammar

  datatype ErrorKind =
    | TrailingContent
    | UnexpectedToken
    | UnexpectedEnd
    | DuplicateKey(key: string)
    | InvalidEscape
    | UnterminatedEscape
    | ControlByte
    | InvalidUtf8InString
    | UnterminatedString
    | InvalidLowSurrogate
    | UnexpectedLowSurrogate
    | InvalidScalar
    | InvalidHexDigit
    | LeadingZero
    | InvalidNumber
    | FractionWithoutDigits
    | ExponentWithoutDigits
    | InvalidUtf8InNumber
    | InvalidKeyword
    | Expected(what: byte)

  datatype Parsed<+T> = Parsed(value: T, rest: seq<byte>) | Failed(kind: ErrorKind, rest: seq<byte>)

  predicate StartsWith(s: seq<byte>, b: byte) {
    s != [] && s[0] == b
  }

  function SkipSpace(s: seq<byte>): (r: seq<byte>)
    ensures |r| <= |s|
    ensures r != [] ==> !IsSpace(r[0])
  {
    if s != [] && IsSpace(s[0]) then SkipSpace(s[1..]) else s
  }

  function SkipDigits(s: seq<byte>): (r: seq<byte>)
    ensures |r| <= |s|
    ensures r != [] ==> !IsDigit(r[0])
  {
    if s != [] && IsDigit(s[0]) then SkipDigits(s[1..]) else s
  }

  function ParseKeyword(s: seq<byte>, keyword: seq<byte>, value: JsonValue): (r: Parsed<JsonValue>)
    requires keyword != []
    ensures |r.rest| <= |s| && (r.Parsed? ==> |r.rest| < |s|)
  {
    if keyword <= s then Parsed(value, s[|keyword|..]) else Failed(InvalidKeyword, s)
  }

  // Numbers

  /** The integer part; `s` begins after the optional minus sign. */
  function ParseInteger(s: seq<byte>): (r: Parsed<()>)
    ensures |r.rest| <= |s| && (r.Parsed? ==> |r.rest| < |s|)
  {
    if StartsWith(s, 0x30) then
      if |s| > 1 && IsDigit(s[1]) then Failed(LeadingZero, s[1..]) else Parsed((), s[1..])
    else if s != [] && IsDigit(s[0]) then Parsed((), SkipDigits(s[1..]))
    else Failed(InvalidNumber, s)
  }

  function ParseFraction(s: seq<byte>): (r: Parsed<()>)
    ensures |r.rest| <= |s|
  {
    if StartsWith(s, 0x2E) then
      var rest := SkipDigits(s[1..]);
      if rest == s[1..] then Failed(FractionWithoutDigits, rest) else Parsed((), rest)
    else Parsed((), s)
  }

  function ParseExponent(s: seq<byte>): (r: Parsed<()>)
    ensures |r.rest| <= |s|
  {
    if s != [] && s[0] in {0x65, 0x45} then
      var signed := s[1..];
      var digits := if signed != [] && IsSign(signed[0]) then signed[1..] else signed;
      var rest := SkipDigits(digits);
      if rest == digits then Failed(ExponentWithoutDigits, rest) else Parsed((), rest)
    else Parsed((), s)
  }

  function ParseNumberEnd(s: seq<byte>): (r: Parsed<()>)
    ensures |r.rest| <= |s| && (r.Parsed? ==> |r.rest| < |s|)
  {
    match ParseInteger(if StartsWith(s, 0x2D) then s[1..] else s)
    case Failed(kind, rest) => Failed(kind, rest)
    case Parsed(_, afterInteger) =>
      match ParseFraction(afterInteger)
      case Failed(kind, rest) => Failed(kind, rest)
      case Parsed(_, afterFraction) => ParseExponent(afterFraction)
  }

  function ParseNumber(s: seq<byte>): (r: Parsed<string>)
    ensures |r.rest| <= |s| && (r.Parsed? ==> |r.rest| < |s|)
  {
    match ParseNumberEnd(s)
    case Failed(kind, rest) => Failed(kind, rest)
    case Parsed(_, rest) =>
      match Decode(s[..|s| - |rest|])
      case Some(text) => Parsed(text, rest)
      case None => Failed(InvalidUtf8InNumber, rest)
  }

  // Strings

  /** `count` more digits after those that made `value`. */
  function ParseQuad(s: seq<byte>, count: nat, value: nat): (r: Parsed<nat>)
    decreases count
    ensures |r.rest| <= |s| && (r.Parsed? ==> |r.rest| + count == |s|)
  {
    if count == 0 then Parsed(value, s)
    else if s == [] then Failed(InvalidHexDigit, s)
    else if !IsHexDigit(s[0]) then Failed(InvalidHexDigit, s[1..])
    else ParseQuad(s[1..], count - 1, value * 16 + HexDigit(s[0]))
  }

  /** `char::from_u32` */
  function FromU32(n: nat): Option<char> {
    if n < 0xD800 || 0xE000 <= n < 0x11_0000 then Some(n as char) else None
  }

  function ScalarOr(n: nat, rest: seq<byte>): (r: Parsed<char>)
    ensures r.rest == rest
  {
    match FromU32(n)
    case Some(c) => Parsed(c, rest)
    case None => Failed(InvalidScalar, rest)
  }

  function ParseLow(s: seq<byte>, high: nat): (r: Parsed<char>)
    requires HighSurrogate(high)
    ensures |r.rest| <= |s|
  {
    if !StartsWith(s, 0x5C) then Failed(Expected(0x5C), s)
    else if !StartsWith(s[1..], 0x75) then Failed(Expected(0x75), s[1..])
    else
      match ParseQuad(s[2..], 4, 0)
      case Failed(kind, rest) => Failed(kind, rest)
      case Parsed(low, rest) =>
        if !LowSurrogate(low) then Failed(InvalidLowSurrogate, rest)
        else ScalarOr(0x1_0000 + (high - 0xD800) * 1024 + (low - 0xDC00), rest)
  }

  function ParseUnicodeEscape(s: seq<byte>): (r: Parsed<char>)
    ensures |r.rest| <= |s|
  {
    match ParseQuad(s, 4, 0)
    case Failed(kind, rest) => Failed(kind, rest)
    case Parsed(value, rest) =>
      if HighSurrogate(value) then ParseLow(rest, value)
      else if LowSurrogate(value) then Failed(UnexpectedLowSurrogate, rest)
      else ScalarOr(value, rest)
  }

  /** What follows a backslash. */
  function ParseEscape(s: seq<byte>): (r: Parsed<char>)
    ensures |r.rest| <= |s|
  {
    if s == [] then Failed(UnterminatedEscape, s)
    else if s[0] == 0x75 then ParseUnicodeEscape(s[1..])
    else
      match ShortEscape(s[0])
      case Some(c) => Parsed(c, s[1..])
      case None => Failed(InvalidEscape, s[1..])
  }

  /** A character of more than one byte. */
  function ParseWide(s: seq<byte>): (r: Parsed<string>)
    requires s != [] && s[0] >= 0x80
    ensures |r.rest| <= |s| && (r.Parsed? ==> |r.rest| < |s|)
  {
    var w := Width(s[0]);
    if w == 0 || |s| < w then Failed(InvalidUtf8InString, s[1..])
    else
      match Decode(s[..w])
      case Some(text) => Parsed(text, s[w..])
      case None => Failed(InvalidUtf8InString, s[1..])
  }

  /** The characters up to the closing quotation mark, after the characters of `output`. */
  function ParseChars(s: seq<byte>, output: string): (r: Parsed<string>)
    decreases |s|
    ensures |r.rest| <= |s| && (r.Parsed? ==> |r.rest| < |s|)
  {
    if s == [] then Failed(UnterminatedString, s)
    else if s[0] == 0x22 then Parsed(output, s[1..])
    else if s[0] == 0x5C then
      match ParseEscape(s[1..])
      case Failed(kind, rest) => Failed(kind, rest)
      case Parsed(c, rest) => ParseChars(rest, output + [c])
    else if s[0] < 0x20 then Failed(ControlByte, s[1..])
    else if s[0] < 0x80 then ParseChars(s[1..], output + [s[0] as char])
    else
      match ParseWide(s)
      case Failed(kind, rest) => Failed(kind, rest)
      case Parsed(text, rest) => ParseChars(rest, output + text)
  }

  function ParseString(s: seq<byte>): (r: Parsed<string>)
    ensures |r.rest| <= |s| && (r.Parsed? ==> |r.rest| < |s|)
  {
    if StartsWith(s, 0x22) then ParseChars(s[1..], "") else Failed(Expected(0x22), s)
  }

  // Values

  function ParseValue(s: seq<byte>): (r: Parsed<JsonValue>)
    decreases |s|, 1
    ensures |r.rest| <= |s| && (r.Parsed? ==> |r.rest| < |s|)
  {
    var s := SkipSpace(s);
    if s == [] then Failed(UnexpectedEnd, s)
    else if s[0] == 0x6E then ParseKeyword(s, [0x6E, 0x75, 0x6C, 0x6C], Null)
    else if s[0] == 0x74 then ParseKeyword(s, [0x74, 0x72, 0x75, 0x65], Bool(true))
    else if s[0] == 0x66 then ParseKeyword(s, [0x66, 0x61, 0x6C, 0x73, 0x65], Bool(false))
    else if s[0] == 0x22 then
      match ParseString(s)
      case Parsed(chars, rest) => Parsed(String(chars), rest)
      case Failed(kind, rest) => Failed(kind, rest)
    else if s[0] == 0x5B then ParseArray(s)
    else if s[0] == 0x7B then ParseObject(s)
    else if s[0] == 0x2D || IsDigit(s[0]) then
      match ParseNumber(s)
      case Parsed(text, rest) => Parsed(Number(text), rest)
      case Failed(kind, rest) => Failed(kind, rest)
    else Failed(UnexpectedToken, s)
  }

  function ParseArray(s: seq<byte>): (r: Parsed<JsonValue>)
    decreases |s|, 0
    ensures |r.rest| <= |s| && (r.Parsed? ==> |r.rest| < |s|)
  {
    if !StartsWith(s, 0x5B) then Failed(Expected(0x5B), s)
    else
      var inside := SkipSpace(s[1..]);
      if StartsWith(inside, 0x5D) then Parsed(Array([]), inside[1..]) else ParseItems(inside, [])
  }

  /** The rest of an array whose values so far are `values`. */
  function ParseItems(s: seq<byte>, values: seq<JsonValue>): (r: Parsed<JsonValue>)
    decreases |s|, 2
    ensures |r.rest| <= |s| && (r.Parsed? ==> |r.rest| < |s|)
  {
    match ParseValue(s)
    case Failed(kind, rest) => Failed(kind, rest)
    case Parsed(value, rest) =>
      var next := SkipSpace(rest);
      if StartsWith(next, 0x5D) then Parsed(Array(values + [value]), next[1..])
      else if StartsWith(next, 0x2C) then ParseItems(SkipSpace(next[1..]), values + [value])
      else Failed(Expected(0x2C), next)
  }

  function ParseObject(s: seq<byte>): (r: Parsed<JsonValue>)
    decreases |s|, 0
    ensures |r.rest| <= |s| && (r.Parsed? ==> |r.rest| < |s|)
  {
    if !StartsWith(s, 0x7B) then Failed(Expected(0x7B), s)
    else
      var inside := SkipSpace(s[1..]);
      if StartsWith(inside, 0x7D) then Parsed(Object(map[]), inside[1..]) else ParseMembers(inside, map[])
  }

  function ParseMember(s: seq<byte>): (r: Parsed<(string, JsonValue)>)
    decreases |s|, 2
    ensures |r.rest| <= |s| && (r.Parsed? ==> |r.rest| < |s|)
  {
    match ParseString(SkipSpace(s))
    case Failed(kind, rest) => Failed(kind, rest)
    case Parsed(key, rest) =>
      var colon := SkipSpace(rest);
      if !StartsWith(colon, 0x3A) then Failed(Expected(0x3A), colon)
      else
        match ParseValue(SkipSpace(colon[1..]))
        case Failed(kind, rest) => Failed(kind, rest)
        case Parsed(value, rest) => Parsed((key, value), rest)
  }

  /** The rest of an object whose members so far are `members`. */
  function ParseMembers(s: seq<byte>, members: map<string, JsonValue>): (r: Parsed<JsonValue>)
    decreases |s|, 3
    ensures |r.rest| <= |s| && (r.Parsed? ==> |r.rest| < |s|)
  {
    match ParseMember(s)
    case Failed(kind, rest) => Failed(kind, rest)
    case Parsed((key, value), rest) =>
      if key in members then Failed(DuplicateKey(key), rest)
      else
        var next := SkipSpace(rest);
        if StartsWith(next, 0x7D) then Parsed(Object(members[key := value]), next[1..])
        else if StartsWith(next, 0x2C) then ParseMembers(next[1..], members[key := value])
        else Failed(Expected(0x2C), next)
  }

  function ParseText(s: seq<byte>): (r: Parsed<JsonValue>)
    ensures |r.rest| <= |s|
  {
    match ParseValue(SkipSpace(s))
    case Failed(kind, rest) => Failed(kind, rest)
    case Parsed(value, rest) =>
      var end := SkipSpace(rest);
      if end == [] then Parsed(value, end) else Failed(TrailingContent, end)
  }
}

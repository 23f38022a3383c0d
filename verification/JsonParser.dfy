/**
 The parser itself: a reader over the bytes of the text whose methods advance `position`. Each
 method is proved to do what the function of the same name in `JsonParsing` says about the rest
 of the input, in its result, in the position it stops at, and in the failure it reports.
 */
module JsonParser {
  import opened Prelude
  import opened Utf8
  import opened JsonValues
  import opened JsonGrammar
  import Spec = JsonParsing
  import Soundness = JsonSoundness
  import Boundaries = JsonBoundaries
  import Stops = JsonStops
  import Failures = JsonFailures

  datatype ParseError = ParseError(kind: Spec.ErrorKind, position: nat)

  /** One digit of the four that `parse_hex_quad` reads. */
  lemma QuadStep(s: seq<byte>, count: nat, value: nat)
    requires count > 0
    ensures s == [] ==> Spec.ParseQuad(s, count, value) == Spec.Failed(Spec.InvalidHexDigit, s)
    ensures s != [] && !IsHexDigit(s[0]) ==>
        Spec.ParseQuad(s, count, value) == Spec.Failed(Spec.InvalidHexDigit, s[1..])
    ensures s != [] && IsHexDigit(s[0]) ==>
              Spec.ParseQuad(s, count, value) == Spec.ParseQuad(s[1..], count - 1, value * 16 + HexDigit(s[0]))
  {
    hide HexDigit, IsHexDigit;
  }

  lemma QuadEnd(s: seq<byte>, value: nat)
    ensures Spec.ParseQuad(s, 0, value) == Spec.Parsed(value, s)
  {
  }

  class Parser {
    const input: seq<byte>
    var position: nat

    ghost predicate Valid()
      reads this
    {
      position <= |input|
    }

    /** The bytes still to be read. */
    ghost function Rest(): seq<byte>
      requires Valid()
      reads this
    {
      input[position..]
    }

    /** The parser stopped where the specification does, with the same result. */
    ghost predicate Follows<T>(r: Result<T, ParseError>, spec: Spec.Parsed<T>)
      requires Valid()
      reads this
    {
      Rest() == spec.rest &&
      match spec
      case Parsed(value, _) => r == Ok(value)
      case Failed(kind, _) => r == Err(Error(kind))
    }

    constructor (text: string)
      ensures Valid() && position == 0 && input == Encode(text) && Rest() == input
    {
      input := Encode(text);
      position := 0;
    }

    function Error(kind: Spec.ErrorKind): ParseError
      reads this
    {
      ParseError(kind, position)
    }

    function Peek(): (b: Option<byte>)
      requires Valid()
      reads this
      ensures b == if Rest() == [] then None else Some(Rest()[0])
    {
      if position < |input| then Some(input[position]) else None
    }

    method Next() returns (b: Option<byte>)
      requires Valid()
      modifies this
      ensures Valid()
      ensures b == old(Peek())
      ensures Rest() == if b.Some? then old(Rest())[1..] else old(Rest())
      ensures b.Some? ==> position == old(position) + 1
    {
      b := Peek();
      if b.Some? {
        position := position + 1;
      }
    }

    method ConsumeIf(b: byte) returns (found: bool)
      requires Valid()
      modifies this
      ensures Valid() && position >= old(position)
      ensures found == Spec.StartsWith(old(Rest()), b)
      ensures Rest() == if found then old(Rest())[1..] else old(Rest())
    {
      found := Peek() == Some(b);
      if found {
        position := position + 1;
      }
    }

    method Expect(b: byte) returns (r: Result<(), ParseError>)
      requires Valid()
      modifies this
      ensures Valid() && position >= old(position)
      ensures Follows(r, if Spec.StartsWith(old(Rest()), b) then Spec.Parsed((), old(Rest())[1..])
                         else Spec.Failed(Spec.Expected(b), old(Rest())))
    {
      var found := ConsumeIf(b);
      r := if found then Ok(()) else Err(Error(Spec.Expected(b)));
    }

    method SkipWhitespace()
      requires Valid()
      modifies this
      ensures Valid() && position >= old(position)
      ensures Rest() == Spec.SkipSpace(old(Rest()))
    {
      while position < |input| && IsSpace(input[position])
        invariant Valid() && position >= old(position)
        invariant Spec.SkipSpace(Rest()) == Spec.SkipSpace(old(Rest()))
      {
        position := position + 1;
      }
    }

    method SkipDigits()
      requires Valid()
      modifies this
      ensures Valid() && position >= old(position)
      ensures Rest() == Spec.SkipDigits(old(Rest()))
    {
      while position < |input| && IsDigit(input[position])
        invariant Valid() && position >= old(position)
        invariant Spec.SkipDigits(Rest()) == Spec.SkipDigits(old(Rest()))
      {
        position := position + 1;
      }
    }

    method ConsumeKeyword(keyword: seq<byte>, value: JsonValue) returns (r: Result<JsonValue, ParseError>)
      requires Valid() && keyword != []
      modifies this
      ensures Valid() && position >= old(position)
      ensures Follows(r, Spec.ParseKeyword(old(Rest()), keyword, value))
    {
      if position + |keyword| <= |input| && input[position..position + |keyword|] == keyword {
        assert keyword <= Rest();
        position := position + |keyword|;
        r := Ok(value);
      } else {
        assert !(keyword <= Rest());
        r := Err(Error(Spec.InvalidKeyword));
      }
    }

    method ParseHexQuad() returns (r: Result<nat, ParseError>)
      requires Valid()
      modifies this
      ensures Valid() && position >= old(position)
      ensures Follows(r, Spec.ParseQuad(old(Rest()), 4, 0))
    {
      hide HexDigit, IsHexDigit, Spec.ParseQuad;
      var value: nat := 0;
      for i := 0 to 4
        invariant Valid() && position >= old(position)
        invariant Spec.ParseQuad(old(Rest()), 4, 0) == Spec.ParseQuad(Rest(), 4 - i, value)
      {
        QuadStep(Rest(), 4 - i, value);
        var b := Next();
        if b.None? || !IsHexDigit(b.value) {
          return Err(Error(Spec.InvalidHexDigit));
        }
        value := value * 16 + HexDigit(b.value);
      }
      QuadEnd(Rest(), value);
      r := Ok(value);
    }

    method ParseUnicodeEscape() returns (r: Result<char, ParseError>)
      requires Valid()
      modifies this
      ensures Valid() && position >= old(position)
      ensures Follows(r, Spec.ParseUnicodeEscape(old(Rest())))
    {
      hide Spec.ParseQuad;
      var quad := ParseHexQuad();
      if quad.Err? {
        return Err(quad.error);
      }
      var scalar := quad.value;
      if HighSurrogate(quad.value) {
        var backslash := Expect(0x5C);
        if backslash.Err? {
          return Err(backslash.error);
        }
        var letter := Expect(0x75);
        if letter.Err? {
          return Err(letter.error);
        }
        var low := ParseHexQuad();
        if low.Err? {
          return Err(low.error);
        }
        if !LowSurrogate(low.value) {
          return Err(Error(Spec.InvalidLowSurrogate));
        }
        scalar := 0x1_0000 + (quad.value - 0xD800) * 1024 + (low.value - 0xDC00);
      } else if LowSurrogate(quad.value) {
        return Err(Error(Spec.UnexpectedLowSurrogate));
      }
      var c := Spec.FromU32(scalar);
      r := if c.Some? then Ok(c.value) else Err(Error(Spec.InvalidScalar));
    }

    method ParseEscape() returns (r: Result<char, ParseError>)
      requires Valid()
      modifies this
      ensures Valid() && position >= old(position)
      ensures Follows(r, Spec.ParseEscape(old(Rest())))
    {
      hide Spec.ParseUnicodeEscape;
      var letter := Next();
      if letter.None? {
        return Err(Error(Spec.UnterminatedEscape));
      }
      if letter.value == 0x75 {
        r := ParseUnicodeEscape();
      } else {
        var c := ShortEscape(letter.value);
        r := if c.Some? then Ok(c.value) else Err(Error(Spec.InvalidEscape));
      }
    }

    /** The branch of `parse_string` for the first byte of a longer character, already read. */
    method ParseWide(first: byte) returns (r: Result<string, ParseError>)
      requires Valid() && position > 0 && input[position - 1] == first && first >= 0x80
      modifies this
      ensures Valid() && position >= old(position)
      ensures Follows(r, Spec.ParseWide(old(input[position - 1..])))
    {
      var width := Width(first);
      ghost var s := input[position - 1..];
      assert s[1..] == Rest();
      if width == 0 || position + (width - 1) > |input| {
        return Err(Error(Spec.InvalidUtf8InString));
      }
      var start := position - 1;
      var end := start + width;
      assert input[start..end] == s[..width] && input[end..] == s[width..];
      var text := Decode(input[start..end]);
      if text.None? {
        return Err(Error(Spec.InvalidUtf8InString));
      }
      position := end;
      r := Ok(text.value);
    }

    method ParseString() returns (r: Result<string, ParseError>)
      requires Valid()
      modifies this
      ensures Valid() && position >= old(position)
      ensures Follows(r, Spec.ParseString(old(Rest())))
    {
      hide Spec.ParseEscape, Spec.ParseWide;
      var quote := Expect(0x22);
      if quote.Err? {
        return Err(quote.error);
      }
      ghost var spec := Spec.ParseChars(Rest(), "");
      var output := "";
      while true
        invariant Valid() && position >= old(position)
        invariant Spec.ParseChars(Rest(), output) == spec
        decreases |input| - position
      {
        ghost var s := Rest();
        var b := Next();
        if b.None? {
          break;
        }
        if b.value == 0x22 {
          return Ok(output);
        } else if b.value == 0x5C {
          var c := ParseEscape();
          if c.Err? {
            return Err(c.error);
          }
          output := output + [c.value];
        } else if b.value < 0x20 {
          return Err(Error(Spec.ControlByte));
        } else if b.value < 0x80 {
          output := output + [b.value as char];
        } else {
          assert input[position - 1..] == s;
          var text := ParseWide(b.value);
          if text.Err? {
            return Err(text.error);
          }
          output := output + text.value;
        }
      }
      r := Err(Error(Spec.UnterminatedString));
    }

    method ParseInteger() returns (r: Result<(), ParseError>)
      requires Valid()
      modifies this
      ensures Valid() && position >= old(position)
      ensures Follows(r, Spec.ParseInteger(old(Rest())))
    {
      var first := Peek();
      if first == Some(0x30) {
        position := position + 1;
        if position < |input| && IsDigit(input[position]) {
          return Err(Error(Spec.LeadingZero));
        }
      } else if first.Some? && IsDigit(first.value) {
        position := position + 1;
        SkipDigits();
      } else {
        return Err(Error(Spec.InvalidNumber));
      }
      r := Ok(());
    }

    method ParseFraction() returns (r: Result<(), ParseError>)
      requires Valid()
      modifies this
      ensures Valid() && position >= old(position)
      ensures Follows(r, Spec.ParseFraction(old(Rest())))
    {
      hide Spec.SkipDigits;
      var point := ConsumeIf(0x2E);
      if point {
        var start := position;
        ghost var digits := Rest();
        SkipDigits();
        assert |Rest()| == |input| - position && |digits| == |input| - start;
        if position == start {
          return Err(Error(Spec.FractionWithoutDigits));
        }
      }
      r := Ok(());
    }

    method ParseExponent() returns (r: Result<(), ParseError>)
      requires Valid()
      modifies this
      ensures Valid() && position >= old(position)
      ensures Follows(r, Spec.ParseExponent(old(Rest())))
    {
      hide Spec.SkipDigits;
      var letter := Peek();
      if letter.Some? && letter.value in {0x65, 0x45} {
        position := position + 1;
        var sign := Peek();
        if sign.Some? && IsSign(sign.value) {
          position := position + 1;
        }
        var start := position;
        ghost var digits := Rest();
        SkipDigits();
        assert |Rest()| == |input| - position && |digits| == |input| - start;
        if position == start {
          return Err(Error(Spec.ExponentWithoutDigits));
        }
      }
      r := Ok(());
    }

    /** `parse_number` up to the last digit. */
    method ParseNumberEnd() returns (r: Result<(), ParseError>)
      requires Valid()
      modifies this
      ensures Valid() && position >= old(position)
      ensures Follows(r, Spec.ParseNumberEnd(old(Rest())))
    {
      hide Spec.ParseInteger, Spec.ParseFraction, Spec.ParseExponent;
      var minus := ConsumeIf(0x2D);
      r := ParseInteger();
      if r.Err? {
        return;
      }
      r := ParseFraction();
      if r.Err? {
        return;
      }
      r := ParseExponent();
    }

    method ParseNumber() returns (r: Result<string, ParseError>)
      requires Valid()
      modifies this
      ensures Valid() && position >= old(position)
      ensures Follows(r, Spec.ParseNumber(old(Rest())))
    {
      hide Spec.ParseNumberEnd;
      var start := position;
      ghost var s := Rest();
      var end := ParseNumberEnd();
      if end.Err? {
        return Err(end.error);
      }
      assert input[start..position] == s[..|s| - |Rest()|];
      var text := Decode(input[start..position]);
      r := if text.Some? then Ok(text.value) else Err(Error(Spec.InvalidUtf8InNumber));
    }

    method ParseValue() returns (r: Result<JsonValue, ParseError>)
      requires Valid()
      modifies this
      ensures Valid() && position >= old(position)
      ensures r.Ok? ==> position > old(position)
      ensures Follows(r, Spec.ParseValue(old(Rest())))
      decreases |input| - position, 1
    {
      hide Spec.ParseString, Spec.ParseNumber, Spec.ParseKeyword, Spec.SkipSpace, Spec.ParseArray, Spec.ParseObject;
      SkipWhitespace();
      SkippedTwice(old(Rest()));
      var first := Peek();
      if first.None? {
        return Err(Error(Spec.UnexpectedEnd));
      }
      if first.value == 0x6E {
        r := ConsumeKeyword([0x6E, 0x75, 0x6C, 0x6C], Null);
      } else if first.value == 0x74 {
        r := ConsumeKeyword([0x74, 0x72, 0x75, 0x65], Bool(true));
      } else if first.value == 0x66 {
        r := ConsumeKeyword([0x66, 0x61, 0x6C, 0x73, 0x65], Bool(false));
      } else if first.value == 0x22 {
        var chars := ParseString();
        r := if chars.Ok? then Ok(String(chars.value)) else Err(chars.error);
      } else if first.value == 0x5B {
        r := ParseArray();
      } else if first.value == 0x7B {
        r := ParseObject();
      } else if first.value == 0x2D || IsDigit(first.value) {
        var text := ParseNumber();
        r := if text.Ok? then Ok(Number(text.value)) else Err(text.error);
      } else {
        r := Err(Error(Spec.UnexpectedToken));
      }
    }

    method ParseArray() returns (r: Result<JsonValue, ParseError>)
      requires Valid()
      modifies this
      ensures Valid() && position >= old(position)
      ensures Follows(r, Spec.ParseArray(old(Rest())))
      decreases |input| - position, 0
    {
      hide Spec.ParseValue, Spec.SkipSpace;
      ghost var spec := Spec.ParseArray(Rest());
      var open := Expect(0x5B);
      if open.Err? {
        return Err(open.error);
      }
      SkipWhitespace();
      var values := [];
      var empty := ConsumeIf(0x5D);
      if empty {
        return Ok(Array(values));
      }
      while true
        invariant Valid() && position > old(position)
        invariant Spec.ParseItems(Rest(), values) == spec
        decreases |input| - position
      {
        var value := ParseValue();
        if value.Err? {
          return Err(value.error);
        }
        values := values + [value.value];
        SkipWhitespace();
        var closed := ConsumeIf(0x5D);
        if closed {
          break;
        }
        var comma := Expect(0x2C);
        if comma.Err? {
          return Err(comma.error);
        }
        SkipWhitespace();
      }
      r := Ok(Array(values));
    }

    /** The part of the loop of `parse_object` that reads a key and its value. */
    method ParseMember() returns (r: Result<(string, JsonValue), ParseError>)
      requires Valid()
      modifies this
      ensures Valid() && position >= old(position)
      ensures r.Ok? ==> position > old(position)
      ensures Follows(r, Spec.ParseMember(old(Rest())))
      decreases |input| - position, 2
    {
      hide Spec.ParseValue, Spec.ParseString, Spec.SkipSpace;
      SkipWhitespace();
      var key := ParseString();
      if key.Err? {
        return Err(key.error);
      }
      SkipWhitespace();
      var colon := Expect(0x3A);
      if colon.Err? {
        return Err(colon.error);
      }
      SkipWhitespace();
      var value := ParseValue();
      r := if value.Ok? then Ok((key.value, value.value)) else Err(value.error);
    }

    method ParseObject() returns (r: Result<JsonValue, ParseError>)
      requires Valid()
      modifies this
      ensures Valid() && position >= old(position)
      ensures Follows(r, Spec.ParseObject(old(Rest())))
      decreases |input| - position, 0
    {
      hide Spec.ParseMember, Spec.SkipSpace;
      ghost var spec := Spec.ParseObject(Rest());
      var open := Expect(0x7B);
      if open.Err? {
        return Err(open.error);
      }
      SkipWhitespace();
      var members: map<string, JsonValue> := map[];
      var empty := ConsumeIf(0x7D);
      if empty {
        return Ok(Object(members));
      }
      while true
        invariant Valid() && position > old(position)
        invariant Spec.ParseMembers(Rest(), members) == spec
        decreases |input| - position
      {
        var member := ParseMember();
        if member.Err? {
          return Err(member.error);
        }
        var (key, value) := member.value;
        var repeated := key in members;
        members := members[key := value];
        if repeated {
          return Err(Error(Spec.DuplicateKey(key)));
        }
        SkipWhitespace();
        var closed := ConsumeIf(0x7D);
        if closed {
          break;
        }
        var comma := Expect(0x2C);
        if comma.Err? {
          return Err(comma.error);
        }
      }
      r := Ok(Object(members));
    }

    method Parse() returns (r: Result<JsonValue, ParseError>)
      requires Valid()
      modifies this
      ensures Valid()
      ensures Follows(r, Spec.ParseText(old(Rest())))
    {
      hide Spec.ParseValue;
      SkipWhitespace();
      var value := ParseValue();
      if value.Err? {
        return Err(value.error);
      }
      SkipWhitespace();
      if position != |input| {
        return Err(Error(Spec.TrailingContent));
      }
      r := value;
    }
  }

  lemma SkippedTwice(s: seq<byte>)
    ensures Spec.SkipSpace(Spec.SkipSpace(s)) == Spec.SkipSpace(s)
    ensures Spec.ParseValue(Spec.SkipSpace(s)) == Spec.ParseValue(s)
  {
  }

  /** `parse_json` on a string, as a function. */
  function ParsedJson(text: string): Result<JsonValue, ParseError> {
    var bs := Encode(text);
    match Spec.ParseText(bs)
    case Parsed(value, _) => Ok(value)
    case Failed(kind, rest) => Err(ParseError(kind, |bs| - |rest|))
  }

  /** The parser accepts exactly the texts of the grammar, and never reports a decoding failure. */
  lemma ParsedJsonExact(text: string, v: JsonValue)
    ensures ParsedJson(text) == Ok(v) <==> JsonText(Encode(text), v)
    ensures ParsedJson(text).Err? ==> !Boundaries.NeverReported(ParsedJson(text).error.kind)
  {
    hide Spec.ParseText, JsonText, Encode, Boundaries.NeverReported, Boundaries.Boundary;
    Soundness.ParsesExactlyTheGrammar(Encode(text), v);
    if Spec.ParseText(Encode(text)).Parsed? {
      Soundness.TextSound(Encode(text));
    }
    Boundaries.TextKept(text);
  }

  /**
   The reported position is a character boundary exactly when the text has no backslash such that
   the parser reads the text up to it to its end and what follows splits a character.
   */
  lemma ErrorPositionExact(text: string)
    requires ParsedJson(text).Err?
    ensures var bs, e := Encode(text), ParsedJson(text).error;
            0 <= e.position <= |bs|
            && (Boundaries.Boundary(bs[e.position..]) <==> forall i: nat :: !Stops.SplitsAt(bs, i))
  {
    hide Spec.ParseText, Encode, Boundaries.Boundary, Stops.SplitsAt;
    Boundaries.TextKept(text);
    Stops.SplitsExactly(text);
  }

  /** A failure says what is wrong with the text, and where. */
  ghost predicate Describes(e: ParseError, bs: seq<byte>) {
    exists rest :: Failures.TextBreaks(bs, e.kind, rest) && e.position + |rest| == |bs|
  }

  /** The parser refuses a text with the one failure that describes it. */
  lemma ErrorExact(text: string, e: ParseError)
    ensures ParsedJson(text) == Err(e) <==> Describes(e, Encode(text))
  {
    hide Spec.ParseText, Encode, Failures.TextBreaks;
    var bs := Encode(text);
    if Spec.ParseText(bs).Failed? {
      Failures.TextFailsExactly(bs, Spec.ParseText(bs).kind, Spec.ParseText(bs).rest);
    }
    if Describes(e, bs) {
      var rest :| Failures.TextBreaks(bs, e.kind, rest) && e.position + |rest| == |bs|;
      Failures.TextFailsExactly(bs, e.kind, rest);
    }
  }

  /** `parse_json` */
  method ParseJson(text: string) returns (r: Result<JsonValue, ParseError>)
    ensures r == ParsedJson(text)
    ensures forall v :: r == Ok(v) <==> JsonText(Encode(text), v)
    ensures forall e :: r == Err(e) <==> Describes(e, Encode(text))
    ensures r.Err? ==> !Boundaries.NeverReported(r.error.kind)
  {
    hide Spec.ParseText, JsonText, Encode, Boundaries.NeverReported, Describes;
    var parser := new Parser(text);
    r := parser.Parse();
    ParsedJsonExact(text, Null);
    forall v
      ensures r == Ok(v) <==> JsonText(Encode(text), v)
    {
      ParsedJsonExact(text, v);
    }
    forall e
      ensures r == Err(e) <==> Describes(e, Encode(text))
    {
      ErrorExact(text, e);
    }
  }
}

/** Which enum values a type expression has, by how it is spelled (`typespec_enum_values` in lib_part_03.rs). */
module FieldEnums {
  import opened Prelude
  import opened Strings
  import opened Utf8
  import opened JsonValues
  import opened JsonGrammar
  import opened JsonParser
  import opened TypeSpec
  import opened TypeSpecNames
  import opened QuotedStrings
  import opened ModelAudits
  import RoundTrip = JsonRoundTrip

  // Literals

  /** A text as the scanner divides it: characters that are no quotation mark, and string literals. */
  datatype Span = Other(c: char) | Literal(pieces: seq<Piece>)

  predicate IsSpan(span: Span) {
    if span.Other? then span.c != '\"' else ArePieces(span.pieces)
  }

  predicate AreSpans(spans: seq<Span>) {
    forall i | 0 <= i < |spans| :: IsSpan(spans[i])
  }

  function SpanText(span: Span): string
    requires IsSpan(span)
  {
    if span.Other? then [span.c] else "\"" + PiecesSource(span.pieces)
  }

  function SpansText(spans: seq<Span>): string
    requires AreSpans(spans)
  {
    if spans == [] then "" else SpanText(spans[0]) + SpansText(spans[1..])
  }

  /** The strings that the literals stand for. */
  function SpansStrings(spans: seq<Span>): set<string>
    requires AreSpans(spans)
  {
    if spans == [] then {}
    else (if spans[0].Literal? then {PiecesString(spans[0].pieces)} else {}) + SpansStrings(spans[1..])
  }

  lemma {:induction false} SpansScanned(spans: seq<Span>, values: set<string>)
    requires AreSpans(spans)
    ensures Quoted(SpansText(spans), values) == Ok(values + SpansStrings(spans))
  {
    hide Quoted, PiecesSource, PiecesString, ArePieces;
    if spans == [] {
      FillerOnly("", values);
      assert values + {} == values;
    } else {
      var first, rest := spans[0], SpansText(spans[1..]);
      if first.Other? {
        FillerSkipped(first.c, rest, values);
        SpansScanned(spans[1..], values);
        assert {} + SpansStrings(spans[1..]) == SpansStrings(spans[1..]);
      } else {
        LiteralQuoted(first.pieces, rest, values);
        SpansScanned(spans[1..], values + {PiecesString(first.pieces)});
        var one := {PiecesString(first.pieces)};
        assert values + one + SpansStrings(spans[1..]) == values + (one + SpansStrings(spans[1..]));
      }
    }
  }

  /** A literal that the JSON parser reads as a string is spelled by the pieces of that string. */
  lemma StringSpelled(literal: string, v: string) returns (ps: seq<Piece>)
    requires literal != "" && literal[0] == '\"' && literal[|literal| - 1] == '\"'
    requires ParsedJson(literal) == Ok(String(v))
    ensures ArePieces(ps) && literal == "\"" + PiecesSource(ps) && PiecesString(ps) == v
  {
    hide ParsedJson, PiecesSource, PiecesBytes, PiecesString, Encode, AllSpace, ArePieces;
    var bs := Encode(literal);
    ParsedJsonExact(literal, String(v));
    var before, t, after :| JsonGrammar.SpansText(bs, before, t, after) && Denote(t) == String(v);
    ps := t.pieces;
    QuotedEnds(literal);
    NoSpaceAround(bs, before, [0x22] + PiecesBytes(ps), after);
    PiecesSourceBytes(ps);
    RoundTrip.EncodeAscii('\"', PiecesSource(ps));
    EncodeInjective(literal, "\"" + PiecesSource(ps));
  }

  lemma QuotedEnds(literal: string)
    requires literal != "" && literal[0] == '\"' && literal[|literal| - 1] == '\"'
    ensures var bs := Encode(literal); bs != [] && bs[0] == 0x22 && bs[|bs| - 1] == 0x22
  {
    hide Encode;
    var init := literal[..|literal| - 1];
    RoundTrip.EncodeAscii('\"', literal[1..]);
    assert literal == ['\"'] + literal[1..] == init + ['\"'];
    EncodeConcat(init, ['\"']);
    RoundTrip.EncodeAscii('\"', "");
    assert ['\"'] + "" == ['\"'];
    RoundTrip.NoBytes();
  }

  lemma NoSpaceAround(bs: seq<byte>, before: seq<byte>, core: seq<byte>, after: seq<byte>)
    requires bs == before + (core + after) && AllSpace(before) && AllSpace(after) && core != []
    requires bs[0] == 0x22 && bs[|bs| - 1] == 0x22
    ensures bs == core
  {
    assert !IsSpace(0x22);
  }

  lemma {:induction false} LiteralCloses(s: string, escaped: bool)
    requires AfterLiteral(s, escaped).Some?
    ensures var rest := AfterLiteral(s, escaped).value; s[|s| - |rest| - 1] == '\"'
  {
    if escaped || s[0] != '\"' {
      LiteralCloses(s[1..], !escaped && s[0] == '\\');
    }
  }

  lemma NoSpans() returns (spans: seq<Span>)
    ensures spans == [] && AreSpans(spans) && SpansText(spans) == ""
  {
    spans := [];
  }

  lemma {:induction false} SpansFound(s: string, values: set<string>) returns (spans: seq<Span>)
    requires Quoted(s, values).Ok?
    ensures AreSpans(spans) && SpansText(spans) == s
    decreases |s|
  {
    hide AfterLiteral, ParsedJson, PiecesSource, PiecesString, ArePieces, Quoted, AreSpans, SpansText;
    ScanStep(s, values);
    if s == "" {
      spans := NoSpans();
    } else if s[0] != '\"' {
      var others := SpansFound(s[1..], values);
      spans := SpanInFront(Other(s[0]), others);
    } else {
      var rest := AfterLiteral(s[1..], false).value;
      var literal := s[..|s| - |rest|];
      LiteralCloses(s[1..], false);
      var v := LiteralValue(literal).value;
      var ps := StringSpelled(literal, v);
      var others := SpansFound(rest, values + {v});
      spans := SpanInFront(Literal(ps), others);
      assert s == literal + rest;
    }
  }

  lemma SpanInFront(first: Span, others: seq<Span>) returns (spans: seq<Span>)
    requires IsSpan(first) && AreSpans(others)
    ensures spans == [first] + others && AreSpans(spans) && SpansText(spans) == SpanText(first) + SpansText(others)
  {
    hide IsSpan;
    spans := [first] + others;
    assert spans[1..] == others;
  }

  /** A text has exactly the strings of its literals, or it does not divide into literals and other characters. */
  lemma QuotedExactly(s: string, values: set<string>)
    ensures Quoted(s, {}) == Ok(values) <==>
            exists spans :: AreSpans(spans) && SpansText(spans) == s && SpansStrings(spans) == values
  {
    hide Quoted, SpansText, SpansStrings, AreSpans;
    if Quoted(s, {}) == Ok(values) {
      var spans := SpansFound(s, {});
      SpansScanned(spans, {});
      assert {} + SpansStrings(spans) == SpansStrings(spans);
    }
    if spans :| AreSpans(spans) && SpansText(spans) == s && SpansStrings(spans) == values {
      SpansScanned(spans, {});
      assert {} + SpansStrings(spans) == SpansStrings(spans);
    }
  }

  // Type expressions

  predicate Padded(wrappers: seq<Wrapper>) {
    forall w | w in wrappers :: w.InParentheses? ==> AllWhitespace(w.before) && AllWhitespace(w.after)
  }

  /** A name that could not itself be a wrapped or quoted one. */
  predicate PlainName(name: string) {
    name != "" && Trimmed(name) && '\"' !in name && !EndsWith(name, "[]")
    && !(name[0] == '(' && name[|name| - 1] == ')')
  }

  lemma {:induction false} WrapHasNoQuotes(s: string, wrappers: seq<Wrapper>)
    requires '\"' !in s && Padded(wrappers)
    ensures '\"' !in Wrap(s, wrappers)
    decreases |wrappers|
  {
    hide AllWhitespace;
    if wrappers != [] {
      var w := wrappers[0];
      assert w in wrappers;
      if w.InParentheses? {
        SpaceHasNoQuotes(w.before);
        SpaceHasNoQuotes(w.after);
        WrapHasNoQuotes("(" + w.before + s + w.after + ")", wrappers[1..]);
      } else {
        WrapHasNoQuotes(s + "[]", wrappers[1..]);
      }
    }
  }

  lemma SpaceHasNoQuotes(space: string)
    requires AllWhitespace(space)
    ensures '\"' !in space
  {
  }

  /** A name behind any wrappers has the values of the enum of that name, or none when there is no such enum. */
  lemma NamedEnum(doc: Document, name: string, wrappers: seq<Wrapper>, required: bool)
    requires PlainName(name) && Padded(wrappers)
    ensures name in doc.enums ==>
              TypeSpecEnums(doc, Field(required, Wrap(name, wrappers))) == Ok(doc.enums[name])
    ensures name !in doc.enums ==>
              TypeSpecEnums(doc, Field(required, Wrap(name, wrappers))) == Ok({})
  {
    hide Quoted, Unwrapped, Trim, AllWhitespace;
    WrapHasNoQuotes(name, wrappers);
    FillerOnly(Wrap(name, wrappers), {});
    WrappersStripped(name, wrappers);
  }

  /** A text with literals has the values of its literals, whatever enums there are. */
  lemma LiteralEnums(doc: Document, spans: seq<Span>, required: bool)
    requires AreSpans(spans) && SpansStrings(spans) != {}
    ensures TypeSpecEnums(doc, Field(required, SpansText(spans))) == Ok(SpansStrings(spans))
  {
    hide Quoted, Unwrapped, Trim, AreSpans, SpansText, SpansStrings;
    SpansScanned(spans, {});
    assert {} + SpansStrings(spans) == SpansStrings(spans);
  }

  /** The same for strings as the printer quotes them, between fillers without quotation marks. */
  lemma QuotedEnums(doc: Document, fillers: seq<string>, strings: seq<string>, last: string, required: bool)
    requires |fillers| == |strings| && strings != [] && '\"' !in last
    requires forall i | 0 <= i < |fillers| :: '\"' !in fillers[i]
    ensures TypeSpecEnums(doc, Field(required, Interleaved(fillers, strings, last))) == Ok(set s | s in strings)
  {
    hide Quoted, Unwrapped, Trim, Interleaved;
    QuotedInterleaved(fillers, strings, last, {});
    var values := set s | s in strings;
    assert strings[0] in values && {} + values == values;
  }

  /** A type expression that does not divide into literals and other characters is refused. */
  lemma BadLiteral(doc: Document, field: Field)
    ensures TypeSpecEnums(doc, field).Err? <==>
            forall spans :: AreSpans(spans) ==> SpansText(spans) != field.typeExpression
  {
    hide Quoted, Unwrapped, Trim, AreSpans, SpansText;
    forall spans | AreSpans(spans) && SpansText(spans) == field.typeExpression
      ensures Quoted(field.typeExpression, {}).Ok?
    {
      SpansScanned(spans, {});
    }
    if Quoted(field.typeExpression, {}).Ok? {
      var spans := SpansFound(field.typeExpression, {});
    }
  }
}

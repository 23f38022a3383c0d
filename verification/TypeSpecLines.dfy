/**
 What a line of a source means to `parse_typespec`, whatever its spacing; and that the lines which
 mean nothing can stand anywhere.
 */
module TypeSpecLines {
  import opened Prelude
  import opened Strings
  import opened TypeSpec
  import opened TypeSpecNames
  import opened TypeSpecRoundTrip
  import opened ParityErrors
  import QuotedStrings
  import Composition = TypeSpecComposition

  // The lines of a model

  /** The spaces around the parts of a field. */
  datatype Spacing = Spacing(beforeColon: string, afterColon: string, beforeEnd: string)

  predicate IsSpacing(p: Spacing) {
    AllWhitespace(p.beforeColon) && AllWhitespace(p.afterColon) && AllWhitespace(p.beforeEnd)
  }

  function FieldSpelled(namePart: string, typeExpression: string, p: Spacing): string {
    namePart + p.beforeColon + ":" + (p.afterColon + typeExpression + p.beforeEnd + ";")
  }

  /** A name without white space or colon, a colon, a type and a semicolon, spaced at will. */
  ghost predicate SpellsField(line: string, namePart: string, typeExpression: string) {
    && namePart != "" && namePart[0] != '@' && ':' !in namePart && NoWhitespace(namePart) && Trimmed(typeExpression)
    && exists p :: IsSpacing(p) && line == FieldSpelled(namePart, typeExpression, p)
  }

  /** The last question mark of the name makes the field optional. */
  ghost predicate DeclaresField(line: string, name: string, field: Field) {
    SpellsField(line, NamePart(name, field), field.typeExpression)
    && (field.required ==> name == "" || name[|name| - 1] != '?')
  }

  ghost predicate DeclaresNothing(line: string) {
    forall namePart, typeExpression :: !SpellsField(line, namePart, typeExpression)
  }

  lemma SpacedName(namePart: string, space: string)
    requires namePart != "" && ':' !in namePart && NoWhitespace(namePart) && AllWhitespace(space)
    ensures ':' !in namePart + space && Trim(namePart + space) == namePart
  {
    hide Trim;
    PaddingTrimmed("", namePart, space);
    assert "" + namePart + space == namePart + space;
    NoColonInSpace(space);
  }

  lemma NoColonInSpace(space: string)
    requires AllWhitespace(space)
    ensures ':' !in space
  {
    assert !IsWhitespace(':');
  }

  lemma SpelledHalves(namePart: string, typeExpression: string, p: Spacing)
    requires namePart != "" && ':' !in namePart && NoWhitespace(namePart) && Trimmed(typeExpression) && IsSpacing(p)
    ensures var line := FieldSpelled(namePart, typeExpression, p);
            && line != "" && line[0] == namePart[0] && line[|line| - 1] == ';'
            && |NameHalf(line)| < |line| - 1
            && Trim(NameHalf(line)) == namePart && Trim(TypeHalf(line)) == typeExpression
  {
    hide Trim, Before, Trimmed, NoWhitespace, AllWhitespace;
    var half, rest := namePart + p.beforeColon, p.afterColon + typeExpression + p.beforeEnd;
    var line := FieldSpelled(namePart, typeExpression, p);
    var declaration := line[..|line| - 1];
    SpacedName(namePart, p.beforeColon);
    PaddingTrimmed(p.afterColon, typeExpression, p.beforeEnd);
    assert declaration == half + [':'] + rest;
    BeforeFirst(half, ':', rest);
    assert declaration[|half| + 1..] == rest;
  }

  /** A spelled field is read. */
  lemma FieldRead(namePart: string, typeExpression: string, p: Spacing)
    requires namePart != "" && namePart[0] != '@' && ':' !in namePart && NoWhitespace(namePart)
    requires Trimmed(typeExpression) && IsSpacing(p)
    ensures var last := namePart[|namePart| - 1];
            FieldOf(FieldSpelled(namePart, typeExpression, p))
            == Some(if last == '?' then (namePart[..|namePart| - 1], Field(false, typeExpression))
                    else (namePart, Field(true, typeExpression)))
  {
    hide Trim, NameHalf, TypeHalf, FieldOf, Trimmed, FieldSpelled, IsSpacing, NoWhitespace;
    SpelledHalves(namePart, typeExpression, p);
    FieldOfHalves(FieldSpelled(namePart, typeExpression, p));
  }

  /** Whatever is read as a field is spelled so. */
  lemma FieldReadOnly(line: string) returns (p: Spacing)
    requires Trimmed(line) && FieldOf(line).Some?
    ensures var (name, field) := FieldOf(line).value;
            && IsSpacing(p) && line == FieldSpelled(NamePart(name, field), field.typeExpression, p)
            && DeclaresField(line, name, field)
  {
    hide Trim, Before;
    var (name, field) := FieldOf(line).value;
    var declaration := line[..|line| - 1];
    var half, rest := Before(declaration, ':'), declaration[|Before(declaration, ':')| + 1..];
    var b0, a0 := TrimSplits(half);
    var b1, a1 := TrimSplits(rest);
    NothingBefore(line, half, b0, Trim(half), a0);
    NamePartOf(Trim(half), field.typeExpression);
    p := Spacing(a0, b1, a1);
    assert declaration == half + ":" + rest;
    assert line == declaration + ";";
    assert line == FieldSpelled(Trim(half), field.typeExpression, p);
    assert forall c | c in Trim(half) :: c in half;
  }

  lemma NothingBefore(line: string, half: string, before: string, name: string, after: string)
    requires Trimmed(line) && half <= line && half == before + name + after && AllWhitespace(before) && name != ""
    ensures before == "" && half == name + after && name[0] == line[0]
  {
    assert half[0] == line[0];
  }

  lemma NamePartOf(namePart: string, typeExpression: string)
    requires namePart != ""
    ensures namePart[|namePart| - 1] == '?' ==>
              NamePart(namePart[..|namePart| - 1], Field(false, typeExpression)) == namePart
    ensures NamePart(namePart, Field(true, typeExpression)) == namePart
  {
  }

  /** A line of a model declares a field exactly when it spells one. */
  lemma FieldOfExactly(line: string, name: string, field: Field)
    requires Trimmed(line)
    ensures FieldOf(line) == Some((name, field)) <==> DeclaresField(line, name, field)
  {
    hide FieldOf, FieldSpelled, IsSpacing, Trimmed;
    if FieldOf(line) == Some((name, field)) {
      var p := FieldReadOnly(line);
    }
    if DeclaresField(line, name, field) {
      var namePart := NamePart(name, field);
      var p :| IsSpacing(p) && line == FieldSpelled(namePart, field.typeExpression, p);
      FieldRead(namePart, field.typeExpression, p);
      assert !field.required ==> namePart[..|namePart| - 1] == name;
      assert field.required ==> namePart == name;
    }
  }

  lemma FieldOfNothing(line: string)
    requires Trimmed(line)
    ensures FieldOf(line).None? <==> DeclaresNothing(line)
  {
    hide FieldOf, FieldSpelled, IsSpacing, Trimmed;
    if FieldOf(line).Some? {
      var p := FieldReadOnly(line);
      var (name, field) := FieldOf(line).value;
      assert SpellsField(line, NamePart(name, field), field.typeExpression);
    }
    forall namePart, typeExpression | SpellsField(line, namePart, typeExpression)
      ensures FieldOf(line).Some?
    {
      var p :| IsSpacing(p) && line == FieldSpelled(namePart, typeExpression, p);
      FieldRead(namePart, typeExpression, p);
    }
  }

  /** Decorators, text without a semicolon at its end or without a colon, and names that are blank or spaced. */
  lemma NoField(line: string)
    requires Trimmed(line)
    requires line == "" || line[0] == '@' || line[|line| - 1] != ';' || ':' !in line
             || Trim(Before(line, ':')) == "" || !NoWhitespace(Trim(Before(line, ':')))
    ensures DeclaresNothing(line)
  {
    hide Trim, Before, Trimmed, DeclaresNothing;
    FieldOfNothing(line);
    if line != "" {
      var declaration := line[..|line| - 1];
      var half := Before(declaration, ':');
      if |half| < |declaration| {
        assert line[|half|] == declaration[|half|] == ':';
        assert line == half + [':'] + line[|half| + 1..];
        BeforeFirst(half, ':', line[|half| + 1..]);
        assert Before(line, ':') == half;
      }
    }
    assert FieldOf(line).None?;
  }

  // The lines that open and close declarations

  predicate OpensDeclaration(line: string) {
    ("model " <= line || "enum " <= line) && '{' in line
  }

  /** A name ends where its characters do. */
  predicate EndsName(rest: string) {
    rest == "" || !IsNameChar(rest[0])
  }

  function Opened(keyword: string, name: string): State {
    if keyword == "model " then InModel(name, map[]) else InEnum(name, {})
  }

  lemma TrimStartPadded(space: string, s: string)
    requires AllWhitespace(space) && (s == "" || !IsWhitespace(s[0]))
    ensures TrimStart(space + s) == s
  {
    TrimStartSkips(space, s);
  }

  lemma DeclaredName(keyword: string, space: string, name: string, rest: string)
    requires AllWhitespace(space) && (forall i | 0 <= i < |name| :: IsNameChar(name[i])) && EndsName(rest)
    requires name == "" && rest != "" ==> !IsWhitespace(rest[0])
    ensures DeclarationName(keyword + space + name + rest, keyword) == if name == "" then None else Some(name)
  {
    hide TrimStart, AllWhitespace, IsNameChar, IsWhitespace;
    var line := keyword + space + name + rest;
    assert line[|keyword|..] == space + (name + rest);
    if name == "" {
      assert name + rest == rest;
      TrimStartPadded(space, rest);
    } else {
      NameCharIsNotSpace(name[0]);
      TrimStartPadded(space, name + rest);
      NameTaken(name, rest);
    }
  }

  lemma KeywordLine(keyword: string, tail: string)
    requires keyword in {"model ", "enum "} && '{' in tail
    ensures var line := keyword + tail;
            '{' in line && ("model " <= line <==> keyword == "model ") && ("enum " <= line <==> keyword == "enum ")
  {
    assert (keyword + tail)[0] == keyword[0];
  }

  /** Outside, a keyword, white space, a name and an opening brace somewhere behind it begin a declaration. */
  lemma HeaderRead(doc: Document, keyword: string, space: string, name: string, rest: string, number: nat)
    requires keyword in {"model ", "enum "} && AllWhitespace(space) && IsName(name) && EndsName(rest) && '{' in rest
    ensures Step(doc, Outside, keyword + space + name + rest, number) == Ok((doc, Opened(keyword, name)))
  {
    hide DeclarationName, AllWhitespace, IsName, EndsName;
    KeywordLine(keyword, space + name + rest);
    assert keyword + (space + name + rest) == keyword + space + name + rest;
    NameIsChars(name);
    DeclaredName(keyword, space, name, rest);
  }

  lemma NameIsChars(name: string)
    requires IsName(name)
    ensures name != "" && forall i | 0 <= i < |name| :: IsNameChar(name[i])
  {
  }

  /** Without a name the source is refused, at this line. */
  lemma HeaderRefused(doc: Document, keyword: string, space: string, rest: string, number: nat)
    requires keyword in {"model ", "enum "} && AllWhitespace(space) && '{' in rest
    requires !IsNameChar(rest[0]) && !IsWhitespace(rest[0])
    ensures Step(doc, Outside, keyword + space + rest, number)
            == Err(InvalidDeclaration(if keyword == "model " then "model" else "enum", number))
  {
    hide DeclarationName, AllWhitespace;
    KeywordLine(keyword, space + rest);
    assert keyword + (space + rest) == keyword + space + rest == keyword + space + "" + rest;
    DeclaredName(keyword, space, "", rest);
  }

  lemma {:induction false} NameSplits(s: string) returns (name: string, rest: string)
    ensures s == name + rest && (forall i | 0 <= i < |name| :: IsNameChar(name[i])) && EndsName(rest)
  {
    if s != "" && IsNameChar(s[0]) {
      var others;
      others, rest := NameSplits(s[1..]);
      name := [s[0]] + others;
    } else {
      name, rest := "", s;
    }
  }

  /** There is no third kind of line that opens a declaration. */
  lemma HeaderForms(line: string) returns (keyword: string, space: string, name: string, rest: string)
    requires OpensDeclaration(line)
    ensures keyword in {"model ", "enum "} && AllWhitespace(space) && line == keyword + space + name + rest
    ensures '{' in rest && EndsName(rest) && (IsName(name) || (name == "" && !IsWhitespace(rest[0])))
  {
    hide AllWhitespace, IsNameChar, IsWhitespace, EndsName;
    keyword := if "model " <= line then "model " else "enum ";
    var core;
    space, core := LeadingSpace(line[|keyword|..]);
    name, rest := NameSplits(core);
    Rejoined(line, keyword, space, name, rest);
    BraceLast(keyword, space, name, rest);
  }

  lemma LeadingSpace(s: string) returns (space: string, core: string)
    ensures AllWhitespace(space) && s == space + core && (core == "" || !IsWhitespace(core[0]))
  {
    TrimStartSplits(s);
    core := TrimStart(s);
    space := s[..|s| - |core|];
  }

  lemma Rejoined(line: string, keyword: string, space: string, name: string, rest: string)
    requires keyword <= line && line[|keyword|..] == space + (name + rest)
    ensures line == keyword + space + name + rest && (name == "" ==> name + rest == rest)
  {
  }

  lemma BraceLast(keyword: string, space: string, name: string, rest: string)
    requires keyword in {"model ", "enum "} && AllWhitespace(space) && '{' in keyword + space + name + rest
    requires forall i | 0 <= i < |name| :: IsNameChar(name[i])
    ensures '{' in rest
  {
    hide AllWhitespace, IsNameChar;
    NotInName(name);
    NotInSpace(space);
    var line := keyword + space + name + rest;
    assert forall c | c in line :: c in keyword || c in space || c in name || c in rest;
  }

  lemma NotInName(name: string)
    requires forall i | 0 <= i < |name| :: IsNameChar(name[i])
    ensures '{' !in name
  {
  }

  lemma NotInSpace(space: string)
    requires AllWhitespace(space)
    ensures '{' !in space
  {
  }

  /** What a line does inside a model. */
  lemma ModelLine(doc: Document, model: string, fields: Model, line: string, number: nat)
    requires Trimmed(line)
    ensures line == "}" || line == "};" ==>
              Step(doc, InModel(model, fields), line, number)
              == if model in doc.models then Err(Message("duplicate TypeSpec model " + model))
                 else Ok((doc.(models := doc.models[model := fields]), Outside))
    ensures line != "}" && line != "};" && DeclaresNothing(line) ==>
              Step(doc, InModel(model, fields), line, number) == Ok((doc, InModel(model, fields)))
    ensures line != "}" && line != "};" ==>
              forall name, field | DeclaresField(line, name, field) ::
                Step(doc, InModel(model, fields), line, number)
                == if name in fields
                   then Err(Message("duplicate TypeSpec field " + name + " in model " + model))
                   else Ok((doc, InModel(model, fields[name := field])))
  {
    hide FieldOf, DeclaresField, DeclaresNothing, Trimmed;
    FieldOfNothing(line);
    forall name, field | DeclaresField(line, name, field)
      ensures FieldOf(line) == Some((name, field))
    {
      FieldOfExactly(line, name, field);
    }
  }

  /** What a line does inside an enum. */
  lemma EnumLine(doc: Document, name: string, values: set<string>, line: string, number: nat)
    ensures line == "}" || line == "};" ==>
              Step(doc, InEnum(name, values), line, number)
              == if name in doc.enums then Err(Message("duplicate TypeSpec enum " + name))
                 else Ok((doc.(enums := doc.enums[name := values]), Outside))
    ensures line != "}" && line != "};" && '\"' !in line ==>
              Step(doc, InEnum(name, values), line, number) == Ok((doc, InEnum(name, values)))
    ensures line != "}" && line != "};" ==>
              var found := QuotedStrings.Quoted(line, {});
              Step(doc, InEnum(name, values), line, number)
              == if found.Ok? then Ok((doc, InEnum(name, values + found.value))) else Err(found.error)
  {
    hide QuotedStrings.Quoted;
    if '\"' !in line {
      QuotedStrings.FillerOnly(line, {});
      assert values + {} == values;
    }
  }

  // The lines that mean nothing

  /** A line that `parse_typespec` passes over, where it stands. */
  ghost predicate Ignorable(state: State, line: string) {
    match state
    case Outside => !OpensDeclaration(line)
    case InModel(_, _) => line != "}" && line != "};" && DeclaresNothing(line)
    case InEnum(_, _) => line != "}" && line != "};" && '\"' !in line
  }

  ghost predicate AllIgnorable(state: State, lines: seq<string>) {
    forall i | 0 <= i < |lines| :: Ignorable(state, Trim(lines[i]))
  }

  lemma IgnorableStays(doc: Document, state: State, line: string, number: nat)
    requires Trimmed(line) && Ignorable(state, line)
    ensures Step(doc, state, line, number) == Ok((doc, state))
  {
    hide DeclaresNothing, QuotedStrings.Quoted, FieldOf, Trimmed;
    match state
    case Outside =>
    case InModel(name, fields) => ModelLine(doc, name, fields, line, number);
    case InEnum(name, values) => EnumLine(doc, name, values, line, number);
  }

  lemma {:induction false} IgnorableRun(lines: seq<string>, number: nat, doc: Document, state: State)
    requires AllIgnorable(state, lines)
    ensures Run(lines, number, doc, state) == Ok((doc, state))
  {
    hide Ignorable, Step, Trim;
    if lines != [] {
      IgnorableStays(doc, state, Trim(lines[0]), number + 1);
      IgnorableRun(lines[1..], number + 1, doc, state);
    }
  }

  /** The same result, or the same error but for the number of the line that it names. */
  predicate SameButLine<T(==)>(a: Result<T, ParityError>, b: Result<T, ParityError>) {
    a == b || (a.Err? && b.Err? && a.error.InvalidDeclaration? && b.error.InvalidDeclaration?
               && a.error.keyword == b.error.keyword)
  }

  lemma StepShifted(doc: Document, state: State, line: string, n: nat, m: nat)
    ensures SameButLine(Step(doc, state, line, n), Step(doc, state, line, m))
    ensures Step(doc, state, line, n).Ok? ==> Step(doc, state, line, n) == Step(doc, state, line, m)
  {
    hide FieldOf, QuotedStrings.Quoted, DeclarationName, Closes;
  }

  lemma {:induction false} RunShifted(lines: seq<string>, n: nat, m: nat, doc: Document, state: State)
    ensures SameButLine(Run(lines, n, doc, state), Run(lines, m, doc, state))
  {
    hide Step, Trim;
    if lines != [] {
      StepShifted(doc, state, Trim(lines[0]), n + 1, m + 1);
      var step := Step(doc, state, Trim(lines[0]), n + 1);
      if step.Ok? {
        RunShifted(lines[1..], n + 1, m + 1, step.value.0, step.value.1);
      }
    }
  }

  lemma RunAround(a: seq<string>, noise: seq<string>, b: seq<string>)
    requires var before := Run(a, 0, EMPTY, Outside); before.Ok? ==> AllIgnorable(before.value.1, noise)
    ensures SameButLine(Run(a + noise + b, 0, EMPTY, Outside), Run(a + b, 0, EMPTY, Outside))
  {
    hide Run, AllIgnorable;
    assert a + noise + b == a + (noise + b);
    Composition.RunAppend(a, noise + b, 0, EMPTY, Outside);
    Composition.RunAppend(a, b, 0, EMPTY, Outside);
    var before := Run(a, 0, EMPTY, Outside);
    if before.Ok? {
      var (doc, state) := before.value;
      Composition.RunAppend(noise, b, |a|, doc, state);
      IgnorableRun(noise, |a|, doc, state);
      RunShifted(b, |a| + |noise|, |a|, doc, state);
    }
  }

  /**
   Whole lines that mean nothing where they stand can be put into any source: the document, or the
   error, stays as it is, but for the number of a line that is named.
   */
  lemma IgnorableAnywhere(s: string, noise: string, t: string)
    requires WholeLines(s) && WholeLines(noise)
    requires var before := Run(Lines(s), 0, EMPTY, Outside); before.Ok? ==> AllIgnorable(before.value.1, Lines(noise))
    ensures SameButLine(Parsed(s + noise + t), Parsed(s + t))
  {
    hide Run, Lines, AllIgnorable;
    LinesConcat(s, noise);
    LinesConcat(s, t);
    WholeTogether(s, noise);
    LinesConcat(s + noise, t);
    RunAround(Lines(s), Lines(noise), Lines(t));
  }

  lemma WholeTogether(s: string, t: string)
    requires WholeLines(s) && WholeLines(t)
    ensures WholeLines(s + t)
  {
    assert t == "" ==> s + t == s;
  }
}

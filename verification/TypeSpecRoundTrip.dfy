/**
 The documents that `parse_typespec` can return are exactly the valid ones: each valid document
 has a text, printed declaration by declaration, that is parsed back to it.
 */
module TypeSpecRoundTrip {
  import opened Prelude
  import opened Strings
  import opened TypeSpec
  import opened KeyOrder
  import opened ParityErrors
  import JsonPrinting
  import QuotedStrings

  predicate IsName(name: string) {
    name != "" && forall i | 0 <= i < |name| :: IsNameChar(name[i])
  }

  /** A field as its line spells it. */
  function NamePart(name: string, field: Field): string {
    name + (if field.required then "" else "?")
  }

  predicate ValidField(name: string, field: Field) {
    && NamePart(name, field) != ""
    && NoWhitespace(name) && ':' !in name
    && NamePart(name, field)[0] != '@'
    && (field.required ==> name[|name| - 1] != '?')
    && Trimmed(field.typeExpression) && '\n' !in field.typeExpression
  }

  predicate ValidModel(fields: Model) {
    forall name | name in fields :: ValidField(name, fields[name])
  }

  predicate ValidDeclarations(doc: Document) {
    && (forall name | name in doc.models :: IsName(name) && ValidModel(doc.models[name]))
    && (forall name | name in doc.enums :: IsName(name))
  }

  predicate Valid(doc: Document) {
    doc.models != map[] && ValidDeclarations(doc)
  }

  predicate ValidState(state: State) {
    match state
    case Outside => true
    case InModel(name, fields) => IsName(name) && ValidModel(fields)
    case InEnum(name, _) => IsName(name)
  }

  // What is parsed is valid

  lemma TrimKeepsLine(s: string)
    requires '\n' !in s
    ensures '\n' !in Trim(s)
  {
    var t := TrimStart(s);
    assert forall c | c in t :: c in s;
    assert forall c | c in TrimEnd(t) :: c in t;
  }

  /** The two halves of a declaration, as `FieldOf` splits it. */
  function NameHalf(line: string): (half: string)
    requires line != ""
    ensures half <= line && ':' !in half
  {
    Before(line[..|line| - 1], ':')
  }

  function TypeHalf(line: string): (half: string)
    requires line != ""
    ensures forall c | c in half :: c in line
  {
    var declaration := line[..|line| - 1];
    if |NameHalf(line)| < |declaration| then declaration[|NameHalf(line)| + 1..] else ""
  }

  lemma NameHalfTrimmed(line: string)
    requires line != "" && Trimmed(line)
    ensures Trim(NameHalf(line)) <= NameHalf(line)
    ensures ':' !in Trim(NameHalf(line))
    ensures Trim(NameHalf(line)) != "" ==> Trim(NameHalf(line))[0] == line[0]
  {
    var half := NameHalf(line);
    if half != "" {
      assert half[0] == line[0];
      assert TrimStart(half) == half;
    }
    assert forall c | c in Trim(half) :: c in half;
  }

  /** The last question mark makes a field optional. */
  lemma NamePartSplit(namePart: string, typeExpression: string)
    requires namePart != "" && NoWhitespace(namePart) && ':' !in namePart && namePart[0] != '@'
    requires Trimmed(typeExpression) && '\n' !in typeExpression
    ensures var last := namePart[|namePart| - 1];
            if last == '?' then
              NamePart(namePart[..|namePart| - 1], Field(false, typeExpression)) == namePart
              && ValidField(namePart[..|namePart| - 1], Field(false, typeExpression))
            else ValidField(namePart, Field(true, typeExpression))
  {
    var name := namePart[..|namePart| - 1];
    assert forall i | 0 <= i < |name| :: name[i] == namePart[i];
    assert namePart == name + [namePart[|namePart| - 1]];
    assert namePart + "" == namePart;
    assert forall c | c in name :: c in namePart;
  }

  lemma FieldIsValid(line: string)
    requires '\n' !in line && Trimmed(line)
    ensures FieldOf(line).Some? ==> ValidField(FieldOf(line).value.0, FieldOf(line).value.1)
  {
    hide ValidField, Trim, Before;
    if FieldOf(line).Some? {
      NameHalfTrimmed(line);
      TrimKeepsLine(TypeHalf(line));
      NamePartSplit(Trim(NameHalf(line)), Trim(TypeHalf(line)));
    }
  }

  lemma DeclaredIsName(line: string, keyword: string)
    ensures DeclarationName(line, keyword).Some? ==> IsName(DeclarationName(line, keyword).value)
  {
  }

  /** Every line read so far has left valid declarations, or the source is refused. */
  predicate SoFarValid(r: Result<(Document, State), ParityError>) {
    r.Ok? ==> ValidDeclarations(r.value.0) && ValidState(r.value.1)
  }

  lemma StepKeepsValid(doc: Document, state: State, line: string, number: nat)
    requires ValidDeclarations(doc) && ValidState(state)
    requires '\n' !in line && Trimmed(line)
    ensures SoFarValid(Step(doc, state, line, number))
  {
    hide FieldOf, QuotedStrings.Quoted, ValidField, DeclarationName, IsName, Closes;
    DeclaredIsName(line, "model ");
    DeclaredIsName(line, "enum ");
    FieldIsValid(line);
  }

  predicate NoLineFeeds(lines: seq<string>) {
    forall i | 0 <= i < |lines| :: '\n' !in lines[i]
  }

  lemma {:induction false} RunKeepsValid(lines: seq<string>, number: nat, doc: Document, state: State)
    requires ValidDeclarations(doc) && ValidState(state)
    requires NoLineFeeds(lines)
    ensures SoFarValid(Run(lines, number, doc, state))
  {
    hide Step, Trim, ValidDeclarations, ValidState;
    if lines != [] {
      TrimKeepsLine(lines[0]);
      var step := Step(doc, state, Trim(lines[0]), number + 1);
      if step.Ok? {
        StepKeepsValid(doc, state, Trim(lines[0]), number + 1);
        RunKeepsValid(lines[1..], number + 1, step.value.0, step.value.1);
      }
    }
  }

  lemma {:induction false} LinesHaveNoLineFeeds(s: string)
    ensures NoLineFeeds(Lines(s))
    decreases |s|
  {
    if s != "" {
      var line := Before(s, '\n');
      assert forall c | c in WithoutReturn(line) :: c in line;
      if |line| != |s| {
        LinesHaveNoLineFeeds(s[|line| + 1..]);
      }
    }
  }

  lemma ParsedIsValid(source: string)
    ensures Parsed(source).Ok? ==> Valid(Parsed(source).value)
  {
    hide Run, Lines, ValidDeclarations;
    NothingDeclared();
    LinesHaveNoLineFeeds(source);
    RunKeepsValid(Lines(source), 0, EMPTY, Outside);
  }

  lemma NothingDeclared()
    ensures ValidDeclarations(EMPTY)
  {
  }

  // Printing

  function FieldText(name: string, field: Field): string {
    NamePart(name, field) + ":" + (" " + field.typeExpression + ";")
  }

  function FieldsText(fields: Model, names: seq<string>): string
    requires forall name | name in names :: name in fields
  {
    if names == [] then ""
    else "  " + FieldText(names[0], fields[names[0]]) + "\n" + FieldsText(fields, names[1..])
  }

  function ValuesText(values: seq<string>): string {
    if values == [] then "" else "  " + (JsonPrinting.Quote(values[0]) + ",") + "\n" + ValuesText(values[1..])
  }

  function ModelText(name: string, fields: Model): string {
    "model " + name + " {" + "\n" + (FieldsText(fields, Sorted(fields.Keys)) + ("}" + "\n"))
  }

  function EnumText(name: string, values: set<string>): string {
    "enum " + name + " {" + "\n" + (ValuesText(Sorted(values)) + ("}" + "\n"))
  }

  function ModelsText(models: map<string, Model>, names: seq<string>): string
    requires forall name | name in names :: name in models
  {
    if names == [] then "" else ModelText(names[0], models[names[0]]) + ModelsText(models, names[1..])
  }

  function EnumsText(enums: map<string, set<string>>, names: seq<string>): string
    requires forall name | name in names :: name in enums
  {
    if names == [] then "" else EnumText(names[0], enums[names[0]]) + EnumsText(enums, names[1..])
  }

  function Print(doc: Document): string {
    ModelsText(doc.models, Sorted(doc.models.Keys)) + EnumsText(doc.enums, Sorted(doc.enums.Keys))
  }

  // Parsing what was printed

  /** The lines of `s`, from a given document and state. */
  function RunText(s: string, number: nat, doc: Document, state: State): Result<(Document, State), ParityError> {
    Run(Lines(s), number, doc, state)
  }

  /** One line that is `line` behind white space. */
  lemma RunLine(space: string, line: string, s: string, number: nat, doc: Document, state: State)
    requires AllWhitespace(space) && '\n' !in space
    requires line != "" && '\n' !in line && Trimmed(line)
    ensures RunText(space + line + "\n" + s, number, doc, state) ==
            var step := Step(doc, state, line, number + 1);
            if step.Err? then Err(step.error) else RunText(s, number + 1, step.value.0, step.value.1)
  {
    hide Step, Trim, Lines;
    LinesStep(space + line, s);
    assert IsWhitespace('\r');
    assert WithoutReturn(space + line) == space + line;
    TrimSkips(space, line);
    assert Lines(space + line + "\n" + s)[0] == space + line;
    assert Lines(space + line + "\n" + s)[1..] == Lines(s);
  }

  lemma FieldHalves(namePart: string, typeExpression: string)
    requires ':' !in namePart
    ensures var line := namePart + ":" + (" " + typeExpression + ";");
            NameHalf(line) == namePart && TypeHalf(line) == " " + typeExpression
            && |NameHalf(line)| < |line| - 1
  {
    hide Before;
    var line := namePart + ":" + (" " + typeExpression + ";");
    var declaration := line[..|line| - 1];
    assert declaration == namePart + [':'] + (" " + typeExpression);
    BeforeFirst(namePart, ':', " " + typeExpression);
    assert declaration[|namePart| + 1..] == " " + typeExpression;
  }

  lemma HalvesTrimmed(namePart: string, typeExpression: string)
    requires NoWhitespace(namePart) && Trimmed(typeExpression)
    ensures Trim(namePart) == namePart && Trim(" " + typeExpression) == typeExpression
  {
    TrimSkips(" ", typeExpression);
    TrimTrimmed(namePart);
  }

  lemma FieldLineShape(name: string, field: Field)
    requires ValidField(name, field)
    ensures var line := FieldText(name, field);
            && line != "" && line[0] == NamePart(name, field)[0] && line[|line| - 1] == ';'
            && Trimmed(line) && !Closes(line)
  {
    var namePart, line := NamePart(name, field), FieldText(name, field);
    assert !IsWhitespace(namePart[0]);
    assert line[0] == namePart[0];
    assert line[|namePart|] == ':';
  }

  lemma NamePartPlain(name: string, field: Field)
    requires ValidField(name, field)
    ensures NoWhitespace(NamePart(name, field)) && ':' !in NamePart(name, field)
  {
  }

  lemma FieldLine(name: string, field: Field)
    requires ValidField(name, field)
    ensures var line := FieldText(name, field);
            && Trimmed(line) && line != "" && '\n' !in line
            && !Closes(line) && FieldOf(line) == Some((name, field))
  {
    hide Trim, NameHalf, TypeHalf, NoWhitespace, FieldOf;
    var namePart := NamePart(name, field);
    FieldLineShape(name, field);
    FieldLineChars(name, field);
    NamePartPlain(name, field);
    FieldHalves(namePart, field.typeExpression);
    HalvesTrimmed(namePart, field.typeExpression);
    FieldOfHalves(FieldText(name, field));
    assert if field.required then namePart == name + "" == name else namePart[..|namePart| - 1] == name;
  }

  lemma FieldLineChars(name: string, field: Field)
    requires ValidField(name, field)
    ensures '\n' !in FieldText(name, field)
  {
    assert IsWhitespace('\n');
  }

  /** `FieldOf` in terms of the halves. */
  lemma FieldOfHalves(line: string)
    requires line != "" && line[0] != '@' && line[|line| - 1] == ';' && |NameHalf(line)| < |line| - 1
    requires Trim(NameHalf(line)) != "" && NoWhitespace(Trim(NameHalf(line)))
    ensures var namePart := Trim(NameHalf(line));
            FieldOf(line) == Some(if namePart[|namePart| - 1] == '?'
                then (namePart[..|namePart| - 1], Field(false, Trim(TypeHalf(line))))
                                  else (namePart, Field(true, Trim(TypeHalf(line)))))
  {
    hide Before, Trim;
  }

  lemma NameTaken(name: string, s: string)
    requires IsName(name) && (s == "" || !IsNameChar(s[0]))
    ensures TakeName(name + s) == name
    decreases |name|
  {
    if |name| == 1 {
      assert (name + s)[1..] == s;
    } else {
      NameTaken(name[1..], s);
      assert (name + s)[1..] == name[1..] + s;
    }
  }

  lemma NameCharIsNotSpace(c: char)
    requires IsNameChar(c)
    ensures !IsWhitespace(c)
  {
  }

  lemma HeaderLine(keyword: string, name: string)
    requires keyword in {"model ", "enum "} && IsName(name)
    ensures var line := keyword + name + " {";
            && Trimmed(line) && '\n' !in line && keyword <= line && '{' in line
            && DeclarationName(line, keyword) == Some(name)
  {
    hide IsWhitespace, IsNameChar, DeclarationName;
    var line := keyword + name + " {";
    BraceIsNotSpace();
    HeaderName(keyword, name);
    assert line[|line| - 1] == '{' && (line[0] == 'm' || line[0] == 'e');
    NoBreakInName(name);
    assert forall c | c in line :: c in keyword || c in name || c in " {";
  }

  lemma HeaderName(keyword: string, name: string)
    requires IsName(name)
    ensures DeclarationName(keyword + name + " {", keyword) == Some(name)
  {
    hide IsWhitespace, IsNameChar, TakeName;
    BraceIsNotSpace();
    NameCharIsNotSpace(name[0]);
    assert (keyword + name + " {")[|keyword|..] == name + " {";
    assert TrimStart(name + " {") == name + " {";
    NameTaken(name, " {");
  }

  lemma BraceIsNotSpace()
    ensures !IsWhitespace('{') && !IsWhitespace('m') && !IsWhitespace('e') && !IsNameChar(' ')
  {
  }

  lemma NoBreakInName(name: string)
    requires IsName(name)
    ensures '\n' !in name
  {
  }

  lemma {:induction false} FieldsParsed(fields: Model, names: seq<string>, s: string, number: nat, doc: Document,
      model: string, found: Model)
      returns (after: nat)
    requires ValidModel(fields)
    requires Distinct(names)
    requires forall name | name in names :: name in fields && name !in found
    ensures RunText(FieldsText(fields, names) + s, number, doc, InModel(model, found))
         == RunText(s, after, doc, InModel(model, found + Picked(fields, names)))
  {
    hide RunText, FieldText, FieldOf, Picked, ValidField;
    if names == [] {
      assert FieldsText(fields, names) + s == s;
      PickedNone(fields, found);
      after := number;
    } else {
      var name := names[0];
      var line, others := FieldText(name, fields[name]), FieldsText(fields, names[1..]) + s;
      FieldLine(name, fields[name]);
      RunLine("  ", line, others, number, doc, InModel(model, found));
      assert FieldsText(fields, names) + s == "  " + line + "\n" + others;
      var extended := found[name := fields[name]];
      PickedStep(fields, names, found);
      assert forall n | n in names[1..] :: n in names && n !in extended;
      after := FieldsParsed(fields, names[1..], s, number + 1, doc, model, extended);
    }
  }

  /** A printed literal contains no line feed, so it stays on its line. */
  lemma {:induction false} EscapedOnOneLine(s: string)
    ensures '\n' !in JsonPrinting.EscapeChars(s)
  {
    if s != "" {
      EscapedOnOneLine(s[1..]);
      assert '\n' !in JsonPrinting.EscapeChar(s[0]);
    }
  }

  lemma ValueLine(value: string)
    ensures var line := JsonPrinting.Quote(value) + ",";
            && Trimmed(line) && line != "" && '\n' !in line && !Closes(line)
            && QuotedStrings.Quoted(line, {}) == Ok({value})
  {
    hide QuotedStrings.Quoted, JsonPrinting.EscapeChars;
    var line := JsonPrinting.Quote(value) + ",";
    EscapedOnOneLine(value);
    assert line[0] == '\"' && line[|line| - 1] == ',';
    QuotedStrings.QuotedInterleaved([""], [value], ",", {});
    assert [""][1..] == [] && [value][1..] == [];
    assert QuotedStrings.Interleaved([], [], ",") == ",";
    assert QuotedStrings.Interleaved([""], [value], ",") == "" + line == line;
    assert {} + (set s | s in [value]) == {value};
  }

  lemma {:induction false} ValuesParsed(values: seq<string>, s: string, number: nat, doc: Document, name: string,
      found: set<string>)
      returns (after: nat)
    ensures RunText(ValuesText(values) + s, number, doc, InEnum(name, found))
         == RunText(s, after, doc, InEnum(name, found + Elements(values)))
  {
    hide RunText, QuotedStrings.Quoted, JsonPrinting.Quote, Elements;
    ValuesSplit(values, s, found);
    if values == [] {
      after := number;
    } else {
      var line, others := JsonPrinting.Quote(values[0]) + ",", ValuesText(values[1..]) + s;
      ValueLine(values[0]);
      RunLine("  ", line, others, number, doc, InEnum(name, found));
      after := ValuesParsed(values[1..], s, number + 1, doc, name, found + {values[0]});
    }
  }

  lemma ValuesSplit(values: seq<string>, s: string, found: set<string>)
    ensures values == [] ==> ValuesText(values) + s == s && found + Elements(values) == found
    ensures values != [] ==>
              && ValuesText(values) + s == "  " + (JsonPrinting.Quote(values[0]) + ",") + "\n"
                  + (ValuesText(values[1..]) + s)
              && found + {values[0]} + Elements(values[1..]) == found + Elements(values)
  {
    hide JsonPrinting.Quote;
    if values != [] {
      FirstElement(values, found);
      JsonPrinting.Append("  " + (JsonPrinting.Quote(values[0]) + ",") + "\n", ValuesText(values[1..]), s);
    }
  }

  lemma FirstElement(values: seq<string>, found: set<string>)
    requires values != []
    ensures found + {values[0]} + Elements(values[1..]) == found + Elements(values)
  {
    assert values == [values[0]] + values[1..];
  }

  lemma ModelOpens(name: string, s: string, number: nat, doc: Document)
    requires IsName(name)
    ensures RunText("model " + name + " {" + "\n" + s, number, doc, Outside)
        == RunText(s, number + 1, doc, InModel(name, map[]))
  {
    hide RunText, DeclarationName;
    var header := "model " + name + " {";
    HeaderLine("model ", name);
    RunLine("", header, s, number, doc, Outside);
    assert "" + header == header;
  }

  lemma EnumOpens(name: string, s: string, number: nat, doc: Document)
    requires IsName(name)
    ensures RunText("enum " + name + " {" + "\n" + s, number, doc, Outside)
        == RunText(s, number + 1, doc, InEnum(name, {}))
  {
    hide RunText, DeclarationName;
    var header := "enum " + name + " {";
    HeaderLine("enum ", name);
    assert !("model " <= header) by { assert header[0] == 'e'; }
    RunLine("", header, s, number, doc, Outside);
    assert "" + header == header;
  }

  /** A closing brace files the declaration under its name. */
  lemma BraceFiles(doc: Document, name: string, fields: Model, values: set<string>, number: nat)
    ensures name !in doc.models ==>
              Step(doc, InModel(name, fields), "}", number) == Ok((doc.(models := doc.models[name := fields]), Outside))
    ensures name !in doc.enums ==>
              Step(doc, InEnum(name, values), "}", number) == Ok((doc.(enums := doc.enums[name := values]), Outside))
  {
    hide FieldOf, QuotedStrings.Quoted;
  }

  lemma BlockSplit(header: string, body: string, s: string)
    ensures (header + "\n" + (body + ("}" + "\n"))) + s == header + "\n" + (body + ("" + "}" + "\n" + s))
  {
  }

  lemma ModelSplit(name: string, fields: Model, s: string)
    ensures ModelText(name, fields) + s
            == "model " + name + " {" + "\n" + (FieldsText(fields, Sorted(fields.Keys)) + ("" + "}" + "\n" + s))
  {
    hide FieldsText, Sorted;
    BlockSplit("model " + name + " {", FieldsText(fields, Sorted(fields.Keys)), s);
  }

  lemma EnumSplit(name: string, values: set<string>, s: string)
    ensures EnumText(name, values) + s
            == "enum " + name + " {" + "\n" + (ValuesText(Sorted(values)) + ("" + "}" + "\n" + s))
  {
    hide ValuesText, Sorted;
    BlockSplit("enum " + name + " {", ValuesText(Sorted(values)), s);
  }

  lemma ModelParsed(name: string, fields: Model, s: string, number: nat, doc: Document) returns (after: nat)
    requires IsName(name) && ValidModel(fields) && name !in doc.models
    ensures RunText(ModelText(name, fields) + s, number, doc, Outside)
         == RunText(s, after, doc.(models := doc.models[name := fields]), Outside)
  {
    hide RunText, FieldsText, FieldOf, Ascending, ValidModel, IsName, Picked, Step, ModelText, Sorted;
    var names := Sorted(fields.Keys);
    var body, close := FieldsText(fields, names), "" + "}" + "\n" + s;
    SortedDistinct(fields.Keys);
    ModelSplit(name, fields, s);
    ModelOpens(name, body + close, number, doc);
    after := FieldsParsed(fields, names, close, number + 1, doc, name, map[]);
    PickedAll(fields);
    BraceFiles(doc, name, fields, {}, after + 1);
    RunLine("", "}", s, after, doc, InModel(name, fields));
    after := after + 1;
  }

  lemma EnumParsed(name: string, values: set<string>, s: string, number: nat, doc: Document) returns (after: nat)
    requires IsName(name) && name !in doc.enums
    ensures RunText(EnumText(name, values) + s, number, doc, Outside)
         == RunText(s, after, doc.(enums := doc.enums[name := values]), Outside)
  {
    hide RunText, ValuesText, Ascending, IsName, Step, EnumText, Sorted;
    var sorted := Sorted(values);
    var body, close := ValuesText(sorted), "" + "}" + "\n" + s;
    EnumSplit(name, values, s);
    EnumOpens(name, body + close, number, doc);
    after := ValuesParsed(sorted, close, number + 1, doc, name, {});
    assert {} + Elements(sorted) == values;
    BraceFiles(doc, name, map[], values, after + 1);
    RunLine("", "}", s, after, doc, InEnum(name, values));
    after := after + 1;
  }

  lemma {:induction false} ModelsParsed(models: map<string, Model>, names: seq<string>, s: string, number: nat,
      doc: Document)
      returns (after: nat)
    requires forall name | name in names ::
        name in models && IsName(name) && ValidModel(models[name]) && name !in doc.models
    requires Distinct(names)
    ensures RunText(ModelsText(models, names) + s, number, doc, Outside)
         == RunText(s, after, doc.(models := doc.models + Picked(models, names)), Outside)
  {
    hide RunText, ModelText, ValidModel, IsName, Picked;
    if names == [] {
      assert ModelsText(models, names) + s == s;
      PickedNone(models, doc.models);
      after := number;
    } else {
      var name := names[0];
      var others := ModelsText(models, names[1..]) + s;
      assert ModelsText(models, names) + s == ModelText(name, models[name]) + others;
      var middle := ModelParsed(name, models[name], others, number, doc);
      var extended := doc.(models := doc.models[name := models[name]]);
      PickedStep(models, names, doc.models);
      assert forall n | n in names[1..] :: n in names && n !in extended.models;
      after := ModelsParsed(models, names[1..], s, middle, extended);
    }
  }

  lemma {:induction false} EnumsParsed(enums: map<string, set<string>>, names: seq<string>, s: string, number: nat,
      doc: Document)
      returns (after: nat)
    requires forall name | name in names :: name in enums && IsName(name) && name !in doc.enums
    requires Distinct(names)
    ensures RunText(EnumsText(enums, names) + s, number, doc, Outside)
         == RunText(s, after, doc.(enums := doc.enums + Picked(enums, names)), Outside)
  {
    hide RunText, EnumText, IsName, Picked;
    if names == [] {
      assert EnumsText(enums, names) + s == s;
      PickedNone(enums, doc.enums);
      after := number;
    } else {
      var name := names[0];
      var others := EnumsText(enums, names[1..]) + s;
      assert EnumsText(enums, names) + s == EnumText(name, enums[name]) + others;
      var middle := EnumParsed(name, enums[name], others, number, doc);
      var extended := doc.(enums := doc.enums[name := enums[name]]);
      PickedStep(enums, names, doc.enums);
      assert forall n | n in names[1..] :: n in names && n !in extended.enums;
      after := EnumsParsed(enums, names[1..], s, middle, extended);
    }
  }

  lemma PrintedIsParsed(doc: Document)
    requires Valid(doc)
    ensures Parsed(Print(doc)) == Ok(doc)
  {
    hide ModelsText, EnumsText, Lines, Run, Ascending, ValidModel, IsName;
    var models, enums := Sorted(doc.models.Keys), Sorted(doc.enums.Keys);
    var rest := EnumsText(doc.enums, enums);
    SortedDistinct(doc.models.Keys);
    SortedDistinct(doc.enums.Keys);
    var middle := ModelsParsed(doc.models, models, rest, 0, EMPTY);
    PickedAll(doc.models);
    var half := EMPTY.(models := doc.models);
    var end := EnumsParsed(doc.enums, enums, "", middle, half);
    PickedAll(doc.enums);
    assert rest + "" == rest;
    assert half.(enums := doc.enums) == doc;
    NoLinesLeft(end, doc);
  }

  lemma NoLinesLeft(number: nat, doc: Document)
    ensures RunText("", number, doc, Outside) == Ok((doc, Outside))
  {
  }

  /** A document is valid exactly when some source is parsed to it; its printed text is one. */
  lemma ParsableExactlyWhenValid(doc: Document)
    ensures Valid(doc) <==> Parsed(Print(doc)) == Ok(doc)
    ensures Valid(doc) <==> exists source :: Parsed(source) == Ok(doc)
  {
    hide Parsed, Print, Valid;
    if Valid(doc) {
      PrintedIsParsed(doc);
    }
    forall source | Parsed(source) == Ok(doc)
      ensures Valid(doc)
    {
      ParsedIsValid(source);
    }
  }
}

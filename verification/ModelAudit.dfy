/** The comparison of a TypeSpec model with a schema definition (lib_part_05.rs, lib_part_04.rs). */
module ModelAudits {
  import opened Prelude
  import opened Strings
  import opened KeyOrder
  import opened JsonValues
  import opened ParityErrors
  import opened TypeSpec
  import opened TypeSpecNames
  import opened SchemaFields
  import QuotedStrings

  datatype ModelPair = ModelPair(
    typespecModel: string,
    jsonSchemaDefinition: string,
    fieldRenames: map<string, string>,
    allowTypeSpecOnly: set<string>,
    allowJsonSchemaOnly: set<string>,
    allowRequirednessMismatch: set<string>)

  datatype ModelAudit = ModelAudit(
    typespecModel: string,
    jsonSchemaDefinition: string,
    missingFromTypeSpec: set<string>,
    missingFromJsonSchema: set<string>,
    requirednessMismatches: set<string>,
    enumMismatches: set<string>,
    sourceMissing: set<string>)
  {
    /** `ModelAudit::status` is PASS. */
    predicate Passes() {
      missingFromTypeSpec == {} && missingFromJsonSchema == {} && requirednessMismatches == {}
      && enumMismatches == {} && sourceMissing == {}
    }

    function DiscrepancyCount(): nat {
      |missingFromTypeSpec| + |missingFromJsonSchema| + |requirednessMismatches| + |enumMismatches| + |sourceMissing|
    }
  }

  /** `{:?}` on a `BTreeSet<String>`: the standard library's text, of which nothing is assumed. */
  type Show = set<string> -> string

  /** What the comparison loops read: both field tables and the names that link them. */
  datatype Comparison = Comparison(
    enums: Field -> Result<set<string>, ParityError>,
    fields: Model,
    linked: map<string, string>,
    table: map<string, SchemaField>,
    pair: ModelPair,
    show: Show)

  function EmptyAudit(pair: ModelPair): ModelAudit {
    ModelAudit(pair.typespecModel, pair.jsonSchemaDefinition, {}, {}, {}, {}, {})
  }

  // Linking the names

  function MappedName(pair: ModelPair, name: string): string {
    if name in pair.fieldRenames then pair.fieldRenames[name] else Snake(name)
  }

  function CollisionError(pair: ModelPair, existing: string, name: string, mapped: string): ParityError {
    Message("TypeSpec fields " + pair.typespecModel + "." + existing + " and " + pair.typespecModel + "." + name
            + " both map to " + mapped)
  }

  /** The mapped names of `names`, each with the name that it comes from, added to `linked`. */
  function LinkFrom(pair: ModelPair, names: seq<string>, linked: map<string, string>)
      : Result<map<string, string>, ParityError>
  {
    if names == [] then Ok(linked)
    else
      var mapped := MappedName(pair, names[0]);
      if mapped in linked then Err(CollisionError(pair, linked[mapped], names[0], mapped))
      else LinkFrom(pair, names[1..], linked[mapped := names[0]])
  }

  function Link(pair: ModelPair, fields: Model): Result<map<string, string>, ParityError> {
    LinkFrom(pair, Sorted(fields.Keys), map[])
  }

  // Comparing the fields

  /** `typespec_enum_values` */
  function TypeSpecEnums(doc: Document, field: Field): Result<set<string>, ParityError> {
    match QuotedStrings.Quoted(field.typeExpression, {})
    case Err(error) => Err(error)
    case Ok(direct) =>
      if direct != {} then Ok(direct)
      else
        var candidate := Unwrapped(Trim(field.typeExpression));
        Ok(if candidate in doc.enums then doc.enums[candidate] else {})
  }

  /** How the enum values of a field are found, given the enums that the document declares. */
  function EnumsIn(doc: Document): Field -> Result<set<string>, ParityError> {
    field => TypeSpecEnums(doc, field)
  }

  ghost predicate WellLinked(c: Comparison) {
    forall m | m in c.linked :: c.linked[m] in c.fields
  }

  function LinkedField(c: Comparison, m: string): Field
    requires WellLinked(c) && m in c.linked
  {
    c.fields[c.linked[m]]
  }

  function LinkedEnums(c: Comparison, m: string): Result<set<string>, ParityError>
    requires WellLinked(c) && m in c.linked
  {
    c.enums(LinkedField(c, m))
  }

  predicate LacksSchemaField(c: Comparison, m: string) {
    m in c.linked && m !in c.table && c.linked[m] !in c.pair.allowTypeSpecOnly
  }

  predicate LacksTypeSpecField(c: Comparison, n: string) {
    n in c.table && n !in c.linked && n !in c.pair.allowJsonSchemaOnly
  }

  predicate RequirednessDiffers(c: Comparison, m: string)
    requires WellLinked(c)
  {
    m in c.linked && m in c.table && LinkedField(c, m).required != c.table[m].required
    && c.linked[m] !in c.pair.allowRequirednessMismatch
  }

  predicate EnumsDiffer(c: Comparison, m: string)
    requires WellLinked(c)
  {
    m in c.linked && m in c.table && LinkedEnums(c, m).Ok? && LinkedEnums(c, m).value != c.table[m].enumValues
  }

  function Word(required: bool): string {
    if required then "required" else "optional"
  }

  function TypeSpecSide(c: Comparison, m: string): string
    requires m in c.linked
  {
    c.pair.typespecModel + "." + c.linked[m]
  }

  function SchemaSide(c: Comparison, m: string): string {
    c.pair.jsonSchemaDefinition + "." + m
  }

  function LackingText(c: Comparison, m: string): string {
    if m in c.linked then TypeSpecSide(c, m) + (" -> " + SchemaSide(c, m)) else ""
  }

  function RequirednessText(c: Comparison, m: string): string
    requires WellLinked(c)
  {
    if m in c.linked && m in c.table then
      TypeSpecSide(c, m) + ("=" + Word(LinkedField(c, m).required)
        + (" vs " + SchemaSide(c, m) + "=" + Word(c.table[m].required)))
    else ""
  }

  function EnumsText(c: Comparison, m: string): string
    requires WellLinked(c)
  {
    if m in c.linked && m in c.table && LinkedEnums(c, m).Ok? then
      TypeSpecSide(c, m) + ("=" + c.show(LinkedEnums(c, m).value)
        + (" vs " + SchemaSide(c, m) + "=" + c.show(c.table[m].enumValues)))
    else ""
  }

  function Lacking(c: Comparison, names: set<string>): set<string> {
    set m | m in names && LacksSchemaField(c, m) :: LackingText(c, m)
  }

  function Unknown(c: Comparison, names: set<string>): set<string> {
    set n | n in names && LacksTypeSpecField(c, n) :: SchemaSide(c, n)
  }

  function RequirednessMismatches(c: Comparison, names: set<string>): set<string>
    requires WellLinked(c)
  {
    set m | m in names && RequirednessDiffers(c, m) :: RequirednessText(c, m)
  }

  function EnumMismatches(c: Comparison, names: set<string>): set<string>
    requires WellLinked(c)
  {
    set m | m in names && EnumsDiffer(c, m) :: EnumsText(c, m)
  }

  /** The error of the first field, in order, whose type expression has a bad literal. */
  function FirstEnumError(c: Comparison, names: seq<string>): Option<ParityError>
    requires WellLinked(c) && forall m | m in names :: m in c.linked
  {
    if names == [] then None
    else if names[0] in c.table && LinkedEnums(c, names[0]).Err? then Some(LinkedEnums(c, names[0]).error)
    else FirstEnumError(c, names[1..])
  }

  function Compared(c: Comparison): Result<ModelAudit, ParityError>
    requires WellLinked(c)
  {
    match FirstEnumError(c, Sorted(c.linked.Keys))
    case Some(error) => Err(error)
    case None =>
      Ok(ModelAudit(c.pair.typespecModel, c.pair.jsonSchemaDefinition,
                    Unknown(c, c.table.Keys), Lacking(c, c.linked.Keys),
                    RequirednessMismatches(c, c.linked.Keys), EnumMismatches(c, c.linked.Keys), {}))
  }

  lemma {:induction false} LinkFromOk(pair: ModelPair, names: seq<string>, linked: map<string, string>)
    requires LinkFrom(pair, names, linked).Ok?
    ensures var r := LinkFrom(pair, names, linked).value;
            && (forall m | m in linked :: m in r && r[m] == linked[m])
            && (forall m | m in r :: m in linked || (r[m] in names && MappedName(pair, r[m]) == m))
            && (forall n | n in names :: MappedName(pair, n) in r && r[MappedName(pair, n)] == n)
  {
    hide MappedName;
    if names != [] {
      var mapped := MappedName(pair, names[0]);
      assert names == [names[0]] + names[1..];
      LinkFromOk(pair, names[1..], linked[mapped := names[0]]);
      assert mapped in linked[mapped := names[0]];
    }
  }

  /** No two of the names map to one name. */
  ghost predicate MapsApart(pair: ModelPair, names: set<string>) {
    forall n, k | n in names && k in names && n != k :: MappedName(pair, n) != MappedName(pair, k)
  }

  lemma {:induction false} LinkFromSucceeds(pair: ModelPair, names: seq<string>, linked: map<string, string>)
    requires Distinct(names) && MapsApart(pair, Elements(names))
    requires forall n | n in names :: MappedName(pair, n) !in linked
    ensures LinkFrom(pair, names, linked).Ok?
  {
    hide MappedName;
    if names != [] {
      var mapped := MappedName(pair, names[0]);
      assert names == [names[0]] + names[1..];
      assert Distinct(names[1..]);
      forall n | n in names[1..]
        ensures MappedName(pair, n) !in linked[mapped := names[0]]
      {
        var j :| 0 <= j < |names[1..]| && names[1..][j] == n;
        assert names[j + 1] == n && names[0] != names[j + 1];
        assert n in Elements(names) && names[0] in Elements(names);
      }
      LinkFromSucceeds(pair, names[1..], linked[mapped := names[0]]);
    }
  }

  /** Linking fails exactly when two fields map to one name, and links each field otherwise. */
  lemma LinkExact(pair: ModelPair, fields: Model)
    ensures Link(pair, fields).Ok? <==> MapsApart(pair, fields.Keys)
    ensures Link(pair, fields).Ok? ==>
            var linked := Link(pair, fields).value;
            && (forall m | m in linked :: linked[m] in fields && MappedName(pair, linked[m]) == m)
            && (forall n | n in fields :: MappedName(pair, n) in linked && linked[MappedName(pair, n)] == n)
  {
    hide MappedName, Ascending;
    var names := Sorted(fields.Keys);
    assert Elements(names) == fields.Keys;
    if Link(pair, fields).Ok? {
      LinkFromOk(pair, names, map[]);
      forall n, k | n in fields && k in fields && n != k
        ensures MappedName(pair, n) != MappedName(pair, k)
      {
        assert n in names && k in names;
      }
    }
    if MapsApart(pair, fields.Keys) {
      SortedDistinct(fields.Keys);
      LinkFromSucceeds(pair, names, map[]);
    }
  }

  /** Without renames, names that the renaming keeps apart never collide. */
  lemma ReversibleNamesLink(pair: ModelPair, fields: Model)
    requires forall n | n in fields :: n !in pair.fieldRenames && !StartsCapital(n) && NoSnakeBreak(n)
    ensures Link(pair, fields).Ok?
  {
    forall n, k | n in fields && k in fields && n != k
      ensures MappedName(pair, n) != MappedName(pair, k)
    {
      if Snake(n) == Snake(k) {
        SnakeInjective(n, k);
      }
    }
    LinkExact(pair, fields);
  }

  /** In particular a pair without renames whose fields have no underscores and no leading capitals. */
  lemma PlainNamesLink(pair: ModelPair, fields: Model)
    requires forall n | n in fields :: n !in pair.fieldRenames && !StartsCapital(n) && '_' !in n
    ensures Link(pair, fields).Ok?
  {
    forall n | n in fields
      ensures NoSnakeBreak(n)
    {
      NoUnderscoreNoBreak(n);
    }
    ReversibleNamesLink(pair, fields);
  }

  // The audit

  /** What `audit_model_pair` returns. */
  function Audited(doc: Document, schema: JsonValue, pair: ModelPair, show: Show): Result<ModelAudit, ParityError> {
    if pair.typespecModel !in doc.models then
      Ok(EmptyAudit(pair).(sourceMissing := {"typespec:model:" + pair.typespecModel}))
    else
      match Fields(schema, pair.jsonSchemaDefinition)
      case Err(error) =>
        if Contains(error, "is required") then
          Ok(EmptyAudit(pair).(sourceMissing := {"json-schema:definition:" + pair.jsonSchemaDefinition}))
        else Err(Message(error))
      case Ok(table) =>
        var fields := doc.models[pair.typespecModel];
        match Link(pair, fields)
        case Err(error) => Err(error)
        case Ok(linked) =>
          LinkExact(pair, fields);
          Compared(Comparison(EnumsIn(doc), fields, linked, table, pair, show))
  }

  lemma LackingStep(c: Comparison, names: seq<string>, i: nat)
    requires i < |names|
    ensures Lacking(c, Elements(names[..i + 1]))
            == Lacking(c, Elements(names[..i])) + if LacksSchemaField(c, names[i]) then {LackingText(c, names[i])}
                else {}
    ensures Unknown(c, Elements(names[..i + 1]))
            == Unknown(c, Elements(names[..i])) + if LacksTypeSpecField(c, names[i]) then {SchemaSide(c, names[i])}
                else {}
  {
    hide LacksSchemaField, LackingText, LacksTypeSpecField, SchemaSide;
    assert names[..i + 1] == names[..i] + [names[i]];
  }

  lemma UnknownAtEnds(c: Comparison, names: seq<string>)
    requires forall name :: name in names <==> name in c.table
    ensures Unknown(c, Elements(names[..0])) == {}
    ensures Unknown(c, Elements(names[..|names|])) == Unknown(c, c.table.Keys)
  {
    hide LacksTypeSpecField, SchemaSide;
    assert names[..|names|] == names;
    assert Elements(names) == c.table.Keys;
  }

  lemma MismatchStep(c: Comparison, names: seq<string>, i: nat)
    requires WellLinked(c) && i < |names|
    ensures RequirednessMismatches(c, Elements(names[..i + 1]))
            == RequirednessMismatches(c, Elements(names[..i])) + if RequirednessDiffers(c, names[i])
                then {RequirednessText(c, names[i])} else {}
    ensures EnumMismatches(c, Elements(names[..i + 1]))
            == EnumMismatches(c, Elements(names[..i])) + if EnumsDiffer(c, names[i]) then {EnumsText(c, names[i])}
                else {}
  {
    hide RequirednessDiffers, RequirednessText, EnumsDiffer, EnumsText;
    assert names[..i + 1] == names[..i] + [names[i]];
  }

  method TypeSpecEnumValues(doc: Document, field: Field) returns (r: Result<set<string>, ParityError>)
    ensures r == TypeSpecEnums(doc, field)
  {
    var direct := QuotedStrings.Scan(field.typeExpression);
    if direct.Err? || direct.value != {} {
      return direct;
    }
    var candidate := StripTypeWrappers(field.typeExpression);
    r := Ok(if candidate in doc.enums then doc.enums[candidate] else {});
  }

  /** The first loop: every field under its mapped name. */
  method LinkFields(pair: ModelPair, fields: Model) returns (r: Result<map<string, string>, ParityError>)
    ensures r == Link(pair, fields)
  {
    hide Snake, Ascending;
    var names := Sorted(fields.Keys);
    var linked: map<string, string> := map[];
    for index := 0 to |names|
      invariant LinkFrom(pair, names[index..], linked) == Link(pair, fields)
    {
      var name := names[index];
      assert names[index..][1..] == names[index + 1..];
      var mapped;
      if name in pair.fieldRenames {
        mapped := pair.fieldRenames[name];
      } else {
        mapped := CamelToSnake(name);
      }
      if mapped in linked {
        return Err(CollisionError(pair, linked[mapped], name, mapped));
      }
      linked := linked[mapped := name];
    }
    r := Ok(linked);
  }

  /** The body of the second loop, for one mapped name; `audit` is returned with its entries added. */
  method CompareField(doc: Document, c: Comparison, m: string, audit: ModelAudit)
      returns (r: Result<ModelAudit, ParityError>)
    requires WellLinked(c) && m in c.linked && c.enums == EnumsIn(doc)
    ensures r.Err? <==> m in c.table && LinkedEnums(c, m).Err?
    ensures r.Err? ==> r.error == LinkedEnums(c, m).error
    ensures r.Ok? ==> r.value == audit.(
      missingFromJsonSchema := audit.missingFromJsonSchema + (if LacksSchemaField(c, m) then {LackingText(c, m)}
          else {}),
      requirednessMismatches := audit.requirednessMismatches + (if RequirednessDiffers(c, m)
          then {RequirednessText(c, m)} else {}),
      enumMismatches := audit.enumMismatches + (if EnumsDiffer(c, m) then {EnumsText(c, m)} else {}))
  {
    hide TypeSpecEnums;
    var name := c.linked[m];
    var field := c.fields[name];
    var next := audit;
    if m !in c.table {
      if name !in c.pair.allowTypeSpecOnly {
        next := next.(missingFromJsonSchema := next.missingFromJsonSchema + {LackingText(c, m)});
      }
      return Ok(next);
    }
    if field.required != c.table[m].required && name !in c.pair.allowRequirednessMismatch {
      next := next.(requirednessMismatches := next.requirednessMismatches + {RequirednessText(c, m)});
    }
    var enums := TypeSpecEnumValues(doc, field);
    if enums.Err? {
      return Err(enums.error);
    }
    if enums.value != c.table[m].enumValues && (enums.value != {} || c.table[m].enumValues != {}) {
      next := next.(enumMismatches := next.enumMismatches + {EnumsText(c, m)});
    }
    r := Ok(next);
  }

  /** The audit after the linked fields `names` have been compared. */
  ghost function SoFar(c: Comparison, names: set<string>): ModelAudit
    requires WellLinked(c)
  {
    EmptyAudit(c.pair).(missingFromJsonSchema := Lacking(c, names),
        requirednessMismatches := RequirednessMismatches(c, names),
                        enumMismatches := EnumMismatches(c, names))
  }

  lemma SoFarStep(c: Comparison, names: seq<string>, i: nat)
    requires WellLinked(c) && i < |names|
    ensures var audit, m := SoFar(c, Elements(names[..i])), names[i];
            SoFar(c, Elements(names[..i + 1])) == audit.(
              missingFromJsonSchema := audit.missingFromJsonSchema + (if LacksSchemaField(c, m)
                  then {LackingText(c, m)} else {}),
              requirednessMismatches := audit.requirednessMismatches + (if RequirednessDiffers(c, m)
                  then {RequirednessText(c, m)} else {}),
              enumMismatches := audit.enumMismatches + (if EnumsDiffer(c, m) then {EnumsText(c, m)} else {}))
  {
    hide LacksSchemaField, LackingText, RequirednessDiffers, RequirednessText, EnumsDiffer, EnumsText;
    hide Lacking, RequirednessMismatches, EnumMismatches, Elements;
    LackingStep(c, names, i);
    MismatchStep(c, names, i);
  }

  lemma ErrorStep(c: Comparison, names: seq<string>, i: nat)
    requires WellLinked(c) && i < |names| && forall m | m in names :: m in c.linked
    ensures names[i] in names && forall m | m in names[i..] :: m in names
    ensures var m := names[i];
            FirstEnumError(c, names[i..])
            == if m in c.table && LinkedEnums(c, m).Err? then Some(LinkedEnums(c, m).error)
                else FirstEnumError(c, names[i + 1..])
    ensures FirstEnumError(c, names[|names|..]) == None
  {
    hide LinkedEnums;
    assert names[i..][1..] == names[i + 1..] && names[i..][0] == names[i];
  }

  /** Both loops. */
  method CompareFields(doc: Document, c: Comparison) returns (r: Result<ModelAudit, ParityError>)
    requires WellLinked(c) && c.enums == EnumsIn(doc)
    ensures r == Compared(c)
  {
    hide LacksSchemaField, LackingText, LacksTypeSpecField, SchemaSide, RequirednessDiffers, RequirednessText,
        EnumsDiffer, EnumsText;
    hide EnumsIn, TypeSpecEnums, FirstEnumError, SoFar, Ascending, Sorted, Elements, Compared, Unknown, LinkedEnums,
        WellLinked;
    var audit := EmptyAudit(c.pair);
    var names := Sorted(c.linked.Keys);
    ComparisonEnds(c, names);
    for index := 0 to |names|
      invariant audit == SoFar(c, Elements(names[..index]))
      invariant FirstEnumError(c, names[index..]) == FirstEnumError(c, names)
    {
      ErrorStep(c, names, index);
      SoFarStep(c, names, index);
      var compared := CompareField(doc, c, names[index], audit);
      if compared.Err? {
        return compared;
      }
      audit := compared.value;
    }
    var unknown := FindUnknownFields(c);
    r := Ok(audit.(missingFromTypeSpec := audit.missingFromTypeSpec + unknown));
  }

  /** Before the first field there are no entries; after the last the audit is the whole comparison. */
  lemma ComparisonEnds(c: Comparison, names: seq<string>)
    requires WellLinked(c) && names == Sorted(c.linked.Keys)
    ensures SoFar(c, Elements(names[..0])) == EmptyAudit(c.pair) && names[0..] == names
    ensures FirstEnumError(c, names[|names|..]) == None
    ensures var error := FirstEnumError(c, names); error.Some? ==> Compared(c) == Err(error.value)
    ensures var unknown := Unknown(c, c.table.Keys);
            FirstEnumError(c, names) == None ==>
              Compared(c) == Ok(SoFar(c, Elements(names[..|names|])).(missingFromTypeSpec := {} + unknown))
    ensures SoFar(c, Elements(names[..|names|])).missingFromTypeSpec == {}
  {
    hide LacksSchemaField, LackingText, LacksTypeSpecField, SchemaSide, RequirednessDiffers, RequirednessText,
        EnumsDiffer, EnumsText;
    hide Ascending, Unknown;
    NoEntries(c);
    assert names[..0] == [] && Elements(names[..|names|]) == c.linked.Keys;
    assert {} + Unknown(c, c.table.Keys) == Unknown(c, c.table.Keys);
  }

  /** The last loop: the schema fields that no TypeSpec field maps to. */
  method FindUnknownFields(c: Comparison) returns (unknown: set<string>)
    ensures unknown == Unknown(c, c.table.Keys)
  {
    hide LacksSchemaField, LackingText, SchemaSide, Ascending, Lacking, Unknown, Sorted, Elements;
    unknown := {};
    var schemaNames := Sorted(c.table.Keys);
    UnknownAtEnds(c, schemaNames);
    for index := 0 to |schemaNames|
      invariant unknown == Unknown(c, Elements(schemaNames[..index]))
    {
      var n := schemaNames[index];
      assert n in schemaNames;
      LackingStep(c, schemaNames, index);
      if n !in c.linked && n !in c.pair.allowJsonSchemaOnly {
        unknown := unknown + {SchemaSide(c, n)};
      }
    }
  }

  lemma NoEntries(c: Comparison)
    requires WellLinked(c)
    ensures Lacking(c, Elements([])) == {}
    ensures RequirednessMismatches(c, Elements([])) == {} && EnumMismatches(c, Elements([])) == {}
  {
  }

  method AuditModelPair(doc: Document, schema: JsonValue, pair: ModelPair, show: Show)
      returns (r: Result<ModelAudit, ParityError>)
    ensures r == Audited(doc, schema, pair, show)
  {
    hide Fields, Compared, Link;
    var audit := EmptyAudit(pair);
    if pair.typespecModel !in doc.models {
      audit := audit.(sourceMissing := audit.sourceMissing + {"typespec:model:" + pair.typespecModel});
      assert {} + {"typespec:model:" + pair.typespecModel} == {"typespec:model:" + pair.typespecModel};
      return Ok(audit);
    }
    var table := Fields(schema, pair.jsonSchemaDefinition);
    if table.Err? {
      if Contains(table.error, "is required") {
        audit := audit.(sourceMissing := audit.sourceMissing + {"json-schema:definition:" + pair.jsonSchemaDefinition});
        assert {} + {"json-schema:definition:" + pair.jsonSchemaDefinition}
            == {"json-schema:definition:" + pair.jsonSchemaDefinition};
        return Ok(audit);
      }
      return Err(Message(table.error));
    }
    var fields := doc.models[pair.typespecModel];
    var linked := LinkFields(pair, fields);
    if linked.Err? {
      return Err(linked.error);
    }
    LinkExact(pair, fields);
    r := CompareFields(doc, Comparison(EnumsIn(doc), fields, linked.value, table.value, pair, show));
  }
}

/** The receipt of a whole audit (lib_part_06.rs). */
module Receipts {
  import opened Prelude
  import opened Decimal
  import opened JsonValues
  import opened JsonGrammar
  import opened JsonParser
  import opened ParityErrors
  import opened KeyOrder
  import opened ModelAudits
  import opened OperationAudits
  import JsonPointer
  import TypeSpec

  const PASS := "PASS"
  const STOPPED := "STOPPED_FOR_EVALUATION"
  const DRAFT := "https://json-schema.org/draft/2020-12/schema"

  datatype PublicationPolicy = PublicationPolicy(
    classification: string,
    expectedId: string,
    forbiddenAuthorityId: string,
    requiredDefinitions: set<string>)

  datatype ParityPolicy = ParityPolicy(
    expectedStatus: string,
    modelPairs: seq<ModelPair>,
    operations: seq<OperationRequirement>,
    publication: PublicationPolicy)

  /** The two `{:?}` texts of the standard library that appear in entries. */
  datatype Debug = Debug(ofString: string -> string, ofSet: Show)

  function Status(passes: bool): string {
    if passes then PASS else STOPPED
  }

  function SortedStrings(values: set<string>): (v: JsonValue)
    ensures v.Array? && |v.items| == |values|
  {
    var ks := Sorted(values);
    Array(seq(|ks|, i requires 0 <= i < |ks| => String(ks[i])))
  }

  function NumberOf(n: nat): JsonValue {
    Number(NatText(n))
  }

  function ModelJson(a: ModelAudit): JsonValue {
    Object(map[
      "enumMismatches" := SortedStrings(a.enumMismatches),
      "jsonSchemaDefinition" := String(a.jsonSchemaDefinition),
      "missingFromJsonSchema" := SortedStrings(a.missingFromJsonSchema),
      "missingFromTypeSpec" := SortedStrings(a.missingFromTypeSpec),
      "requirednessMismatches" := SortedStrings(a.requirednessMismatches),
      "sourceMissing" := SortedStrings(a.sourceMissing),
      "status" := String(Status(a.Passes())),
      "typespecModel" := String(a.typespecModel)])
  }

  function OperationJson(required: OperationRequirement, discrepancies: set<string>): JsonValue {
    Object(map[
      "audience" := String(required.audience),
      "discrepancies" := SortedStrings(discrepancies),
      "method" := String(required.verb),
      "operation" := String(required.operation),
      "route" := String(required.route),
      "status" := String(Status(discrepancies == {})),
      "subroute" := if required.subroute.Some? then String(required.subroute.value) else Null])
  }

  /** A string member, or the empty string when it is absent. */
  function StringMember(root: map<string, JsonValue>, key: string, description: string): Result<string, string> {
    if key in root then JsonPointer.AsString(root[key], description) else Ok("")
  }

  function OtherDraft(draft: string, debug: Debug): string {
    "publication JSON Schema draft mismatch: observed " + debug.ofString(draft)
  }

  function OtherId(expected: string, observed: string, debug: Debug): string {
    "publication $id mismatch: expected " + debug.ofString(expected) + ", observed " + debug.ofString(observed)
  }

  function PublicationDiscrepancies(draft: string, id: string, definitions: set<string>, policy: PublicationPolicy,
      debug: Debug): set<string>
  {
    OnlyIf(draft != DRAFT, OtherDraft(draft, debug))
    + OnlyIf(id != policy.expectedId, OtherId(policy.expectedId, id, debug))
    + OnlyIf(id == policy.forbiddenAuthorityId, "publication incorrectly claims the lifecycle authority $id")
    + MissingDefinitions(policy.requiredDefinitions, definitions)
  }

  function MissingText(name: string): string {
    "publication is missing required lead-intake definition " + name
  }

  function MissingDefinitions(required: set<string>, definitions: set<string>): set<string> {
    set name | name in required && name !in definitions :: MissingText(name)
  }

  /** The publication passes exactly when its draft and identifier are right and it defines all that it must. */
  lemma PublicationPasses(draft: string, id: string, definitions: set<string>, policy: PublicationPolicy, debug: Debug)
    ensures PublicationDiscrepancies(draft, id, definitions, policy, debug) == {} <==>
            draft == DRAFT && id == policy.expectedId && id != policy.forbiddenAuthorityId
                && policy.requiredDefinitions <= definitions
  {
    hide OtherDraft, OtherId, MissingText;
    forall name | name in policy.requiredDefinitions && name !in definitions
      ensures MissingText(name) in MissingDefinitions(policy.requiredDefinitions, definitions)
    {
    }
  }

  lemma NothingMissing(definitions: set<string>)
    ensures MissingDefinitions(Elements([]), definitions) == {}
  {
  }

  function PublicationJson(policy: PublicationPolicy, draft: string, id: string, discrepancies: set<string>): JsonValue
  {
    Object(map[
      "classification" := String(policy.classification),
      "discrepancies" := SortedStrings(discrepancies),
      "observedDraft" := String(draft),
      "observedId" := String(id),
      "status" := String(Status(discrepancies == {}))])
  }

  /** `audit_publication`: the section and the number of its discrepancies. */
  function AuditPublication(publication: JsonValue, policy: PublicationPolicy,
      debug: Debug): Result<(JsonValue, nat), string>
  {
    match JsonPointer.AsObject(publication, "publication JSON Schema")
    case Err(error) => Err(error)
    case Ok(root) =>
      match StringMember(root, "$schema", "publication JSON Schema.$schema")
      case Err(error) => Err(error)
      case Ok(draft) =>
        match StringMember(root, "$id", "publication JSON Schema.$id")
        case Err(error) => Err(error)
        case Ok(id) =>
          match if "$defs" in root then JsonPointer.AsObject(root["$defs"], "publication JSON Schema.$defs")
              else Ok(map[])
          case Err(error) => Err(error)
          case Ok(definitions) =>
            var discrepancies := PublicationDiscrepancies(draft, id, definitions.Keys, policy, debug);
            Ok((PublicationJson(policy, draft, id, discrepancies), |discrepancies|))
  }

  lemma MissingStep(names: seq<string>, i: nat, definitions: set<string>)
    requires i < |names|
    ensures MissingDefinitions(Elements(names[..i + 1]), definitions)
            == MissingDefinitions(Elements(names[..i]), definitions) + if names[i] in definitions then {}
                else {MissingText(names[i])}
  {
    hide MissingText;
    assert names[..i + 1] == names[..i] + [names[i]];
  }

  method FindMissingDefinitions(required: set<string>, definitions: map<string, JsonValue>)
      returns (missing: set<string>)
    ensures missing == MissingDefinitions(required, definitions.Keys)
  {
    hide Ascending, MissingText, MissingDefinitions;
    missing := {};
    NothingMissing(definitions.Keys);
    var names := Sorted(required);
    for index := 0 to |names|
      invariant missing == MissingDefinitions(Elements(names[..index]), definitions.Keys)
    {
      MissingStep(names, index, definitions.Keys);
      if names[index] !in definitions.Keys {
        missing := missing + {MissingText(names[index])};
      }
    }
    assert Elements(names[..|names|]) == required;
  }

  method AuditPublicationSection(publication: JsonValue, policy: PublicationPolicy, debug: Debug)
      returns (r: Result<(JsonValue, nat), string>)
    ensures r == AuditPublication(publication, policy, debug)
  {
    hide PublicationJson, MissingDefinitions, OtherDraft, OtherId, StringMember;
    var root := JsonPointer.AsObject(publication, "publication JSON Schema");
    if root.Err? {
      return Err(root.error);
    }
    var discrepancies := {};
    var draft := StringMember(root.value, "$schema", "publication JSON Schema.$schema");
    if draft.Err? {
      return Err(draft.error);
    }
    if draft.value != DRAFT {
      discrepancies := discrepancies + {OtherDraft(draft.value, debug)};
    }
    var id := StringMember(root.value, "$id", "publication JSON Schema.$id");
    if id.Err? {
      return Err(id.error);
    }
    if id.value != policy.expectedId {
      discrepancies := discrepancies + {OtherId(policy.expectedId, id.value, debug)};
    }
    if id.value == policy.forbiddenAuthorityId {
      discrepancies := discrepancies + {"publication incorrectly claims the lifecycle authority $id"};
    }
    var definitions := if "$defs" in root.value
        then JsonPointer.AsObject(root.value["$defs"], "publication JSON Schema.$defs") else Ok(map[]);
    if definitions.Err? {
      return Err(definitions.error);
    }
    var missing := FindMissingDefinitions(policy.requiredDefinitions, definitions.value);
    discrepancies := discrepancies + missing;
    r := Ok((PublicationJson(policy, draft.value, id.value, discrepancies), |discrepancies|));
  }

  function ModelJsons(audits: seq<ModelAudit>): (vs: seq<JsonValue>)
    ensures |vs| == |audits| && forall i | 0 <= i < |audits| :: vs[i] == ModelJson(audits[i])
  {
    seq(|audits|, i requires 0 <= i < |audits| => ModelJson(audits[i]))
  }

  function OperationJsons(required: seq<OperationRequirement>, found: seq<set<string>>): (vs: seq<JsonValue>)
    requires |required| == |found|
    ensures |vs| == |found| && forall i | 0 <= i < |found| :: vs[i] == OperationJson(required[i], found[i])
  {
    seq(|found|, i requires 0 <= i < |found| => OperationJson(required[i], found[i]))
  }

  function ModelTotal(audits: seq<ModelAudit>): nat {
    if audits == [] then 0 else audits[0].DiscrepancyCount() + ModelTotal(audits[1..])
  }

  function OperationTotal(found: seq<set<string>>): nat {
    if found == [] then 0 else |found[0]| + OperationTotal(found[1..])
  }

  function Summary(models: nat, operations: nat, modelCount: nat, operationCount: nat, publicationCount: nat): JsonValue
  {
    Object(map[
      "checkedModelPairs" := NumberOf(models),
      "checkedOperations" := NumberOf(operations),
      "modelDiscrepancies" := NumberOf(modelCount),
      "operationDiscrepancies" := NumberOf(operationCount),
      "publicationDiscrepancies" := NumberOf(publicationCount),
      "totalDiscrepancies" := NumberOf(modelCount + operationCount + publicationCount)])
  }

  function Checks(publicationCount: nat): JsonValue {
    Object(map[
      "authorityJsonSchemaDraft" := String(PASS),
      "publicationClassification" := String(Status(publicationCount == 0)),
      "typespecParse" := String(PASS)])
  }

  /** The receipt, from the audits of its three sections. */
  function Receipt(audits: seq<ModelAudit>, required: seq<OperationRequirement>, found: seq<set<string>>,
                   publication: JsonValue, publicationCount: nat): JsonValue
    requires |required| == |found|
  {
    var total := ModelTotal(audits) + OperationTotal(found) + publicationCount;
    Object(map[
      "checks" := Checks(publicationCount),
      "format" := String("fiducia.commercial-intake-parity-receipt.v1"),
      "modelPairs" := Array(ModelJsons(audits)),
      "operations" := Array(OperationJsons(required, found)),
      "publication" := publication,
      "status" := String(Status(total == 0)),
      "summary" := Summary(|audits|, |found|, ModelTotal(audits), OperationTotal(found), publicationCount)])
  }

  function AuditPairs(doc: TypeSpec.Document, schema: JsonValue, pairs: seq<ModelPair>,
      show: Show): Result<seq<ModelAudit>, ParityError>
  {
    if pairs == [] then Ok([])
    else
      match Audited(doc, schema, pairs[0], show)
      case Err(error) => Err(error)
      case Ok(audit) =>
        match AuditPairs(doc, schema, pairs[1..], show)
        case Err(error) => Err(error)
        case Ok(others) => Ok([audit] + others)
  }

  ghost function AuditOperations(source: string, required: seq<OperationRequirement>): (found: seq<set<string>>)
    ensures |found| == |required|
    ensures forall i | 0 <= i < |required| :: found[i] == Discrepancies(source, required[i])
  {
    if required == [] then [] else [Discrepancies(source, required[0])] + AuditOperations(source, required[1..])
  }

  function ParsedSource(source: string): Result<JsonValue, ParityError> {
    match ParsedJson(source)
    case Err(error) => Err(Json(error))
    case Ok(v) => Ok(v)
  }

  function SchemaDraft(schema: JsonValue): Result<string, string> {
    match JsonPointer.AsObject(schema, "authority JSON Schema")
    case Err(error) => Err(error)
    case Ok(root) =>
      match JsonPointer.Required(root, "$schema", "authority JSON Schema")
      case Err(error) => Err(error)
      case Ok(v) => JsonPointer.AsString(v, "authority JSON Schema.$schema")
  }

  function WrongStatus(status: string, expected: string): ParityError {
    Message("computed parity status " + status + " does not match reviewed expectedStatus " + expected)
  }

  /** The end of `audit_contracts`: the receipt, if its status is the reviewed one. */
  function Close(receipt: JsonValue, total: nat, policy: ParityPolicy): Result<JsonValue, ParityError> {
    if Status(total == 0) == policy.expectedStatus then Ok(receipt)
    else Err(WrongStatus(Status(total == 0), policy.expectedStatus))
  }

  ghost function AuditSources(source: string, doc: TypeSpec.Document, schema: JsonValue, publication: JsonValue,
                              policy: ParityPolicy, debug: Debug): Result<JsonValue, ParityError> {
    match AuditPairs(doc, schema, policy.modelPairs, debug.ofSet)
    case Err(error) => Err(error)
    case Ok(audits) =>
      var found := AuditOperations(source, policy.operations);
      match AuditPublication(publication, policy.publication, debug)
      case Err(error) => Err(Message(error))
      case Ok((section, count)) =>
        Close(Receipt(audits, policy.operations, found, section, count),
              ModelTotal(audits) + OperationTotal(found) + count, policy)
  }

  /** What `audit_contracts` returns. */
  ghost function AuditedContracts(typespecSource: string, schemaSource: string, publicationSource: string,
                                  policy: ParityPolicy, debug: Debug): Result<JsonValue, ParityError> {
    match TypeSpec.Parsed(typespecSource)
    case Err(error) => Err(error)
    case Ok(doc) =>
      match ParsedSource(schemaSource)
      case Err(error) => Err(error)
      case Ok(schema) =>
        match ParsedSource(publicationSource)
        case Err(error) => Err(error)
        case Ok(publication) =>
          match SchemaDraft(schema)
          case Err(error) => Err(Message(error))
          case Ok(draft) =>
            if draft != DRAFT then Err(Message("authority JSON Schema must use Draft 2020-12"))
            else AuditSources(typespecSource, doc, schema, publication, policy, debug)
  }

  method AuditContracts(typespecSource: string, schemaSource: string, publicationSource: string, policy: ParityPolicy,
      debug: Debug)
      returns (r: Result<JsonValue, ParityError>)
    ensures r == AuditedContracts(typespecSource, schemaSource, publicationSource, policy, debug)
  {
    hide TypeSpec.Parsed, ParsedJson, JsonText, Describes, AuditPublication, Audited, Receipt, Discrepancies,
        SchemaDraft;
    var typespec := TypeSpec.ParseTypeSpec(typespecSource);
    if typespec.Err? {
      return Err(typespec.error);
    }
    var schema := ParseJson(schemaSource);
    if schema.Err? {
      return Err(Json(schema.error));
    }
    var publication := ParseJson(publicationSource);
    if publication.Err? {
      return Err(Json(publication.error));
    }
    var draft := SchemaDraft(schema.value);
    if draft.Err? {
      return Err(Message(draft.error));
    }
    if draft.value != DRAFT {
      return Err(Message("authority JSON Schema must use Draft 2020-12"));
    }
    var audits := AuditAllPairs(typespec.value, schema.value, policy.modelPairs, debug.ofSet);
    if audits.Err? {
      return Err(audits.error);
    }
    var found := AuditAllOperations(typespecSource, policy.operations);
    var section := AuditPublicationSection(publication.value, policy.publication, debug);
    if section.Err? {
      return Err(Message(section.error));
    }
    var (json, count) := section.value;
    r := Close(Receipt(audits.value, policy.operations, found, json, count),
               ModelTotal(audits.value) + OperationTotal(found) + count, policy);
  }

  lemma {:induction false} PairsAppend(doc: TypeSpec.Document, schema: JsonValue, pairs: seq<ModelPair>, n: nat,
      show: Show)
    requires n < |pairs| && AuditPairs(doc, schema, pairs[..n], show).Ok?
    ensures Audited(doc, schema, pairs[n], show).Err? ==>
              AuditPairs(doc, schema, pairs, show) == Err(Audited(doc, schema, pairs[n], show).error)
    ensures Audited(doc, schema, pairs[n], show).Ok? ==>
              AuditPairs(doc, schema, pairs[..n + 1], show)
              == Ok(AuditPairs(doc, schema, pairs[..n], show).value + [Audited(doc, schema, pairs[n], show).value])
    decreases n
  {
    hide Audited;
    if n == 0 {
      assert pairs[..1][1..] == [] && pairs[..1][0] == pairs[0] && pairs[..0] == [];
      if Audited(doc, schema, pairs[0], show).Ok? {
        var first := [Audited(doc, schema, pairs[0], show).value];
        assert first + [] == [] + first;
      }
    } else {
      assert pairs[..n][1..] == pairs[1..][..n - 1] && pairs[..n + 1][1..] == pairs[1..][..n];
      PairsAppend(doc, schema, pairs[1..], n - 1, show);
      assert pairs[..n][0] == pairs[..n + 1][0] == pairs[0] && pairs[1..][n - 1] == pairs[n];
      if Audited(doc, schema, pairs[n], show).Ok? {
        var first := [Audited(doc, schema, pairs[0], show).value];
        var others := AuditPairs(doc, schema, pairs[1..][..n - 1], show).value;
        assert first + (others + [Audited(doc, schema, pairs[n], show).value])
            == first + others + [Audited(doc, schema, pairs[n], show).value];
      }
    }
  }

  method AuditAllPairs(doc: TypeSpec.Document, schema: JsonValue, pairs: seq<ModelPair>, show: Show)
      returns (r: Result<seq<ModelAudit>, ParityError>)
    ensures r == AuditPairs(doc, schema, pairs, show)
  {
    hide Audited;
    var audits := [];
    for index := 0 to |pairs|
      invariant AuditPairs(doc, schema, pairs[..index], show) == Ok(audits)
    {
      PairsAppend(doc, schema, pairs, index, show);
      var audit := AuditModelPair(doc, schema, pairs[index], show);
      if audit.Err? {
        return Err(audit.error);
      }
      audits := audits + [audit.value];
    }
    assert pairs[..|pairs|] == pairs;
    r := Ok(audits);
  }

  method AuditAllOperations(source: string, required: seq<OperationRequirement>) returns (found: seq<set<string>>)
    ensures found == AuditOperations(source, required)
  {
    hide Discrepancies;
    found := [];
    for index := 0 to |required|
      invariant |found| == index
      invariant forall i | 0 <= i < index :: found[i] == Discrepancies(source, required[i])
    {
      var discrepancies := AuditOperation(source, required[index]);
      found := found + [discrepancies];
    }
  }
}

/** What every member of a receipt holds, and when there is one (lib_part_04.rs to lib_part_06.rs). */
module ReceiptContents {
  import opened Prelude
  import opened JsonValues
  import opened JsonParser
  import opened KeyOrder
  import opened ParityErrors
  import opened ModelAudits
  import opened OperationAudits
  import opened Receipts
  import opened ReceiptTheorems
  import TypeSpec

  // Lists and numbers

  /** The array spells the set, in ascending order of the bytes and each text once. */
  ghost predicate ListsInOrder(v: JsonValue, values: set<string>) {
    exists ks :: Ascending(ks) && (forall k :: k in ks <==> k in values)
                 && v.Array? && |v.items| == |ks| && forall i | 0 <= i < |ks| :: v.items[i] == String(ks[i])
  }

  lemma SortedListsInOrder(values: set<string>)
    ensures ListsInOrder(SortedStrings(values), values)
  {
    hide Ascending;
    var ks := Sorted(values);
    assert forall i | 0 <= i < |ks| :: SortedStrings(values).items[i] == String(ks[i]);
  }

  /** There is one such array. */
  lemma ListedOnce(v: JsonValue, values: set<string>)
    requires ListsInOrder(v, values)
    ensures v == SortedStrings(values)
  {
    hide Ascending;
    var ks :| Ascending(ks) && (forall k :: k in ks <==> k in values)
              && v.Array? && |v.items| == |ks| && forall i | 0 <= i < |ks| :: v.items[i] == String(ks[i]);
    AscendingUnique(ks, Sorted(values));
    assert v.items == SortedStrings(values).items;
  }

  // Sections

  ghost predicate ShowsModel(section: JsonValue, a: ModelAudit) {
    && section.Object?
    && section.members.Keys == {"enumMismatches", "jsonSchemaDefinition", "missingFromJsonSchema",
                                "missingFromTypeSpec", "requirednessMismatches", "sourceMissing", "status",
                                "typespecModel"}
    && section.members["typespecModel"] == String(a.typespecModel)
    && section.members["jsonSchemaDefinition"] == String(a.jsonSchemaDefinition)
    && ListsInOrder(section.members["missingFromTypeSpec"], a.missingFromTypeSpec)
    && ListsInOrder(section.members["missingFromJsonSchema"], a.missingFromJsonSchema)
    && ListsInOrder(section.members["requirednessMismatches"], a.requirednessMismatches)
    && ListsInOrder(section.members["enumMismatches"], a.enumMismatches)
    && ListsInOrder(section.members["sourceMissing"], a.sourceMissing)
    && section.members["status"]
       == String(if a.missingFromTypeSpec + a.missingFromJsonSchema + a.requirednessMismatches + a.enumMismatches
                    + a.sourceMissing == {} then "PASS" else "STOPPED_FOR_EVALUATION")
  }

  /** The names and the status of the section, and where its lists are. */
  lemma ModelMembers(a: ModelAudit)
    ensures var v := ModelJson(a);
            && v.Object?
            && v.members.Keys == {"enumMismatches", "jsonSchemaDefinition", "missingFromJsonSchema",
                                  "missingFromTypeSpec", "requirednessMismatches", "sourceMissing", "status",
                                  "typespecModel"}
            && v.members["typespecModel"] == String(a.typespecModel)
            && v.members["jsonSchemaDefinition"] == String(a.jsonSchemaDefinition)
            && v.members["missingFromTypeSpec"] == SortedStrings(a.missingFromTypeSpec)
            && v.members["missingFromJsonSchema"] == SortedStrings(a.missingFromJsonSchema)
            && v.members["requirednessMismatches"] == SortedStrings(a.requirednessMismatches)
            && v.members["enumMismatches"] == SortedStrings(a.enumMismatches)
            && v.members["sourceMissing"] == SortedStrings(a.sourceMissing)
            && v.members["status"] == String(Status(a.Passes()))
  {
    hide SortedStrings;
  }

  lemma PassesEmpty(a: ModelAudit)
    ensures a.Passes() <==> a.missingFromTypeSpec + a.missingFromJsonSchema + a.requirednessMismatches
                              + a.enumMismatches + a.sourceMissing == {}
  {
  }

  lemma ModelShown(a: ModelAudit)
    ensures ShowsModel(ModelJson(a), a)
  {
    hide SortedStrings, ListsInOrder, ModelJson;
    ModelMembers(a);
    PassesEmpty(a);
    SortedListsInOrder(a.missingFromTypeSpec);
    SortedListsInOrder(a.missingFromJsonSchema);
    SortedListsInOrder(a.requirednessMismatches);
    SortedListsInOrder(a.enumMismatches);
    SortedListsInOrder(a.sourceMissing);
  }

  ghost predicate ShowsOperation(section: JsonValue, required: OperationRequirement, discrepancies: set<string>) {
    && section.Object?
    && section.members.Keys == {"audience", "discrepancies", "method", "operation", "route", "status", "subroute"}
    && section.members["audience"] == String(required.audience)
    && section.members["method"] == String(required.verb)
    && section.members["operation"] == String(required.operation)
    && section.members["route"] == String(required.route)
    && (required.subroute.Some? ==> section.members["subroute"] == String(required.subroute.value))
    && (required.subroute.None? ==> section.members["subroute"] == Null)
    && ListsInOrder(section.members["discrepancies"], discrepancies)
    && section.members["status"] == String(if discrepancies == {} then "PASS" else "STOPPED_FOR_EVALUATION")
  }

  lemma OperationShown(required: OperationRequirement, discrepancies: set<string>)
    ensures ShowsOperation(OperationJson(required, discrepancies), required, discrepancies)
  {
    hide SortedStrings, ListsInOrder;
    SortedListsInOrder(discrepancies);
  }

  // The publication

  /** A string member, which an absent one spells as the empty string. */
  predicate Observes(v: JsonValue, key: string, s: string) {
    v.Object? && if key in v.members then v.members[key] == String(s) else s == ""
  }

  /** The names that the publication defines. */
  predicate Defines(v: JsonValue, names: set<string>) {
    v.Object?
    && if "$defs" in v.members then v.members["$defs"].Object? && v.members["$defs"].members.Keys == names
       else names == {}
  }

  /** Which texts are listed for a publication, and why. */
  ghost predicate IsFault(policy: PublicationPolicy, draft: string, id: string, names: set<string>, debug: Debug,
                          text: string) {
    || (draft != "https://json-schema.org/draft/2020-12/schema"
        && text == "publication JSON Schema draft mismatch: observed " + debug.ofString(draft))
    || (id != policy.expectedId
        && text == "publication $id mismatch: expected " + debug.ofString(policy.expectedId) + ", observed "
                   + debug.ofString(id))
    || (id == policy.forbiddenAuthorityId && text == "publication incorrectly claims the lifecycle authority $id")
    || (exists name :: name in policy.requiredDefinitions && name !in names
                       && text == "publication is missing required lead-intake definition " + name)
  }

  ghost predicate ShowsPublication(section: JsonValue, policy: PublicationPolicy, draft: string, id: string,
                                   faults: set<string>) {
    && section.Object?
    && section.members.Keys == {"classification", "discrepancies", "observedDraft", "observedId", "status"}
    && section.members["classification"] == String(policy.classification)
    && section.members["observedDraft"] == String(draft) && section.members["observedId"] == String(id)
    && ListsInOrder(section.members["discrepancies"], faults)
    && section.members["status"] == String(if faults == {} then "PASS" else "STOPPED_FOR_EVALUATION")
  }

  lemma FaultsExactly(policy: PublicationPolicy, draft: string, id: string, names: set<string>, debug: Debug,
                      text: string)
    ensures text in PublicationDiscrepancies(draft, id, names, policy, debug)
            <==> IsFault(policy, draft, id, names, debug, text)
  {
    hide MissingDefinitions, OtherDraft, OtherId;
    MissingExactly(policy.requiredDefinitions, names, text);
    DraftText(draft, debug);
    IdText(policy.expectedId, id, debug);
  }

  lemma MissingExactly(required: set<string>, names: set<string>, text: string)
    ensures text in MissingDefinitions(required, names) <==>
            exists name :: name in required && name !in names
                           && text == "publication is missing required lead-intake definition " + name
  {
  }

  lemma DraftText(draft: string, debug: Debug)
    ensures OtherDraft(draft, debug) == "publication JSON Schema draft mismatch: observed " + debug.ofString(draft)
  {
  }

  lemma IdText(expected: string, observed: string, debug: Debug)
    ensures OtherId(expected, observed, debug)
            == "publication $id mismatch: expected " + debug.ofString(expected) + ", observed "
               + debug.ofString(observed)
  {
  }

  lemma PublicationShown(policy: PublicationPolicy, draft: string, id: string, faults: set<string>)
    ensures ShowsPublication(PublicationJson(policy, draft, id, faults), policy, draft, id, faults)
  {
    hide SortedStrings, ListsInOrder;
    SortedListsInOrder(faults);
  }

  /** A publication has a section exactly when its three members can be read; the section shows them and its faults. */
  lemma PublicationExactly(publication: JsonValue, policy: PublicationPolicy, debug: Debug)
    ensures AuditPublication(publication, policy, debug).Ok? <==>
            && (exists draft :: Observes(publication, "$schema", draft))
            && (exists id :: Observes(publication, "$id", id))
            && exists names :: Defines(publication, names)
    ensures forall draft, id, names | Observes(publication, "$schema", draft) && Observes(publication, "$id", id)
                                      && Defines(publication, names) ::
              AuditPublication(publication, policy, debug).Ok?
              && var (section, count) := AuditPublication(publication, policy, debug).value;
                 exists faults :: ShowsPublication(section, policy, draft, id, faults) && count == |faults|
                                  && forall text :: text in faults <==> IsFault(policy, draft, id, names, debug, text)
  {
    hide PublicationDiscrepancies, PublicationJson, ShowsPublication, IsFault;
    if publication.Object? {
      var members := publication.members;
      assert "$schema" in members && members["$schema"].String? ==>
               Observes(publication, "$schema", members["$schema"].chars);
      assert "$schema" !in members ==> Observes(publication, "$schema", "");
      assert "$id" in members && members["$id"].String? ==> Observes(publication, "$id", members["$id"].chars);
      assert "$id" !in members ==> Observes(publication, "$id", "");
      assert "$defs" in members && members["$defs"].Object? ==>
               Defines(publication, members["$defs"].members.Keys);
      assert "$defs" !in members ==> Defines(publication, {});
    }
    forall draft, id, names | Observes(publication, "$schema", draft) && Observes(publication, "$id", id)
                              && Defines(publication, names)
      ensures var faults := PublicationDiscrepancies(draft, id, names, policy, debug);
              && AuditPublication(publication, policy, debug)
                 == Ok((PublicationJson(policy, draft, id, faults), |faults|))
              && ShowsPublication(PublicationJson(policy, draft, id, faults), policy, draft, id, faults)
              && forall text :: text in faults <==> IsFault(policy, draft, id, names, debug, text)
    {
      var faults := PublicationDiscrepancies(draft, id, names, policy, debug);
      var none: map<string, JsonValue> := map[];
      assert none.Keys == {};
      PublicationShown(policy, draft, id, faults);
      forall text
        ensures text in faults <==> IsFault(policy, draft, id, names, debug, text)
      {
        FaultsExactly(policy, draft, id, names, debug, text);
      }
    }
  }

  // The receipt

  lemma {:induction false} PairsAudited(doc: TypeSpec.Document, schema: JsonValue, pairs: seq<ModelPair>, show: Show)
    ensures AuditPairs(doc, schema, pairs, show).Ok? <==>
            forall i | 0 <= i < |pairs| :: Audited(doc, schema, pairs[i], show).Ok?
    ensures var r := AuditPairs(doc, schema, pairs, show);
            r.Ok? ==> |r.value| == |pairs|
                      && forall i | 0 <= i < |pairs| :: Audited(doc, schema, pairs[i], show) == Ok(r.value[i])
  {
    hide Audited;
    if pairs != [] {
      PairsAudited(doc, schema, pairs[1..], show);
      assert pairs == [pairs[0]] + pairs[1..];
    }
  }

  /** The first pair that cannot be audited ends the audit. */
  lemma {:induction false} FirstPairError(doc: TypeSpec.Document, schema: JsonValue, pairs: seq<ModelPair>, show: Show)
      returns (i: nat)
    requires AuditPairs(doc, schema, pairs, show).Err?
    ensures i < |pairs| && forall j | 0 <= j < i :: Audited(doc, schema, pairs[j], show).Ok?
    ensures Audited(doc, schema, pairs[i], show).Err?
    ensures AuditPairs(doc, schema, pairs, show) == Err(Audited(doc, schema, pairs[i], show).error)
  {
    hide Audited;
    if Audited(doc, schema, pairs[0], show).Err? {
      i := 0;
    } else {
      var k := FirstPairError(doc, schema, pairs[1..], show);
      i := k + 1;
    }
  }

  /** What the three sources are read as. */
  ghost predicate Reads(typespecSource: string, schemaSource: string, publicationSource: string,
                        doc: TypeSpec.Document, schema: JsonValue, publication: JsonValue) {
    && TypeSpec.Parsed(typespecSource) == Ok(doc)
    && ParsedJson(schemaSource) == Ok(schema) && ParsedJson(publicationSource) == Ok(publication)
  }

  predicate UsesDraft(schema: JsonValue) {
    schema.Object? && "$schema" in schema.members
    && schema.members["$schema"] == String("https://json-schema.org/draft/2020-12/schema")
  }

  /** The numbers of a summary, in decimal digits. */
  ghost predicate ShowsSummary(v: JsonValue, pairs: nat, operations: nat, inModels: nat, inOperations: nat,
                               inPublication: nat) {
    && v.Object?
    && v.members.Keys == {"checkedModelPairs", "checkedOperations", "modelDiscrepancies", "operationDiscrepancies",
                          "publicationDiscrepancies", "totalDiscrepancies"}
    && Denotes(v.members["checkedModelPairs"], pairs) && Denotes(v.members["checkedOperations"], operations)
    && Denotes(v.members["modelDiscrepancies"], inModels)
    && Denotes(v.members["operationDiscrepancies"], inOperations)
    && Denotes(v.members["publicationDiscrepancies"], inPublication)
    && Denotes(v.members["totalDiscrepancies"], inModels + inOperations + inPublication)
  }

  ghost predicate ShowsChecks(v: JsonValue, publicationPassed: bool) {
    && v.Object?
    && v.members.Keys == {"authorityJsonSchemaDraft", "publicationClassification", "typespecParse"}
    && v.members["authorityJsonSchemaDraft"] == String("PASS")
    && v.members["typespecParse"] == String("PASS")
    && v.members["publicationClassification"] == String(if publicationPassed then "PASS" else "STOPPED_FOR_EVALUATION")
  }

  ghost predicate ShowsModels(v: JsonValue, doc: TypeSpec.Document, schema: JsonValue, pairs: seq<ModelPair>,
                              show: Show) {
    && v.Array? && |v.items| == |pairs|
    && forall i | 0 <= i < |pairs| ::
         Audited(doc, schema, pairs[i], show).Ok?
         && ShowsModel(v.items[i], Audited(doc, schema, pairs[i], show).value)
  }

  ghost predicate ShowsOperations(v: JsonValue, source: string, required: seq<OperationRequirement>) {
    && v.Array? && |v.items| == |required|
    && forall i | 0 <= i < |required| :: ShowsOperation(v.items[i], required[i], Discrepancies(source, required[i]))
  }

  /** Every member of the receipt; `section` and `count` are the publication's. */
  ghost predicate ShowsAudit(receipt: JsonValue, source: string, doc: TypeSpec.Document, schema: JsonValue,
                             policy: ParityPolicy, debug: Debug, section: JsonValue, count: nat) {
    && receipt.Object?
    && receipt.members.Keys == {"checks", "format", "modelPairs", "operations", "publication", "status", "summary"}
    && receipt.members["format"] == String("fiducia.commercial-intake-parity-receipt.v1")
    && receipt.members["status"] == String(policy.expectedStatus)
    && ShowsModels(receipt.members["modelPairs"], doc, schema, policy.modelPairs, debug.ofSet)
    && ShowsOperations(receipt.members["operations"], source, policy.operations)
    && receipt.members["publication"] == section
    && ShowsChecks(receipt.members["checks"], count == 0)
    && ShowsSummary(receipt.members["summary"], |policy.modelPairs|, |policy.operations|,
                    ListedInModels(Items(receipt.members["modelPairs"])),
                    ListedInOperations(Items(receipt.members["operations"])), count)
  }

  lemma SummaryShown(pairs: nat, operations: nat, inModels: nat, inOperations: nat, inPublication: nat)
    ensures ShowsSummary(Summary(pairs, operations, inModels, inOperations, inPublication),
                         pairs, operations, inModels, inOperations, inPublication)
  {
    hide NumberOf, Denotes;
    NumberDenotes(pairs);
    NumberDenotes(operations);
    NumberDenotes(inModels);
    NumberDenotes(inOperations);
    NumberDenotes(inPublication);
    NumberDenotes(inModels + inOperations + inPublication);
  }

  lemma ReceiptShown(audits: seq<ModelAudit>, required: seq<OperationRequirement>, found: seq<set<string>>,
                     section: JsonValue, count: nat)
    requires |required| == |found|
    ensures var receipt := Receipt(audits, required, found, section, count);
            && receipt.Object?
            && receipt.members.Keys == {"checks", "format", "modelPairs", "operations", "publication", "status",
                                        "summary"}
            && receipt.members["format"] == String("fiducia.commercial-intake-parity-receipt.v1")
            && receipt.members["modelPairs"] == Array(ModelJsons(audits))
            && receipt.members["operations"] == Array(OperationJsons(required, found))
            && receipt.members["publication"] == section
            && ShowsChecks(receipt.members["checks"], count == 0)
            && ShowsSummary(receipt.members["summary"], |audits|, |found|, ModelTotal(audits), OperationTotal(found),
                            count)
            && receipt.members["status"]
               == String(if ModelTotal(audits) + OperationTotal(found) + count == 0 then "PASS"
                         else "STOPPED_FOR_EVALUATION")
  {
    hide ModelJsons, OperationJsons, ModelTotal, OperationTotal, ShowsSummary, Summary;
    SummaryShown(|audits|, |found|, ModelTotal(audits), OperationTotal(found), count);
  }

  lemma ModelsShown(audits: seq<ModelAudit>, doc: TypeSpec.Document, schema: JsonValue, pairs: seq<ModelPair>,
                    show: Show)
    requires AuditPairs(doc, schema, pairs, show) == Ok(audits)
    ensures |audits| == |pairs| && ShowsModels(Array(ModelJsons(audits)), doc, schema, pairs, show)
  {
    hide Audited, ShowsModel, ModelJson, AuditPairs;
    var v := Array(ModelJsons(audits));
    PairsAudited(doc, schema, pairs, show);
    forall i | 0 <= i < |pairs|
      ensures Audited(doc, schema, pairs[i], show) == Ok(audits[i]) && ShowsModel(v.items[i], audits[i])
    {
      ModelShown(audits[i]);
    }
  }

  lemma OperationsShown(found: seq<set<string>>, source: string, required: seq<OperationRequirement>)
    requires found == AuditOperations(source, required)
    ensures ShowsOperations(Array(OperationJsons(required, found)), source, required)
  {
    hide Discrepancies, ShowsOperation, OperationJson;
    forall i | 0 <= i < |required|
      ensures ShowsOperation(OperationJsons(required, found)[i], required[i], found[i])
    {
      OperationShown(required[i], found[i]);
    }
  }

  /** The receipt made of the three parts shows all that they found. */
  lemma PartsShown(source: string, doc: TypeSpec.Document, schema: JsonValue, policy: ParityPolicy, debug: Debug,
                   audits: seq<ModelAudit>, section: JsonValue, count: nat)
    requires AuditPairs(doc, schema, policy.modelPairs, debug.ofSet) == Ok(audits)
    requires var found := AuditOperations(source, policy.operations);
             Status(ModelTotal(audits) + OperationTotal(found) + count == 0) == policy.expectedStatus
    ensures ShowsAudit(Receipt(audits, policy.operations, AuditOperations(source, policy.operations), section, count),
                       source, doc, schema, policy, debug, section, count)
  {
    hide AuditPairs, AuditOperations, ModelTotal, OperationTotal, Receipt, ModelJsons, OperationJsons, ShowsModels,
        ShowsOperations, ShowsChecks, ShowsSummary, ListedInModels, ListedInOperations;
    var found := AuditOperations(source, policy.operations);
    ModelsShown(audits, doc, schema, policy.modelPairs, debug.ofSet);
    OperationsShown(found, source, policy.operations);
    ReceiptShown(audits, policy.operations, found, section, count);
    ModelsListed(audits);
    OperationsListed(policy.operations, found);
    var receipt := Receipt(audits, policy.operations, found, section, count);
    assert Items(receipt.members["modelPairs"]) == ModelJsons(audits);
    assert Items(receipt.members["operations"]) == OperationJsons(policy.operations, found);
  }

  /** Whatever `audit_contracts` returns shows all that it found, each thing in its place. */
  lemma ReceiptContents(typespecSource: string, schemaSource: string, publicationSource: string,
                        policy: ParityPolicy, debug: Debug)
      returns (doc: TypeSpec.Document, schema: JsonValue, publication: JsonValue, section: JsonValue, count: nat)
    requires AuditedContracts(typespecSource, schemaSource, publicationSource, policy, debug).Ok?
    ensures Reads(typespecSource, schemaSource, publicationSource, doc, schema, publication) && UsesDraft(schema)
    ensures AuditPublication(publication, policy.publication, debug) == Ok((section, count))
    ensures ShowsAudit(AuditedContracts(typespecSource, schemaSource, publicationSource, policy, debug).value,
                       typespecSource, doc, schema, policy, debug, section, count)
  {
    hide TypeSpec.Parsed, ParsedJson, AuditPublication, Receipt, AuditPairs, AuditOperations, ModelTotal,
        OperationTotal, ShowsAudit;
    doc, schema := TypeSpec.Parsed(typespecSource).value, ParsedJson(schemaSource).value;
    publication := ParsedJson(publicationSource).value;
    var audits := AuditPairs(doc, schema, policy.modelPairs, debug.ofSet).value;
    section := AuditPublication(publication, policy.publication, debug).value.0;
    count := AuditPublication(publication, policy.publication, debug).value.1;
    PartsShown(typespecSource, doc, schema, policy, debug, audits, section, count);
  }

  // When there is a receipt

  ghost predicate PairPasses(doc: TypeSpec.Document, schema: JsonValue, pair: ModelPair, show: Show) {
    exists a :: Audited(doc, schema, pair, show) == Ok(a) && a.Passes()
  }

  ghost predicate AllPairsPass(doc: TypeSpec.Document, schema: JsonValue, pairs: seq<ModelPair>, show: Show) {
    forall i | 0 <= i < |pairs| :: PairPasses(doc, schema, pairs[i], show)
  }

  ghost predicate AllOperationsPass(source: string, required: seq<OperationRequirement>) {
    forall i | 0 <= i < |required| :: Discrepancies(source, required[i]) == {}
  }

  /** Nothing is found in any of the three sections. */
  ghost predicate FindsNothing(source: string, doc: TypeSpec.Document, schema: JsonValue, publication: JsonValue,
                               policy: ParityPolicy, debug: Debug) {
    && AllPairsPass(doc, schema, policy.modelPairs, debug.ofSet)
    && AllOperationsPass(source, policy.operations)
    && exists section :: AuditPublication(publication, policy.publication, debug) == Ok((section, 0))
  }

  /** All sources can be read, the schema uses the draft, and no section fails. */
  ghost predicate Auditable(doc: TypeSpec.Document, schema: JsonValue, publication: JsonValue, policy: ParityPolicy,
                            debug: Debug) {
    && UsesDraft(schema)
    && (forall i | 0 <= i < |policy.modelPairs| :: Audited(doc, schema, policy.modelPairs[i], debug.ofSet).Ok?)
    && AuditPublication(publication, policy.publication, debug).Ok?
  }

  lemma PairsPass(doc: TypeSpec.Document, schema: JsonValue, pairs: seq<ModelPair>, show: Show)
    requires AuditPairs(doc, schema, pairs, show).Ok?
    ensures ModelTotal(AuditPairs(doc, schema, pairs, show).value) == 0 <==> AllPairsPass(doc, schema, pairs, show)
  {
    hide Audited, AuditPairs, ModelTotal, PairPasses, ModelAudit.Passes;
    PairsAudited(doc, schema, pairs, show);
    var audits := AuditPairs(doc, schema, pairs, show).value;
    ModelTotalZero(audits);
    forall i | 0 <= i < |pairs|
      ensures audits[i].Passes() <==> PairPasses(doc, schema, pairs[i], show)
    {
      PassesAlone(doc, schema, pairs[i], show, audits[i]);
    }
  }

  lemma PassesAlone(doc: TypeSpec.Document, schema: JsonValue, pair: ModelPair, show: Show, a: ModelAudit)
    requires Audited(doc, schema, pair, show) == Ok(a)
    ensures a.Passes() <==> PairPasses(doc, schema, pair, show)
  {
    hide Audited;
  }

  lemma OperationsPass(source: string, required: seq<OperationRequirement>)
    ensures OperationTotal(AuditOperations(source, required)) == 0 <==> AllOperationsPass(source, required)
  {
    hide OperationTotal, Discrepancies;
    OperationTotalZero(AuditOperations(source, required));
  }

  lemma NothingFound(source: string, doc: TypeSpec.Document, schema: JsonValue, publication: JsonValue,
                     policy: ParityPolicy, debug: Debug)
    requires Auditable(doc, schema, publication, policy, debug)
    ensures AuditPairs(doc, schema, policy.modelPairs, debug.ofSet).Ok?
    ensures FindsNothing(source, doc, schema, publication, policy, debug) <==>
            && ModelTotal(AuditPairs(doc, schema, policy.modelPairs, debug.ofSet).value) == 0
            && OperationTotal(AuditOperations(source, policy.operations)) == 0
            && AuditPublication(publication, policy.publication, debug).value.1 == 0
  {
    hide Audited, Discrepancies, AuditPublication, AuditPairs, AuditOperations, ModelTotal, OperationTotal,
        AllPairsPass, AllOperationsPass;
    PairsAudited(doc, schema, policy.modelPairs, debug.ofSet);
    PairsPass(doc, schema, policy.modelPairs, debug.ofSet);
    OperationsPass(source, policy.operations);
    var section, count := AuditPublication(publication, policy.publication, debug).value.0,
        AuditPublication(publication, policy.publication, debug).value.1;
    assert AuditPublication(publication, policy.publication, debug) == Ok((section, count));
  }

  lemma SourcesAudited(source: string, doc: TypeSpec.Document, schema: JsonValue, publication: JsonValue,
                       policy: ParityPolicy, debug: Debug)
    requires Auditable(doc, schema, publication, policy, debug)
    ensures AuditSources(source, doc, schema, publication, policy, debug).Ok? <==>
            policy.expectedStatus == if FindsNothing(source, doc, schema, publication, policy, debug)
                                     then "PASS" else "STOPPED_FOR_EVALUATION"
  {
    NothingFound(source, doc, schema, publication, policy, debug);
    hide FindsNothing, AuditPublication, Receipt, AuditPairs, AuditOperations, ModelTotal, OperationTotal;
    StatusesDiffer();
  }

  /** There is a receipt exactly when the sources can be audited and the outcome is the reviewed one. */
  lemma ReceiptExactly(typespecSource: string, schemaSource: string, publicationSource: string,
                       policy: ParityPolicy, debug: Debug)
    ensures AuditedContracts(typespecSource, schemaSource, publicationSource, policy, debug).Ok? <==>
            exists doc, schema, publication ::
              && Reads(typespecSource, schemaSource, publicationSource, doc, schema, publication)
              && Auditable(doc, schema, publication, policy, debug)
              && policy.expectedStatus == if FindsNothing(typespecSource, doc, schema, publication, policy, debug)
                                          then "PASS" else "STOPPED_FOR_EVALUATION"
  {
    hide TypeSpec.Parsed, ParsedJson, AuditPublication, Audited, AuditSources, FindsNothing;
    forall doc, schema, publication | Reads(typespecSource, schemaSource, publicationSource, doc, schema, publication)
      ensures UsesDraft(schema) ==>
                AuditedContracts(typespecSource, schemaSource, publicationSource, policy, debug)
                == AuditSources(typespecSource, doc, schema, publication, policy, debug)
      ensures !UsesDraft(schema) ==>
                AuditedContracts(typespecSource, schemaSource, publicationSource, policy, debug).Err?
      ensures AuditSources(typespecSource, doc, schema, publication, policy, debug).Ok? && UsesDraft(schema) ==>
                Auditable(doc, schema, publication, policy, debug)
      ensures Auditable(doc, schema, publication, policy, debug) ==>
                (AuditSources(typespecSource, doc, schema, publication, policy, debug).Ok? <==>
                 policy.expectedStatus == if FindsNothing(typespecSource, doc, schema, publication, policy, debug)
                                          then "PASS" else "STOPPED_FOR_EVALUATION")
    {
      if AuditSources(typespecSource, doc, schema, publication, policy, debug).Ok? {
        SourcesReadable(typespecSource, doc, schema, publication, policy, debug);
      }
      if Auditable(doc, schema, publication, policy, debug) {
        SourcesAudited(typespecSource, doc, schema, publication, policy, debug);
      }
    }
    if AuditedContracts(typespecSource, schemaSource, publicationSource, policy, debug).Ok? {
      assert Reads(typespecSource, schemaSource, publicationSource, TypeSpec.Parsed(typespecSource).value,
                   ParsedJson(schemaSource).value, ParsedJson(publicationSource).value);
    }
  }

  lemma SourcesReadable(source: string, doc: TypeSpec.Document, schema: JsonValue, publication: JsonValue,
                        policy: ParityPolicy, debug: Debug)
    requires AuditSources(source, doc, schema, publication, policy, debug).Ok?
    ensures AuditPublication(publication, policy.publication, debug).Ok?
    ensures forall i | 0 <= i < |policy.modelPairs| :: Audited(doc, schema, policy.modelPairs[i], debug.ofSet).Ok?
  {
    hide Audited, Discrepancies, AuditPublication, Receipt, AuditPairs, ModelTotal, OperationTotal;
    PairsAudited(doc, schema, policy.modelPairs, debug.ofSet);
  }

  /** What goes wrong first is what is reported, in the order of the source. */
  lemma FirstFailure(typespecSource: string, schemaSource: string, publicationSource: string,
                     policy: ParityPolicy, debug: Debug)
    ensures var r, doc := AuditedContracts(typespecSource, schemaSource, publicationSource, policy, debug),
                TypeSpec.Parsed(typespecSource);
            && (doc.Err? ==> r == Err(doc.error))
            && (doc.Ok? ==>
                  var schema := ParsedJson(schemaSource);
                  && (schema.Err? ==> r == Err(Json(schema.error)))
                  && (schema.Ok? ==>
                        var publication := ParsedJson(publicationSource);
                        && (publication.Err? ==> r == Err(Json(publication.error)))
                        && (publication.Ok? && !UsesDraft(schema.value) ==> r.Err? && r.error.Message?)))
  {
    hide TypeSpec.Parsed, ParsedJson, AuditSources;
  }
}

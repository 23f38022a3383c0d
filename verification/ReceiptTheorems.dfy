/** What a receipt says: it fails closed, it counts what it lists, and its text parses back to it. */
module ReceiptTheorems {
  import opened Prelude
  import opened Utf8
  import opened Decimal
  import opened JsonValues
  import opened JsonGrammar
  import opened JsonParser
  import opened ModelAudits
  import opened OperationAudits
  import opened Receipts
  import JsonPrinting
  import TypeSpec
  import RoundTrip = JsonRoundTrip

  // Reading a receipt

  function Member(v: JsonValue, key: string): JsonValue {
    if v.Object? && key in v.members then v.members[key] else Null
  }

  function Items(v: JsonValue): seq<JsonValue> {
    if v.Array? then v.items else []
  }

  /** The number of entries that a model section lists, in its five arrays. */
  function ListedInModel(section: JsonValue): nat {
    |Items(Member(section, "missingFromTypeSpec"))| + |Items(Member(section, "missingFromJsonSchema"))|
    + |Items(Member(section, "requirednessMismatches"))| + |Items(Member(section, "enumMismatches"))|
    + |Items(Member(section, "sourceMissing"))|
  }

  function ListedInOperation(section: JsonValue): nat {
    |Items(Member(section, "discrepancies"))|
  }

  function ListedInModels(sections: seq<JsonValue>): nat {
    if sections == [] then 0 else ListedInModel(sections[0]) + ListedInModels(sections[1..])
  }

  function ListedInOperations(sections: seq<JsonValue>): nat {
    if sections == [] then 0 else ListedInOperation(sections[0]) + ListedInOperations(sections[1..])
  }

  /** Every discrepancy that a receipt lists. */
  function Listed(receipt: JsonValue): nat {
    ListedInModels(Items(Member(receipt, "modelPairs"))) + ListedInOperations(Items(Member(receipt, "operations")))
    + ListedInOperation(Member(receipt, "publication"))
  }

  predicate Passed(section: JsonValue) {
    Member(section, "status") == String(PASS)
  }

  predicate AllPassed(receipt: JsonValue) {
    && (forall i | 0 <= i < |Items(Member(receipt, "modelPairs"))| :: Passed(Items(Member(receipt, "modelPairs"))[i]))
    && (forall i | 0 <= i < |Items(Member(receipt, "operations"))| :: Passed(Items(Member(receipt, "operations"))[i]))
    && Passed(Member(receipt, "publication"))
  }

  // The members of each section

  lemma ModelMembers(a: ModelAudit)
    ensures ListedInModel(ModelJson(a)) == a.DiscrepancyCount()
    ensures Member(ModelJson(a), "status") == String(Status(a.Passes()))
  {
    hide SortedStrings;
    var v := ModelJson(a);
    assert Member(v, "missingFromTypeSpec") == SortedStrings(a.missingFromTypeSpec);
    assert Member(v, "missingFromJsonSchema") == SortedStrings(a.missingFromJsonSchema);
    assert Member(v, "requirednessMismatches") == SortedStrings(a.requirednessMismatches);
    assert Member(v, "enumMismatches") == SortedStrings(a.enumMismatches);
    assert Member(v, "sourceMissing") == SortedStrings(a.sourceMissing);
  }

  lemma OperationMembers(required: OperationRequirement, found: set<string>)
    ensures ListedInOperation(OperationJson(required, found)) == |found|
    ensures Member(OperationJson(required, found), "status") == String(Status(found == {}))
  {
    hide SortedStrings;
    assert Member(OperationJson(required, found), "discrepancies") == SortedStrings(found);
  }

  lemma PublicationMembers(publication: JsonValue, policy: PublicationPolicy, debug: Debug)
    requires AuditPublication(publication, policy, debug).Ok?
    ensures var (section, count) := AuditPublication(publication, policy, debug).value;
            ListedInOperation(section) == count && Member(section, "status") == String(Status(count == 0))
            && RoundTrip.ValidNumbers(section)
  {
    hide SortedStrings, PublicationDiscrepancies;
    var (section, count) := AuditPublication(publication, policy, debug).value;
    forall draft, id, found | section == PublicationJson(policy, draft, id, found) && count == |found|
      ensures ListedInOperation(section) == count && Member(section, "status") == String(Status(count == 0))
      ensures RoundTrip.ValidNumbers(section)
    {
      PublicationSection(policy, draft, id, found);
    }
  }

  lemma PublicationSection(policy: PublicationPolicy, draft: string, id: string, found: set<string>)
    ensures var section := PublicationJson(policy, draft, id, found);
            ListedInOperation(section) == |found| && Member(section, "status") == String(Status(|found| == 0))
            && RoundTrip.ValidNumbers(section)
  {
    hide SortedStrings;
    StringsValid(found);
    assert Member(PublicationJson(policy, draft, id, found), "discrepancies") == SortedStrings(found);
  }

  lemma StringsValid(values: set<string>)
    ensures RoundTrip.ValidNumbers(SortedStrings(values))
  {
  }

  lemma ReceiptMembers(audits: seq<ModelAudit>, required: seq<OperationRequirement>, found: seq<set<string>>,
                       publication: JsonValue, count: nat)
    requires |required| == |found|
    ensures var receipt, total := Receipt(audits, required, found, publication, count),
        ModelTotal(audits) + OperationTotal(found) + count;
            && Member(receipt, "modelPairs") == Array(ModelJsons(audits))
            && Member(receipt, "operations") == Array(OperationJsons(required, found))
            && Member(receipt, "publication") == publication
            && Member(receipt, "status") == String(Status(total == 0))
            && Member(Member(receipt, "summary"), "totalDiscrepancies") == NumberOf(total)
  {
    hide ModelJsons, OperationJsons, NumberOf, ModelTotal, OperationTotal;
    var receipt := Receipt(audits, required, found, publication, count);
    assert Member(receipt, "summary") == Summary(|audits|, |found|, ModelTotal(audits), OperationTotal(found), count);
  }

  // Accounting

  lemma {:induction false} ModelsListed(audits: seq<ModelAudit>)
    ensures ListedInModels(ModelJsons(audits)) == ModelTotal(audits)
  {
    hide ModelJson, ListedInModel;
    if audits != [] {
      ModelMembers(audits[0]);
      ModelsListed(audits[1..]);
      assert ModelJsons(audits)[1..] == ModelJsons(audits[1..]);
    }
  }

  lemma {:induction false} OperationsListed(required: seq<OperationRequirement>, found: seq<set<string>>)
    requires |required| == |found|
    ensures ListedInOperations(OperationJsons(required, found)) == OperationTotal(found)
  {
    hide OperationJson, ListedInOperation;
    if found != [] {
      OperationMembers(required[0], found[0]);
      OperationsListed(required[1..], found[1..]);
      assert OperationJsons(required, found)[1..] == OperationJsons(required[1..], found[1..]);
    }
  }

  lemma {:induction false} ModelTotalZero(audits: seq<ModelAudit>)
    ensures ModelTotal(audits) == 0 <==> forall i | 0 <= i < |audits| :: audits[i].Passes()
  {
    if audits != [] {
      ModelTotalZero(audits[1..]);
      assert audits == [audits[0]] + audits[1..];
    }
  }

  lemma {:induction false} OperationTotalZero(found: seq<set<string>>)
    ensures OperationTotal(found) == 0 <==> forall i | 0 <= i < |found| :: found[i] == {}
  {
    if found != [] {
      OperationTotalZero(found[1..]);
      assert found == [found[0]] + found[1..];
    }
  }

  // Numbers

  function DigitBytes(s: string): (bs: seq<byte>)
    requires forall i | 0 <= i < |s| :: '0' <= s[i] <= '9'
    ensures AllDigits(bs) && |bs| == |s| && forall i | 0 <= i < |s| :: bs[i] as char == s[i]
  {
    seq(|s|, i requires 0 <= i < |s| => s[i] as int)
  }

  /** The number is spelled in decimal digits, and they spell `n`. */
  predicate Denotes(v: JsonValue, n: nat) {
    v.Number? && IsDecimal(v.text) && Value(v.text) == n
  }

  lemma NumberDenotes(n: nat)
    ensures Denotes(NumberOf(n), n)
  {
    ValueOfText(n);
  }

  lemma IntegerIsNumber(i: seq<byte>)
    requires IsInteger(i)
    ensures var n := NumberText(false, i, [], []); IsNumber(n) && NumberBytes(n) == i
  {
    assert [] + (i + ([] + [])) == i;
  }

  lemma NatTextIsNumber(n: nat)
    ensures RoundTrip.ValidNumbers(NumberOf(n))
  {
    hide NatText, IsNumber, NumberBytes;
    var text := NatText(n);
    var number := NumberText(false, DigitBytes(text), [], []);
    IntegerIsNumber(DigitBytes(text));
    NumberIsAscii(number);
    assert AsciiString(NumberBytes(number)) == text;
  }

  lemma SummaryValid(models: nat, operations: nat, modelCount: nat, operationCount: nat, publicationCount: nat)
    ensures RoundTrip.ValidNumbers(Summary(models, operations, modelCount, operationCount, publicationCount))
  {
    hide NumberOf;
    NatTextIsNumber(models);
    NatTextIsNumber(operations);
    NatTextIsNumber(modelCount);
    NatTextIsNumber(operationCount);
    NatTextIsNumber(publicationCount);
    NatTextIsNumber(modelCount + operationCount + publicationCount);
  }

  lemma SectionsValid(audits: seq<ModelAudit>, required: seq<OperationRequirement>, found: seq<set<string>>)
    requires |required| == |found|
    ensures RoundTrip.ValidNumbers(Array(ModelJsons(audits)))
        && RoundTrip.ValidNumbers(Array(OperationJsons(required, found)))
  {
    hide SortedStrings;
    forall i | 0 <= i < |audits|
      ensures RoundTrip.ValidNumbers(ModelJsons(audits)[i])
    {
      StringsValid(audits[i].missingFromTypeSpec);
      StringsValid(audits[i].missingFromJsonSchema);
      StringsValid(audits[i].requirednessMismatches);
      StringsValid(audits[i].enumMismatches);
      StringsValid(audits[i].sourceMissing);
    }
    forall i | 0 <= i < |found|
      ensures RoundTrip.ValidNumbers(OperationJsons(required, found)[i])
    {
      StringsValid(found[i]);
    }
  }

  lemma ReceiptValid(audits: seq<ModelAudit>, required: seq<OperationRequirement>, found: seq<set<string>>,
                     publication: JsonValue, count: nat)
    requires |required| == |found| && RoundTrip.ValidNumbers(publication)
    ensures RoundTrip.ValidNumbers(Receipt(audits, required, found, publication, count))
  {
    hide ModelJsons, OperationJsons, Summary, ModelTotal, OperationTotal, Status;
    SectionsValid(audits, required, found);
    SummaryValid(|audits|, |found|, ModelTotal(audits), OperationTotal(found), count);
    assert RoundTrip.ValidNumbers(Checks(count));
    var receipt := Receipt(audits, required, found, publication, count);
    forall key | key in receipt.members
      ensures RoundTrip.ValidNumbers(receipt.members[key])
    {
      assert key in {"checks", "format", "modelPairs", "operations", "publication", "status", "summary"};
    }
  }

  // Main results

  /** The sections that a successful audit puts into its receipt. */
  lemma ReceiptOf(typespecSource: string, schemaSource: string, publicationSource: string, policy: ParityPolicy,
      debug: Debug)
      returns (audits: seq<ModelAudit>, found: seq<set<string>>, publication: JsonValue, section: JsonValue, count: nat)
    requires AuditedContracts(typespecSource, schemaSource, publicationSource, policy, debug).Ok?
    ensures |found| == |policy.operations|
    ensures AuditPublication(publication, policy.publication, debug) == Ok((section, count))
    ensures AuditedContracts(typespecSource, schemaSource, publicationSource, policy, debug)
            == Ok(Receipt(audits, policy.operations, found, section, count))
    ensures Status(ModelTotal(audits) + OperationTotal(found) + count == 0) == policy.expectedStatus
  {
    hide TypeSpec.Parsed, ParsedSource, SchemaDraft, AuditPublication, Receipt, AuditPairs, AuditOperations,
        ModelTotal, OperationTotal;
    var doc, schema := TypeSpec.Parsed(typespecSource).value, ParsedSource(schemaSource).value;
    publication := ParsedSource(publicationSource).value;
    audits := AuditPairs(doc, schema, policy.modelPairs, debug.ofSet).value;
    found := AuditOperations(typespecSource, policy.operations);
    section := AuditPublication(publication, policy.publication, debug).value.0;
    count := AuditPublication(publication, policy.publication, debug).value.1;
  }

  lemma ReceiptAddsUp(audits: seq<ModelAudit>, required: seq<OperationRequirement>, found: seq<set<string>>,
      section: JsonValue, count: nat)
    requires |required| == |found|
    requires ListedInOperation(section) == count && Member(section, "status") == String(Status(count == 0))
    ensures var receipt, total := Receipt(audits, required, found, section, count),
        ModelTotal(audits) + OperationTotal(found) + count;
            && Member(receipt, "status") == String(Status(total == 0))
            && Listed(receipt) == total
            && (total == 0 <==> AllPassed(receipt))
            && Member(Member(receipt, "summary"), "totalDiscrepancies") == NumberOf(total)
  {
    hide Receipt, Member, ModelJsons, OperationJsons, ListedInOperation, ListedInModels, ListedInOperations, NumberOf,
        ModelTotal, OperationTotal;
    ReceiptMembers(audits, required, found, section, count);
    ModelsListed(audits);
    OperationsListed(required, found);
    SectionsPassed(audits, required, found);
    StatusesDiffer();
  }

  lemma StatusesDiffer()
    ensures PASS != STOPPED
  {
    assert |PASS| != |STOPPED|;
  }

  /**
   A receipt is only returned with the reviewed status; that status is PASS exactly when every
   section passed; the total is the number of entries listed; and the printed receipt parses back.
   */
  lemma ReceiptFailsClosedAndAddsUp(typespecSource: string, schemaSource: string, publicationSource: string,
                                    policy: ParityPolicy, debug: Debug)
    requires AuditedContracts(typespecSource, schemaSource, publicationSource, policy, debug).Ok?
    ensures var receipt := AuditedContracts(typespecSource, schemaSource, publicationSource, policy, debug).value;
            && Member(receipt, "status") == String(policy.expectedStatus)
            && (Passed(receipt) <==> AllPassed(receipt))
            && (Passed(receipt) <==> Listed(receipt) == 0)
            && Member(Member(receipt, "summary"), "totalDiscrepancies") == NumberOf(Listed(receipt))
            && Denotes(NumberOf(Listed(receipt)), Listed(receipt))
            && ParsedJson(JsonPrinting.RenderPretty(receipt)) == Ok(receipt)
  {
    hide Receipt, Member, Listed, AllPassed, AuditPublication, ListedInOperation, NumberOf, Denotes;
    hide AuditedContracts, ModelTotal, OperationTotal, ParsedJson, JsonPrinting.RenderPretty, RoundTrip.ValidNumbers,
        PASS, STOPPED;
    var audits, found, publication, section,
        count := ReceiptOf(typespecSource, schemaSource, publicationSource, policy, debug);
    PublicationMembers(publication, policy.publication, debug);
    ReceiptAddsUp(audits, policy.operations, found, section, count);
    StatusesDiffer();
    ReceiptValid(audits, policy.operations, found, section, count);
    RoundTrip.PrintThenParse(Receipt(audits, policy.operations, found, section, count));
    NumberDenotes(ModelTotal(audits) + OperationTotal(found) + count);
  }

  lemma SectionsPassed(audits: seq<ModelAudit>, required: seq<OperationRequirement>, found: seq<set<string>>)
    requires |required| == |found|
    ensures ModelTotal(audits) == 0 <==> forall i | 0 <= i < |ModelJsons(audits)| :: Passed(ModelJsons(audits)[i])
    ensures OperationTotal(found) == 0 <==> forall i | 0 <= i < |OperationJsons(required, found)| ::
        Passed(OperationJsons(required, found)[i])
  {
    hide Member, ModelJson, OperationJson;
    ModelTotalZero(audits);
    OperationTotalZero(found);
    StatusesDiffer();
    forall i | 0 <= i < |audits|
      ensures Passed(ModelJsons(audits)[i]) <==> audits[i].Passes()
    {
      ModelMembers(audits[i]);
    }
    forall i | 0 <= i < |found|
      ensures Passed(OperationJsons(required, found)[i]) <==> found[i] == {}
    {
      OperationMembers(required[i], found[i]);
    }
  }
}

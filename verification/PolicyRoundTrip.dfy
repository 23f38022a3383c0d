/** Exactly the valid policies can be written down and read back. */
module PolicyRoundTrip {
  import opened Prelude
  import opened JsonValues
  import opened JsonParser
  import opened SchemaFields
  import opened KeyOrder
  import opened ModelAudits
  import opened OperationAudits
  import opened Receipts
  import opened Policies
  import JsonPrinting
  import RoundTrip = JsonRoundTrip
  import opened ReceiptTheorems

  predicate ValidRequirement(required: OperationRequirement) {
    required.verb in METHODS && required.audience in AUDIENCES
  }

  predicate ValidPolicy(policy: ParityPolicy) {
    && policy.expectedStatus in {PASS, STOPPED}
    && policy.modelPairs != [] && PairsApart(policy.modelPairs)
    && policy.operations != [] && OperationsApart(policy.operations)
    && (forall i | 0 <= i < |policy.operations| :: ValidRequirement(policy.operations[i]))
    && policy.publication.classification == CLASSIFICATION
  }

  // Writing a policy

  function StringMapJson(entries: map<string, string>): JsonValue {
    Object(map key | key in entries :: String(entries[key]))
  }

  function PairJson(pair: ModelPair): JsonValue {
    Object(map[
      "typespecModel" := String(pair.typespecModel),
      "jsonSchemaDefinition" := String(pair.jsonSchemaDefinition),
      "fieldRenames" := StringMapJson(pair.fieldRenames),
      "allowTypeSpecOnly" := SortedStrings(pair.allowTypeSpecOnly),
      "allowJsonSchemaOnly" := SortedStrings(pair.allowJsonSchemaOnly),
      "allowRequirednessMismatch" := SortedStrings(pair.allowRequirednessMismatch)])
  }

  function OptionalMember(key: string, s: Option<string>): map<string, JsonValue> {
    if s.Some? then map[key := String(s.value)] else map[]
  }

  function RequirementJson(required: OperationRequirement): JsonValue {
    Object(map[
      "method" := String(required.verb),
      "audience" := String(required.audience),
      "route" := String(required.route),
      "operation" := String(required.operation),
      "headers" := SortedStrings(required.headers)]
      + OptionalMember("subroute", required.subroute) + OptionalMember("bodyModel", required.bodyModel))
  }

  function PublicationPolicyJson(publication: PublicationPolicy): JsonValue {
    Object(map[
      "classification" := String(publication.classification),
      "expectedId" := String(publication.expectedId),
      "forbiddenAuthorityId" := String(publication.forbiddenAuthorityId),
      "requiredDefinitions" := SortedStrings(publication.requiredDefinitions)])
  }

  function PairJsons(pairs: seq<ModelPair>): (vs: seq<JsonValue>)
    ensures |vs| == |pairs| && forall i | 0 <= i < |pairs| :: vs[i] == PairJson(pairs[i])
  {
    seq(|pairs|, i requires 0 <= i < |pairs| => PairJson(pairs[i]))
  }

  function RequirementJsons(operations: seq<OperationRequirement>): (vs: seq<JsonValue>)
    ensures |vs| == |operations| && forall i | 0 <= i < |operations| :: vs[i] == RequirementJson(operations[i])
  {
    seq(|operations|, i requires 0 <= i < |operations| => RequirementJson(operations[i]))
  }

  function PolicyJson(policy: ParityPolicy): JsonValue {
    Object(map[
      "format" := String(FORMAT),
      "expectedStatus" := String(policy.expectedStatus),
      "modelPairs" := Array(PairJsons(policy.modelPairs)),
      "operations" := Array(RequirementJsons(policy.operations)),
      "publication" := PublicationPolicyJson(policy.publication)])
  }

  // Reading it back

  lemma StringSetRead(values: set<string>, description: string)
    ensures StringSet(SortedStrings(values), description) == Ok(values)
  {
    hide Ascending;
    var items := SortedStrings(values).items;
    StringsFromExact(items, 0, {}, description);
    var found := set i | 0 <= i < |items| :: items[i].chars;
    assert {} + found == found;
    forall k
      ensures k in found <==> k in values
    {
      assert k in values <==> k in Elements(Sorted(values));
      if k in values {
        var i :| 0 <= i < |Sorted(values)| && Sorted(values)[i] == k;
        assert items[i].chars == k;
      }
    }
    assert found == values;
  }

  lemma {:induction false} StringMapFromRead(entries: map<string, string>, names: seq<string>, description: string,
      found: map<string, string>)
    requires forall name | name in names :: name in entries
    ensures StringMapFrom(StringMapJson(entries).members, names, description, found)
        == Ok(found + Picked(entries, names))
  {
    if names == [] {
      PickedNone(entries, found);
    } else {
      PickedStep(entries, names, found);
      StringMapFromRead(entries, names[1..], description, found[names[0] := entries[names[0]]]);
    }
  }

  lemma StringMapRead(members: map<string, JsonValue>, key: string, description: string, entries: map<string, string>)
    requires key in members && members[key] == StringMapJson(entries)
    ensures OptionalStringMap(members, key, description) == Ok(entries)
  {
    hide StringMapFrom, Ascending, Picked;
    assert StringMapJson(entries).members.Keys == entries.Keys;
    StringMapFromRead(entries, Sorted(entries.Keys), description + "." + key, map[]);
    PickedAll(entries);
    Unioned(entries);
  }

  lemma Unioned<T>(m: map<string, T>)
    ensures map[] + m == m
  {
  }

  lemma OptionalStringSetRead(members: map<string, JsonValue>, key: string, description: string, values: set<string>)
    requires key in members && members[key] == SortedStrings(values)
    ensures OptionalStringSet(members, key, description) == Ok(values)
  {
    hide StringSet, SortedStrings;
    StringSetRead(values, description + "." + key);
  }

  lemma RequiredStringRead(members: map<string, JsonValue>, key: string, description: string, s: string)
    requires key in members && members[key] == String(s)
    ensures RequiredString(members, key, description) == Ok(s)
  {
  }

  lemma OptionalStringRead(members: map<string, JsonValue>, key: string, description: string, s: Option<string>)
    requires s.Some? ==> key in members && members[key] == String(s.value)
    requires s.None? ==> key !in members
    ensures OptionalString(members, key, description) == Ok(s)
  {
  }

  lemma PairRead(pair: ModelPair, description: string)
    ensures PairOf(PairJson(pair), description) == Ok(pair)
  {
    hide StringSet, SortedStrings, OptionalStringMap, StringMapJson, OptionalStringSet, RequiredString;
    var members := PairJson(pair).members;
    StringMapRead(members, "fieldRenames", description, pair.fieldRenames);
    OptionalStringSetRead(members, "allowTypeSpecOnly", description, pair.allowTypeSpecOnly);
    OptionalStringSetRead(members, "allowJsonSchemaOnly", description, pair.allowJsonSchemaOnly);
    OptionalStringSetRead(members, "allowRequirednessMismatch", description, pair.allowRequirednessMismatch);
    RequiredStringRead(members, "typespecModel", description, pair.typespecModel);
    RequiredStringRead(members, "jsonSchemaDefinition", description, pair.jsonSchemaDefinition);
  }

  lemma LowerFixed(s: string)
    requires s in METHODS
    ensures Lower(s) == s
  {
  }

  lemma RequirementRead(required: OperationRequirement, description: string)
    requires ValidRequirement(required)
    ensures OperationOf(RequirementJson(required), description) == Ok(required)
  {
    hide StringSet, SortedStrings, Lower, OptionalString, OptionalStringSet, RequiredString;
    var members := RequirementJson(required).members;
    LowerFixed(required.verb);
    RequiredStringRead(members, "method", description, required.verb);
    RequiredStringRead(members, "audience", description, required.audience);
    RequiredStringRead(members, "route", description, required.route);
    RequiredStringRead(members, "operation", description, required.operation);
    OptionalStringRead(members, "subroute", description, required.subroute);
    OptionalStringRead(members, "bodyModel", description, required.bodyModel);
    OptionalStringSetRead(members, "headers", description, required.headers);
  }

  lemma {:induction false} PairsRead(pairs: seq<ModelPair>, index: nat)
    requires index <= |pairs|
    ensures PairsFrom(PairJsons(pairs), index) == Ok(pairs[index..])
    decreases |pairs| - index
  {
    hide PairOf, PairJson;
    if index == |pairs| {
      assert pairs[index..] == [];
    } else {
      PairRead(pairs[index], ItemLabel("modelPairs", index));
      PairsRead(pairs, index + 1);
      assert pairs[index..] == [pairs[index]] + pairs[index + 1..];
    }
  }

  lemma {:induction false} OperationsRead(operations: seq<OperationRequirement>, index: nat)
    requires index <= |operations|
    requires forall i | 0 <= i < |operations| :: ValidRequirement(operations[i])
    ensures OperationsFrom(RequirementJsons(operations), index) == Ok(operations[index..])
    decreases |operations| - index
  {
    hide OperationOf, RequirementJson, ValidRequirement;
    if index == |operations| {
      assert operations[index..] == [];
    } else {
      RequirementRead(operations[index], ItemLabel("operations", index));
      OperationsRead(operations, index + 1);
      assert operations[index..] == [operations[index]] + operations[index + 1..];
    }
  }

  lemma PublicationRead(root: map<string, JsonValue>, publication: PublicationPolicy)
    requires "publication" in root && root["publication"] == PublicationPolicyJson(publication)
    requires publication.classification == CLASSIFICATION
    ensures PublicationOf(root) == Ok(publication)
  {
    hide StringSet, SortedStrings;
    StringSetRead(publication.requiredDefinitions, PUBLICATION + ".requiredDefinitions");
  }

  lemma HeaderRead(policy: ParityPolicy, debug: Debug)
    requires policy.expectedStatus in {PASS, STOPPED}
    ensures Header(PolicyJson(policy).members, debug) == Ok(policy.expectedStatus)
  {
    hide PairJsons, RequirementJsons, PublicationPolicyJson;
  }

  lemma ListsRead(policy: ParityPolicy)
    requires policy.modelPairs != [] && policy.operations != []
    requires forall i | 0 <= i < |policy.operations| :: ValidRequirement(policy.operations[i])
    ensures PairsOf(PolicyJson(policy).members) == Ok(policy.modelPairs)
    ensures OperationsOf(PolicyJson(policy).members) == Ok(policy.operations)
  {
    hide PairsFrom, OperationsFrom, PairJsons, RequirementJsons, PublicationPolicyJson, ValidRequirement;
    PairsRead(policy.modelPairs, 0);
    OperationsRead(policy.operations, 0);
    assert policy.modelPairs[0..] == policy.modelPairs && policy.operations[0..] == policy.operations;
  }

  lemma WrittenIsRead(policy: ParityPolicy, debug: Debug)
    requires ValidPolicy(policy)
    ensures PolicyOf(PolicyJson(policy), debug) == Ok(policy)
  {
    hide PairsOf, OperationsOf, PublicationOf, Header, PairJsons, RequirementJsons, PublicationPolicyJson;
    hide PairsApart, OperationsApart, ValidRequirement;
    HeaderRead(policy, debug);
    ListsRead(policy);
    PublicationRead(PolicyJson(policy).members, policy.publication);
  }

  // What is read is valid

  lemma {:induction false} OperationsValid(items: seq<JsonValue>, index: nat)
    requires index <= |items| && OperationsFrom(items, index).Ok?
    ensures forall i | 0 <= i < |OperationsFrom(items, index).value| ::
        ValidRequirement(OperationsFrom(items, index).value[i])
    decreases |items| - index
  {
    hide ItemLabel, OptionalString, OptionalStringSet, RequiredString, Lower;
    if index < |items| {
      OperationsValid(items, index + 1);
    }
  }

  lemma PublicationValid(root: map<string, JsonValue>)
    requires PublicationOf(root).Ok?
    ensures PublicationOf(root).value.classification == CLASSIFICATION
  {
    hide StringSet;
  }

  lemma ReadIsValid(v: JsonValue, debug: Debug)
    requires PolicyOf(v, debug).Ok?
    ensures ValidPolicy(PolicyOf(v, debug).value)
  {
    hide PairsFrom, OperationsFrom, PublicationOf, RequiredString, ValidRequirement, PairsApart, OperationsApart,
        RequiredArray;
    var root := v.members;
    OperationsValid(RequiredArray(root, "operations").value, 0);
    PublicationValid(root);
  }

  lemma PairHasNoNumbers(pair: ModelPair)
    ensures RoundTrip.ValidNumbers(PairJson(pair))
  {
    hide SortedStrings;
    StringsValid(pair.allowTypeSpecOnly);
    StringsValid(pair.allowJsonSchemaOnly);
    StringsValid(pair.allowRequirednessMismatch);
    assert RoundTrip.ValidNumbers(StringMapJson(pair.fieldRenames));
  }

  lemma RequirementHasNoNumbers(required: OperationRequirement)
    ensures RoundTrip.ValidNumbers(RequirementJson(required))
  {
    hide SortedStrings;
    StringsValid(required.headers);
  }

  lemma PublicationHasNoNumbers(publication: PublicationPolicy)
    ensures RoundTrip.ValidNumbers(PublicationPolicyJson(publication))
  {
    hide SortedStrings;
    StringsValid(publication.requiredDefinitions);
  }

  lemma PolicyHasNoNumbers(policy: ParityPolicy)
    ensures RoundTrip.ValidNumbers(PolicyJson(policy))
  {
    hide SortedStrings, PairJson, RequirementJson, PublicationPolicyJson;
    forall i | 0 <= i < |policy.modelPairs|
      ensures RoundTrip.ValidNumbers(PairJsons(policy.modelPairs)[i])
    {
      PairHasNoNumbers(policy.modelPairs[i]);
    }
    forall i | 0 <= i < |policy.operations|
      ensures RoundTrip.ValidNumbers(RequirementJsons(policy.operations)[i])
    {
      RequirementHasNoNumbers(policy.operations[i]);
    }
    PublicationHasNoNumbers(policy.publication);
    assert RoundTrip.ValidNumbers(Array(PairJsons(policy.modelPairs)));
    assert RoundTrip.ValidNumbers(Array(RequirementJsons(policy.operations)));
  }

  /** From the text of a policy file back to the policy. */
  lemma PolicyFileIsRead(policy: ParityPolicy, debug: Debug)
    requires ValidPolicy(policy)
    ensures var file := ParsedJson(JsonPrinting.RenderPretty(PolicyJson(policy)));
            file.Ok? && PolicyOf(file.value, debug) == Ok(policy)
  {
    hide PolicyJson, PolicyOf, ParsedJson;
    PolicyHasNoNumbers(policy);
    RoundTrip.PrintThenParse(PolicyJson(policy));
    WrittenIsRead(policy, debug);
  }

  /** A policy is valid exactly when some JSON value is read as it; writing it down gives one. */
  lemma PoliciesReadExactlyWhenValid(policy: ParityPolicy, debug: Debug)
    ensures ValidPolicy(policy) <==> PolicyOf(PolicyJson(policy), debug) == Ok(policy)
    ensures ValidPolicy(policy) <==> exists v :: PolicyOf(v, debug) == Ok(policy)
  {
    hide PolicyJson, PolicyOf, ValidPolicy;
    if ValidPolicy(policy) {
      WrittenIsRead(policy, debug);
    }
    if v :| PolicyOf(v, debug) == Ok(policy) {
      ReadIsValid(v, debug);
    }
  }
}

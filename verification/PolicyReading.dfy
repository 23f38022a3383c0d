/** Which JSON values are read as a policy, as relations on the values (`parse_policy` in lib_part_02.rs). */
module PolicyReading {
  import opened Prelude
  import opened JsonValues
  import opened KeyOrder
  import opened SchemaFields
  import opened SchemaReading
  import opened ModelAudits
  import opened OperationAudits
  import opened Receipts
  import opened Policies
  import opened PolicyRoundTrip

  // Members

  predicate SpellsString(members: map<string, JsonValue>, key: string, s: string) {
    key in members && members[key] == String(s)
  }

  predicate SpellsOptional(members: map<string, JsonValue>, key: string, s: Option<string>) {
    if key in members then s.Some? && members[key] == String(s.value) else s.None?
  }

  /** An absent list is the empty set. */
  ghost predicate SpellsSet(members: map<string, JsonValue>, key: string, values: set<string>) {
    if key in members then SpellsStrings(members[key], values) else values == {}
  }

  /** An absent table is the empty map. */
  ghost predicate SpellsMap(members: map<string, JsonValue>, key: string, entries: map<string, string>) {
    if key in members then
      members[key].Object? && members[key].members.Keys == entries.Keys
      && forall k | k in entries :: members[key].members[k] == String(entries[k])
    else entries == map[]
  }

  /** The letters are those of `small`, each in either case. */
  predicate SameLetters(s: string, small: string) {
    |s| == |small| && forall i | 0 <= i < |s| :: s[i] == small[i]
                                              || ('A' <= s[i] <= 'Z' && s[i] as int + 32 == small[i] as int)
  }

  lemma RequiredStringExactly(members: map<string, JsonValue>, key: string, description: string, s: string)
    ensures RequiredString(members, key, description) == Ok(s) <==> SpellsString(members, key, s)
  {
  }

  lemma OptionalStringExactly(members: map<string, JsonValue>, key: string, description: string, s: Option<string>)
    ensures OptionalString(members, key, description) == Ok(s) <==> SpellsOptional(members, key, s)
  {
  }

  lemma OptionalStringSetExactly(members: map<string, JsonValue>, key: string, description: string,
                                 values: set<string>)
    ensures OptionalStringSet(members, key, description) == Ok(values) <==> SpellsSet(members, key, values)
  {
    hide StringSet, SpellsStrings;
    if key in members {
      StringSetExactly(members[key], description + "." + key, values);
    }
  }

  lemma {:induction false} StringMapFromExact(members: map<string, JsonValue>, names: seq<string>,
      description: string, found: map<string, string>)
    requires forall name | name in names :: name in members
    ensures StringMapFrom(members, names, description, found).Ok? <==>
            forall name | name in names :: members[name].String?
    ensures var r := StringMapFrom(members, names, description, found);
            r.Ok? ==>
              && r.value.Keys == found.Keys + Elements(names)
              && (forall name | name in names :: members[name] == String(r.value[name]))
              && (forall name | name in found && name !in names :: r.value[name] == found[name])
  {
    if names != [] {
      assert names == [names[0]] + names[1..];
      if members[names[0]].String? {
        StringMapFromExact(members, names[1..], description, found[names[0] := members[names[0]].chars]);
      }
    }
  }

  lemma StringMapFromAll(inner: map<string, JsonValue>, description: string, entries: map<string, string>)
    ensures StringMapFrom(inner, Sorted(inner.Keys), description, map[]) == Ok(entries) <==>
            inner.Keys == entries.Keys && forall k | k in entries :: inner[k] == String(entries[k])
  {
    hide StringMapFrom, Sorted;
    var names := Sorted(inner.Keys);
    assert Elements(names) == inner.Keys;
    StringMapFromExact(inner, names, description, map[]);
    var r := StringMapFrom(inner, names, description, map[]);
    if inner.Keys == entries.Keys && forall k | k in entries :: inner[k] == String(entries[k]) {
      assert forall k | k in inner :: k in names && inner[k] == String(r.value[k]);
      SameEntries(r.value, entries);
    }
  }

  lemma SameEntries(a: map<string, string>, b: map<string, string>)
    requires a.Keys == b.Keys && forall k | k in a :: a[k] == b[k]
    ensures a == b
  {
  }

  lemma OptionalStringMapExactly(members: map<string, JsonValue>, key: string, description: string,
                                 entries: map<string, string>)
    ensures OptionalStringMap(members, key, description) == Ok(entries) <==> SpellsMap(members, key, entries)
  {
    hide StringMapFrom, Sorted;
    if key in members && members[key].Object? {
      StringMapFromAll(members[key].members, description + "." + key, entries);
    }
  }

  lemma LowerExactly(s: string, small: string)
    requires small in METHODS
    ensures Lower(s) == small <==> SameLetters(s, small)
  {
    SmallLetters(small);
    if Lower(s) == small {
      assert forall i | 0 <= i < |s| :: Lower(s)[i] == small[i];
    }
  }

  lemma SmallLetters(small: string)
    requires small in METHODS
    ensures forall i | 0 <= i < |small| :: 'a' <= small[i] <= 'z'
  {
  }

  // Entries

  ghost predicate SpellsPair(v: JsonValue, pair: ModelPair) {
    && v.Object?
    && SpellsString(v.members, "typespecModel", pair.typespecModel)
    && SpellsString(v.members, "jsonSchemaDefinition", pair.jsonSchemaDefinition)
    && SpellsMap(v.members, "fieldRenames", pair.fieldRenames)
    && SpellsSet(v.members, "allowTypeSpecOnly", pair.allowTypeSpecOnly)
    && SpellsSet(v.members, "allowJsonSchemaOnly", pair.allowJsonSchemaOnly)
    && SpellsSet(v.members, "allowRequirednessMismatch", pair.allowRequirednessMismatch)
  }

  ghost predicate SpellsOperation(v: JsonValue, operation: OperationRequirement) {
    && v.Object?
    && operation.verb in {"get", "post", "put", "patch", "delete"}
    && (exists spelled :: SpellsString(v.members, "method", spelled) && SameLetters(spelled, operation.verb))
    && operation.audience in {"public", "admin"}
    && SpellsString(v.members, "audience", operation.audience)
    && SpellsString(v.members, "route", operation.route)
    && SpellsString(v.members, "operation", operation.operation)
    && SpellsOptional(v.members, "subroute", operation.subroute)
    && SpellsOptional(v.members, "bodyModel", operation.bodyModel)
    && SpellsSet(v.members, "headers", operation.headers)
  }

  lemma PairExactly(v: JsonValue, description: string, pair: ModelPair)
    ensures PairOf(v, description) == Ok(pair) <==> SpellsPair(v, pair)
  {
    hide RequiredString, OptionalStringMap, OptionalStringSet, SpellsString, SpellsMap, SpellsSet;
    if v.Object? {
      RequiredStringExactly(v.members, "typespecModel", description, pair.typespecModel);
      RequiredStringExactly(v.members, "jsonSchemaDefinition", description, pair.jsonSchemaDefinition);
      OptionalStringMapExactly(v.members, "fieldRenames", description, pair.fieldRenames);
      OptionalStringSetExactly(v.members, "allowTypeSpecOnly", description, pair.allowTypeSpecOnly);
      OptionalStringSetExactly(v.members, "allowJsonSchemaOnly", description, pair.allowJsonSchemaOnly);
      OptionalStringSetExactly(v.members, "allowRequirednessMismatch", description, pair.allowRequirednessMismatch);
    }
  }

  lemma OperationExactly(v: JsonValue, description: string, operation: OperationRequirement)
    ensures OperationOf(v, description) == Ok(operation) <==> SpellsOperation(v, operation)
  {
    hide RequiredString, OptionalString, OptionalStringSet, SpellsString, SpellsOptional, SpellsSet, Lower, SameLetters;
    if v.Object? {
      var spelled := RequiredString(v.members, "method", description);
      forall s
        ensures spelled == Ok(s) <==> SpellsString(v.members, "method", s)
      {
        RequiredStringExactly(v.members, "method", description, s);
      }
      if spelled.Ok? && operation.verb in METHODS {
        LowerExactly(spelled.value, operation.verb);
      }
      RequiredStringExactly(v.members, "audience", description, operation.audience);
      RequiredStringExactly(v.members, "route", description, operation.route);
      RequiredStringExactly(v.members, "operation", description, operation.operation);
      OptionalStringExactly(v.members, "subroute", description, operation.subroute);
      OptionalStringExactly(v.members, "bodyModel", description, operation.bodyModel);
      OptionalStringSetExactly(v.members, "headers", description, operation.headers);
    }
  }

  ghost predicate SpellsPublication(v: JsonValue, publication: PublicationPolicy) {
    && v.Object?
    && publication.classification == "distinct-lead-intake-contract"
    && SpellsString(v.members, "classification", publication.classification)
    && SpellsString(v.members, "expectedId", publication.expectedId)
    && SpellsString(v.members, "forbiddenAuthorityId", publication.forbiddenAuthorityId)
    && "requiredDefinitions" in v.members
    && SpellsStrings(v.members["requiredDefinitions"], publication.requiredDefinitions)
  }

  lemma PublicationExactly(root: map<string, JsonValue>, publication: PublicationPolicy)
    ensures PublicationOf(root) == Ok(publication) <==>
            "publication" in root && SpellsPublication(root["publication"], publication)
  {
    hide RequiredString, StringSet, SpellsString, SpellsStrings;
    if "publication" in root && root["publication"].Object? {
      var members := root["publication"].members;
      RequiredStringExactly(members, "classification", PUBLICATION, publication.classification);
      RequiredStringExactly(members, "expectedId", PUBLICATION, publication.expectedId);
      RequiredStringExactly(members, "forbiddenAuthorityId", PUBLICATION, publication.forbiddenAuthorityId);
      if "requiredDefinitions" in members {
        StringSetExactly(members["requiredDefinitions"], PUBLICATION + ".requiredDefinitions",
                         publication.requiredDefinitions);
      }
    }
  }

  // The policy

  lemma {:induction false} PairsFromEach(items: seq<JsonValue>, index: nat)
    requires index <= |items|
    ensures var r := PairsFrom(items, index);
            && (r.Ok? <==> forall i | index <= i < |items| :: PairOf(items[i], ItemLabel("modelPairs", i)).Ok?)
            && (r.Ok? ==> |r.value| == |items| - index
                          && forall i | index <= i < |items| ::
                               PairOf(items[i], ItemLabel("modelPairs", i)) == Ok(r.value[i - index]))
    decreases |items| - index
  {
    hide PairOf, ItemLabel;
    if index < |items| {
      PairsFromEach(items, index + 1);
    }
  }

  lemma {:induction false} OperationsFromEach(items: seq<JsonValue>, index: nat)
    requires index <= |items|
    ensures var r := OperationsFrom(items, index);
            && (r.Ok? <==> forall i | index <= i < |items| :: OperationOf(items[i], ItemLabel("operations", i)).Ok?)
            && (r.Ok? ==> |r.value| == |items| - index
                          && forall i | index <= i < |items| ::
                               OperationOf(items[i], ItemLabel("operations", i)) == Ok(r.value[i - index]))
    decreases |items| - index
  {
    hide OperationOf, ItemLabel;
    if index < |items| {
      OperationsFromEach(items, index + 1);
    }
  }

  ghost predicate SpellsPairs(v: JsonValue, pairs: seq<ModelPair>) {
    v.Array? && |v.items| == |pairs| && forall i | 0 <= i < |pairs| :: SpellsPair(v.items[i], pairs[i])
  }

  ghost predicate SpellsOperations(v: JsonValue, operations: seq<OperationRequirement>) {
    v.Array? && |v.items| == |operations|
    && forall i | 0 <= i < |operations| :: SpellsOperation(v.items[i], operations[i])
  }

  lemma PairsExactly(root: map<string, JsonValue>, pairs: seq<ModelPair>)
    ensures PairsOf(root) == Ok(pairs) <==>
            "modelPairs" in root && pairs != [] && SpellsPairs(root["modelPairs"], pairs)
  {
    hide PairOf, SpellsPair, PairsFrom, ItemLabel;
    if "modelPairs" in root && root["modelPairs"].Array? {
      var items := root["modelPairs"].items;
      PairsFromEach(items, 0);
      forall i: nat, pair | i < |items|
        ensures PairOf(items[i], ItemLabel("modelPairs", i)) == Ok(pair) <==> SpellsPair(items[i], pair)
      {
        PairExactly(items[i], ItemLabel("modelPairs", i), pair);
      }
      if |items| == |pairs| && forall i | 0 <= i < |pairs| :: SpellsPair(items[i], pairs[i]) {
        assert forall i | 0 <= i < |items| :: PairOf(items[i], ItemLabel("modelPairs", i)) == Ok(pairs[i]);
        assert PairsFrom(items, 0).value == pairs;
      }
    }
  }

  lemma OperationsExactly(root: map<string, JsonValue>, operations: seq<OperationRequirement>)
    ensures OperationsOf(root) == Ok(operations) <==>
            "operations" in root && operations != [] && SpellsOperations(root["operations"], operations)
  {
    hide OperationOf, SpellsOperation, OperationsFrom, ItemLabel;
    if "operations" in root && root["operations"].Array? {
      var items := root["operations"].items;
      OperationsFromEach(items, 0);
      forall i: nat, operation | i < |items|
        ensures OperationOf(items[i], ItemLabel("operations", i)) == Ok(operation)
                <==> SpellsOperation(items[i], operation)
      {
        OperationExactly(items[i], ItemLabel("operations", i), operation);
      }
      if |items| == |operations| && forall i | 0 <= i < |operations| :: SpellsOperation(items[i], operations[i]) {
        assert forall i | 0 <= i < |items| ::
                 OperationOf(items[i], ItemLabel("operations", i)) == Ok(operations[i]);
        assert OperationsFrom(items, 0).value == operations;
      }
    }
  }

  /** A JSON value spells a policy, members of other names notwithstanding. */
  ghost predicate SpellsPolicy(v: JsonValue, policy: ParityPolicy) {
    && v.Object?
    && SpellsString(v.members, "format", "fiducia.commercial-intake-parity-policy.v1")
    && SpellsString(v.members, "expectedStatus", policy.expectedStatus)
    && policy.expectedStatus in {"PASS", "STOPPED_FOR_EVALUATION"}
    && "modelPairs" in v.members && policy.modelPairs != [] && SpellsPairs(v.members["modelPairs"], policy.modelPairs)
    && "operations" in v.members && policy.operations != []
    && SpellsOperations(v.members["operations"], policy.operations)
    && "publication" in v.members && SpellsPublication(v.members["publication"], policy.publication)
    && (forall i, j | 0 <= i < j < |policy.modelPairs| ::
          policy.modelPairs[i].typespecModel != policy.modelPairs[j].typespecModel
          || policy.modelPairs[i].jsonSchemaDefinition != policy.modelPairs[j].jsonSchemaDefinition)
    && (forall i, j | 0 <= i < j < |policy.operations| ::
          policy.operations[i].route != policy.operations[j].route
          || policy.operations[i].subroute != policy.operations[j].subroute
          || policy.operations[i].verb != policy.operations[j].verb
          || policy.operations[i].operation != policy.operations[j].operation)
  }

  lemma HeaderExactly(root: map<string, JsonValue>, debug: Debug, status: string)
    ensures Header(root, debug) == Ok(status) <==>
            SpellsString(root, "format", "fiducia.commercial-intake-parity-policy.v1")
            && SpellsString(root, "expectedStatus", status) && status in {"PASS", "STOPPED_FOR_EVALUATION"}
  {
  }

  /** A value is read as a policy exactly when it spells that policy. */
  lemma PolicyExactly(v: JsonValue, policy: ParityPolicy, debug: Debug)
    ensures PolicyOf(v, debug) == Ok(policy) <==> SpellsPolicy(v, policy)
  {
    hide Header, PairsOf, OperationsOf, PublicationOf, SpellsString, SpellsPairs, SpellsOperations, SpellsPublication;
    if v.Object? {
      HeaderExactly(v.members, debug, policy.expectedStatus);
      PairsExactly(v.members, policy.modelPairs);
      OperationsExactly(v.members, policy.operations);
      PublicationExactly(v.members, policy.publication);
    }
  }

  // Leaving out what is empty

  /** A pair without the members `left`, each of which would be empty. */
  function PairWithout(pair: ModelPair, left: set<string>): JsonValue {
    Object(PairJson(pair).members - left)
  }

  predicate EmptyInPair(pair: ModelPair, left: set<string>) {
    && left <= {"fieldRenames", "allowTypeSpecOnly", "allowJsonSchemaOnly", "allowRequirednessMismatch"}
    && ("fieldRenames" in left ==> pair.fieldRenames == map[])
    && ("allowTypeSpecOnly" in left ==> pair.allowTypeSpecOnly == {})
    && ("allowJsonSchemaOnly" in left ==> pair.allowJsonSchemaOnly == {})
    && ("allowRequirednessMismatch" in left ==> pair.allowRequirednessMismatch == {})
  }

  /** An operation with the method spelled in any case, and without an empty list of headers if that is left out. */
  function OperationWithout(operation: OperationRequirement, spelled: string, leaveHeaders: bool): JsonValue {
    Object(RequirementJson(operation).members["method" := String(spelled)] - (if leaveHeaders then {"headers"} else {}))
  }

  lemma SetSpelled(values: set<string>)
    ensures SpellsStrings(SortedStrings(values), values)
  {
    hide StringSet, SpellsStrings;
    StringSetRead(values, "");
    StringSetExactly(SortedStrings(values), "", values);
  }

  lemma PairWithoutSpelled(pair: ModelPair, left: set<string>)
    requires EmptyInPair(pair, left)
    ensures SpellsPair(PairWithout(pair, left), pair)
  {
    hide SortedStrings, SpellsStrings;
    SetSpelled(pair.allowTypeSpecOnly);
    SetSpelled(pair.allowJsonSchemaOnly);
    SetSpelled(pair.allowRequirednessMismatch);
    assert StringMapJson(pair.fieldRenames).members.Keys == pair.fieldRenames.Keys;
  }

  lemma OperationMembers(operation: OperationRequirement, spelled: string, leaveHeaders: bool)
    ensures var v := OperationWithout(operation, spelled, leaveHeaders);
            && v.Object? && SpellsString(v.members, "method", spelled)
            && SpellsString(v.members, "audience", operation.audience)
            && SpellsString(v.members, "route", operation.route)
            && SpellsString(v.members, "operation", operation.operation)
            && SpellsOptional(v.members, "subroute", operation.subroute)
            && SpellsOptional(v.members, "bodyModel", operation.bodyModel)
            && (if leaveHeaders then "headers" !in v.members
                else "headers" in v.members && v.members["headers"] == SortedStrings(operation.headers))
  {
    hide SortedStrings;
  }

  lemma OperationWithoutSpelled(operation: OperationRequirement, spelled: string, leaveHeaders: bool)
    requires ValidRequirement(operation) && SameLetters(spelled, operation.verb)
    requires leaveHeaders ==> operation.headers == {}
    ensures SpellsOperation(OperationWithout(operation, spelled, leaveHeaders), operation)
  {
    hide SortedStrings, SpellsStrings, SameLetters, OperationWithout;
    SetSpelled(operation.headers);
    OperationMembers(operation, spelled, leaveHeaders);
    var members := OperationWithout(operation, spelled, leaveHeaders).members;
    assert SpellsString(members, "method", spelled);
  }

  /** Whatever empty members are left out and however the methods are capitalised, the same policy is read. */
  lemma OmissionsRead(policy: ParityPolicy, left: seq<set<string>>, spelled: seq<string>, leaveHeaders: seq<bool>,
                      debug: Debug)
    requires ValidPolicy(policy)
    requires |left| == |policy.modelPairs|
    requires forall i | 0 <= i < |left| :: EmptyInPair(policy.modelPairs[i], left[i])
    requires |spelled| == |leaveHeaders| == |policy.operations|
    requires forall i | 0 <= i < |spelled| ::
               SameLetters(spelled[i], policy.operations[i].verb)
               && (leaveHeaders[i] ==> policy.operations[i].headers == {})
    ensures var pairs := seq(|left|, i requires 0 <= i < |left| => PairWithout(policy.modelPairs[i], left[i]));
            var operations := seq(|spelled|, i requires 0 <= i < |spelled| =>
                                    OperationWithout(policy.operations[i], spelled[i], leaveHeaders[i]));
            var members := PolicyJson(policy).members["modelPairs" := Array(pairs)]["operations" := Array(operations)];
            PolicyOf(Object(members), debug) == Ok(policy)
  {
    hide PairWithout, OperationWithout, SpellsPair, SpellsOperation, SpellsPublication, PolicyOf, PublicationPolicyJson,
        PairJsons, RequirementJsons, EmptyInPair, SameLetters, ValidRequirement;
    var pairs := seq(|left|, i requires 0 <= i < |left| => PairWithout(policy.modelPairs[i], left[i]));
    var operations := seq(|spelled|, i requires 0 <= i < |spelled| =>
                            OperationWithout(policy.operations[i], spelled[i], leaveHeaders[i]));
    var v := Object(PolicyJson(policy).members["modelPairs" := Array(pairs)]["operations" := Array(operations)]);
    forall i | 0 <= i < |left|
      ensures SpellsPair(pairs[i], policy.modelPairs[i])
    {
      PairWithoutSpelled(policy.modelPairs[i], left[i]);
    }
    forall i | 0 <= i < |spelled|
      ensures SpellsOperation(operations[i], policy.operations[i])
    {
      OperationWithoutSpelled(policy.operations[i], spelled[i], leaveHeaders[i]);
    }
    PublicationSpelled(policy.publication);
    assert SpellsPairs(v.members["modelPairs"], policy.modelPairs);
    assert SpellsOperations(v.members["operations"], policy.operations);
    PolicyExactly(v, policy, debug);
  }

  lemma PublicationSpelled(publication: PublicationPolicy)
    requires publication.classification == CLASSIFICATION
    ensures SpellsPublication(PublicationPolicyJson(publication), publication)
  {
    hide SortedStrings, SpellsStrings;
    SetSpelled(publication.requiredDefinitions);
  }
}

/** The reviewed policy that an audit runs under (`parse_policy` and its helpers in lib_part_02.rs). */
module Policies {
  import opened Prelude
  import opened Decimal
  import opened JsonValues
  import opened JsonPointer
  import opened SchemaFields
  import opened KeyOrder
  import opened ModelAudits
  import opened OperationAudits
  import opened Receipts
  import TypeSpecNames

  const FORMAT := "fiducia.commercial-intake-parity-policy.v1"
  const CLASSIFICATION := "distinct-lead-intake-contract"
  const POLICY := "parity policy"

  const METHODS := {"get", "post", "put", "patch", "delete"}
  const AUDIENCES := {"public", "admin"}

  // The helpers

  function RequiredString(members: map<string, JsonValue>, key: string, description: string): Result<string, string> {
    match Required(members, key, description)
    case Err(error) => Err(error)
    case Ok(v) => AsString(v, description + "." + key)
  }

  function OptionalString(members: map<string, JsonValue>, key: string,
      description: string): Result<Option<string>, string>
  {
    if key !in members then Ok(None)
    else
      match AsString(members[key], description + "." + key)
      case Err(error) => Err(error)
      case Ok(s) => Ok(Some(s))
  }

  function OptionalStringSet(members: map<string, JsonValue>, key: string,
      description: string): Result<set<string>, string>
  {
    if key in members then StringSet(members[key], description + "." + key) else Ok({})
  }

  function StringMapFrom(members: map<string, JsonValue>, names: seq<string>, description: string,
      found: map<string, string>)
      : Result<map<string, string>, string>
    requires forall name | name in names :: name in members
  {
    if names == [] then Ok(found)
    else
      match AsString(members[names[0]], description + "." + names[0])
      case Err(error) => Err(error)
      case Ok(s) => StringMapFrom(members, names[1..], description, found[names[0] := s])
  }

  function OptionalStringMap(members: map<string, JsonValue>, key: string,
      description: string): Result<map<string, string>, string>
  {
    if key !in members then Ok(map[])
    else
      match AsObject(members[key], description + "." + key)
      case Err(error) => Err(error)
      case Ok(entries) => StringMapFrom(entries, Sorted(entries.Keys), description + "." + key, map[])
  }

  /** `to_ascii_lowercase` */
  function Lower(s: string): (r: string)
    ensures |r| == |s|
  {
    seq(|s|, i requires 0 <= i < |s| => if TypeSpecNames.IsCapital(s[i]) then TypeSpecNames.ToSmall(s[i]) else s[i])
  }

  // The parts of a policy

  function PairOf(v: JsonValue, description: string): Result<ModelPair, string> {
    match AsObject(v, description)
    case Err(error) => Err(error)
    case Ok(members) =>
      match RequiredString(members, "typespecModel", description)
      case Err(error) => Err(error)
      case Ok(model) =>
        match RequiredString(members, "jsonSchemaDefinition", description)
        case Err(error) => Err(error)
        case Ok(definition) =>
          match OptionalStringMap(members, "fieldRenames", description)
          case Err(error) => Err(error)
          case Ok(renames) => PairWith(members, description, ModelPair(model, definition, renames, {}, {}, {}))
  }

  function PairWith(members: map<string, JsonValue>, description: string, pair: ModelPair): Result<ModelPair, string> {
    match OptionalStringSet(members, "allowTypeSpecOnly", description)
    case Err(error) => Err(error)
    case Ok(typeSpecOnly) =>
      match OptionalStringSet(members, "allowJsonSchemaOnly", description)
      case Err(error) => Err(error)
      case Ok(schemaOnly) =>
        match OptionalStringSet(members, "allowRequirednessMismatch", description)
        case Err(error) => Err(error)
        case Ok(mismatch) =>
          Ok(pair.(allowTypeSpecOnly := typeSpecOnly, allowJsonSchemaOnly := schemaOnly,
              allowRequirednessMismatch := mismatch))
  }

  function OperationOf(v: JsonValue, description: string): Result<OperationRequirement, string> {
    match AsObject(v, description)
    case Err(error) => Err(error)
    case Ok(members) =>
      match RequiredString(members, "method", description)
      case Err(error) => Err(error)
      case Ok(spelled) =>
        if Lower(spelled) !in METHODS then Err(description + ".method is unsupported")
        else
          match RequiredString(members, "audience", description)
          case Err(error) => Err(error)
          case Ok(audience) =>
            if audience !in AUDIENCES then Err(description + ".audience must be public or admin")
            else OperationWith(members, description, Lower(spelled), audience)
  }

  function OperationWith(members: map<string, JsonValue>, description: string, verb: string, audience: string)
      : Result<OperationRequirement, string>
  {
    match RequiredString(members, "route", description)
    case Err(error) => Err(error)
    case Ok(route) =>
      match OptionalString(members, "subroute", description)
      case Err(error) => Err(error)
      case Ok(subroute) =>
        match RequiredString(members, "operation", description)
        case Err(error) => Err(error)
        case Ok(operation) =>
          match OptionalStringSet(members, "headers", description)
          case Err(error) => Err(error)
          case Ok(headers) =>
            match OptionalString(members, "bodyModel", description)
            case Err(error) => Err(error)
            case Ok(body) => Ok(OperationRequirement(route, subroute, verb, operation, headers, body, audience))
  }

  function ItemLabel(list: string, index: nat): string {
    POLICY + "." + list + "[" + NatText(index) + "]"
  }

  function PairsFrom(items: seq<JsonValue>, index: nat): Result<seq<ModelPair>, string>
    requires index <= |items|
    decreases |items| - index
  {
    if index == |items| then Ok([])
    else
      match PairOf(items[index], ItemLabel("modelPairs", index))
      case Err(error) => Err(error)
      case Ok(pair) =>
        match PairsFrom(items, index + 1)
        case Err(error) => Err(error)
        case Ok(others) => Ok([pair] + others)
  }

  function OperationsFrom(items: seq<JsonValue>, index: nat): Result<seq<OperationRequirement>, string>
    requires index <= |items|
    decreases |items| - index
  {
    if index == |items| then Ok([])
    else
      match OperationOf(items[index], ItemLabel("operations", index))
      case Err(error) => Err(error)
      case Ok(operation) =>
        match OperationsFrom(items, index + 1)
        case Err(error) => Err(error)
        case Ok(others) => Ok([operation] + others)
  }

  function RequiredArray(root: map<string, JsonValue>, key: string): Result<seq<JsonValue>, string> {
    match Required(root, key, POLICY)
    case Err(error) => Err(error)
    case Ok(v) => AsArray(v, POLICY + "." + key)
  }

  function PairsOf(root: map<string, JsonValue>): Result<seq<ModelPair>, string> {
    match RequiredArray(root, "modelPairs")
    case Err(error) => Err(error)
    case Ok(items) =>
      match PairsFrom(items, 0)
      case Err(error) => Err(error)
      case Ok(pairs) => if pairs == [] then Err("parity policy must include modelPairs") else Ok(pairs)
  }

  function OperationsOf(root: map<string, JsonValue>): Result<seq<OperationRequirement>, string> {
    match RequiredArray(root, "operations")
    case Err(error) => Err(error)
    case Ok(items) =>
      match OperationsFrom(items, 0)
      case Err(error) => Err(error)
      case Ok(operations) => if operations == [] then Err("parity policy must include operations") else Ok(operations)
  }

  const PUBLICATION := "parity policy.publication"

  function PublicationOf(root: map<string, JsonValue>): Result<PublicationPolicy, string> {
    match Required(root, "publication", POLICY)
    case Err(error) => Err(error)
    case Ok(v) =>
      match AsObject(v, PUBLICATION)
      case Err(error) => Err(error)
      case Ok(members) =>
        match RequiredString(members, "classification", PUBLICATION)
        case Err(error) => Err(error)
        case Ok(classification) =>
          match RequiredString(members, "expectedId", PUBLICATION)
          case Err(error) => Err(error)
          case Ok(expectedId) =>
            match RequiredString(members, "forbiddenAuthorityId", PUBLICATION)
            case Err(error) => Err(error)
            case Ok(forbiddenId) =>
              match Required(members, "requiredDefinitions", PUBLICATION)
              case Err(error) => Err(error)
              case Ok(names) =>
                match StringSet(names, PUBLICATION + ".requiredDefinitions")
                case Err(error) => Err(error)
                case Ok(definitions) =>
                  if classification != CLASSIFICATION then
                    Err("parity policy publication.classification must be distinct-lead-intake-contract")
                  else Ok(PublicationPolicy(classification, expectedId, forbiddenId, definitions))
  }

  // Repeated entries

  type PairName = (string, string)
  type OperationName = (string, Option<string>, string, string)

  function NameOfPair(pair: ModelPair): PairName {
    (pair.typespecModel, pair.jsonSchemaDefinition)
  }

  function NameOfOperation(operation: OperationRequirement): OperationName {
    (operation.route, operation.subroute, operation.verb, operation.operation)
  }

  predicate PairsApart(pairs: seq<ModelPair>) {
    forall i, j | 0 <= i < j < |pairs| :: NameOfPair(pairs[i]) != NameOfPair(pairs[j])
  }

  predicate OperationsApart(operations: seq<OperationRequirement>) {
    forall i, j | 0 <= i < j < |operations| :: NameOfOperation(operations[i]) != NameOfOperation(operations[j])
  }

  /** The first loop at the end of `parse_policy`. */
  method PairsRepeat(pairs: seq<ModelPair>) returns (repeat: bool)
    ensures repeat <==> !PairsApart(pairs)
  {
    var names: set<PairName> := {};
    for index := 0 to |pairs|
      invariant PairsApart(pairs[..index])
      invariant forall name :: name in names <==> exists i | 0 <= i < index :: NameOfPair(pairs[i]) == name
    {
      var name := NameOfPair(pairs[index]);
      if name in names {
        return true;
      }
      names := names + {name};
    }
    assert pairs[..|pairs|] == pairs;
    repeat := false;
  }

  /** The second loop. */
  method OperationsRepeat(operations: seq<OperationRequirement>) returns (repeat: bool)
    ensures repeat <==> !OperationsApart(operations)
  {
    var names: set<OperationName> := {};
    for index := 0 to |operations|
      invariant OperationsApart(operations[..index])
      invariant forall name :: name in names <==> exists i | 0 <= i < index :: NameOfOperation(operations[i]) == name
    {
      var name := NameOfOperation(operations[index]);
      if name in names {
        return true;
      }
      names := names + {name};
    }
    assert operations[..|operations|] == operations;
    repeat := false;
  }

  // The policy

  function Header(root: map<string, JsonValue>, debug: Debug): Result<string, string> {
    match RequiredString(root, "format", POLICY)
    case Err(error) => Err(error)
    case Ok(format) =>
      if format != FORMAT then Err("unexpected parity policy format " + debug.ofString(format))
      else
        match RequiredString(root, "expectedStatus", POLICY)
        case Err(error) => Err(error)
        case Ok(status) =>
          if status != PASS && status != STOPPED
              then Err("parity policy expectedStatus must be PASS or STOPPED_FOR_EVALUATION")
          else Ok(status)
  }

  /** What `parse_policy` returns; the format, always `FORMAT`, is left out of the policy. */
  function PolicyOf(v: JsonValue, debug: Debug): Result<ParityPolicy, string> {
    match AsObject(v, POLICY)
    case Err(error) => Err(error)
    case Ok(root) =>
      match Header(root, debug)
      case Err(error) => Err(error)
      case Ok(status) =>
        match PairsOf(root)
        case Err(error) => Err(error)
        case Ok(pairs) =>
          match OperationsOf(root)
          case Err(error) => Err(error)
          case Ok(operations) =>
            match PublicationOf(root)
            case Err(error) => Err(error)
            case Ok(publication) =>
              if !PairsApart(pairs) then Err("duplicate model pair in parity policy")
              else if !OperationsApart(operations) then Err("duplicate operation requirement in parity policy")
              else Ok(ParityPolicy(status, pairs, operations, publication))
  }

  method ParsePolicy(v: JsonValue, debug: Debug) returns (r: Result<ParityPolicy, string>)
    ensures r == PolicyOf(v, debug)
  {
    hide Header, PairsOf, OperationsOf, PublicationOf, PairsApart, OperationsApart;
    var root := AsObject(v, POLICY);
    if root.Err? {
      return Err(root.error);
    }
    var status := Header(root.value, debug);
    if status.Err? {
      return Err(status.error);
    }
    var pairs := PairsOf(root.value);
    if pairs.Err? {
      return Err(pairs.error);
    }
    var operations := OperationsOf(root.value);
    if operations.Err? {
      return Err(operations.error);
    }
    var publication := PublicationOf(root.value);
    if publication.Err? {
      return Err(publication.error);
    }
    var repeat := PairsRepeat(pairs.value);
    if repeat {
      return Err("duplicate model pair in parity policy");
    }
    repeat := OperationsRepeat(operations.value);
    if repeat {
      return Err("duplicate operation requirement in parity policy");
    }
    r := Ok(ParityPolicy(status.value, pairs.value, operations.value, publication.value));
  }
}

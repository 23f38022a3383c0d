/** The fields of a schema definition (lib_part_03.rs from `resolve_schema` on and lib_part_04.rs). */
module SchemaFields {
  import opened Prelude
  import opened Decimal
  import opened JsonValues
  import opened JsonPointer
  import opened KeyOrder

  datatype SchemaField = SchemaField(required: bool, enumValues: set<string>)

  function StringsFrom(items: seq<JsonValue>, index: nat, found: set<string>,
      description: string): Result<set<string>, string>
    requires index <= |items|
    decreases |items| - index
  {
    if index == |items| then Ok(found)
    else
      match AsString(items[index], description + "[" + NatText(index) + "]")
      case Err(error) => Err(error)
      case Ok(s) => StringsFrom(items, index + 1, found + {s}, description)
  }

  /** `string_set` */
  function StringSet(v: JsonValue, description: string): Result<set<string>, string> {
    match AsArray(v, description)
    case Err(error) => Err(error)
    case Ok(items) => StringsFrom(items, 0, {}, description)
  }

  /** `resolve_schema` */
  function ResolveSchema(root: JsonValue, v: JsonValue): Result<JsonValue, string> {
    match AsObject(v, "JSON Schema node")
    case Err(error) => Err(error)
    case Ok(members) =>
      if "$ref" in members then
        match AsString(members["$ref"], "JSON Schema $ref")
        case Err(error) => Err(error)
        case Ok(reference) => Resolve(root, reference)
      else Ok(v)
  }

  /** `json_enum_values` */
  function EnumValues(root: JsonValue, v: JsonValue): Result<set<string>, string> {
    match ResolveSchema(root, v)
    case Err(error) => Err(error)
    case Ok(resolved) =>
      match AsObject(resolved, "JSON Schema property")
      case Err(error) => Err(error)
      case Ok(members) =>
        if "const" in members then Ok(if members["const"].String? then {members["const"].chars} else {})
        else if "enum" in members then StringSet(members["enum"], "JSON Schema enum")
        else Ok({})
  }

  function FieldsFrom(root: JsonValue, properties: map<string, JsonValue>, names: seq<string>, required: set<string>,
                      found: map<string, SchemaField>): Result<map<string, SchemaField>, string>
    requires forall name | name in names :: name in properties
  {
    if names == [] then Ok(found)
    else
      match EnumValues(root, properties[names[0]])
      case Err(error) => Err(error)
      case Ok(values) =>
        FieldsFrom(root, properties, names[1..], required, found[names[0] := SchemaField(names[0] in required, values)])
  }

  function Label(definition: string): string {
    "JSON Schema.$defs." + definition
  }

  /** The definition that `name` leads to, after its own `$ref`. */
  function Definition(root: JsonValue, name: string): Result<map<string, JsonValue>, string> {
    match AsObject(root, "JSON Schema")
    case Err(error) => Err(error)
    case Ok(top) =>
      match Required(top, "$defs", "JSON Schema")
      case Err(error) => Err(error)
      case Ok(defs) =>
        match AsObject(defs, "JSON Schema.$defs")
        case Err(error) => Err(error)
        case Ok(definitions) =>
          match Required(definitions, name, "JSON Schema.$defs")
          case Err(error) => Err(error)
          case Ok(definition) =>
            match ResolveSchema(root, definition)
            case Err(error) => Err(error)
            case Ok(resolved) => AsObject(resolved, Label(name))
  }

  function RequiredNames(definition: map<string, JsonValue>, name: string): Result<set<string>, string> {
    if "required" in definition then StringSet(definition["required"], Label(name) + ".required") else Ok({})
  }

  /** `json_schema_fields` */
  function Fields(root: JsonValue, name: string): Result<map<string, SchemaField>, string> {
    match Definition(root, name)
    case Err(error) => Err(error)
    case Ok(definition) =>
      match Required(definition, "properties", Label(name))
      case Err(error) => Err(error)
      case Ok(value) =>
        match AsObject(value, Label(name) + ".properties")
        case Err(error) => Err(error)
        case Ok(properties) =>
          match RequiredNames(definition, name)
          case Err(error) => Err(error)
          case Ok(required) => FieldsFrom(root, properties, Sorted(properties.Keys), required, map[])
  }

  lemma {:induction false} FieldsFromExact(root: JsonValue, properties: map<string, JsonValue>, names: seq<string>,
                                           required: set<string>, found: map<string, SchemaField>)
    requires forall name | name in names :: name in properties
    ensures FieldsFrom(root, properties, names, required, found).Ok? <==>
            forall name | name in names :: EnumValues(root, properties[name]).Ok?
    ensures var r := FieldsFrom(root, properties, names, required, found);
            r.Ok? ==>
              && r.value.Keys == found.Keys + Elements(names)
              && (forall name | name in names ::
                  r.value[name] == SchemaField(name in required, EnumValues(root, properties[name]).value))
              && (forall name | name in found && name !in names :: r.value[name] == found[name])
  {
    hide EnumValues;
    if names != [] {
      assert names == [names[0]] + names[1..];
      var values := EnumValues(root, properties[names[0]]);
      if values.Ok? {
        FieldsFromExact(root, properties, names[1..], required,
            found[names[0] := SchemaField(names[0] in required, values.value)]);
      }
    }
  }

  /** The string elements of an array, if all of its elements are strings. */
  lemma {:induction false} StringsFromExact(items: seq<JsonValue>, index: nat, found: set<string>, description: string)
    requires index <= |items|
    ensures StringsFrom(items, index, found, description).Ok? <==> forall i | index <= i < |items| :: items[i].String?
    ensures var r := StringsFrom(items, index, found, description);
            r.Ok? ==> r.value == found + set i | index <= i < |items| :: items[i].chars
    decreases |items| - index
  {
    if index < |items| && items[index].String? {
      StringsFromExact(items, index + 1, found + {items[index].chars}, description);
    }
  }

  /** The properties of a definition, when it has an object of them. */
  predicate HasProperties(root: JsonValue, name: string) {
    var definition := Definition(root, name);
    definition.Ok? && "properties" in definition.value && definition.value["properties"].Object?
  }

  function Properties(root: JsonValue, name: string): map<string, JsonValue>
    requires HasProperties(root, name)
  {
    Definition(root, name).value["properties"].members
  }

  predicate ListsRequired(definition: map<string, JsonValue>, name: string) {
    "required" in definition && definition["required"].Array? && String(name) in definition["required"].items
  }

  /** What is left of `Fields` once the properties have been found. */
  lemma FieldsSplit(root: JsonValue, name: string)
    requires Fields(root, name).Ok?
    ensures Definition(root, name).Ok? && HasProperties(root, name)
    ensures var definition, properties := Definition(root, name).value, Properties(root, name);
            && RequiredNames(definition, name).Ok?
            && Fields(root, name) == FieldsFrom(root, properties, Sorted(properties.Keys),
                RequiredNames(definition, name).value, map[])
  {
    hide Definition, FieldsFrom, Sorted, StringSet;
  }

  lemma RequiredNamesExact(definition: map<string, JsonValue>, name: string)
    requires RequiredNames(definition, name).Ok?
    ensures forall n :: n in RequiredNames(definition, name).value <==> ListsRequired(definition, n)
  {
    if "required" in definition {
      StringsFromExact(definition["required"].items, 0, {}, Label(name) + ".required");
    }
  }

  /** The table of fields: one for each property, required when the definition lists its name. */
  lemma FieldsTable(root: JsonValue, name: string)
    requires Fields(root, name).Ok?
    ensures HasProperties(root, name)
    ensures var table, definition, properties := Fields(root, name).value, Definition(root, name).value,
        Properties(root, name);
            && table.Keys == properties.Keys
            && (forall n | n in table ::
                  && EnumValues(root, properties[n]) == Ok(table[n].enumValues)
                  && (table[n].required <==> ListsRequired(definition, n)))
  {
    hide Fields, FieldsFrom, HasProperties, Properties, RequiredNames, ListsRequired, EnumValues, Definition, Ascending;
    FieldsSplit(root, name);
    var definition, properties := Definition(root, name).value, Properties(root, name);
    RequiredNamesExact(definition, name);
    FieldsFromExact(root, properties, Sorted(properties.Keys), RequiredNames(definition, name).value, map[]);
  }
}

/** For which schemas the audit says that a source is missing (`audit_model_pair` in lib_part_05.rs). */
module MissingSources {
  import opened Prelude
  import opened Strings
  import opened Decimal
  import opened KeyOrder
  import opened JsonValues
  import opened ParityErrors
  import opened TypeSpec
  import opened JsonPointer
  import opened SchemaFields
  import opened ModelAudits

  /** The words that the audit looks for in an error. */
  const WORDS := "is required"

  predicate SaysRequired<T>(r: Result<T, string>) {
    r.Err? && Contains(r.error, WORDS)
  }

  // The wording of errors

  lemma LetterAt(s: string, i: nat, k: nat)
    requires OccursAt(s, WORDS, i) && k < |WORDS|
    ensures i + |WORDS| <= |s| && s[i + k] == WORDS[k]
  {
    assert s[i..i + |WORDS|][k] == s[i + k];
  }

  lemma WithoutQ(s: string)
    requires 'q' !in s
    ensures !Contains(s, WORDS)
  {
    if Contains(s, WORDS) {
      LetterAt(s, Find(s, WORDS).value, 5);
    }
  }

  lemma ContainsEnd(s: string, sub: string)
    ensures Contains(s + sub, sub)
  {
    assert OccursAt(s + sub, sub, |s|);
  }

  /** A frame around a name in which the words cannot begin or end. */
  predicate Frame(before: string, after: string) {
    && 'q' !in before && (forall j | 0 <= j < |before| && |before| - 5 <= j :: before[j] != 'i')
    && (after != "" ==> after[0] == '.' || (after[0] == ' ' && 'q' !in after))
    && (forall j | 5 <= j < |after| :: after[j] != 'q')
  }

  lemma WordsInName(before: string, name: string, after: string, i: nat)
    requires Frame(before, after) && OccursAt(before + name + after, WORDS, i)
    ensures |before| <= i && i + |WORDS| <= |before| + |name|
  {
    var text, end := before + name + after, |before| + |name|;
    LetterAt(text, i, 0);
    LetterAt(text, i, 5);
    if i < end < i + |WORDS| && after != "" {
      LetterAt(text, i, end - i);
    }
  }

  lemma OccursInside(before: string, name: string, after: string, i: nat)
    requires i + |WORDS| <= |name|
    ensures OccursAt(before + name + after, WORDS, |before| + i) <==> OccursAt(name, WORDS, i)
  {
    var text, at := before + name + after, |before| + i;
    assert text[at..at + |WORDS|] == name[i..i + |WORDS|];
  }

  lemma OccursFits(s: string, i: nat)
    requires OccursAt(s, WORDS, i)
    ensures i + |WORDS| <= |s|
  {
  }

  lemma OccursFound(s: string, i: nat)
    requires OccursAt(s, WORDS, i)
    ensures Contains(s, WORDS)
  {
  }

  /** Inside a frame, only the name can bring in the words. */
  lemma NameSays(before: string, name: string, after: string)
    requires Frame(before, after)
    ensures Contains(before + name + after, WORDS) <==> Contains(name, WORDS)
  {
    hide Frame, Find, OccursAt;
    var text := before + name + after;
    if Contains(text, WORDS) {
      var i := Find(text, WORDS).value;
      WordsInName(before, name, after, i);
      OccursInside(before, name, after, i - |before|);
      OccursFound(name, i - |before|);
    }
    if Contains(name, WORDS) {
      var i := Find(name, WORDS).value;
      OccursFits(name, i);
      OccursInside(before, name, after, i);
      OccursFound(text, |before| + i);
    }
  }

  // References

  /** Walking the keys stops at an object without the next key. */
  predicate StopsAtAbsentKey(v: JsonValue, keys: seq<string>) {
    keys != [] && v.Object? && (keys[0] in v.members ==> StopsAtAbsentKey(v.members[keys[0]], keys[1..]))
  }

  lemma {:induction false} WalkSays(v: JsonValue, keys: seq<string>)
    ensures SaysRequired(Walk(v, keys)) <==> StopsAtAbsentKey(v, keys)
    decreases |keys|
  {
    hide Contains;
    if keys == [] {
    } else if !v.Object? {
      WithoutQ(TARGET + " must be an object");
    } else if keys[0] !in v.members {
      ContainsEnd(TARGET + "." + keys[0] + " ", WORDS);
      assert TARGET + "." + keys[0] + " " + WORDS == TARGET + "." + keys[0] + " is required";
    } else {
      WalkSays(v.members[keys[0]], keys[1..]);
    }
  }

  const FORBIDDEN := "external JSON Schema reference is forbidden: "

  /** A reference into the schema that dangles, or one out of it that holds the words itself. */
  predicate BadReference(root: JsonValue, v: JsonValue) {
    && v.Object? && "$ref" in v.members && v.members["$ref"].String?
    && var reference := v.members["$ref"].chars;
       if "#/" <= reference then StopsAtAbsentKey(root, UnescapeAll(Split(reference[2..], '/')))
           else Contains(reference, WORDS)
  }

  lemma ForbiddenFrames()
    ensures Frame(FORBIDDEN, "")
  {
    assert FORBIDDEN == "external JSON Schema reference is forbid" + "den: ";
  }

  lemma ResolveSays(root: JsonValue, v: JsonValue)
    ensures SaysRequired(ResolveSchema(root, v)) <==> BadReference(root, v)
  {
    hide Contains, Walk, UnescapeAll, Split, StopsAtAbsentKey;
    WithoutQ("JSON Schema node" + " must be an object");
    WithoutQ("JSON Schema $ref" + " must be a string");
    if v.Object? && "$ref" in v.members && v.members["$ref"].String? {
      var reference := v.members["$ref"].chars;
      if "#/" <= reference {
        WalkSays(root, UnescapeAll(Split(reference[2..], '/')));
      } else {
        ForbiddenFrames();
        NameSays(FORBIDDEN, reference, "");
        assert FORBIDDEN + reference + "" == FORBIDDEN + reference;
      }
    }
  }

  // Sets of strings

  lemma {:induction false} StringsFromError(items: seq<JsonValue>, index: nat, found: set<string>,
      description: string) returns (k: nat)
    requires index <= |items| && StringsFrom(items, index, found, description).Err?
    ensures StringsFrom(items, index, found, description).error
        == description + "[" + NatText(k) + "]" + " must be a string"
    decreases |items| - index
  {
    hide NatText;
    if items[index].String? {
      k := StringsFromError(items, index + 1, found + {items[index].chars}, description);
    } else {
      k := index;
    }
  }

  lemma EnumSetSays(v: JsonValue)
    ensures !SaysRequired(StringSet(v, "JSON Schema enum"))
  {
    hide Contains, NatText, StringsFrom;
    WithoutQ("JSON Schema enum" + " must be an array");
    if v.Array? && StringsFrom(v.items, 0, {}, "JSON Schema enum").Err? {
      var k := StringsFromError(v.items, 0, {}, "JSON Schema enum");
      WithoutQ("JSON Schema enum" + "[" + NatText(k) + "]" + " must be a string");
    }
  }

  /** The enum values of a property cannot be read, with the words in the error, exactly for a bad reference. */
  lemma EnumValuesSay(root: JsonValue, v: JsonValue)
    ensures SaysRequired(EnumValues(root, v)) <==> BadReference(root, v)
  {
    hide Contains, ResolveSchema, BadReference, StringSet;
    ResolveSays(root, v);
    WithoutQ("JSON Schema property" + " must be an object");
    var resolved := ResolveSchema(root, v);
    if resolved.Ok? && resolved.value.Object? && "enum" in resolved.value.members {
      EnumSetSays(resolved.value.members["enum"]);
    }
  }

  // The parts of a definition

  /** The names of required fields, if there are any, are an array of strings. */
  predicate ListsNames(definition: map<string, JsonValue>) {
    "required" in definition ==>
      definition["required"].Array? && forall i | 0 <= i < |definition["required"].items| ::
          definition["required"].items[i].String?
  }

  const DEFS := "JSON Schema.$defs."

  lemma LabelSays(name: string, after: string)
    requires after != "" && (after[0] == '.' || (after[0] == ' ' && 'q' !in after)) && forall j | 5 <= j < |after| ::
        after[j] != 'q'
    ensures Contains(Label(name) + after, WORDS) <==> Contains(name, WORDS)
  {
    assert Label(name) + after == DEFS + name + after;
    NameSays(DEFS, name, after);
  }

  lemma RequiredNamesSay(definition: map<string, JsonValue>, name: string)
    ensures RequiredNames(definition, name).Ok? <==> ListsNames(definition)
    ensures SaysRequired(RequiredNames(definition, name)) <==> !ListsNames(definition) && Contains(name, WORDS)
  {
    hide Contains, NatText, StringsFrom;
    if "required" in definition {
      var v, description := definition["required"], Label(name) + ".required";
      if v.Array? {
        StringsFromExact(v.items, 0, {}, description);
        if StringsFrom(v.items, 0, {}, description).Err? {
          var k := StringsFromError(v.items, 0, {}, description);
          var after := ".required[" + NatText(k) + "] must be a string";
          assert description + "[" + NatText(k) + "]" + " must be a string" == Label(name) + after;
          LabelSays(name, after);
        }
      } else {
        assert description + " must be an array" == Label(name) + ".required must be an array";
        LabelSays(name, ".required must be an array");
      }
    }
  }

  /** The first property, in the order of the keys, whose enum values cannot be read. */
  ghost predicate FirstUnreadable(root: JsonValue, properties: map<string, JsonValue>, n: string) {
    && n in properties && EnumValues(root, properties[n]).Err?
    && forall k | k in properties && Below(k, n) :: EnumValues(root, properties[k]).Ok?
  }

  lemma {:induction false} FieldsFromError(root: JsonValue, properties: map<string, JsonValue>, names: seq<string>,
                                           required: set<string>, found: map<string, SchemaField>) returns (i: nat)
    requires (forall name | name in names :: name in properties)
        && FieldsFrom(root, properties, names, required, found).Err?
    ensures i < |names| && EnumValues(root, properties[names[i]]).Err?
    ensures FieldsFrom(root, properties, names, required, found).error == EnumValues(root, properties[names[i]]).error
    ensures forall j | 0 <= j < i :: EnumValues(root, properties[names[j]]).Ok?
  {
    hide EnumValues;
    var values := EnumValues(root, properties[names[0]]);
    if values.Err? {
      i := 0;
    } else {
      var k := FieldsFromError(root, properties, names[1..], required,
          found[names[0] := SchemaField(names[0] in required, values.value)]);
      i := k + 1;
    }
  }

  lemma FirstUnreadableUnique(root: JsonValue, properties: map<string, JsonValue>, n: string, k: string)
    requires FirstUnreadable(root, properties, n) && FirstUnreadable(root, properties, k)
    ensures n == k
  {
    hide EnumValues, Below;
    if n != k {
      BelowTotal(n, k);
    }
  }

  /** Whether the enum values of some property stop the table, with the words in the error. */
  ghost predicate PropertySays(root: JsonValue, properties: map<string, JsonValue>) {
    exists n :: FirstUnreadable(root, properties, n) && BadReference(root, properties[n])
  }

  lemma PropertiesSay(root: JsonValue, properties: map<string, JsonValue>, required: set<string>)
    ensures SaysRequired(FieldsFrom(root, properties, Sorted(properties.Keys), required, map[]))
        <==> PropertySays(root, properties)
  {
    hide EnumValues, BadReference, Contains, FieldsFrom, Below;
    var names := Sorted(properties.Keys);
    FieldsFromExact(root, properties, names, required, map[]);
    if FieldsFrom(root, properties, names, required, map[]).Err? {
      var i := FieldsFromError(root, properties, names, required, map[]);
      var n := names[i];
      forall k | k in properties && Below(k, n)
        ensures EnumValues(root, properties[k]).Ok?
      {
        EarlierName(names, k, i);
      }
      assert FirstUnreadable(root, properties, n);
      EnumValuesSay(root, properties[n]);
      if PropertySays(root, properties) {
        var m :| FirstUnreadable(root, properties, m) && BadReference(root, properties[m]);
        FirstUnreadableUnique(root, properties, m, n);
      }
    }
  }

  lemma EarlierName(names: seq<string>, k: string, i: nat)
    requires Ascending(names) && i < |names| && k in names && Below(k, names[i])
    ensures exists j :: 0 <= j < i && names[j] == k
  {
    hide Below;
    var j :| 0 <= j < |names| && names[j] == k;
    BelowIrreflexive(k);
    if i < j {
      BelowTransitive(k, names[i], k);
    }
  }

  // The whole schema

  /** What a resolved definition must be like for its table of fields to fail with the words. */
  ghost predicate TableSays(root: JsonValue, definition: JsonValue, name: string) {
    if !definition.Object? then Contains(name, WORDS)
    else if "properties" !in definition.members then true
    else if !definition.members["properties"].Object? || !ListsNames(definition.members) then Contains(name, WORDS)
    else PropertySays(root, definition.members["properties"].members)
  }

  /** What a schema must be like for the table of `name` to fail with the words. */
  ghost predicate SchemaSays(schema: JsonValue, name: string) {
    schema.Object? &&
    ("$defs" in schema.members ==>
      schema.members["$defs"].Object? &&
      (name in schema.members["$defs"].members ==>
        var definition := schema.members["$defs"].members[name];
        BadReference(schema, definition)
        || (ResolveSchema(schema, definition).Ok? && TableSays(schema, ResolveSchema(schema, definition).value, name))))
  }

  lemma RequiredSays(members: map<string, JsonValue>, key: string, description: string)
    ensures SaysRequired(Required(members, key, description)) <==> key !in members
  {
    hide Contains;
    ContainsEnd(description + "." + key + " ", WORDS);
    assert description + "." + key + " " + WORDS == description + "." + key + " is required";
  }

  /** The table of a resolved definition, as `Fields` goes on from it. */
  function Table(root: JsonValue, definition: JsonValue, name: string): Result<map<string, SchemaField>, string> {
    match AsObject(definition, Label(name))
    case Err(error) => Err(error)
    case Ok(members) =>
      match Required(members, "properties", Label(name))
      case Err(error) => Err(error)
      case Ok(value) =>
        match AsObject(value, Label(name) + ".properties")
        case Err(error) => Err(error)
        case Ok(properties) =>
          match RequiredNames(members, name)
          case Err(error) => Err(error)
          case Ok(required) => FieldsFrom(root, properties, Sorted(properties.Keys), required, map[])
  }

  lemma TableWords(root: JsonValue, definition: JsonValue, name: string)
    ensures SaysRequired(Table(root, definition, name)) <==> TableSays(root, definition, name)
  {
    hide Contains, Label, RequiredNames, FieldsFrom, PropertySays, ListsNames, Sorted;
    if !definition.Object? {
      LabelSays(name, " must be an object");
    } else {
      var members := definition.members;
      RequiredSays(members, "properties", Label(name));
      if "properties" in members {
        if !members["properties"].Object? {
          LabelSays(name, ".properties must be an object");
          assert Label(name) + ".properties" + " must be an object" == Label(name) + ".properties must be an object";
        } else {
          RequiredNamesSay(members, name);
          if RequiredNames(members, name).Ok? {
            PropertiesSay(root, members["properties"].members, RequiredNames(members, name).value);
          }
        }
      }
    }
  }

  lemma FieldsByTable(schema: JsonValue, name: string)
    requires schema.Object? && "$defs" in schema.members && schema.members["$defs"].Object?
    requires name in schema.members["$defs"].members
    ensures var resolved := ResolveSchema(schema, schema.members["$defs"].members[name]);
            Fields(schema, name) == if resolved.Err? then Err(resolved.error) else Table(schema, resolved.value, name)
  {
    hide ResolveSchema, RequiredNames, FieldsFrom, Sorted, Label;
  }

  /** The table of a definition fails with the words in the error exactly for the schemas described above. */
  lemma FieldsSay(schema: JsonValue, name: string)
    ensures SaysRequired(Fields(schema, name)) <==> SchemaSays(schema, name)
  {
    hide Contains, ResolveSchema, RequiredNames, FieldsFrom, Sorted, Label, BadReference, TableSays, Table;
    WithoutQ("JSON Schema" + " must be an object");
    WithoutQ("JSON Schema.$defs" + " must be an object");
    if schema.Object? {
      RequiredSays(schema.members, "$defs", "JSON Schema");
      if "$defs" in schema.members && schema.members["$defs"].Object? {
        var definitions := schema.members["$defs"].members;
        RequiredSays(definitions, name, "JSON Schema.$defs");
        if name in definitions {
          FieldsByTable(schema, name);
          ResolveSays(schema, definitions[name]);
          if ResolveSchema(schema, definitions[name]).Ok? {
            TableWords(schema, ResolveSchema(schema, definitions[name]).value, name);
          }
        }
      }
    }
  }

  // The audit

  /** The audit names a missing source. */
  predicate CallsMissing(r: Result<ModelAudit, ParityError>) {
    r.Ok? && r.value.sourceMissing != {}
  }

  /**
   The audit names a missing source exactly when the model is not declared or the schema is one of
   those above; then it does not pass, and that is its one entry.
   */
  lemma MissingSourceExactly(doc: Document, schema: JsonValue, pair: ModelPair, show: Show)
    ensures var r := Audited(doc, schema, pair, show);
            && (CallsMissing(r) <==> pair.typespecModel !in doc.models || SchemaSays(schema, pair.jsonSchemaDefinition))
            && (CallsMissing(r) ==> !r.value.Passes() && r.value.DiscrepancyCount() == 1)
  {
    hide Fields, Contains, LinkFrom, FirstEnumError, SchemaSays;
    FieldsSay(schema, pair.jsonSchemaDefinition);
    if pair.typespecModel in doc.models && Link(pair, doc.models[pair.typespecModel]).Ok? {
      LinkExact(pair, doc.models[pair.typespecModel]);
    }
  }

  lemma PresentSays(schema: JsonValue, name: string)
    requires HasProperties(schema, name)
    ensures SchemaSays(schema, name) <==>
            if ListsNames(Definition(schema, name).value) then PropertySays(schema, Properties(schema, name))
                else Contains(name, WORDS)
  {
    hide ResolveSchema, BadReference, PropertySays, ListsNames, Contains;
    ResolveSays(schema, schema.members["$defs"].members[name]);
  }

  /**
   A declared model's definition that exists and has properties is called missing exactly when its
   list of required names is malformed and its own name holds the words, or when the first of its
   properties whose enum values cannot be read has a reference that dangles (or one out of the
   schema that holds the words).
   */
  lemma PresentDefinitionExactly(doc: Document, schema: JsonValue, pair: ModelPair, show: Show)
    requires pair.typespecModel in doc.models && HasProperties(schema, pair.jsonSchemaDefinition)
    ensures CallsMissing(Audited(doc, schema, pair, show)) <==>
            var name := pair.jsonSchemaDefinition;
            if ListsNames(Definition(schema, name).value) then PropertySays(schema, Properties(schema, name))
                else Contains(name, WORDS)
  {
    hide Audited, HasProperties, SchemaSays, Definition, Properties, PropertySays, ListsNames, Contains;
    MissingSourceExactly(doc, schema, pair, show);
    PresentSays(schema, pair.jsonSchemaDefinition);
  }

  /** A definition that `$defs` does not have is called missing. */
  lemma AbsentDefinitionReported(doc: Document, schema: JsonValue, pair: ModelPair, show: Show)
    requires pair.typespecModel in doc.models
    requires schema.Object? && "$defs" in schema.members && schema.members["$defs"].Object?
    requires pair.jsonSchemaDefinition !in schema.members["$defs"].members
    ensures Audited(doc, schema, pair, show)
            == Ok(EmptyAudit(pair).(sourceMissing := {"json-schema:definition:" + pair.jsonSchemaDefinition}))
  {
    hide Fields, Contains;
    FieldsSay(schema, pair.jsonSchemaDefinition);
  }

  // A schema with a dangling reference

  const REFERENCE := "#/$defs/Gone"
  const PROPERTY := Object(map["$ref" := String(REFERENCE)])
  const PROPERTIES := map["p" := PROPERTY]
  const DEFINITION := map["properties" := Object(PROPERTIES)]
  const SCHEMA := Object(map["$defs" := Object(map["D" := Object(DEFINITION)])])

  lemma {:induction false} PlainKey(key: string)
    requires '~' !in key && '/' !in key
    ensures EscapeKey(key) == key
  {
    if key != "" {
      PlainKey(key[1..]);
      assert key == [key[0]] + key[1..];
    }
  }

  lemma ReferenceKeys()
    ensures "#/" <= REFERENCE && UnescapeAll(Split(REFERENCE[2..], '/')) == ["$defs", "Gone"]
  {
    hide EscapeKey, Split, Unescape;
    var keys := ["$defs", "Gone"];
    PlainKey("$defs");
    PlainKey("Gone");
    assert keys[1..] == ["Gone"];
    assert EscapeAll(keys) == keys;
    assert Join(keys, '/') == "$defs" + "/" + "Gone" == REFERENCE[2..];
    forall i | 0 <= i < |keys|
      ensures '/' !in keys[i]
    {
    }
    SplitJoined(keys, '/');
    UnescapeAllInverts(keys);
  }

  lemma ReferenceDangles()
    ensures BadReference(SCHEMA, PROPERTY)
  {
    hide UnescapeAll, Split, REFERENCE;
    ReferenceKeys();
    assert ["$defs", "Gone"][1..] == ["Gone"];
    assert StopsAtAbsentKey(SCHEMA.members["$defs"], ["Gone"]);
  }

  lemma SchemaHasProperties()
    ensures HasProperties(SCHEMA, "D") && Definition(SCHEMA, "D") == Ok(DEFINITION)
        && Properties(SCHEMA, "D") == PROPERTIES
  {
    hide PROPERTY;
  }

  /** A definition that exists, with one property that refers to a missing one, is itself called missing. */
  lemma PresentDefinitionReported(doc: Document, pair: ModelPair, show: Show)
    requires pair.typespecModel in doc.models && pair.jsonSchemaDefinition == "D"
    ensures HasProperties(SCHEMA, "D")
    ensures Audited(doc, SCHEMA, pair, show)
        == Ok(EmptyAudit(pair).(sourceMissing := {"json-schema:definition:" + "D"}))
  {
    hide Fields, HasProperties, Definition, Properties, BadReference, EnumValues, SchemaSays, Contains, PROPERTY,
        SCHEMA;
    SchemaHasProperties();
    ReferenceDangles();
    EnumValuesSay(SCHEMA, PROPERTY);
    BelowIrreflexive("p");
    assert FirstUnreadable(SCHEMA, PROPERTIES, "p");
    PresentSays(SCHEMA, "D");
    FieldsSay(SCHEMA, "D");
  }
}

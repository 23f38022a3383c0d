/** When a schema definition spells a table of fields (lib_part_03.rs from `json_pointer` on, and lib_part_04.rs). */
module SchemaReading {
  import opened Prelude
  import opened Strings
  import opened JsonValues
  import opened JsonPointer
  import opened KeyOrder
  import opened SchemaFields

  /** An array of strings, and no others, that spells a set. */
  ghost predicate SpellsStrings(v: JsonValue, values: set<string>) {
    && v.Array?
    && (forall item | item in v.items :: item.String?)
    && (forall s :: s in values <==> String(s) in v.items)
  }

  lemma StringSetExactly(v: JsonValue, description: string, values: set<string>)
    ensures StringSet(v, description) == Ok(values) <==> SpellsStrings(v, values)
  {
    if v.Array? {
      StringsFromExact(v.items, 0, {}, description);
      if forall item | item in v.items :: item.String? {
        var found := set i | 0 <= i < |v.items| :: v.items[i].chars;
        forall s
          ensures s in found <==> String(s) in v.items
        {
          if String(s) in v.items {
            var i :| 0 <= i < |v.items| && v.items[i] == String(s);
            assert v.items[i].chars in found;
          }
        }
        assert {} + found == found;
        assert SpellsStrings(v, values) ==> values == found;
      } else {
        var item :| item in v.items && !item.String?;
        var i :| 0 <= i < |v.items| && v.items[i] == item;
      }
    }
  }

  // References

  /** The objects on the way down a path of keys, the value at its end last. */
  ghost predicate IsWay(nodes: seq<JsonValue>, keys: seq<string>) {
    && |nodes| == |keys| + 1
    && forall i | 0 <= i < |keys| :: nodes[i].Object? && keys[i] in nodes[i].members
                                     && nodes[i + 1] == nodes[i].members[keys[i]]
  }

  ghost predicate LeadsTo(root: JsonValue, keys: seq<string>, target: JsonValue) {
    exists nodes: seq<JsonValue> :: IsWay(nodes, keys) && nodes[0] == root && nodes[|keys|] == target
  }

  lemma {:induction false} WayWalked(nodes: seq<JsonValue>, keys: seq<string>)
    requires IsWay(nodes, keys)
    ensures Walk(nodes[0], keys) == Ok(nodes[|keys|])
  {
    if keys != [] {
      assert IsWay(nodes[1..], keys[1..]);
      WayWalked(nodes[1..], keys[1..]);
    }
  }

  lemma {:induction false} WalkedWay(root: JsonValue, keys: seq<string>) returns (nodes: seq<JsonValue>)
    requires Walk(root, keys).Ok?
    ensures IsWay(nodes, keys) && nodes[0] == root && nodes[|keys|] == Walk(root, keys).value
  {
    if keys == [] {
      nodes := [root];
    } else {
      var others := WalkedWay(root.members[keys[0]], keys[1..]);
      nodes := [root] + others;
      assert forall i | 0 < i <= |keys| :: nodes[i] == others[i - 1];
      assert forall i | 0 < i < |keys| :: keys[i] == keys[1..][i - 1];
    }
  }

  lemma WalkExactly(root: JsonValue, keys: seq<string>, target: JsonValue)
    ensures Walk(root, keys) == Ok(target) <==> LeadsTo(root, keys, target)
  {
    if Walk(root, keys) == Ok(target) {
      var nodes := WalkedWay(root, keys);
    }
    if LeadsTo(root, keys, target) {
      var nodes :| IsWay(nodes, keys) && nodes[0] == root && nodes[|keys|] == target;
      WayWalked(nodes, keys);
    }
  }

  /** An internal reference whose parts spell the keys. */
  ghost predicate PointsAlong(reference: string, keys: seq<string>) {
    exists parts: seq<string> ::
      && parts != [] && |parts| == |keys|
      && (forall i | 0 <= i < |parts| :: '/' !in parts[i] && Unescape(parts[i]) == keys[i])
      && reference == "#/" + Join(parts, '/')
  }

  lemma {:induction false} UnescapeEach(parts: seq<string>)
    ensures forall i | 0 <= i < |parts| :: UnescapeAll(parts)[i] == Unescape(parts[i])
  {
    hide Unescape;
    if parts != [] {
      UnescapeEach(parts[1..]);
    }
  }

  lemma {:induction false} JoinSplit(s: string, c: char)
    ensures Join(Split(s, c), c) == s && forall i | 0 <= i < |Split(s, c)| :: c !in Split(s, c)[i]
    decreases |s|
  {
    hide Before;
    var first := Before(s, c);
    if |first| < |s| {
      var rest := s[|first| + 1..];
      JoinSplit(rest, c);
      assert Split(s, c) == [first] + Split(rest, c) && ([first] + Split(rest, c))[1..] == Split(rest, c);
      assert s == first + [c] + rest;
    } else {
      assert first == s;
    }
  }

  lemma ResolveRead(root: JsonValue, reference: string, target: JsonValue)
    requires Resolve(root, reference) == Ok(target)
    ensures exists keys :: PointsAlong(reference, keys) && LeadsTo(root, keys, target)
  {
    hide Walk, LeadsTo, Split, Join, Unescape, UnescapeAll;
    var parts := Split(reference[2..], '/');
    JoinSplit(reference[2..], '/');
    UnescapeEach(parts);
    assert reference == "#/" + Join(parts, '/');
    assert PointsAlong(reference, UnescapeAll(parts));
    WalkExactly(root, UnescapeAll(parts), target);
  }

  lemma ResolveFollows(root: JsonValue, reference: string, keys: seq<string>, target: JsonValue)
    requires PointsAlong(reference, keys) && LeadsTo(root, keys, target)
    ensures Resolve(root, reference) == Ok(target)
  {
    hide Walk, LeadsTo, Split, Join, Unescape, UnescapeAll;
    var parts: seq<string> :|
      && parts != [] && |parts| == |keys|
      && (forall i | 0 <= i < |parts| :: '/' !in parts[i] && Unescape(parts[i]) == keys[i])
      && reference == "#/" + Join(parts, '/');
    SplitJoined(parts, '/');
    assert reference[2..] == Join(parts, '/');
    UnescapeEach(parts);
    assert UnescapeAll(parts) == keys;
    WalkExactly(root, keys, target);
  }

  lemma ResolveExactly(root: JsonValue, reference: string, target: JsonValue)
    ensures Resolve(root, reference) == Ok(target) <==>
            exists keys :: PointsAlong(reference, keys) && LeadsTo(root, keys, target)
  {
    hide Resolve, PointsAlong, LeadsTo;
    if Resolve(root, reference) == Ok(target) {
      ResolveRead(root, reference, target);
    }
    forall keys | PointsAlong(reference, keys) && LeadsTo(root, keys, target)
      ensures Resolve(root, reference) == Ok(target)
    {
      ResolveFollows(root, reference, keys, target);
    }
  }

  /** A node stands for itself, or for what its `$ref` leads to. */
  ghost predicate StandsFor(root: JsonValue, v: JsonValue, target: JsonValue) {
    && v.Object?
    && if "$ref" in v.members then
         v.members["$ref"].String?
         && exists keys :: PointsAlong(v.members["$ref"].chars, keys) && LeadsTo(root, keys, target)
       else target == v
  }

  lemma StandsForExactly(root: JsonValue, v: JsonValue, target: JsonValue)
    ensures ResolveSchema(root, v) == Ok(target) <==> StandsFor(root, v, target)
  {
    hide Resolve, PointsAlong, LeadsTo;
    if v.Object? && "$ref" in v.members && v.members["$ref"].String? {
      ResolveExactly(root, v.members["$ref"].chars, target);
    }
  }

  // Properties

  /** The values that a node allows: a string constant, the strings of its enum, or nothing in particular. */
  ghost predicate AllowsValues(node: map<string, JsonValue>, values: set<string>) {
    if "const" in node then
      if node["const"].String? then values == {node["const"].chars} else values == {}
    else if "enum" in node then SpellsStrings(node["enum"], values)
    else values == {}
  }

  ghost predicate SpellsEnum(root: JsonValue, v: JsonValue, values: set<string>) {
    exists target :: StandsFor(root, v, target) && target.Object? && AllowsValues(target.members, values)
  }

  lemma EnumValuesExactly(root: JsonValue, v: JsonValue, values: set<string>)
    ensures EnumValues(root, v) == Ok(values) <==> SpellsEnum(root, v, values)
  {
    hide ResolveSchema, StandsFor, StringSet, SpellsStrings;
    if ResolveSchema(root, v).Ok? {
      var target := ResolveSchema(root, v).value;
      StandsForExactly(root, v, target);
      if target.Object? && "enum" in target.members {
        StringSetExactly(target.members["enum"], "JSON Schema enum", values);
      }
    }
    forall target | StandsFor(root, v, target)
      ensures ResolveSchema(root, v) == Ok(target)
    {
      StandsForExactly(root, v, target);
    }
  }

  // Definitions

  ghost predicate SpellsTable(root: JsonValue, name: string, table: map<string, SchemaField>) {
    && root.Object? && "$defs" in root.members && root.members["$defs"].Object?
    && name in root.members["$defs"].members
    && exists target :: StandsFor(root, root.members["$defs"].members[name], target)
                        && target.Object? && SpellsFields(root, target.members, table)
  }

  /** One field for each property, with its values; required exactly when the list of required names has it. */
  ghost predicate SpellsFields(root: JsonValue, definition: map<string, JsonValue>, table: map<string, SchemaField>) {
    && "properties" in definition && definition["properties"].Object?
    && ("required" in definition ==>
          definition["required"].Array? && forall item | item in definition["required"].items :: item.String?)
    && var properties := definition["properties"].members;
       && table.Keys == properties.Keys
       && forall n | n in table ::
            && SpellsEnum(root, properties[n], table[n].enumValues)
            && (table[n].required <==> "required" in definition && String(n) in definition["required"].items)
  }

  lemma DefinitionExactly(root: JsonValue, name: string, definition: map<string, JsonValue>)
    ensures Definition(root, name) == Ok(definition) <==>
            && root.Object? && "$defs" in root.members && root.members["$defs"].Object?
            && name in root.members["$defs"].members
            && StandsFor(root, root.members["$defs"].members[name], Object(definition))
  {
    hide ResolveSchema, StandsFor, Label;
    if root.Object? && "$defs" in root.members && root.members["$defs"].Object?
       && name in root.members["$defs"].members {
      var v := root.members["$defs"].members[name];
      StandsForExactly(root, v, Object(definition));
    }
  }

  lemma RequiredNamesRead(definition: map<string, JsonValue>, name: string)
    ensures RequiredNames(definition, name).Ok? <==>
            ("required" in definition ==>
               definition["required"].Array? && forall item | item in definition["required"].items :: item.String?)
    ensures RequiredNames(definition, name).Ok? ==>
              forall n :: n in RequiredNames(definition, name).value <==>
                          "required" in definition && String(n) in definition["required"].items
  {
    if "required" in definition {
      var description := Label(name) + ".required";
      var r := StringSet(definition["required"], description);
      if r.Ok? {
        StringSetExactly(definition["required"], description, r.value);
      }
      if definition["required"].Array? {
        StringsFromExact(definition["required"].items, 0, {}, description);
      }
    }
  }

  lemma FieldsRead(root: JsonValue, definition: map<string, JsonValue>, name: string,
                   r: Result<map<string, SchemaField>, string>)
    requires "properties" in definition && definition["properties"].Object? && RequiredNames(definition, name).Ok?
    requires var properties := definition["properties"].members;
             r == FieldsFrom(root, properties, Sorted(properties.Keys), RequiredNames(definition, name).value, map[])
    ensures var properties := definition["properties"].members;
            && (r.Ok? <==> forall n | n in properties :: EnumValues(root, properties[n]).Ok?)
            && (r.Ok? ==>
                  && r.value.Keys == properties.Keys
                  && forall n | n in properties ::
                       && EnumValues(root, properties[n]) == Ok(r.value[n].enumValues)
                       && (r.value[n].required <==>
                             "required" in definition && String(n) in definition["required"].items))
  {
    hide FieldsFrom, RequiredNames, EnumValues, Ascending;
    var properties := definition["properties"].members;
    RequiredNamesRead(definition, name);
    FieldsFromExact(root, properties, Sorted(properties.Keys), RequiredNames(definition, name).value, map[]);
    assert Elements(Sorted(properties.Keys)) == properties.Keys;
  }

  lemma EnumsSpelled(root: JsonValue, properties: map<string, JsonValue>)
    ensures forall n: string, values: set<string> :: n in properties ==>
              (EnumValues(root, properties[n]) == Ok(values) <==> SpellsEnum(root, properties[n], values))
  {
    hide EnumValues, SpellsEnum;
    forall n: string, values: set<string> | n in properties
      ensures EnumValues(root, properties[n]) == Ok(values) <==> SpellsEnum(root, properties[n], values)
    {
      EnumValuesExactly(root, properties[n], values);
    }
  }

  lemma FieldsFromRead(root: JsonValue, definition: map<string, JsonValue>, name: string,
                       table: map<string, SchemaField>)
    requires "properties" in definition && definition["properties"].Object? && RequiredNames(definition, name).Ok?
    ensures var properties := definition["properties"].members;
            FieldsFrom(root, properties, Sorted(properties.Keys), RequiredNames(definition, name).value, map[])
              == Ok(table)
            <==> SpellsFields(root, definition, table)
  {
    hide FieldsFrom, RequiredNames, EnumValues, SpellsFields, Sorted;
    var properties := definition["properties"].members;
    var r := FieldsFrom(root, properties, Sorted(properties.Keys), RequiredNames(definition, name).value, map[]);
    FieldsRead(root, definition, name, r);
    if r == Ok(table) {
      TableRead(root, definition, name, table);
    }
    if SpellsFields(root, definition, table) {
      TableSpelled(root, definition, table);
      SameTable(r.value, table);
    }
  }

  lemma TableSpelled(root: JsonValue, definition: map<string, JsonValue>, table: map<string, SchemaField>)
    requires SpellsFields(root, definition, table)
    ensures var properties := definition["properties"].members;
            && table.Keys == properties.Keys
            && forall n | n in properties ::
                 && EnumValues(root, properties[n]) == Ok(table[n].enumValues)
                 && (table[n].required <==> "required" in definition && String(n) in definition["required"].items)
  {
    hide EnumValues, SpellsEnum;
    EnumsSpelled(root, definition["properties"].members);
  }

  lemma TableRead(root: JsonValue, definition: map<string, JsonValue>, name: string, table: map<string, SchemaField>)
    requires "properties" in definition && definition["properties"].Object? && RequiredNames(definition, name).Ok?
    requires var properties := definition["properties"].members;
             && table.Keys == properties.Keys
             && forall n | n in properties ::
                  && EnumValues(root, properties[n]) == Ok(table[n].enumValues)
                  && (table[n].required <==> "required" in definition && String(n) in definition["required"].items)
    ensures SpellsFields(root, definition, table)
  {
    hide RequiredNames, EnumValues, SpellsEnum;
    RequiredNamesRead(definition, name);
    EnumsSpelled(root, definition["properties"].members);
  }

  lemma SameTable(a: map<string, SchemaField>, b: map<string, SchemaField>)
    requires a.Keys == b.Keys
    requires forall n | n in a :: a[n].required == b[n].required && a[n].enumValues == b[n].enumValues
    ensures a == b
  {
  }

  /** A definition is read as a table exactly when it spells that table. */
  lemma FieldsExactly(root: JsonValue, name: string, table: map<string, SchemaField>)
    ensures Fields(root, name) == Ok(table) <==> SpellsTable(root, name, table)
  {
    hide Definition, FieldsFrom, RequiredNames, StandsFor, SpellsFields, Sorted, Label;
    if Fields(root, name) == Ok(table) {
      var definition := Definition(root, name).value;
      DefinitionExactly(root, name, definition);
      FieldsFromRead(root, definition, name, table);
      assert Object(definition).members == definition;
    }
    if SpellsTable(root, name, table) {
      var target :| StandsFor(root, root.members["$defs"].members[name], target)
                    && target.Object? && SpellsFields(root, target.members, table);
      DefinitionExactly(root, name, target.members);
      FieldsSpelled(root, target.members, name, table);
      FieldsFromRead(root, target.members, name, table);
    }
  }

  lemma FieldsSpelled(root: JsonValue, definition: map<string, JsonValue>, name: string,
      table: map<string, SchemaField>)
    requires SpellsFields(root, definition, table)
    ensures "properties" in definition && definition["properties"].Object? && RequiredNames(definition, name).Ok?
  {
    hide SpellsEnum, RequiredNames;
    RequiredNamesRead(definition, name);
  }
}

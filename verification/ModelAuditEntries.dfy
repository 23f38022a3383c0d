/** Which entries the audit of a model pair holds, in terms of the two tables of fields (lib_part_05.rs). */
module ModelAuditEntries {
  import opened Prelude
  import Strings
  import opened KeyOrder
  import opened JsonValues
  import opened ParityErrors
  import opened TypeSpec
  import opened TypeSpecNames
  import opened SchemaFields
  import opened ModelAudits
  import opened ModelAuditExactness

  /** Every field is linked under the name that the policy gives it, or else under its snake-case name. */
  ghost predicate IsLink(pair: ModelPair, fields: Model, linked: map<string, string>) {
    && (forall m | m in linked :: linked[m] in fields)
    && (forall n | n in fields && n in pair.fieldRenames ::
          pair.fieldRenames[n] in linked && linked[pair.fieldRenames[n]] == n)
    && (forall n | n in fields && n !in pair.fieldRenames :: Snake(n) in linked && linked[Snake(n)] == n)
    && (forall m | m in linked ::
          m == if linked[m] in pair.fieldRenames then pair.fieldRenames[linked[m]] else Snake(linked[m]))
  }

  lemma LinkUnderRenames(pair: ModelPair, fields: Model)
    requires Link(pair, fields).Ok?
    ensures IsLink(pair, fields, Link(pair, fields).value)
  {
    hide Snake, Link;
    LinkExact(pair, fields);
    forall n | n in fields
      ensures MappedName(pair, n) in Link(pair, fields).value && Link(pair, fields).value[MappedName(pair, n)] == n
    {
    }
  }

  /** A link of that kind is the only one. */
  lemma LinkUnique(pair: ModelPair, fields: Model, linked: map<string, string>)
    requires IsLink(pair, fields, linked)
    ensures Link(pair, fields) == Ok(linked)
  {
    hide Snake, Link;
    LinkExact(pair, fields);
    forall n, k | n in fields && k in fields && n != k
      ensures MappedName(pair, n) != MappedName(pair, k)
    {
    }
    var found := Link(pair, fields).value;
    forall m
      ensures m in found <==> m in linked
      ensures m in found && m in linked ==> found[m] == linked[m]
    {
    }
    assert found == linked;
  }

  /** `existing` and `name` have one target, and no field before `name` has the target of an earlier one. */
  ghost predicate Collide(pair: ModelPair, fields: Model, existing: string, name: string) {
    && existing in fields && name in fields && Below(existing, name)
    && MappedName(pair, existing) == MappedName(pair, name)
    && forall j, k | j in fields && k in fields && Below(j, k) && Below(k, name) ::
         MappedName(pair, j) != MappedName(pair, k)
  }

  lemma {:induction false} FirstCollision(pair: ModelPair, names: seq<string>, n: nat, linked: map<string, string>)
      returns (i: nat, k: nat)
    requires Ascending(names) && n <= |names|
    requires forall m | m in linked :: exists j | 0 <= j < n :: names[j] == linked[m] && MappedName(pair, names[j]) == m
    requires forall j | 0 <= j < n ::
        MappedName(pair, names[j]) in linked && linked[MappedName(pair, names[j])] == names[j]
    requires forall j, h | 0 <= j < h < n :: MappedName(pair, names[j]) != MappedName(pair, names[h])
    requires LinkFrom(pair, names[n..], linked).Err?
    ensures n <= k < |names| && i < k && MappedName(pair, names[i]) == MappedName(pair, names[k])
    ensures LinkFrom(pair, names[n..], linked)
            == Err(CollisionError(pair, names[i], names[k], MappedName(pair, names[k])))
    ensures forall j, h | 0 <= j < h < k :: MappedName(pair, names[j]) != MappedName(pair, names[h])
    decreases |names| - n
  {
    hide MappedName, CollisionError, Below;
    var mapped := MappedName(pair, names[n]);
    assert names[n..][0] == names[n] && names[n..][1..] == names[n + 1..];
    if mapped in linked {
      i :| 0 <= i < n && names[i] == linked[mapped] && MappedName(pair, names[i]) == mapped;
      k := n;
    } else {
      i, k := FirstCollision(pair, names, n + 1, linked[mapped := names[n]]);
    }
  }

  /** When fields collide, the first collision in the order of the names is reported. */
  lemma CollisionReported(pair: ModelPair, fields: Model) returns (existing: string, name: string)
    requires Link(pair, fields).Err?
    ensures Collide(pair, fields, existing, name)
    ensures Link(pair, fields).error
            == Message("TypeSpec fields " + pair.typespecModel + "." + existing + " and " + pair.typespecModel + "."
                       + name + " both map to " + MappedName(pair, name))
  {
    hide MappedName, Below;
    var names := Sorted(fields.Keys);
    assert names[0..] == names;
    var i, k := FirstCollision(pair, names, 0, map[]);
    existing, name := names[i], names[k];
    assert existing in names && name in names && Below(existing, name);
    assert Link(pair, fields) == LinkFrom(pair, names[0..], map[]);
    forall j, h | j in fields && h in fields && Below(j, h) && Below(h, name)
      ensures MappedName(pair, j) != MappedName(pair, h)
    {
      var x := Position(names, j);
      var y := Position(names, h);
      Earlier(names, x, y);
      Earlier(names, y, k);
    }
  }

  lemma Position(names: seq<string>, name: string) returns (i: nat)
    requires name in names
    ensures i < |names| && names[i] == name
  {
    i :| 0 <= i < |names| && names[i] == name;
  }

  lemma Earlier(names: seq<string>, i: nat, k: nat)
    requires Ascending(names) && i < |names| && k < |names| && Below(names[i], names[k])
    ensures i < k
  {
    hide Below;
    if i == k {
      BelowIrreflexive(names[i]);
    } else if k < i {
      BelowTransitive(names[i], names[k], names[i]);
      BelowIrreflexive(names[i]);
    }
  }

  type ModelFields = map<string, Field>
  type Links = map<string, string>
  type Table = map<string, SchemaField>

  /** One text for each schema field that nothing maps to. */
  ghost function UnknownTexts(pair: ModelPair, linked: Links, table: Table): set<string> {
    set n | n in table && n !in linked && n !in pair.allowJsonSchemaOnly :: pair.jsonSchemaDefinition + "." + n
  }

  /** One text for each mapped field that the schema lacks. */
  ghost function LackingTexts(pair: ModelPair, linked: Links, table: Table): set<string> {
    set m | m in linked && m !in table && linked[m] !in pair.allowTypeSpecOnly ::
      pair.typespecModel + "." + linked[m] + " -> " + pair.jsonSchemaDefinition + "." + m
  }

  /** One text for each field that is required on one side only. */
  ghost function RequirednessTexts(pair: ModelPair, fields: ModelFields, linked: Links, table: Table): set<string>
    requires forall m | m in linked :: linked[m] in fields
  {
    set m | m in linked && m in table && fields[linked[m]].required != table[m].required
            && linked[m] !in pair.allowRequirednessMismatch ::
      pair.typespecModel + "." + linked[m] + (if fields[linked[m]].required then "=required vs " else "=optional vs ")
      + pair.jsonSchemaDefinition + "." + m + (if table[m].required then "=required" else "=optional")
  }

  /** One text for each field with other enum values. */
  ghost function EnumTexts(doc: Document, pair: ModelPair, show: Show, fields: ModelFields, linked: Links,
                           table: Table): set<string>
    requires forall m | m in linked :: linked[m] in fields
  {
    set m | m in linked && m in table && TypeSpecEnums(doc, fields[linked[m]]).Ok?
            && TypeSpecEnums(doc, fields[linked[m]]).value != table[m].enumValues ::
      pair.typespecModel + "." + linked[m] + "=" + show(TypeSpecEnums(doc, fields[linked[m]]).value) + " vs "
      + pair.jsonSchemaDefinition + "." + m + "=" + show(table[m].enumValues)
  }

  /** The entries of the audit, each under its heading. */
  ghost predicate HasEntries(doc: Document, pair: ModelPair, show: Show, linked: Links, table: Table, a: ModelAudit)
    requires pair.typespecModel in doc.models
    requires forall m | m in linked :: linked[m] in doc.models[pair.typespecModel]
  {
    var fields := doc.models[pair.typespecModel];
    && a.typespecModel == pair.typespecModel && a.jsonSchemaDefinition == pair.jsonSchemaDefinition
    && a.sourceMissing == {}
    && a.missingFromTypeSpec == UnknownTexts(pair, linked, table)
    && a.missingFromJsonSchema == LackingTexts(pair, linked, table)
    && a.requirednessMismatches == RequirednessTexts(pair, fields, linked, table)
    && a.enumMismatches == EnumTexts(doc, pair, show, fields, linked, table)
  }

  lemma LackingSpelled(c: Comparison, m: string)
    requires WellLinked(c) && m in c.linked
    ensures LackingText(c, m)
            == c.pair.typespecModel + "." + c.linked[m] + " -> " + c.pair.jsonSchemaDefinition + "." + m
  {
    Four(c.pair.typespecModel + "." + c.linked[m], " -> ", c.pair.jsonSchemaDefinition, ".", m);
  }

  lemma Four(a: string, b: string, c: string, d: string, e: string)
    ensures a + (b + (c + d + e)) == a + b + c + d + e
  {
  }

  lemma Words(side: string, word: string, definition: string, m: string, other: string)
    ensures side + ("=" + word + (" vs " + (definition + "." + m) + "=" + other))
            == side + ("=" + word + " vs ") + definition + "." + m + ("=" + other)
  {
    var target := definition + "." + m;
    Three(side, "=" + word, " vs " + target + "=" + other);
    assert " vs " + target + "=" + other == " vs " + (target + ("=" + other));
    Three(side + ("=" + word), " vs ", target + ("=" + other));
    Three(side, "=" + word, " vs ");
    Three(side + ("=" + word + " vs "), target, "=" + other);
    Three(side + ("=" + word + " vs "), definition + ".", m);
    Three(side + ("=" + word + " vs "), definition, ".");
  }

  lemma Three(a: string, b: string, c: string)
    ensures a + (b + c) == a + b + c
  {
  }

  lemma WordLiterals(required: bool)
    ensures "=" + Word(required) + " vs " == if required then "=required vs " else "=optional vs "
    ensures "=" + Word(required) == if required then "=required" else "=optional"
  {
  }

  lemma RequirednessSpelled(c: Comparison, m: string)
    requires WellLinked(c) && m in c.linked && m in c.table
    ensures RequirednessText(c, m)
            == c.pair.typespecModel + "." + c.linked[m]
               + (if LinkedField(c, m).required then "=required vs " else "=optional vs ")
               + c.pair.jsonSchemaDefinition + "." + m + (if c.table[m].required then "=required" else "=optional")
  {
    hide Word;
    var side := c.pair.typespecModel + "." + c.linked[m];
    WordLiterals(LinkedField(c, m).required);
    WordLiterals(c.table[m].required);
    Words(side, Word(LinkedField(c, m).required), c.pair.jsonSchemaDefinition, m, Word(c.table[m].required));
  }

  lemma EnumsSpelled(c: Comparison, m: string)
    requires WellLinked(c) && m in c.linked && m in c.table && LinkedEnums(c, m).Ok?
    ensures EnumsText(c, m)
            == c.pair.typespecModel + "." + c.linked[m] + "=" + c.show(LinkedEnums(c, m).value) + " vs "
               + c.pair.jsonSchemaDefinition + "." + m + "=" + c.show(c.table[m].enumValues)
  {
    hide LinkedEnums;
    var side, shown := c.pair.typespecModel + "." + c.linked[m], c.show(LinkedEnums(c, m).value);
    var definition, other := c.pair.jsonSchemaDefinition, c.show(c.table[m].enumValues);
    assert side + ("=" + shown + (" vs " + (definition + "." + m) + "=" + other))
        == side + "=" + shown + " vs " + definition + "." + m + "=" + other;
  }

  lemma LackingEntries(c: Comparison)
    requires WellLinked(c)
    ensures Lacking(c, c.linked.Keys) == LackingTexts(c.pair, c.linked, c.table)
  {
    hide LackingText;
    forall m | m in c.linked
      ensures LackingText(c, m)
              == c.pair.typespecModel + "." + c.linked[m] + " -> " + c.pair.jsonSchemaDefinition + "." + m
    {
      LackingSpelled(c, m);
    }
    forall x
      ensures x in LackingTexts(c.pair, c.linked, c.table) <==> x in Lacking(c, c.linked.Keys)
    {
    }
  }

  lemma UnknownEntries(c: Comparison)
    ensures Unknown(c, c.table.Keys) == UnknownTexts(c.pair, c.linked, c.table)
  {
    forall x
      ensures x in UnknownTexts(c.pair, c.linked, c.table) <==> x in Unknown(c, c.table.Keys)
    {
    }
  }

  lemma RequirednessEntries(c: Comparison)
    requires WellLinked(c)
    ensures RequirednessMismatches(c, c.linked.Keys) == RequirednessTexts(c.pair, c.fields, c.linked, c.table)
  {
    hide RequirednessText;
    forall m | m in c.linked && m in c.table
      ensures RequirednessText(c, m)
              == c.pair.typespecModel + "." + c.linked[m]
                 + (if c.fields[c.linked[m]].required then "=required vs " else "=optional vs ")
                 + c.pair.jsonSchemaDefinition + "." + m + (if c.table[m].required then "=required" else "=optional")
    {
      RequirednessSpelled(c, m);
    }
    forall x
      ensures x in RequirednessTexts(c.pair, c.fields, c.linked, c.table)
              <==> x in RequirednessMismatches(c, c.linked.Keys)
    {
    }
  }

  lemma EnumEntries(doc: Document, c: Comparison)
    requires WellLinked(c) && c.enums == EnumsIn(doc)
    ensures EnumMismatches(c, c.linked.Keys) == EnumTexts(doc, c.pair, c.show, c.fields, c.linked, c.table)
  {
    hide EnumsText, TypeSpecEnums;
    forall m | m in c.linked && m in c.table && TypeSpecEnums(doc, c.fields[c.linked[m]]).Ok?
      ensures EnumsText(c, m)
              == c.pair.typespecModel + "." + c.linked[m] + "="
                 + c.show(TypeSpecEnums(doc, c.fields[c.linked[m]]).value)
                 + " vs " + c.pair.jsonSchemaDefinition + "." + m + "=" + c.show(c.table[m].enumValues)
    {
      EnumsSpelled(c, m);
    }
    forall x
      ensures x in EnumTexts(doc, c.pair, c.show, c.fields, c.linked, c.table)
              <==> x in EnumMismatches(c, c.linked.Keys)
    {
    }
  }

  /**
   What the audit of a pair with both sources finds: one entry for each schema field that nothing
   maps to, for each mapped field that the schema lacks, and for each field whose requiredness or
   enum values differ, under its own heading and with its own text.
   */
  lemma AuditEntries(doc: Document, schema: JsonValue, pair: ModelPair, show: Show, c: Comparison)
    requires Compares(doc, schema, pair, show, c) && Audited(doc, schema, pair, show).Ok?
    ensures IsLink(pair, doc.models[pair.typespecModel], c.linked)
    ensures HasEntries(doc, pair, show, c.linked, c.table, Audited(doc, schema, pair, show).value)
  {
    hide FirstEnumError, TypeSpecEnums, Fields, Link, IsLink;
    hide Lacking, Unknown, RequirednessMismatches, EnumMismatches;
    hide UnknownTexts, LackingTexts, RequirednessTexts, EnumTexts;
    AuditedCompares(doc, schema, pair, show, c);
    LinkUnderRenames(pair, doc.models[pair.typespecModel]);
    LinkExact(pair, c.fields);
    UnknownEntries(c);
    LackingEntries(c);
    RequirednessEntries(c);
    EnumEntries(doc, c);
  }

  lemma {:induction false} FirstBadEnum(c: Comparison, names: seq<string>) returns (i: nat)
    requires WellLinked(c) && (forall m | m in names :: m in c.linked) && FirstEnumError(c, names).Some?
    ensures i < |names| && names[i] in c.table && LinkedEnums(c, names[i]) == Err(FirstEnumError(c, names).value)
    ensures forall j | 0 <= j < i && names[j] in c.table :: LinkedEnums(c, names[j]).Ok?
  {
    hide LinkedEnums;
    if names[0] in c.table && LinkedEnums(c, names[0]).Err? {
      i := 0;
    } else {
      var k := FirstBadEnum(c, names[1..]);
      i := k + 1;
    }
  }

  /**
   A pair whose sources are there cannot be audited when the definition is unreadable for another
   reason, when fields collide, or when a compared type expression has a bad literal: of those, the
   one whose mapped name comes first.
   */
  lemma AuditFailure(doc: Document, schema: JsonValue, pair: ModelPair, show: Show, c: Comparison)
    requires pair.typespecModel in doc.models
    ensures var fields := Fields(schema, pair.jsonSchemaDefinition);
            fields.Err? && !Strings.Contains(fields.error, "is required") ==>
              Audited(doc, schema, pair, show) == Err(Message(fields.error))
    ensures Fields(schema, pair.jsonSchemaDefinition).Ok? && Link(pair, doc.models[pair.typespecModel]).Err? ==>
              Audited(doc, schema, pair, show) == Err(Link(pair, doc.models[pair.typespecModel]).error)
    ensures Compares(doc, schema, pair, show, c) && Audited(doc, schema, pair, show).Err? ==>
              exists m :: m in c.linked && m in c.table && c.linked[m] in c.fields
                          && TypeSpecEnums(doc, c.fields[c.linked[m]]) == Err(Audited(doc, schema, pair, show).error)
                          && forall k | k in c.linked && k in c.table && Below(k, m) && c.linked[k] in c.fields ::
                               TypeSpecEnums(doc, c.fields[c.linked[k]]).Ok?
  {
    hide TypeSpecEnums, Fields, Link, Below;
    if Compares(doc, schema, pair, show, c) && Audited(doc, schema, pair, show).Err? {
      AuditedCompares(doc, schema, pair, show, c);
      var names := Sorted(c.linked.Keys);
      var i := FirstBadEnum(c, names);
      assert names[i] in names;
      forall k | k in c.linked && k in c.table && Below(k, names[i])
        ensures TypeSpecEnums(doc, c.fields[c.linked[k]]).Ok?
      {
        var j := Position(names, k);
        Earlier(names, j, i);
      }
    }
  }
}

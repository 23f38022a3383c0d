/** What the audit of a model pair says: PASS means equal field tables, and every entry is one field. */
module ModelAuditExactness {
  import opened Prelude
  import opened Strings
  import opened KeyOrder
  import opened JsonValues
  import opened TypeSpec
  import opened SchemaFields
  import opened ModelAudits
  import TypeSpecRoundTrip

  type Table = map<string, SchemaField>

  /** The comparison that `Audited` reaches when both sources exist, their fields parse and no names collide. */
  ghost predicate Compares(doc: Document, schema: JsonValue, pair: ModelPair, show: Show, c: Comparison) {
    && pair.typespecModel in doc.models
    && Fields(schema, pair.jsonSchemaDefinition) == Ok(c.table)
    && Link(pair, doc.models[pair.typespecModel]) == Ok(c.linked)
    && c == Comparison(EnumsIn(doc), doc.models[pair.typespecModel], c.linked, c.table, pair, show)
  }

  lemma AuditedCompares(doc: Document, schema: JsonValue, pair: ModelPair, show: Show, c: Comparison)
    requires Compares(doc, schema, pair, show, c)
    ensures WellLinked(c) && Audited(doc, schema, pair, show) == Compared(c)
  {
    LinkExact(pair, c.fields);
  }

  /** No type expression that is compared holds a bad literal. */
  ghost predicate EnumsParse(c: Comparison)
    requires WellLinked(c)
  {
    forall m | m in c.linked && m in c.table :: LinkedEnums(c, m).Ok?
  }

  lemma {:induction false} FirstEnumErrorExact(c: Comparison, names: seq<string>)
    requires WellLinked(c) && forall m | m in names :: m in c.linked
    ensures FirstEnumError(c, names).None? <==> forall m | m in names && m in c.table :: LinkedEnums(c, m).Ok?
  {
    hide LinkedEnums;
    if names != [] {
      assert names == [names[0]] + names[1..];
      FirstEnumErrorExact(c, names[1..]);
    }
  }

  lemma ComparedOk(c: Comparison)
    requires WellLinked(c)
    ensures Compared(c).Ok? <==> EnumsParse(c)
  {
    hide LinkedEnums, Ascending;
    FirstEnumErrorExact(c, Sorted(c.linked.Keys));
  }

  // Equal tables

  /** The TypeSpec fields after renaming: name to requiredness and enum values. */
  function TypeSpecTable(c: Comparison): Table
    requires WellLinked(c)
  {
    map m | m in c.linked ::
      SchemaField(LinkedField(c, m).required, if LinkedEnums(c, m).Ok? then LinkedEnums(c, m).value else {})
  }

  /** The TypeSpec table without the fields that may be missing from the schema. */
  function Expected(c: Comparison): Table
    requires WellLinked(c)
  {
    var table := TypeSpecTable(c);
    map m | m in table && (m in c.table || c.linked[m] !in c.pair.allowTypeSpecOnly) ::
      if m in c.table && c.linked[m] in c.pair.allowRequirednessMismatch then table[m].(required := c.table[m].required)
      else table[m]
  }

  /** The schema table without the fields that may be missing from the model. */
  function Observed(c: Comparison): Table {
    map n | n in c.table && (n in c.linked || n !in c.pair.allowJsonSchemaOnly) :: c.table[n]
  }

  lemma NoDifferences(c: Comparison)
    requires WellLinked(c) && EnumsParse(c)
    ensures Expected(c) == Observed(c) <==>
            && (forall m :: !LacksSchemaField(c, m)) && (forall n :: !LacksTypeSpecField(c, n))
            && (forall m :: !RequirednessDiffers(c, m)) && (forall m :: !EnumsDiffer(c, m))
  {
    hide LinkedEnums;
    var expected, observed := Expected(c), Observed(c);
    if expected == observed {
      forall m
        ensures !LacksSchemaField(c, m) && !LacksTypeSpecField(c, m)
      {
        assert m in expected <==> m in observed;
      }
      forall m
        ensures !RequirednessDiffers(c, m) && !EnumsDiffer(c, m)
      {
        if m in c.linked && m in c.table {
          assert m in expected && expected[m] == observed[m];
        }
      }
    }
    if (forall m :: !LacksSchemaField(c, m)) && (forall n :: !LacksTypeSpecField(c, n))
       && (forall m :: !RequirednessDiffers(c, m)) && (forall m :: !EnumsDiffer(c, m)) {
      forall m
        ensures m in expected <==> m in observed
      {
        assert !LacksSchemaField(c, m) && !LacksTypeSpecField(c, m);
      }
      forall m | m in expected
        ensures expected[m] == observed[m]
      {
        assert m in observed;
        assert !RequirednessDiffers(c, m) && !EnumsDiffer(c, m);
      }
    }
  }

  lemma EmptySets(c: Comparison)
    requires WellLinked(c)
    ensures Lacking(c, c.linked.Keys) == {} <==> forall m :: !LacksSchemaField(c, m)
    ensures Unknown(c, c.table.Keys) == {} <==> forall n :: !LacksTypeSpecField(c, n)
    ensures RequirednessMismatches(c, c.linked.Keys) == {} <==> forall m :: !RequirednessDiffers(c, m)
    ensures EnumMismatches(c, c.linked.Keys) == {} <==> forall m :: !EnumsDiffer(c, m)
  {
    hide LinkedEnums, LackingText, RequirednessText, EnumsText, SchemaSide;
    forall m | LacksSchemaField(c, m)
      ensures LackingText(c, m) in Lacking(c, c.linked.Keys)
    {
    }
    forall n | LacksTypeSpecField(c, n)
      ensures SchemaSide(c, n) in Unknown(c, c.table.Keys)
    {
    }
    forall m | RequirednessDiffers(c, m)
      ensures RequirednessText(c, m) in RequirednessMismatches(c, c.linked.Keys)
    {
    }
    forall m | EnumsDiffer(c, m)
      ensures EnumsText(c, m) in EnumMismatches(c, c.linked.Keys)
    {
    }
  }

  /** PASS exactly when the two field tables are equal apart from what the three lists allow. */
  lemma PassMeansEqualTables(doc: Document, schema: JsonValue, pair: ModelPair, show: Show, c: Comparison)
    requires Compares(doc, schema, pair, show, c)
    ensures WellLinked(c)
    ensures Audited(doc, schema, pair, show).Ok? <==> EnumsParse(c)
    ensures EnumsParse(c) ==> (Audited(doc, schema, pair, show).value.Passes() <==> Expected(c) == Observed(c))
  {
    hide Lacking, Unknown, RequirednessMismatches, EnumMismatches, Expected, Observed, EnumsParse;
    AuditedCompares(doc, schema, pair, show, c);
    ComparedOk(c);
    if EnumsParse(c) {
      NoDifferences(c);
      EmptySets(c);
    }
  }

  /** With nothing allowed, PASS means that the tables are the same map. */
  lemma PassMeansSameTable(doc: Document, schema: JsonValue, pair: ModelPair, show: Show, c: Comparison)
    requires Compares(doc, schema, pair, show, c)
    requires pair.allowTypeSpecOnly == {} && pair.allowJsonSchemaOnly == {} && pair.allowRequirednessMismatch == {}
    ensures WellLinked(c)
    ensures Audited(doc, schema, pair, show).Ok? <==> EnumsParse(c)
    ensures EnumsParse(c) ==> (Audited(doc, schema, pair, show).value.Passes() <==> TypeSpecTable(c) == c.table)
  {
    hide LinkedEnums, EnumsParse, Expected, Observed, TypeSpecTable, Audited;
    PassMeansEqualTables(doc, schema, pair, show, c);
    NothingAllowed(c);
  }

  lemma NothingAllowed(c: Comparison)
    requires WellLinked(c)
    requires c.pair.allowTypeSpecOnly == {} && c.pair.allowJsonSchemaOnly == {}
        && c.pair.allowRequirednessMismatch == {}
    ensures Expected(c) == TypeSpecTable(c) && Observed(c) == c.table
  {
    hide LinkedEnums;
  }

  /** PASS and a count of zero are the same. */
  lemma PassesExactlyWithoutDiscrepancies(audit: ModelAudit)
    ensures audit.Passes() <==> audit.DiscrepancyCount() == 0
  {
  }

  // Counting

  /** `image` holds the texts of `names` and nothing else. */
  ghost predicate IsImage(names: set<string>, text: string -> string, image: set<string>) {
    (forall n | n in names :: text(n) in image) && (forall x | x in image :: exists n :: n in names && text(n) == x)
  }

  lemma {:induction false} ImageSize(names: set<string>, text: string -> string, image: set<string>)
    requires IsImage(names, text, image)
    requires forall n, k | n in names && k in names && text(n) == text(k) :: n == k
    ensures |image| == |names|
    decreases |names|
  {
    if names == {} {
      assert image == {};
    } else {
      var n :| n in names;
      var fewer, others := names - {n}, image - {text(n)};
      forall x | x in others
        ensures exists k :: k in fewer && text(k) == x
      {
        var k :| k in names && text(k) == x;
        assert k in fewer;
      }
      ImageSize(fewer, text, others);
      assert image == others + {text(n)};
    }
  }

  /** The part of an entry up to its first space ends with the field name. */
  lemma FirstWord(model: string, name: string, tail: string)
    requires ' ' !in name
    ensures Before(name + " " + tail, ' ') == name
    ensures ((model + ".") + (name + " " + tail))[|model| + 1..] == name + " " + tail
  {
    BeforeFirst(name, ' ', tail);
  }

  lemma WordsApart(model: string, n: string, s: string, k: string, t: string)
    requires ' ' !in n && ' ' !in k
    requires model + "." + n + (" " + s) == model + "." + k + (" " + t)
    ensures n == k
  {
    assert model + "." + n + (" " + s) == (model + ".") + (n + " " + s);
    assert model + "." + k + (" " + t) == (model + ".") + (k + " " + t);
    FirstWord(model, n, s);
    FirstWord(model, k, t);
  }

  ghost predicate NamesWithoutSpace(c: Comparison) {
    forall m | m in c.linked :: ' ' !in c.linked[m]
  }

  ghost predicate OneNameEach(c: Comparison) {
    forall m, k | m in c.linked && k in c.linked && c.linked[m] == c.linked[k] :: m == k
  }

  lemma LackingTextsApart(c: Comparison, m: string, k: string)
    requires m in c.linked && k in c.linked && NamesWithoutSpace(c) && OneNameEach(c)
    requires LackingText(c, m) == LackingText(c, k)
    ensures m == k
  {
    hide SchemaSide;
    assert " -> " + SchemaSide(c, m) == " " + ("-> " + SchemaSide(c, m));
    assert " -> " + SchemaSide(c, k) == " " + ("-> " + SchemaSide(c, k));
    WordsApart(c.pair.typespecModel, c.linked[m], "-> " + SchemaSide(c, m), c.linked[k], "-> " + SchemaSide(c, k));
  }

  function RequirednessTail(c: Comparison, m: string): string
    requires WellLinked(c) && m in c.linked && m in c.table
  {
    "vs " + SchemaSide(c, m) + "=" + Word(c.table[m].required)
  }

  lemma RequirednessWords(c: Comparison, m: string)
    requires WellLinked(c) && m in c.linked && m in c.table
    ensures RequirednessText(c, m) ==
            c.pair.typespecModel + "." + (c.linked[m] + ("=" + Word(LinkedField(c, m).required)))
                + (" " + RequirednessTail(c, m))
  {
    hide SchemaSide, LinkedField, Word;
    var word := Word(LinkedField(c, m).required);
    assert " vs " + SchemaSide(c, m) + "=" + Word(c.table[m].required) == " " + RequirednessTail(c, m);
    assert TypeSpecSide(c, m) == c.pair.typespecModel + "." + c.linked[m];
  }

  lemma RequirednessTextsApart(c: Comparison, m: string, k: string)
    requires WellLinked(c) && NamesWithoutSpace(c) && OneNameEach(c)
    requires m in c.linked && k in c.linked && m in c.table && k in c.table
    requires RequirednessText(c, m) == RequirednessText(c, k)
    ensures m == k
  {
    hide RequirednessText, RequirednessTail, LinkedField;
    var mWord, kWord := "=" + Word(LinkedField(c, m).required), "=" + Word(LinkedField(c, k).required);
    RequirednessWords(c, m);
    RequirednessWords(c, k);
    WordsApart(c.pair.typespecModel, c.linked[m] + mWord, RequirednessTail(c, m), c.linked[k] + kWord,
        RequirednessTail(c, k));
    assert |mWord| == |kWord|;
    assert c.linked[m] == (c.linked[m] + mWord)[..|c.linked[m]|] == (c.linked[k] + kWord)[..|c.linked[k]|]
        == c.linked[k];
  }

  lemma SchemaSidesApart(c: Comparison, n: string, k: string)
    requires SchemaSide(c, n) == SchemaSide(c, k)
    ensures n == k
  {
    assert SchemaSide(c, n)[|c.pair.jsonSchemaDefinition| + 1..] == n;
    assert SchemaSide(c, k)[|c.pair.jsonSchemaDefinition| + 1..] == k;
  }

  lemma LackingIsImage(c: Comparison, lacking: set<string>)
    requires lacking == set m | m in c.linked && LacksSchemaField(c, m)
    ensures IsImage(lacking, m => LackingText(c, m), Lacking(c, c.linked.Keys))
  {
    hide LacksSchemaField, LackingText;
    var text, image := m => LackingText(c, m), Lacking(c, c.linked.Keys);
    forall x | x in image
      ensures exists m :: m in lacking && text(m) == x
    {
      var m :| m in c.linked && LacksSchemaField(c, m) && LackingText(c, m) == x;
      assert m in lacking && text(m) == x;
    }
    forall m | m in lacking
      ensures text(m) in image
    {
      assert text(m) == LackingText(c, m);
    }
  }

  lemma UnknownIsImage(c: Comparison, unknown: set<string>)
    requires unknown == set n | n in c.table && LacksTypeSpecField(c, n)
    ensures IsImage(unknown, n => SchemaSide(c, n), Unknown(c, c.table.Keys))
  {
    hide LacksTypeSpecField, SchemaSide;
    var text, image := n => SchemaSide(c, n), Unknown(c, c.table.Keys);
    forall x | x in image
      ensures exists n :: n in unknown && text(n) == x
    {
      var n :| n in c.table && LacksTypeSpecField(c, n) && SchemaSide(c, n) == x;
      assert n in unknown && text(n) == x;
    }
    forall n | n in unknown
      ensures text(n) in image
    {
      assert text(n) == SchemaSide(c, n);
    }
  }

  /** `RequirednessText` on every name, also where nothing is linked. */
  ghost function RequirednessEntry(c: Comparison): string -> string {
    m => if WellLinked(c) then RequirednessText(c, m) else ""
  }

  lemma RequirednessIsImage(c: Comparison, differing: set<string>)
    requires WellLinked(c) && differing == set m | m in c.linked && RequirednessDiffers(c, m)
    ensures IsImage(differing, RequirednessEntry(c), RequirednessMismatches(c, c.linked.Keys))
  {
    hide RequirednessDiffers, RequirednessText, WellLinked;
    var text, image := RequirednessEntry(c), RequirednessMismatches(c, c.linked.Keys);
    forall x | x in image
      ensures exists m :: m in differing && text(m) == x
    {
      var m :| m in c.linked && RequirednessDiffers(c, m) && RequirednessText(c, m) == x;
      assert m in differing && text(m) == x;
    }
    forall m | m in differing
      ensures text(m) in image
    {
      assert text(m) == RequirednessText(c, m);
    }
  }

  ghost function EnumsEntry(c: Comparison): string -> string {
    m => if WellLinked(c) then EnumsText(c, m) else ""
  }

  lemma EnumsIsImage(c: Comparison, differing: set<string>)
    requires WellLinked(c) && differing == set m | m in c.linked && EnumsDiffer(c, m)
    ensures IsImage(differing, EnumsEntry(c), EnumMismatches(c, c.linked.Keys))
  {
    hide EnumsDiffer, EnumsText, WellLinked;
    var text, image := EnumsEntry(c), EnumMismatches(c, c.linked.Keys);
    forall x | x in image
      ensures exists m :: m in differing && text(m) == x
    {
      var m :| m in c.linked && EnumsDiffer(c, m) && EnumsText(c, m) == x;
      assert m in differing && text(m) == x;
    }
    forall m | m in differing
      ensures text(m) in image
    {
      assert text(m) == EnumsText(c, m);
    }
  }

  /** Every entry of these three sets stands for one field, so their sizes count fields. */
  lemma EntriesCountFields(c: Comparison)
    requires WellLinked(c) && NamesWithoutSpace(c) && OneNameEach(c)
    ensures |Lacking(c, c.linked.Keys)| == |set m | m in c.linked && LacksSchemaField(c, m)|
    ensures |Unknown(c, c.table.Keys)| == |set n | n in c.table && LacksTypeSpecField(c, n)|
    ensures |RequirednessMismatches(c, c.linked.Keys)| == |set m | m in c.linked && RequirednessDiffers(c, m)|
  {
    hide IsImage, Lacking, Unknown, RequirednessMismatches, LackingText, SchemaSide, RequirednessText, LinkedField;
    var lacking := set m | m in c.linked && LacksSchemaField(c, m);
    forall m, k | m in lacking && k in lacking && LackingText(c, m) == LackingText(c, k)
      ensures m == k
    {
      LackingTextsApart(c, m, k);
    }
    LackingIsImage(c, lacking);
    ImageSize(lacking, m => LackingText(c, m), Lacking(c, c.linked.Keys));
    var unknown := set n | n in c.table && LacksTypeSpecField(c, n);
    forall n, k | n in unknown && k in unknown && SchemaSide(c, n) == SchemaSide(c, k)
      ensures n == k
    {
      SchemaSidesApart(c, n, k);
    }
    UnknownIsImage(c, unknown);
    ImageSize(unknown, n => SchemaSide(c, n), Unknown(c, c.table.Keys));
    var differing := set m | m in c.linked && RequirednessDiffers(c, m);
    forall m, k | m in differing && k in differing && RequirednessText(c, m) == RequirednessText(c, k)
      ensures m == k
    {
      RequirednessTextsApart(c, m, k);
    }
    RequirednessIsImage(c, differing);
    ImageSize(differing, RequirednessEntry(c), RequirednessMismatches(c, c.linked.Keys));
  }

  ghost predicate NamesWithoutEquals(c: Comparison) {
    forall m | m in c.linked :: '=' !in c.linked[m]
  }

  function EnumsTail(c: Comparison, m: string): string
    requires WellLinked(c) && EnumsDiffer(c, m)
  {
    c.show(LinkedEnums(c, m).value) + (" vs " + SchemaSide(c, m) + "=" + c.show(c.table[m].enumValues))
  }

  lemma EnumsWords(c: Comparison, m: string)
    requires WellLinked(c) && EnumsDiffer(c, m)
    ensures EnumsText(c, m) == (c.pair.typespecModel + ".") + (c.linked[m] + "=" + EnumsTail(c, m))
  {
    hide SchemaSide, LinkedEnums, LinkedField;
    assert TypeSpecSide(c, m) == (c.pair.typespecModel + ".") + c.linked[m];
  }

  lemma EnumsTextsApart(c: Comparison, m: string, k: string)
    requires WellLinked(c) && NamesWithoutEquals(c) && OneNameEach(c)
    requires EnumsDiffer(c, m) && EnumsDiffer(c, k)
    requires EnumsText(c, m) == EnumsText(c, k)
    ensures m == k
  {
    hide EnumsText, EnumsTail, LinkedEnums;
    var model := c.pair.typespecModel + ".";
    var mRest, kRest := c.linked[m] + "=" + EnumsTail(c, m), c.linked[k] + "=" + EnumsTail(c, k);
    EnumsWords(c, m);
    EnumsWords(c, k);
    assert mRest == (model + mRest)[|model|..] == (model + kRest)[|model|..] == kRest;
    BeforeFirst(c.linked[m], '=', EnumsTail(c, m));
    BeforeFirst(c.linked[k], '=', EnumsTail(c, k));
  }

  /** So do those of the fourth set, whatever `{:?}` writes, for names without an equals sign. */
  lemma EnumEntriesCountFields(c: Comparison)
    requires WellLinked(c) && NamesWithoutEquals(c) && OneNameEach(c)
    ensures |EnumMismatches(c, c.linked.Keys)| == |set m | m in c.linked && EnumsDiffer(c, m)|
  {
    hide IsImage, EnumMismatches, EnumsText, LinkedEnums;
    var differing := set m | m in c.linked && EnumsDiffer(c, m);
    forall m, k | m in differing && k in differing && EnumsText(c, m) == EnumsText(c, k)
      ensures m == k
    {
      EnumsTextsApart(c, m, k);
    }
    EnumsIsImage(c, differing);
    ImageSize(differing, EnumsEntry(c), EnumMismatches(c, c.linked.Keys));
  }

  /** For a parsed document the discrepancy count of a finished comparison is the number of faults in its fields. */
  lemma CountsDifferingFields(doc: Document, schema: JsonValue, pair: ModelPair, show: Show, c: Comparison)
    requires TypeSpecRoundTrip.Valid(doc)
    requires Compares(doc, schema, pair, show, c)
    ensures WellLinked(c)
    ensures EnumsParse(c) && NamesWithoutEquals(c) ==>
              var audited := Audited(doc, schema, pair, show);
              && audited.Ok?
              && audited.value.DiscrepancyCount()
                 == |set m | m in c.linked && LacksSchemaField(c, m)|
                    + |set n | n in c.table && LacksTypeSpecField(c, n)|
                    + |set m | m in c.linked && RequirednessDiffers(c, m)|
                    + |set m | m in c.linked && EnumsDiffer(c, m)|
  {
    hide LacksSchemaField, LacksTypeSpecField, RequirednessDiffers, EnumsDiffer, LinkedEnums, Fields, Link,
        FirstEnumError;
    hide Lacking, Unknown, RequirednessMismatches, EnumMismatches;
    AuditedCompares(doc, schema, pair, show, c);
    ParsedNamesCount(doc, schema, pair, show, c);
    ComparedOk(c);
    if EnumsParse(c) && NamesWithoutEquals(c) {
      EntriesCountFields(c);
      EnumEntriesCountFields(c);
    }
  }

  /** Parsed documents meet the conditions above: their field names hold no white space. */
  lemma ParsedNamesCount(doc: Document, schema: JsonValue, pair: ModelPair, show: Show, c: Comparison)
    requires TypeSpecRoundTrip.Valid(doc)
    requires Compares(doc, schema, pair, show, c)
    ensures WellLinked(c) && NamesWithoutSpace(c) && OneNameEach(c)
  {
    LinkExact(pair, c.fields);
    forall m | m in c.linked
      ensures ' ' !in c.linked[m]
    {
      var name := c.linked[m];
      assert TypeSpecRoundTrip.ValidModel(c.fields);
      assert TypeSpecRoundTrip.ValidField(name, c.fields[name]);
      assert IsWhitespace(' ');
    }
  }
}

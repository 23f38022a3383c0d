/** Reading one source after another: the declarations of both, or a name that both declare. */
module TypeSpecComposition {
  import opened Prelude
  import opened Strings
  import opened TypeSpec
  import QuotedStrings

  /** No name is declared in both documents. */
  predicate Apart(a: Document, b: Document) {
    a.models.Keys !! b.models.Keys && a.enums.Keys !! b.enums.Keys
  }

  function Union(a: Document, b: Document): Document {
    Document(a.models + b.models, a.enums + b.enums)
  }

  predicate Within(a: Document, b: Document) {
    a.models.Keys <= b.models.Keys && a.enums.Keys <= b.enums.Keys
  }

  lemma {:induction false} RunGrows(lines: seq<string>, number: nat, doc: Document, state: State)
    ensures var r := Run(lines, number, doc, state); r.Ok? ==> Within(doc, r.value.0)
  {
    hide FieldOf, QuotedStrings.Quoted, Trim, DeclarationName;
    if lines != [] {
      var step := Step(doc, state, Trim(lines[0]), number + 1);
      if step.Ok? {
        RunGrows(lines[1..], number + 1, step.value.0, step.value.1);
      }
    }
  }

  lemma {:induction false} RunAppend(a: seq<string>, b: seq<string>, number: nat, doc: Document, state: State)
    ensures var first := Run(a, number, doc, state);
            Run(a + b, number, doc, state) ==
            if first.Err? then first else Run(b, number + |a|, first.value.0, first.value.1)
  {
    hide Step, Trim;
    if a == [] {
      assert a + b == b;
    } else {
      assert (a + b)[1..] == a[1..] + b;
      var step := Step(doc, state, Trim(a[0]), number + 1);
      if step.Ok? {
        RunAppend(a[1..], b, number + 1, step.value.0, step.value.1);
      }
    }
  }

  /** One line of the same source, alone and behind declarations that share no name with it. */
  ghost predicate SameInContext(base: Document, doc: Document, state: State, line: string, n: nat, m: nat) {
    var alone, inside := Step(doc, state, line, m), Step(Union(base, doc), state, line, n);
    if alone.Ok? && Apart(base, alone.value.0) then inside == Ok((Union(base, alone.value.0), alone.value.1))
    else inside.Err?
  }

  lemma OutsideInContext(base: Document, doc: Document, line: string, n: nat, m: nat)
    requires Apart(base, doc)
    ensures SameInContext(base, doc, Outside, line, n, m)
  {
    hide DeclarationName, Union;
  }

  /** Declaring one more model behind other declarations. */
  lemma ModelAdded(base: Document, doc: Document, name: string, fields: Model)
    requires Apart(base, doc)
    ensures var more := doc.(models := doc.models[name := fields]);
            && (Apart(base, more) <==> name !in base.models)
            && Union(base, more) == Union(base, doc).(models := Union(base, doc).models[name := fields])
    ensures name in Union(base, doc).models <==> name in base.models || name in doc.models
  {
    assert (base.models + doc.models)[name := fields] == base.models + doc.models[name := fields];
  }

  lemma ModelInContext(base: Document, doc: Document, name: string, fields: Model, line: string, n: nat, m: nat)
    requires Apart(base, doc)
    ensures SameInContext(base, doc, InModel(name, fields), line, n, m)
  {
    hide FieldOf, Closes, Union, Apart;
    ModelAdded(base, doc, name, fields);
  }

  lemma EnumInContext(base: Document, doc: Document, name: string, values: set<string>, line: string, n: nat, m: nat)
    requires Apart(base, doc)
    ensures SameInContext(base, doc, InEnum(name, values), line, n, m)
  {
    hide QuotedStrings.Quoted, Closes;
    assert (base.enums + doc.enums)[name := values] == base.enums + doc.enums[name := values];
  }

  lemma StepInContext(base: Document, doc: Document, state: State, line: string, n: nat, m: nat)
    requires Apart(base, doc)
    ensures SameInContext(base, doc, state, line, n, m)
  {
    hide SameInContext;
    match state
    case Outside => OutsideInContext(base, doc, line, n, m);
    case InModel(name, fields) => ModelInContext(base, doc, name, fields, line, n, m);
    case InEnum(name, values) => EnumInContext(base, doc, name, values, line, n, m);
  }

  /** Earlier declarations only matter when a name is declared again. */
  lemma {:induction false} RunInContext(base: Document, lines: seq<string>, n: nat, m: nat, doc: Document, state: State)
    requires Apart(base, doc)
    ensures var alone, inside := Run(lines, m, doc, state), Run(lines, n, Union(base, doc), state);
            if alone.Ok? && Apart(base, alone.value.0) then inside == Ok((Union(base, alone.value.0), alone.value.1))
            else inside.Err?
  {
    hide Step, Trim, Union;
    if lines != [] {
      var line := Trim(lines[0]);
      var step := Step(doc, state, line, m + 1);
      StepInContext(base, doc, state, line, n + 1, m + 1);
      if step.Ok? {
        var (nextDoc, nextState) := step.value;
        if Apart(base, nextDoc) {
          RunInContext(base, lines[1..], n + 1, m + 1, nextDoc, nextState);
        } else if Run(lines[1..], m + 1, nextDoc, nextState).Ok? {
          RunGrows(lines[1..], m + 1, nextDoc, nextState);
        }
      }
    }
  }

  /**
   When `s` is whole lines and ends outside any declaration, reading `s + t` reads the disjoint
   union of both, and fails when `t` fails or declares a name of `s` again.
   */
  lemma Concatenation(s: string, t: string, first: Document)
    requires WholeLines(s)
    requires Run(Lines(s), 0, EMPTY, Outside) == Ok((first, Outside))
    ensures var second, both := Run(Lines(t), 0, EMPTY, Outside), Run(Lines(s + t), 0, EMPTY, Outside);
            if second.Ok? && Apart(first, second.value.0)
                then both == Ok((Union(first, second.value.0), second.value.1))
            else both.Err?
  {
    hide Step, Trim, Lines;
    LinesConcat(s, t);
    RunAppend(Lines(s), Lines(t), 0, EMPTY, Outside);
    assert Union(first, EMPTY) == first;
    RunInContext(first, Lines(t), |Lines(s)|, 0, EMPTY, Outside);
  }

  /** The same for whole sources: both parse to the union, or to an error when they share a name. */
  lemma ParsedConcatenation(s: string, t: string, first: Document, second: Document)
    requires WholeLines(s)
    requires Parsed(s) == Ok(first) && Parsed(t) == Ok(second)
    ensures Apart(first, second) ==> Parsed(s + t) == Ok(Union(first, second))
    ensures !Apart(first, second) ==> Parsed(s + t).Err?
  {
    hide Run, Lines;
    Concatenation(s, t, first);
    assert first.models != map[];
    if Apart(first, second) {
      assert Union(first, second).models != map[] by {
        var name :| name in first.models;
        assert name in Union(first, second).models;
      }
    }
  }
}

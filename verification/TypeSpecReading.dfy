/** When a source is read as a document, as a relation on its lines (`parse_typespec` in lib_part_03.rs). */
module TypeSpecReading {
  import opened Prelude
  import opened Strings
  import opened ParityErrors
  import opened TypeSpec
  import opened TypeSpecRoundTrip
  import opened TypeSpecLines
  import opened FieldEnums
  import QuotedStrings

  /** What has been read: the finished declarations, and the one that is open. */
  datatype Situation = Situation(doc: Document, state: State)

  ghost predicate OpensAs(line: string, state: State) {
    exists keyword, space, name, rest ::
      && keyword in {"model ", "enum "} && AllWhitespace(space) && IsName(name) && EndsName(rest) && '{' in rest
      && line == keyword + space + name + rest && state == Opened(keyword, name)
  }

  ghost predicate HoldsStrings(line: string, strings: set<string>) {
    exists spans :: AreSpans(spans) && SpansText(spans) == line && SpansStrings(spans) == strings
  }

  /** One line leads from one situation to the next. */
  ghost predicate LineLeads(before: Situation, line: string, after: Situation) {
    match before.state
    case Outside =>
      after.doc == before.doc
      && if OpensDeclaration(line) then OpensAs(line, after.state) else after.state == Outside
    case InModel(name, fields) =>
      if line in {"}", "};"} then
        name !in before.doc.models
        && after == Situation(before.doc.(models := before.doc.models[name := fields]), Outside)
      else
        after.doc == before.doc
        && ((DeclaresNothing(line) && after.state == before.state)
            || exists n, field :: DeclaresField(line, n, field) && n !in fields
                                  && after.state == InModel(name, fields[n := field]))
    case InEnum(name, values) =>
      if line in {"}", "};"} then
        name !in before.doc.enums
        && after == Situation(before.doc.(enums := before.doc.enums[name := values]), Outside)
      else
        after.doc == before.doc
        && exists strings :: HoldsStrings(line, strings) && after.state == InEnum(name, values + strings)
  }

  lemma OutsideExactly(doc: Document, line: string, number: nat, after: Situation)
    ensures Step(doc, Outside, line, number) == Ok((after.doc, after.state))
            <==> LineLeads(Situation(doc, Outside), line, after)
  {
    hide DeclarationName, AllWhitespace, IsName;
    if OpensDeclaration(line) {
      var keyword, space, name, rest := HeaderForms(line);
      if IsName(name) {
        HeaderRead(doc, keyword, space, name, rest, number);
      } else {
        assert keyword + space + name + rest == keyword + space + rest;
        HeaderRefused(doc, keyword, space, rest, number);
      }
      forall k, s, n, r | k in {"model ", "enum "} && AllWhitespace(s) && IsName(n) && EndsName(r) && '{' in r
                          && line == k + s + n + r
        ensures Step(doc, Outside, line, number) == Ok((doc, Opened(k, n)))
      {
        HeaderRead(doc, k, s, n, r, number);
      }
    }
  }

  lemma ModelExactly(doc: Document, name: string, fields: Model, line: string, number: nat, after: Situation)
    requires Trimmed(line)
    ensures Step(doc, InModel(name, fields), line, number) == Ok((after.doc, after.state))
            <==> LineLeads(Situation(doc, InModel(name, fields)), line, after)
  {
    hide FieldOf, DeclaresField, DeclaresNothing, Trimmed;
    ModelLine(doc, name, fields, line, number);
    FieldOfNothing(line);
    if FieldOf(line).Some? {
      var (n, field) := FieldOf(line).value;
      FieldOfExactly(line, n, field);
    }
    forall n, field | DeclaresField(line, n, field)
      ensures FieldOf(line) == Some((n, field))
    {
      FieldOfExactly(line, n, field);
    }
  }

  lemma EnumExactly(doc: Document, name: string, values: set<string>, line: string, number: nat, after: Situation)
    ensures Step(doc, InEnum(name, values), line, number) == Ok((after.doc, after.state))
            <==> LineLeads(Situation(doc, InEnum(name, values)), line, after)
  {
    hide QuotedStrings.Quoted, HoldsStrings;
    EnumLine(doc, name, values, line, number);
    forall strings
      ensures QuotedStrings.Quoted(line, {}) == Ok(strings) <==> HoldsStrings(line, strings)
    {
      Held(line, strings);
    }
  }

  lemma Held(line: string, strings: set<string>)
    ensures QuotedStrings.Quoted(line, {}) == Ok(strings) <==> HoldsStrings(line, strings)
  {
    hide QuotedStrings.Quoted, AreSpans, SpansText, SpansStrings;
    QuotedExactly(line, strings);
  }

  lemma StepExactly(doc: Document, state: State, line: string, number: nat, after: Situation)
    requires Trimmed(line)
    ensures Step(doc, state, line, number) == Ok((after.doc, after.state))
            <==> LineLeads(Situation(doc, state), line, after)
  {
    hide LineLeads, Step, Trimmed;
    match state
    case Outside => OutsideExactly(doc, line, number, after);
    case InModel(name, fields) => ModelExactly(doc, name, fields, line, number, after);
    case InEnum(name, values) => EnumExactly(doc, name, values, line, number, after);
  }

  /** The line is read without the white space at its ends. */
  ghost predicate LeadsAt(situations: seq<Situation>, lines: seq<string>, i: nat)
    requires i < |lines| && i + 1 < |situations|
  {
    exists core :: IsCore(lines[i], core) && LineLeads(situations[i], core, situations[i + 1])
  }

  /** The situations before, between and after the lines. */
  ghost predicate Follows(situations: seq<Situation>, lines: seq<string>) {
    |situations| == |lines| + 1 && forall i | 0 <= i < |lines| :: LeadsAt(situations, lines, i)
  }

  lemma TrimmedLeads(before: Situation, line: string, after: Situation)
    ensures (exists core :: IsCore(line, core) && LineLeads(before, core, after))
            <==> LineLeads(before, Trim(line), after)
  {
    hide IsCore, LineLeads, Trim;
    forall core
      ensures IsCore(line, core) <==> core == Trim(line)
    {
      CoreExactly(line, core);
    }
  }

  lemma {:induction false} FollowedRun(situations: seq<Situation>, lines: seq<string>, number: nat)
    requires Follows(situations, lines)
    ensures var first, last := situations[0], situations[|lines|];
            Run(lines, number, first.doc, first.state) == Ok((last.doc, last.state))
  {
    hide Step, Trim, LineLeads, IsCore;
    if lines != [] {
      var first, second := situations[0], situations[1];
      assert LeadsAt(situations, lines, 0);
      TrimmedLeads(first, lines[0], second);
      StepExactly(first.doc, first.state, Trim(lines[0]), number + 1, second);
      FollowsOn(situations, lines);
      FollowedRun(situations[1..], lines[1..], number + 1);
    }
  }

  lemma FollowsOn(situations: seq<Situation>, lines: seq<string>)
    requires Follows(situations, lines) && lines != []
    ensures Follows(situations[1..], lines[1..])
  {
    hide LineLeads, IsCore;
    var later, others := situations[1..], lines[1..];
    forall i | 0 <= i < |others|
      ensures LeadsAt(later, others, i)
    {
      assert LeadsAt(situations, lines, i + 1);
      assert others[i] == lines[i + 1] && later[i] == situations[i + 1] && later[i + 1] == situations[i + 2];
    }
  }

  lemma {:induction false} RunFollowed(lines: seq<string>, number: nat, doc: Document, state: State)
      returns (situations: seq<Situation>)
    requires Run(lines, number, doc, state).Ok?
    ensures Follows(situations, lines) && situations[0] == Situation(doc, state)
    ensures var (endDoc, endState) := Run(lines, number, doc, state).value;
            situations[|lines|] == Situation(endDoc, endState)
  {
    hide Step, Trim, LineLeads, IsCore;
    if lines == [] {
      situations := [Situation(doc, state)];
    } else {
      var (nextDoc, nextState) := Step(doc, state, Trim(lines[0]), number + 1).value;
      var next := Situation(nextDoc, nextState);
      StepExactly(doc, state, Trim(lines[0]), number + 1, next);
      TrimmedLeads(Situation(doc, state), lines[0], next);
      var others := RunFollowed(lines[1..], number + 1, nextDoc, nextState);
      situations := [Situation(doc, state)] + others;
      FollowsBefore(situations, lines);
    }
  }

  lemma FollowsBefore(situations: seq<Situation>, lines: seq<string>)
    requires lines != [] && |situations| == |lines| + 1 && Follows(situations[1..], lines[1..])
    requires LeadsAt(situations, lines, 0)
    ensures Follows(situations, lines)
  {
    hide LineLeads, IsCore;
    var later, others := situations[1..], lines[1..];
    forall i | 0 <= i < |lines|
      ensures LeadsAt(situations, lines, i)
    {
      if i > 0 {
        assert LeadsAt(later, others, i - 1);
        assert others[i - 1] == lines[i] && later[i - 1] == situations[i] && later[i] == situations[i + 1];
      }
    }
  }

  /** The lines of the source lead from nothing to the document, with no declaration open and some model read. */
  ghost predicate ReadsAs(source: string, doc: Document) {
    doc.models != map[]
    && exists situations ::
         && Follows(situations, Lines(source))
         && situations[0] == Situation(Document(map[], map[]), Outside)
         && situations[|Lines(source)|] == Situation(doc, Outside)
  }

  /** A source is read as a document exactly when its lines say so. */
  lemma ParsedExactly(source: string, doc: Document)
    ensures Parsed(source) == Ok(doc) <==> ReadsAs(source, doc)
  {
    hide Run, Lines, LeadsAt;
    if Parsed(source) == Ok(doc) {
      var situations := RunFollowed(Lines(source), 0, EMPTY, Outside);
      assert situations[0] == Situation(Document(map[], map[]), Outside);
    }
    if ReadsAs(source, doc) {
      var situations :| Follows(situations, Lines(source))
                        && situations[0] == Situation(Document(map[], map[]), Outside)
                        && situations[|Lines(source)|] == Situation(doc, Outside);
      FollowedRun(situations, Lines(source), 0);
    }
  }

  /** The first line that cannot be read is the one whose failure, with its own number, is reported. */
  lemma {:induction false} FailingLine(lines: seq<string>, number: nat, doc: Document, state: State)
      returns (i: nat)
    requires Run(lines, number, doc, state).Err?
    ensures i < |lines| && Run(lines[..i], number, doc, state).Ok?
    ensures var (before, open) := Run(lines[..i], number, doc, state).value;
            var step := Step(before, open, Trim(lines[i]), number + i + 1);
            step.Err? && Run(lines, number, doc, state) == Err(step.error)
  {
    hide Step, Trim;
    var step := Step(doc, state, Trim(lines[0]), number + 1);
    if step.Err? {
      i := 0;
      assert lines[..0] == [];
    } else {
      var k := FailingLine(lines[1..], number + 1, step.value.0, step.value.1);
      i := k + 1;
      assert lines[..i][1..] == lines[1..][..k] && lines[..i][0] == lines[0];
    }
  }

  /** A source whose lines can all be read fails only for a declaration left open, or for lack of a model. */
  lemma EndFailure(source: string)
    ensures var end := Run(Lines(source), 0, EMPTY, Outside);
            && (end.Err? ==> Parsed(source) == Err(end.error))
            && (end.Ok? && !end.value.1.Outside? ==>
                  Parsed(source) == Err(Message("unterminated TypeSpec model or enum")))
            && (end.Ok? && end.value.1.Outside? && end.value.0.models == map[] ==>
                  Parsed(source) == Err(Message("TypeSpec source contains no models")))
  {
    hide Run, Lines;
  }
}

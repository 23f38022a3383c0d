/** The line-based reader of TypeSpec models and enums (`parse_typespec` in lib_part_03.rs). */
module TypeSpec {
  import opened Prelude
  import opened Strings
  import opened ParityErrors
  import QuotedStrings

  datatype Field = Field(required: bool, typeExpression: string)

  type Model = map<string, Field>

  datatype Document = Document(models: map<string, Model>, enums: map<string, set<string>>)

  datatype State = Outside | InModel(name: string, fields: Model) | InEnum(name: string, values: set<string>)

  const EMPTY := Document(map[], map[])

  predicate IsNameChar(c: char) {
    'a' <= c <= 'z' || 'A' <= c <= 'Z' || '0' <= c <= '9' || c == '_'
  }

  function TakeName(s: string): (name: string)
    ensures name <= s && forall i | 0 <= i < |name| :: IsNameChar(name[i])
  {
    if s != "" && IsNameChar(s[0]) then [s[0]] + TakeName(s[1..]) else ""
  }

  /** `declaration_name` */
  function DeclarationName(line: string, keyword: string): Option<string> {
    if keyword <= line then
      var name := TakeName(TrimStart(line[|keyword|..]));
      if name == "" then None else Some(name)
    else None
  }

  predicate Closes(line: string) {
    line == "}" || line == "};"
  }

  /** The field that a line of a model declares, if it declares one. */
  function FieldOf(line: string): Option<(string, Field)> {
    if line == "" || line[0] == '@' || line[|line| - 1] != ';' then None
    else
      var declaration := line[..|line| - 1];
      var before := Before(declaration, ':');
      if |before| == |declaration| then None
      else
        var namePart := Trim(before);
        var typePart := Trim(declaration[|before| + 1..]);
        if namePart == "" || exists i | 0 <= i < |namePart| :: IsWhitespace(namePart[i]) then None
        else if namePart[|namePart| - 1] == '?' then Some((namePart[..|namePart| - 1], Field(false, typePart)))
        else Some((namePart, Field(true, typePart)))
  }

  /** What one trimmed line does to the document and the state. */
  function Step(doc: Document, state: State, line: string, number: nat): Result<(Document, State), ParityError> {
    match state
    case Outside =>
      if "model " <= line && '{' in line then
        (match DeclarationName(line, "model ")
         case None => Err(InvalidDeclaration("model", number))
         case Some(name) => Ok((doc, InModel(name, map[]))))
      else if "enum " <= line && '{' in line then
        (match DeclarationName(line, "enum ")
         case None => Err(InvalidDeclaration("enum", number))
         case Some(name) => Ok((doc, InEnum(name, {}))))
      else Ok((doc, Outside))
    case InModel(name, fields) =>
      if Closes(line) then
        if name in doc.models then Err(Message("duplicate TypeSpec model " + name))
        else Ok((doc.(models := doc.models[name := fields]), Outside))
      else
        (match FieldOf(line)
         case None => Ok((doc, state))
         case Some((fieldName, field)) =>
           if fieldName in fields then Err(Message("duplicate TypeSpec field " + fieldName + " in model " + name))
           else Ok((doc, InModel(name, fields[fieldName := field]))))
    case InEnum(name, values) =>
      if Closes(line) then
        if name in doc.enums then Err(Message("duplicate TypeSpec enum " + name))
        else Ok((doc.(enums := doc.enums[name := values]), Outside))
      else
        match QuotedStrings.Quoted(line, {})
        case Err(error) => Err(error)
        case Ok(found) => Ok((doc, InEnum(name, values + found)))
  }

  /** The lines one after another; `number` is the number of the line before them. */
  function Run(lines: seq<string>, number: nat, doc: Document, state: State): Result<(Document, State), ParityError> {
    if lines == [] then Ok((doc, state))
    else
      match Step(doc, state, Trim(lines[0]), number + 1)
      case Err(error) => Err(error)
      case Ok((nextDoc, nextState)) => Run(lines[1..], number + 1, nextDoc, nextState)
  }

  function Finish(end: Result<(Document, State), ParityError>): Result<Document, ParityError> {
    match end
    case Err(error) => Err(error)
    case Ok((doc, state)) =>
      if !state.Outside? then Err(Message("unterminated TypeSpec model or enum"))
      else if doc.models == map[] then Err(Message("TypeSpec source contains no models"))
      else Ok(doc)
  }

  /** What `parse_typespec` returns. */
  function Parsed(source: string): Result<Document, ParityError> {
    Finish(Run(Lines(source), 0, EMPTY, Outside))
  }

  method ParseTypeSpec(source: string) returns (r: Result<Document, ParityError>)
    ensures r == Parsed(source)
  {
    hide FieldOf, QuotedStrings.Quoted, Trim, Lines;
    var lines := Lines(source);
    var document := EMPTY;
    var state := Outside;
    for index := 0 to |lines|
      invariant Run(lines[index..], index, document, state) == Run(lines, 0, EMPTY, Outside)
    {
      var line := Trim(lines[index]);
      assert lines[index..][1..] == lines[index + 1..];
      ghost var step := Step(document, state, line, index + 1);
      match state {
        case Outside =>
          if "model " <= line && '{' in line {
            var name := DeclarationName(line, "model ");
            if name.None? {
              return Err(InvalidDeclaration("model", index + 1));
            }
            state := InModel(name.value, map[]);
          } else if "enum " <= line && '{' in line {
            var name := DeclarationName(line, "enum ");
            if name.None? {
              return Err(InvalidDeclaration("enum", index + 1));
            }
            state := InEnum(name.value, {});
          }
        case InModel(name, fields) =>
          if Closes(line) {
            var repeated := name in document.models;
            document := document.(models := document.models[name := fields]);
            if repeated {
              return Err(Message("duplicate TypeSpec model " + name));
            }
            state := Outside;
          } else {
            var declared := FieldOf(line);
            if declared.Some? {
              var (fieldName, field) := declared.value;
              if fieldName in fields {
                return Err(Message("duplicate TypeSpec field " + fieldName + " in model " + name));
              }
              state := InModel(name, fields[fieldName := field]);
            }
          }
        case InEnum(name, values) =>
          if Closes(line) {
            var repeated := name in document.enums;
            document := document.(enums := document.enums[name := values]);
            if repeated {
              return Err(Message("duplicate TypeSpec enum " + name));
            }
            state := Outside;
          } else {
            var found := QuotedStrings.Scan(line);
            if found.Err? {
              return Err(found.error);
            }
            state := InEnum(name, values + found.value);
          }
      }
      assert step == Ok((document, state));
    }
    if !state.Outside? {
      return Err(Message("unterminated TypeSpec model or enum"));
    }
    if document.models == map[] {
      return Err(Message("TypeSpec source contains no models"));
    }
    r := Ok(document);
  }
}

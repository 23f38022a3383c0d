# Verification of the parity tool, the Shared Auth guard and the comment masker

This project models the hand-written logic of the repository in Dafny and proves what it keeps.

**The commercial-intake parity tool** (`tools/commercial-intake-parity`).

- Its JSON parser is a class with a position over bytes (`JsonParser`). Each method is proved against a function on
  the bytes still to be read (`JsonParsing`), and that function is proved to accept exactly the grammar of RFC 8259
  given as parse trees (`JsonGrammar`, `JsonCompleteness`, `JsonSoundness`). Every other text is refused with the one
  failure, at the one place, that its spelling determines (`JsonFailures`). Text is UTF-8 as in RFC 3629 (`Utf8`).
- Its printer appends to a buffer (`JsonPrinter`). Printing and parsing undo each other (`JsonRoundTrip`).
- Its string-literal scanner, its line-based TypeSpec parser, its name renaming, its type-expression stripping, its
  JSON pointer walker and its brace matcher follow, each with the loops of the source (`QuotedStrings`, `TypeSpec`,
  `TypeSpecNames`, `JsonPointer`, `InterfaceBlocks`), and then the theorems about them.
- The audit of a model pair reports PASS exactly when two tables of fields are equal (`ModelAuditExactness`), and lists
  exactly their differences (`ModelAuditEntries`). The receipt shows all that was found (`ReceiptContents`), fails
  closed, adds up and can be parsed back (`ReceiptTheorems`). Exactly the valid policies can be read
  (`PolicyRoundTrip`).
- What each reader accepts is also stated as a relation on its input, apart from the functions that compute it, and
  proved in both directions: lines and sources (`TypeSpecLines`, `TypeSpecReading`), type expressions (`FieldEnums`),
  schema definitions (`SchemaReading`), policies (`PolicyReading`), interfaces (`InterfaceBlocks`) and the layout of
  printed texts (`JsonLayout`).

**The Shared Auth guard** (`adapters/shared-auth-rust`). The two arms race under every schedule (`GuardRace`); the
entry points are compared with each other and with what callers may rely on (`Guard`), and who is let in, denied or
refused is given as an exact condition on the answers (`GuardAdmission`); the key-set cache is a
transition system over any number of callers that may be suspended, fail or be dropped at every await (`KeySetCache`),
and each call is followed through it with any steps of the others in between (`KeySetCalls`).

**The comment masker and the brace tracker** (`tools/fp-conformance`). `CommentMask` proves the line loop against a
character automaton, `LineNoise` says what the passes over line comments and string literals leave, `LongFunctions`
proves the function-length rule against the balance of braces.

Where the code does less than its comments or its design suggest, the model follows the code:

- After a wrong escape letter or hexadecimal digit the parser's position can be inside a character
  (`JsonBoundaries.FailureInsideCharacter`). `JsonStops.SplitsExactly` says for which texts: those that have a
  backslash up to which the parser reads everything, and after it bytes with `JsonBoundaries.SplitsEscape`. Without
  such bytes after any backslash it never happens (`JsonStops.SafeWithoutSplits`).
- Whether the audit calls a source missing depends on the words of an error, so a definition that exists can be called
  missing (`MissingSources.PresentDefinitionReported`: a property whose `$ref` dangles). `MissingSources.MissingSourceExactly`
  says for which schemas, and `MissingSources.PresentDefinitionExactly` for which of those that have the definition.
- `race_authentication` depends on the arrival order exactly when both arms succeed
  (`GuardRace.AuthenticationOrderMatters`).
- `camel_to_snake` can be undone exactly on the names that `TypeSpecNames.SnakeReversible` describes.
- The discrepancy count adds up sizes of sets of messages. It is the number of differing fields when field names hold
  neither white space, which parsed ones never do, nor an equals sign (`ModelAuditExactness.CountsDifferingFields`).

## Model

| member | source | states |
|---|---|---|
| Utf8.DecodeEncoded | tools/commercial-intake-parity/src/lib_part_01.rs:324-332 | decoding the UTF-8 bytes of any string gives the string back, so the parser may trust `as_bytes` |
| Utf8.EncodeDecoded | tools/commercial-intake-parity/src/lib_part_01.rs:187-193 | whatever `from_utf8` accepts is the encoding of what it returns |
| JsonParser.Parser.constructor | tools/commercial-intake-parity/src/lib_part_01.rs:74-80 | a new parser stands before the whole text |
| JsonParser.Parser.Peek | tools/commercial-intake-parity/src/lib_part_01.rs:309-311 | the first byte still to be read, if any |
| JsonParser.Parser.Next | tools/commercial-intake-parity/src/lib_part_01.rs:313-317 | returns the first byte still to be read and moves past it, or changes nothing at the end |
| JsonParser.Parser.ConsumeIf | tools/commercial-intake-parity/src/lib_part_01.rs:300-307 | moves past the byte exactly when it is the next one |
| JsonParser.Parser.Expect | tools/commercial-intake-parity/src/lib_part_01.rs:292-298 | moves past the byte, or fails without moving |
| JsonParser.Parser.SkipWhitespace | tools/commercial-intake-parity/src/lib_part_01.rs:286-290 | moves past exactly the longest run of the four white-space bytes |
| JsonParser.Parser.ConsumeKeyword | tools/commercial-intake-parity/src/lib_part_01.rs:277-284 | moves past the keyword exactly when the bytes begin with it |
| JsonParser.Parser.ParseHexQuad | tools/commercial-intake-parity/src/lib_part_01.rs:219-231 | the value of four hexadecimal digits, or the failure just after the first byte that is none |
| JsonParser.Parser.ParseUnicodeEscape | tools/commercial-intake-parity/src/lib_part_01.rs:199-217 | follows the specification of an escape, with both halves of a surrogate pair and every failure position |
| JsonParser.Parser.ParseString | tools/commercial-intake-parity/src/lib_part_01.rs:161-197 | follows the specification of a string on success and on failure, and never moves back |
| JsonParser.Parser.ParseNumber | tools/commercial-intake-parity/src/lib_part_01.rs:233-275 | follows the specification of a number on success and on failure |
| JsonParser.Parser.ParseValue | tools/commercial-intake-parity/src/lib_part_01.rs:92-114 | follows the specification of a value; every success moves the position forward, which ends the mutual recursion |
| JsonParser.Parser.ParseObject | tools/commercial-intake-parity/src/lib_part_01.rs:116-140 | follows the specification of an object, refusing a key that the object already has |
| JsonParser.Parser.ParseArray | tools/commercial-intake-parity/src/lib_part_01.rs:142-159 | follows the specification of an array |
| JsonParser.Parser.Parse | tools/commercial-intake-parity/src/lib_part_01.rs:82-90 | follows the specification of a text, refusing anything after the value |
| JsonParser.ParseJson | tools/commercial-intake-parity/src/lib_part_01.rs:334-336 | succeeds with a value exactly when the text is in the grammar and denotes that value, and never reports a decoding failure |
| JsonParser.ParsedJsonExact | tools/commercial-intake-parity/src/lib_part_01.rs:82-336 | the same for the function that specifies the parser: texts without a repeated key or an unpaired surrogate, and only those, are accepted |
| JsonParser.ErrorExact | tools/commercial-intake-parity/src/lib_part_01.rs:82-336 | the parser returns an error if and only if that error describes the text: what is wrong with it and the byte where that was noticed |
| JsonParser.ErrorPositionExact | tools/commercial-intake-parity/src/lib_part_01.rs:319-321 | a reported position is a character boundary if and only if the text has no backslash such that the parser reads everything up to it and the bytes after it split a character |
| JsonBoundaries.EscapeSplits | tools/commercial-intake-parity/src/lib_part_01.rs:169-231 | an escape stops inside a character if and only if its letter, or the byte at which one of its digit runs breaks off, is not ASCII |
| JsonStops.TextStop | tools/commercial-intake-parity/src/lib_part_01.rs:82-231 | whenever an escape fails, the text before it, cut after its backslash, is one that the parser reads to its end |
| JsonStops.TextReach | tools/commercial-intake-parity/src/lib_part_01.rs:82-231 | conversely, behind a text that ends with a backslash after which the parser wants a letter, a failing escape is what the parser reports, where it fails |
| JsonStops.SplitsExactly | tools/commercial-intake-parity/src/lib_part_01.rs:82-231 | the parser stops on a character boundary if and only if the text splits at no backslash |
| JsonStops.SafeWithoutSplits | tools/commercial-intake-parity/src/lib_part_01.rs:82-231 | when no backslash of the text is followed by bytes that split a character, every position is a boundary |
| JsonBoundaries.TextKept | tools/commercial-intake-parity/src/lib_part_01.rs:161-275 | on any string the "invalid UTF-8" and invalid-scalar failures are unreachable and the parser stays on character boundaries, but for the case above |
| JsonBoundaries.FailureInsideCharacter | tools/commercial-intake-parity/src/lib_part_01.rs:176-177 | the case above does occur: an input whose reported position is inside a character |
| JsonGrammar.PairsOneToOne | tools/commercial-intake-parity/src/lib_part_01.rs:201-211 | surrogate pairs stand for the scalars above 0xFFFF one to one (section 2.2 of RFC 2781) |
| JsonCompleteness.ValueComplete | tools/commercial-intake-parity/src/lib_part_01.rs:92-159 | the parser reads every parse tree with distinct keys, in front of anything that cannot continue a number, as the value that it denotes |
| JsonCompleteness.TextComplete | tools/commercial-intake-parity/src/lib_part_01.rs:82-90 | every text of the grammar is accepted with its value |
| JsonSoundness.ValueSound | tools/commercial-intake-parity/src/lib_part_01.rs:92-159 | whatever the parser accepts is spelled by a parse tree that denotes the returned value |
| JsonSoundness.TextSound | tools/commercial-intake-parity/src/lib_part_01.rs:82-90 | every accepted text is in the grammar and has been read to its end |
| JsonSoundness.ParsesExactlyTheGrammar | tools/commercial-intake-parity/src/lib_part_01.rs:82-275 | a text parses to a value if and only if it is in the grammar of sections 2 to 7 of RFC 8259 and denotes that value |
| JsonFailures.EscapeExactly | tools/commercial-intake-parity/src/lib_part_01.rs:169-231 | an escape fails exactly as it is spelled: the end, a letter without a meaning, a digit run that breaks off, an unpaired surrogate of either kind, each with where the parser stops |
| JsonFailures.CharsExactly | tools/commercial-intake-parity/src/lib_part_01.rs:161-197 | a string fails exactly when, behind readable pieces, the text ends, a control byte or an ill-formed character stands, or an escape fails |
| JsonFailures.NumberFailsExactly | tools/commercial-intake-parity/src/lib_part_01.rs:233-275 | a number fails exactly for a missing integer, a leading zero, or a point or exponent without digits, at that place |
| JsonFailures.ValueReadsExactly | tools/commercial-intake-parity/src/lib_part_01.rs:92-159 | at the front of any text a value is read up to `rest` if and only if a parse tree with distinct keys spells it up to there and `rest` cannot continue it |
| JsonFailures.TextFailsExactly | tools/commercial-intake-parity/src/lib_part_01.rs:82-159 | a text is refused with a failure at a place if and only if, behind values and keys that can be read, that is what is wrong there: a token, keyword, string or number, a missing colon, comma or bracket, a repeated key, or something after the value |
| KeyOrder.AscendingUnique | tools/commercial-intake-parity/src/lib_part_01.rs:382-401 | the iteration order of a `BTreeMap` is the one ascending list of its keys, in the order of their bytes |
| JsonPrinter.EscapeJsonString | tools/commercial-intake-parity/src/lib_part_01.rs:338-357 | appends the quoted string and changes nothing before it |
| JsonPrinter.RenderJson | tools/commercial-intake-parity/src/lib_part_01.rs:359-402 | appends the text of the value at a depth and changes nothing before it |
| JsonPrinter.RenderJsonPretty | tools/commercial-intake-parity/src/lib_part_01.rs:404-409 | the text of the value followed by a line break |
| JsonRoundTrip.PrettyTreeCorrect | tools/commercial-intake-parity/src/lib_part_01.rs:338-402 | the printed text is spelled by a parse tree with distinct keys that denotes the printed value, at every depth |
| JsonRoundTrip.PrintThenParse | tools/commercial-intake-parity/src/lib_part_01.rs:334-409 | parsing undoes printing for a value if and only if all its number texts are numbers of section 6 of RFC 8259 |
| JsonRoundTrip.ParseThenPrint | tools/commercial-intake-parity/src/lib_part_01.rs:334-409 | whatever was parsed survives printing and parsing again |
| JsonRoundTrip.PrintingIsInjective | tools/commercial-intake-parity/src/lib_part_01.rs:338-409 | two values with valid numbers that print alike are the same |
| JsonLayout.PrintedExactly | tools/commercial-intake-parity/src/lib_part_01.rs:338-402 | the printed text is the one text of its value whose parse tree is laid out so: keys in byte order, one item or member on a line, two spaces for each level, a space after a colon, and only the escapes that are needed, in their shortest form |
| QuotedStrings.CloseLiteral | tools/commercial-intake-parity/src/lib_part_03.rs:130-152 | the inner loop stops just after the first quotation mark that is not escaped, or at the end when there is none |
| QuotedStrings.Scan | tools/commercial-intake-parity/src/lib_part_03.rs:121-158 | computes the set of the literals of a line, or the first error |
| QuotedStrings.ScannerClosesWithParser | tools/commercial-intake-parity/src/lib_part_03.rs:130-152 | where the JSON parser ends a string, the scanner closes the literal |
| QuotedStrings.QuotedInterleaved | tools/commercial-intake-parity/src/lib_part_03.rs:121-158 | on escaped strings between fillers without quotation marks the scanner returns exactly the set of the strings |
| QuotedStrings.ScanFindsStrings | tools/commercial-intake-parity/src/lib_part_03.rs:145-148 | the failure for a literal that is not a string is unreachable |
| FieldEnums.QuotedExactly | tools/commercial-intake-parity/src/lib_part_03.rs:121-158 | the scanner returns a set if and only if the line divides into JSON string literals of those strings and characters that are no quotation mark |
| TypeSpec.ParseTypeSpec | tools/commercial-intake-parity/src/lib_part_03.rs:27-119 | the loop over the lines computes the run of the state machine, with every error and its line number |
| TypeSpecReading.ParsedExactly | tools/commercial-intake-parity/src/lib_part_03.rs:27-119 | a source is read as a document if and only if each of its lines, by the way it is spelled, leads from one situation to the next, from nothing to that document with no declaration open and some model read |
| TypeSpecReading.FailingLine | tools/commercial-intake-parity/src/lib_part_03.rs:36-111 | otherwise the first line that cannot be read is reported, with its own number |
| TypeSpecReading.EndFailure | tools/commercial-intake-parity/src/lib_part_03.rs:112-117 | or a declaration left open, or the lack of a model |
| TypeSpecLines.FieldOfExactly | tools/commercial-intake-parity/src/lib_part_03.rs:68-98 | a line of a model declares a field if and only if it spells a name without white space, a colon, a type and a semicolon, with any spacing |
| TypeSpecLines.HeaderRead | tools/commercial-intake-parity/src/lib_part_03.rs:18-59 | outside, a keyword, white space, a name and a brace somewhere behind it open a declaration of that name |
| TypeSpecLines.HeaderRefused | tools/commercial-intake-parity/src/lib_part_03.rs:37-57 | without a name the line is refused, under its number |
| TypeSpecLines.HeaderForms | tools/commercial-intake-parity/src/lib_part_03.rs:36-57 | there is no third kind of line that opens a declaration |
| TypeSpecLines.NoField | tools/commercial-intake-parity/src/lib_part_03.rs:68-72 | decorators, lines without a colon or a semicolon at the end, and lines whose name is blank or spaced declare nothing |
| TypeSpecLines.IgnorableAnywhere | tools/commercial-intake-parity/src/lib_part_03.rs:27-119 | whole lines that mean nothing where they stand can be put into any source: the document or the error stays, but for the number of a line |
| TypeSpecRoundTrip.ParsedIsValid | tools/commercial-intake-parity/src/lib_part_03.rs:27-119 | every parsed document has valid names and type expressions |
| TypeSpecRoundTrip.PrintedIsParsed | tools/commercial-intake-parity/src/lib_part_03.rs:27-119 | printing a valid document in multi-line form and parsing it gives it back |
| TypeSpecRoundTrip.ParsableExactlyWhenValid | tools/commercial-intake-parity/src/lib_part_03.rs:27-119 | a document is valid if and only if some source parses to it |
| TypeSpecComposition.Concatenation | tools/commercial-intake-parity/src/lib_part_03.rs:27-119 | after whole lines that end outside any declaration, the rest is read as if alone; the result is the disjoint union, or an error on a shared name |
| TypeSpecComposition.ParsedConcatenation | tools/commercial-intake-parity/src/lib_part_03.rs:27-119 | two sources parse together to the union of their documents, or to an error exactly when they share a name |
| TypeSpecNames.CamelToSnake | tools/commercial-intake-parity/src/lib_part_03.rs:160-173 | computes the snake-case name |
| TypeSpecNames.SnakeIdempotent | tools/commercial-intake-parity/src/lib_part_03.rs:160-173 | renaming twice is renaming once |
| TypeSpecNames.SnakeReversible | tools/commercial-intake-parity/src/lib_part_03.rs:160-173 | the renaming can be undone if and only if the name does not start with a capital and has no underscore before a small letter |
| TypeSpecNames.SnakeInjective | tools/commercial-intake-parity/src/lib_part_03.rs:160-173 | two such names are never renamed to one |
| TypeSpecNames.WordsRenamed | tools/commercial-intake-parity/src/lib_part_03.rs:160-173 | in a name made of words, every capitalised word but the first gets an underscore before it and all capitals become small |
| TypeSpecNames.StripTypeWrappers | tools/commercial-intake-parity/src/lib_part_03.rs:175-189 | the loop reaches the innermost text that is neither an array nor in parentheses |
| TypeSpecNames.WrappersStripped | tools/commercial-intake-parity/src/lib_part_03.rs:175-189 | any nesting of array marks and padded parentheses is taken off, and leaves a name that is not wrapped itself |
| JsonPointer.FollowPointer | tools/commercial-intake-parity/src/lib_part_03.rs:200-210 | the loop over the parts walks the unescaped keys, with the error of the first that fails |
| JsonPointer.UnescapeInvertsEscape | tools/commercial-intake-parity/src/lib_part_03.rs:206 | the two ordered replacements invert escaping on every key |
| JsonPointer.OrderOfReplacementsMatters | tools/commercial-intake-parity/src/lib_part_03.rs:206 | in the other order they do not |
| JsonPointer.PointerWalksPath | tools/commercial-intake-parity/src/lib_part_03.rs:200-210 | the pointer of any path of arbitrary keys leads where walking the keys leads (sections 3 and 4 of RFC 6901) |
| SchemaReading.ResolveExactly | tools/commercial-intake-parity/src/lib_part_03.rs:200-210 | a reference leads to a value if and only if its parts spell the keys of a way of objects from the root to that value |
| SchemaFields.StringsFromExact | tools/commercial-intake-parity/src/lib_part_02.rs:34-41 | an array yields the set of its elements exactly when all of them are strings |
| SchemaReading.StringSetExactly | tools/commercial-intake-parity/src/lib_part_02.rs:34-41 | a value is read as a set of strings if and only if it is an array of exactly those strings |
| SchemaReading.EnumValuesExactly | tools/commercial-intake-parity/src/lib_part_03.rs:212-233 | a property has enum values if and only if what it stands for, after its reference, allows exactly them: a string constant, else the strings of its enum, else nothing |
| SchemaFields.FieldsFromExact | tools/commercial-intake-parity/src/lib_part_04.rs:24-35 | reading properties succeeds exactly when every one has readable enum values, and yields one field for each |
| SchemaFields.FieldsTable | tools/commercial-intake-parity/src/lib_part_04.rs:7-36 | the table has the properties of the definition, each with its enum values, required exactly when the definition lists its name |
| SchemaReading.FieldsExactly | tools/commercial-intake-parity/src/lib_part_04.rs:7-36 | a definition is read as a table if and only if it spells that table: one field for each property, with its values, required when the list has its name |
| ModelAudits.TypeSpecEnumValues | tools/commercial-intake-parity/src/lib_part_03.rs:191-198 | computes the literals of the type expression, or else the values of the enum that it names |
| FieldEnums.NamedEnum | tools/commercial-intake-parity/src/lib_part_03.rs:191-198 | a name behind any wrappers has the values of the declared enum of that name, and none when there is no such enum |
| FieldEnums.LiteralEnums | tools/commercial-intake-parity/src/lib_part_03.rs:191-195 | an expression with string literals has exactly their strings, whatever enums there are |
| FieldEnums.BadLiteral | tools/commercial-intake-parity/src/lib_part_03.rs:192 | an expression is refused if and only if it does not divide into literals and other characters |
| ModelAudits.LinkFields | tools/commercial-intake-parity/src/lib_part_05.rs:30-44 | the first loop computes the link from mapped names to fields, or the first collision in key order |
| ModelAudits.LinkExact | tools/commercial-intake-parity/src/lib_part_05.rs:30-44 | linking fails if and only if two fields map to one name, and otherwise links each field once |
| ModelAudits.ReversibleNamesLink | tools/commercial-intake-parity/src/lib_part_05.rs:30-44 | a pair without renames whose field names can be renamed back never collides |
| ModelAudits.PlainNamesLink | tools/commercial-intake-parity/src/lib_part_05.rs:30-44 | nor does one whose names have no underscore and start with no capital |
| ModelAuditEntries.LinkUnderRenames | tools/commercial-intake-parity/src/lib_part_05.rs:30-44 | each field is linked under the name that the policy gives it, and otherwise under its snake-case name |
| ModelAuditEntries.CollisionReported | tools/commercial-intake-parity/src/lib_part_05.rs:38-43 | of several collisions the first in the order of the names is reported, with both names and the shared target |
| ModelAudits.CompareField | tools/commercial-intake-parity/src/lib_part_05.rs:46-83 | one turn of the second loop adds exactly the entries of that field; the guard for empty enum sets changes nothing |
| ModelAudits.CompareFields | tools/commercial-intake-parity/src/lib_part_05.rs:46-96 | both loops together compute the four sets of entries, or the first error |
| ModelAudits.AuditModelPair | tools/commercial-intake-parity/src/lib_part_05.rs:1-97 | computes the audit, with the two ways to stop for a missing source |
| ModelAuditEntries.AuditEntries | tools/commercial-intake-parity/src/lib_part_05.rs:46-96 | the audit holds, under each heading and with its text, one entry for each schema field that nothing maps to, each mapped field that the schema lacks, and each field whose requiredness or enum values differ, except those that the policy allows |
| ModelAuditEntries.AuditFailure | tools/commercial-intake-parity/src/lib_part_05.rs:19-70 | which error ends an audit: the definition's, the collision, or the bad literal of the first compared field in the order of the targets |
| ModelAuditExactness.PassMeansEqualTables | tools/commercial-intake-parity/src/lib_part_05.rs:30-96 | when the sources exist, the fields parse and no names collide, PASS holds if and only if the two field tables are equal apart from what the three allow lists excuse |
| ModelAuditExactness.PassMeansSameTable | tools/commercial-intake-parity/src/lib_part_05.rs:30-96 | with empty allow lists, PASS means that the tables are the same map |
| MissingSources.EnumValuesSay | tools/commercial-intake-parity/src/lib_part_03.rs:212-233 | the error of a property has the words "is required" if and only if its `$ref` is internal and stops at an absent key, or is external and has the words itself |
| MissingSources.FieldsSay | tools/commercial-intake-parity/src/lib_part_04.rs:7-36 | the error for a definition has those words exactly for the schemas that `SchemaSays` describes: parts are absent, the name has the words, or the first unreadable property has such a reference |
| MissingSources.MissingSourceExactly | tools/commercial-intake-parity/src/lib_part_05.rs:15-28 | a source is called missing if and only if the model is not declared or the schema is one of those; then the audit fails with that one entry |
| MissingSources.PresentDefinitionExactly | tools/commercial-intake-parity/src/lib_part_05.rs:19-28 | a definition with properties is called missing if and only if its list of required names is malformed and its own name has the words, or the list is readable and the first unreadable property has such a reference |
| MissingSources.AbsentDefinitionReported | tools/commercial-intake-parity/src/lib_part_05.rs:19-28 | a definition that `$defs` lacks is called missing |
| MissingSources.PresentDefinitionReported | tools/commercial-intake-parity/src/lib_part_05.rs:19-28 | so is one that exists, when a property refers to `#/$defs/Gone` |
| ModelAuditExactness.PassesExactlyWithoutDiscrepancies | tools/commercial-intake-parity/src/lib_part_04.rs:91-111 | the status is PASS if and only if the discrepancy count is zero |
| ModelAuditExactness.EntriesCountFields | tools/commercial-intake-parity/src/lib_part_04.rs:105-111 | the sizes of three sets of entries are numbers of fields: no two fields give one entry |
| ModelAuditExactness.EnumEntriesCountFields | tools/commercial-intake-parity/src/lib_part_04.rs:105-111 | so is the size of the set of enum entries, for names without an equals sign |
| ModelAuditExactness.ParsedNamesCount | tools/commercial-intake-parity/src/lib_part_05.rs:30-96 | parsed field names hold no white space, and the link is one to one |
| ModelAuditExactness.CountsDifferingFields | tools/commercial-intake-parity/src/lib_part_04.rs:105-111 | for a parsed document without an equals sign in a field name, the discrepancy count is the number of fields that either side lacks or that differ in requiredness or enum values |
| InterfaceBlocks.StaysOpen | tools/commercial-intake-parity/src/lib_part_04.rs:51-77 | before the braces balance the depth is at least one, so `saturating_sub` never clamps |
| InterfaceBlocks.MatchBraces | tools/commercial-intake-parity/src/lib_part_04.rs:51-77 | the loop ends at the least prefix whose braces outside string literals balance, and fails exactly when there is none |
| InterfaceBlocks.InterfaceBlock | tools/commercial-intake-parity/src/lib_part_04.rs:38-78 | computes the block, or the error of the first header that is missing |
| InterfaceBlocks.HeadersExactly | tools/commercial-intake-parity/src/lib_part_04.rs:38-50 | the interface is the first at or after the first marker of its route, the brace the first at or after the interface; each missing part has its own error |
| InterfaceBlocks.CodeCounts | tools/commercial-intake-parity/src/lib_part_04.rs:54-76 | outside literals every brace counts |
| InterfaceBlocks.LiteralCountsNothing | tools/commercial-intake-parity/src/lib_part_04.rs:55-67 | a literal counts for nothing and ends where the scanner of literals ends it |
| InterfaceBlocks.BlockExact | tools/commercial-intake-parity/src/lib_part_04.rs:38-78 | for every source the block is the text from that interface to the least balanced prefix from that brace, or one of the four errors |
| OperationAudits.SignatureExact | tools/commercial-intake-parity/src/lib_part_05.rs:137-151 | the block splits into a part up to the last blank line, the prefix without a blank line, the operation up to its first semicolon, and the rest; the name is all before that semicolon unless it has one itself |
| OperationAudits.SignatureExactly | tools/commercial-intake-parity/src/lib_part_05.rs:137-151 | the operation is the first of its name, up to the first semicolon behind it, and the prefix begins behind the last blank line before it; each missing part has its own error |
| OperationAudits.AuditOperation | tools/commercial-intake-parity/src/lib_part_05.rs:153-217 | computes the set of discrepancies of an operation |
| OperationAudits.OperationPasses | tools/commercial-intake-parity/src/lib_part_05.rs:153-217 | that set is empty if and only if the interface declares all that the policy demands |
| OperationAudits.DiscrepanciesExactly | tools/commercial-intake-parity/src/lib_part_05.rs:153-217 | exactly the texts of the unmet demands are listed, or the one failure to find the block or the operation |
| Receipts.AuditPublicationSection | tools/commercial-intake-parity/src/lib_part_06.rs:1-61 | computes the publication section and its count, or the first error |
| Receipts.PublicationPasses | tools/commercial-intake-parity/src/lib_part_06.rs:5-44 | nothing is wrong if and only if the draft and the identifier are right and all demanded definitions are there |
| ReceiptContents.PublicationExactly | tools/commercial-intake-parity/src/lib_part_06.rs:1-61 | a publication has a section if and only if its draft, identifier and definitions can be read; the section shows them, exactly the faults with their texts, and their number |
| Receipts.AuditContracts | tools/commercial-intake-parity/src/lib_part_06.rs:63-166 | computes the receipt or the first error, in the order of the source |
| ReceiptContents.ReceiptContents | tools/commercial-intake-parity/src/lib_part_06.rs:63-166 | every member of a receipt: each model section has the names of its pair and five ascending lists with exactly the entries of its audit, each operation section its demands and discrepancies, and format, checks, publication, status and all six numbers of the summary are what was found |
| ReceiptContents.ReceiptExactly | tools/commercial-intake-parity/src/lib_part_06.rs:63-114 | there is a receipt if and only if the sources are read, the schema uses the draft, every section can be audited, and the reviewed status is PASS exactly when nothing is found |
| ReceiptContents.FirstFailure | tools/commercial-intake-parity/src/lib_part_06.rs:69-77 | the first source that cannot be read is reported |
| ReceiptTheorems.ModelsListed | tools/commercial-intake-parity/src/lib_part_04.rs:105-136 | the entries that the model sections list add up to the model count |
| ReceiptTheorems.OperationsListed | tools/commercial-intake-parity/src/lib_part_05.rs:118-135 | the entries that the operation sections list add up to the operation count |
| ReceiptTheorems.ReceiptFailsClosedAndAddsUp | tools/commercial-intake-parity/src/lib_part_06.rs:63-166 | a receipt has the reviewed status; that is PASS if and only if every section passed; the text of the total denotes the number of listed entries; the printed receipt parses back to itself |
| Policies.PairsRepeat | tools/commercial-intake-parity/src/lib_part_02.rs:199-204 | the loop finds a repeated pair if and only if two pairs have the same names |
| Policies.OperationsRepeat | tools/commercial-intake-parity/src/lib_part_02.rs:205-216 | the same for operations |
| Policies.ParsePolicy | tools/commercial-intake-parity/src/lib_part_02.rs:112-225 | computes the policy or the first error |
| PolicyReading.PolicyExactly | tools/commercial-intake-parity/src/lib_part_02.rs:112-225 | a value is read as a policy if and only if it spells that policy: an absent table or list is empty, a method may be in any letter case, other members do not matter |
| PolicyReading.OmissionsRead | tools/commercial-intake-parity/src/lib_part_02.rs:43-75 | whatever empty members of pairs and operations are left out and however methods are capitalised, the same policy is read |
| PolicyRoundTrip.PoliciesReadExactlyWhenValid | tools/commercial-intake-parity/src/lib_part_02.rs:112-225 | a policy is valid if and only if some JSON value is read as it, and then the written policy is one |
| PolicyRoundTrip.PolicyFileIsRead | tools/commercial-intake-parity/src/lib_part_02.rs:112-225 | the printed text of a valid policy is parsed and read back to the policy |
| GuardIdentity.Dedup | adapters/shared-auth-rust/src/lib.rs:808-811 | on a sorted list, `dedup` leaves the strictly ascending list of the same elements |
| GuardIdentity.SameRoles | adapters/shared-auth-rust/src/lib.rs:805-813 | true if and only if the two lists have the same set of elements, for every order and multiplicity |
| GuardIdentity.UniqueMeansDistinct | adapters/shared-auth-rust/src/lib.rs:831-835 | lists that pass the check have no duplicates |
| GuardRace.RaceAuthentication | adapters/shared-auth-rust/src/lib.rs:336-386 | for every schedule the loop gives the decision of the first arm that succeeds in time, in at most two steps; the exit for two finished arms is unreachable |
| GuardRace.RaceAuthorization | adapters/shared-auth-rust/src/lib.rs:388-450 | for every schedule the decision depends only on which arms arrived in time, after at most two steps; the late forbidden arm and the exit for two finished arms are unreachable |
| GuardRace.TwoFailures | adapters/shared-auth-rust/src/lib.rs:697-705 | two failures end unauthenticated exactly when both found the credential invalid |
| GuardRace.AuthorizationOrderIndependent | adapters/shared-auth-rust/src/lib.rs:388-450 | without the deadline both arrival orders give the same decision, under the equality of the source |
| GuardRace.AuthenticationOrderMatters | adapters/shared-auth-rust/src/lib.rs:336-386 | without the deadline both arrival orders give the same decision if and only if not both arms succeed |
| GuardRace.DeadlineOnlyDegrades | adapters/shared-auth-rust/src/lib.rs:388-450 | the deadline can only replace a decision by its own degraded one, and nobody is let in without the exchange |
| Guard.ValidatedIsTrusted | adapters/shared-auth-rust/src/lib.rs:767-786 | a validated identity is of the configured project, with assurance level 1 to 3 and duplicate-free roles and methods |
| GuardAdmission.ValidatedExactly | adapters/shared-auth-rust/src/lib.rs:767-835 | an identity is returned unchanged if and only if it meets every demand, spelled out on its fields, and is invalid otherwise |
| Guard.ExchangedIsTrusted | adapters/shared-auth-rust/src/lib.rs:529-582 | so is every identity that the exchange returns, with a required role when one is demanded, and the upgrade carries its session |
| GuardAdmission.ExchangeExactly | adapters/shared-auth-rust/src/lib.rs:529-582 | the exchange returns an identity and upgrade if and only if the answers agree on them; it says forbidden exactly when only a role is missing, and invalid exactly when the credential is refused |
| GuardAdmission.DirectExactly | adapters/shared-auth-rust/src/lib.rs:584-629 | the same for direct verification, with every field of its identity |
| Guard.LocalIsTrusted | adapters/shared-auth-rust/src/lib.rs:452-477 | so is every identity that local verification returns, before and after the refresh of the keys |
| GuardAdmission.LocalExactly | adapters/shared-auth-rust/src/lib.rs:452-477 | local verification returns an identity if and only if the header is accepted and the deciding keys (the pinned ones, or the cached ones, or refreshed ones when those do not know the key) vouch for acceptable claims; it fails with the keys exactly when those keys cannot be had |
| Guard.AuthorizedIsTrusted | adapters/shared-auth-rust/src/lib.rs:306-334 | under every schedule, whoever `authorize` lets in is a trusted Shared Auth identity with a required role; a session is upgraded if and only if the exchange won |
| GuardAdmission.AuthorizeExactly | adapters/shared-auth-rust/src/lib.rs:306-334 | for every token, answer and schedule: who is let in by `authorize`, who is denied, who is unauthenticated, and when it degrades and why |
| GuardAdmission.AuthenticateSharedExactly | adapters/shared-auth-rust/src/lib.rs:278-300 | the same for `authenticate_shared`, which never falls back to direct verification |
| GuardAdmission.AuthenticateExactly | adapters/shared-auth-rust/src/lib.rs:260-268 | the same for `authenticate`, where the first success in time decides |
| Guard.UpgradeNeedsSharedAuth | adapters/shared-auth-rust/src/lib.rs:260-314 | at no entry point is a session upgraded without an authenticated Shared Auth identity |
| Guard.DirectHasNoPrivilege | adapters/shared-auth-rust/src/lib.rs:584-629 | a directly verified identity has no roles, no session and no upgrade, at `authenticate` |
| Guard.ExchangeWithRole | adapters/shared-auth-rust/src/lib.rs:573-576 | demanding a role only turns an identity without one into a denial |
| Guard.AuthorizeRefinesShared | adapters/shared-auth-rust/src/lib.rs:278-314 | on the same answers and without the deadline `authorize` lets in exactly those whom `authenticate_shared` lets in and who have a required role, denies the others of them, and nobody else |
| Guard.DeadlineLetsInNobody | adapters/shared-auth-rust/src/lib.rs:278-314 | with any deadline, whoever `authorize` lets in is whom `authenticate_shared` lets in without one |
| KeySetCache.LockKept | adapters/shared-auth-rust/src/lib.rs:489-519 | every step keeps the refresh mutex with exactly the caller that is between taking and releasing it |
| KeySetCache.StampsKept | adapters/shared-auth-rust/src/lib.rs:510-519 | every step keeps the cached set non-empty and its stamp no later than now and than any stamp about to be stored |
| KeySetCache.LogKept | adapters/shared-auth-rust/src/lib.rs:479-527 | every step keeps what the log of fetches, stores and hits promises |
| KeySetCache.InvariantAlongRuns | adapters/shared-auth-rust/src/lib.rs:479-527 | these hold along every run |
| KeySetCache.EveryRun | adapters/shared-auth-rust/src/lib.rs:479-527 | over all interleavings with forced callers, failed fetches and dropped callers: at most one caller fetches, no empty set is cached or returned, stamps never go back, a hit is the set stored last and still fresh, and a fetch that was not forced never follows a stamp by less than one time to live |
| KeySetCache.LockIsNotLost | adapters/shared-auth-rust/src/lib.rs:489 | a caller waiting for the mutex can take it, or another caller holds it at a stage that can go on or be dropped |
| KeySetCache.Cell.CurrentKeys | adapters/shared-auth-rust/src/lib.rs:479-527 | without interference: a fresh set is returned and kept, otherwise the fetched set is stamped, stored and returned, or nothing changes |
| KeySetCache.AloneIsSequential | adapters/shared-auth-rust/src/lib.rs:479-527 | the run of one caller alone ends with that cache and that answer |
| KeySetCalls.OthersKeep | adapters/shared-auth-rust/src/lib.rs:489-519 | whatever the others do, they do not move a caller, and while it holds the mutex they do not change the cached set |
| KeySetCalls.FirstLookDecides | adapters/shared-auth-rust/src/lib.rs:483-489 | among any steps of others, a call that is not forced ends with the cached set if that is young at the first look; every other call waits for the mutex |
| KeySetCalls.SecondLookDecides | adapters/shared-auth-rust/src/lib.rs:489-494 | once the mutex is free the call gets on, and ends with the set that is cached by then if that is young and the call is not forced; otherwise it fetches, alone |
| KeySetCalls.FailureRefuses | adapters/shared-auth-rust/src/lib.rs:500-512 | a failed or empty answer refuses the call, leaves the cached set and gives the mutex back |
| KeySetCalls.AnswerStored | adapters/shared-auth-rust/src/lib.rs:511-519 | an answer with keys is stored and returned, stamped with the time of the answer however long the write lock takes, and gives the mutex back |
| CommentMask.LineByLine | tools/fp-conformance/fp_conformance.py:157-188 | a line break is no part of a delimiter, so the automaton may read a file line by line |
| CommentMask.BlankingCreatesNone | tools/fp-conformance/fp_conformance.py:164-178 | blanking a comment creates no opener before its end, so every pass of the inner loop makes progress |
| CommentMask.BlankComments | tools/fp-conformance/fp_conformance.py:171-182 | the inner loop ends, and leaves the text outside comments and the flag |
| CommentMask.StripBlocks | tools/fp-conformance/fp_conformance.py:163-182 | the block-comment part of one line, from either state |
| CommentMask.StripNoise | tools/fp-conformance/fp_conformance.py:157-188 | one output line for each input line, the passes applied to it in the carried state; the code lines are those whose output is not blank |
| CommentMask.KeptFollowsAutomaton | tools/fp-conformance/fp_conformance.py:163-182 | on one line the flag is the automaton's, and the text is its mask up to a comment left open |
| CommentMask.CarriedFollowsAutomaton | tools/fp-conformance/fp_conformance.py:162-182 | the carried flag is the automaton's on the text of all the lines before |
| CommentMask.MaskFollowsAutomaton | tools/fp-conformance/fp_conformance.py:157-182 | every line's text is the automaton's mask of it, in the state that the text before leaves |
| CommentMask.CodeLinesExactly | tools/fp-conformance/fp_conformance.py:183-188 | a line is a code line if and only if some character that is no white space stands outside every block comment of the file and before any line comment of its line |
| LineNoise.CommentFromExact | tools/fp-conformance/fp_conformance.py:151 | the pattern for line comments matches at the first two slashes that no colon precedes, and nowhere if there are none |
| LineNoise.LiteralEndExact | tools/fp-conformance/fp_conformance.py:154 | behind a mark a literal ends if and only if the pattern matches: steps that are escapes or plain characters, and then the same mark |
| LineNoise.LiteralComplete | tools/fp-conformance/fp_conformance.py:154 | the pattern has at most one match behind a mark |
| LineNoise.LiteralsBlanked | tools/fp-conformance/fp_conformance.py:184 | however a text divides into literals and other characters, the pass empties the literals and keeps the rest |
| LineNoise.EveryTextDivides | tools/fp-conformance/fp_conformance.py:184 | and every text divides so |
| LineNoise.HoldsCodeExactly | tools/fp-conformance/fp_conformance.py:183-187 | what is left of a line is not blank if and only if it has a character that is no white space before any line comment |
| LongFunctions.SpansApart | tools/fp-conformance/fp_conformance.py:524-539 | the spans of two functions that count are apart |
| LongFunctions.OneOpen | tools/fp-conformance/fp_conformance.py:521-539 | at no line are two functions open |
| LongFunctions.LongFunctions | tools/fp-conformance/fp_conformance.py:515-539 | reports exactly the functions that close more than 60 lines after they open, in order and without overlap |

## Left out

- JsonParser.ParseJson: an error keeps its kind and byte position; its wording is not modelled. The depth of the recursion and the width of `usize` are not bounded.
- TypeSpec.ParseTypeSpec: the error for an invalid declaration keeps its keyword and its line number, not its wording.
- QuotedStrings.Scan: the source walks bytes and the model characters; the delimiters are ASCII, so both stop at the same places. The same holds for `TypeSpec.ParseTypeSpec`, `InterfaceBlocks.MatchBraces` and `OperationAudits.AuditOperation`.
- ModelAudits.AuditModelPair: the text that `{:?}` writes for a set or a string is a parameter of which nothing is assumed.
- ModelAuditExactness.EnumEntriesCountFields: needs field names without an equals sign, because an arbitrary `{:?}` text after the sign could make two entries equal.
- GuardIdentity.SameRoles: `sort_unstable` is modelled by a function that sorts by insertion; equal strings cannot be told apart, so any sort leaves the same list.
- Guard.AuthorizedIsTrusted: HTTP, JSON decoding, base64, header decoding and signature checking are inputs (`World`, `Response`, `KeySet`); what one key set says about the token at hand is all that a key set is. The elapsed time is an input too.
- GuardRace.RaceAuthentication: a schedule is the list of the arms that finish before the deadline, in their order; the polling of `tokio::select!` is not modelled further.
- KeySetCache.EveryRun: the read and write locks of the cache are held for one step each, so they appear as atomic steps; time is a natural number that never goes back.
- KeySetCache.Cell.CurrentKeys: the branch for pinned keys is in `Guard.CurrentKeys`.
- CommentMask.StripNoise: `re.sub` with the two fixed patterns is a function for each pattern; the search of the regular expression engine is not modelled.
- LongFunctions.LongFunctions: whether a line matches the pattern of a function header, and the name in it, are inputs.
- PolicyReading.PolicyExactly: says when a policy is refused, not with which words; the words are those of the function that `Policies.ParsePolicy` follows. The same holds for `SchemaReading.FieldsExactly`, but for the words that `MissingSources` is about.
- Policies.ParsePolicy: iterator chains are functions, and the format, a constant in every policy that is read, is not stored.
- Receipts.AuditContracts: the tables of a `BTreeMap` are maps; their order is in `KeyOrder.Sorted`.
- `validate_config`, the constructors of the guard, `Debug` and `Display` texts: they would only add easy members.
- The rule catalogue, the budget file and the report of `fp_conformance.py`, and `main.rs` of the parity tool: arguments, files and regular expressions.
- Everything under `generated/`, and the lock and election protocols that the README files describe: no code for them is in the repository.

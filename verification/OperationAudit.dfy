/** The checks of one operation (`operation_signature` and `audit_operation` in lib_part_05.rs). */
module OperationAudits {
  import opened Prelude
  import opened Strings
  import opened InterfaceBlocks
  import KeyOrder

  datatype OperationRequirement = OperationRequirement(
    route: string,
    subroute: Option<string>,
    verb: string,
    operation: string,
    headers: set<string>,
    bodyModel: Option<string>,
    audience: string)

  /** What stands before the operation, from the last blank line on, and the operation up to its semicolon. */
  function OperationSignature(block: string, operation: string): Result<(string, string), string> {
    match Find(block, operation + "(")
    case None => Err("operation " + operation + " is missing")
    case Some(start) =>
      match Find(block[start..], ";")
      case None => Err("operation " + operation + " has no terminating semicolon")
      case Some(offset) =>
        var end := start + offset + 1;
        var blank := FindLast(block[..start], "\n\n", start);
        var prefixStart := if blank.Some? then blank.value + 2 else 0;
        Ok((block[prefixStart..start], block[start..end]))
  }

  function HeaderMarker(header: string): string {
    "@header(\"" + header + "\")"
  }

  function NoHeader(header: string): string {
    "missing required header " + header
  }

  function MissingHeaders(signature: string, headers: set<string>): set<string> {
    set h | h in headers && !Contains(signature, HeaderMarker(h)) :: NoHeader(h)
  }

  function NoDecorator(verb: string): string {
    "missing method decorator @" + verb
  }

  function NoRoute(subroute: string): string {
    "missing operation route decorator " + RouteMarker(subroute)
  }

  function NoBody(model: string): string {
    "missing body model " + model
  }

  function OtherAudience(audience: string, observed: string): string {
    "audience mismatch: policy=" + audience + " route-derived=" + observed
  }

  function OnlyIf(condition: bool, entry: string): set<string> {
    if condition then {entry} else {}
  }

  function ObservedAudience(route: string): string {
    if "/v1/admin/" <= route then "admin" else "public"
  }

  function SignatureDiscrepancies(prefix: string, signature: string, required: OperationRequirement): set<string> {
    OnlyIf(!Contains(prefix, "@" + required.verb), NoDecorator(required.verb))
    + (match required.subroute
       case None => {}
       case Some(subroute) =>
         OnlyIf(!Contains(prefix, RouteMarker(subroute)), NoRoute(subroute)))
    + MissingHeaders(signature, required.headers)
    + (match required.bodyModel
       case None => {}
       case Some(model) =>
         OnlyIf(!Contains(signature, "@body") || !Contains(signature, model), NoBody(model)))
    + OnlyIf(ObservedAudience(required.route) != required.audience,
        OtherAudience(required.audience, ObservedAudience(required.route)))
  }

  /** The discrepancies that `audit_operation` lists. */
  ghost function Discrepancies(source: string, required: OperationRequirement): set<string> {
    match BlockOf(source, required.route)
    case Err(error) => {error}
    case Ok(block) =>
      match OperationSignature(block, required.operation)
      case Err(error) => {error}
      case Ok((prefix, signature)) => SignatureDiscrepancies(prefix, signature, required)
  }

  method AuditOperation(source: string, required: OperationRequirement) returns (discrepancies: set<string>)
    ensures discrepancies == Discrepancies(source, required)
  {
    hide Contains, Find, FindLast, NoDecorator, NoRoute, NoBody, OtherAudience, ObservedAudience, RouteMarker, BlockOf,
      OperationSignature, MissingHeaders;
    discrepancies := {};
    var block := InterfaceBlock(source, required.route);
    if block.Err? {
      return {block.error};
    }
    var found := OperationSignature(block.value, required.operation);
    if found.Err? {
      return {found.error};
    }
    var (prefix, signature) := found.value;
    if !Contains(prefix, "@" + required.verb) {
      discrepancies := discrepancies + {NoDecorator(required.verb)};
    }
    if required.subroute.Some? && !Contains(prefix, RouteMarker(required.subroute.value)) {
      discrepancies := discrepancies + {NoRoute(required.subroute.value)};
    }
    var missing := FindMissingHeaders(signature, required.headers);
    discrepancies := discrepancies + missing;
    if required.bodyModel.Some? && (!Contains(signature, "@body") || !Contains(signature, required.bodyModel.value)) {
      discrepancies := discrepancies + {NoBody(required.bodyModel.value)};
    }
    if ObservedAudience(required.route) != required.audience {
      discrepancies := discrepancies + {OtherAudience(required.audience, ObservedAudience(required.route))};
    }
  }

  method FindMissingHeaders(signature: string, headers: set<string>) returns (missing: set<string>)
    ensures missing == MissingHeaders(signature, headers)
  {
    hide Contains, HeaderMarker, NoHeader, MissingHeaders, KeyOrder.Ascending, KeyOrder.Sorted, KeyOrder.Elements;
    missing := {};
    var names := KeyOrder.Sorted(headers);
    MissingAtEnds(signature, headers, names);
    for index := 0 to |names|
      invariant missing == MissingHeaders(signature, KeyOrder.Elements(names[..index]))
    {
      MissingStep(signature, names, index);
      if !Contains(signature, HeaderMarker(names[index])) {
        missing := missing + {NoHeader(names[index])};
      }
    }
  }

  lemma MissingStep(signature: string, names: seq<string>, i: nat)
    requires i < |names|
    ensures MissingHeaders(signature, KeyOrder.Elements(names[..i + 1]))
            == MissingHeaders(signature, KeyOrder.Elements(names[..i]))
               + if Contains(signature, HeaderMarker(names[i])) then {} else {NoHeader(names[i])}
  {
    hide Contains, HeaderMarker, NoHeader;
    assert names[..i + 1] == names[..i] + [names[i]];
  }

  lemma MissingAtEnds(signature: string, headers: set<string>, names: seq<string>)
    requires forall name :: name in names <==> name in headers
    ensures MissingHeaders(signature, KeyOrder.Elements(names[..0])) == {}
    ensures MissingHeaders(signature, KeyOrder.Elements(names[..|names|])) == MissingHeaders(signature, headers)
  {
    hide Contains, HeaderMarker, NoHeader;
    assert names[..|names|] == names;
    assert KeyOrder.Elements(names) == headers;
  }

  /**
   How the block of an interface splits around an operation: everything from the last blank line
   belongs to it, and it ends with the first semicolon, which is behind the name unless the name
   has one itself.
   */
  lemma SignatureExact(block: string, operation: string, prefix: string, signature: string)
      returns (before: string, after: string)
    requires OperationSignature(block, operation) == Ok((prefix, signature))
    ensures block == before + prefix + signature + after
    ensures operation + "(" <= signature + after && (';' !in operation ==> operation + "(" <= signature)
    ensures Find(block, operation + "(") == Some(|before + prefix|)
    ensures signature[|signature| - 1] == ';' && ';' !in signature[..|signature| - 1]
    ensures before == "" || EndsWith(before, "\n\n")
    ensures Find(prefix, "\n\n").None?
  {
    hide Find, FindLast, OccursAt, EndsWith;
    var start := Find(block, operation + "(").value;
    FindFits(block, operation + "(", start);
    var offset := Find(block[start..], ";").value;
    var blank := FindLast(block[..start], "\n\n", start);
    var from := if blank.Some? then blank.value + 2 else 0;
    UpToSemicolon(block[start..], offset);
    NoBlankAfter(block[..start], blank);
    before, after := block[..from], block[start + offset + 1..];
    SplitThrice(block, from, start, offset + 1);
    NameFirst(block, operation, start);
    if ';' !in operation {
      NameComplete(block, operation, start, offset);
    }
  }

  lemma SplitThrice(s: string, from: nat, start: nat, n: nat)
    requires from <= start && start + n <= |s|
    ensures s == s[..from] + s[from..start] + s[start..start + n] + s[start + n..]
    ensures |s[..from] + s[from..start]| == start && s[start..start + n] + s[start + n..] == s[start..]
    ensures s[start..][..n] == s[start..start + n]
    ensures s[..start][..from] == s[..from] && s[..start][from..] == s[from..start]
  {
  }

  lemma UpToSemicolon(s: string, n: nat)
    requires Find(s, ";") == Some(n)
    ensures n < |s| && s[..n + 1][n] == ';' && ';' !in s[..n + 1][..n]
  {
    NoSemicolonBefore(s, n);
    assert s[..n + 1][..n] == s[..n];
  }

  lemma NoSemicolonBefore(s: string, n: nat)
    requires Find(s, ";") == Some(n)
    ensures n < |s| && s[n] == ';' && ';' !in s[..n]
  {
    assert s[n..n + 1][0] == s[n];
    forall i | 0 <= i < n
      ensures s[i] != ';'
    {
      assert !OccursAt(s, ";", i);
      assert s[i..i + 1] == [s[i]];
    }
  }

  lemma NameFirst(block: string, operation: string, start: nat)
    requires Find(block, operation + "(") == Some(start) && start <= |block|
    ensures operation + "(" <= block[start..]
  {
    assert OccursAt(block, operation + "(", start);
    assert block[start..][..|operation + "("|] == block[start..start + |operation + "("|];
  }

  lemma NameComplete(block: string, operation: string, start: nat, offset: nat)
    requires OccursAt(block, operation + "(", start) && ';' !in operation
    requires start + offset < |block| && block[start + offset] == ';'
    ensures start + offset + 1 <= |block| && operation + "(" <= block[start..start + offset + 1]
  {
    var marker := operation + "(";
    forall k | 0 <= k < |marker|
      ensures block[start + k] == marker[k] && marker[k] != ';'
    {
      assert block[start..start + |marker|][k] == block[start + k];
    }
    assert block[start..start + offset + 1][..|marker|] == block[start..start + |marker|];
  }

  lemma OccursInside(s: string, sub: string, i: nat)
    requires sub != ""
    ensures OccursAt(s, sub, i) ==> i < |s|
  {
  }

  lemma EndsAfter(s: string, sub: string, i: nat)
    requires OccursAt(s, sub, i)
    ensures i + |sub| <= |s| && EndsWith(s[..i + |sub|], sub)
  {
    assert s[..i + |sub|][i..] == s[i..i + |sub|];
  }

  lemma NoBlankAfter(s: string, blank: Option<nat>)
    requires blank == FindLast(s, "\n\n", |s|)
    ensures blank.Some? ==> blank.value + 2 <= |s| && EndsWith(s[..blank.value + 2], "\n\n")
    ensures Find(s[if blank.Some? then blank.value + 2 else 0..], "\n\n").None?
  {
    hide OccursAt, EndsWith, FindLast, Find;
    if blank.Some? {
      EndsAfter(s, "\n\n", blank.value);
    }
    var n := if blank.Some? then blank.value + 2 else 0;
    forall i: nat
      ensures !OccursAt(s[n..], "\n\n", i)
    {
      OccursInTail(s, "\n\n", n, i);
      OccursInside(s, "\n\n", n + i);
    }
  }

  /** An operation passes exactly when the interface declares all that the policy demands of it. */
  lemma OperationPasses(source: string, required: OperationRequirement)
    ensures Discrepancies(source, required) == {} <==>
            BlockOf(source, required.route).Ok?
                && OperationSignature(BlockOf(source, required.route).value, required.operation).Ok? &&
            var (prefix, signature) := OperationSignature(BlockOf(source, required.route).value,
                required.operation).value;
            && Contains(prefix, "@" + required.verb)
            && (required.subroute.Some? ==> Contains(prefix, RouteMarker(required.subroute.value)))
            && (forall h | h in required.headers :: Contains(signature, HeaderMarker(h)))
            && (required.bodyModel.Some? ==>
                Contains(signature, "@body") && Contains(signature, required.bodyModel.value))
            && (required.audience == "admin" <==> "/v1/admin/" <= required.route)
            && (required.audience == "public" <==> !("/v1/admin/" <= required.route))
  {
    hide BlockOf, OperationSignature, Contains, RouteMarker, HeaderMarker, NoHeader, NoDecorator, NoRoute, NoBody,
        OtherAudience;
    if BlockOf(source, required.route).Ok?
        && OperationSignature(BlockOf(source, required.route).value, required.operation).Ok? {
      var (prefix, signature) := OperationSignature(BlockOf(source, required.route).value, required.operation).value;
      HeadersPass(signature, required.headers);
    }
  }

  lemma HeadersPass(signature: string, headers: set<string>)
    ensures MissingHeaders(signature, headers) == {}
        <==> forall h | h in headers :: Contains(signature, HeaderMarker(h))
  {
    hide Contains, HeaderMarker, NoHeader;
    forall h | h in headers && !Contains(signature, HeaderMarker(h))
      ensures NoHeader(h) in MissingHeaders(signature, headers)
    {
    }
  }

  /** The last blank line that ends at or before `start`; nothing is one only when there is none. */
  ghost predicate AfterLastBlankLine(block: string, start: nat, from: nat) {
    || (from == 0 && forall j: nat | j + 2 <= start :: !OccursAt(block, "\n\n", j))
    || (2 <= from <= start && OccursAt(block, "\n\n", from - 2)
        && forall j: nat | from - 2 < j && j + 2 <= start :: !OccursAt(block, "\n\n", j))
  }

  lemma OccursInPrefix(s: string, sub: string, n: nat, i: nat)
    requires n <= |s|
    ensures OccursAt(s[..n], sub, i) <==> i + |sub| <= n && OccursAt(s, sub, i)
  {
    if i + |sub| <= n {
      assert s[..n][i..i + |sub|] == s[i..i + |sub|];
    }
  }

  lemma LastBlankLine(block: string, start: nat, from: nat)
    requires start <= |block|
    ensures var blank := FindLast(block[..start], "\n\n", start);
            AfterLastBlankLine(block, start, from) <==> from == if blank.Some? then blank.value + 2 else 0
  {
    hide OccursAt;
    forall j: nat
      ensures OccursAt(block[..start], "\n\n", j) <==> j + 2 <= start && OccursAt(block, "\n\n", j)
    {
      OccursInPrefix(block, "\n\n", start, j);
    }
    var blank := FindLast(block[..start], "\n\n", start);
    if AfterLastBlankLine(block, start, from) && blank.Some? {
      assert OccursAt(block, "\n\n", blank.value);
      assert from != 0 ==> OccursAt(block[..start], "\n\n", from - 2);
    }
  }

  /** Where the parts of an operation are, or which of them is missing. */
  lemma SignatureExactly(block: string, operation: string, start: nat, end: nat, from: nat)
    ensures NoneFrom(block, operation + "(", 0) ==>
              OperationSignature(block, operation) == Err("operation " + operation + " is missing")
    ensures FirstAt(block, operation + "(", 0, start) ==>
              && (NoneFrom(block, ";", start) ==>
                    OperationSignature(block, operation)
                    == Err("operation " + operation + " has no terminating semicolon"))
              && (FirstAt(block, ";", start, end) && AfterLastBlankLine(block, start, from) ==>
                    && from <= start <= end < |block|
                    && OperationSignature(block, operation) == Ok((block[from..start], block[start..end + 1])))
  {
    hide Find, FindLast, FirstAt, NoneFrom, AfterLastBlankLine;
    assert block[0..] == block;
    FindInTail(block, operation + "(", 0);
    if FirstAt(block, operation + "(", 0, start) {
      FirstFits(block, operation + "(", 0, start);
      FindInTail(block, ";", start);
      LastBlankLine(block, start, from);
      if FirstAt(block, ";", start, end) {
        FirstFits(block, ";", start, end);
      }
    }
  }

  /** Which texts are listed for an operation whose block and signature are found, and why. */
  ghost predicate IsListed(required: OperationRequirement, prefix: string, signature: string, text: string) {
    || (text == "missing method decorator @" + required.verb && !Contains(prefix, "@" + required.verb))
    || (required.subroute.Some?
        && text == "missing operation route decorator @route(\"" + required.subroute.value + "\")"
        && !Contains(prefix, "@route(\"" + required.subroute.value + "\")"))
    || (exists h :: h in required.headers && text == "missing required header " + h
                    && !Contains(signature, "@header(\"" + h + "\")"))
    || (required.bodyModel.Some? && text == "missing body model " + required.bodyModel.value
        && !(Contains(signature, "@body") && Contains(signature, required.bodyModel.value)))
    || ("/v1/admin/" <= required.route && required.audience != "admin"
        && text == "audience mismatch: policy=" + required.audience + " route-derived=admin")
    || (!("/v1/admin/" <= required.route) && required.audience != "public"
        && text == "audience mismatch: policy=" + required.audience + " route-derived=public")
  }

  /** Exactly these texts are listed, or the one failure to find the block or the signature. */
  lemma DiscrepanciesExactly(source: string, required: OperationRequirement)
    ensures var block := BlockOf(source, required.route);
            && (block.Err? ==> Discrepancies(source, required) == {block.error})
            && (block.Ok? ==>
                  var found := OperationSignature(block.value, required.operation);
                  && (found.Err? ==> Discrepancies(source, required) == {found.error})
                  && (found.Ok? ==>
                        forall text :: text in Discrepancies(source, required)
                                       <==> IsListed(required, found.value.0, found.value.1, text)))
  {
    hide BlockOf, OperationSignature, Contains;
    var block := BlockOf(source, required.route);
    if block.Ok? && OperationSignature(block.value, required.operation).Ok? {
      var (prefix, signature) := OperationSignature(block.value, required.operation).value;
      forall text
        ensures text in Discrepancies(source, required) <==> IsListed(required, prefix, signature, text)
      {
        ListedExactly(required, prefix, signature, text);
      }
    }
  }

  lemma ListedExactly(required: OperationRequirement, prefix: string, signature: string, text: string)
    ensures text in SignatureDiscrepancies(prefix, signature, required)
            <==> IsListed(required, prefix, signature, text)
  {
    hide Contains, MissingHeaders, NoDecorator, NoRoute, NoBody, OtherAudience;
    HeadersListed(signature, required.headers, text);
    DecoratorText(required.verb);
    if required.subroute.Some? {
      RouteText(required.subroute.value);
    }
    if required.bodyModel.Some? {
      BodyText(required.bodyModel.value);
    }
    AudienceText(required.audience);
  }

  lemma HeadersListed(signature: string, headers: set<string>, text: string)
    ensures text in MissingHeaders(signature, headers) <==>
            exists h :: h in headers && text == "missing required header " + h
                        && !Contains(signature, "@header(\"" + h + "\")")
  {
    hide Contains;
  }

  lemma DecoratorText(verb: string)
    ensures NoDecorator(verb) == "missing method decorator @" + verb
  {
  }

  lemma RouteText(subroute: string)
    ensures RouteMarker(subroute) == "@route(\"" + subroute + "\")"
    ensures NoRoute(subroute) == "missing operation route decorator @route(\"" + subroute + "\")"
  {
    assert "missing operation route decorator " + RouteMarker(subroute)
        == "missing operation route decorator @route(\"" + subroute + "\")";
  }

  lemma BodyText(model: string)
    ensures NoBody(model) == "missing body model " + model
  {
  }

  lemma AudienceText(audience: string)
    ensures OtherAudience(audience, "admin") == "audience mismatch: policy=" + audience + " route-derived=admin"
    ensures OtherAudience(audience, "public") == "audience mismatch: policy=" + audience + " route-derived=public"
  {
    assert "audience mismatch: policy=" + audience + " route-derived=" + "admin"
        == "audience mismatch: policy=" + audience + " route-derived=admin";
    assert "audience mismatch: policy=" + audience + " route-derived=" + "public"
        == "audience mismatch: policy=" + audience + " route-derived=public";
  }
}

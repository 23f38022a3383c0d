/** The body of the interface at a route (`interface_block` in lib_part_04.rs). */
module InterfaceBlocks {
  import opened Prelude
  import opened Strings
  import QuotedStrings

  function RouteMarker(route: string): string {
    "@route(\"" + route + "\")"
  }

  function RouteMissing(route: string): string {
    "TypeSpec route " + route + " is missing"
  }

  function NoInterface(route: string): string {
    "TypeSpec route " + route + " has no interface"
  }

  function NoBody(route: string): string {
    "TypeSpec route " + route + " interface has no body"
  }

  function Unterminated(route: string): string {
    "unterminated TypeSpec interface for route " + route
  }

  /** Where the interface keyword after the route and its first brace are. */
  function Headers(source: string, route: string): (r: Result<(nat, nat), string>)
    ensures r.Ok? ==> r.value.0 <= r.value.1 < |source| && source[r.value.1] == '{'
  {
    match Find(source, RouteMarker(route))
    case None => Err(RouteMissing(route))
    case Some(routeStart) =>
      FindFits(source, RouteMarker(route), routeStart);
      match Find(source[routeStart..], "interface ")
      case None => Err(NoInterface(route))
      case Some(offset) =>
        var start := routeStart + offset;
        FindFits(source[routeStart..], "interface ", offset);
        match Find(source[start..], "{")
        case None => Err(NoBody(route))
        case Some(openOffset) =>
          FindFits(source[start..], "{", openOffset);
          assert source[start..][openOffset] == "{"[0];
          Ok((start, start + openOffset))
  }

  // Braces outside string literals

  /** Whether a prefix ends inside a string literal, and there just after a backslash. */
  datatype Quoting = Code | Literal | Escape

  function Advance(q: Quoting, c: char): Quoting {
    match q
    case Code => if c == '\"' then Literal else Code
    case Literal => if c == '\\' then Escape else if c == '\"' then Code else Literal
    case Escape => Literal
  }

  function QuotingAfter(s: string): Quoting {
    if s == "" then Code else Advance(QuotingAfter(s[..|s| - 1]), s[|s| - 1])
  }

  /** Opening braces less closing braces, not counting those inside string literals. */
  function Balance(s: string): int {
    if s == "" then 0
    else
      var before, c := s[..|s| - 1], s[|s| - 1];
      Balance(before) + (if QuotingAfter(before) != Code then 0 else if c == '{' then 1 else if c == '}' then -1 else 0)
  }

  /** The braces balance for the first time after `n` characters. */
  ghost predicate FirstBalanced(s: string, n: nat) {
    0 < n <= |s| && Balance(s[..n]) == 0 && forall k | 0 < k < n :: Balance(s[..k]) != 0
  }

  /** Until the braces balance, every prefix has an open brace. */
  lemma {:induction false} StaysOpen(s: string, n: nat)
    requires 0 < n <= |s| && s[0] == '{'
    requires forall k | 0 < k <= n :: Balance(s[..k]) != 0
    ensures Balance(s[..n]) >= 1
  {
    if n == 1 {
      assert s[..1][..0] == "" && s[..1][0] == '{';
    } else {
      StaysOpen(s, n - 1);
      assert s[..n][..n - 1] == s[..n - 1];
    }
  }

  lemma PrefixStep(s: string, n: nat)
    requires n < |s|
    ensures QuotingAfter(s[..n + 1]) == Advance(QuotingAfter(s[..n]), s[n])
    ensures Balance(s[..n + 1]) == Balance(s[..n])
            + (if QuotingAfter(s[..n]) != Code then 0 else if s[n] == '{' then 1 else if s[n] == '}' then -1 else 0)
  {
    assert s[..n + 1][..n] == s[..n] && s[..n + 1][n] == s[n];
  }

  /** Outside literals each brace counts. */
  lemma CodeCounts(before: string, c: char)
    requires QuotingAfter(before) == Code && c != '\"'
    ensures QuotingAfter(before + [c]) == Code
    ensures Balance(before + [c]) == Balance(before) + (if c == '{' then 1 else if c == '}' then -1 else 0)
  {
    assert (before + [c])[..|before|] == before;
  }

  lemma CharacterStep(before: string, c: char)
    ensures QuotingAfter(before + [c]) == Advance(QuotingAfter(before), c)
    ensures QuotingAfter(before) != Code ==> Balance(before + [c]) == Balance(before)
    ensures c == '\"' ==> Balance(before + [c]) == Balance(before)
  {
    assert (before + [c])[..|before|] == before;
  }

  lemma {:induction false} LiteralSkipped(before: string, s: string, escaped: bool)
    requires QuotingAfter(before) == if escaped then Escape else Literal
    requires QuotedStrings.AfterLiteral(s, escaped).Some?
    ensures var literal := s[..|s| - |QuotedStrings.AfterLiteral(s, escaped).value|];
            QuotingAfter(before + literal) == Code && Balance(before + literal) == Balance(before)
    decreases |s|
  {
    hide QuotingAfter, Balance;
    var rest := QuotedStrings.AfterLiteral(s, escaped).value;
    var literal := s[..|s| - |rest|];
    CharacterStep(before, s[0]);
    if !escaped && s[0] == '\"' {
      assert literal == [s[0]];
    } else {
      LiteralSkipped(before + [s[0]], s[1..], !escaped && s[0] == '\\');
      FirstInFront(before, s, |rest|);
    }
  }

  lemma FirstInFront(before: string, s: string, left: nat)
    requires left < |s|
    ensures before + s[..|s| - left] == before + [s[0]] + s[1..][..|s[1..]| - left]
  {
  }

  /** A literal counts for nothing, and ends where the scanner of literals ends it. */
  lemma LiteralCountsNothing(before: string, s: string)
    requires QuotingAfter(before) == Code && QuotedStrings.AfterLiteral(s, false).Some?
    ensures var literal := "\"" + s[..|s| - |QuotedStrings.AfterLiteral(s, false).value|];
            QuotingAfter(before + literal) == Code && Balance(before + literal) == Balance(before)
  {
    hide QuotingAfter, Balance;
    CharacterStep(before, '\"');
    LiteralSkipped(before + "\"", s, false);
    var tail := s[..|s| - |QuotedStrings.AfterLiteral(s, false).value|];
    assert before + ("\"" + tail) == before + "\"" + tail;
  }

  function SaturatingSub(a: nat, b: nat): nat {
    if a < b then 0 else a - b
  }

  /**
   The brace loop, from the first brace on. It stops at the first balance and nowhere else, and
   `saturating_sub` never meets a depth of zero.
   */
  method MatchBraces(s: string) returns (end: Option<nat>)
    requires s != "" && s[0] == '{'
    ensures end.Some? ==> FirstBalanced(s, end.value) && s[end.value - 1] == '}'
    ensures end.None? ==> forall n :: !FirstBalanced(s, n)
  {
    var depth: nat := 0;
    var inString, escaped := false, false;
    assert s[..0] == "";
    for offset := 0 to |s|
      invariant depth == Balance(s[..offset])
      invariant forall k | 0 < k <= offset :: Balance(s[..k]) != 0
      invariant QuotingAfter(s[..offset]) == if !inString then Code else if escaped then Escape else Literal
      invariant escaped ==> inString
    {
      PrefixStep(s, offset);
      var character := s[offset];
      if inString {
        if escaped {
          escaped := false;
        } else if character == '\\' {
          escaped := true;
        } else if character == '\"' {
          inString := false;
        }
      } else if character == '\"' {
        inString := true;
      } else if character == '{' {
        depth := depth + 1;
      } else if character == '}' {
        if offset > 0 {
          StaysOpen(s, offset);
        }
        assert depth >= 1;
        depth := SaturatingSub(depth, 1);
        if depth == 0 {
          return Some(offset + 1);
        }
      }
      if offset > 0 && !inString {
        StaysOpen(s, offset);
      }
    }
    end := None;
    assert s[..|s|] == s;
  }

  lemma FirstBalancedUnique(s: string, n: nat, k: nat)
    requires FirstBalanced(s, n) && FirstBalanced(s, k)
    ensures n == k
  {
  }

  /** The text from the interface keyword to the brace that first balances its first brace. */
  ghost function BlockOf(source: string, route: string): Result<string, string> {
    match Headers(source, route)
    case Err(error) => Err(error)
    case Ok((start, open)) =>
      if exists n :: FirstBalanced(source[open..], n) then
        var n :| FirstBalanced(source[open..], n);
        Ok(source[start..open + n])
      else Err(Unterminated(route))
  }

  method InterfaceBlock(source: string, route: string) returns (r: Result<string, string>)
    ensures r == BlockOf(source, route)
  {
    hide FirstBalanced, Headers;
    var headers := Headers(source, route);
    if headers.Err? {
      return Err(headers.error);
    }
    var (start, open) := headers.value;
    var end := MatchBraces(source[open..]);
    if end.None? {
      return Err(Unterminated(route));
    }
    forall n | FirstBalanced(source[open..], n)
      ensures n == end.value
    {
      FirstBalancedUnique(source[open..], n, end.value);
    }
    r := Ok(source[start..open + end.value]);
  }

  // Where the block is

  /** `i` is the first place at or after `from` where `sub` occurs. */
  ghost predicate FirstAt(s: string, sub: string, from: nat, i: nat) {
    from <= i && OccursAt(s, sub, i) && forall j | from <= j < i :: !OccursAt(s, sub, j)
  }

  ghost predicate NoneFrom(s: string, sub: string, from: nat) {
    forall j: nat | from <= j :: !OccursAt(s, sub, j)
  }

  lemma OccursInTail(s: string, sub: string, from: nat, i: nat)
    requires from <= |s|
    ensures OccursAt(s[from..], sub, i) <==> OccursAt(s, sub, from + i)
  {
    if from + i + |sub| <= |s| {
      assert s[from..][i..i + |sub|] == s[from + i..from + i + |sub|];
    }
  }

  lemma FindInTail(s: string, sub: string, from: nat)
    requires from <= |s|
    ensures Find(s[from..], sub).None? <==> NoneFrom(s, sub, from)
    ensures forall i: nat :: FirstAt(s, sub, from, i) <==> i >= from && Find(s[from..], sub) == Some(i - from)
  {
    hide OccursAt, Find;
    var tail := s[from..];
    forall j: nat | from <= j
      ensures OccursAt(s, sub, j) <==> OccursAt(tail, sub, j - from)
    {
      OccursInTail(s, sub, from, j - from);
    }
    var found := Find(tail, sub);
    if found.None? {
      assert NoneFrom(s, sub, from);
    } else {
      assert OccursAt(s, sub, from + found.value);
      assert FirstAt(s, sub, from, from + found.value);
    }
  }

  /** The route, the interface after it and its first brace; or which of them is missing. */
  lemma HeadersExactly(source: string, route: string, marker: nat, start: nat, open: nat)
    ensures NoneFrom(source, "@route(\"" + route + "\")", 0) ==>
              Headers(source, route) == Err("TypeSpec route " + route + " is missing")
    ensures FirstAt(source, "@route(\"" + route + "\")", 0, marker) && NoneFrom(source, "interface ", marker) ==>
              Headers(source, route) == Err("TypeSpec route " + route + " has no interface")
    ensures FirstAt(source, "@route(\"" + route + "\")", 0, marker) && FirstAt(source, "interface ", marker, start) ==>
              NoneFrom(source, "{", start) ==>
                Headers(source, route) == Err("TypeSpec route " + route + " interface has no body")
    ensures FirstAt(source, "@route(\"" + route + "\")", 0, marker) && FirstAt(source, "interface ", marker, start) ==>
              FirstAt(source, "{", start, open) ==>
                Headers(source, route) == Ok((start, open))
  {
    hide Find, FirstAt, NoneFrom;
    assert source[0..] == source;
    FindInTail(source, RouteMarker(route), 0);
    if FirstAt(source, RouteMarker(route), 0, marker) {
      FirstFits(source, RouteMarker(route), 0, marker);
      FindInTail(source, "interface ", marker);
      if FirstAt(source, "interface ", marker, start) {
        FirstFits(source, "interface ", marker, start);
        FindInTail(source, "{", start);
      }
    }
  }

  lemma FirstFits(s: string, sub: string, from: nat, i: nat)
    requires FirstAt(s, sub, from, i)
    ensures from <= i && i + |sub| <= |s|
  {
  }

  /** The parts are all there exactly when the headers are found. */
  lemma HeadersFound(source: string, route: string)
    ensures Headers(source, route).Ok? ==>
              var (start, open) := Headers(source, route).value;
              exists marker: nat :: FirstAt(source, "@route(\"" + route + "\")", 0, marker)
                                    && FirstAt(source, "interface ", marker, start) && FirstAt(source, "{", start, open)
  {
    hide Find, FirstAt, NoneFrom;
    assert source[0..] == source;
    FindInTail(source, RouteMarker(route), 0);
    if Headers(source, route).Ok? {
      var (start, open) := Headers(source, route).value;
      var marker := Find(source, RouteMarker(route)).value;
      FindFits(source, RouteMarker(route), marker);
      FindInTail(source, "interface ", marker);
      FindInTail(source, "{", start);
      assert FirstAt(source, RouteMarker(route), 0, marker);
    }
  }

  /**
   The block begins with the first interface after the first marker of the route and ends where the
   braces first balance, from its first brace on; each missing part has its own failure.
   */
  lemma BlockExact(source: string, route: string, marker: nat, start: nat, open: nat)
    ensures NoneFrom(source, "@route(\"" + route + "\")", 0) ==>
              BlockOf(source, route) == Err("TypeSpec route " + route + " is missing")
    ensures FirstAt(source, "@route(\"" + route + "\")", 0, marker) ==>
              && (NoneFrom(source, "interface ", marker) ==>
                    BlockOf(source, route) == Err("TypeSpec route " + route + " has no interface"))
              && (FirstAt(source, "interface ", marker, start) ==>
                    && (NoneFrom(source, "{", start) ==>
                          BlockOf(source, route) == Err("TypeSpec route " + route + " interface has no body"))
                    && (FirstAt(source, "{", start, open) ==>
                          && start <= open < |source|
                          && ((forall n :: !FirstBalanced(source[open..], n)) ==>
                                BlockOf(source, route) == Err("unterminated TypeSpec interface for route " + route))
                          && (forall n :: FirstBalanced(source[open..], n) ==>
                                BlockOf(source, route) == Ok(source[start..open + n]))))
  {
    hide FirstBalanced, Headers, FirstAt, NoneFrom;
    HeadersExactly(source, route, marker, start, open);
    if FirstAt(source, "{", start, open) {
      FirstFits(source, "{", start, open);
      forall n, k | FirstBalanced(source[open..], n) && FirstBalanced(source[open..], k)
        ensures n == k
      {
        FirstBalancedUnique(source[open..], n, k);
      }
    }
  }
}

/** The methods of Rust's `str` that the parity tool calls, on strings of scalar values. */
module Strings {
  import opened Prelude

  /** `char::is_whitespace`: the Unicode property White_Space. */
  predicate IsWhitespace(c: char) {
    var n := c as int;
    0x09 <= n <= 0x0D || n == 0x20 || n == 0x85 || n == 0xA0 || n == 0x1680 || 0x2000 <= n <= 0x200A
    || n == 0x2028 || n == 0x2029 || n == 0x202F || n == 0x205F || n == 0x3000
  }

  predicate NoWhitespace(s: string) {
    forall i | 0 <= i < |s| :: !IsWhitespace(s[i])
  }

  /** Neither end is white space: what `trim` returns. */
  predicate Trimmed(s: string) {
    s == "" || (!IsWhitespace(s[0]) && !IsWhitespace(s[|s| - 1]))
  }

  function TrimStart(s: string): (r: string)
    ensures r == "" || !IsWhitespace(r[0])
    ensures |r| <= |s| && r == s[|s| - |r|..]
  {
    if s != "" && IsWhitespace(s[0]) then TrimStart(s[1..]) else s
  }

  function TrimEnd(s: string): (r: string)
    ensures r == "" || !IsWhitespace(r[|r| - 1])
    ensures r <= s
  {
    if s != "" && IsWhitespace(s[|s| - 1]) then TrimEnd(s[..|s| - 1]) else s
  }

  function Trim(s: string): (r: string)
    ensures Trimmed(r)
    ensures |r| <= |s|
  {
    TrimEnd(TrimStart(s))
  }

  lemma TrimTrimmed(s: string)
    requires Trimmed(s)
    ensures Trim(s) == s
  {
  }

  predicate AllWhitespace(s: string) {
    forall i | 0 <= i < |s| :: IsWhitespace(s[i])
  }

  lemma {:induction false} TrimStartSkips(space: string, s: string)
    requires AllWhitespace(space)
    ensures TrimStart(space + s) == TrimStart(s)
  {
    if space == "" {
      assert space + s == s;
    } else {
      assert (space + s)[1..] == space[1..] + s;
      TrimStartSkips(space[1..], s);
    }
  }

  /** Leading white space does not change what `trim` returns. */
  lemma TrimSkips(space: string, s: string)
    requires AllWhitespace(space) && Trimmed(s)
    ensures Trim(space + s) == s
  {
    TrimStartSkips(space, s);
    TrimTrimmed(s);
  }

  lemma {:induction false} TrimEndSkips(s: string, space: string)
    requires AllWhitespace(space)
    ensures TrimEnd(s + space) == TrimEnd(s)
  {
    if space == "" {
      assert s + space == s;
    } else {
      assert (s + space)[..|s + space| - 1] == s + space[..|space| - 1];
      TrimEndSkips(s, space[..|space| - 1]);
    }
  }

  lemma {:induction false} TrimPadded(before: string, s: string, after: string)
    requires AllWhitespace(before) && AllWhitespace(after) && Trimmed(s) && s != ""
    ensures Trim(before + s + after) == s
  {
    assert before + s + after == before + (s + after);
    TrimStartSkips(before, s + after);
    assert (s + after)[0] == s[0];
    TrimEndSkips(s, after);
  }

  /** What `trim` takes off. */
  lemma {:induction false} TrimStartSplits(s: string)
    ensures AllWhitespace(s[..|s| - |TrimStart(s)|])
  {
    if s != "" && IsWhitespace(s[0]) {
      TrimStartSplits(s[1..]);
      var n := |s| - |TrimStart(s)|;
      assert s[..n] == [s[0]] + s[1..][..n - 1];
    }
  }

  lemma {:induction false} TrimEndSplits(s: string)
    ensures AllWhitespace(s[|TrimEnd(s)|..])
  {
    if s != "" && IsWhitespace(s[|s| - 1]) {
      var t := s[..|s| - 1];
      TrimEndSplits(t);
      assert s[|TrimEnd(t)|..] == t[|TrimEnd(t)|..] + [s[|s| - 1]];
    }
  }

  lemma TrimSplits(s: string) returns (before: string, after: string)
    ensures AllWhitespace(before) && AllWhitespace(after) && s == before + Trim(s) + after
  {
    hide TrimStart, TrimEnd, AllWhitespace;
    var t := TrimStart(s);
    var core := TrimEnd(t);
    TrimStartSplits(s);
    TrimEndSplits(t);
    before, after := s[..|s| - |t|], t[|core|..];
    assert s == before + (core + after);
    JoinedTwice(before, core, after);
  }

  lemma JoinedTwice(a: string, b: string, c: string)
    ensures a + (b + c) == a + b + c
  {
  }

  lemma {:induction false} BlankTrimmed(s: string)
    requires AllWhitespace(s)
    ensures Trim(s) == ""
  {
    if s != "" {
      BlankTrimmed(s[1..]);
    }
  }

  /** White space on both sides of a text that has none at its ends. */
  lemma PaddingTrimmed(before: string, s: string, after: string)
    requires AllWhitespace(before) && AllWhitespace(after) && Trimmed(s)
    ensures Trim(before + s + after) == s
  {
    if s == "" {
      assert AllWhitespace(before + s + after);
      BlankTrimmed(before + s + after);
    } else {
      TrimPadded(before, s, after);
    }
  }

  /** `core` is what stands between the white space at both ends of `value`. */
  ghost predicate IsCore(value: string, core: string) {
    Trimmed(core)
    && exists before, after :: AllWhitespace(before) && AllWhitespace(after) && value == before + core + after
  }

  lemma CoreExactly(value: string, core: string)
    ensures IsCore(value, core) <==> core == Trim(value)
  {
    hide Trim, Trimmed, AllWhitespace;
    var before, after := TrimSplits(value);
    if IsCore(value, core) {
      var b, a :| AllWhitespace(b) && AllWhitespace(a) && value == b + core + a;
      PaddingTrimmed(b, core, a);
    }
  }

  predicate EndsWith(s: string, suffix: string) {
    |suffix| <= |s| && s[|s| - |suffix|..] == suffix
  }

  predicate OccursAt(s: string, sub: string, i: nat) {
    i + |sub| <= |s| && s[i..i + |sub|] == sub
  }

  /** `str::find`: the first place at which `sub` occurs. */
  function Find(s: string, sub: string): (i: Option<nat>)
    ensures i.Some? ==> OccursAt(s, sub, i.value)
    ensures i.Some? ==> forall j | 0 <= j < i.value :: !OccursAt(s, sub, j)
    ensures i.None? ==> forall j: nat :: !OccursAt(s, sub, j)
  {
    FindFrom(s, sub, 0)
  }

  lemma FindFits(s: string, sub: string, n: nat)
    requires Find(s, sub) == Some(n)
    ensures n + |sub| <= |s| && s[n..n + |sub|] == sub
  {
  }

  function FindFrom(s: string, sub: string, from: nat): (i: Option<nat>)
    requires from <= |s|
    requires forall j | 0 <= j < from :: !OccursAt(s, sub, j)
    decreases |s| - from
    ensures i.Some? ==> OccursAt(s, sub, i.value)
    ensures i.Some? ==> forall j | 0 <= j < i.value :: !OccursAt(s, sub, j)
    ensures i.None? ==> forall j: nat :: !OccursAt(s, sub, j)
  {
    if OccursAt(s, sub, from) then Some(from)
    else if from == |s| then None
    else FindFrom(s, sub, from + 1)
  }

  predicate Contains(s: string, sub: string) {
    Find(s, sub).Some?
  }

  /** `str::rfind`: the last place at which `sub` occurs before `to`. */
  function FindLast(s: string, sub: string, to: nat): (i: Option<nat>)
    ensures i.Some? ==> i.value < to && OccursAt(s, sub, i.value)
    ensures i.Some? ==> forall j | i.value < j < to :: !OccursAt(s, sub, j)
    ensures i.None? ==> forall j | 0 <= j < to :: !OccursAt(s, sub, j)
  {
    if to == 0 then None
    else if OccursAt(s, sub, to - 1) then Some(to - 1)
    else FindLast(s, sub, to - 1)
  }

  /** The prefix before the first `c`, all of `s` when there is none. */
  function Before(s: string, c: char): (r: string)
    ensures r <= s && c !in r
    ensures |r| < |s| ==> s[|r|] == c
  {
    if s == "" || s[0] == c then "" else [s[0]] + Before(s[1..], c)
  }

  lemma {:induction false} BeforeFirst(s: string, c: char, t: string)
    requires c !in s
    ensures Before(s + [c] + t, c) == s
    ensures Before(s, c) == s
  {
    if s != "" {
      BeforeFirst(s[1..], c, t);
      assert (s + [c] + t)[1..] == s[1..] + [c] + t;
    }
  }

  /** `str::split`: the parts between the separators, at least one. */
  function Split(s: string, c: char): (parts: seq<string>)
    ensures parts != []
    decreases |s|
  {
    var first := Before(s, c);
    if |first| == |s| then [first] else [first] + Split(s[|first| + 1..], c)
  }

  function Join(parts: seq<string>, c: char): string
    requires parts != []
  {
    if |parts| == 1 then parts[0] else parts[0] + [c] + Join(parts[1..], c)
  }

  /** Splitting undoes joining. */
  lemma {:induction false} SplitJoined(parts: seq<string>, c: char)
    requires parts != [] && forall i | 0 <= i < |parts| :: c !in parts[i]
    ensures Split(Join(parts, c), c) == parts
  {
    hide Before;
    var s := Join(parts, c);
    if |parts| == 1 {
      BeforeFirst(parts[0], c, "");
    } else {
      BeforeFirst(parts[0], c, Join(parts[1..], c));
      assert s[|parts[0]| + 1..] == Join(parts[1..], c);
      SplitJoined(parts[1..], c);
    }
  }

  /** `str::replace`: every occurrence, from the left, without overlap. */
  function Replace(s: string, from: string, to: string): string
    requires from != ""
    decreases |s|
  {
    if s == "" then ""
    else if from <= s then to + Replace(s[|from|..], from, to)
    else [s[0]] + Replace(s[1..], from, to)
  }

  // Lines

  /** A carriage return before the line feed belongs to the line ending. */
  function WithoutReturn(line: string): string {
    if line != "" && line[|line| - 1] == '\r' then line[..|line| - 1] else line
  }

  /** `str::lines`: a line feed ends a line, so none follows the last. */
  function Lines(s: string): seq<string>
    decreases |s|
  {
    if s == "" then []
    else
      var line := Before(s, '\n');
      if |line| == |s| then [line] else [WithoutReturn(line)] + Lines(s[|line| + 1..])
  }

  lemma LinesStep(line: string, s: string)
    requires '\n' !in line
    ensures Lines(line + "\n" + s) == [WithoutReturn(line)] + Lines(s)
  {
    BeforeFirst(line, '\n', s);
    assert (line + "\n" + s)[|line| + 1..] == s;
  }

  predicate WholeLines(s: string) {
    s == "" || s[|s| - 1] == '\n'
  }

  lemma FirstLine(s: string) returns (line: string, others: string)
    requires WholeLines(s) && s != ""
    ensures '\n' !in line && s == line + "\n" + others && WholeLines(others)
  {
    line := Before(s, '\n');
    assert s[|s| - 1] in s;
    assert line != s;
    others := s[|line| + 1..];
  }

  /** Whole lines come before the lines of what follows them. */
  lemma {:induction false} LinesConcat(s: string, t: string)
    requires WholeLines(s)
    ensures Lines(s + t) == Lines(s) + Lines(t)
    decreases |s|
  {
    hide Lines;
    if s == "" {
      assert s + t == t;
      NoLines();
    } else {
      var line, others := FirstLine(s);
      assert s + t == line + "\n" + (others + t);
      LinesStep(line, others);
      LinesStep(line, others + t);
      LinesConcat(others, t);
    }
  }

  lemma NoLines()
    ensures Lines("") == []
  {
  }
}

/** The passes of `strip_noise` over line comments and string literals (tools/fp-conformance/fp_conformance.py). */
module LineNoise {
  import opened Prelude
  import opened Strings

  const SLASHES := "//"
  const EMPTY_LITERAL := "\"\""

  // Line comments: the pattern is `(^|[^:])//.*$`

  /** A comment runs to the end of the text; only the last character of it may be a line break. */
  predicate RunsToEnd(s: string, n: nat) {
    forall i | n <= i < |s| - 1 :: s[i] != '\n'
  }

  /** Two slashes that no colon precedes begin a comment, as those of an address do not. */
  predicate StartsComment(s: string, i: nat) {
    OccursAt(s, SLASHES, i) && (i > 0 ==> s[i - 1] != ':') && RunsToEnd(s, i + 2)
  }

  function CommentFrom(s: string, i: nat): Option<nat>
    decreases |s| - i
  {
    if StartsComment(s, i) then Some(i) else if i < |s| then CommentFrom(s, i + 1) else None
  }

  function CutComment(s: string): string {
    match CommentFrom(s, 0)
    case None => s
    case Some(i) => (if i <= |s| then s[..i] else s) + (if EndsWith(s, "\n") then "\n" else "")
  }

  /** The first comment is found, if there is any. */
  lemma {:induction false} CommentFromExact(s: string, i: nat)
    ensures CommentFrom(s, i).None? ==> forall j: nat | i <= j :: !StartsComment(s, j)
    ensures CommentFrom(s, i).Some? ==>
        var n := CommentFrom(s, i).value;
        i <= n && n + 2 <= |s| && StartsComment(s, n) && forall j: nat | i <= j < n :: !StartsComment(s, j)
    decreases |s| - i
  {
    if StartsComment(s, i) {
    } else if i < |s| {
      CommentFromExact(s, i + 1);
    }
  }

  // String literals: the pattern is `"(?:\\.|[^"\\])*"`, and the same for the two other marks

  /** One step inside a literal. */
  datatype Unit = Plain(c: char) | Escaped(c: char)

  predicate IsMark(c: char) {
    c == '"' || c == '\'' || c == '`'
  }

  predicate Fits(u: Unit, mark: char) {
    if u.Plain? then u.c != mark && u.c != '\\' else u.c != '\n'
  }

  predicate AllFit(units: seq<Unit>, mark: char) {
    forall u | u in units :: Fits(u, mark)
  }

  function Spelled(units: seq<Unit>): string {
    if units == [] then "" else (if units[0].Plain? then [units[0].c] else ['\\', units[0].c]) + Spelled(units[1..])
  }

  /** How far behind its opening mark a literal ends, its closing mark included. */
  function LiteralEnd(s: string, mark: char): Option<nat>
    decreases |s|
  {
    if s == "" then None
    else if s[0] == mark then Some(1)
    else if s[0] != '\\' then Further(LiteralEnd(s[1..], mark), 1)
    else if |s| > 1 && s[1] != '\n' then Further(LiteralEnd(s[2..], mark), 2)
    else None
  }

  function Further(end: Option<nat>, n: nat): Option<nat> {
    if end.None? then None else Some(end.value + n)
  }

  lemma {:induction false} LiteralEndFits(s: string, mark: char)
    ensures LiteralEnd(s, mark).Some? ==> 0 < LiteralEnd(s, mark).value <= |s|
    decreases |s|
  {
    if s == "" || s[0] == mark {
    } else if s[0] != '\\' {
      LiteralEndFits(s[1..], mark);
    } else if |s| > 1 {
      LiteralEndFits(s[2..], mark);
    }
  }

  /** Whatever ends a literal is matched by the pattern. */
  lemma {:induction false} LiteralSound(s: string, mark: char) returns (units: seq<Unit>)
    requires mark != '\\' && LiteralEnd(s, mark).Some?
    ensures LiteralEnd(s, mark).value <= |s|
    ensures AllFit(units, mark) && s[..LiteralEnd(s, mark).value] == Spelled(units) + [mark]
    decreases |s|
  {
    if s[0] == mark {
      units := [];
    } else if s[0] != '\\' {
      var others := LiteralSound(s[1..], mark);
      units := [Plain(s[0])] + others;
      assert units[1..] == others;
      assert s[..LiteralEnd(s, mark).value] == [s[0]] + s[1..][..LiteralEnd(s[1..], mark).value];
    } else {
      var others := LiteralSound(s[2..], mark);
      units := [Escaped(s[1])] + others;
      assert units[1..] == others;
      assert s[..LiteralEnd(s, mark).value] == s[..2] + s[2..][..LiteralEnd(s[2..], mark).value];
    }
  }

  /** The pattern matches no other end: whatever the steps, the literal ends behind them. */
  lemma {:induction false} LiteralComplete(units: seq<Unit>, mark: char, rest: string)
    requires mark != '\\' && AllFit(units, mark)
    ensures LiteralEnd(Spelled(units) + [mark] + rest, mark) == Some(|Spelled(units)| + 1)
  {
    var s := Spelled(units) + [mark] + rest;
    if units == [] {
      assert s[0] == mark;
    } else {
      LiteralComplete(units[1..], mark, rest);
      assert Fits(units[0], mark);
      var tail := Spelled(units[1..]) + [mark] + rest;
      if units[0].Plain? {
        assert s == [units[0].c] + tail && s[1..] == tail;
      } else {
        assert s == ['\\', units[0].c] + tail && s[2..] == tail;
      }
    }
  }

  /** Every literal becomes an empty one; a mark that no literal begins with stays. */
  function BlankStrings(s: string): string
    decreases |s|
  {
    if s == "" then ""
    else if IsMark(s[0]) && LiteralEnd(s[1..], s[0]).Some? then
      LiteralEndFits(s[1..], s[0]);
      EMPTY_LITERAL + BlankStrings(s[1..][LiteralEnd(s[1..], s[0]).value..])
    else [s[0]] + BlankStrings(s[1..])
  }

  /** A text as the pattern divides it. */
  datatype Part = Other(c: char) | Literal(mark: char, units: seq<Unit>)

  function PartText(p: Part): string {
    if p.Other? then [p.c] else [p.mark] + Spelled(p.units) + [p.mark]
  }

  function PartsText(parts: seq<Part>): string {
    if parts == [] then "" else PartText(parts[0]) + PartsText(parts[1..])
  }

  /** What is no literal is no mark, or a mark behind which no literal ends. */
  ghost predicate Divides(parts: seq<Part>) {
    parts != [] ==>
      && Divides(parts[1..])
      && if parts[0].Literal? then IsMark(parts[0].mark) && AllFit(parts[0].units, parts[0].mark)
         else IsMark(parts[0].c) ==> !BeginsLiteral(PartsText(parts[1..]), parts[0].c)
  }

  ghost predicate BeginsLiteral(s: string, mark: char) {
    exists units, rest :: AllFit(units, mark) && s == Spelled(units) + [mark] + rest
  }

  lemma LiteralEndExact(s: string, mark: char)
    requires mark != '\\'
    ensures LiteralEnd(s, mark).Some? <==> BeginsLiteral(s, mark)
  {
    if LiteralEnd(s, mark).Some? {
      var units := LiteralSound(s, mark);
      var n := LiteralEnd(s, mark).value;
      assert s == Spelled(units) + [mark] + s[n..];
    }
    if BeginsLiteral(s, mark) {
      var units, rest :| AllFit(units, mark) && s == Spelled(units) + [mark] + rest;
      LiteralComplete(units, mark, rest);
    }
  }

  function Blanked(parts: seq<Part>): string {
    if parts == [] then "" else (if parts[0].Other? then [parts[0].c] else EMPTY_LITERAL) + Blanked(parts[1..])
  }

  lemma OtherStays(c: char, tail: string)
    requires IsMark(c) ==> !BeginsLiteral(tail, c)
    ensures BlankStrings([c] + tail) == [c] + BlankStrings(tail)
  {
    hide LiteralEnd, BeginsLiteral;
    assert ([c] + tail)[0] == c && ([c] + tail)[1..] == tail;
    if IsMark(c) {
      LiteralEndExact(tail, c);
    }
  }

  lemma LiteralEmptied(mark: char, units: seq<Unit>, tail: string)
    requires IsMark(mark) && AllFit(units, mark)
    ensures BlankStrings(PartText(Literal(mark, units)) + tail) == EMPTY_LITERAL + BlankStrings(tail)
  {
    hide LiteralEnd, Spelled, AllFit;
    var s, rest := PartText(Literal(mark, units)) + tail, Spelled(units) + [mark] + tail;
    assert s == [mark] + rest && s[0] == mark && s[1..] == rest;
    LiteralComplete(units, mark, tail);
    assert rest[|Spelled(units)| + 1..] == tail;
  }

  /** On a text divided into literals and other characters the pass empties the literals and nothing else. */
  lemma {:induction false} LiteralsBlanked(parts: seq<Part>)
    requires Divides(parts)
    ensures BlankStrings(PartsText(parts)) == Blanked(parts)
  {
    hide BlankStrings, BeginsLiteral, AllFit;
    if parts == [] {
      NothingBlanked();
    } else {
      LiteralsBlanked(parts[1..]);
      if parts[0].Other? {
        OtherStays(parts[0].c, PartsText(parts[1..]));
      } else {
        LiteralEmptied(parts[0].mark, parts[0].units, PartsText(parts[1..]));
      }
    }
  }

  lemma NothingBlanked()
    ensures BlankStrings("") == ""
  {
  }

  lemma LiteralInFront(s: string) returns (p: Part, rest: string)
    requires s != "" && IsMark(s[0]) && LiteralEnd(s[1..], s[0]).Some?
    ensures p.Literal? && IsMark(p.mark) && AllFit(p.units, p.mark)
    ensures s == PartText(p) + rest && |rest| < |s|
  {
    hide LiteralEnd, AllFit, Spelled;
    var tail := s[1..];
    var units := LiteralSound(tail, s[0]);
    var n := LiteralEnd(tail, s[0]).value;
    p, rest := Literal(s[0], units), tail[n..];
    assert s == [s[0]] + (tail[..n] + tail[n..]);
  }

  /** Every text is divided so, and by `LiteralsBlanked` in one way as far as the pass can tell. */
  lemma {:induction false} EveryTextDivides(s: string) returns (parts: seq<Part>)
    ensures Divides(parts) && PartsText(parts) == s
    decreases |s|
  {
    parts := [];
    if s != "" {
      hide Divides, PartsText, PartText, LiteralEnd, BeginsLiteral, AllFit;
      var p, rest := Other(s[0]), s[1..];
      if IsMark(s[0]) && LiteralEnd(s[1..], s[0]).Some? {
        p, rest := LiteralInFront(s);
      } else {
        OtherText(s);
        if IsMark(s[0]) {
          LiteralEndExact(s[1..], s[0]);
        }
      }
      var others := EveryTextDivides(rest);
      PartInFront(p, others);
      parts := [p] + others;
    }
  }

  lemma OtherText(s: string)
    requires s != ""
    ensures s == PartText(Other(s[0])) + s[1..]
  {
  }

  lemma PartInFront(p: Part, others: seq<Part>)
    requires Divides(others)
    requires p.Literal? ==> IsMark(p.mark) && AllFit(p.units, p.mark)
    requires p.Other? && IsMark(p.c) ==> !BeginsLiteral(PartsText(others), p.c)
    ensures Divides([p] + others) && PartsText([p] + others) == PartText(p) + PartsText(others)
  {
    hide BeginsLiteral, AllFit;
    assert ([p] + others)[1..] == others;
  }

  /** Both passes. */
  function Later(s: string): string {
    BlankStrings(CutComment(s))
  }

  // Which lines hold code

  /** `str.strip` in Python removes these characters. */
  predicate IsPythonSpace(c: char) {
    IsWhitespace(c) || 0x1C <= c as int <= 0x1F
  }

  predicate Blank(s: string) {
    forall i | 0 <= i < |s| :: IsPythonSpace(s[i])
  }

  lemma BlankParts(s: string, t: string)
    ensures Blank(s + t) <==> Blank(s) && Blank(t)
  {
    if Blank(s + t) {
      assert forall i | 0 <= i < |s| :: s[i] == (s + t)[i];
      assert forall i | 0 <= i < |t| :: t[i] == (s + t)[|s| + i];
    }
  }

  /** A literal is never blank, so emptying literals makes no line blank. */
  lemma {:induction false} BlankKept(s: string)
    ensures Blank(BlankStrings(s)) <==> Blank(s)
    decreases |s|
  {
    if s != "" {
      assert s == [s[0]] + s[1..];
      BlankParts([s[0]], s[1..]);
      if IsMark(s[0]) && LiteralEnd(s[1..], s[0]).Some? {
        LiteralEndFits(s[1..], s[0]);
        BlankParts(EMPTY_LITERAL, BlankStrings(s[1..][LiteralEnd(s[1..], s[0]).value..]));
        assert !IsPythonSpace(EMPTY_LITERAL[0]) && !IsPythonSpace(s[0]);
      } else {
        BlankKept(s[1..]);
        BlankParts([s[0]], BlankStrings(s[1..]));
      }
    }
  }

  /** Some character that is no white space stands before any comment. */
  ghost predicate HoldsCode(s: string) {
    exists i: nat :: i < |s| && !IsPythonSpace(s[i]) && forall j: nat | j <= i :: !StartsComment(s, j)
  }

  /** What is left of a line is blank exactly when the line holds no code. */
  lemma HoldsCodeExactly(s: string)
    ensures !Blank(Later(s)) <==> HoldsCode(s)
  {
    hide StartsComment, IsPythonSpace;
    BlankKept(CutComment(s));
    CommentFromExact(s, 0);
    if CommentFrom(s, 0).Some? {
      var n := CommentFrom(s, 0).value;
      BreakIsBlank();
      BlankParts(s[..n], if EndsWith(s, "\n") then "\n" else "");
      if HoldsCode(s) {
        var i: nat :| i < |s| && !IsPythonSpace(s[i]) && forall j: nat | j <= i :: !StartsComment(s, j);
        assert i < n && s[..n][i] == s[i];
      }
    }
  }

  lemma BreakIsBlank()
    ensures Blank("\n") && Blank("")
  {
  }

  lemma SlashesWithBlanks(kept: string, masked: string, i: nat)
    requires kept <= masked && forall k | |kept| <= k < |masked| :: masked[k] == ' '
    ensures OccursAt(masked, SLASHES, i) <==> OccursAt(kept, SLASHES, i)
  {
    if i + 2 <= |masked| {
      assert masked[i..i + 2] == [masked[i], masked[i + 1]];
    }
    if i + 2 <= |kept| {
      assert kept[i..i + 2] == [kept[i], kept[i + 1]] == masked[i..i + 2];
    }
  }

  /** Blanks at the end of a line make no difference. */
  lemma CodeBeforeBlanks(kept: string, masked: string)
    requires kept <= masked && forall k | |kept| <= k < |masked| :: masked[k] == ' '
    requires '\n' !in kept
    ensures HoldsCode(kept) <==> HoldsCode(masked)
  {
    forall j: nat
      ensures StartsComment(masked, j) <==> StartsComment(kept, j)
    {
      SlashesWithBlanks(kept, masked, j);
    }
    forall i | 0 <= i < |masked|
      ensures i >= |kept| ==> IsPythonSpace(masked[i])
      ensures i < |kept| ==> masked[i] == kept[i]
    {
    }
    hide StartsComment, IsPythonSpace;
    if HoldsCode(kept) {
      var i: nat :| i < |kept| && !IsPythonSpace(kept[i]) && forall j: nat | j <= i :: !StartsComment(kept, j);
      assert !IsPythonSpace(masked[i]);
    }
    if HoldsCode(masked) {
      var i: nat :| i < |masked| && !IsPythonSpace(masked[i]) && forall j: nat | j <= i :: !StartsComment(masked, j);
      assert !IsPythonSpace(kept[i]);
    }
  }
}

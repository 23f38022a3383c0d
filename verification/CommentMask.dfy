/** `strip_noise`: its lines, and a character automaton (tools/fp-conformance/fp_conformance.py). */
module CommentMask {
  import opened Prelude
  import opened LineNoise
  import opened Strings

  const OPENER := "/*"
  const CLOSER := "*/"

  function Blanks(n: nat): (s: string)
    ensures |s| == n && forall i | 0 <= i < n :: s[i] == ' '
  {
    seq(n, _ => ' ')
  }

  // The character automaton

  /** Whether the text ends inside a block comment, when it begins inside one or not. */
  predicate InBlock(s: string, inBlock: bool)
    decreases |s|
  {
    if s == "" then inBlock
    else if inBlock then if CLOSER <= s then InBlock(s[2..], false) else InBlock(s[1..], true)
    else if OPENER <= s then InBlock(s[2..], true) else InBlock(s[1..], false)
  }

  /** The text with every character of a comment blanked. */
  function Masked(s: string, inBlock: bool): (r: string)
    decreases |s|
    ensures |r| == |s|
  {
    if s == "" then ""
    else if inBlock then if CLOSER <= s then "  " + Masked(s[2..], false) else " " + Masked(s[1..], true)
    else if OPENER <= s then "  " + Masked(s[2..], true) else [s[0]] + Masked(s[1..], false)
  }

  /** A line break is no part of a delimiter, so the automaton reads a file line by line. */
  lemma {:induction false} LineByLine(s: string, t: string, inBlock: bool)
    ensures InBlock(s + "\n" + t, inBlock) == InBlock(t, InBlock(s, inBlock))
    decreases |s|
  {
    var text := s + "\n" + t;
    if s == "" {
      assert text[0] == '\n' && text[1..] == t;
    } else if |s| == 1 {
      assert text[0] == s[0] && text[1] == '\n';
      assert text[1..] == "" + "\n" + t;
      LineByLine("", t, inBlock);
      assert s[1..] == "";
    } else {
      assert text[0] == s[0] && text[1] == s[1];
      assert text[1..] == s[1..] + "\n" + t && text[2..] == s[2..] + "\n" + t;
      LineByLine(s[1..], t, inBlock);
      LineByLine(s[2..], t, !inBlock);
    }
  }

  // What the code computes for one line

  /** The code of a line that begins outside a comment. */
  function KeptOutside(s: string): string
    decreases |s|
  {
    match Find(s, OPENER)
    case None => s
    case Some(o) =>
      match Find(s[o + 2..], CLOSER)
      case None => s[..o]
      case Some(c) => s[..o] + Blanks(c + 4) + KeptOutside(s[o + 2 + c + 2..])
  }

  function EndsOpen(s: string): bool
    decreases |s|
  {
    match Find(s, OPENER)
    case None => false
    case Some(o) =>
      match Find(s[o + 2..], CLOSER)
      case None => true
      case Some(c) => EndsOpen(s[o + 2 + c + 2..])
  }

  /** What is left of a line, and whether the next one begins inside a comment. */
  function Kept(s: string, inBlock: bool): (string, bool) {
    if !inBlock then (KeptOutside(s), EndsOpen(s))
    else
      match Find(s, CLOSER)
      case None => ("", true)
      case Some(c) => (Blanks(c + 2) + KeptOutside(s[c + 2..]), EndsOpen(s[c + 2..]))
  }

  ghost predicate NoneBefore(s: string, sub: string, n: nat) {
    forall i | 0 <= i < n :: !OccursAt(s, sub, i)
  }

  /** Blanking a comment creates no opener, so the next search finds the next one. */
  lemma BlankingCreatesNone(line: string, o: nat, e: nat)
    requires o < e <= |line| && NoneBefore(line, OPENER, o)
    ensures NoneBefore(line[..o] + Blanks(e - o) + line[e..], OPENER, e)
  {
    var blanked := line[..o] + Blanks(e - o) + line[e..];
    forall i | 0 <= i < e
      ensures !OccursAt(blanked, OPENER, i)
    {
      if OccursAt(blanked, OPENER, i) {
        assert blanked[i..i + 2][0] == blanked[i] && blanked[i..i + 2][1] == blanked[i + 1];
        if i + 1 < o {
          assert line[i..i + 2] == blanked[i..i + 2];
          assert OccursAt(line, OPENER, i);
        }
      }
    }
  }

  lemma FindAfter(line: string, sub: string, n: nat)
    requires n <= |line| && NoneBefore(line, sub, n)
    ensures Find(line, sub).None? <==> Find(line[n..], sub).None?
    ensures Find(line, sub).Some? ==> Find(line, sub).value == n + Find(line[n..], sub).value
  {
    var tail := line[n..];
    forall i: nat | n <= i
      ensures OccursAt(line, sub, i) <==> OccursAt(tail, sub, i - n)
    {
      if i + |sub| <= |line| {
        assert line[i..i + |sub|] == tail[i - n..i - n + |sub|];
      }
    }
    if Find(tail, sub).Some? {
      assert OccursAt(line, sub, n + Find(tail, sub).value);
    }
    if Find(line, sub).Some? {
      assert OccursAt(tail, sub, Find(line, sub).value - n);
    }
  }

  /** What one pass of the loop does to a line whose first `done` characters are finished. */
  lemma BlankStep(line: string, done: nat, o: nat, c: nat)
    requires done <= |line| && NoneBefore(line, OPENER, done)
    requires Find(line, OPENER) == Some(o) && o + 2 <= |line| && Find(line[o + 2..], CLOSER) == Some(c)
    ensures done <= o && o + 2 + c + 2 <= |line|
    ensures var end := o + 2 + c + 2;
            var next := line[..o] + Blanks(c + 4) + line[end..];
            && |next| == |line| && next[end..] == line[end..] && NoneBefore(next, OPENER, end)
            && EndsOpen(line[done..]) == EndsOpen(line[end..])
            && line[..done] + KeptOutside(line[done..]) == next[..end] + KeptOutside(line[end..])
  {
    hide OccursAt, Find, NoneBefore;
    var tail, end := line[done..], o + 2 + c + 2;
    FindAfter(line, OPENER, done);
    CloserFits(line[o + 2..], c);
    FindExact(line, OPENER, o);
    BlankingCreatesNone(line, o, end);
    assert tail[o - done + 2..] == line[o + 2..] && tail[o - done + 2 + c + 2..] == line[end..];
    assert line[..done] + tail[..o - done] == line[..o];
    KeptStep(tail, o - done, c);
    Regroup(line[..done], tail[..o - done], Blanks(c + 4), KeptOutside(line[end..]));
    assert (line[..o] + Blanks(c + 4) + line[end..])[..end] == line[..o] + Blanks(c + 4);
  }

  lemma KeptStep(s: string, o: nat, c: nat)
    requires Find(s, OPENER) == Some(o) && o + 2 <= |s| && Find(s[o + 2..], CLOSER) == Some(c)
    ensures o + 2 + c + 2 <= |s|
    ensures KeptOutside(s) == s[..o] + Blanks(c + 4) + KeptOutside(s[o + 2 + c + 2..])
    ensures EndsOpen(s) == EndsOpen(s[o + 2 + c + 2..])
  {
    hide Find, OccursAt, Blanks, KeptOutside, EndsOpen;
    CloserFits(s[o + 2..], c);
    TextStep(s, o, c, s[o + 2 + c + 2..]);
    FlagStep(s, o, c, s[o + 2 + c + 2..]);
  }

  lemma TextStep(s: string, o: nat, c: nat, others: string)
    requires Find(s, OPENER) == Some(o) && o + 2 <= |s| && Find(s[o + 2..], CLOSER) == Some(c)
    requires o + 2 + c + 2 <= |s| && others == s[o + 2 + c + 2..]
    ensures KeptOutside(s) == s[..o] + Blanks(c + 4) + KeptOutside(others)
  {
    hide Find, OccursAt, Blanks;
  }

  lemma FlagStep(s: string, o: nat, c: nat, others: string)
    requires Find(s, OPENER) == Some(o) && o + 2 <= |s| && Find(s[o + 2..], CLOSER) == Some(c)
    requires o + 2 + c + 2 <= |s| && others == s[o + 2 + c + 2..]
    ensures EndsOpen(s) == EndsOpen(others)
  {
    hide Find, OccursAt;
  }

  lemma Regroup(a: string, b: string, c: string, d: string)
    ensures a + (b + c + d) == (a + b) + c + d
  {
  }

  /** The inner loop: blank each comment, cut off one that stays open. The first `from` characters are finished. */
  method BlankComments(start: string, ghost from: nat) returns (line: string, open: bool)
    requires from <= |start| && NoneBefore(start, OPENER, from)
    ensures line == start[..from] + KeptOutside(start[from..]) && open == EndsOpen(start[from..])
  {
    hide Find, OccursAt, NoneBefore, KeptOutside, EndsOpen;
    line, open := start, false;
    ghost var done := from;
    while true
      invariant done <= |line| == |start|
      invariant NoneBefore(line, OPENER, done)
      invariant line[..done] + KeptOutside(line[done..]) == start[..from] + KeptOutside(start[from..])
      invariant EndsOpen(line[done..]) == EndsOpen(start[from..]) && !open
      decreases |start| - done
    {
      var o := Find(line, OPENER);
      if o.None? {
        NoMore(line, done);
        break;
      }
      OpenerFits(line, o.value);
      var c := Find(line[o.value + 2..], CLOSER);
      if c.None? {
        LeftOpen(line, done, o.value);
        line := line[..o.value];
        open := true;
        break;
      }
      BlankStep(line, done, o.value, c.value);
      var end := o.value + 2 + c.value + 2;
      line := line[..o.value] + Blanks(c.value + 4) + line[end..];
      done := end;
    }
  }

  lemma NoMore(line: string, done: nat)
    requires done <= |line| && NoneBefore(line, OPENER, done) && Find(line, OPENER).None?
    ensures line[..done] + KeptOutside(line[done..]) == line && !EndsOpen(line[done..])
  {
    hide Find, OccursAt;
    FindAfter(line, OPENER, done);
    assert line[..done] + line[done..] == line;
  }

  lemma LeftOpen(line: string, done: nat, o: nat)
    requires done <= |line| && NoneBefore(line, OPENER, done)
    requires Find(line, OPENER) == Some(o) && o + 2 <= |line| && Find(line[o + 2..], CLOSER).None?
    ensures line[..done] + KeptOutside(line[done..]) == line[..o] && EndsOpen(line[done..])
  {
    hide Find, OccursAt;
    FindAfter(line, OPENER, done);
    assert line[done..][o - done + 2..] == line[o + 2..];
    assert line[..done] + line[done..][..o - done] == line[..o];
  }

  /** The body of the loop over the lines, up to the end of the block-comment pass. */
  method StripBlocks(raw: string, inBlock: bool) returns (line: string, open: bool)
    ensures (line, open) == Kept(raw, inBlock)
  {
    hide Find, OccursAt, KeptOutside, EndsOpen;
    if !inBlock {
      line, open := BlankComments(raw, 0);
      assert raw[..0] + KeptOutside(raw[0..]) == KeptOutside(raw) && raw[0..] == raw;
      return;
    }
    var m := Find(raw, CLOSER);
    if m.None? {
      return "", true;
    }
    CloserFits(raw, m.value);
    var end := m.value + 2;
    BlankingCreatesNone(raw, 0, end);
    assert raw[..0] + Blanks(end) + raw[end..] == Blanks(end) + raw[end..];
    line, open := BlankComments(Blanks(end) + raw[end..], end);
    assert (Blanks(end) + raw[end..])[end..] == raw[end..] && (Blanks(end) + raw[end..])[..end] == Blanks(end);
  }

  lemma OpenerFits(s: string, i: nat)
    requires Find(s, OPENER) == Some(i)
    ensures i + 2 <= |s|
  {
  }

  lemma CloserFits(s: string, i: nat)
    requires Find(s, CLOSER) == Some(i)
    ensures i + 2 <= |s|
  {
  }

  lemma FindExact(s: string, sub: string, i: nat)
    requires Find(s, sub) == Some(i)
    ensures NoneBefore(s, sub, i)
  {
  }

  // The code follows the automaton

  lemma NoneAtFirst(s: string, sub: string, n: nat)
    requires 0 < n <= |s| && |sub| == 2 && NoneBefore(s, sub, n)
    ensures !(sub <= s) && NoneBefore(s[1..], sub, n - 1)
  {
    assert !OccursAt(s, sub, 0);
    forall i | 0 <= i < n - 1
      ensures !OccursAt(s[1..], sub, i)
    {
      assert !OccursAt(s, sub, i + 1);
      if i + 2 <= |s[1..]| {
        assert s[1..][i..i + 2] == s[i + 1..i + 3];
      }
    }
  }

  lemma OutsideStep(s: string)
    requires s != "" && !(OPENER <= s)
    ensures InBlock(s, false) == InBlock(s[1..], false)
    ensures Masked(s, false) == [s[0]] + Masked(s[1..], false)
  {
  }

  lemma InsideStep(s: string)
    requires s != "" && !(CLOSER <= s)
    ensures InBlock(s, true) == InBlock(s[1..], true)
    ensures Masked(s, true) == " " + Masked(s[1..], true)
  {
  }

  lemma {:induction false} SkipOutside(s: string, n: nat)
    requires n <= |s| && NoneBefore(s, OPENER, n)
    ensures InBlock(s, false) == InBlock(s[n..], false)
    ensures Masked(s, false) == s[..n] + Masked(s[n..], false)
    decreases n
  {
    hide InBlock, Masked, OccursAt, NoneBefore;
    if n == 0 {
      assert s[0..] == s;
    } else {
      NoneAtFirst(s, OPENER, n);
      OutsideStep(s);
      SkipOutside(s[1..], n - 1);
      assert s[1..][n - 1..] == s[n..];
      assert [s[0]] + s[1..][..n - 1] == s[..n];
    }
  }

  lemma {:induction false} SkipInside(s: string, n: nat)
    requires n <= |s| && NoneBefore(s, CLOSER, n)
    ensures InBlock(s, true) == InBlock(s[n..], true)
    ensures Masked(s, true) == Blanks(n) + Masked(s[n..], true)
    decreases n
  {
    hide InBlock, Masked, OccursAt, NoneBefore;
    if n == 0 {
      assert s[0..] == s;
    } else {
      NoneAtFirst(s, CLOSER, n);
      InsideStep(s);
      SkipInside(s[1..], n - 1);
      assert s[1..][n - 1..] == s[n..];
      assert " " + Blanks(n - 1) == Blanks(n);
    }
  }

  lemma InsideUnclosed(s: string)
    requires Find(s, CLOSER).None?
    ensures InBlock(s, true) && Masked(s, true) == Blanks(|s|)
  {
    SkipInside(s, |s|);
    assert s[|s|..] == "" && Blanks(|s|) + "" == Blanks(|s|);
  }

  /** The rest of a line that begins inside a comment, up to and with its closer. */
  lemma InsideClosed(s: string, c: nat)
    requires Find(s, CLOSER) == Some(c)
    ensures c + 2 <= |s| && InBlock(s, true) == InBlock(s[c + 2..], false)
    ensures Masked(s, true) == Blanks(c + 2) + Masked(s[c + 2..], false)
  {
    hide Find, OccursAt, InBlock, Masked, NoneBefore, Blanks;
    FindExact(s, CLOSER, c);
    CloserFits(s, c);
    SkipInside(s, c);
    CloserStep(s, c);
    BlanksJoined(c, Masked(s[c + 2..], false));
  }

  lemma BlanksJoined(n: nat, s: string)
    ensures Blanks(n) + ("  " + s) == Blanks(n + 2) + s
  {
    assert Blanks(n) + "  " == Blanks(n + 2);
  }

  lemma CloserStep(s: string, c: nat)
    requires OccursAt(s, CLOSER, c)
    ensures InBlock(s[c..], true) == InBlock(s[c + 2..], false)
    ensures Masked(s[c..], true) == "  " + Masked(s[c + 2..], false)
  {
    assert CLOSER <= s[c..] && s[c..][2..] == s[c + 2..];
  }

  lemma OpenerStep(s: string, o: nat)
    requires OccursAt(s, OPENER, o)
    ensures InBlock(s[o..], false) == InBlock(s[o + 2..], true)
    ensures Masked(s[o..], false) == "  " + Masked(s[o + 2..], true)
  {
    assert OPENER <= s[o..] && s[o..][2..] == s[o + 2..];
  }

  /** `kept` is `masked` without the blanks at its end that stand for a comment left open. */
  predicate CutsOpenComment(kept: string, masked: string, open: bool) {
    |kept| <= |masked| && masked == kept + Blanks(|masked| - |kept|) && (!open ==> kept == masked)
  }

  lemma CutExtended(before: string, n: nat, kept: string, masked: string, open: bool)
    requires CutsOpenComment(kept, masked, open)
    ensures CutsOpenComment(before + Blanks(n) + kept, before + Blanks(n) + masked, open)
  {
    assert before + Blanks(n) + (kept + Blanks(|masked| - |kept|))
        == before + Blanks(n) + kept + Blanks(|masked| - |kept|);
  }

  lemma {:induction false} OutsideFollowsAutomaton(s: string)
    ensures EndsOpen(s) == InBlock(s, false)
    ensures CutsOpenComment(KeptOutside(s), Masked(s, false), EndsOpen(s))
    decreases |s|
  {
    hide Find, OccursAt, InBlock, Masked, EndsOpen, KeptOutside, CutsOpenComment;
    if Find(s, OPENER).None? {
      OutsideOnly(s);
    } else {
      var o := Find(s, OPENER).value;
      OpenerFits(s, o);
      if Find(s[o + 2..], CLOSER).None? {
        OutsideOpens(s, o);
      } else {
        var c := Find(s[o + 2..], CLOSER).value;
        OutsideCloses(s, o, c);
        var rest := s[o + 2 + c + 2..];
        OutsideFollowsAutomaton(rest);
        KeptStep(s, o, c);
        CutExtended(s[..o], c + 4, KeptOutside(rest), Masked(rest, false), EndsOpen(rest));
      }
    }
  }

  lemma OpenerReached(s: string, o: nat)
    requires Find(s, OPENER) == Some(o)
    ensures o + 2 <= |s|
    ensures InBlock(s, false) == InBlock(s[o + 2..], true)
    ensures Masked(s, false) == s[..o] + ("  " + Masked(s[o + 2..], true))
  {
    hide Find, OccursAt, InBlock, Masked;
    OpenerFits(s, o);
    FindExact(s, OPENER, o);
    SkipOutside(s, o);
    OpenerStep(s, o);
  }

  lemma OutsideOpens(s: string, o: nat)
    requires Find(s, OPENER) == Some(o) && o + 2 <= |s| && Find(s[o + 2..], CLOSER).None?
    ensures EndsOpen(s) && InBlock(s, false)
    ensures CutsOpenComment(KeptOutside(s), Masked(s, false), true)
  {
    hide Find, OccursAt, InBlock, Masked;
    OpenerReached(s, o);
    InsideUnclosed(s[o + 2..]);
    assert s[..o] + ("  " + Blanks(|s| - o - 2)) == s[..o] + Blanks(|s| - o);
  }

  lemma OutsideCloses(s: string, o: nat, c: nat)
    requires Find(s, OPENER) == Some(o) && o + 2 <= |s| && Find(s[o + 2..], CLOSER) == Some(c)
    ensures o + 2 + c + 2 <= |s|
    ensures InBlock(s, false) == InBlock(s[o + 2 + c + 2..], false)
    ensures Masked(s, false) == s[..o] + Blanks(c + 4) + Masked(s[o + 2 + c + 2..], false)
  {
    hide Find, OccursAt, InBlock, Masked;
    OpenerReached(s, o);
    InsideClosed(s[o + 2..], c);
    assert s[o + 2..][c + 2..] == s[o + 2 + c + 2..];
    var rest := Masked(s[o + 2 + c + 2..], false);
    assert s[..o] + ("  " + (Blanks(c + 2) + rest)) == s[..o] + Blanks(c + 4) + rest;
  }

  lemma OutsideOnly(s: string)
    requires Find(s, OPENER).None?
    ensures !InBlock(s, false) && Masked(s, false) == s && KeptOutside(s) == s && !EndsOpen(s)
    ensures CutsOpenComment(s, s, false)
  {
    SkipOutside(s, |s|);
    assert s[|s|..] == "" && s[..|s|] + "" == s && s + Blanks(0) == s;
  }

  /** On one line the code is the automaton: its flag, and its text up to a comment left open. */
  lemma KeptFollowsAutomaton(s: string, inBlock: bool)
    ensures var (kept, open) := Kept(s, inBlock);
            open == InBlock(s, inBlock) && CutsOpenComment(kept, Masked(s, inBlock), open)
  {
    hide Find, OccursAt, InBlock, Masked, KeptOutside, EndsOpen;
    if !inBlock {
      OutsideFollowsAutomaton(s);
    } else if Find(s, CLOSER).None? {
      InsideUnclosed(s);
      assert "" + Blanks(|s|) == Blanks(|s|);
    } else {
      var c := Find(s, CLOSER).value;
      InsideClosed(s, c);
      OutsideFollowsAutomaton(s[c + 2..]);
      CutExtended("", c + 2, KeptOutside(s[c + 2..]), Masked(s[c + 2..], false), EndsOpen(s[c + 2..]));
      assert "" + Blanks(c + 2) == Blanks(c + 2);
    }
  }

  // Whole files

  /** The flag that the loop carries into the line after `lines`. */
  function Carried(lines: seq<string>): bool {
    if lines == [] then false else Kept(lines[|lines| - 1], Carried(lines[..|lines| - 1])).1
  }

  /** The lines of a file, each ended by a line break. */
  function TextOf(lines: seq<string>): string {
    if lines == [] then "" else TextOf(lines[..|lines| - 1]) + lines[|lines| - 1] + "\n"
  }

  /** A whole line of comment leaves an empty line, which the later passes do not see. */
  function MaskedLine(line: string, inBlock: bool): string {
    if inBlock && Find(line, CLOSER).None? then "" else Later(Kept(line, inBlock).0)
  }

  lemma EmptyIsBlank()
    ensures Blank("")
  {
  }

  lemma NothingCarried()
    ensures !Carried([])
  {
  }

  lemma CarriedStep(lines: seq<string>, i: nat)
    requires i < |lines|
    ensures Carried(lines[..i + 1]) == Kept(lines[i], Carried(lines[..i])).1
  {
    assert lines[..i + 1][..i] == lines[..i] && lines[..i + 1][i] == lines[i];
  }

  /** `strip_noise`. */
  method StripNoise(lines: seq<string>) returns (out: seq<string>, code: set<nat>)
    ensures |out| == |lines|
    ensures forall i | 0 <= i < |lines| :: out[i] == MaskedLine(lines[i], Carried(lines[..i]))
    ensures forall n :: n in code <==> 1 <= n <= |lines| && !Blank(out[n - 1])
  {
    hide Kept, Find, Carried, Blank, Later;
    NothingCarried();
    out, code := [], {};
    var inBlock := false;
    for i := 0 to |lines|
      invariant |out| == i
      invariant inBlock == Carried(lines[..i])
      invariant forall j | 0 <= j < i :: out[j] == MaskedLine(lines[j], Carried(lines[..j]))
      invariant forall n :: n in code <==> 1 <= n <= i && !Blank(out[n - 1])
    {
      CarriedStep(lines, i);
      EmptyIsBlank();
      var wholeLine := inBlock && Find(lines[i], CLOSER).None?;
      var line, open := StripBlocks(lines[i], inBlock);
      if wholeLine {
        out := out + [""];
      } else {
        line := Later(line);
        out := out + [line];
        if !Blank(line) {
          code := code + {i + 1};
        }
      }
      inBlock := open;
    }
  }

  /** The carried flag is that of the automaton on the text of all the lines before. */
  lemma {:induction false} CarriedFollowsAutomaton(lines: seq<string>)
    ensures Carried(lines) == InBlock(TextOf(lines), false)
  {
    if lines != [] {
      var before, last := lines[..|lines| - 1], lines[|lines| - 1];
      CarriedFollowsAutomaton(before);
      KeptFollowsAutomaton(last, Carried(before));
      TextSplit(before, last);
    }
  }

  lemma {:induction false} TextSplit(lines: seq<string>, last: string)
    ensures InBlock(TextOf(lines) + last + "\n", false) == InBlock(last, InBlock(TextOf(lines), false))
  {
    if lines == [] {
      assert "" + last + "\n" == last + "\n" + "";
      LineByLine(last, "", false);
    } else {
      var before, line := lines[..|lines| - 1], lines[|lines| - 1];
      var s := TextOf(before) + line;
      assert TextOf(lines) == s + "\n" + "";
      LineByLine(s, "", false);
      assert TextOf(lines) + last + "\n" == s + "\n" + (last + "\n" + "");
      LineByLine(s, last + "\n" + "", false);
      LineByLine(last, "", InBlock(s, false));
    }
  }

  /** Every output line is the automaton's mask of its input line, in the state that the text before leaves. */
  lemma MaskFollowsAutomaton(lines: seq<string>, i: nat)
    requires i < |lines|
    ensures var state := InBlock(TextOf(lines[..i]), false);
            && Carried(lines[..i]) == state
            && CutsOpenComment(Kept(lines[i], state).0, Masked(lines[i], state), InBlock(lines[i], state))
  {
    CarriedFollowsAutomaton(lines[..i]);
    KeptFollowsAutomaton(lines[i], Carried(lines[..i]));
  }

  lemma {:induction false} NoBreakMasked(s: string, inBlock: bool)
    requires '\n' !in s
    ensures '\n' !in Masked(s, inBlock)
    decreases |s|
  {
    if s != "" {
      NoBreakMasked(s[1..], inBlock);
      if |s| > 1 {
        NoBreakMasked(s[2..], !inBlock);
      }
    }
  }

  /**
   A line is a code line exactly when some character that is no white space stands outside every
   block comment of the file and before any line comment of its line.
   */
  lemma CodeLinesExactly(lines: seq<string>, i: nat)
    requires i < |lines| && '\n' !in lines[i]
    ensures !Blank(MaskedLine(lines[i], Carried(lines[..i])))
            <==> HoldsCode(Masked(lines[i], InBlock(TextOf(lines[..i]), false)))
  {
    hide Find, InBlock, Masked, Blank, HoldsCode, Later;
    MaskFollowsAutomaton(lines, i);
    var line, state := lines[i], Carried(lines[..i]);
    var kept := Kept(line, state).0;
    NoBreakMasked(line, state);
    assert kept <= Masked(line, state) && (forall c | c in kept :: c in Masked(line, state));
    CodeBeforeBlanks(kept, Masked(line, state));
    HoldsCodeExactly(kept);
    EmptyLine();
  }

  lemma EmptyLine()
    ensures Blank("") && !HoldsCode("")
  {
  }
}

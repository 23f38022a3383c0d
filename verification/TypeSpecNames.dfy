/** Names across the two contracts: `camel_to_snake` and `strip_type_wrappers` in lib_part_03.rs. */
module TypeSpecNames {
  import opened Strings

  predicate IsCapital(c: char) {
    'A' <= c <= 'Z'
  }

  predicate IsSmall(c: char) {
    'a' <= c <= 'z'
  }

  function ToSmall(c: char): char
    requires IsCapital(c)
  {
    (c as int + 32) as char
  }

  function ToCapital(c: char): char
    requires IsSmall(c)
  {
    (c as int - 32) as char
  }

  /** `camel_to_snake` on the characters after the first. */
  function SnakeTail(s: string): string {
    if s == "" then ""
    else (if IsCapital(s[0]) then ['_', ToSmall(s[0])] else [s[0]]) + SnakeTail(s[1..])
  }

  function Snake(s: string): string {
    if s == "" then "" else [if IsCapital(s[0]) then ToSmall(s[0]) else s[0]] + SnakeTail(s[1..])
  }

  method CamelToSnake(value: string) returns (output: string)
    ensures output == Snake(value)
  {
    hide SnakeRest, Snake, IsCapital, ToSmall;
    SnakeEnds(value);
    output := "";
    for index := 0 to |value|
      invariant output + SnakeRest(value, index) == Snake(value)
    {
      var character := value[index];
      ghost var before := output;
      SnakeRestStep(value, index);
      Appended(output, SnakeChar(character, index), SnakeRest(value, index + 1));
      if IsCapital(character) {
        if index != 0 {
          output := output + "_";
        }
        output := output + [ToSmall(character)];
      } else {
        output := output + [character];
      }
      assert output == before + SnakeChar(character, index);
    }
  }

  function SnakeChar(c: char, index: nat): string {
    if IsCapital(c) then (if index != 0 then "_" else "") + [ToSmall(c)] else [c]
  }

  /** What the characters from `index` on are renamed to. */
  function SnakeRest(s: string, index: nat): string
    requires index <= |s|
  {
    if index == 0 then Snake(s) else SnakeTail(s[index..])
  }

  lemma SnakeEnds(s: string)
    ensures "" + SnakeRest(s, 0) == Snake(s)
    ensures forall output: string :: output + SnakeRest(s, |s|) == output
  {
    assert s[|s|..] == "" && SnakeRest(s, |s|) == "";
  }

  lemma SnakeRestStep(s: string, index: nat)
    requires index < |s|
    ensures SnakeRest(s, index) == SnakeChar(s[index], index) + SnakeRest(s, index + 1)
  {
    hide ToSmall, IsCapital;
    assert s[index..][1..] == s[index + 1..];
  }

  lemma Appended(output: string, first: string, others: string)
    ensures output + first + others == output + (first + others)
  {
  }

  predicate NoCapitals(s: string) {
    forall i | 0 <= i < |s| :: !IsCapital(s[i])
  }

  lemma {:induction false} SnakeTailWithoutCapitals(s: string)
    ensures NoCapitals(SnakeTail(s))
  {
    if s != "" {
      SnakeTailWithoutCapitals(s[1..]);
    }
  }

  lemma {:induction false} SnakeTailFixed(s: string)
    requires NoCapitals(s)
    ensures SnakeTail(s) == s
  {
    if s != "" {
      SnakeTailFixed(s[1..]);
    }
  }

  /** Renaming twice is renaming once. */
  lemma SnakeIdempotent(s: string)
    ensures Snake(Snake(s)) == Snake(s)
  {
    if s != "" {
      SnakeTailWithoutCapitals(s[1..]);
      SnakeTailFixed(SnakeTail(s[1..]));
      assert Snake(s)[1..] == SnakeTail(s[1..]);
    }
  }

  /** The opposite renaming: an underscore and a small letter become a capital. */
  function Camel(s: string): string
    decreases |s|
  {
    if s == "" then ""
    else if s[0] == '_' && |s| > 1 && IsSmall(s[1]) then [ToCapital(s[1])] + Camel(s[2..])
    else [s[0]] + Camel(s[1..])
  }

  /** No underscore stands before a small letter. */
  predicate NoSnakeBreak(s: string) {
    |s| > 1 ==> !(s[0] == '_' && IsSmall(s[1])) && NoSnakeBreak(s[1..])
  }

  lemma {:induction false} NoUnderscoreNoBreak(s: string)
    requires '_' !in s
    ensures NoSnakeBreak(s)
  {
    if |s| > 1 {
      NoUnderscoreNoBreak(s[1..]);
    }
  }

  predicate StartsCapital(s: string) {
    s != "" && IsCapital(s[0])
  }

  lemma {:induction false} SnakeTailReversible(s: string)
    ensures Camel(SnakeTail(s)) == s <==> NoSnakeBreak(s)
  {
    if s != "" {
      var tail := SnakeTail(s[1..]);
      SnakeTailReversible(s[1..]);
      assert s == [s[0]] + s[1..];
      if IsCapital(s[0]) {
        assert SnakeTail(s) == ['_', ToSmall(s[0])] + tail && SnakeTail(s)[2..] == tail;
        assert Camel(SnakeTail(s)) == [s[0]] + Camel(tail);
      } else {
        assert SnakeTail(s) == [s[0]] + tail && SnakeTail(s)[1..] == tail;
        assert |s| > 1 ==> tail[0] == if IsCapital(s[1]) then '_' else s[1];
        if s[0] == '_' && |s| > 1 && IsSmall(s[1]) {
          assert Camel(SnakeTail(s))[0] == ToCapital(s[1]);
        } else {
          assert Camel(SnakeTail(s)) == [s[0]] + Camel(tail);
        }
      }
    }
  }

  /**
   The renaming can be undone exactly for the names that do not start with a capital and have no
   underscore before a small letter; among them are all names without underscores.
   */
  lemma SnakeReversible(s: string)
    ensures Camel(Snake(s)) == s <==> !StartsCapital(s) && NoSnakeBreak(s)
  {
    if s != "" {
      if IsCapital(s[0]) {
        var t := Snake(s);
        assert t[0] == ToSmall(s[0]) && Camel(t)[0] == t[0];
      } else {
        SnakeTailReversible(s);
        assert Snake(s) == SnakeTail(s);
      }
    }
  }

  lemma SnakeInjective(s: string, t: string)
    requires !StartsCapital(s) && NoSnakeBreak(s) && !StartsCapital(t) && NoSnakeBreak(t)
    requires Snake(s) == Snake(t)
    ensures s == t
  {
    SnakeReversible(s);
    SnakeReversible(t);
  }

  /** A word of a name: it begins with a small letter and holds no capital. */
  predicate IsWord(w: string) {
    w != "" && IsSmall(w[0]) && NoCapitals(w)
  }

  function Capitalized(w: string): string
    requires IsWord(w)
  {
    [ToCapital(w[0])] + w[1..]
  }

  function CamelWords(words: seq<string>): string
    requires forall i | 0 <= i < |words| :: IsWord(words[i])
  {
    if words == [] then "" else Capitalized(words[0]) + CamelWords(words[1..])
  }

  function SnakeWords(words: seq<string>): string {
    if words == [] then "" else "_" + words[0] + SnakeWords(words[1..])
  }

  lemma {:induction false} SnakeTailSplit(s: string, t: string)
    ensures SnakeTail(s + t) == SnakeTail(s) + SnakeTail(t)
  {
    if s == "" {
      assert s + t == t;
    } else {
      assert (s + t)[1..] == s[1..] + t;
      SnakeTailSplit(s[1..], t);
    }
  }

  lemma WordRenamed(w: string)
    requires IsWord(w)
    ensures SnakeTail(Capitalized(w)) == "_" + w
  {
    assert Capitalized(w)[1..] == w[1..];
    SnakeTailFixed(w[1..]);
    assert w == [w[0]] + w[1..];
  }

  lemma {:induction false} WordsSnaked(words: seq<string>)
    requires forall i | 0 <= i < |words| :: IsWord(words[i])
    ensures SnakeTail(CamelWords(words)) == SnakeWords(words)
  {
    hide IsWord, SnakeTail, Capitalized;
    if words == [] {
      SnakeTailFixed("");
    } else {
      SnakeTailSplit(Capitalized(words[0]), CamelWords(words[1..]));
      WordRenamed(words[0]);
      WordsSnaked(words[1..]);
    }
  }

  lemma SnakeSplit(s: string, t: string)
    requires s != ""
    ensures Snake(s + t) == Snake(s) + SnakeTail(t)
  {
    hide SnakeTail;
    assert (s + t)[1..] == s[1..] + t;
    SnakeTailSplit(s[1..], t);
  }

  lemma FirstWordRenamed(first: string)
    requires first != "" && NoCapitals(first)
    ensures Snake(first) == first
    ensures IsWord(first) ==> Snake(Capitalized(first)) == first
  {
    hide SnakeTail;
    SnakeTailFixed(first[1..]);
    assert first == [first[0]] + first[1..];
    if IsWord(first) {
      assert Capitalized(first)[1..] == first[1..];
    }
  }

  /** Capitalised words get an underscore before them; the first word gets none, capitalised or not. */
  lemma WordsRenamed(first: string, words: seq<string>)
    requires first != "" && NoCapitals(first) && forall i | 0 <= i < |words| :: IsWord(words[i])
    ensures Snake(first + CamelWords(words)) == first + SnakeWords(words)
    ensures IsWord(first) ==> Snake(Capitalized(first) + CamelWords(words)) == first + SnakeWords(words)
  {
    hide Snake, SnakeTail, CamelWords, SnakeWords, NoCapitals;
    WordsSnaked(words);
    FirstWordRenamed(first);
    SnakeSplit(first, CamelWords(words));
    if IsWord(first) {
      SnakeSplit(Capitalized(first), CamelWords(words));
    }
  }

  // Type expressions

  predicate Parenthesized(s: string) {
    s != "" && s[0] == '(' && s[|s| - 1] == ')'
  }

  /** Neither an array nor in parentheses. */
  predicate Bare(s: string) {
    !EndsWith(s, "[]") && !Parenthesized(s)
  }

  /** `s` without its outermost wrapper. */
  function Peel(s: string): (r: string)
    requires !Bare(s)
    ensures |r| < |s| && Trimmed(r)
  {
    if EndsWith(s, "[]") then Trim(s[..|s| - 2]) else Trim(s[1..|s| - 1])
  }

  function Unwrapped(s: string): (r: string)
    decreases |s|
    ensures Bare(r)
    ensures Trimmed(s) ==> Trimmed(r)
  {
    if Bare(s) then s else Unwrapped(Peel(s))
  }

  method StripTypeWrappers(value: string) returns (result: string)
    ensures result == Unwrapped(Trim(value))
  {
    hide Trim;
    result := Trim(value);
    while true
      invariant Unwrapped(result) == Unwrapped(Trim(value))
      decreases |result|
    {
      var previous := result;
      if EndsWith(result, "[]") {
        result := Trim(result[..|result| - 2]);
      }
      if Parenthesized(result) {
        assert !EndsWith(result, "[]") by { assert result[|result| - 1] == ')'; }
        result := Trim(result[1..|result| - 1]);
      }
      if result == previous {
        return;
      }
    }
  }

  datatype Wrapper = ArrayOf | InParentheses(before: string, after: string)

  function Wrap(s: string, wrappers: seq<Wrapper>): string
    decreases |wrappers|
  {
    if wrappers == [] then s
    else
      match wrappers[0]
      case ArrayOf => Wrap(s + "[]", wrappers[1..])
      case InParentheses(before, after) => Wrap("(" + before + s + after + ")", wrappers[1..])
  }

  lemma ArrayMarkStripped(s: string)
    requires Trimmed(s) && s != ""
    ensures Trimmed(s + "[]") && Unwrapped(s + "[]") == Unwrapped(s)
  {
    hide Trim;
    var t := s + "[]";
    assert t[..|t| - 2] == s && t[|t| - 2..] == "[]" && t[0] == s[0];
    TrimTrimmed(s);
  }

  lemma ParenthesesStripped(s: string, before: string, after: string)
    requires Trimmed(s) && s != "" && AllWhitespace(before) && AllWhitespace(after)
    ensures var t := "(" + before + s + after + ")"; Trimmed(t) && Unwrapped(t) == Unwrapped(s)
  {
    hide Trim, AllWhitespace;
    var t := "(" + before + s + after + ")";
    assert t[1..|t| - 1] == before + s + after;
    assert t[|t| - 1] == ')' && t[0] == '(';
    TrimPadded(before, s, after);
  }

  lemma {:induction false} WrapperByWrapper(s: string, wrappers: seq<Wrapper>)
    requires Trimmed(s) && s != ""
    requires forall i | 0 <= i < |wrappers| && wrappers[i].InParentheses? ::
               AllWhitespace(wrappers[i].before) && AllWhitespace(wrappers[i].after)
    ensures Unwrapped(Trim(Wrap(s, wrappers))) == Unwrapped(s)
    decreases |wrappers|
  {
    hide AllWhitespace, Trim, Unwrapped, Trimmed;
    if wrappers == [] {
      TrimTrimmed(s);
    } else {
      var w := wrappers[0];
      if w.ArrayOf? {
        ArrayMarkStripped(s);
        WrapperByWrapper(s + "[]", wrappers[1..]);
      } else {
        ParenthesesStripped(s, w.before, w.after);
        WrapperByWrapper("(" + w.before + s + w.after + ")", wrappers[1..]);
      }
    }
  }

  /** White space, array marks and parentheses are the only wrappers, and any nesting of them is taken off. */
  lemma WrappersStripped(s: string, wrappers: seq<Wrapper>)
    requires Trimmed(s) && s != ""
    requires forall w | w in wrappers :: w.InParentheses? ==> AllWhitespace(w.before) && AllWhitespace(w.after)
    ensures Unwrapped(Trim(Wrap(s, wrappers))) == Unwrapped(s)
    ensures !EndsWith(s, "[]") && !(s[0] == '(' && s[|s| - 1] == ')') ==> Unwrapped(Trim(Wrap(s, wrappers))) == s
  {
    hide AllWhitespace, Trim, Wrap;
    WrapperByWrapper(s, wrappers);
  }
}

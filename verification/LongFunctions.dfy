/** The brace tracker of `long_fn` (tools/fp-conformance/fp_conformance.py). */
module LongFunctions {
  import opened Prelude

  const MAX_LENGTH := 60

  /** A line; `name` is there when the pattern of a function header matches. */
  datatype Line = Line(name: Option<string>, text: string)

  /** A function that is too long: the number of its first line, and how many lines later it closes. */
  datatype Report = Report(name: string, start: nat, length: nat)

  function Count(s: string, c: char): nat {
    if s == "" then 0 else (if s[0] == c then 1 else 0) + Count(s[1..], c)
  }

  function Delta(line: Line): int {
    Count(line.text, '{') - Count(line.text, '}')
  }

  /** Opening braces less closing ones on the lines from `first` up to, not including, `end`. */
  function Balance(lines: seq<Line>, first: nat, end: nat): int
    requires first <= end <= |lines|
    decreases end
  {
    if first == end then 0 else Balance(lines, first, end - 1) + Delta(lines[end - 1])
  }

  /** Counting from line `start`, the braces have not closed before line `i`. */
  ghost predicate StillOpen(lines: seq<Line>, start: nat, i: nat)
    requires start <= i <= |lines|
  {
    forall k: nat | start < k <= i :: Balance(lines, start, k) > 0
  }

  predicate Opens(line: Line) {
    line.name.Some? && '{' in line.text && Delta(line) > 0
  }

  /** A header counts unless it lies in, or on the last line of, a function that counts. */
  ghost predicate Counts(lines: seq<Line>, s: nat)
    requires s < |lines|
    decreases s
  {
    Opens(lines[s]) && forall t: nat | t < s && Counts(lines, t) :: !StillOpen(lines, t, s)
  }

  /** Line `end` is the first on which the braces opened since line `s` close. */
  ghost predicate ClosesOn(lines: seq<Line>, s: nat, end: nat) {
    s < end < |lines| && StillOpen(lines, s, end) && Balance(lines, s, end + 1) <= 0
  }

  /** What the rule promises to report. Lines are numbered from one. */
  ghost predicate TooLong(lines: seq<Line>, r: Report) {
    && 1 <= r.start <= |lines| && r.length > MAX_LENGTH
    && Counts(lines, r.start - 1) && lines[r.start - 1].name == Some(r.name)
    && ClosesOn(lines, r.start - 1, r.start - 1 + r.length)
  }

  lemma OpenEarlier(lines: seq<Line>, s: nat, i: nat, j: nat)
    requires s <= i <= j <= |lines| && StillOpen(lines, s, j)
    ensures StillOpen(lines, s, i)
  {
  }

  /** Never two functions at once. */
  lemma OneOpen(lines: seq<Line>, s: nat, t: nat, i: nat)
    requires s < i <= |lines| && t < i
    requires Counts(lines, s) && StillOpen(lines, s, i)
    requires Counts(lines, t) && StillOpen(lines, t, i)
    ensures s == t
  {
    if s < t {
      OpenEarlier(lines, s, t, i);
    } else if t < s {
      OpenEarlier(lines, t, s, i);
    }
  }

  /** The spans of two functions that count are apart. */
  lemma SpansApart(lines: seq<Line>, s: nat, end: nat, t: nat)
    requires s < t < |lines| && Counts(lines, s) && Counts(lines, t) && ClosesOn(lines, s, end)
    ensures end < t
  {
    if t <= end {
      OpenEarlier(lines, s, t, end);
    }
  }

  lemma OpenLonger(lines: seq<Line>, s: nat, i: nat)
    requires s <= i < |lines|
    ensures StillOpen(lines, s, i + 1) <==> StillOpen(lines, s, i) && Balance(lines, s, i + 1) > 0
  {
    if StillOpen(lines, s, i) && Balance(lines, s, i + 1) > 0 {
      forall k: nat | s < k <= i + 1
        ensures Balance(lines, s, k) > 0
      {
      }
    }
  }

  /** No function that counts is open before line `i`. */
  ghost predicate NoneOpen(lines: seq<Line>, i: nat)
    requires i <= |lines|
  {
    forall t: nat | t < i && Counts(lines, t) :: !StillOpen(lines, t, i)
  }

  /** The function that began on line `s` is open before line `i`. */
  ghost predicate OpenSince(lines: seq<Line>, s: nat, i: nat) {
    s < i <= |lines| && Counts(lines, s) && StillOpen(lines, s, i)
  }

  lemma StaysClosed(lines: seq<Line>, i: nat)
    requires i < |lines| && NoneOpen(lines, i)
    ensures Counts(lines, i) <==> Opens(lines[i])
    ensures !Opens(lines[i]) ==> NoneOpen(lines, i + 1)
    ensures Opens(lines[i]) ==> OpenSince(lines, i, i + 1) && Balance(lines, i, i + 1) == Delta(lines[i])
  {
    assert Balance(lines, i, i + 1) == Balance(lines, i, i) + Delta(lines[i]);
    forall t: nat | t < i && Counts(lines, t)
      ensures !StillOpen(lines, t, i + 1)
    {
      OpenLonger(lines, t, i);
    }
  }

  lemma StaysOpen(lines: seq<Line>, s: nat, i: nat)
    requires i < |lines| && OpenSince(lines, s, i)
    ensures Balance(lines, s, i + 1) > 0 ==> OpenSince(lines, s, i + 1)
    ensures Balance(lines, s, i + 1) <= 0 ==> ClosesOn(lines, s, i) && NoneOpen(lines, i + 1)
  {
    OpenLonger(lines, s, i);
    forall t: nat | t <= i && Counts(lines, t)
      ensures StillOpen(lines, t, i + 1) ==> t == s
    {
      OpenLonger(lines, t, i);
      if t < i && StillOpen(lines, t, i) {
        OneOpen(lines, s, t, i);
      }
    }
  }

  /** Only the open function can close on line `i`. */
  lemma NothingElseCloses(lines: seq<Line>, i: nat, t: nat)
    requires t < i < |lines| && Counts(lines, t) && ClosesOn(lines, t, i)
    ensures OpenSince(lines, t, i) && !NoneOpen(lines, i)
    ensures forall s: nat | OpenSince(lines, s, i) :: s == t
  {
    forall s: nat | OpenSince(lines, s, i)
      ensures s == t
    {
      OneOpen(lines, s, t, i);
    }
  }

  /** The reports for functions that close before line `i`. */
  ghost predicate ReportsUpTo(lines: seq<Line>, reports: seq<Report>, i: nat) {
    && (forall r :: r in reports <==> TooLong(lines, r) && r.start - 1 + r.length < i)
    && (forall j, k | 0 <= j < k < |reports| :: reports[j].start + reports[j].length < reports[k].start)
  }

  lemma NothingToReport(lines: seq<Line>, reports: seq<Report>, i: nat)
    requires i < |lines| && ReportsUpTo(lines, reports, i)
    requires forall t: nat | OpenSince(lines, t, i) && ClosesOn(lines, t, i) :: i - t <= MAX_LENGTH
    ensures ReportsUpTo(lines, reports, i + 1)
  {
    hide Counts, Balance;
    forall r | TooLong(lines, r) && r.start - 1 + r.length < i + 1
      ensures r in reports
    {
      if r.start - 1 + r.length == i {
        NothingElseCloses(lines, i, r.start - 1);
      }
    }
  }

  lemma ReportAdded(lines: seq<Line>, reports: seq<Report>, s: nat, i: nat, r: Report)
    requires i < |lines| && ReportsUpTo(lines, reports, i) && OpenSince(lines, s, i) && ClosesOn(lines, s, i)
    requires i - s > MAX_LENGTH && lines[s].name == Some(r.name) && r.start == s + 1 && r.length == i - s
    ensures ReportsUpTo(lines, reports + [r], i + 1)
  {
    hide Counts, Balance, StillOpen;
    forall q | TooLong(lines, q) && q.start - 1 + q.length < i + 1
      ensures q in reports || q == r
    {
      if q.start - 1 + q.length == i {
        NothingElseCloses(lines, i, q.start - 1);
      }
    }
    forall j | 0 <= j < |reports|
      ensures reports[j].start + reports[j].length < r.start
    {
      var q := reports[j];
      assert q in reports;
      ClosedBefore(lines, q.start - 1, q.start - 1 + q.length, s, i);
    }
  }

  /** A function that has closed did so before the one that is open began. */
  lemma ClosedBefore(lines: seq<Line>, s: nat, end: nat, open: nat, i: nat)
    requires s < end < i <= |lines| && Counts(lines, s) && ClosesOn(lines, s, end) && OpenSince(lines, open, i)
    ensures end < open
  {
    hide Counts;
    OpenLonger(lines, s, end);
    if open < s {
      OpenEarlier(lines, open, s, i);
      CountsOutside(lines, open, s);
    } else if s < open {
      SpansApart(lines, s, end, open);
    } else {
      OpenEarlier(lines, s, end + 1, i);
    }
  }

  lemma CountsOutside(lines: seq<Line>, t: nat, s: nat)
    requires t < s < |lines| && Counts(lines, t) && Counts(lines, s)
    ensures !StillOpen(lines, t, s)
  {
  }

  /** `long_fn`: exactly the functions that are too long, in order and apart. */
  method LongFunctions(lines: seq<Line>) returns (reports: seq<Report>)
    ensures forall r :: r in reports <==> TooLong(lines, r)
    ensures forall j, k | 0 <= j < k < |reports| :: reports[j].start + reports[j].length < reports[k].start
  {
    hide Counts, StillOpen, Balance, ClosesOn, Delta;
    var openAt: Option<nat> := None;
    var depth := 0;
    reports := [];
    NothingYet(lines);
    for i := 0 to |lines|
      invariant openAt.None? ==> NoneOpen(lines, i)
      invariant openAt.Some? ==> OpenSince(lines, openAt.value, i) && depth == Balance(lines, openAt.value, i)
      invariant ReportsUpTo(lines, reports, i)
    {
      var line := lines[i];
      if openAt.None? {
        StaysClosed(lines, i);
        NothingToReport(lines, reports, i);
        if line.name.Some? && '{' in line.text {
          openAt := Some(i);
          depth := Delta(line);
          if depth <= 0 {
            openAt := None;
          }
        }
        continue;
      }
      var s := openAt.value;
      NextBalance(lines, s, i);
      StaysOpen(lines, s, i);
      depth := depth + Delta(line);
      if depth <= 0 {
        if i - s > MAX_LENGTH {
          OpensNamed(lines, s);
          var r := Report(lines[s].name.value, s + 1, i - s);
          ReportAdded(lines, reports, s, i, r);
          reports := reports + [r];
        } else {
          OnlyOneOpen(lines, s, i);
          NothingToReport(lines, reports, i);
        }
        openAt := None;
      } else {
        OnlyOneOpen(lines, s, i);
        NothingToReport(lines, reports, i);
      }
    }
    NothingMore(lines, reports);
  }

  lemma NothingMore(lines: seq<Line>, reports: seq<Report>)
    requires ReportsUpTo(lines, reports, |lines|)
    ensures forall r :: r in reports <==> TooLong(lines, r)
  {
    hide Counts, StillOpen, Balance;
  }

  lemma NothingYet(lines: seq<Line>)
    ensures NoneOpen(lines, 0) && ReportsUpTo(lines, [], 0)
  {
  }

  lemma NextBalance(lines: seq<Line>, s: nat, i: nat)
    requires s <= i < |lines|
    ensures Balance(lines, s, i + 1) == Balance(lines, s, i) + Delta(lines[i])
  {
  }

  lemma OpensNamed(lines: seq<Line>, s: nat)
    requires s < |lines| && Counts(lines, s)
    ensures lines[s].name.Some?
  {
  }

  lemma OnlyOneOpen(lines: seq<Line>, s: nat, i: nat)
    requires OpenSince(lines, s, i)
    ensures forall t: nat | OpenSince(lines, t, i) :: t == s
    ensures i < |lines| && Balance(lines, s, i + 1) > 0 ==> !ClosesOn(lines, s, i)
  {
    hide Counts, StillOpen;
    forall t: nat | OpenSince(lines, t, i)
      ensures t == s
    {
      OneOpen(lines, s, t, i);
    }
  }
}

/** The title casing of the instructor's assessment list
    (src/components/Instructor/InstructorAssessments.js): lower-case the title, split it on
    runs of whitespace, hyphens and underscores, capitalise each piece and glue the pieces
    together. */
module AssessmentTitles {
  import opened Common

  /** The characters of the class `[\s\-_]` (whitespace restricted to ASCII). */
  const Separators: set<char> := {' ', '\t', '\n', '\r', '\U{000B}', '\U{000C}', '-', '_'}

  lemma SeparatorsAre(c: char)
    ensures c in Separators <==> IsSpace(c) || c == '-' || c == '_'
  {
  }

  /** The length of the run of separators `s` starts with. */
  function RunLength(s: string): (n: nat)
    ensures n <= |s|
    ensures forall j :: 0 <= j < n ==> s[j] in Separators
    ensures n < |s| ==> s[n] !in Separators
  {
    if s == [] || s[0] !in Separators then 0 else 1 + RunLength(s[1..])
  }

  /** `split(/[\s\-_]+/)`: the pieces between maximal runs of separators. A leading or a
      trailing run leaves an empty first or last piece, as in JavaScript. */
  function SplitRuns(s: string): (r: seq<string>)
    ensures |r| >= 1
    ensures forall k, j :: 0 <= k < |r| && 0 <= j < |r[k]| ==> r[k][j] !in Separators
    decreases |s|
  {
    var k := FirstIndexOf(s, Separators);
    if k == |s| then [s]
    else
      var rest := s[k..];
      [s[..k]] + SplitRuns(rest[RunLength(rest)..])
  }

  /** Characters that end up in some piece. */
  predicate InPiece(c: char) { c !in Separators }

  /** The number of maximal runs of separators in s. */
  function RunCount(s: string): nat
    decreases |s|
  {
    if s == [] then 0
    else if s[0] in Separators then 1 + RunCount(s[RunLength(s)..])
    else RunCount(s[1..])
  }

  lemma {:induction false} RunCountAfterFree(a: string, rest: string)
    requires forall j :: 0 <= j < |a| ==> a[j] !in Separators
    ensures RunCount(a + rest) == RunCount(rest)
  {
    if a == [] {
      assert a + rest == rest;
    } else {
      assert (a + rest)[1..] == a[1..] + rest;
      RunCountAfterFree(a[1..], rest);
    }
  }

  /** The pieces of `split(/[\s\-_]+/)` are the maximal separator-free stretches: glued
      together they give the string without its separators, there is one more piece than
      there are runs of separators, and only the first and the last piece can be empty. */
  lemma SplitRunsPieces(s: string)
    ensures Join(SplitRuns(s), "") == Filter(s, InPiece)
    ensures |SplitRuns(s)| == RunCount(s) + 1
    ensures InnerNonEmpty(SplitRuns(s))
  {
    SplitRunsGlued(s);
    SplitRunsCount(s);
    SplitRunsInner(s);
  }

  lemma {:induction false} SplitRunsGlued(s: string)
    ensures Join(SplitRuns(s), "") == Filter(s, InPiece)
    decreases |s|
  {
    var k := FirstIndexOf(s, Separators);
    if k == |s| {
      FilterKeepsAll(s, InPiece);
    } else {
      var a, rest := s[..k], s[k..];
      var n := RunLength(rest);
      var tail := rest[n..];
      assert s == a + rest;
      SplitRunsGlued(tail);
      SplitRunsAfterFree(a, rest);
      JoinCons(a, SplitRuns(tail), "");
      assert a + "" == a;
      FilterAppend(a, rest, InPiece);
      FilterKeepsAll(a, InPiece);
      FilterRun(rest, n);
    }
  }

  /** What follows a piece: its run of separators passes nothing through the filter. */
  lemma FilterRun(rest: string, n: nat)
    requires n == RunLength(rest)
    ensures Filter(rest, InPiece) == Filter(rest[n..], InPiece)
  {
    assert rest == rest[..n] + rest[n..];
    FilterAppend(rest[..n], rest[n..], InPiece);
    FilterDropsAll(rest[..n], InPiece);
  }

  lemma {:induction false} SplitRunsCount(s: string)
    ensures |SplitRuns(s)| == RunCount(s) + 1
    decreases |s|
  {
    var k := FirstIndexOf(s, Separators);
    if k == |s| {
      RunCountAfterFree(s, []);
      assert s + [] == s;
    } else {
      var a, rest := s[..k], s[k..];
      assert s == a + rest;
      SplitRunsCount(rest[RunLength(rest)..]);
      SplitRunsAfterFree(a, rest);
      RunCountAfterFree(a, rest);
    }
  }

  /** Only the first and the last piece may be empty. */
  predicate InnerNonEmpty(pieces: seq<string>) {
    forall k :: 0 < k < |pieces| - 1 ==> pieces[k] != []
  }

  lemma InnerNonEmptyCons(a: string, pieces: seq<string>)
    requires InnerNonEmpty(pieces) && (|pieces| > 1 ==> pieces[0] != [])
    ensures InnerNonEmpty([a] + pieces)
  {
    forall k | 0 < k < |pieces| ensures ([a] + pieces)[k] != [] {
      assert ([a] + pieces)[k] == pieces[k - 1];
    }
  }

  lemma {:induction false} SplitRunsInner(s: string)
    ensures InnerNonEmpty(SplitRuns(s))
    ensures s != [] && s[0] !in Separators ==> SplitRuns(s)[0] != []
    decreases |s|
  {
    var k := FirstIndexOf(s, Separators);
    if k < |s| {
      var a, rest := s[..k], s[k..];
      var tail := rest[RunLength(rest)..];
      assert s == a + rest;
      SplitRunsInner(tail);
      SplitRunsAfterFree(a, rest);
      if tail == [] {
        assert SplitRuns(tail) == [tail];
      }
      InnerNonEmptyCons(a, SplitRuns(tail));
    }
  }

  /** The number of separator characters in t. */
  function SeparatorCount(t: string): nat
  {
    if t == [] then 0 else (if t[0] in Separators then 1 else 0) + SeparatorCount(t[1..])
  }

  /** A reference definition by a left-to-right scan: separators are dropped, and the first
      character after a separator (or at the start) is upper-cased. */
  function Squash(t: string, atStart: bool): (r: string)
    ensures |r| + SeparatorCount(t) == |t|
    ensures forall i :: 0 <= i < |r| ==> r[i] !in Separators
  {
    if t == [] then []
    else if t[0] in Separators then Squash(t[1..], true)
    else [if atStart then Upper(t[0]) else t[0]] + Squash(t[1..], false)
  }

  lemma {:induction false} SquashFree(w: string, atStart: bool)
    requires forall j :: 0 <= j < |w| ==> w[j] !in Separators
    ensures Squash(w, atStart) == if atStart then CapitalizeFirst(w) else w
  {
    if w != [] {
      SquashFree(w[1..], false);
    }
  }

  /** A piece without separators, followed by a separator, scans independently. */
  lemma {:induction false} SquashPiece(a: string, b: string, atStart: bool)
    requires forall j :: 0 <= j < |a| ==> a[j] !in Separators
    requires b != [] && b[0] in Separators
    ensures Squash(a + b, atStart) == Squash(a, atStart) + Squash(b, true)
  {
    if a == [] {
      assert a + b == b;
    } else {
      assert (a + b)[1..] == a[1..] + b;
      SquashPiece(a[1..], b, false);
    }
  }

  lemma {:induction false} SquashSkipRun(t: string, n: nat)
    requires n <= |t| && forall j :: 0 <= j < n ==> t[j] in Separators
    ensures Squash(t, true) == Squash(t[n..], true)
  {
    if n > 0 {
      assert t[1..][n - 1..] == t[n..];
      SquashSkipRun(t[1..], n - 1);
    }
  }

  /** A piece free of separators, then a run of them: the piece comes first and what
      follows the run is split on its own. */
  lemma SplitRunsAfterFree(a: string, rest: string)
    requires forall j :: 0 <= j < |a| ==> a[j] !in Separators
    requires rest != [] && rest[0] in Separators
    ensures SplitRuns(a + rest) == [a] + SplitRuns(rest[RunLength(rest)..])
  {
    FirstIndexOfFree(a, rest, Separators);
    assert (a + rest)[..|a|] == a && (a + rest)[|a|..] == rest;
  }

  /** The chain on a piece followed by separators: the piece capitalised, then the chain on
      what follows the run. */
  lemma PiecesStep(a: string, rest: string)
    requires forall j :: 0 <= j < |a| ==> a[j] !in Separators
    requires rest != [] && rest[0] in Separators
    ensures Join(CapitalizeAll(SplitRuns(a + rest)), "") ==
      CapitalizeFirst(a) + Join(CapitalizeAll(SplitRuns(rest[RunLength(rest)..])), "")
  {
    var tail := SplitRuns(rest[RunLength(rest)..]);
    SplitRunsAfterFree(a, rest);
    CapitalizeAllCons(a, tail);
    JoinCons(CapitalizeFirst(a), CapitalizeAll(tail), "");
    assert CapitalizeFirst(a) + "" == CapitalizeFirst(a);
  }

  /** The split-map-join chain is the scan: every piece appears in order, capitalised, and
      nothing separates them. */
  lemma {:induction false} PiecesAreScan(t: string)
    ensures Join(CapitalizeAll(SplitRuns(t)), "") == Squash(t, true)
    decreases |t|
  {
    var k := FirstIndexOf(t, Separators);
    if k == |t| {
      assert SplitRuns(t) == [t];
      SquashFree(t, true);
    } else {
      var a := t[..k];
      var rest := t[k..];
      var n := RunLength(rest);
      assert t == a + rest;
      PiecesStep(a, rest);
      PiecesAreScan(rest[n..]);
      SquashPiece(a, rest, true);
      SquashFree(a, true);
      SquashSkipRun(rest, n);
    }
  }

  lemma {:induction false} SeparatorCountOfLower(s: string)
    ensures SeparatorCount(LowerStr(s)) == SeparatorCount(s)
  {
    if s != [] {
      assert LowerStr(s)[1..] == LowerStr(s[1..]);
      SeparatorCountOfLower(s[1..]);
    }
  }

  /** toPascalCase: a missing or empty title is returned as it is; otherwise the result
      holds no separator, is shorter than the title by exactly its number of separators,
      and is the scan of the lower-cased title. */
  function PascalCase(str: Option<string>): (r: Option<string>)
    ensures r.None? <==> str.None?
    ensures str == Some("") ==> r == Some("")
    ensures r.Some? ==> forall i :: 0 <= i < |r.value| ==> r.value[i] !in Separators
    ensures r.Some? ==> |r.value| == |str.value| - SeparatorCount(str.value)
    ensures r.Some? ==> r.value == Squash(LowerStr(str.value), true)
  {
    match str
    case None => None
    case Some(s) =>
      if s == "" then Some(s)
      else
        PiecesAreScan(LowerStr(s));
        SeparatorCountOfLower(s);
        Some(Join(CapitalizeAll(SplitRuns(LowerStr(s))), ""))
  }
}

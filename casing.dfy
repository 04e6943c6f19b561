/** The two regular-expression replacements shared by the toPascalCase helpers of
    src/components/Student/ViewResults.js and src/components/Student/StudentAssessmentList.js:
    `replace(/[^a-zA-Z0-9 ]/g, "")` and
    `replace(/\w+/g, w => w[0].toUpperCase() + w.slice(1).toLowerCase())`. */
module Casing {
  import opened Common

  /** The characters `/[^a-zA-Z0-9 ]/g` keeps: ASCII letters, digits and the space. */
  predicate IsKept(c: char) { IsLetter(c) || IsDigit(c) || c == ' ' }

  /** `replace(/[^a-zA-Z0-9 ]/g, "")`: every other character is dropped, the rest keep
      their order. */
  function StripSymbols(s: string): (r: string)
    ensures |r| <= |s|
    ensures forall i :: 0 <= i < |r| ==> IsKept(r[i])
    ensures forall i :: 0 <= i < |s| && IsKept(s[i]) ==> s[i] in r
    ensures (forall i :: 0 <= i < |s| ==> IsKept(s[i])) ==> r == s
    ensures r == Filter(s, IsKept)
  {
    if s == [] then []
    else (if IsKept(s[0]) then [s[0]] else []) + StripSymbols(s[1..])
  }

  /** The replacement works character by character: stripping a concatenation strips each
      part and keeps them in order. */
  lemma StripSymbolsAppend(a: string, b: string)
    ensures StripSymbols(a + b) == StripSymbols(a) + StripSymbols(b)
  {
    FilterAppend(a, b, IsKept);
  }

  /** Whether position i of s begins a maximal run of `\w` characters, when the character
      before s (if any) is or is not one. */
  predicate StartsWord(s: string, i: nat, afterWord: bool)
    requires i < |s|
  {
    if i == 0 then !afterWord else !IsWordChar(s[i - 1])
  }

  /** The `\w+` replacement as a scan that remembers whether it is inside a word: the first
      character of each run is upper-cased, the others lower-cased, and every other
      character is copied. */
  function CapitalizeFrom(s: string, afterWord: bool): (r: string)
    ensures |r| == |s|
    ensures forall i :: 0 <= i < |s| ==>
      r[i] == (if !IsWordChar(s[i]) then s[i]
               else if StartsWord(s, i, afterWord) then Upper(s[i]) else Lower(s[i]))
  {
    if s == [] then []
    else
      var c := s[0];
      var rest := CapitalizeFrom(s[1..], IsWordChar(c));
      var r := [if !IsWordChar(c) then c else if afterWord then Lower(c) else Upper(c)] + rest;
      assert forall i :: 1 <= i < |s| ==> s[1..][i - 1] == s[i] && r[i] == rest[i - 1];
      r
  }

  /** `replace(/\w+/g, …)` over a whole string. */
  function CapitalizeWords(s: string): (r: string)
    ensures |r| == |s|
    ensures forall i :: 0 <= i < |s| && !IsWordChar(s[i]) ==> r[i] == s[i]
    ensures forall i :: 0 <= i < |s| && IsWordChar(s[i]) ==>
      r[i] == (if i == 0 || !IsWordChar(s[i - 1]) then Upper(s[i]) else Lower(s[i]))
  {
    CapitalizeFrom(s, false)
  }

  /** The replacement changes letters at most in case: kept characters stay kept and spaces
      stay where they were. */
  lemma CapitalizeWordsCharacters(s: string)
    requires AllKept(s)
    ensures AllKept(CapitalizeWords(s))
    ensures forall i :: 0 <= i < |s| ==> (CapitalizeWords(s)[i] == ' ' <==> s[i] == ' ')
    ensures SameUpToCase(CapitalizeWords(s), s)
  {
    var r := CapitalizeWords(s);
    forall i | 0 <= i < |s|
      ensures IsKept(r[i]) && (r[i] == ' ' <==> s[i] == ' ') && Lower(r[i]) == Lower(s[i])
    {
      CaseMappingKeepsWordChars(s[i]);
    }
  }

  /** Every letter is upper-case exactly when it begins a run of `\w` characters. */
  predicate WellCased(t: string) {
    forall i :: 0 <= i < |t| && IsLetter(t[i]) ==> (IsUpper(t[i]) <==> (i == 0 || !IsWordChar(t[i - 1])))
  }

  lemma CaseMappingKeepsWordChars(c: char)
    ensures IsWordChar(Upper(c)) == IsWordChar(c) && IsWordChar(Lower(c)) == IsWordChar(c)
    ensures IsLetter(c) ==> IsUpper(Upper(c)) && !IsUpper(Lower(c))
    ensures IsLetter(Upper(c)) == IsLetter(c) && IsLetter(Lower(c)) == IsLetter(c)
  {
  }

  /** The replacement leaves every word capitalised and the rest of it lower-case. */
  lemma CapitalizeWordsWellCased(s: string)
    ensures WellCased(CapitalizeWords(s))
  {
    var r := CapitalizeWords(s);
    forall i | 0 <= i < |r| && IsLetter(r[i])
      ensures IsUpper(r[i]) <==> (i == 0 || !IsWordChar(r[i - 1]))
    {
      CaseMappingKeepsWordChars(s[i]);
      if i > 0 {
        CaseMappingKeepsWordChars(s[i - 1]);
      }
    }
  }

  /** A piece of a well-cased string that starts at its beginning or after a non-word
      character is well-cased. */
  lemma WellCasedSlice(t: string, k: nat, e: nat)
    requires WellCased(t) && k <= e <= |t|
    requires k == 0 || (k < |t| && !IsWordChar(t[k - 1])) || k == e
    ensures WellCased(t[k..e])
  {
    var u := t[k..e];
    forall i | 0 <= i < |u| && IsLetter(u[i])
      ensures IsUpper(u[i]) <==> (i == 0 || !IsWordChar(u[i - 1]))
    {
      assert u[i] == t[k + i] && IsLetter(t[k + i]);
      var j := k + i;
      assert 0 <= j < |t| && IsLetter(t[j]);
      assert IsUpper(t[j]) <==> (j == 0 || !IsWordChar(t[j - 1]));
      if i > 0 {
        assert u[i - 1] == t[k + i - 1];
      }
    }
  }

  lemma {:induction false} TrimStartWellCased(t: string)
    requires WellCased(t)
    ensures WellCased(TrimStart(t))
    decreases |t|
  {
    if t != [] && IsSpace(t[0]) {
      WellCasedSlice(t, 1, |t|);
      assert t[1..|t|] == t[1..];
      TrimStartWellCased(t[1..]);
    }
  }

  /** Trimming keeps a string well-cased: only whitespace, never a word character, is cut. */
  lemma TrimWellCased(t: string)
    requires WellCased(t)
    ensures WellCased(Trim(t))
  {
    TrimStartWellCased(t);
    var u := TrimStart(t);
    WellCasedSlice(u, 0, |TrimEnd(u)|);
    assert Trim(t) == TrimEnd(u) == u[0..|TrimEnd(u)|];
  }

  predicate AllKept(t: string) {
    forall i :: 0 <= i < |t| ==> IsKept(t[i])
  }

  lemma SliceAllKept(t: string, a: nat, b: nat)
    requires AllKept(t) && a <= b <= |t|
    ensures AllKept(t[a..b])
  {
    forall i | 0 <= i < b - a
      ensures IsKept(t[a..b][i])
    {
      assert t[a..b][i] == t[a + i];
    }
  }

  /** Trimming only removes characters, so a string of kept characters stays one. */
  lemma TrimKeepsKept(t: string)
    requires AllKept(t)
    ensures AllKept(Trim(t))
  {
    var u := TrimStart(t);
    SliceAllKept(t, |t| - |u|, |t|);
    assert u == t[|t| - |u|..|t|];
    var v := TrimEnd(u);
    SliceAllKept(u, 0, |v|);
    assert v == u[0..|v|];
  }
}

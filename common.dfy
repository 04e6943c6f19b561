/** Values and string operations that several components of the front end share:
    an Option for JavaScript's null/undefined, ASCII case mapping, whitespace, trimming,
    substring search, String.prototype.split on single characters, Array.prototype.join,
    Array.prototype.filter, decimal rendering of numbers, and Math.round of a percentage. */
module Common {

  datatype Option<+T> = None | Some(value: T)

  // ---------------------------------------------------------------------------
  // Characters (ASCII only: Unicode case mapping is not modelled)

  predicate IsUpper(c: char) { 'A' <= c <= 'Z' }
  predicate IsLower(c: char) { 'a' <= c <= 'z' }
  predicate IsDigit(c: char) { '0' <= c <= '9' }
  predicate IsLetter(c: char) { IsUpper(c) || IsLower(c) }

  /** The class `\w` of JavaScript regular expressions. */
  predicate IsWordChar(c: char) { IsLetter(c) || IsDigit(c) || c == '_' }

  /** The class `\s` and the characters String.prototype.trim removes, restricted to ASCII. */
  predicate IsSpace(c: char) {
    c == ' ' || c == '\t' || c == '\n' || c == '\r' || c == '\U{000B}' || c == '\U{000C}'
  }

  /** String.prototype.toLowerCase on one ASCII character. */
  function Lower(c: char): (r: char)
    ensures IsUpper(c) ==> IsLower(r) && r as int == c as int + 32
    ensures !IsUpper(c) ==> r == c
  {
    if IsUpper(c) then (c as int + 32) as char else c
  }

  /** String.prototype.toUpperCase on one ASCII character. */
  function Upper(c: char): (r: char)
    ensures IsLower(c) ==> IsUpper(r) && r as int == c as int - 32
    ensures !IsLower(c) ==> r == c
  {
    if IsLower(c) then (c as int - 32) as char else c
  }

  /** Lower-casing forgets an earlier case mapping. */
  lemma LowerOfCase(c: char)
    ensures Lower(Upper(c)) == Lower(c) && Lower(Lower(c)) == Lower(c)
  {
  }

  lemma UpperOfLower(c: char)
    ensures IsLetter(c) ==> IsUpper(Upper(Lower(c)))
    ensures Upper(Lower(c)) == Upper(c)
  {
  }

  function LowerStr(s: string): (r: string)
    ensures |r| == |s|
    ensures forall i :: 0 <= i < |s| ==> r[i] == Lower(s[i])
  {
    seq(|s|, i requires 0 <= i < |s| => Lower(s[i]))
  }

  /** `w.charAt(0).toUpperCase() + w.slice(1)`. */
  function CapitalizeFirst(w: string): (r: string)
    ensures |r| == |w|
    ensures |w| > 0 ==> r[0] == Upper(w[0]) && r[1..] == w[1..]
  {
    if w == [] then [] else [Upper(w[0])] + w[1..]
  }

  /** CapitalizeFirst over every piece: `.map(word => word.charAt(0).toUpperCase() + word.slice(1))`. */
  function CapitalizeAll(parts: seq<string>): (r: seq<string>)
    ensures |r| == |parts|
  {
    if parts == [] then [] else [CapitalizeFirst(parts[0])] + CapitalizeAll(parts[1..])
  }

  lemma CapitalizeAllCons(w: string, rest: seq<string>)
    ensures CapitalizeAll([w] + rest) == [CapitalizeFirst(w)] + CapitalizeAll(rest)
  {
    assert ([w] + rest)[1..] == rest;
  }

  // ---------------------------------------------------------------------------
  // Whitespace and trimming

  predicate IsBlank(s: string) { forall i :: 0 <= i < |s| ==> IsSpace(s[i]) }

  function TrimStart(s: string): (r: string)
    ensures r == [] || !IsSpace(r[0])
    ensures |r| <= |s| && r == s[|s| - |r|..]
    ensures forall i :: 0 <= i < |s| - |r| ==> IsSpace(s[i])
    decreases |s|
  {
    if s != [] && IsSpace(s[0]) then TrimStart(s[1..]) else s
  }

  function TrimEnd(s: string): (r: string)
    ensures r == [] || !IsSpace(r[|r| - 1])
    ensures |r| <= |s| && r == s[..|r|]
    ensures forall i :: |r| <= i < |s| ==> IsSpace(s[i])
    decreases |s|
  {
    if s != [] && IsSpace(s[|s| - 1]) then TrimEnd(s[..|s| - 1]) else s
  }

  /** String.prototype.trim: the string without its leading and trailing whitespace. */
  function Trim(s: string): (r: string)
    ensures r == [] || (!IsSpace(r[0]) && !IsSpace(r[|r| - 1]))
    ensures |r| <= |s|
    ensures r == [] <==> IsBlank(s)
  {
    var t := TrimStart(s);
    assert forall i :: 0 <= i < |t| ==> t[i] == s[|s| - |t| + i];
    TrimEnd(t)
  }

  /** A string that holds no whitespace is its own trim. */
  lemma TrimOfUnpadded(s: string)
    requires s == [] || (!IsSpace(s[0]) && !IsSpace(s[|s| - 1]))
    ensures Trim(s) == s
  {
  }

  /** The string without its whitespace. */
  function NonSpace(s: string): (r: string)
    ensures |r| <= |s|
    ensures forall i :: 0 <= i < |r| ==> !IsSpace(r[i])
  {
    if s == [] then [] else (if IsSpace(s[0]) then [] else [s[0]]) + NonSpace(s[1..])
  }

  lemma {:induction false} NonSpaceAppend(a: string, b: string)
    ensures NonSpace(a + b) == NonSpace(a) + NonSpace(b)
  {
    if a == [] {
      assert a + b == b;
    } else {
      assert (a + b)[1..] == a[1..] + b;
      NonSpaceAppend(a[1..], b);
    }
  }

  lemma {:induction false} NonSpaceOfBlank(s: string)
    requires IsBlank(s)
    ensures NonSpace(s) == []
  {
    if s != [] {
      NonSpaceOfBlank(s[1..]);
    }
  }

  lemma {:induction false} NonSpaceOfTrimStart(s: string)
    ensures NonSpace(TrimStart(s)) == NonSpace(s)
    decreases |s|
  {
    if s != [] && IsSpace(s[0]) {
      NonSpaceOfTrimStart(s[1..]);
    }
  }

  lemma NonSpaceOfTrimEnd(s: string)
    ensures NonSpace(TrimEnd(s)) == NonSpace(s)
  {
    var t := TrimEnd(s);
    var tail := s[|t|..];
    assert s == t + tail;
    NonSpaceAppend(t, tail);
    NonSpaceOfBlank(tail);
  }

  /** Trimming removes whitespace only. */
  lemma NonSpaceOfTrim(s: string)
    ensures NonSpace(Trim(s)) == NonSpace(s)
  {
    NonSpaceOfTrimStart(s);
    NonSpaceOfTrimEnd(TrimStart(s));
  }

  /** Two strings that differ at most in the case of their letters. */
  predicate SameUpToCase(a: string, b: string) {
    |a| == |b| && forall i :: 0 <= i < |a| ==> Lower(a[i]) == Lower(b[i])
  }

  /** Case mapping never turns whitespace into something else or back. */
  lemma LowerKeepsSpace(c: char)
    ensures IsSpace(Lower(c)) <==> IsSpace(c)
  {
  }

  lemma {:induction false} SameUpToCaseNonSpace(a: string, b: string)
    requires SameUpToCase(a, b)
    ensures SameUpToCase(NonSpace(a), NonSpace(b))
  {
    if a != [] {
      LowerKeepsSpace(a[0]);
      LowerKeepsSpace(b[0]);
      assert SameUpToCase(a[1..], b[1..]) by {
        forall i | 0 <= i < |a| - 1 ensures Lower(a[1..][i]) == Lower(b[1..][i]) {
          assert a[1..][i] == a[i + 1] && b[1..][i] == b[i + 1];
        }
      }
      SameUpToCaseNonSpace(a[1..], b[1..]);
    }
  }

  lemma SameUpToCaseSlice(a: string, b: string, i: nat, j: nat)
    requires SameUpToCase(a, b) && i <= j <= |a|
    ensures SameUpToCase(a[i..j], b[i..j])
  {
    forall k | 0 <= k < j - i ensures Lower(a[i..j][k]) == Lower(b[i..j][k]) {
      assert a[i..j][k] == a[i + k] && b[i..j][k] == b[i + k];
    }
  }

  lemma {:induction false} TrimStartSameUpToCase(a: string, b: string)
    requires SameUpToCase(a, b)
    ensures SameUpToCase(TrimStart(a), TrimStart(b))
    decreases |a|
  {
    if a != [] {
      LowerKeepsSpace(a[0]);
      LowerKeepsSpace(b[0]);
      if IsSpace(a[0]) {
        SameUpToCaseSlice(a, b, 1, |a|);
        assert a[1..|a|] == a[1..] && b[1..|b|] == b[1..];
        TrimStartSameUpToCase(a[1..], b[1..]);
      }
    }
  }

  lemma {:induction false} TrimEndSameUpToCase(a: string, b: string)
    requires SameUpToCase(a, b)
    ensures SameUpToCase(TrimEnd(a), TrimEnd(b))
    decreases |a|
  {
    if a != [] {
      LowerKeepsSpace(a[|a| - 1]);
      LowerKeepsSpace(b[|b| - 1]);
      if IsSpace(a[|a| - 1]) {
        SameUpToCaseSlice(a, b, 0, |a| - 1);
        TrimEndSameUpToCase(a[..|a| - 1], b[..|b| - 1]);
      }
    }
  }

  /** Whitespace sits at the same places in two strings that differ only in case, so
      trimming both cuts the same amount from each. */
  lemma TrimSameUpToCase(a: string, b: string)
    requires SameUpToCase(a, b)
    ensures SameUpToCase(Trim(a), Trim(b))
  {
    TrimStartSameUpToCase(a, b);
    TrimEndSameUpToCase(TrimStart(a), TrimStart(b));
  }

  // ---------------------------------------------------------------------------
  // Substrings

  /** String.prototype.includes: `t` occurs in `s` at some position. */
  predicate Contains(s: string, t: string)
    decreases |s|
  {
    t <= s || (s != [] && Contains(s[1..], t))
  }

  // ---------------------------------------------------------------------------
  // Array.prototype.filter and join, String.prototype.split

  /** Array.prototype.filter: the elements that satisfy `p`, in their original order. */
  function Filter<T>(xs: seq<T>, p: T -> bool): (r: seq<T>)
    ensures |r| <= |xs|
    ensures forall i :: 0 <= i < |r| ==> r[i] in xs && p(r[i])
    ensures forall i :: 0 <= i < |xs| && p(xs[i]) ==> xs[i] in r
  {
    if xs == [] then []
    else (if p(xs[0]) then [xs[0]] else []) + Filter(xs[1..], p)
  }

  /** Filtering a concatenation filters each part and keeps the parts in order. */
  lemma {:induction false} FilterAppend<T>(a: seq<T>, b: seq<T>, p: T -> bool)
    ensures Filter(a + b, p) == Filter(a, p) + Filter(b, p)
  {
    if a == [] {
      assert a + b == b;
    } else {
      assert (a + b)[1..] == a[1..] + b;
      FilterAppend(a[1..], b, p);
    }
  }

  /** A filter that every element passes keeps the whole sequence. */
  lemma {:induction false} FilterKeepsAll<T>(xs: seq<T>, p: T -> bool)
    requires forall i :: 0 <= i < |xs| ==> p(xs[i])
    ensures Filter(xs, p) == xs
  {
    if xs != [] {
      FilterKeepsAll(xs[1..], p);
    }
  }

  /** A filter that no element passes keeps nothing. */
  lemma {:induction false} FilterDropsAll<T>(xs: seq<T>, p: T -> bool)
    requires forall i :: 0 <= i < |xs| ==> !p(xs[i])
    ensures Filter(xs, p) == []
  {
    if xs != [] {
      FilterDropsAll(xs[1..], p);
    }
  }

  /** A prefix one element longer is the prefix and that element. */
  lemma PrefixStep<T>(xs: seq<T>, i: nat)
    requires i < |xs|
    ensures xs[..i + 1] == xs[..i] + [xs[i]]
  {
  }

  /** A sequence is what comes before position i, the element there, and what follows. */
  lemma SplitAround<T>(xs: seq<T>, i: nat)
    requires i < |xs|
    ensures xs == xs[..i] + [xs[i]] + xs[i + 1..]
  {
  }

  /** Position of the first character of `s` in `seps`, or |s| if there is none. */

  function FirstIndexOf(s: string, seps: set<char>): (k: nat)
    ensures k <= |s|
    ensures forall j :: 0 <= j < k ==> s[j] !in seps
    ensures k < |s| ==> s[k] in seps
  {
    if s == [] || s[0] in seps then 0 else 1 + FirstIndexOf(s[1..], seps)
  }

  /** String.prototype.split with a one-character separator (or a set of them, each
      occurrence splitting): empty pieces are kept, so there is always one more piece
      than there are separators. */
  function Split(s: string, seps: set<char>): (r: seq<string>)
    ensures |r| >= 1
    ensures forall k, j :: 0 <= k < |r| && 0 <= j < |r[k]| ==> r[k][j] !in seps
    decreases |s|
  {
    var k := FirstIndexOf(s, seps);
    if k == |s| then [s] else [s[..k]] + Split(s[k + 1..], seps)
  }

  /** There is exactly one piece when there is no separator, and then it is the whole string. */
  lemma SplitWithoutSeparator(s: string, seps: set<char>)
    ensures |Split(s, seps)| == 1 <==> FirstIndexOf(s, seps) == |s|
    ensures FirstIndexOf(s, seps) == |s| ==> Split(s, seps) == [s]
  {
  }

  /** Array.prototype.join. */
  function Join(parts: seq<string>, sep: string): string
  {
    if parts == [] then []
    else if |parts| == 1 then parts[0]
    else parts[0] + sep + Join(parts[1..], sep)
  }

  lemma JoinCons(x: string, rest: seq<string>, sep: string)
    requires rest != []
    ensures Join([x] + rest, sep) == x + sep + Join(rest, sep)
  {
    assert ([x] + rest)[1..] == rest;
  }

  /** Splitting on one character and joining with it gives the string back. */
  lemma {:induction false} SplitJoin(s: string, c: char)
    ensures Join(Split(s, {c}), [c]) == s
    decreases |s|
  {
    var k := FirstIndexOf(s, {c});
    if k < |s| {
      var a, rest := s[..k], s[k + 1..];
      assert s == a + [c] + rest;
      assert forall j :: 0 <= j < |a| ==> a[j] == s[j];
      SplitAfterFree(a, c, rest, {c});
      JoinCons(a, Split(rest, {c}), [c]);
      SplitJoin(rest, c);
    }
  }

  /** Joining pieces that do not hold the separator and splitting again gives them back. */
  lemma {:induction false} JoinSplit(parts: seq<string>, c: char)
    requires |parts| >= 1
    requires forall k, j :: 0 <= k < |parts| && 0 <= j < |parts[k]| ==> parts[k][j] != c
    ensures Split(Join(parts, [c]), {c}) == parts
    decreases |parts|
  {
    var s := Join(parts, [c]);
    var a := parts[0];
    if |parts| == 1 {
      assert FirstIndexOf(s, {c}) == |s| by { FirstIndexOfFree(a, [], {c}); }
    } else {
      var rest := Join(parts[1..], [c]);
      assert parts == [a] + parts[1..];
      JoinCons(a, parts[1..], [c]);
      SplitAfterFree(a, c, rest, {c});
      forall k, j | 0 <= k < |parts| - 1 && 0 <= j < |parts[1..][k]|
        ensures parts[1..][k][j] != c
      {
        assert parts[1..][k] == parts[k + 1];
      }
      JoinSplit(parts[1..], c);
    }
  }

  /** The first separator of `a + b`, when `a` holds none, is the first of `b`. */
  lemma {:induction false} FirstIndexOfFree(a: string, b: string, seps: set<char>)
    requires forall j :: 0 <= j < |a| ==> a[j] !in seps
    ensures FirstIndexOf(a + b, seps) == |a| + FirstIndexOf(b, seps)
  {
    if a != [] {
      assert (a + b)[1..] == a[1..] + b;
      FirstIndexOfFree(a[1..], b, seps);
    } else {
      assert a + b == b;
    }
  }

  /** A piece free of separators, then a separator: the piece comes first and the rest is
      split on its own. */
  lemma SplitAfterFree(a: string, c: char, b: string, seps: set<char>)
    requires forall j :: 0 <= j < |a| ==> a[j] !in seps
    requires c in seps
    ensures Split(a + [c] + b, seps) == [a] + Split(b, seps)
  {
    var s := a + [c] + b;
    assert s == a + ([c] + b);
    FirstIndexOfFree(a, [c] + b, seps);
    assert s[..|a|] == a && s[|a| + 1..] == b;
  }

  // ---------------------------------------------------------------------------
  // Decimal numbers

  function DigitChar(d: nat): (c: char)
    requires d < 10
    ensures IsDigit(c)
  {
    ('0' as int + d) as char
  }

  /** The decimal rendering of a natural number, as template literals and String() give it. */
  function DecimalString(n: nat): (r: string)
    ensures |r| >= 1
    ensures forall i :: 0 <= i < |r| ==> IsDigit(r[i])
  {
    if n < 10 then [DigitChar(n)] else DecimalString(n / 10) + [DigitChar(n % 10)]
  }

  function DigitsValue(s: string): int
    requires forall i :: 0 <= i < |s| ==> IsDigit(s[i])
  {
    if s == [] then 0 else DigitsValue(s[..|s| - 1]) * 10 + (s[|s| - 1] as int - '0' as int)
  }

  /** Reading the digits back gives the number: the rendering loses nothing. */
  lemma {:induction false} DecimalRoundTrip(n: nat)
    ensures DigitsValue(DecimalString(n)) == n
  {
    if n >= 10 {
      DecimalRoundTrip(n / 10);
      var s := DecimalString(n);
      assert s[..|s| - 1] == DecimalString(n / 10);
    }
  }

  /** Distinct numbers have distinct renderings. */
  lemma DecimalInjective(m: nat, n: nat)
    requires m != n
    ensures DecimalString(m) != DecimalString(n)
  {
    DecimalRoundTrip(m);
    DecimalRoundTrip(n);
  }

  // ---------------------------------------------------------------------------
  // Rounded percentages

  /** Math.round((s / m) * 100) for a positive m, in integers: Math.round(x) is floor(x + 1/2). */
  function RoundedPercent(s: int, m: int): (r: int)
    requires m > 0
    ensures 2 * m * r - m <= 200 * s < 2 * m * r + m
  {
    (200 * s + m) / (2 * m)
  }

  lemma MulMonotone(m: int, a: int, b: int)
    requires m > 0
    ensures a >= b ==> m * a >= m * b
  {
    assert m * a - m * b == m * (a - b);
  }

  /** Multiplying by a positive number keeps the order, in both directions. */
  lemma MulCompare(m: int, a: int, b: int)
    requires m > 0
    ensures a >= b <==> m * a >= m * b
  {
    MulMonotone(m, a, b);
    MulMonotone(m, b, a + 1);
  }

  /** A score between zero and the maximum rounds to a percentage between 0 and 100. */
  lemma RoundedPercentBounds(s: int, m: int)
    requires 0 <= s <= m && m > 0
    ensures 0 <= RoundedPercent(s, m) <= 100
  {
    var r := RoundedPercent(s, m);
    MulMonotone(2 * m, r, 101);
    MulMonotone(2 * m, 0, r + 1);
  }

  /** For a fixed maximum, a higher score never rounds to a lower percentage. */
  lemma RoundedPercentMonotone(s1: int, s2: int, m: int)
    requires m > 0 && s1 <= s2
    ensures RoundedPercent(s1, m) <= RoundedPercent(s2, m)
  {
    MulMonotone(2 * m, RoundedPercent(s1, m), RoundedPercent(s2, m) + 1);
  }
}

/** The instructor's view of student results (src/components/Instructor/ViewStudentResults.js):
    results grouped by assessment title, and the Pass/Fail rule of each attempt. */
module Grading {
  import opened Common
  import Results

  /** One row the results endpoint returns for an instructor (names, e-mail and attempt
      date are display-only and left out). */
  datatype StudentResult = StudentResult(assessmentTitle: string, courseTitle: string, maxScore: int, score: int)

  /** One card of the page: the assessment's title, course and maximum score, and its attempts. */
  datatype Group = Group(title: string, courseTitle: string, maxScore: int, attempts: seq<StudentResult>)

  /** The results with a given title, in input order. */
  function AttemptsFor(rs: seq<StudentResult>, title: string): (r: seq<StudentResult>)
    ensures |r| <= |rs|
    ensures forall i :: 0 <= i < |r| ==> r[i].assessmentTitle == title && r[i] in rs
    ensures forall i :: 0 <= i < |rs| && rs[i].assessmentTitle == title ==> rs[i] in r
  {
    if rs == [] then []
    else
      var n := |rs| - 1;
      AttemptsFor(rs[..n], title) + (if rs[n].assessmentTitle == title then [rs[n]] else [])
  }

  /** The titles occurring in the results. */
  function Titles(rs: seq<StudentResult>): set<string>
  {
    if rs == [] then {} else Titles(rs[..|rs| - 1]) + {rs[|rs| - 1].assessmentTitle}
  }

  /** A title occurs exactly when some result carries it. */
  lemma {:induction false} TitlesMeaning(rs: seq<StudentResult>, t: string)
    ensures t in Titles(rs) <==> exists i :: 0 <= i < |rs| && rs[i].assessmentTitle == t
  {
    if rs != [] {
      var n := |rs| - 1;
      TitlesMeaning(rs[..n], t);
      assert forall i :: 0 <= i < n ==> rs[..n][i] == rs[i];
    }
  }

  predicate Distinct(keys: seq<string>) {
    forall i, j :: 0 <= i < j < |keys| ==> keys[i] != keys[j]
  }

  /** The number of attempts in all the groups listed in `keys`. */
  function AttemptCount(rs: seq<StudentResult>, keys: seq<string>): nat
  {
    if keys == [] then 0 else AttemptCount(rs, keys[..|keys| - 1]) + |AttemptsFor(rs, keys[|keys| - 1])|
  }

  /** How many of the keys equal t. */
  function Occurrences(keys: seq<string>, t: string): nat
  {
    if keys == [] then 0 else Occurrences(keys[..|keys| - 1], t) + (if keys[|keys| - 1] == t then 1 else 0)
  }

  lemma {:induction false} OccursOnce(keys: seq<string>, t: string)
    requires Distinct(keys) && t in keys
    ensures Occurrences(keys, t) == 1
  {
    var n := |keys| - 1;
    if keys[n] == t {
      OccursNever(keys[..n], t);
    } else {
      assert t in keys[..n];
      OccursOnce(keys[..n], t);
    }
  }

  lemma {:induction false} OccursNever(keys: seq<string>, t: string)
    requires t !in keys
    ensures Occurrences(keys, t) == 0
  {
    if keys != [] {
      OccursNever(keys[..|keys| - 1], t);
    }
  }

  /** One more result adds one attempt to each listed group with its title. */
  lemma {:induction false} AttemptCountStep(rs: seq<StudentResult>, r: StudentResult, keys: seq<string>)
    ensures AttemptCount(rs + [r], keys) == AttemptCount(rs, keys) + Occurrences(keys, r.assessmentTitle)
  {
    assert (rs + [r])[..|rs|] == rs;
    if keys != [] {
      AttemptCountStep(rs, r, keys[..|keys| - 1]);
    }
  }

  /** Every result lands in exactly one of the groups: over distinct keys covering every
      title, the attempts add up to the number of results. */
  lemma {:induction false} AttemptsPartition(rs: seq<StudentResult>, keys: seq<string>)
    requires Distinct(keys) && Titles(rs) <= KeySet(keys)
    ensures AttemptCount(rs, keys) == |rs|
  {
    if rs == [] {
      EmptyAttemptCount(keys);
    } else {
      var n := |rs| - 1;
      AttemptsPartition(rs[..n], keys);
      assert rs == rs[..n] + [rs[n]];
      AttemptCountStep(rs[..n], rs[n], keys);
      OccursOnce(keys, rs[n].assessmentTitle);
    }
  }

  lemma {:induction false} EmptyAttemptCount(keys: seq<string>)
    ensures AttemptCount([], keys) == 0
  {
    if keys != [] {
      EmptyAttemptCount(keys[..|keys| - 1]);
    }
  }

  /** What the accumulator holds once a prefix of the results has been folded in. */
  predicate GroupsOf(groups: map<string, Group>, rs: seq<StudentResult>)
  {
    && groups.Keys == Titles(rs)
    && forall k :: k in groups ==> GroupOf(groups[k], rs, k)
  }

  /** The group of title k holds the attempts with that title and takes its course title and
      maximum score from the first of them. */
  predicate GroupOf(group: Group, rs: seq<StudentResult>, k: string)
  {
    && group.attempts == AttemptsFor(rs, k)
    && group.attempts != []
    && group.title == k
    && group.courseTitle == group.attempts[0].courseTitle
    && group.maxScore == group.attempts[0].maxScore
  }

  lemma TitlesStep(rs: seq<StudentResult>, r: StudentResult)
    ensures Titles(rs + [r]) == Titles(rs) + {r.assessmentTitle}
  {
    assert (rs + [r])[..|rs|] == rs;
  }

  lemma AttemptsForAppend(rs: seq<StudentResult>, r: StudentResult, k: string)
    ensures AttemptsFor(rs + [r], k) == AttemptsFor(rs, k) + (if r.assessmentTitle == k then [r] else [])
  {
    assert (rs + [r])[..|rs|] == rs && (rs + [r])[|rs|] == r;
  }

  /** A title that does not occur has no attempts. */
  lemma AttemptsForAbsent(rs: seq<StudentResult>, k: string)
    requires k !in Titles(rs)
    ensures AttemptsFor(rs, k) == []
  {
  }

  /** One step of the reduce: the result's group, new (with the result's course title and
      maximum score) or the one already there, gets the result pushed onto its attempts. */
  lemma GroupsStep(before: map<string, Group>, g: Group, rs: seq<StudentResult>, r: StudentResult)
    requires GroupsOf(before, rs)
    requires r.assessmentTitle in before ==>
      g == before[r.assessmentTitle].(attempts := before[r.assessmentTitle].attempts + [r])
    requires r.assessmentTitle !in before ==> g == Group(r.assessmentTitle, r.courseTitle, r.maxScore, [r])
    ensures GroupsOf(before[r.assessmentTitle := g], rs + [r])
  {
    TitlesStep(rs, r);
    var key := r.assessmentTitle;
    var after := before[key := g];
    assert after.Keys == before.Keys + {key};
    forall k | k in after
      ensures GroupOf(after[k], rs + [r], k)
    {
      if k != key {
        OtherGroupStep(before[k], rs, r, k);
      } else {
        if k !in before {
          AttemptsForAbsent(rs, k);
        }
        OwnGroupStep(if k in before then Some(before[k]) else None, g, rs, r);
      }
    }
  }

  /** A result with another title leaves a group as it was. */
  lemma OtherGroupStep(group: Group, rs: seq<StudentResult>, r: StudentResult, k: string)
    requires GroupOf(group, rs, k) && r.assessmentTitle != k
    ensures GroupOf(group, rs + [r], k)
  {
    AttemptsForAppend(rs, r, k);
  }

  /** The result's own group, already there or new, takes the result as its last attempt. */
  lemma OwnGroupStep(previous: Option<Group>, g: Group, rs: seq<StudentResult>, r: StudentResult)
    requires previous.Some? ==> GroupOf(previous.value, rs, r.assessmentTitle)
    requires previous.Some? ==> g == previous.value.(attempts := previous.value.attempts + [r])
    requires previous.None? ==> AttemptsFor(rs, r.assessmentTitle) == []
    requires previous.None? ==> g == Group(r.assessmentTitle, r.courseTitle, r.maxScore, [r])
    ensures GroupOf(g, rs + [r], r.assessmentTitle)
  {
    AttemptsForAppend(rs, r, r.assessmentTitle);
  }

  /** The set of the listed keys. */
  function KeySet(keys: seq<string>): set<string>
  {
    set k | k in keys
  }

  lemma AppendNewKey(keys: seq<string>, key: string)
    requires Distinct(keys) && key !in keys
    ensures Distinct(keys + [key]) && KeySet(keys + [key]) == KeySet(keys) + {key}
  {
  }

  /** The accumulator and its key order once `done` has been folded in. */
  predicate Folded(groups: map<string, Group>, order: seq<string>, done: seq<StudentResult>)
  {
    GroupsOf(groups, done) && Distinct(order) && KeySet(order) == groups.Keys
  }

  /** The `groupedResults` reduce: `groups` is the accumulator object and `order` the order
      in which its keys were first added, the order Object.values lists them in. */
  method GroupByTitle(rs: seq<StudentResult>) returns (groups: map<string, Group>, order: seq<string>)
    ensures GroupsOf(groups, rs)
    ensures Distinct(order) && KeySet(order) == groups.Keys
    ensures order == [] <==> rs == []
    ensures AttemptCount(rs, order) == |rs|
  {
    groups, order := map[], [];
    var i := 0;
    while i < |rs|
      invariant 0 <= i <= |rs|
      invariant Folded(groups, order, rs[..i])
      invariant order == [] <==> i == 0
    {
      groups, order := Accumulate(groups, order, rs[..i], rs[i]);
      PrefixStep(rs, i);
      i := i + 1;
    }
    assert rs[..i] == rs;
    AttemptsPartition(rs, order);
  }

  /** The reduce callback: a new title opens a group (and takes the next place in the key
      order); the result is then pushed onto its group's attempts. */
  method Accumulate(groups: map<string, Group>, order: seq<string>, ghost done: seq<StudentResult>,
                    result: StudentResult) returns (groups': map<string, Group>, order': seq<string>)
    requires Folded(groups, order, done)
    ensures Folded(groups', order', done + [result])
    ensures order' == order || order' == order + [result.assessmentTitle]
    ensures order' != []
  {
    var key := result.assessmentTitle;
    var group;
    if key in groups {
      group, order' := groups[key], order;
    } else {
      group := Group(key, result.courseTitle, result.maxScore, []);
      AppendNewKey(order, key);
      order' := order + [key];
    }
    group := group.(attempts := group.attempts + [result]);
    GroupsStep(groups, group, done, result);
    groups' := groups[key := group];
    assert groups'.Keys == groups.Keys + {key};
  }

  /** `(score / maxScore) >= 0.6`, without division: for a positive maximum it is
      5·score ≥ 3·maxScore, for a negative one the inequality turns round, and a zero maximum
      passes only a positive score (+Infinity; 0/0 is NaN and a negative score -Infinity). */
  predicate IsPass(score: int, maxScore: int)
    ensures maxScore != 0 ==> (IsPass(score, maxScore) <==> score as real / maxScore as real >= 0.6)
  {
    PassAsRatio(score, maxScore);
    if maxScore > 0 then 5 * score >= 3 * maxScore
    else if maxScore < 0 then 5 * score <= 3 * maxScore
    else score > 0
  }

  /** The cross-multiplied comparisons IsPass makes are the ratio comparison. */
  lemma PassAsRatio(score: int, maxScore: int)
    ensures maxScore > 0 ==> (score as real / maxScore as real >= 0.6 <==> 5 * score >= 3 * maxScore)
    ensures maxScore < 0 ==> (score as real / maxScore as real >= 0.6 <==> 5 * score <= 3 * maxScore)
  {
    if maxScore > 0 {
      RatioAtLeast(score as real, maxScore as real);
    } else if maxScore < 0 {
      assert score as real / maxScore as real == (-score) as real / (-maxScore) as real;
      RatioAtLeast((-score) as real, (-maxScore) as real);
    }
  }

  lemma RatioAtLeast(s: real, m: real)
    requires m > 0.0
    ensures s / m >= 0.6 <==> s >= 0.6 * m
  {
    var q := s / m;
    assert q * m == s;
    if q >= 0.6 {
      assert (q - 0.6) * m >= 0.0;
    } else {
      assert (0.6 - q) * m > 0.0;
    }
  }

  /** Pass is exactly what the student's own results page colours warning or success. */
  lemma PassMatchesScoreColor(score: int, maxScore: int)
    ensures IsPass(score, maxScore) <==> Results.ScoreColor(score, maxScore) != Results.Danger
  {
    if maxScore > 0 {
      MulCompare(maxScore, 5 * score, 3 * maxScore);
    } else if maxScore < 0 {
      MulCompare(-maxScore, -5 * score, -3 * maxScore);
    }
  }

  /** For a positive maximum a higher score never turns a pass into a fail, and full marks pass. */
  lemma PassMonotone(s1: int, s2: int, maxScore: int)
    requires maxScore > 0 && s1 <= s2
    ensures IsPass(s1, maxScore) ==> IsPass(s2, maxScore)
    ensures IsPass(maxScore, maxScore)
  {
  }

  /** The page state: loading, the error message, the "no results" notice, or the groups. */
  datatype Page = Failed | NoResults | Grouped(groups: map<string, Group>, order: seq<string>)

  /** After the fetch: an error, or the grouped results, empty only for an empty list. */
  method Render(fetched: Option<seq<StudentResult>>) returns (page: Page)
    ensures fetched.None? <==> page == Failed
    ensures page == NoResults <==> fetched == Some([])
    ensures page.Grouped? ==> fetched.Some? && GroupsOf(page.groups, fetched.value)
    ensures page.Grouped? ==> Distinct(page.order) && KeySet(page.order) == page.groups.Keys
    ensures page.Grouped? ==> |page.order| > 0 && AttemptCount(fetched.value, page.order) == |fetched.value|
  {
    if fetched.None? {
      return Failed;
    }
    var groups, order := GroupByTitle(fetched.value);
    if order == [] {
      return NoResults;
    }
    page := Grouped(groups, order);
  }
}

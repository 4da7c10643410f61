/**
 * `grade_code` and `get_letter_grade` (app.py): every criterion of the
 * rubric is checked against the submission in catalog order, the points of
 * the met ones are added up, and the share of the maximum becomes a letter.
 */
module Grading {
  import opened Strings
  import opened Re
  import opened Rubric

  /** The status marks shown next to each criterion. */
  const PassMark: string := "✅"
  const FailMark: string := "❌"

  /** One entry of the results list. */
  datatype CriterionResult = CriterionResult(criterion: string, status: string, points: nat, passed: bool)

  predicate AllSupported(cs: seq<Criterion>) {
    forall k :: 0 <= k < |cs| ==> Supported(cs[k])
  }

  /** The entry the loop body appends for one criterion. */
  function Evaluate(c: Criterion, text: string): (r: CriterionResult)
    requires Supported(c)
    ensures r.criterion == c.name && r.points == c.points
    ensures r.passed == Passes(c, text)
    ensures r.status == (if r.passed then PassMark else FailMark)
  {
    var passed := Passes(c, text);
    CriterionResult(c.name, if passed then PassMark else FailMark, c.points, passed)
  }

  /** The results list for the criteria `cs`, one entry per criterion in order. */
  function Results(cs: seq<Criterion>, text: string): (rs: seq<CriterionResult>)
    requires AllSupported(cs)
    ensures |rs| == |cs|
  {
    if |cs| == 0 then []
    else Results(cs[..|cs| - 1], text) + [Evaluate(cs[|cs| - 1], text)]
  }

  /** Entry `k` of the results is criterion `k` checked against the text. */
  lemma {:induction false} ResultsAt(cs: seq<Criterion>, text: string)
    requires AllSupported(cs)
    ensures forall k :: 0 <= k < |cs| ==> Results(cs, text)[k] == Evaluate(cs[k], text)
  {
    if |cs| > 0 {
      ResultsAt(cs[..|cs| - 1], text);
    }
  }

  /** Points earned: the points of the entries that passed. */
  function Earned(rs: seq<CriterionResult>): nat {
    if |rs| == 0 then 0
    else Earned(rs[..|rs| - 1]) + (if rs[|rs| - 1].passed then rs[|rs| - 1].points else 0)
  }

  /** The results of one more criterion extend the results so far by its entry. */
  lemma ResultsSnoc(cs: seq<Criterion>, i: nat, text: string)
    requires AllSupported(cs) && i < |cs|
    ensures AllSupported(cs[..i + 1]) && AllSupported(cs[..i])
    ensures Results(cs[..i + 1], text) == Results(cs[..i], text) + [Evaluate(cs[i], text)]
  {
    assert cs[..i + 1][..i] == cs[..i];
  }

  /** Appending an entry adds its points when it passed. */
  lemma EarnedSnoc(rs: seq<CriterionResult>, e: CriterionResult)
    ensures Earned(rs + [e]) == Earned(rs) + (if e.passed then e.points else 0)
  {
    assert (rs + [e])[..|rs|] == rs;
  }

  /** `(total_score / max_score) * 100`, in exact arithmetic. */
  function Percentage(total: nat, max: nat): real
    requires max > 0
  {
    (total as real / max as real) * 100.0
  }

  lemma {:induction false} MaxScoreAppend(a: seq<Criterion>, b: seq<Criterion>)
    ensures MaxScore(a + b) == MaxScore(a) + MaxScore(b)
  {
    if |a| > 0 {
      assert (a + b)[1..] == a[1..] + b;
      MaxScoreAppend(a[1..], b);
    } else {
      assert a + b == b;
    }
  }

  /** Every criterion of the catalog can be checked. */
  lemma CatalogSupported()
    ensures AllSupported(Catalog)
  {
    CatalogWellFormed();
  }

  /**
   * The loop of `grade_code` over a list of criteria: the results in order,
   * the points earned, the maximum and the percentage.
   */
  method GradeAgainst(criteria: seq<Criterion>, studentCode: string)
    returns (results: seq<CriterionResult>, totalScore: nat, maxScore: nat, percentage: real)
    requires AllSupported(criteria) && MaxScore(criteria) > 0
    ensures results == Results(criteria, studentCode)
    ensures totalScore == Earned(results)
    ensures maxScore == MaxScore(criteria)
    ensures totalScore <= maxScore
    ensures percentage == Percentage(totalScore, maxScore)
    ensures 0.0 <= percentage <= 100.0
  {
    maxScore := MaxScore(criteria);
    results := [];
    totalScore := 0;
    var i := 0;
    while i < |criteria|
      invariant 0 <= i <= |criteria|
      invariant results == Results(criteria[..i], studentCode)
      invariant totalScore == Earned(results)
    {
      var c := criteria[i];
      var passed: bool;
      if c.kind == Exact {
        passed := Contains(studentCode, c.pattern);
      } else if c.kind == Regex {
        passed := RegexSearchCI(c.pattern, studentCode);
      } else {
        passed := Contains(studentCode, c.pattern);
      }
      var status: string;
      if passed {
        totalScore := totalScore + c.points;
        status := PassMark;
      } else {
        status := FailMark;
      }
      var entry := CriterionResult(c.name, status, c.points, passed);
      assert entry == Evaluate(c, studentCode);
      ResultsSnoc(criteria, i, studentCode);
      EarnedSnoc(results, entry);
      results := results + [entry];
      i := i + 1;
    }
    assert criteria[..i] == criteria;
    EarnedAtMost(criteria, studentCode);
    percentage := (totalScore as real / maxScore as real) * 100.0;
    PercentageBounds(totalScore, maxScore);
  }

  /** `grade_code`: the catalog checked against the submission. */
  method GradeCode(studentCode: string) returns (results: seq<CriterionResult>, totalScore: nat, maxScore: nat, percentage: real)
    ensures AllSupported(Catalog) && results == Results(Catalog, studentCode)
    ensures totalScore == Earned(results)
    ensures maxScore == 110
    ensures totalScore <= maxScore
    ensures percentage == Percentage(totalScore, maxScore)
    ensures 0.0 <= percentage <= 100.0
  {
    CatalogSupported();
    CatalogMaxScore();
    results, totalScore, maxScore, percentage := GradeAgainst(Catalog, studentCode);
  }

  /** The points earned never exceed the points available. */
  lemma {:induction false} EarnedAtMost(cs: seq<Criterion>, text: string)
    requires AllSupported(cs)
    ensures Earned(Results(cs, text)) <= MaxScore(cs)
  {
    if |cs| > 0 {
      var init := cs[..|cs| - 1];
      EarnedAtMost(init, text);
      assert Results(cs, text)[..|cs| - 1] == Results(init, text);
      MaxScoreAppend(init, [cs[|cs| - 1]]);
      assert init + [cs[|cs| - 1]] == cs;
    }
  }

  /** The percentage of a score within the maximum lies between 0 and 100. */
  lemma PercentageBounds(total: nat, max: nat)
    requires 0 < max && total <= max
    ensures 0.0 <= Percentage(total, max) <= 100.0
  {
    assert total as real / max as real <= 1.0;
  }

  /** With points on every criterion, the full score is reached exactly when every criterion is met. */
  lemma {:induction false} FullScoreIffAllPass(cs: seq<Criterion>, text: string)
    requires AllSupported(cs)
    requires forall k :: 0 <= k < |cs| ==> cs[k].points > 0
    ensures Earned(Results(cs, text)) == MaxScore(cs) <==> forall k :: 0 <= k < |cs| ==> Passes(cs[k], text)
  {
    if |cs| > 0 {
      var n := |cs| - 1;
      var init := cs[..n];
      FullScoreIffAllPass(init, text);
      EarnedAtMost(init, text);
      assert Results(cs, text)[..n] == Results(init, text);
      MaxScoreAppend(init, [cs[n]]);
      assert init + [cs[n]] == cs;
      if forall k :: 0 <= k < n ==> Passes(init[k], text) {
        assert forall k :: 0 <= k < n ==> Passes(cs[k], text);
      }
      if forall k :: 0 <= k < |cs| ==> Passes(cs[k], text) {
        assert forall k :: 0 <= k < n ==> Passes(init[k], text);
      }
    }
  }

  /** A criterion met on one text and met on another can only raise the score from one to the other. */
  lemma {:induction false} EarnedMonotone(cs: seq<Criterion>, t1: string, t2: string)
    requires AllSupported(cs)
    requires forall k :: 0 <= k < |cs| && Passes(cs[k], t1) ==> Passes(cs[k], t2)
    ensures Earned(Results(cs, t1)) <= Earned(Results(cs, t2))
  {
    if |cs| > 0 {
      var n := |cs| - 1;
      var init := cs[..n];
      EarnedMonotone(init, t1, t2);
      assert Results(cs, t1)[..n] == Results(init, t1);
      assert Results(cs, t2)[..n] == Results(init, t2);
    }
  }

  /** Adding text around a submission never lowers its score. */
  lemma EarnedExtends(cs: seq<Criterion>, a: string, t: string, b: string)
    requires AllSupported(cs)
    ensures Earned(Results(cs, t)) <= Earned(Results(cs, a + t + b))
  {
    forall k | 0 <= k < |cs| && Passes(cs[k], t)
      ensures Passes(cs[k], a + t + b)
    {
      PassesExtends(cs[k], a, t, b);
    }
    EarnedMonotone(cs, t, a + t + b);
  }

  /** No criterion met means no points. */
  lemma {:induction false} NothingMetNothingEarned(cs: seq<Criterion>, text: string)
    requires AllSupported(cs)
    requires forall k :: 0 <= k < |cs| ==> !Passes(cs[k], text)
    ensures Earned(Results(cs, text)) == 0
  {
    if |cs| > 0 {
      var n := |cs| - 1;
      NothingMetNothingEarned(cs[..n], text);
      assert Results(cs, text)[..n] == Results(cs[..n], text);
    }
  }

  /** An empty submission meets no well-formed criterion and earns nothing. */
  lemma EmptyEarnsNothing(cs: seq<Criterion>)
    requires forall k :: 0 <= k < |cs| ==> WellFormed(cs[k])
    ensures AllSupported(cs)
    ensures forall k :: 0 <= k < |cs| ==> !Results(cs, "")[k].passed
    ensures Earned(Results(cs, "")) == 0
  {
    forall k | 0 <= k < |cs|
      ensures !Passes(cs[k], "")
    {
      EmptyFails(cs[k]);
    }
    ResultsAt(cs, "");
    NothingMetNothingEarned(cs, "");
  }

  /** An empty submission meets no criterion of the catalog and scores 0. */
  lemma EmptySubmission()
    ensures AllSupported(Catalog)
    ensures forall k :: 0 <= k < |Catalog| ==> !Results(Catalog, "")[k].passed
    ensures Earned(Results(Catalog, "")) == 0
  {
    CatalogWellFormed();
    EmptyEarnsNothing(Catalog);
  }

  /** `get_letter_grade`: the bands 90, 80, 70 and 60, each bound included. */
  function LetterGrade(percentage: real): string {
    if percentage >= 90.0 then "A"
    else if percentage >= 80.0 then "B"
    else if percentage >= 70.0 then "C"
    else if percentage >= 60.0 then "D"
    else "F"
  }

  /** The position of a letter in the order F < D < C < B < A. */
  function Rank(letter: string): nat {
    if letter == "A" then 4
    else if letter == "B" then 3
    else if letter == "C" then 2
    else if letter == "D" then 1
    else 0
  }

  /** A higher percentage never earns a lower letter. */
  lemma LetterGradeMonotone(p: real, q: real)
    requires p <= q
    ensures Rank(LetterGrade(p)) <= Rank(LetterGrade(q))
  {
  }

  /** Reference grading in whole numbers: the letter for `total` out of `max` by cross-multiplication. */
  function LetterFromScore(total: nat, max: nat): string {
    if total * 100 >= 90 * max then "A"
    else if total * 100 >= 80 * max then "B"
    else if total * 100 >= 70 * max then "C"
    else if total * 100 >= 60 * max then "D"
    else "F"
  }

  /** The percentage reaches a whole-number threshold exactly when the cross-multiplied score does. */
  lemma PercentageAtLeast(total: nat, max: nat, t: nat)
    requires max > 0
    ensures Percentage(total, max) >= t as real <==> total * 100 >= t * max
  {
    var m, p := max as real, Percentage(total, max);
    assert p * m == (total * 100) as real;
    assert (t * max) as real == (t as real) * m;
    if p >= t as real {
      assert p * m >= (t as real) * m;
    }
    if total * 100 >= t * max {
      assert p * m >= (t as real) * m;
      assert p >= t as real;
    }
  }

  /** Converting to a percentage first gives the same letter as comparing whole numbers. */
  lemma LetterGradeOfScore(total: nat, max: nat)
    requires max > 0
    ensures LetterGrade(Percentage(total, max)) == LetterFromScore(total, max)
  {
    PercentageAtLeast(total, max, 90);
    PercentageAtLeast(total, max, 80);
    PercentageAtLeast(total, max, 70);
    PercentageAtLeast(total, max, 60);
  }

  /** A full score earns an A and a zero score an F. */
  lemma ExtremeScores(max: nat)
    requires max > 0
    ensures LetterGrade(Percentage(max, max)) == "A"
    ensures LetterGrade(Percentage(0, max)) == "F"
  {
    LetterGradeOfScore(max, max);
    LetterGradeOfScore(0, max);
  }
}

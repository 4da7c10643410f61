/**
 * `generate_suggestions` (app.py): for every failed result, in order, the
 * first rule whose key occurs in the criterion's name supplies one line of
 * advice; a name that no key matches gets none.
 */
module Suggestions {
  import opened Wrappers
  import opened Strings
  import opened Rubric
  import opened Grading

  /** The keys the `if`/`elif` chain looks for in a criterion name, in the order it tests them. */
  const Keys: seq<string> := [
    "DOCTYPE",
    "lang attribute",
    "Character encoding",
    "Viewport",
    "title",
    "Bootstrap CSS",
    "Container",
    "Heading",
    "m-3",
    "mt-4",
    "mb-2",
    "p-3",
    "pt-5",
    "Bootstrap JS"
  ]

  /** The line of advice each branch of the chain adds, at the position of its key. */
  const Tips: seq<string> := [
    "• Add `<!DOCTYPE html>` at the very beginning of your HTML file",
    "• Ensure your `<html>` tag includes `lang=\"en\"`",
    "• Add `<meta charset=\"UTF-8\">` in the `<head>` section",
    "• Include viewport meta tag: `<meta name=\"viewport\" content=\"width=device-width, initial-scale=1\">`",
    "• Add a `<title>` tag in the `<head>` section",
    "• Link Bootstrap 5.3.2 CSS from CDN in the `<head>` section",
    "• Use `class=\"container mt-4\"` for the main container div",
    "• Add `class=\"mb-4\"` to your `<h2>` heading",
    "• Create a div with `class=\"m-3 bg-light border p-2\"` for margin all sides demo",
    "• Create a div with `class=\"mt-4 bg-light border p-2\"` for margin top demo",
    "• Create a div with `class=\"mb-2 bg-light border p-2\"` for margin bottom demo",
    "• Create a div with `class=\"p-3 bg-primary text-white mb-3\"` for padding all sides demo",
    "• Create a div with `class=\"pt-5 bg-success text-white\"` for padding top demo",
    "• Include Bootstrap 5.3.2 JS bundle from CDN before closing `</body>` tag"
  ]

  lemma ChainLength()
    ensures |Keys| == 14 && |Tips| == 14
  {
  }

  /** The chain run over `keys`: the tip of the first key that occurs in `name`. */
  function FirstAdvice(keys: seq<string>, tips: seq<string>, name: string): Option<string>
    requires |keys| == |tips|
  {
    if |keys| == 0 then None
    else if Contains(name, keys[0]) then Some(tips[0])
    else FirstAdvice(keys[1..], tips[1..], name)
  }

  /**
   * The chain gives the tip at `k` exactly when its key is the first one
   * that occurs in the name, and nothing when no key occurs.
   */
  lemma {:induction false} FirstAdviceIsFirstMatch(keys: seq<string>, tips: seq<string>, name: string)
    requires |keys| == |tips|
    ensures forall k :: (0 <= k < |keys| && Contains(name, keys[k]) &&
      forall j :: 0 <= j < k ==> !Contains(name, keys[j])) ==> FirstAdvice(keys, tips, name) == Some(tips[k])
    ensures FirstAdvice(keys, tips, name) == None <==> forall k :: 0 <= k < |keys| ==> !Contains(name, keys[k])
  {
    if |keys| > 0 {
      FirstAdviceIsFirstMatch(keys[1..], tips[1..], name);
      assert forall k :: 0 < k < |keys| ==> keys[1..][k - 1] == keys[k] && tips[1..][k - 1] == tips[k];
    }
  }

  /** The advice the chain gives for a failed criterion called `name`. */
  function Advice(name: string): Option<string> {
    ChainLength();
    FirstAdvice(Keys, Tips, name)
  }

  /** A name in which some key occurs gets advice. */
  lemma {:induction false} KeyGivesAdvice(keys: seq<string>, tips: seq<string>, name: string, a: string, k: nat, b: string)
    requires |keys| == |tips| && k < |keys| && name == a + keys[k] + b
    ensures FirstAdvice(keys, tips, name).Some?
  {
    if k > 0 && !Contains(name, keys[0]) {
      assert keys[1..][k - 1] == keys[k];
      KeyGivesAdvice(keys[1..], tips[1..], name, a, k - 1, b);
    } else if k == 0 {
      ContainsWitness(a, keys[k], b);
    }
  }

  /** What one result contributes: nothing if it passed or if no rule applies. */
  function SuggestionFor(r: CriterionResult): seq<string> {
    if r.passed then []
    else match Advice(r.criterion)
      case None => []
      case Some(text) => [text]
  }

  /** The suggestions for the results `rs`, in the order of the results. */
  function Suggestions(rs: seq<CriterionResult>): seq<string> {
    if |rs| == 0 then []
    else Suggestions(rs[..|rs| - 1]) + SuggestionFor(rs[|rs| - 1])
  }

  /** The names of the failed results, in order. */
  function FailedNames(rs: seq<CriterionResult>): seq<string> {
    if |rs| == 0 then []
    else FailedNames(rs[..|rs| - 1]) + (if rs[|rs| - 1].passed then [] else [rs[|rs| - 1].criterion])
  }

  /** `generate_suggestions`: the loop over the results, appending advice for each failure. */
  method GenerateSuggestions(results: seq<CriterionResult>) returns (suggestions: seq<string>)
    ensures suggestions == Suggestions(results)
    ensures |suggestions| <= |FailedNames(results)|
  {
    suggestions := [];
    var i := 0;
    while i < |results|
      invariant 0 <= i <= |results|
      invariant suggestions == Suggestions(results[..i])
    {
      var result := results[i];
      if !result.passed {
        var criterion := result.criterion;
        var advice := Advice(criterion);
        if advice.Some? {
          suggestions := suggestions + [advice.value];
        }
      }
      assert results[..i + 1][..i] == results[..i];
      i := i + 1;
    }
    assert results[..i] == results;
    SuggestionsAtMostFailures(results);
  }

  /** There are never more suggestions than failed results. */
  lemma {:induction false} SuggestionsAtMostFailures(rs: seq<CriterionResult>)
    ensures |Suggestions(rs)| <= |FailedNames(rs)|
  {
    if |rs| > 0 {
      SuggestionsAtMostFailures(rs[..|rs| - 1]);
    }
  }

  /**
   * When every failed name gets advice, there is exactly one suggestion per
   * failed result, in the same order: the i-th suggestion is the advice for
   * the i-th failed name.
   */
  lemma {:induction false} SuggestionsFollowFailures(rs: seq<CriterionResult>)
    requires forall k :: 0 <= k < |rs| && !rs[k].passed ==> Advice(rs[k].criterion).Some?
    ensures |Suggestions(rs)| == |FailedNames(rs)|
    ensures forall i :: 0 <= i < |FailedNames(rs)| ==> Advice(FailedNames(rs)[i]) == Some(Suggestions(rs)[i])
  {
    if |rs| > 0 {
      var n := |rs| - 1;
      SuggestionsFollowFailures(rs[..n]);
      var s0, f0 := Suggestions(rs[..n]), FailedNames(rs[..n]);
      if !rs[n].passed {
        var text := Advice(rs[n].criterion).value;
        assert Suggestions(rs) == s0 + [text];
        assert FailedNames(rs) == f0 + [rs[n].criterion];
        forall i | 0 <= i < |FailedNames(rs)|
          ensures Advice(FailedNames(rs)[i]) == Some(Suggestions(rs)[i])
        {
          if i < |f0| {
            assert FailedNames(rs)[i] == f0[i] && Suggestions(rs)[i] == s0[i];
          }
        }
      } else {
        assert Suggestions(rs) == s0 && FailedNames(rs) == f0;
      }
    }
  }

  /** Results that all passed produce no suggestion. */
  lemma {:induction false} AllPassedNoSuggestions(rs: seq<CriterionResult>)
    requires forall k :: 0 <= k < |rs| ==> rs[k].passed
    ensures FailedNames(rs) == [] && Suggestions(rs) == []
  {
    if |rs| > 0 {
      AllPassedNoSuggestions(rs[..|rs| - 1]);
    }
  }

  /** A failed result leaves its name among the failed names. */
  lemma {:induction false} FailureRecorded(rs: seq<CriterionResult>, k: nat)
    requires k < |rs| && !rs[k].passed
    ensures rs[k].criterion in FailedNames(rs)
  {
    var n := |rs| - 1;
    if k < n {
      FailureRecorded(rs[..n], k);
      assert rs[..n][k] == rs[k];
    }
  }

  /**
   * Where the key at each position occurs in the catalog name at
   * the same position: the text before it and the text after it.
   */
  const KeyContext: seq<(string, string)> := [
    ("", " declaration"),
    ("HTML ", ""),
    ("", " (UTF-8)"),
    ("", " meta tag"),
    ("Page ", ""),
    ("", " CDN (v5.3.2)"),
    ("", " class (mt-4)"),
    ("", " with mb-4"),
    ("Margin all sides (", ")"),
    ("Margin top (", ")"),
    ("Margin bottom (", ")"),
    ("Padding all sides (", ")"),
    ("Padding top (", ")"),
    ("", " CDN")
  ]

  /** Each catalog name is its key with the recorded text around it, one name at a time. */
  lemma KeyInName0()
    ensures 0 < |Catalog| && 0 < |Keys| && 0 < |KeyContext|
    ensures Catalog[0].name == KeyContext[0].0 + Keys[0] + KeyContext[0].1
  {
  }

  lemma KeyInName1()
    ensures 1 < |Catalog| && 1 < |Keys| && 1 < |KeyContext|
    ensures Catalog[1].name == KeyContext[1].0 + Keys[1] + KeyContext[1].1
  {
  }

  lemma KeyInName2()
    ensures 2 < |Catalog| && 2 < |Keys| && 2 < |KeyContext|
    ensures Catalog[2].name == KeyContext[2].0 + Keys[2] + KeyContext[2].1
  {
  }

  lemma KeyInName3()
    ensures 3 < |Catalog| && 3 < |Keys| && 3 < |KeyContext|
    ensures Catalog[3].name == KeyContext[3].0 + Keys[3] + KeyContext[3].1
  {
  }

  lemma KeyInName4()
    ensures 4 < |Catalog| && 4 < |Keys| && 4 < |KeyContext|
    ensures Catalog[4].name == KeyContext[4].0 + Keys[4] + KeyContext[4].1
  {
  }

  lemma KeyInName5()
    ensures 5 < |Catalog| && 5 < |Keys| && 5 < |KeyContext|
    ensures Catalog[5].name == KeyContext[5].0 + Keys[5] + KeyContext[5].1
  {
  }

  lemma KeyInName6()
    ensures 6 < |Catalog| && 6 < |Keys| && 6 < |KeyContext|
    ensures Catalog[6].name == KeyContext[6].0 + Keys[6] + KeyContext[6].1
  {
  }

  lemma KeyInName7()
    ensures 7 < |Catalog| && 7 < |Keys| && 7 < |KeyContext|
    ensures Catalog[7].name == KeyContext[7].0 + Keys[7] + KeyContext[7].1
  {
  }

  lemma KeyInName8()
    ensures 8 < |Catalog| && 8 < |Keys| && 8 < |KeyContext|
    ensures Catalog[8].name == KeyContext[8].0 + Keys[8] + KeyContext[8].1
  {
  }

  lemma KeyInName9()
    ensures 9 < |Catalog| && 9 < |Keys| && 9 < |KeyContext|
    ensures Catalog[9].name == KeyContext[9].0 + Keys[9] + KeyContext[9].1
  {
  }

  lemma KeyInName10()
    ensures 10 < |Catalog| && 10 < |Keys| && 10 < |KeyContext|
    ensures Catalog[10].name == KeyContext[10].0 + Keys[10] + KeyContext[10].1
  {
  }

  lemma KeyInName11()
    ensures 11 < |Catalog| && 11 < |Keys| && 11 < |KeyContext|
    ensures Catalog[11].name == KeyContext[11].0 + Keys[11] + KeyContext[11].1
  {
  }

  lemma KeyInName12()
    ensures 12 < |Catalog| && 12 < |Keys| && 12 < |KeyContext|
    ensures Catalog[12].name == KeyContext[12].0 + Keys[12] + KeyContext[12].1
  {
  }

  lemma KeyInName13()
    ensures 13 < |Catalog| && 13 < |Keys| && 13 < |KeyContext|
    ensures Catalog[13].name == KeyContext[13].0 + Keys[13] + KeyContext[13].1
  {
  }

  /** Every criterion name of the catalog has a rule whose key occurs in it. */
  lemma CatalogNamesAdvised()
    ensures forall k :: 0 <= k < |Catalog| ==> Advice(Catalog[k].name).Some?
  {
    KeyInName0();
    KeyInName1();
    KeyInName2();
    KeyInName3();
    KeyInName4();
    KeyInName5();
    KeyInName6();
    KeyInName7();
    KeyInName8();
    KeyInName9();
    KeyInName10();
    KeyInName11();
    KeyInName12();
    KeyInName13();
    forall k | 0 <= k < |Catalog|
      ensures Advice(Catalog[k].name).Some?
    {
      ChainLength();
      KeyGivesAdvice(Keys, Tips, Catalog[k].name, KeyContext[k].0, k, KeyContext[k].1);
    }
  }

  /** Results that all failed leave every name among the failed names, in order. */
  lemma {:induction false} AllFailedNames(rs: seq<CriterionResult>)
    requires forall k :: 0 <= k < |rs| ==> !rs[k].passed
    ensures |FailedNames(rs)| == |rs|
    ensures forall i :: 0 <= i < |rs| ==> FailedNames(rs)[i] == rs[i].criterion
  {
    if |rs| > 0 {
      var n := |rs| - 1;
      AllFailedNames(rs[..n]);
      assert FailedNames(rs) == FailedNames(rs[..n]) + [rs[n].criterion];
    }
  }

  /**
   * For the results of grading a submission against criteria whose names all
   * get advice: one suggestion per failed criterion, in order, and none
   * exactly when every criterion was met.
   */
  lemma ResultsSuggestions(cs: seq<Criterion>, text: string)
    requires AllSupported(cs)
    requires forall k :: 0 <= k < |cs| ==> Advice(cs[k].name).Some?
    ensures var rs := Results(cs, text);
      && |Suggestions(rs)| == |FailedNames(rs)|
      && (forall i :: 0 <= i < |FailedNames(rs)| ==> Advice(FailedNames(rs)[i]) == Some(Suggestions(rs)[i]))
      && (Suggestions(rs) == [] <==> forall k :: 0 <= k < |rs| ==> rs[k].passed)
  {
    var rs := Results(cs, text);
    ResultsAt(cs, text);
    SuggestionsFollowFailures(rs);
    if forall k :: 0 <= k < |rs| ==> rs[k].passed {
      AllPassedNoSuggestions(rs);
    } else {
      var k :| 0 <= k < |rs| && !rs[k].passed;
      FailureRecorded(rs, k);
    }
  }

  /** The same for the catalog, whatever the submission. */
  lemma CatalogSuggestions(text: string)
    ensures AllSupported(Catalog)
    ensures var rs := Results(Catalog, text);
      && |Suggestions(rs)| == |FailedNames(rs)|
      && (forall i :: 0 <= i < |FailedNames(rs)| ==> Advice(FailedNames(rs)[i]) == Some(Suggestions(rs)[i]))
      && (Suggestions(rs) == [] <==> forall k :: 0 <= k < |rs| ==> rs[k].passed)
  {
    CatalogSupported();
    CatalogNamesAdvised();
    ResultsSuggestions(Catalog, text);
  }

  /** An empty submission gets all fourteen suggestions. */
  lemma EmptySubmissionSuggestions()
    ensures AllSupported(Catalog)
    ensures |Suggestions(Results(Catalog, ""))| == 14
  {
    EmptySubmission();
    CatalogMaxScore();
    CatalogSuggestions("");
    AllFailedNames(Results(Catalog, ""));
  }
}

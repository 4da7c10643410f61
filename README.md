# Bootstrap padding checker: the grading engine

This project models the grading engine of a small web application that grades
a student's Bootstrap exercise page. The application fetches the student's
`index.html` from a GitHub page address. It checks
the page against a fixed rubric of fourteen criteria and adds up the points of
the criteria that are met. It turns the share of the maximum into a letter
grade. For every failed criterion it gives one line of advice.

The model has one Dafny module per part of the engine:

- `Strings` (strings.dfy) holds the three Python string operations the engine
  uses: `p in s` (`Contains`), `s.endswith(p)` (`EndsWith`) and
  `s.replace(old, new)` (`ReplaceAll`). Each comes with the facts the rest of
  the model needs.
- `Re` (regex.dfy) is a matcher for the part of `re.search(..., re.IGNORECASE)`
  that the rubric's patterns use:
  - literal characters compared without regard to ASCII letter case;
  - escaped metacharacters such as `\.`;
  - `\s+`;
  - the lazy wildcard `.*?`, which does not cross a newline.

  A pattern outside these forms does not compile.
- `Patterns` (patterns.dfy) and `Rubric` (rubric.dfy) hold the fourteen
  criteria, with their names, patterns, points and check types. They also
  hold the check for one criterion and the maximum score.
- `Grading` (grading.dfy) holds the scoring loop of `grade_code` as a method,
  proved against the recursive functions `Results` and `Earned`. It also holds
  the percentage and `get_letter_grade`.
- `Suggestions` (suggestions.dfy) holds the `if`/`elif` advice chain of
  `generate_suggestions`, and its loop as a method proved against the function
  `Suggestions`.
- `UrlRewrite` (url.dfy) holds the address rewrite of `fetch_github_file` as a
  method of step-by-step reassignments, proved against the function `RawUrl`.

The maximum score is 110, the sum of the points in the code's catalog.

## Model

| member | source | states |
|---|---|---|
| Strings.Contains | app.py:168 | defines `p in s`: `p` starts at some position of `s` |
| Strings.EndsWith | app.py:71-72 | defines `s.endswith(p)`: `s` is at least as long as `p` and its last characters are `p` |
| Strings.ReplaceAll | app.py:67-68 | defines `s.replace(old, new)`: left to right, each occurrence of a non-empty needle is replaced and scanning resumes after it; an empty needle puts the replacement before every character and at the end |
| Strings.ContainsIffOccurs | app.py:168 | `p in s` holds exactly when `p` occurs in `s` at some index, in both directions |
| Strings.ContainsExtends | app.py:168 | a block found in a string is still found when text is added on either side |
| Strings.MissingChar | app.py:168 | a block with a character the string lacks is not contained |
| Strings.ContainsInEmpty | app.py:168 | the empty string contains exactly the empty block |
| Strings.ReplaceAllAbsent | app.py:67-68 | `replace` returns a string without the needle unchanged |
| Strings.ReplaceAllSelf | app.py:67-68 | replacing the needle by itself changes nothing |
| Strings.ReplaceAllIntroduces | app.py:67-68 | where the needle occurs, the replacement occurs in the result |
| Strings.ContainsSkip | app.py:67-68 | a leading part without the block's first character neither holds nor starts the block: containment is decided by the rest |
| Strings.ReplaceAllSkip | app.py:67-68 | a leading part without the needle's first character is copied unchanged |
| Strings.ReplaceAllStep | app.py:68 | a leading piece that does not start an occurrence, and holds the needle's first character only in its first position, is copied unchanged |
| Strings.ReplaceAllOnce | app.py:67 | a needle that occurs once, after a part without its first character, is replaced there and the text around it is kept |
| Strings.ReplaceAllRemoves | app.py:67 | after replacement no needle is left, when the replacement lacks it and cannot complete it with a neighbouring character |
| Strings.ReplaceKeepsAbsent | app.py:68 | replacing by a single character that a block lacks cannot create that block |
| Strings.ReplaceKeepsPresent | app.py:68 | a block that shares no boundary character with the needle survives replacement |
| Re.Compile | app.py:170 | defines how a pattern is read into tokens: `\s+`, `.*?`, escaped metacharacters and literal characters; any other metacharacter does not compile |
| Re.RegexSearchCI | app.py:170 | defines `bool(re.search(pattern, text, re.IGNORECASE))` for a pattern that compiles: a match starts at some position of the text |
| Re.CompileRender | app.py:170 | reading back the text of any token sequence gives that token sequence |
| Re.SearchNeedsLength | app.py:170 | a search succeeds only on a text at least as long as the fewest characters the pattern consumes |
| Re.SearchIgnoresCase | app.py:170 | a search gives the same answer on a text and on its lower-cased form |
| Re.SearchLiteral | app.py:170 | a pattern of literal characters is found exactly when it is a substring of the text up to ASCII case |
| Re.AnyLazySkips | app.py:107 | `.*?` can skip any run of characters that has no newline |
| Re.SpacesSkip | app.py:92 | `\s+` can consume any non-empty run of whitespace characters |
| Re.SearchAround | app.py:170 | a pattern of a literal run, one token and a literal run is found in any text that holds the two runs, in any letter case, around text the token can consume |
| Re.SearchAppend | app.py:170 | text appended after a found match keeps it found |
| Re.SearchPrepend | app.py:170 | text put in front of a found match keeps it found |
| Rubric.Catalog | app.py:85-156 | defines the fourteen criteria in the dictionary's order, with their names, patterns, points and check types |
| Rubric.Passes | app.py:167-172 | defines the check of one criterion: `in` for `exact` and `substring`, the case-insensitive search for `regex` |
| Rubric.MaxScore | app.py:160 | defines the maximum score as the sum of the criteria's points |
| Rubric.PassesLiteral | app.py:167-172 | an `exact` or `substring` criterion is met exactly when its pattern occurs in the text |
| Rubric.ExactIsSubstring | app.py:167-172 | the `exact` and `substring` check types give the same answer |
| Rubric.PassesExtends | app.py:167-172 | adding text around a submission never makes a met criterion fail |
| Rubric.EmptyFails | app.py:167-172 | an empty submission meets no criterion whose points and pattern are well formed |
| Rubric.CompileCssPattern | app.py:112 | the CSS pattern reads as the stylesheet's file name `bootstrap@5.3.2/dist/css/bootstrap.min.css`, letter for letter |
| Rubric.CompileJsPattern | app.py:152 | the JS pattern reads as the bundle's file name `bootstrap@5.3.2/dist/js/bootstrap.bundle.min.js`, letter for letter |
| Rubric.CompileLangPattern | app.py:92 | the lang pattern reads as `<html`, `\s+`, `lang="en">` |
| Rubric.CompileCharsetPattern | app.py:97 | the charset pattern reads as `<meta`, `\s+`, `charset="UTF-8">` |
| Rubric.CompileViewportPattern | app.py:102 | the viewport pattern reads as `<meta`, `\s+`, `name="viewport"` |
| Rubric.TitleMet | app.py:106-110 | "Page title" is met by any page holding `<title>`, a title without a line break and `</title>`, the tags in any letter case |
| Rubric.LangMet | app.py:91-95 | "HTML lang attribute" is met by any page holding `<html`, one or more whitespace characters and `lang="en">`, in any letter case |
| Rubric.TitleExample | app.py:106-110 | the page `<Title>Test</Title>` meets "Page title" |
| Rubric.CompileTitlePattern | app.py:107 | the title pattern reads as `<title>`, `.*?`, `</title>` |
| Rubric.CatalogMaxScore | app.py:85-160 | the catalog has fourteen criteria, worth 110 points together |
| Rubric.CatalogPatterns | app.py:91-155 | the six regex criteria sit at positions 1 to 5 and 13, carry the six patterns and are worth points |
| Rubric.CatalogWellFormed | app.py:85-156 | every criterion is worth points, and every regex pattern compiles and needs at least one character |
| Grading.Results | app.py:162-185 | defines the results list, one entry per criterion in order; its contract gives it the criteria's length |
| Grading.Earned | app.py:174-175 | defines the score as the sum of the points of the passed entries |
| Grading.Percentage | app.py:187 | defines the percentage `(total / max) * 100` for a positive maximum, in exact arithmetic |
| Grading.LetterGrade | app.py:191-202 | defines the letter: A from 90, B from 80, C from 70, D from 60, F below, each bound included |
| Grading.Evaluate | app.py:162-185 | one result entry carries the criterion's name and points unchanged, whether it passed, and the mark matching that |
| Grading.ResultsAt | app.py:162-185 | entry `k` of the results is criterion `k` checked against the text |
| Grading.GradeAgainst | app.py:158-189 | the loop yields one entry per criterion in order, the points of the met ones, the sum of all points and the exact percentage, which lies in [0, 100] |
| Grading.GradeCode | app.py:158-189 | the same for the catalog, with a maximum of 110 |
| Grading.MaxScoreAppend | app.py:160 | the maximum of two lists of criteria is the sum of their maxima |
| Grading.EarnedAtMost | app.py:174-175 | the points earned never exceed the maximum |
| Grading.PercentageBounds | app.py:187 | a score within the maximum gives a percentage between 0 and 100 |
| Grading.FullScoreIffAllPass | app.py:174-175 | when every criterion is worth points, the full score is reached exactly when every criterion is met |
| Grading.EarnedMonotone | app.py:174-175 | meeting more criteria never lowers the score |
| Grading.EarnedExtends | app.py:162-175 | adding text around a submission never lowers its score |
| Grading.NothingMetNothingEarned | app.py:174-175 | when no criterion is met, nothing is earned |
| Grading.EmptyEarnsNothing | app.py:162-175 | an empty submission meets no well-formed criterion and earns nothing |
| Grading.EmptySubmission | app.py:162-187 | an empty submission fails all fourteen catalog criteria and scores 0 |
| Grading.LetterGradeMonotone | app.py:191-202 | a higher percentage never earns a lower letter in the order F < D < C < B < A |
| Grading.PercentageAtLeast | app.py:187-202 | the percentage reaches a whole-number threshold exactly when `total * 100 >= threshold * max` |
| Grading.LetterGradeOfScore | app.py:191-202 | the letter of the percentage equals the letter of the whole-number comparison of the score with the inclusive bands 90, 80, 70 and 60 |
| Grading.ExtremeScores | app.py:191-202 | a full score earns an A and a zero score an F |
| Suggestions.FirstAdvice | app.py:212-239 | defines the `if`/`elif` chain over a list of keys and tips: the tip of the first key found in the name |
| Suggestions.Advice | app.py:212-239 | defines the chain for the fourteen keys and tips of the source |
| Suggestions.Suggestions | app.py:204-241 | defines the suggestions of a results list: for each failed entry in order, its advice if the chain gives one |
| Suggestions.FirstAdviceIsFirstMatch | app.py:212-239 | the chain gives the tip of the first key that occurs in the name, and nothing exactly when no key occurs |
| Suggestions.KeyGivesAdvice | app.py:212-239 | a name that contains some key gets advice |
| Suggestions.CatalogNamesAdvised | app.py:212-239 | every catalog criterion name gets advice |
| Suggestions.GenerateSuggestions | app.py:204-241 | the loop yields the suggestions of the results, never more of them than failed results |
| Suggestions.SuggestionsAtMostFailures | app.py:206-239 | there are never more suggestions than failed results |
| Suggestions.SuggestionsFollowFailures | app.py:206-239 | when every failed name gets advice, the i-th suggestion is the advice for the i-th failed result |
| Suggestions.AllPassedNoSuggestions | app.py:208-209 | results that all passed give no suggestion |
| Suggestions.FailureRecorded | app.py:208-210 | a failed result is among the failed names |
| Suggestions.AllFailedNames | app.py:208-210 | when every result failed, the failed names are exactly the results' names, in order |
| Suggestions.ResultsSuggestions | app.py:204-241 | for criteria whose names all get advice: one suggestion per failed criterion, in order, and none exactly when every criterion was met |
| Suggestions.CatalogSuggestions | app.py:85-241 | the same for the catalog and any submission |
| Suggestions.EmptySubmissionSuggestions | app.py:85-241 | an empty submission gets all fourteen suggestions |
| UrlRewrite.Rewrite | app.py:67-68 | defines the two replacements: the raw host for `github.com`, then `/` for `/blob/` |
| UrlRewrite.RawUrl | app.py:65-75 | defines the fetched address: an address with `github.com` is rewritten and pointed at `index.html`, any other is kept |
| UrlRewrite.PointAtIndex | app.py:71-75 | the address keeps its text as a prefix and ends with `index.html`; nothing is appended exactly when it already ended so; otherwise `index.html` is appended after a trailing `/` and `/index.html` after anything else |
| UrlRewrite.ToRawUrl | app.py:65-75 | the reassignments compute `RawUrl`; an address without `github.com` is left alone; any other ends with `index.html`, contains the raw host and no longer contains `github.com` |
| UrlRewrite.RawHostLacksGithub | app.py:67 | `raw.githubusercontent.com` does not contain `github.com` |
| UrlRewrite.RewriteRemovesHost | app.py:67-68 | after both replacements no `github.com` is left |
| UrlRewrite.RewriteIntroducesRawHost | app.py:67-68 | an address with `github.com` contains the raw host after both replacements |
| UrlRewrite.PointAtIndexKeepsHostOut | app.py:71-75 | appending `index.html` or `/index.html` cannot spell out `github.com` |
| UrlRewrite.RawUrlShape | app.py:65-75 | an address without `github.com` is returned unchanged; any other ends with `index.html`, contains the raw host and is free of `github.com` |
| UrlRewrite.RawUrlIdempotent | app.py:65-75 | rewriting a rewritten address changes nothing |
| UrlRewrite.HostReplaced | app.py:67 | in an address `a + github.com + b` whose front `a` has no `g` and whose rest `b` has no `github.com`, the host becomes the raw host and `a` and `b` are kept |
| UrlRewrite.BlobStartShape | app.py:68 | a path `/segment/...` with no `/` in the segment begins with `/blob/` only when the segment is `blob` |
| UrlRewrite.SegmentKept | app.py:68 | a path segment other than `blob` is kept by the second replacement |
| UrlRewrite.PathRewritten | app.py:68 | for an owner and repository without `/` and not named `blob`, and a branch that, followed by `/index.html`, holds no `/blob/` (no segment of the branch but its first is `blob`), the path `/owner/repo/blob/branch/index.html` becomes `/owner/repo/branch/index.html` |
| UrlRewrite.PlainBranchClear | app.py:68 | a branch of one segment, `blob` included, followed by `/index.html` holds no `/blob/` |
| UrlRewrite.NestedBranchClear | app.py:68 | for segments `b1` and `b2` without `/`, `b1/b2/index.html` holds no `/blob/` if and only if `b2` is not `blob` |
| UrlRewrite.PageAddressRaw | app.py:65-75 | for a scheme without `/` or `g`, an owner and repository without `/` or `github.com` and not named `blob`, and a branch without `github.com` that, followed by `/index.html`, holds no `/blob/`, a page address `<scheme>://github.com/<owner>/<repo>/blob/<branch>/index.html` becomes `<scheme>://raw.githubusercontent.com/<owner>/<repo>/<branch>/index.html` |
| UrlRewrite.HostReplacedTwice | app.py:67 | an address with `github.com` twice, each after a part without `g`, gets the raw host in both places |
| UrlRewrite.UserSiteRenamed | app.py:65-75 | for a scheme without `/` or `g`, an owner without `/` or `g` that is not `blob`, and a branch without `/` or `github.com`, a page address of a repository named `<owner>.github.com` becomes a raw address of the repository `<owner>.raw.githubusercontent.com`: every `github.com` is replaced, the one in the repository name included |
| UrlRewrite.BlobOwnerDropped | app.py:65-75 | for a scheme without `/` or `g`, and a repository and branch without `/` or `github.com`, a page address whose owner is `blob` loses its owner segment: `<scheme>://github.com/blob/<repo>/blob/<branch>/index.html` becomes `<scheme>://raw.githubusercontent.com/<repo>/<branch>/index.html`, which puts the repository where the owner belongs and the branch where the repository belongs |
| UrlRewrite.NestedBranchRaw | app.py:65-75 | for a scheme without `/` or `g`, an owner and repository without `/` or `github.com` and not named `blob`, and branch segments `b1` and `b2` without `/` or `github.com` with `b2` not `blob`, the page address of branch `b1/b2` (such as `feature/x`) becomes `<scheme>://raw.githubusercontent.com/<owner>/<repo>/<b1>/<b2>/index.html` |
| UrlRewrite.PageAddressExample | app.py:65-75 | `https://github.com/user/repo/blob/main/index.html` becomes `https://raw.githubusercontent.com/user/repo/main/index.html` |

## Left out

- The Streamlit user interface (app.py:7-16, 243-320): page setup, inputs, buttons, metrics and panes are presentation only.
- The HTTP fetch and its error path, `requests.get` and `raise_for_status` (app.py:77-81): network input/output through a library that is not part of this model. Only the address rewrite before it is modelled.
- The reference page `REFERENCE_CODE` (app.py:19-59) is display-only, and the `difflib` import (app.py:4) is unused.
- Floating point: the percentage is the exact rational `total / max * 100`. For this catalog that gives the same letter as Python's floats: in IEEE double arithmetic `(t / 110) * 100` rounds to exactly 60, 70, 80 and 90 at the boundary totals t = 66, 77, 88 and 99, of which only 77 and 88 can be scored.
- Grading.GradeAgainst: requires a positive maximum. The source would divide by zero on a rubric worth nothing; the catalog is worth 110.
- Re.RegexSearchCI: covers only the pattern forms the rubric uses, and folds letter case for ASCII only. Python's `re.IGNORECASE` also lets some non-ASCII text characters match the patterns' ASCII letters: `ı` (U+0131) and `İ` (U+0130) match `i`, and `ſ` (U+017F) matches `s`. So a page with `<tıtle>x</tıtle>` meets "Page title" (app.py:107, 170) in the source but not in the model, where `Fold` leaves `ı` as it is.
- Suggestions.CatalogNamesAdvised: states that every catalog name gets some advice, not that it gets the tip written for it. Reading the chain shows that no earlier key occurs in any catalog name, so each name does get its own tip, but that is not proved.
- UrlRewrite.PageAddressRaw: stated only for a scheme without `/` or `g`, an owner and repository without `/` or `github.com` and not named `blob`, and a branch without `github.com` whose segments after the first are not `blob`. These conditions are sufficient, not necessary: outside them the result is not proved either way. Known failures of the rewrite of app.py:67-68: a repository named `<owner>.github.com` is renamed `<owner>.raw.githubusercontent.com` (UrlRewrite.UserSiteRenamed), and an owner named `blob` is dropped (UrlRewrite.BlobOwnerDropped). A branch `b1/blob` is not covered: `b1/blob/index.html` holds a `/blob/` (UrlRewrite.NestedBranchClear), which the replacement removes as well. Some addresses outside the conditions still come out right, for example a repository named `blob` with a branch not named `blob`; the model does not state them.
- UrlRewrite.PathRewritten: stated only for an owner and a repository without `/` and not named `blob`, and a branch whose segments after the first are not `blob`; outside these the result is not proved either way. For an owner named `blob`, `replace` also removes the owner segment, so the repository takes the owner's place (UrlRewrite.BlobOwnerDropped).

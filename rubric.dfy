/**
 * The rubric of `grade_code` (app.py): fourteen named criteria, each with a
 * pattern, a point value and a check type, and the matcher that decides
 * whether a submission meets one criterion.
 */
module Rubric {
  import opened Wrappers
  import opened Strings
  import opened Re
  import opened Patterns

  /** The check type: `exact` and `substring` are both plain `in` tests; `regex` is `re.search`. */
  datatype Kind = Exact | Regex | Substring

  datatype Criterion = Criterion(name: string, pattern: string, points: nat, kind: Kind)

  /** The criteria in the order the source's dictionary lists them. */
  const Catalog: seq<Criterion> := [
    Criterion("DOCTYPE declaration", "<!DOCTYPE html>", 5, Exact),
    Criterion("HTML lang attribute", LangPattern, 5, Regex),
    Criterion("Character encoding (UTF-8)", CharsetPattern, 5, Regex),
    Criterion("Viewport meta tag", ViewportPattern, 5, Regex),
    Criterion("Page title", TitlePattern, 5, Regex),
    Criterion("Bootstrap CSS CDN (v5.3.2)", CssPattern, 10, Regex),
    Criterion("Container class (mt-4)", "class=\"container mt-4\"", 10, Substring),
    Criterion("Heading with mb-4", "class=\"mb-4\"", 8, Substring),
    Criterion("Margin all sides (m-3)", "class=\"m-3 bg-light border p-2\"", 10, Substring),
    Criterion("Margin top (mt-4)", "class=\"mt-4 bg-light border p-2\"", 10, Substring),
    Criterion("Margin bottom (mb-2)", "class=\"mb-2 bg-light border p-2\"", 10, Substring),
    Criterion("Padding all sides (p-3)", "class=\"p-3 bg-primary text-white mb-3\"", 10, Substring),
    Criterion("Padding top (pt-5)", "class=\"pt-5 bg-success text-white\"", 10, Substring),
    Criterion("Bootstrap JS CDN", JsPattern, 7, Regex)
  ]

  /** A regex criterion's pattern is one the matcher reads. */
  predicate Supported(c: Criterion) {
    c.kind == Regex ==> Compile(c.pattern).Some?
  }

  /** One criterion checked against the submitted text (app.py:167-172). */
  function Passes(c: Criterion, text: string): bool
    requires Supported(c)
  {
    match c.kind
    case Exact => Contains(text, c.pattern)
    case Regex => RegexSearchCI(c.pattern, text)
    case Substring => Contains(text, c.pattern)
  }

  /** A literal criterion is met exactly when its pattern occurs somewhere in the text. */
  lemma PassesLiteral(c: Criterion, text: string)
    requires c.kind != Regex
    ensures Passes(c, text) <==> exists i :: OccursAt(text, c.pattern, i)
  {
    ContainsIffOccurs(text, c.pattern);
  }

  /** The two literal check types behave identically. */
  lemma ExactIsSubstring(c: Criterion, text: string)
    requires c.kind == Exact
    ensures Passes(c, text) == Passes(c.(kind := Substring), text)
  {
  }

  /** Adding text around a submission never makes a met criterion fail. */
  lemma PassesExtends(c: Criterion, a: string, t: string, b: string)
    requires Supported(c) && Passes(c, t)
    ensures Passes(c, a + t + b)
  {
    if c.kind == Regex {
      var ts := Compile(c.pattern).value;
      SearchAppend(ts, t, b);
      SearchPrepend(ts, a, t + b);
      assert a + (t + b) == a + t + b;
    } else {
      ContainsExtends(a, t, b, c.pattern);
    }
  }

  /** An empty submission meets no well-formed criterion. */
  lemma EmptyFails(c: Criterion)
    requires WellFormed(c)
    ensures !Passes(c, "")
  {
    if c.kind == Regex {
      if Passes(c, "") {
        SearchNeedsLength(Compile(c.pattern).value, "");
      }
    } else {
      ContainsInEmpty(c.pattern);
    }
  }

  /** `sum(c["points"] for c in criteria.values())`. */
  function MaxScore(cs: seq<Criterion>): nat {
    if |cs| == 0 then 0 else cs[0].points + MaxScore(cs[1..])
  }

  /** What grading relies on: positive points and a supported pattern that needs input. */
  predicate WellFormed(c: Criterion) {
    && c.points > 0
    && |c.pattern| > 0
    && (c.kind == Regex ==> Compile(c.pattern).Some? && MinLen(Compile(c.pattern).value) > 0)
  }

  predicate AllWellFormed(cs: seq<Criterion>) {
    |cs| == 0 || (WellFormed(cs[0]) && AllWellFormed(cs[1..]))
  }

  lemma {:induction false} AllWellFormedAt(cs: seq<Criterion>)
    requires AllWellFormed(cs)
    ensures forall k :: 0 <= k < |cs| ==> WellFormed(cs[k])
  {
    if |cs| > 0 {
      AllWellFormedAt(cs[1..]);
      forall k | 1 <= k < |cs|
        ensures WellFormed(cs[k])
      {
        assert cs[1..][k - 1] == cs[k];
      }
    }
  }

  /** A token sequence that starts by consuming a character needs at least one. */
  lemma MinLenStart(ts: seq<Token>)
    requires |ts| > 0 && !ts[0].AnyLazy?
    ensures MinLen(ts) > 0
  {
  }

  lemma RenderAround(a: string, t: Token, b: string)
    requires Plain(a) && Plain(b)
    ensures Render(Lits(a) + [t] + Lits(b)) == a + RenderToken(t) + b
  {
    RenderAppend(Lits(a) + [t], Lits(b));
    RenderAppend(Lits(a), [t]);
    RenderPlain(a);
    RenderPlain(b);
    assert Render([t]) == RenderToken(t) + Render([]);
  }

  /** A pattern of two plain runs around one token reads back as those tokens. */
  lemma CompileAround(a: string, t: Token, b: string)
    requires Plain(a) && Plain(b)
    ensures Compile(a + RenderToken(t) + b) == Some(Lits(a) + [t] + Lits(b))
  {
    RenderAround(a, t, b);
    CompileRender(Lits(a) + [t] + Lits(b));
  }

  /** A plain piece and a dot in front of a file name: escaping gives the piece, `\.` and the escaped rest. */
  lemma EscapedDot(a: string, restFile: string, rest: string, file: string, p: string)
    requires Plain(a) && Render(Lits(restFile)) == rest
    requires file == a + "." + restFile && p == a + "\\." + rest
    ensures Render(Lits(file)) == p
  {
    var dot := [Char('.')];
    assert Render(dot) == "\\." by {
      assert IsMeta('.');
      assert Render(dot) == RenderToken(Char('.')) + Render([]);
    }
    assert Render(Lits(a) + dot) == a + "\\." by {
      RenderAppend(Lits(a), dot);
      RenderPlain(a);
    }
    assert Lits(".") == dot;
    LitsAppend(a, ".");
    RenderLitsAppend(a + ".", restFile);
  }

  /** Five plain pieces joined by dots escape to the pieces joined by escaped dots. */
  lemma FivePiecesEscaped(file: string, p: string, a: string, b: string, c: string, d: string, e: string)
    requires Plain(a) && Plain(b) && Plain(c) && Plain(d) && Plain(e)
    requires file == (a + ".") + ((b + ".") + ((c + ".") + ((d + ".") + e)))
    requires p == (a + "\\.") + ((b + "\\.") + ((c + "\\.") + ((d + "\\.") + e)))
    ensures Render(Lits(file)) == p
  {
    RenderPlain(e);
    var f4, p4 := d + "." + e, d + "\\." + e;
    EscapedDot(d, e, e, f4, p4);
    var f3, p3 := c + "." + f4, c + "\\." + p4;
    EscapedDot(c, f4, p4, f3, p3);
    var f2, p2 := b + "." + f3, b + "\\." + p3;
    EscapedDot(b, f3, p3, f2, p2);
    EscapedDot(a, f2, p2, file, p);
  }

  /** Six plain pieces joined by dots escape to the pieces joined by escaped dots. */
  lemma SixPiecesEscaped(file: string, p: string, a: string, b: string, c: string, d: string, e: string, g: string)
    requires Plain(a) && Plain(b) && Plain(c) && Plain(d) && Plain(e) && Plain(g)
    requires file == (a + ".") + ((b + ".") + ((c + ".") + ((d + ".") + ((e + ".") + g))))
    requires p == (a + "\\.") + ((b + "\\.") + ((c + "\\.") + ((d + "\\.") + ((e + "\\.") + g))))
    ensures Render(Lits(file)) == p
  {
    var f1 := (b + ".") + ((c + ".") + ((d + ".") + ((e + ".") + g)));
    var p1 := (b + "\\.") + ((c + "\\.") + ((d + "\\.") + ((e + "\\.") + g)));
    FivePiecesEscaped(f1, p1, b, c, d, e, g);
    EscapedDot(a, f1, p1, file, p);
  }

  /** The directory piece of both CDN file names is plain. */
  lemma LongPiecePlain(dir: string)
    requires Plain(dir)
    ensures Plain("2/dist/" + dir + "bootstrap")
  {
    assert Plain("2/dist/") && Plain("bootstrap");
    PlainAppend("2/dist/", dir);
    PlainAppend("2/dist/" + dir, "bootstrap");
  }

  lemma CssPiecesPlain()
    ensures Plain("bootstrap@5") && Plain("3") && Plain("2/dist/css/bootstrap") && Plain("min") && Plain("css")
  {
    assert Plain("2/dist/css/bootstrap") by {
      LongPiecePlain("css/");
    }
  }

  /** The CSS pattern is the stylesheet's file name with its dots escaped. */
  lemma CompileCssPattern()
    ensures Compile(CssPattern) == Some(Lits(CssFile))
  {
    CssPiecesPlain();
    FivePiecesEscaped(CssFile, CssPattern, "bootstrap@5", "3", "2/dist/css/bootstrap", "min", "css");
    CompileRender(Lits(CssFile));
  }

  lemma JsPiecesPlain()
    ensures Plain("bootstrap@5") && Plain("3") && Plain("2/dist/js/bootstrap") && Plain("bundle") && Plain("min") && Plain("js")
  {
    assert Plain("2/dist/js/bootstrap") by {
      LongPiecePlain("js/");
    }
  }

  /** The JS pattern is the script bundle's file name with its dots escaped. */
  lemma CompileJsPattern()
    ensures Compile(JsPattern) == Some(Lits(JsFile))
  {
    JsPiecesPlain();
    SixPiecesEscaped(JsFile, JsPattern, "bootstrap@5", "3", "2/dist/js/bootstrap", "bundle", "min", "js");
    CompileRender(Lits(JsFile));
  }

  /** A pattern spelled as a plain run, one token and a plain run. */
  lemma CompileSpelled(p: string, a: string, t: Token, b: string)
    requires Plain(a) && Plain(b) && p == a + RenderToken(t) + b
    ensures Compile(p) == Some(Lits(a) + [t] + Lits(b))
  {
    CompileAround(a, t, b);
  }

  lemma CompileLangPattern()
    ensures Compile(LangPattern) == Some(Lits("<html") + [Spaces] + Lits("lang=\"en\">"))
  {
    assert Plain("<html");
    assert Plain("lang=\"en\">");
    assert RenderToken(Spaces) == "\\s+";
    LangPatternSpelled();
    CompileSpelled(LangPattern, "<html", Spaces, "lang=\"en\">");
  }

  lemma CompileCharsetPattern()
    ensures Compile(CharsetPattern) == Some(Lits("<meta") + [Spaces] + Lits("charset=\"UTF-8\">"))
  {
    assert Plain("<meta");
    assert Plain("charset=") && Plain("\"UTF-8\">");
    PlainAppend("charset=", "\"UTF-8\">");
    assert RenderToken(Spaces) == "\\s+";
    CharsetPatternSpelled();
    CompileSpelled(CharsetPattern, "<meta", Spaces, "charset=\"UTF-8\">");
  }

  lemma CompileViewportPattern()
    ensures Compile(ViewportPattern) == Some(Lits("<meta") + [Spaces] + Lits("name=\"viewport\""))
  {
    assert Plain("<meta");
    assert Plain("name=\"viewport\"");
    assert RenderToken(Spaces) == "\\s+";
    ViewportPatternSpelled();
    CompileSpelled(ViewportPattern, "<meta", Spaces, "name=\"viewport\"");
  }

  lemma CompileTitlePattern()
    ensures Compile(TitlePattern) == Some(Lits("<title>") + [AnyLazy] + Lits("</title>"))
  {
    assert Plain("<title>");
    assert Plain("</title>");
    assert RenderToken(AnyLazy) == ".*?";
    TitlePatternSpelled();
    CompileSpelled(TitlePattern, "<title>", AnyLazy, "</title>");
  }

  /**
   * "Page title" is met by any page holding `<title>`, a title without a
   * line break and `</title>`, the tags in any letter case.
   */
  lemma TitleMet(pre: string, open: string, w: string, close: string, post: string)
    requires Lower(open) == Lower("<title>") && '\n' !in w && Lower(close) == Lower("</title>")
    ensures Supported(Catalog[4]) && Passes(Catalog[4], pre + open + w + close + post)
  {
    CatalogPatterns();
    CompileTitlePattern();
    SearchAround("<title>", AnyLazy, "</title>", pre, open, w, close, post);
  }

  /**
   * "HTML lang attribute" is met by any page holding `<html`, one or more
   * whitespace characters and `lang="en">`, in any letter case.
   */
  lemma LangMet(pre: string, open: string, w: string, attr: string, post: string)
    requires Lower(open) == Lower("<html") && Fills(Spaces, w) && Lower(attr) == Lower("lang=\"en\">")
    ensures Supported(Catalog[1]) && Passes(Catalog[1], pre + open + w + attr + post)
  {
    CatalogPatterns();
    CompileLangPattern();
    SearchAround("<html", Spaces, "lang=\"en\">", pre, open, w, attr, post);
  }

  /** A page that is only `<Title>Test</Title>` meets "Page title". */
  lemma TitleExample(page: string)
    requires page == "<Title>Test</Title>"
    ensures Supported(Catalog[4]) && Passes(Catalog[4], page)
  {
    var open, w, close := "<Title>", "Test", "</Title>";
    TitleTagsFold(open, close);
    TitlePageSpelled(page, open, w, close);
    TitleMet("", open, w, close, "");
  }

  /** The capitalised title tags fold to the pattern's tags. */
  lemma TitleTagsFold(open: string, close: string)
    requires open == "<Title>" && close == "</Title>"
    ensures Lower(open) == Lower("<title>") && Lower(close) == Lower("</title>")
  {
  }

  lemma TitlePageSpelled(page: string, open: string, w: string, close: string)
    requires page == "<Title>Test</Title>" && open == "<Title>" && w == "Test" && close == "</Title>"
    ensures page == "" + open + w + close + "" && '\n' !in w
  {
  }

  /** The last seven criteria are worth 65 points. */
  lemma CatalogTailScore()
    ensures |Catalog| == 14 && MaxScore(Catalog[7..]) == 65
  {
    assert MaxScore(Catalog[13..]) == 7;
    assert MaxScore(Catalog[12..]) == 17;
    assert MaxScore(Catalog[11..]) == 27;
    assert MaxScore(Catalog[10..]) == 37;
    assert MaxScore(Catalog[9..]) == 47;
    assert MaxScore(Catalog[8..]) == 57;
  }

  /** The last ten criteria are worth 90 points. */
  lemma CatalogMiddleScore()
    ensures |Catalog| == 14 && MaxScore(Catalog[4..]) == 90
  {
    CatalogTailScore();
    assert MaxScore(Catalog[6..]) == 75;
    assert MaxScore(Catalog[5..]) == 85;
  }

  /** `max_score` of the catalog: the criteria are worth 110 points together. */
  lemma CatalogMaxScore()
    ensures |Catalog| == 14 && MaxScore(Catalog) == 110
  {
    CatalogMiddleScore();
    assert MaxScore(Catalog[3..]) == 95;
    assert MaxScore(Catalog[2..]) == 100;
    assert MaxScore(Catalog[1..]) == 105;
    assert Catalog[0..] == Catalog;
  }

  /** Where the six regex patterns sit in the catalog. */
  lemma CatalogPatterns()
    ensures Catalog[1].pattern == LangPattern && Catalog[2].pattern == CharsetPattern
    ensures Catalog[3].pattern == ViewportPattern && Catalog[4].pattern == TitlePattern
    ensures Catalog[5].pattern == CssPattern && Catalog[13].pattern == JsPattern
    ensures forall k | k in {1, 2, 3, 4, 5, 13} :: Catalog[k].kind == Regex && Catalog[k].points > 0
  {
  }

  lemma CdnFilesNonEmpty()
    ensures |CssFile| > 0 && |JsFile| > 0
  {
  }

  /** A regex criterion whose pattern reads as a non-empty literal run, a token and a run. */
  lemma RegexAroundWellFormed(c: Criterion, p: string, a: string, t: Token, b: string)
    requires c.kind == Regex && c.points > 0 && |a| > 0
    requires c.pattern == p && Compile(p) == Some(Lits(a) + [t] + Lits(b))
    ensures WellFormed(c)
  {
    MinLenStart(Lits(a) + [t] + Lits(b));
  }

  /** A regex criterion whose pattern reads as a non-empty literal file name. */
  lemma RegexLiteralWellFormed(c: Criterion, p: string, file: string)
    requires c.kind == Regex && c.points > 0 && |file| > 0
    requires c.pattern == p && Compile(p) == Some(Lits(file))
    ensures WellFormed(c)
  {
    MinLenStart(Lits(file));
  }

  lemma LangWellFormed()
    ensures WellFormed(Catalog[1])
  {
    CatalogPatterns();
    CompileLangPattern();
    RegexAroundWellFormed(Catalog[1], LangPattern, "<html", Spaces, "lang=\"en\">");
  }

  lemma CharsetWellFormed()
    ensures WellFormed(Catalog[2])
  {
    CatalogPatterns();
    CompileCharsetPattern();
    RegexAroundWellFormed(Catalog[2], CharsetPattern, "<meta", Spaces, "charset=\"UTF-8\">");
  }

  lemma ViewportWellFormed()
    ensures WellFormed(Catalog[3])
  {
    CatalogPatterns();
    CompileViewportPattern();
    RegexAroundWellFormed(Catalog[3], ViewportPattern, "<meta", Spaces, "name=\"viewport\"");
  }

  lemma TitleWellFormed()
    ensures WellFormed(Catalog[4])
  {
    CatalogPatterns();
    CompileTitlePattern();
    RegexAroundWellFormed(Catalog[4], TitlePattern, "<title>", AnyLazy, "</title>");
  }

  lemma CssWellFormed()
    ensures WellFormed(Catalog[5])
  {
    CatalogPatterns();
    CdnFilesNonEmpty();
    CompileCssPattern();
    RegexLiteralWellFormed(Catalog[5], CssPattern, CssFile);
  }

  lemma JsWellFormed()
    ensures WellFormed(Catalog[13])
  {
    CatalogPatterns();
    CdnFilesNonEmpty();
    CompileJsPattern();
    RegexLiteralWellFormed(Catalog[13], JsPattern, JsFile);
  }

  lemma LiteralsWellFormed()
    ensures forall k :: 0 <= k < |Catalog| && Catalog[k].kind != Regex ==> WellFormed(Catalog[k])
  {
  }

  /** Every criterion of the catalog is worth points, and every regex pattern is read and needs input. */
  lemma CatalogWellFormed()
    ensures forall k :: 0 <= k < |Catalog| ==> WellFormed(Catalog[k])
  {
    forall k | 0 <= k < |Catalog|
      ensures WellFormed(Catalog[k])
    {
      if k == 1 {
        LangWellFormed();
      } else if k == 2 {
        CharsetWellFormed();
      } else if k == 3 {
        ViewportWellFormed();
      } else if k == 4 {
        TitleWellFormed();
      } else if k == 5 {
        CssWellFormed();
      } else if k == 13 {
        JsWellFormed();
      } else {
        LiteralsWellFormed();
      }
    }
  }
}

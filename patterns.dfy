/**
 * The pattern strings of the rubric (app.py:92-112, 152) as constants. A
 * pattern here is the text of the source's raw string, so `\\.` in Dafny
 * is the two characters `\.` of the pattern.
 */
module Patterns {
  /** The six regular-expression patterns of the catalog. */
  const LangPattern: string := "<html\\s+lang=\"en\">"
  const CharsetPattern: string := "<meta\\s+charset=\"UTF-8\">"
  const ViewportPattern: string := "<meta\\s+name=\"viewport\""
  const TitlePattern: string := "<title>.*?</title>"

  /**
   * The two CDN patterns, `bootstrap@5\.3\.2/dist/css/bootstrap\.min\.css` and
   * `bootstrap@5\.3\.2/dist/js/bootstrap\.bundle\.min\.js`, spelled out in
   * the pieces between their escaped dots.
   */
  const CssPattern: string := "bootstrap@5" + "\\." + ("3" + "\\." + ("2/dist/css/bootstrap" + "\\." + ("min" + "\\." + "css")))
  const JsPattern: string :=
    "bootstrap@5" + "\\." + ("3" + "\\." + ("2/dist/js/bootstrap" + "\\." + ("bundle" + "\\." + ("min" + "\\." + "js"))))

  /** The files the two CDN criteria look for, `bootstrap@5.3.2/dist/css/bootstrap.min.css` and `bootstrap@5.3.2/dist/js/bootstrap.bundle.min.js`. */
  const CssFile: string := "bootstrap@5" + "." + ("3" + "." + ("2/dist/css/bootstrap" + "." + ("min" + "." + "css")))
  const JsFile: string := "bootstrap@5" + "." + ("3" + "." + ("2/dist/js/bootstrap" + "." + ("bundle" + "." + ("min" + "." + "js"))))

  /**
   * The four short patterns, each a plain run, one pattern token and a plain run.
   * Each literal equality is a lemma of its own so that it is proved apart from
   * the compilation and matching arguments that use it.
   */
  lemma LangPatternSpelled()
    ensures LangPattern == "<html" + "\\s+" + "lang=\"en\">"
  {
  }

  lemma CharsetPatternSpelled()
    ensures CharsetPattern == "<meta" + "\\s+" + "charset=\"UTF-8\">"
  {
  }

  lemma ViewportPatternSpelled()
    ensures ViewportPattern == "<meta" + "\\s+" + "name=\"viewport\""
  {
  }

  lemma TitlePatternSpelled()
    ensures TitlePattern == "<title>" + ".*?" + "</title>"
  {
  }
}

/**
 * The part of Python's `re.search(pattern, text, re.IGNORECASE)` that the
 * rubric's regular expressions use: literal characters compared without
 * regard to letter case, a backslash-escaped metacharacter such as `\.`,
 * one-or-more whitespace `\s+`, and the lazy wildcard `.*?`, which does not
 * cross a newline. Any other construct is refused when the pattern is
 * compiled.
 */
module Re {
  import opened Wrappers
  import opened Strings

  /** One element of a compiled pattern. */
  datatype Token =
    | Char(c: char)  // a literal character, written plainly or escaped
    | Spaces         // `\s+`
    | AnyLazy        // `.*?`

  /** Characters with a special meaning in a pattern. */
  predicate IsMeta(c: char) {
    || c == '.' || c == '^' || c == '$' || c == '*' || c == '+' || c == '?' || c == '{'
    || c == '}' || c == '[' || c == ']' || c == '|' || c == '(' || c == ')' || c == '\\'
  }

  /** No character of `s` is special, so `s` reads as itself in a pattern. */
  predicate Plain(s: string) {
    forall c | c in s :: !IsMeta(c)
  }

  lemma PlainAppend(a: string, b: string)
    ensures Plain(a + b) <==> Plain(a) && Plain(b)
  {
    forall c | c in a + b
      ensures c in a || c in b
    {
    }
  }

  function Cons(t: Token, rest: Option<seq<Token>>): Option<seq<Token>> {
    match rest
    case None => None
    case Some(ts) => Some([t] + ts)
  }

  /** Reads a pattern into tokens; `None` for a construct outside the supported forms. */
  function Compile(p: string): Option<seq<Token>>
    decreases |p|
  {
    if |p| == 0 then Some([])
    else if |p| >= 3 && p[0] == '\\' && p[1] == 's' && p[2] == '+' then Cons(Spaces, Compile(p[3..]))
    else if |p| >= 3 && p[0] == '.' && p[1] == '*' && p[2] == '?' then Cons(AnyLazy, Compile(p[3..]))
    else if |p| >= 2 && p[0] == '\\' && IsMeta(p[1]) then Cons(Char(p[1]), Compile(p[2..]))
    else if IsMeta(p[0]) then None
    else Cons(Char(p[0]), Compile(p[1..]))
  }

  /** The pattern text that denotes one token. */
  function RenderToken(t: Token): string {
    match t
    case Char(c) => if IsMeta(c) then ['\\', c] else [c]
    case Spaces => "\\s+"
    case AnyLazy => ".*?"
  }

  /** The pattern text that denotes a token sequence. */
  function Render(ts: seq<Token>): string {
    if |ts| == 0 then "" else RenderToken(ts[0]) + Render(ts[1..])
  }

  /** A string read as a sequence of literal characters. */
  function Lits(s: string): (ts: seq<Token>)
    ensures |ts| == |s|
  {
    if |s| == 0 then [] else [Char(s[0])] + Lits(s[1..])
  }

  /** Compiling reads one rendered token off the front of a pattern. */
  lemma CompileToken(t: Token, rest: string)
    ensures Compile(RenderToken(t) + rest) == Cons(t, Compile(rest))
  {
    var p := RenderToken(t) + rest;
    match t
    case Spaces =>
      assert p[..3] == "\\s+" && p[3..] == rest;
    case AnyLazy =>
      assert p[..3] == ".*?" && p[3..] == rest;
    case Char(c) =>
      if IsMeta(c) {
        assert p[0] == '\\' && p[1] == c && p[2..] == rest;
        assert !IsMeta('s');
      } else {
        assert p[0] == c && p[1..] == rest;
        assert IsMeta('\\') && IsMeta('.');
      }
  }

  /** Compiling what was rendered gives back the tokens. */
  lemma {:induction false} CompileRender(ts: seq<Token>)
    ensures Compile(Render(ts)) == Some(ts)
  {
    if |ts| > 0 {
      CompileRender(ts[1..]);
      CompileToken(ts[0], Render(ts[1..]));
      assert [ts[0]] + ts[1..] == ts;
    }
  }

  lemma {:induction false} RenderAppend(a: seq<Token>, b: seq<Token>)
    ensures Render(a + b) == Render(a) + Render(b)
  {
    if |a| > 0 {
      assert (a + b)[1..] == a[1..] + b;
      RenderAppend(a[1..], b);
    } else {
      assert a + b == b;
    }
  }

  lemma {:induction false} RenderPlain(s: string)
    requires Plain(s)
    ensures Render(Lits(s)) == s
  {
    if |s| > 0 {
      assert s[0] in s;
      RenderPlain(s[1..]);
      assert [s[0]] + s[1..] == s;
    }
  }

  lemma {:induction false} LitsAppend(a: string, b: string)
    ensures Lits(a + b) == Lits(a) + Lits(b)
  {
    if |a| > 0 {
      assert (a + b)[1..] == a[1..] + b;
      LitsAppend(a[1..], b);
    } else {
      assert a + b == b;
    }
  }

  /** Rendering literal characters distributes over concatenation. */
  lemma RenderLitsAppend(a: string, b: string)
    ensures Render(Lits(a + b)) == Render(Lits(a)) + Render(Lits(b))
  {
    LitsAppend(a, b);
    RenderAppend(Lits(a), Lits(b));
  }

  /** Python's lower-casing restricted to ASCII letters. */
  function Fold(c: char): char {
    if 'A' <= c <= 'Z' then (c as int + 32) as char else c
  }

  function Lower(s: string): (t: string)
    ensures |t| == |s|
  {
    if |s| == 0 then [] else [Fold(s[0])] + Lower(s[1..])
  }

  /** What `\s` matches in a Python `str` pattern: the characters `str.isspace` accepts. */
  predicate IsSpace(c: char) {
    var n := c as int;
    n == 0x20 || 0x09 <= n <= 0x0D || 0x1C <= n <= 0x1F || n == 0x85 || n == 0xA0 ||
    n == 0x1680 || 0x2000 <= n <= 0x200A || n == 0x2028 || n == 0x2029 ||
    n == 0x202F || n == 0x205F || n == 0x3000
  }

  /** The tokens match some prefix of `s`. */
  predicate MatchPrefix(ts: seq<Token>, s: string)
    decreases |s|, |ts|
  {
    if |ts| == 0 then true
    else match ts[0]
      case Char(c) =>
        |s| > 0 && Fold(s[0]) == Fold(c) && MatchPrefix(ts[1..], s[1..])
      case Spaces =>
        |s| > 0 && IsSpace(s[0]) && (MatchPrefix(ts[1..], s[1..]) || MatchPrefix(ts, s[1..]))
      case AnyLazy =>
        MatchPrefix(ts[1..], s) || (|s| > 0 && s[0] != '\n' && MatchPrefix(ts, s[1..]))
  }

  /** `re.search`: a match starts at some position of `s`, the end included. */
  predicate Search(ts: seq<Token>, s: string)
    decreases |s|
  {
    MatchPrefix(ts, s) || (|s| > 0 && Search(ts, s[1..]))
  }

  /** `bool(re.search(pattern, text, re.IGNORECASE))` for a supported pattern. */
  predicate RegexSearchCI(pattern: string, text: string)
    requires Compile(pattern).Some?
  {
    Search(Compile(pattern).value, text)
  }

  /** The fewest characters a match of `ts` can consume. */
  function MinLen(ts: seq<Token>): nat {
    if |ts| == 0 then 0 else (if ts[0].AnyLazy? then 0 else 1) + MinLen(ts[1..])
  }

  /** A match consumes at least `MinLen` characters. */
  lemma {:induction false} MatchNeedsLength(ts: seq<Token>, s: string)
    requires MatchPrefix(ts, s)
    ensures |s| >= MinLen(ts)
    decreases |s|, |ts|
  {
    if |ts| > 0 {
      match ts[0]
      case Char(c) =>
        MatchNeedsLength(ts[1..], s[1..]);
      case Spaces =>
        if MatchPrefix(ts[1..], s[1..]) {
          MatchNeedsLength(ts[1..], s[1..]);
        } else {
          MatchNeedsLength(ts, s[1..]);
        }
      case AnyLazy =>
        if MatchPrefix(ts[1..], s) {
          MatchNeedsLength(ts[1..], s);
        } else {
          MatchNeedsLength(ts, s[1..]);
        }
    }
  }

  /** So a search succeeds only on a text at least `MinLen` long. */
  lemma {:induction false} SearchNeedsLength(ts: seq<Token>, s: string)
    requires Search(ts, s)
    ensures |s| >= MinLen(ts)
    decreases |s|
  {
    if MatchPrefix(ts, s) {
      MatchNeedsLength(ts, s);
    } else {
      SearchNeedsLength(ts, s[1..]);
    }
  }

  lemma FoldFacts(c: char)
    ensures Fold(Fold(c)) == Fold(c)
    ensures IsSpace(Fold(c)) == IsSpace(c)
    ensures (Fold(c) == '\n') == (c == '\n')
  {
  }

  /** A match does not depend on the letter case of the text. */
  lemma {:induction false} MatchIgnoresCase(ts: seq<Token>, s: string)
    ensures MatchPrefix(ts, s) == MatchPrefix(ts, Lower(s))
    decreases |s|, |ts|
  {
    var t := Lower(s);
    if |s| > 0 {
      FoldFacts(s[0]);
      assert t[0] == Fold(s[0]) && t[1..] == Lower(s[1..]);
    }
    if |ts| > 0 {
      match ts[0]
      case Char(c) =>
        if |s| > 0 {
          MatchIgnoresCase(ts[1..], s[1..]);
        }
      case Spaces =>
        if |s| > 0 {
          MatchIgnoresCase(ts[1..], s[1..]);
          MatchIgnoresCase(ts, s[1..]);
        }
      case AnyLazy =>
        MatchIgnoresCase(ts[1..], s);
        if |s| > 0 {
          MatchIgnoresCase(ts, s[1..]);
        }
    }
  }

  /** Hence neither does a search: regex checks are case-insensitive. */
  lemma {:induction false} SearchIgnoresCase(ts: seq<Token>, s: string)
    ensures Search(ts, s) == Search(ts, Lower(s))
    decreases |s|
  {
    MatchIgnoresCase(ts, s);
    if |s| > 0 {
      SearchIgnoresCase(ts, s[1..]);
      assert Lower(s)[1..] == Lower(s[1..]);
    }
  }

  /** A pattern of literal characters matches where the text, lower-cased, starts with it. */
  lemma {:induction false} MatchLiteral(p: string, s: string)
    ensures MatchPrefix(Lits(p), s) <==> StartsWith(Lower(s), Lower(p))
    decreases |p|
  {
    if |p| > 0 && |s| > 0 {
      MatchLiteral(p[1..], s[1..]);
      var ls, lp := Lower(s), Lower(p);
      assert ls[1..] == Lower(s[1..]) && lp[1..] == Lower(p[1..]);
      assert Lits(p)[1..] == Lits(p[1..]);
      if StartsWith(ls, lp) {
        assert ls[1..][..|lp| - 1] == ls[..|lp|][1..];
      }
      if StartsWith(ls[1..], lp[1..]) && ls[0] == lp[0] {
        assert ls[..|lp|] == [ls[0]] + ls[1..][..|lp| - 1];
        assert lp == [lp[0]] + lp[1..];
      }
    }
  }

  /** A literal pattern is found by `re.search` iff it is a substring up to ASCII case. */
  lemma {:induction false} SearchLiteral(p: string, s: string)
    ensures Search(Lits(p), s) <==> Contains(Lower(s), Lower(p))
    decreases |s|
  {
    MatchLiteral(p, s);
    if |s| > 0 {
      SearchLiteral(p, s[1..]);
      assert Lower(s)[1..] == Lower(s[1..]);
    }
  }

  /** Matching literal characters consumes exactly the text they match. */
  lemma {:induction false} MatchLitsThen(a: string, rest: seq<Token>, u: string, v: string)
    requires Lower(u) == Lower(a)
    ensures MatchPrefix(Lits(a) + rest, u + v) == MatchPrefix(rest, v)
    decreases |a|
  {
    if |a| == 0 {
      assert Lits(a) + rest == rest;
      assert u + v == v;
    } else {
      LitStep(a, rest, u, v);
      MatchLitsThen(a[1..], rest, u[1..], v);
    }
  }

  /** One literal character of the pattern against one character of the text. */
  lemma LitStep(a: string, rest: seq<Token>, u: string, v: string)
    requires |a| > 0 && Lower(u) == Lower(a)
    ensures Lower(u[1..]) == Lower(a[1..])
    ensures MatchPrefix(Lits(a) + rest, u + v) == MatchPrefix(Lits(a[1..]) + rest, u[1..] + v)
  {
    var ts, s := Lits(a) + rest, u + v;
    assert |u| == |a|;
    assert Lower(u)[0] == Fold(u[0]) && Lower(a)[0] == Fold(a[0]);
    assert Lower(u)[1..] == Lower(u[1..]) && Lower(a)[1..] == Lower(a[1..]);
    assert ts[0] == Char(a[0]) && ts[1..] == Lits(a[1..]) + rest;
    assert s[0] == u[0] && s[1..] == u[1..] + v;
    assert MatchPrefix(ts, s) == (Fold(s[0]) == Fold(a[0]) && MatchPrefix(ts[1..], s[1..]));
  }

  /** The lazy wildcard may skip any run of characters without a newline. */
  lemma {:induction false} AnyLazySkips(rest: seq<Token>, w: string, v: string)
    requires '\n' !in w
    requires MatchPrefix(rest, v)
    ensures MatchPrefix([AnyLazy] + rest, w + v)
    decreases |w|
  {
    assert ([AnyLazy] + rest)[1..] == rest;
    if |w| == 0 {
      assert w + v == v;
    } else {
      assert w[0] in w;
      assert (w + v)[1..] == w[1..] + v;
      AnyLazySkips(rest, w[1..], v);
    }
  }

  /** One or more whitespace characters may be consumed by `\s+`. */
  lemma {:induction false} SpacesSkip(rest: seq<Token>, w: string, v: string)
    requires |w| > 0 && forall i :: 0 <= i < |w| ==> IsSpace(w[i])
    requires MatchPrefix(rest, v)
    ensures MatchPrefix([Spaces] + rest, w + v)
    decreases |w|
  {
    var ts, s := [Spaces] + rest, w + v;
    assert ts[1..] == rest && s[0] == w[0];
    if |w| == 1 {
      assert s[1..] == v;
    } else {
      SpacesSkip(rest, w[1..], v);
      assert s[1..] == w[1..] + v;
    }
  }

  /** The text `w` is one that the token `t` can consume. */
  predicate Fills(t: Token, w: string) {
    match t
    case Char(c) => |w| == 1 && Fold(w[0]) == Fold(c)
    case Spaces => |w| > 0 && forall i :: 0 <= i < |w| ==> IsSpace(w[i])
    case AnyLazy => '\n' !in w
  }

  /** A token followed by a match of the rest matches what it consumes followed by that match. */
  lemma TokenThen(t: Token, rest: seq<Token>, w: string, v: string)
    requires Fills(t, w) && MatchPrefix(rest, v)
    ensures MatchPrefix([t] + rest, w + v)
  {
    match t
    case Char(c) =>
      assert ([t] + rest)[1..] == rest && (w + v)[0] == w[0] && (w + v)[1..] == v;
    case Spaces =>
      SpacesSkip(rest, w, v);
    case AnyLazy =>
      AnyLazySkips(rest, w, v);
  }

  /** A literal run matches the same text in any letter case. */
  lemma LitsMatch(b: string, v: string)
    requires Lower(v) == Lower(b)
    ensures MatchPrefix(Lits(b), v)
  {
    MatchLitsThen(b, [], v, "");
    assert Lits(b) + [] == Lits(b) && v + "" == v;
  }

  /** A token and a literal run match the text they spell. */
  lemma TokenLitsMatch(t: Token, b: string, w: string, v: string)
    requires Fills(t, w) && Lower(v) == Lower(b)
    ensures MatchPrefix([t] + Lits(b), w + v)
  {
    LitsMatch(b, v);
    TokenThen(t, Lits(b), w, v);
  }

  /** A literal run, one token and a literal run match the text they spell. */
  lemma AroundMatches(a: string, t: Token, b: string, u: string, w: string, v: string)
    requires Lower(u) == Lower(a) && Fills(t, w) && Lower(v) == Lower(b)
    ensures MatchPrefix(Lits(a) + [t] + Lits(b), u + w + v)
  {
    var rest, tail := [t] + Lits(b), w + v;
    TokenLitsMatch(t, b, w, v);
    MatchLitsThen(a, rest, u, tail);
    AroundGroups(Lits(a), [t], Lits(b), u, w, v);
  }

  lemma AroundGroups(x: seq<Token>, y: seq<Token>, z: seq<Token>, u: string, w: string, v: string)
    ensures x + y + z == x + (y + z) && u + w + v == u + (w + v)
  {
  }

  /** A match is found by a search of any text around it. */
  lemma MatchFound(ts: seq<Token>, pre: string, m: string, post: string)
    requires MatchPrefix(ts, m)
    ensures Search(ts, pre + m + post)
  {
    MatchExtends(ts, m, post);
    assert Search(ts, m + post);
    SearchPrepend(ts, pre, m + post);
    assert pre + m + post == pre + (m + post);
  }

  /**
   * A pattern of a literal run, one token and a literal run is found in any
   * text holding the two runs, in any letter case, around what the token
   * can consume.
   */
  lemma SearchAround(a: string, t: Token, b: string, pre: string, u: string, w: string, v: string, post: string)
    requires Lower(u) == Lower(a) && Fills(t, w) && Lower(v) == Lower(b)
    ensures Search(Lits(a) + [t] + Lits(b), pre + u + w + v + post)
  {
    AroundMatches(a, t, b, u, w, v);
    MatchFound(Lits(a) + [t] + Lits(b), pre, u + w + v, post);
    TextGroups(pre, u, w, v, post);
  }

  lemma TextGroups(pre: string, u: string, w: string, v: string, post: string)
    ensures pre + u + w + v + post == pre + (u + w + v) + post
  {
  }

  /** What follows a match does not undo it. */
  lemma {:induction false} MatchExtends(ts: seq<Token>, s: string, b: string)
    requires MatchPrefix(ts, s)
    ensures MatchPrefix(ts, s + b)
    decreases |s|, |ts|
  {
    if |ts| > 0 {
      var sb := s + b;
      match ts[0]
      case Char(c) =>
        assert sb[0] == s[0] && sb[1..] == s[1..] + b;
        MatchExtends(ts[1..], s[1..], b);
      case Spaces =>
        assert sb[0] == s[0] && sb[1..] == s[1..] + b;
        if MatchPrefix(ts[1..], s[1..]) {
          MatchExtends(ts[1..], s[1..], b);
        } else {
          MatchExtends(ts, s[1..], b);
        }
      case AnyLazy =>
        if MatchPrefix(ts[1..], s) {
          MatchExtends(ts[1..], s, b);
        } else {
          assert sb[0] == s[0] && sb[1..] == s[1..] + b;
          MatchExtends(ts, s[1..], b);
        }
    }
  }

  /** Text appended after a found match leaves it found. */
  lemma {:induction false} SearchAppend(ts: seq<Token>, s: string, b: string)
    requires Search(ts, s)
    ensures Search(ts, s + b)
    decreases |s|
  {
    if MatchPrefix(ts, s) {
      MatchExtends(ts, s, b);
    } else {
      SearchAppend(ts, s[1..], b);
      assert (s + b)[1..] == s[1..] + b;
    }
  }

  /** Text put in front of a found match leaves it found. */
  lemma {:induction false} SearchPrepend(ts: seq<Token>, a: string, s: string)
    requires Search(ts, s)
    ensures Search(ts, a + s)
    decreases |a|
  {
    if |a| == 0 {
      assert a + s == s;
    } else {
      SearchPrepend(ts, a[1..], s);
      assert (a + s)[1..] == a[1..] + s;
    }
  }
}

/**
 * The three string operations the grading engine borrows from Python's `str`:
 * `p in s`, `s.endswith(p)` and `s.replace(old, new)`, each with the
 * facts the rest of the model relies on.
 */
module Strings {

  /** `s.startswith(p)`. */
  predicate StartsWith(s: string, p: string) {
    |p| <= |s| && s[..|p|] == p
  }

  /** `s.endswith(p)`. */
  predicate EndsWith(s: string, p: string) {
    |p| <= |s| && s[|s| - |p|..] == p
  }

  /** `p in s`: case-sensitive search for `p` at every position of `s`. */
  predicate Contains(s: string, p: string)
    decreases |s|
  {
    StartsWith(s, p) || (|s| > 0 && Contains(s[1..], p))
  }

  /** Reference meaning of containment: `p` sits in `s` starting at index `i`. */
  ghost predicate OccursAt(s: string, p: string, i: int) {
    0 <= i && i + |p| <= |s| && s[i..i + |p|] == p
  }

  /** A found block occurs at some index. */
  lemma {:induction false} ContainsOccurs(s: string, p: string)
    requires Contains(s, p)
    ensures exists i :: OccursAt(s, p, i)
    decreases |s|
  {
    if StartsWith(s, p) {
      assert OccursAt(s, p, 0);
    } else {
      ContainsOccurs(s[1..], p);
      var i :| OccursAt(s[1..], p, i);
      assert s[1..][i..i + |p|] == s[i + 1..i + 1 + |p|];
      assert OccursAt(s, p, i + 1);
    }
  }

  /** A block occurring at an index is found. */
  lemma {:induction false} OccursContains(s: string, p: string, i: int)
    requires OccursAt(s, p, i)
    ensures Contains(s, p)
    decreases i
  {
    if i > 0 {
      assert s[1..][i - 1..i - 1 + |p|] == s[i..i + |p|];
      OccursContains(s[1..], p, i - 1);
    } else {
      assert StartsWith(s, p);
    }
  }

  /** The search and the reference meaning agree, in both directions. */
  lemma ContainsIffOccurs(s: string, p: string)
    ensures Contains(s, p) <==> exists i :: OccursAt(s, p, i)
  {
    if Contains(s, p) {
      ContainsOccurs(s, p);
    }
    if exists i :: OccursAt(s, p, i) {
      var i :| OccursAt(s, p, i);
      OccursContains(s, p, i);
    }
  }

  /** A block placed inside a string is found there. */
  lemma ContainsWitness(a: string, p: string, b: string)
    ensures Contains(a + p + b, p)
  {
    var s := a + p + b;
    assert s[|a|..|a| + |p|] == p;
    assert OccursAt(s, p, |a|);
    ContainsIffOccurs(s, p);
  }

  /** A block found in a string is found in any string around it. */
  lemma ContainsExtends(a: string, s: string, b: string, p: string)
    requires Contains(s, p)
    ensures Contains(a + s + b, p)
  {
    ContainsIffOccurs(s, p);
    var i :| OccursAt(s, p, i);
    var t := a + s + b;
    assert t[|a| + i..|a| + i + |p|] == s[i..i + |p|];
    assert OccursAt(t, p, |a| + i);
    ContainsIffOccurs(t, p);
  }

  /**
   * A block found in `a + b` lies inside `a`, inside `b`, or across the
   * seam: a proper prefix of it ends `a` and the rest starts `b`.
   */
  lemma ContainsSplit(a: string, b: string, p: string)
    requires Contains(a + b, p)
    ensures Contains(a, p) || Contains(b, p) || exists k :: 0 < k < |p| && EndsWith(a, p[..k]) && StartsWith(b, p[k..])
  {
    ContainsOccurs(a + b, p);
    var i :| OccursAt(a + b, p, i);
    if i + |p| <= |a| {
      OccursLeft(a, b, p, i);
      OccursContains(a, p, i);
    } else if i >= |a| {
      OccursRight(a, b, p, i);
      OccursContains(b, p, i - |a|);
    } else {
      OccursAcross(a, b, p, i);
    }
  }

  /** An occurrence that ends before the seam is an occurrence in `a`. */
  lemma OccursLeft(a: string, b: string, p: string, i: int)
    requires OccursAt(a + b, p, i) && i + |p| <= |a|
    ensures OccursAt(a, p, i)
  {
    assert a[i..i + |p|] == (a + b)[i..i + |p|];
  }

  /** An occurrence that starts after the seam is an occurrence in `b`. */
  lemma OccursRight(a: string, b: string, p: string, i: int)
    requires OccursAt(a + b, p, i) && i >= |a|
    ensures OccursAt(b, p, i - |a|)
  {
    assert b[i - |a|..i - |a| + |p|] == (a + b)[i..i + |p|];
  }

  /** An occurrence over the seam splits the block between `a` and `b`. */
  lemma OccursAcross(a: string, b: string, p: string, i: int)
    requires OccursAt(a + b, p, i) && i < |a| < i + |p|
    ensures EndsWith(a, p[..|a| - i]) && StartsWith(b, p[|a| - i..])
  {
    var s := a + b;
    var k := |a| - i;
    assert a[|a| - k..] == s[i..|a|] == s[i..i + |p|][..k];
    assert b[..|p| - k] == s[|a|..i + |p|] == s[i..i + |p|][k..];
  }

  /** A block crossing the seam shares a character with each side of it. */
  lemma SeamChars(a: string, b: string, p: string, k: int)
    requires 0 < k < |p| && EndsWith(a, p[..k]) && StartsWith(b, p[k..])
    ensures |a| > 0 && a[|a| - 1] in p[..|p| - 1]
    ensures |b| > 0 && b[0] in p[1..]
  {
    assert a[|a| - 1] == p[..k][k - 1] == p[..|p| - 1][k - 1];
    assert b[0] == p[k..][0] == p[1..][k - 1];
  }

  /** So a seam neither side of which can be crossed splits the search in two. */
  lemma ContainsSplitSeam(a: string, b: string, p: string)
    requires |p| > 0
    requires (|a| > 0 && a[|a| - 1] !in p[..|p| - 1]) || (|b| > 0 && b[0] !in p[1..])
    ensures Contains(a + b, p) <==> Contains(a, p) || Contains(b, p)
  {
    if Contains(a + b, p) {
      ContainsSplit(a, b, p);
      if !Contains(a, p) && !Contains(b, p) {
        var k :| 0 < k < |p| && EndsWith(a, p[..k]) && StartsWith(b, p[k..]);
        SeamChars(a, b, p, k);
      }
    }
    ContainsJoin(a, b, p);
  }

  /** A block found in either part is found in the joined string. */
  lemma ContainsJoin(a: string, b: string, p: string)
    ensures Contains(a, p) || Contains(b, p) ==> Contains(a + b, p)
  {
    if Contains(a, p) {
      ContainsExtends([], a, b, p);
      assert [] + a + b == a + b;
    }
    if Contains(b, p) {
      ContainsExtends(a, b, [], p);
      assert a + b + [] == a + b;
    }
  }

  /** Every character of a contained block is a character of the string. */
  lemma ContainsKeepsChars(s: string, p: string, c: char)
    requires Contains(s, p) && c in p
    ensures c in s
  {
    ContainsIffOccurs(s, p);
    var i :| OccursAt(s, p, i);
    var k :| 0 <= k < |p| && p[k] == c;
    assert s[i + k] == s[i..i + |p|][k];
  }

  /** So a block with a character the string lacks is not contained. */
  lemma MissingChar(s: string, p: string, c: char)
    requires c in p && c !in s
    ensures !Contains(s, p)
  {
    if Contains(s, p) {
      ContainsKeepsChars(s, p, c);
    }
  }

  /** The empty string contains only the empty block. */
  lemma ContainsInEmpty(p: string)
    ensures Contains("", p) <==> |p| == 0
  {
  }

  /**
   * `s.replace(needle, repl)`: scanning left to right, every non-overlapping
   * occurrence of `needle` is replaced by `repl`; an empty needle inserts
   * `repl` before every character and at the end.
   */
  function ReplaceAll(s: string, needle: string, repl: string): string
    decreases |s|
  {
    if |needle| == 0 then
      if |s| == 0 then repl else repl + [s[0]] + ReplaceAll(s[1..], needle, repl)
    else if StartsWith(s, needle) then
      repl + ReplaceAll(s[|needle|..], needle, repl)
    else if |s| == 0 then
      []
    else
      [s[0]] + ReplaceAll(s[1..], needle, repl)
  }

  /** A string without the needle is returned unchanged. */
  lemma {:induction false} ReplaceAllAbsent(s: string, needle: string, repl: string)
    requires !Contains(s, needle)
    ensures ReplaceAll(s, needle, repl) == s
    decreases |s|
  {
    assert StartsWith(s, []);
    if |s| > 0 {
      ReplaceAllAbsent(s[1..], needle, repl);
      assert [s[0]] + s[1..] == s;
    }
  }

  /** Replacing the needle by itself changes nothing: only occurrences are touched. */
  lemma {:induction false} ReplaceAllSelf(s: string, needle: string)
    ensures ReplaceAll(s, needle, needle) == s
    decreases |s|
  {
    if |needle| == 0 {
      if |s| > 0 {
        ReplaceAllSelf(s[1..], needle);
        assert [s[0]] + s[1..] == s;
      }
    } else if StartsWith(s, needle) {
      ReplaceAllSelf(s[|needle|..], needle);
      assert s[..|needle|] + s[|needle|..] == s;
    } else if |s| > 0 {
      ReplaceAllSelf(s[1..], needle);
      assert [s[0]] + s[1..] == s;
    }
  }

  /** Where the needle occurs, the replacement shows up in the result. */
  lemma {:induction false} ReplaceAllIntroduces(s: string, needle: string, repl: string)
    requires Contains(s, needle)
    ensures Contains(ReplaceAll(s, needle, repl), repl)
    decreases |s|
  {
    var t := ReplaceAll(s, needle, repl);
    if |needle| == 0 || StartsWith(s, needle) {
      assert t[..|repl|] == repl;
    } else {
      ReplaceAllIntroduces(s[1..], needle, repl);
      assert t[1..] == ReplaceAll(s[1..], needle, repl);
    }
  }

  /** A leading part without the needle's first character is copied as it is. */
  lemma {:induction false} ReplaceAllSkip(a: string, b: string, needle: string, repl: string)
    requires |needle| > 0 && needle[0] !in a
    ensures ReplaceAll(a + b, needle, repl) == a + ReplaceAll(b, needle, repl)
    decreases |a|
  {
    if |a| > 0 {
      var s := a + b;
      assert s[0] == a[0];
      assert !StartsWith(s, needle);
      assert s[1..] == a[1..] + b;
      ReplaceAllSkip(a[1..], b, needle, repl);
      assert [a[0]] + a[1..] == a;
    } else {
      assert a + b == b;
    }
  }

  /** A leading part without the block's first character cannot hold or start the block. */
  lemma {:induction false} ContainsSkip(a: string, b: string, p: string)
    requires |p| > 0 && p[0] !in a
    ensures Contains(a + b, p) == Contains(b, p)
    decreases |a|
  {
    if |a| > 0 {
      var s := a + b;
      assert s[0] == a[0];
      assert !StartsWith(s, p);
      assert s[1..] == a[1..] + b;
      ContainsSkip(a[1..], b, p);
    } else {
      assert a + b == b;
    }
  }

  /** A string with a head character starts with a block when the heads agree and the tails do. */
  lemma StartsWithCons(c: char, u: string, p: string)
    requires |p| > 0
    ensures StartsWith([c] + u, p) <==> c == p[0] && StartsWith(u, p[1..])
  {
    if |p| - 1 <= |u| {
      assert ([c] + u)[..|p|] == [c] + u[..|p| - 1];
      assert p == [p[0]] + p[1..];
    }
  }

  /** Where the needle starts the input, `repl` starts the result. */
  lemma ReplaceAllStarts(x: string, needle: string, repl: string)
    ensures |needle| > 0 && StartsWith(x, needle) ==> StartsWith(ReplaceAll(x, needle, repl), repl)
  {
  }

  /**
   * Replacement never forges a prefix: a prefix of the result without the
   * first character of `repl` was already a prefix of the input.
   */
  lemma {:induction false} ReplaceAllPrefix(x: string, needle: string, repl: string, p: string)
    requires |needle| > 0 && |repl| > 0 && repl[0] !in p
    requires StartsWith(ReplaceAll(x, needle, repl), p)
    ensures StartsWith(x, p)
    decreases |x|
  {
    var t := ReplaceAll(x, needle, repl);
    ReplaceAllStarts(x, needle, repl);
    if |p| > 0 && !StartsWith(x, needle) && |x| > 0 {
      var u := ReplaceAll(x[1..], needle, repl);
      assert t == [x[0]] + u;
      StartsWithCons(x[0], u, p);
      ReplaceAllPrefix(x[1..], needle, repl, p[1..]);
      StartsWithCons(x[0], x[1..], p);
      assert [x[0]] + x[1..] == x;
    }
  }

  /** A string that starts with the needle starts, after replacement, with `repl`. */
  lemma ReplaceAllHere(b: string, needle: string, repl: string)
    requires |needle| > 0
    ensures ReplaceAll(needle + b, needle, repl) == repl + ReplaceAll(b, needle, repl)
  {
    var s := needle + b;
    assert StartsWith(s, needle);
    assert s[|needle|..] == b;
  }

  /** A string shorter than the block cannot contain it. */
  lemma ShortMisses(s: string, p: string)
    requires |s| < |p|
    ensures !Contains(s, p)
  {
    ContainsIffOccurs(s, p);
  }

  /**
   * Two strings without the block keep it out when joined, provided the
   * seam cannot be crossed: the last character of `a` does not occur in
   * the block before its final position, or the first character of `b`
   * does not occur in it after its first.
   */
  lemma NoSeam(a: string, b: string, p: string)
    requires !Contains(a, p) && !Contains(b, p)
    requires (|a| > 0 && a[|a| - 1] !in p[..|p| - 1]) || (|b| > 0 && b[0] !in p[1..])
    ensures !Contains(a + b, p)
  {
    ContainsSplitSeam(a, b, p);
  }

  /** A block found in a suffix is found in the whole string. */
  lemma ContainsSuffix(x: string, n: nat, p: string)
    requires n <= |x|
    ensures Contains(x[n..], p) ==> Contains(x, p)
  {
    if Contains(x[n..], p) {
      ContainsExtends(x[..n], x[n..], "", p);
      assert x[..n] + x[n..] + "" == x;
    }
  }

  /**
   * Where the input does not start with the needle, a prefix of the result
   * whose tail lacks the first character of `repl` was already a prefix of
   * the input.
   */
  lemma ReplaceConsPrefix(x: string, needle: string, repl: string, p: string)
    requires |needle| > 0 && |repl| > 0 && |x| > 0 && |p| > 0
    requires !StartsWith(x, needle) && repl[0] !in p[1..]
    ensures StartsWith(ReplaceAll(x, needle, repl), p) ==> StartsWith(x, p)
  {
    var t := ReplaceAll(x, needle, repl);
    if StartsWith(t, p) {
      var u := ReplaceAll(x[1..], needle, repl);
      assert t == [x[0]] + u;
      StartsWithCons(x[0], u, p);
      ReplaceAllPrefix(x[1..], needle, repl, p[1..]);
      StartsWithCons(x[0], x[1..], p);
      assert [x[0]] + x[1..] == x;
    }
  }

  /**
   * Replacing a needle by one character that the block lacks cannot
   * create the block.
   */
  lemma {:induction false} ReplaceKeepsAbsent(x: string, needle: string, repl: string, p: string)
    requires |needle| > 0 && |repl| == 1 && repl[0] !in p
    requires !Contains(x, p)
    ensures !Contains(ReplaceAll(x, needle, repl), p)
    decreases |x|
  {
    var t := ReplaceAll(x, needle, repl);
    if StartsWith(x, needle) {
      var rest := x[|needle|..];
      ContainsSuffix(x, |needle|, p);
      ReplaceKeepsAbsent(rest, needle, repl, p);
      assert t[1..] == ReplaceAll(rest, needle, repl);
    } else if |x| > 0 {
      ReplaceKeepsAbsent(x[1..], needle, repl, p);
      assert t == [x[0]] + ReplaceAll(x[1..], needle, repl);
      ReplaceConsPrefix(x, needle, repl, p);
    }
  }

  /**
   * Replacing every occurrence of a needle removes it for good, provided
   * the replacement lacks it and cannot complete it with a neighbour: the
   * first character of `repl` does not occur in the needle after its
   * first, and its last does not occur in the needle before its final.
   */
  lemma {:induction false} ReplaceAllRemoves(x: string, needle: string, repl: string)
    requires |needle| > 0 && !Contains(repl, needle)
    requires |repl| > 0 && repl[0] !in needle[1..] && repl[|repl| - 1] !in needle[..|needle| - 1]
    ensures !Contains(ReplaceAll(x, needle, repl), needle)
    decreases |x|
  {
    var t := ReplaceAll(x, needle, repl);
    if StartsWith(x, needle) {
      ReplaceAllRemoves(x[|needle|..], needle, repl);
      NoSeam(repl, ReplaceAll(x[|needle|..], needle, repl), needle);
    } else if |x| > 0 {
      ReplaceAllRemoves(x[1..], needle, repl);
      assert t == [x[0]] + ReplaceAll(x[1..], needle, repl);
      ReplaceConsPrefix(x, needle, repl, needle);
    } else {
      ContainsInEmpty(needle);
    }
  }

  /**
   * A block whose first character is not in the leading `n` characters
   * is found after them.
   */
  lemma {:induction false} ContainsAfter(y: string, n: nat, q: string)
    requires n <= |y| && |q| > 0 && q[0] !in y[..n] && Contains(y, q)
    ensures Contains(y[n..], q)
    decreases n
  {
    if n > 0 {
      assert y[0] in y[..n];
      assert y[1..][..n - 1] == y[1..n];
      ContainsAfter(y[1..], n - 1, q);
      assert y[1..][n - 1..] == y[n..];
    }
  }

  /** A prefix without the needle's first character survives replacement. */
  lemma {:induction false} ReplaceKeepsPrefix(y: string, needle: string, repl: string, q: string)
    requires |needle| > 0 && needle[0] !in q && StartsWith(y, q)
    ensures StartsWith(ReplaceAll(y, needle, repl), q)
    decreases |q|
  {
    if |q| > 0 {
      assert y[0] == q[0];
      var u := ReplaceAll(y[1..], needle, repl);
      assert ReplaceAll(y, needle, repl) == [y[0]] + u;
      assert y[1..][..|q| - 1] == q[1..];
      ReplaceKeepsPrefix(y[1..], needle, repl, q[1..]);
      assert q == [q[0]] + q[1..];
    }
  }

  /**
   * A block that shares no boundary character with the needle (the needle
   * does not start inside it, it does not start inside the needle)
   * survives replacement.
   */
  lemma {:induction false} ReplaceKeepsPresent(y: string, needle: string, repl: string, q: string)
    requires |needle| > 0 && |q| > 0 && needle[0] !in q && q[0] !in needle
    requires Contains(y, q)
    ensures Contains(ReplaceAll(y, needle, repl), q)
    decreases |y|
  {
    var t := ReplaceAll(y, needle, repl);
    if StartsWith(y, needle) {
      ContainsAfter(y, |needle|, q);
      ReplaceKeepsPresent(y[|needle|..], needle, repl, q);
      ContainsExtends(repl, ReplaceAll(y[|needle|..], needle, repl), "", q);
      assert repl + ReplaceAll(y[|needle|..], needle, repl) + "" == t;
    } else if StartsWith(y, q) {
      ReplaceKeepsPrefix(y, needle, repl, q);
    } else {
      ReplaceKeepsPresent(y[1..], needle, repl, q);
      assert t[1..] == ReplaceAll(y[1..], needle, repl);
    }
  }

  /**
   * A leading part that does not start an occurrence, and holds the
   * needle's first character at most in its first position, is copied as
   * it is.
   */
  lemma ReplaceAllStep(x: string, z: string, needle: string, repl: string)
    requires |needle| > 0 && |x| > 0 && !StartsWith(x + z, needle) && needle[0] !in x[1..]
    ensures ReplaceAll(x + z, needle, repl) == x + ReplaceAll(z, needle, repl)
  {
    ReplaceAllConsApp(x, z, needle, repl);
    ReplaceAllSkip(x[1..], z, needle, repl);
    ConsGlue(x, ReplaceAll(z, needle, repl));
  }

  /** `ReplaceAllCons` on a text given in two parts. */
  lemma ReplaceAllConsApp(x: string, z: string, needle: string, repl: string)
    requires |needle| > 0 && |x| > 0 && !StartsWith(x + z, needle)
    ensures ReplaceAll(x + z, needle, repl) == [x[0]] + ReplaceAll(x[1..] + z, needle, repl)
  {
    ReplaceAllCons(x + z, needle, repl);
    assert (x + z)[1..] == x[1..] + z;
  }

  /** Putting the first character back in front of the rest. */
  lemma ConsGlue(x: string, t: string)
    requires |x| > 0
    ensures [x[0]] + (x[1..] + t) == x + t
  {
    assert [x[0]] + x[1..] == x;
  }

  /** Where the needle does not start the text, its first character is copied. */
  lemma ReplaceAllCons(s: string, needle: string, repl: string)
    requires |needle| > 0 && |s| > 0 && !StartsWith(s, needle)
    ensures ReplaceAll(s, needle, repl) == [s[0]] + ReplaceAll(s[1..], needle, repl)
  {
  }

  /**
   * A needle that occurs once, after a part without its first character,
   * is replaced there and the text around it is kept.
   */
  lemma ReplaceAllOnce(a: string, b: string, needle: string, repl: string)
    requires |needle| > 0 && needle[0] !in a && !Contains(b, needle)
    ensures ReplaceAll(a + needle + b, needle, repl) == a + repl + b
  {
    ReplaceAllSkip(a, needle + b, needle, repl);
    ReplaceAllHere(b, needle, repl);
    ReplaceAllAbsent(b, needle, repl);
    assert a + needle + b == a + (needle + b);
  }
}

/**
 * String primitives of JavaScript that the content script relies on:
 * `String.prototype.includes`, global replacement of a literal pattern,
 * and `String.prototype.trim`.
 */
module Text {

  /** `s.includes(t)`: t occurs in s at some position (the empty string occurs everywhere). */
  predicate Contains(s: string, t: string)
    decreases |s|
  {
    |t| <= |s| && (s[..|t|] == t || Contains(s[1..], t))
  }

  /** t occurs in s starting at index i. */
  predicate OccursAt(s: string, t: string, i: int) {
    0 <= i <= |s| - |t| && s[i..i + |t|] == t
  }

  /** Contains agrees with "t occurs at some index". */
  lemma {:induction false} ContainsAt(s: string, t: string)
    ensures Contains(s, t) <==> exists i :: OccursAt(s, t, i)
    decreases |s|
  {
    if |t| <= |s| && s[..|t|] != t {
      ContainsAt(s[1..], t);
      if exists i :: OccursAt(s, t, i) {
        var i :| OccursAt(s, t, i);
        assert i != 0;
        assert s[1..][i - 1..i - 1 + |t|] == s[i..i + |t|];
        assert OccursAt(s[1..], t, i - 1);
      }
      if Contains(s[1..], t) {
        var i :| OccursAt(s[1..], t, i);
        assert s[i + 1..i + 1 + |t|] == s[1..][i..i + |t|];
        assert OccursAt(s, t, i + 1);
      }
    } else if |t| <= |s| {
      assert OccursAt(s, t, 0);
    } else {
      assert forall i :: !OccursAt(s, t, i);
    }
  }

  /** An occurrence in a prefix of s is an occurrence in s. */
  lemma ContainsPrefix(s: string, k: nat, t: string)
    requires k <= |s| && Contains(s[..k], t)
    ensures Contains(s, t)
  {
    ContainsAt(s[..k], t);
    var i :| OccursAt(s[..k], t, i);
    assert s[i..i + |t|] == s[..k][i..i + |t|];
    assert OccursAt(s, t, i);
    ContainsAt(s, t);
  }

  /** An occurrence in a suffix of s is an occurrence in s. */
  lemma ContainsSuffix(s: string, k: nat, t: string)
    requires k <= |s| && Contains(s[k..], t)
    ensures Contains(s, t)
  {
    ContainsAt(s[k..], t);
    var i :| OccursAt(s[k..], t, i);
    assert s[k + i..k + i + |t|] == s[k..][i..i + |t|];
    assert OccursAt(s, t, k + i);
    ContainsAt(s, t);
  }

  /**
   * `s.replace(new RegExp(escaped(t), 'g'), r)` with the replacement taken
   * literally: every leftmost non-overlapping occurrence of t is replaced by r.
   * A global regular expression that matches the empty string matches at every
   * character, so an empty t inserts r before each character and at the end.
   */
  function ReplaceAll(s: string, t: string, r: string): string {
    if t == [] then InsertEverywhere(s, r) else Substitute(s, t, r)
  }

  /** What a global match of the empty pattern does: r before each character and at the end. */
  function InsertEverywhere(s: string, r: string): string {
    r + (if s == [] then [] else [s[0]] + InsertEverywhere(s[1..], r))
  }

  /** Leftmost, non-overlapping replacement of a non-empty literal t by r. */
  function Substitute(s: string, t: string, r: string): string
    requires t != []
    decreases |s|
  {
    if |s| < |t| then s
    else if s[..|t|] == t then r + Substitute(s[|t|..], t, r)
    else [s[0]] + Substitute(s[1..], t, r)
  }

  /** A string in which a non-empty t does not occur is left as it is. */
  lemma {:induction false} SubstituteAbsent(s: string, t: string, r: string)
    requires t != [] && !Contains(s, t)
    ensures Substitute(s, t, r) == s
  {
    if |s| >= |t| {
      SubstituteAbsent(s[1..], t, r);
      assert [s[0]] + s[1..] == s;
    }
  }

  /** A replacement at least as long as the pattern never shortens s, and lengthens it when it applies. */
  lemma {:induction false} SubstituteLength(s: string, t: string, r: string)
    requires t != [] && |r| >= |t|
    ensures |Substitute(s, t, r)| >= |s|
    ensures Contains(s, t) && |r| > |t| ==> |Substitute(s, t, r)| > |s|
    decreases |s|
  {
    if |s| >= |t| {
      if s[..|t|] == t {
        SubstituteLength(s[|t|..], t, r);
      } else {
        SubstituteLength(s[1..], t, r);
      }
    }
  }

  /**
   * No occurrence of t can straddle the seam between a and b when the last
   * character of a or the first character of b is not a character of t.
   */
  predicate SeamSafe(a: string, b: string, t: string) {
    a == [] || b == [] || a[|a| - 1] !in t || b[0] !in t
  }

  /** An occurrence at the front of a + b that is longer than a uses the seam. */
  lemma StraddleUsesSeam(a: string, b: string, t: string)
    requires a != [] && |a| < |t| <= |a + b| && (a + b)[..|t|] == t
    ensures a[|a| - 1] in t && b[0] in t
  {
    assert t[|a| - 1] == (a + b)[|a| - 1] == a[|a| - 1];
    assert t[|a|] == (a + b)[|a|] == b[0];
  }

  lemma MatchUnfold(s: string, t: string, r: string)
    requires t != [] && |s| >= |t| && s[..|t|] == t
    ensures Substitute(s, t, r) == r + Substitute(s[|t|..], t, r)
  {
  }

  lemma ConcatMatchStep(a: string, b: string, t: string, r: string)
    requires t != [] && |a| >= |t| && a[..|t|] == t
    requires Substitute(a[|t|..] + b, t, r) == Substitute(a[|t|..], t, r) + Substitute(b, t, r)
    ensures Substitute(a + b, t, r) == Substitute(a, t, r) + Substitute(b, t, r)
  {
    var ab := a + b;
    var rest := a[|t|..];
    var rb := Substitute(b, t, r);
    assert ab[..|t|] == t;
    assert ab[|t|..] == rest + b;
    MatchUnfold(ab, t, r);
    MatchUnfold(a, t, r);
    calc {
      Substitute(ab, t, r);
      r + Substitute(rest + b, t, r);
      r + (Substitute(rest, t, r) + rb);
      (r + Substitute(rest, t, r)) + rb;
      Substitute(a, t, r) + rb;
    }
  }

  lemma PrefixOfConcat(a: string, b: string, n: nat)
    requires n <= |a|
    ensures (a + b)[..n] == a[..n]
  {
  }

  lemma SkipUnfold(s: string, t: string, r: string)
    requires t != [] && |s| >= |t| && s[..|t|] != t
    ensures Substitute(s, t, r) == [s[0]] + Substitute(s[1..], t, r)
  {
  }

  lemma ConcatSkipLong(a: string, b: string, t: string, r: string)
    requires t != [] && |a| >= |t| && a[..|t|] != t
    requires Substitute(a[1..] + b, t, r) == Substitute(a[1..], t, r) + Substitute(b, t, r)
    ensures Substitute(a + b, t, r) == Substitute(a, t, r) + Substitute(b, t, r)
  {
    var ab := a + b;
    var tail := a[1..];
    var rb := Substitute(b, t, r);
    calc {
      Substitute(ab, t, r);
      { PrefixOfConcat(a, b, |t|); SkipUnfold(ab, t, r); }
      [a[0]] + Substitute(ab[1..], t, r);
      { assert ab[1..] == tail + b; }
      [a[0]] + Substitute(tail + b, t, r);
      [a[0]] + (Substitute(tail, t, r) + rb);
      ([a[0]] + Substitute(tail, t, r)) + rb;
      { SkipUnfold(a, t, r); }
      Substitute(a, t, r) + rb;
    }
  }

  lemma ConcatSkipShort(a: string, b: string, t: string, r: string)
    requires t != [] && a != [] && |a| < |t| <= |a + b| && (a + b)[..|t|] != t
    requires Substitute(a[1..] + b, t, r) == Substitute(a[1..], t, r) + Substitute(b, t, r)
    ensures Substitute(a + b, t, r) == Substitute(a, t, r) + Substitute(b, t, r)
  {
    var ab := a + b;
    var tail := a[1..];
    var rb := Substitute(b, t, r);
    assert ab[1..] == tail + b;
    SkipUnfold(ab, t, r);
    ShortIsUnchanged(a, t, r);
    ShortIsUnchanged(tail, t, r);
    calc {
      Substitute(ab, t, r);
      [a[0]] + Substitute(tail + b, t, r);
      [a[0]] + (tail + rb);
      ([a[0]] + tail) + rb;
      { assert [a[0]] + tail == a; }
      a + rb;
    }
  }

  lemma ShortIsUnchanged(s: string, t: string, r: string)
    requires t != [] && |s| < |t|
    ensures Substitute(s, t, r) == s
  {
  }

  /** Replacement distributes over a concatenation whose seam no occurrence straddles. */
  lemma {:induction false} SubstituteConcat(a: string, b: string, t: string, r: string)
    requires t != [] && SeamSafe(a, b, t)
    ensures Substitute(a + b, t, r) == Substitute(a, t, r) + Substitute(b, t, r)
    decreases |a|
  {
    if a == [] {
      assert a + b == b;
    } else if |a + b| < |t| {
      assert Substitute(b, t, r) == b;
    } else if (a + b)[..|t|] == t {
      if |a| < |t| {
        StraddleUsesSeam(a, b, t);
        assert false;
      }
      var rest := a[|t|..];
      assert rest != [] ==> rest[|rest| - 1] == a[|a| - 1];
      SubstituteConcat(rest, b, t, r);
      ConcatMatchStep(a, b, t, r);
    } else {
      var rest := a[1..];
      assert rest != [] ==> rest[|rest| - 1] == a[|a| - 1];
      SubstituteConcat(rest, b, t, r);
      if |a| >= |t| {
        assert a[..|t|] == (a + b)[..|t|];
        ConcatSkipLong(a, b, t, r);
      } else {
        ConcatSkipShort(a, b, t, r);
      }
    }
  }

  /** The characters `String.prototype.trim` removes: ECMAScript WhiteSpace and LineTerminator. */
  predicate IsJsWhitespace(c: char) {
    c == '\t' || c == '\n' || c == '\U{000B}' || c == '\U{000C}' || c == '\r' || c == ' '
    || c == '\U{00A0}' || c == '\U{1680}' || ('\U{2000}' <= c <= '\U{200A}')
    || c == '\U{2028}' || c == '\U{2029}' || c == '\U{202F}' || c == '\U{205F}'
    || c == '\U{3000}' || c == '\U{FEFF}'
  }

  function TrimStart(s: string): (r: string)
    ensures |r| <= |s| && r == s[|s| - |r|..]
    ensures r == [] || !IsJsWhitespace(r[0])
  {
    if s != [] && IsJsWhitespace(s[0]) then TrimStart(s[1..]) else s
  }

  function TrimEnd(s: string): (r: string)
    ensures |r| <= |s| && r == s[..|r|]
    ensures r == [] || !IsJsWhitespace(r[|r| - 1])
  {
    if s != [] && IsJsWhitespace(s[|s| - 1]) then TrimEnd(s[..|s| - 1]) else s
  }

  /** `s.trim()`. */
  function Trim(s: string): string {
    TrimEnd(TrimStart(s))
  }

  predicate AllWhitespace(s: string) {
    forall i | 0 <= i < |s| :: IsJsWhitespace(s[i])
  }

  lemma AllWhitespaceFront(s: string)
    requires s != []
    ensures AllWhitespace(s) <==> IsJsWhitespace(s[0]) && AllWhitespace(s[1..])
  {
    if IsJsWhitespace(s[0]) && AllWhitespace(s[1..]) {
      forall i | 0 <= i < |s| ensures IsJsWhitespace(s[i]) {
        if i > 0 { assert s[i] == s[1..][i - 1]; }
      }
    }
  }

  lemma AllWhitespaceBack(s: string)
    requires s != []
    ensures AllWhitespace(s) <==> IsJsWhitespace(s[|s| - 1]) && AllWhitespace(s[..|s| - 1])
  {
    if IsJsWhitespace(s[|s| - 1]) && AllWhitespace(s[..|s| - 1]) {
      forall i | 0 <= i < |s| ensures IsJsWhitespace(s[i]) {
        if i < |s| - 1 { assert s[i] == s[..|s| - 1][i]; }
      }
    }
  }

  lemma {:induction false} TrimStartEmpty(s: string)
    ensures TrimStart(s) == [] <==> AllWhitespace(s)
  {
    if s != [] {
      AllWhitespaceFront(s);
      if IsJsWhitespace(s[0]) {
        TrimStartEmpty(s[1..]);
      }
    }
  }

  lemma {:induction false} TrimEndEmpty(s: string)
    ensures TrimEnd(s) == [] <==> AllWhitespace(s)
  {
    if s != [] {
      AllWhitespaceBack(s);
      if IsJsWhitespace(s[|s| - 1]) {
        TrimEndEmpty(s[..|s| - 1]);
      }
    }
  }

  /** `s.trim().length > 0` exactly when s has a character that is not whitespace. */
  lemma TrimNonEmpty(s: string)
    ensures |Trim(s)| > 0 <==> exists i | 0 <= i < |s| :: !IsJsWhitespace(s[i])
  {
    var u := TrimStart(s);
    TrimStartEmpty(s);
    TrimEndEmpty(u);
    if u != [] {
      assert !IsJsWhitespace(u[0]);
    }
  }
}

/**
 * `escapeRegExp`: the search term is turned into a regular-expression source
 * that matches the term literally, by putting a backslash before every
 * character that has a meaning in a pattern.
 */
module RegexEscape {
  import opened Wrappers

  /** The characters of the class `[.*+?^${}()|[\]\\]`. */
  predicate IsRegexSpecial(c: char) {
    c == '.' || c == '*' || c == '+' || c == '?' || c == '^' || c == '$' || c == '{'
    || c == '}' || c == '(' || c == ')' || c == '|' || c == '[' || c == ']' || c == '\\'
  }

  function SpecialCount(s: string): nat {
    if s == [] then 0 else (if IsRegexSpecial(s[0]) then 1 else 0) + SpecialCount(s[1..])
  }

  /** `string.replace(/[.*+?^${}()|[\]\\]/g, '\\$&')`. */
  function EscapeRegExp(s: string): (r: string)
    ensures |r| == |s| + SpecialCount(s)
    ensures s != [] && IsRegexSpecial(s[0]) ==> r[..2] == ['\\', s[0]]
    ensures s != [] && !IsRegexSpecial(s[0]) ==> r[0] == s[0]
  {
    if s == [] then []
    else (if IsRegexSpecial(s[0]) then ['\\', s[0]] else [s[0]]) + EscapeRegExp(s[1..])
  }

  /**
   * The string a pattern made only of ordinary characters and escaped special
   * characters matches, or None when the pattern has an unescaped special
   * character or a backslash before anything else (such a pattern is not a
   * plain literal).
   */
  function LiteralOf(p: string): Option<string>
    decreases |p|
  {
    if p == [] then Some([])
    else if p[0] == '\\' then
      if |p| >= 2 && IsRegexSpecial(p[1]) then Prepend(p[1], LiteralOf(p[2..])) else None
    else if IsRegexSpecial(p[0]) then None
    else Prepend(p[0], LiteralOf(p[1..]))
  }

  function Prepend(c: char, o: Option<string>): Option<string> {
    if o.Some? then Some([c] + o.value) else None
  }

  /** The escaped term is a literal pattern that matches exactly the term. */
  lemma {:induction false} EscapedIsLiteral(s: string)
    ensures LiteralOf(EscapeRegExp(s)) == Some(s)
  {
    if s != [] {
      EscapedIsLiteral(s[1..]);
      var e := EscapeRegExp(s);
      var rest := EscapeRegExp(s[1..]);
      if IsRegexSpecial(s[0]) {
        assert e[2..] == rest;
      } else {
        assert e[1..] == rest;
      }
      assert [s[0]] + s[1..] == s;
    }
  }

  /** Escaping is the only way to write a term as a literal pattern: reading back is its inverse. */
  lemma {:induction false} LiteralIsEscaped(p: string, s: string)
    requires LiteralOf(p) == Some(s)
    ensures p == EscapeRegExp(s)
    decreases |p|
  {
    if p != [] {
      if p[0] == '\\' {
        var tail := LiteralOf(p[2..]).value;
        LiteralIsEscaped(p[2..], tail);
        assert s == [p[1]] + tail && s[1..] == tail;
        assert p == ['\\', p[1]] + p[2..];
      } else {
        var tail := LiteralOf(p[1..]).value;
        LiteralIsEscaped(p[1..], tail);
        assert s == [p[0]] + tail && s[1..] == tail;
        assert p == [p[0]] + p[1..];
      }
    }
  }
}

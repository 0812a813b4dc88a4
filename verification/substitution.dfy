/**
 * `String.prototype.replace` as JavaScript defines it when the replacement is
 * a string: the replacement is a template in which `$$`, `$&`, `` $` `` and
 * `$'` stand for a dollar sign, the match, the text before the match and the
 * text after it. The pattern the content script builds has no capture
 * groups, so `$1` and `$<` stay literal.
 */
module Substitution {
  import opened Text

  /** The text a replacement template produces for one match. */
  function Expand(tmpl: string, matched: string, before: string, after: string): string
    decreases |tmpl|
  {
    if tmpl == [] then []
    else if tmpl[0] == '$' && |tmpl| >= 2 && tmpl[1] in "$&`'" then
      var piece :=
        if tmpl[1] == '$' then "$"
        else if tmpl[1] == '&' then matched
        else if tmpl[1] == '`' then before
        else after;
      piece + Expand(tmpl[2..], matched, before, after)
    else [tmpl[0]] + Expand(tmpl[1..], matched, before, after)
  }

  /** `s.replace(new RegExp(escaped(t), 'g'), tmpl)`, scanning s from index i. */
  function ReplaceFrom(s: string, t: string, tmpl: string, i: nat): string
    requires t != [] && i <= |s|
    decreases |s| - i
  {
    if i + |t| > |s| then s[i..]
    else if s[i..i + |t|] == t then
      Expand(tmpl, t, s[..i], s[i + |t|..]) + ReplaceFrom(s, t, tmpl, i + |t|)
    else [s[i]] + ReplaceFrom(s, t, tmpl, i + 1)
  }

  /** The empty pattern matches at every index from i to the end. */
  function InsertFrom(s: string, tmpl: string, i: nat): string
    requires i <= |s|
    decreases |s| - i
  {
    Expand(tmpl, [], s[..i], s[i..])
      + (if i == |s| then [] else [s[i]] + InsertFrom(s, tmpl, i + 1))
  }

  /** Global replacement of the literal pattern t by the template tmpl, as the script writes it. */
  function ReplaceAllAsWritten(s: string, t: string, tmpl: string): string {
    if t == [] then InsertFrom(s, tmpl, 0) else ReplaceFrom(s, t, tmpl, 0)
  }

  lemma {:induction false} ExpandLiteral(tmpl: string, matched: string, before: string, after: string)
    requires '$' !in tmpl
    ensures Expand(tmpl, matched, before, after) == tmpl
    decreases |tmpl|
  {
    if tmpl != [] {
      ExpandLiteral(tmpl[1..], matched, before, after);
      assert [tmpl[0]] + tmpl[1..] == tmpl;
    }
  }

  lemma {:induction false} ReplaceFromLiteral(s: string, t: string, tmpl: string, i: nat)
    requires t != [] && i <= |s| && '$' !in tmpl
    ensures ReplaceFrom(s, t, tmpl, i) == Substitute(s[i..], t, tmpl)
    decreases |s| - i
  {
    var rest := s[i..];
    if i + |t| <= |s| {
      assert rest[..|t|] == s[i..i + |t|];
      if s[i..i + |t|] == t {
        ReplaceFromLiteral(s, t, tmpl, i + |t|);
        ExpandLiteral(tmpl, t, s[..i], s[i + |t|..]);
        assert rest[|t|..] == s[i + |t|..];
        MatchUnfold(rest, t, tmpl);
      } else {
        ReplaceFromLiteral(s, t, tmpl, i + 1);
        assert rest[1..] == s[i + 1..];
        SkipUnfold(rest, t, tmpl);
      }
    }
  }

  lemma {:induction false} InsertFromLiteral(s: string, tmpl: string, i: nat)
    requires i <= |s| && '$' !in tmpl
    ensures InsertFrom(s, tmpl, i) == InsertEverywhere(s[i..], tmpl)
    decreases |s| - i
  {
    ExpandLiteral(tmpl, [], s[..i], s[i..]);
    if i < |s| {
      InsertFromLiteral(s, tmpl, i + 1);
      assert s[i..][1..] == s[i + 1..];
    }
  }

  /** A template without a dollar sign is inserted as it stands. */
  lemma LiteralTemplate(s: string, t: string, tmpl: string)
    requires '$' !in tmpl
    ensures ReplaceAllAsWritten(s, t, tmpl) == ReplaceAll(s, t, tmpl)
  {
    if t == [] {
      InsertFromLiteral(s, tmpl, 0);
    } else {
      ReplaceFromLiteral(s, t, tmpl, 0);
    }
  }

  lemma {:induction false} ExpandLiteralPrefix(a: string, rest: string, matched: string, before: string, after: string)
    requires '$' !in a
    ensures Expand(a + rest, matched, before, after) == a + Expand(rest, matched, before, after)
    decreases |a|
  {
    if a != [] {
      var s, er := a + rest, Expand(rest, matched, before, after);
      assert s[0] == a[0] && a[0] != '$';
      assert '$' !in a[1..];
      assert s[1..] == a[1..] + rest;
      assert Expand(s, matched, before, after) == [a[0]] + Expand(s[1..], matched, before, after);
      ExpandLiteralPrefix(a[1..], rest, matched, before, after);
      assert [a[0]] + (a[1..] + er) == a + er;
    } else {
      assert a + rest == rest;
    }
  }

  lemma ExpandDollarDollar(rest: string, matched: string, before: string, after: string)
    ensures Expand("$$" + rest, matched, before, after) == "$" + Expand(rest, matched, before, after)
  {
    assert ("$$" + rest)[2..] == rest;
  }
}

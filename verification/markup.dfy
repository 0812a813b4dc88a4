/**
 * What the content script puts in place of a text node that holds a search
 * term. The script builds an HTML string in which every occurrence of a term
 * is wrapped as
 *   <mark class="vocab-highlight" data-vocab="TERM" tabindex="-1">TERM</mark>
 * and assigns it to the `innerHTML` of a new `span`. `Markup` is the parsed
 * content of that span: plain text, then a mark, then the rest, ending in
 * plain text. `ref` is the identity of a mark element in the page.
 */
module Markup {
  import opened Text
  import opened Seqs

  datatype Markup =
    | Plain(text: string)
    | Marked(text: string, term: string, ref: nat, rest: Markup)

  const MarkOpenHead: string := "<mark class=\"vocab-highlight\" data-vocab=\""
  const MarkOpenTail: string := "\" tabindex=\"-1\">"
  const MarkClose: string := "</mark>"

  /** The HTML that stands for one occurrence of t. */
  function Wrap(t: string): (w: string)
    ensures |w| > 0 && w[0] == '<' && w[|w| - 1] == '>'
  {
    var w := MarkOpenHead + (t + (MarkOpenTail + (t + MarkClose)));
    assert w[0] == MarkOpenHead[0];
    assert w[|w| - 1] == MarkClose[|MarkClose| - 1];
    w
  }

  /** The HTML string that parses to m. */
  function Render(m: Markup): string {
    match m
    case Plain(p) => p
    case Marked(p, t, _, rest) => p + Wrap(t) + Render(rest)
  }

  /** `textContent`: the text the reader sees, marks contributing their term. */
  function TextOf(m: Markup): string {
    match m
    case Plain(p) => p
    case Marked(p, t, _, rest) => p + t + TextOf(rest)
  }

  /** `querySelectorAll('.vocab-highlight').length` on the span. */
  function MarkCount(m: Markup): nat {
    match m
    case Plain(_) => 0
    case Marked(_, _, _, rest) => 1 + MarkCount(rest)
  }

  /** The mark elements of m, in document order. */
  function Refs(m: Markup): seq<nat> {
    match m
    case Plain(_) => []
    case Marked(_, _, r, rest) => [r] + Refs(rest)
  }

  /** m with c put in front of its first plain text. */
  function ConsChar(c: char, m: Markup): (r: Markup)
    ensures Render(r) == [c] + Render(m) && TextOf(r) == [c] + TextOf(m)
    ensures MarkCount(r) == MarkCount(m)
  {
    match m
    case Plain(p) => Plain([c] + p)
    case Marked(p, t, ref, rest) =>
      assert [c] + p + Wrap(t) + Render(rest) == [c] + (p + Wrap(t) + Render(rest));
      assert [c] + p + t + TextOf(rest) == [c] + (p + t + TextOf(rest));
      Marked([c] + p, t, ref, rest)
  }

  /** The parse of `s.replace(termRegex, wrapper)`: every occurrence of t in s becomes a mark. */
  function Split(s: string, t: string): Markup {
    if t == [] then SplitEverywhere(s) else SplitOn(s, t)
  }

  /** An empty term matches before every character and at the end. */
  function SplitEverywhere(s: string): Markup {
    if s == [] then Marked([], [], 0, Plain([]))
    else Marked([], [], 0, ConsChar(s[0], SplitEverywhere(s[1..])))
  }

  function SplitOn(s: string, t: string): Markup
    requires t != []
    decreases |s|
  {
    if |s| < |t| then Plain(s)
    else if s[..|t|] == t then Marked([], t, 0, SplitOn(s[|t|..], t))
    else ConsChar(s[0], SplitOn(s[1..], t))
  }

  /** m, then a mark of t, then tail. */
  function Append(m: Markup, t: string, r: nat, tail: Markup): (a: Markup)
    ensures MarkCount(a) == MarkCount(m) + 1 + MarkCount(tail)
  {
    match m
    case Plain(p) => Marked(p, t, r, tail)
    case Marked(p, t', r', rest) => Marked(p, t', r', Append(rest, t, r, tail))
  }

  /**
   * Wrapping the occurrences of u in the plain text of m, leaving its marks as
   * they are: the meaning of one more search term applied to a node.
   */
  function ApplyTerm(m: Markup, u: string): Markup {
    match m
    case Plain(p) => Split(p, u)
    case Marked(p, t, r, rest) => Append(Split(p, u), t, r, ApplyTerm(rest, u))
  }

  /** The search terms applied in order. */
  function MarkUpFrom(m: Markup, terms: seq<string>): Markup
    decreases |terms|
  {
    if terms == [] then m else MarkUpFrom(ApplyTerm(m, terms[0]), terms[1..])
  }

  /** The content given to a text node holding s. */
  function MarkUp(s: string, terms: seq<string>): Markup {
    MarkUpFrom(Plain(s), terms)
  }

  /** `content.includes(u)`, asked of the plain text of m. */
  predicate ContainsIn(m: Markup, u: string) {
    match m
    case Plain(p) => Contains(p, u)
    case Marked(p, _, _, rest) => Contains(p, u) || ContainsIn(rest, u)
  }

  /** The marks of m given the identities start, start + 1, ... in order. */
  function Number(m: Markup, start: nat): Markup {
    match m
    case Plain(_) => m
    case Marked(p, t, _, rest) => Marked(p, t, start, Number(rest, start + 1))
  }

  /** Numbering keeps the text and the marks, and gives them consecutive identities. */
  lemma {:induction false} NumberShape(m: Markup, start: nat)
    ensures TextOf(Number(m, start)) == TextOf(m) && MarkCount(Number(m, start)) == MarkCount(m)
    ensures Refs(Number(m, start)) == Consecutive(start, MarkCount(m))
  {
    if m.Marked? {
      NumberShape(m.rest, start + 1);
      assert [start] + Consecutive(start + 1, MarkCount(m.rest)) == Consecutive(start, MarkCount(m));
    }
  }

  /** m with the mark `ref` removed from the page, its text going with it. */
  function Detach(m: Markup, ref: nat): (r: Markup)
    ensures Refs(r) == Without(Refs(m), ref)
  {
    match m
    case Plain(_) => m
    case Marked(p, t, r, rest) =>
      if r == ref then PrependText(p, Detach(rest, ref))
      else Marked(p, t, r, Detach(rest, ref))
  }

  function PrependText(p: string, m: Markup): (r: Markup)
    ensures Refs(r) == Refs(m)
  {
    match m
    case Plain(q) => Plain(p + q)
    case Marked(q, t, r, rest) => Marked(p + q, t, r, rest)
  }

  // ---------------------------------------------------------------------
  // One term over plain text
  // ---------------------------------------------------------------------

  lemma {:induction false} SplitOnRender(s: string, t: string)
    requires t != []
    ensures Render(SplitOn(s, t)) == Substitute(s, t, Wrap(t))
    decreases |s|
  {
    if |s| < |t| {
    } else if s[..|t|] == t {
      var rest := s[|t|..];
      SplitOnRender(rest, t);
      calc {
        Render(SplitOn(s, t));
        [] + Wrap(t) + Render(SplitOn(rest, t));
        { assert [] + Wrap(t) == Wrap(t); }
        Wrap(t) + Substitute(rest, t, Wrap(t));
        { MatchUnfold(s, t, Wrap(t)); }
        Substitute(s, t, Wrap(t));
      }
    } else {
      SplitOnRender(s[1..], t);
      SkipUnfold(s, t, Wrap(t));
    }
  }

  lemma {:induction false} SplitEverywhereRender(s: string)
    ensures Render(SplitEverywhere(s)) == InsertEverywhere(s, Wrap([]))
  {
    if s != [] {
      var w, m := Wrap([]), SplitEverywhere(s[1..]);
      SplitEverywhereRender(s[1..]);
      assert Render(ConsChar(s[0], m)) == [s[0]] + Render(m);
      assert Render(SplitEverywhere(s)) == [] + w + Render(ConsChar(s[0], m));
      assert InsertEverywhere(s, w) == w + ([s[0]] + InsertEverywhere(s[1..], w));
    }
  }

  /** The parsed markup of one replacement is what `replace` produced. */
  lemma SplitRender(s: string, t: string)
    ensures Render(Split(s, t)) == ReplaceAll(s, t, Wrap(t))
  {
    if t == [] { SplitEverywhereRender(s); } else { SplitOnRender(s, t); }
  }

  /** Wrapping occurrences never changes the text the reader sees. */
  lemma {:induction false} SplitEverywhereText(s: string)
    ensures TextOf(SplitEverywhere(s)) == s
    decreases |s|
  {
    if s != [] {
      SplitEverywhereText(s[1..]);
      assert [s[0]] + s[1..] == s;
    }
  }

  lemma {:induction false} SplitOnText(s: string, t: string)
    requires t != []
    ensures TextOf(SplitOn(s, t)) == s
    decreases |s|
  {
    if |s| >= |t| {
      if s[..|t|] == t {
        SplitOnText(s[|t|..], t);
        assert [] + t + s[|t|..] == s;
      } else {
        SplitOnText(s[1..], t);
        assert [s[0]] + s[1..] == s;
      }
    }
  }

  lemma SplitText(s: string, t: string)
    ensures TextOf(Split(s, t)) == s
  {
    if t == [] { SplitEverywhereText(s); } else { SplitOnText(s, t); }
  }

  /** A term produces a mark in s exactly when s includes it. */
  lemma {:induction false} SplitMarks(s: string, t: string)
    ensures MarkCount(Split(s, t)) > 0 <==> Contains(s, t)
    decreases |s|
  {
    if t != [] && |s| >= |t| && s[..|t|] != t {
      SplitMarks(s[1..], t);
    }
  }

  lemma {:induction false} SplitOnAbsent(s: string, t: string)
    requires t != [] && !Contains(s, t)
    ensures SplitOn(s, t) == Plain(s)
    decreases |s|
  {
    if |s| >= |t| {
      SplitOnAbsent(s[1..], t);
      assert [s[0]] + s[1..] == s;
    }
  }

  // ---------------------------------------------------------------------
  // Appending and applying terms
  // ---------------------------------------------------------------------

  lemma {:induction false} AppendRender(m: Markup, t: string, r: nat, tail: Markup)
    ensures Render(Append(m, t, r, tail)) == Render(m) + Wrap(t) + Render(tail)
  {
    if m.Marked? {
      var rest := m.rest;
      AppendRender(rest, t, r, tail);
      Associative(m.text + Wrap(m.term), Render(rest) + Wrap(t), Render(tail));
      Associative(m.text + Wrap(m.term), Render(rest), Wrap(t));
    }
  }

  lemma {:induction false} AppendText(m: Markup, t: string, r: nat, tail: Markup)
    ensures TextOf(Append(m, t, r, tail)) == TextOf(m) + t + TextOf(tail)
  {
    if m.Marked? {
      var rest := m.rest;
      AppendText(rest, t, r, tail);
      Associative(m.text + m.term, TextOf(rest) + t, TextOf(tail));
      Associative(m.text + m.term, TextOf(rest), t);
    }
  }

  /** Applying a term keeps the text of the node. */
  lemma {:induction false} ApplyTermText(m: Markup, u: string)
    ensures TextOf(ApplyTerm(m, u)) == TextOf(m)
  {
    match m
    case Plain(p) => SplitText(p, u);
    case Marked(p, t, r, rest) =>
      SplitText(p, u);
      ApplyTermText(rest, u);
      AppendText(Split(p, u), t, r, ApplyTerm(rest, u));
  }

  /** A term included nowhere in the plain text of m leaves m as it is. */
  lemma {:induction false} ApplyTermAbsent(m: Markup, u: string)
    requires !ContainsIn(m, u)
    ensures ApplyTerm(m, u) == m
  {
    assert u != [] by {
      if u == [] { assert Contains(m.text, u); }
    }
    match m
    case Plain(p) => SplitOnAbsent(p, u);
    case Marked(p, t, r, rest) =>
      SplitOnAbsent(p, u);
      ApplyTermAbsent(rest, u);
  }

  /** Applying a term never removes a mark, and adds one when the term is included. */
  lemma {:induction false} ApplyTermGrows(m: Markup, u: string)
    ensures MarkCount(ApplyTerm(m, u)) >= MarkCount(m) + (if ContainsIn(m, u) then 1 else 0)
  {
    match m
    case Plain(p) => SplitMarks(p, u);
    case Marked(p, t, r, rest) =>
      SplitMarks(p, u);
      ApplyTermGrows(rest, u);
  }

  lemma {:induction false} MarkUpFromGrows(m: Markup, terms: seq<string>)
    ensures MarkCount(MarkUpFrom(m, terms)) >= MarkCount(m)
    decreases |terms|
  {
    if terms != [] {
      ApplyTermGrows(m, terms[0]);
      MarkUpFromGrows(ApplyTerm(m, terms[0]), terms[1..]);
    }
  }

  lemma {:induction false} MarkUpFromText(m: Markup, terms: seq<string>)
    ensures TextOf(MarkUpFrom(m, terms)) == TextOf(m)
    decreases |terms|
  {
    if terms != [] {
      ApplyTermText(m, terms[0]);
      MarkUpFromText(ApplyTerm(m, terms[0]), terms[1..]);
    }
  }

  /** Highlighting a node keeps its text: flattening the container gives the node's text back. */
  lemma MarkUpText(s: string, terms: seq<string>)
    ensures TextOf(MarkUp(s, terms)) == s
  {
    MarkUpFromText(Plain(s), terms);
  }

  /** A node gets a mark exactly when one of the terms is included in its text. */
  lemma {:induction false} MarkUpMatched(s: string, terms: seq<string>)
    ensures MarkCount(MarkUp(s, terms)) > 0 <==> exists j | 0 <= j < |terms| :: Contains(s, terms[j])
    decreases |terms|
  {
    if terms != [] {
      var u := terms[0];
      var next := ApplyTerm(Plain(s), u);
      if Contains(s, u) {
        SplitMarks(s, u);
        MarkUpFromGrows(next, terms[1..]);
      } else {
        ApplyTermAbsent(Plain(s), u);
        MarkUpMatched(s, terms[1..]);
        assert (exists j | 0 <= j < |terms| :: Contains(s, terms[j]))
          <==> (exists j | 0 <= j < |terms[1..]| :: Contains(s, terms[1..][j])) by {
          if exists j | 0 <= j < |terms| :: Contains(s, terms[j]) {
            var j :| 0 <= j < |terms| && Contains(s, terms[j]);
            assert j > 0 && terms[1..][j - 1] == terms[j];
          }
          if exists j | 0 <= j < |terms[1..]| :: Contains(s, terms[1..][j]) {
            var j :| 0 <= j < |terms[1..]| && Contains(s, terms[1..][j]);
            assert terms[j + 1] == terms[1..][j];
          }
        }
      }
    }
  }

  // ---------------------------------------------------------------------
  // Repeated terms
  // ---------------------------------------------------------------------

  /** The first plain text of the split is where s starts. */
  lemma {:induction false} SplitOnHead(s: string, t: string)
    requires t != []
    ensures SplitOn(s, t).text <= s
    decreases |s|
  {
    if |s| >= |t| && s[..|t|] != t {
      SplitOnHead(s[1..], t);
      assert s == [s[0]] + s[1..];
    }
  }

  lemma ContainsInAppend(m: Markup, t: string, r: nat, tail: Markup, u: string)
    ensures ContainsIn(Append(m, t, r, tail), u) <==> ContainsIn(m, u) || ContainsIn(tail, u)
  {
  }

  /** After a term is applied, no plain text of the content includes it. */
  lemma {:induction false} SplitOnClean(s: string, u: string)
    requires u != []
    ensures !ContainsIn(SplitOn(s, u), u)
    decreases |s|
  {
    if |s| >= |u| {
      if s[..|u|] == u {
        SplitOnClean(s[|u|..], u);
      } else {
        var m := SplitOn(s[1..], u);
        SplitOnClean(s[1..], u);
        SplitOnHead(s[1..], u);
        var p := [s[0]] + m.text;
        assert p <= s;
        assert p[1..] == m.text;
        assert !Contains(p, u) by {
          if |u| <= |p| { assert p[..|u|] == s[..|u|]; }
        }
      }
    }
  }

  lemma {:induction false} ApplyTermClean(m: Markup, u: string)
    requires u != []
    ensures !ContainsIn(ApplyTerm(m, u), u)
  {
    match m
    case Plain(p) => SplitOnClean(p, u);
    case Marked(p, t, r, rest) =>
      SplitOnClean(p, u);
      ApplyTermClean(rest, u);
      ContainsInAppend(Split(p, u), t, r, ApplyTerm(rest, u), u);
  }

  /** Splitting on any term leaves plain texts that are pieces of s. */
  lemma {:induction false} SplitOnKeepsAbsent(s: string, v: string, u: string)
    requires v != [] && u != [] && !Contains(s, u)
    ensures !ContainsIn(SplitOn(s, v), u)
    decreases |s|
  {
    if |s| >= |v| {
      if s[..|v|] == v {
        if Contains(s[|v|..], u) { ContainsSuffix(s, |v|, u); }
        SplitOnKeepsAbsent(s[|v|..], v, u);
      } else {
        var m := SplitOn(s[1..], v);
        SplitOnKeepsAbsent(s[1..], v, u);
        SplitOnHead(s[1..], v);
        var p := [s[0]] + m.text;
        assert p <= s;
        assert s[..|p|] == p;
        if Contains(p, u) { ContainsPrefix(s, |p|, u); }
      }
    }
  }

  lemma {:induction false} SplitEverywhereKeepsAbsent(s: string, u: string)
    requires u != [] && !Contains(s, u)
    ensures !ContainsIn(SplitEverywhere(s), u)
    decreases |s|
  {
    if s != [] {
      SplitEverywhereKeepsAbsent(s[1..], u);
      assert s[..1] == [s[0]];
      if Contains([s[0]], u) { ContainsPrefix(s, 1, u); }
    }
  }

  lemma {:induction false} SplitKeepsAbsent(s: string, v: string, u: string)
    requires u != [] && !Contains(s, u)
    ensures !ContainsIn(Split(s, v), u)
  {
    if v == [] { SplitEverywhereKeepsAbsent(s, u); } else { SplitOnKeepsAbsent(s, v, u); }
  }

  lemma {:induction false} ApplyTermKeepsAbsent(m: Markup, v: string, u: string)
    requires u != [] && !ContainsIn(m, u)
    ensures !ContainsIn(ApplyTerm(m, v), u)
  {
    match m
    case Plain(p) => SplitKeepsAbsent(p, v, u);
    case Marked(p, t, r, rest) =>
      SplitKeepsAbsent(p, v, u);
      ApplyTermKeepsAbsent(rest, v, u);
      ContainsInAppend(Split(p, v), t, r, ApplyTerm(rest, v), u);
  }

  lemma {:induction false} MarkUpFromKeepsAbsent(m: Markup, terms: seq<string>, u: string)
    requires u != [] && !ContainsIn(m, u)
    ensures !ContainsIn(MarkUpFrom(m, terms), u)
    decreases |terms|
  {
    if terms != [] {
      ApplyTermKeepsAbsent(m, terms[0], u);
      MarkUpFromKeepsAbsent(ApplyTerm(m, terms[0]), terms[1..], u);
    }
  }

  /** Once a non-empty term has been applied, no later term brings it back into the plain text. */
  lemma {:induction false} AppliedTermClean(m: Markup, terms: seq<string>, u: string)
    requires u != [] && u in terms
    ensures !ContainsIn(MarkUpFrom(m, terms), u)
    decreases |terms|
  {
    if terms[0] == u {
      ApplyTermClean(m, u);
      MarkUpFromKeepsAbsent(ApplyTerm(m, u), terms[1..], u);
    } else {
      assert u in terms[1..];
      AppliedTermClean(ApplyTerm(m, terms[0]), terms[1..], u);
    }
  }

  lemma {:induction false} MarkUpFromAppend(m: Markup, a: seq<string>, b: seq<string>)
    ensures MarkUpFrom(m, a + b) == MarkUpFrom(MarkUpFrom(m, a), b)
    decreases |a|
  {
    if a == [] {
      assert a + b == b;
    } else {
      assert (a + b)[0] == a[0] && (a + b)[1..] == a[1..] + b;
      MarkUpFromAppend(ApplyTerm(m, a[0]), a[1..], b);
    }
  }

  /**
   * A non-empty term listed again after its first occurrence changes nothing:
   * the intended highlighting of a node with duplicate terms is that of the
   * terms without the repetition.
   */
  lemma RepeatedTermIgnored(s: string, pre: seq<string>, u: string, post: seq<string>)
    requires u != [] && u in pre
    ensures MarkUp(s, pre + [u] + post) == MarkUp(s, pre + post)
  {
    var x := MarkUpFrom(Plain(s), pre);
    assert pre + [u] + post == pre + ([u] + post);
    MarkUpFromAppend(Plain(s), pre, [u] + post);
    MarkUpFromAppend(Plain(s), pre, post);
    AppliedTermClean(Plain(s), pre, u);
    ApplyTermAbsent(x, u);
    assert ([u] + post)[0] == u && ([u] + post)[1..] == post;
  }

  // ---------------------------------------------------------------------
  // Replacing a term in the rendered HTML
  // ---------------------------------------------------------------------

  /** No mark of m has u inside its wrapper HTML. */
  predicate Shielded(m: Markup, u: string) {
    match m
    case Plain(_) => true
    case Marked(_, t, _, rest) => !Contains(Wrap(t), u) && Shielded(rest, u)
  }

  lemma {:induction false} ShieldedConsChar(c: char, m: Markup, v: string)
    ensures Shielded(ConsChar(c, m), v) == Shielded(m, v)
  {
  }

  lemma {:induction false} ShieldedSplit(s: string, u: string, v: string)
    requires !Contains(Wrap(u), v)
    ensures Shielded(Split(s, u), v)
    decreases |s|
  {
    if u == [] {
      if s != [] {
        ShieldedSplit(s[1..], u, v);
        ShieldedConsChar(s[0], SplitEverywhere(s[1..]), v);
      }
    } else if |s| >= |u| {
      if s[..|u|] == u {
        ShieldedSplit(s[|u|..], u, v);
      } else {
        ShieldedSplit(s[1..], u, v);
        ShieldedConsChar(s[0], SplitOn(s[1..], u), v);
      }
    }
  }

  lemma {:induction false} ShieldedAppend(m: Markup, t: string, r: nat, tail: Markup, v: string)
    requires Shielded(m, v) && !Contains(Wrap(t), v) && Shielded(tail, v)
    ensures Shielded(Append(m, t, r, tail), v)
  {
    if m.Marked? {
      ShieldedAppend(m.rest, t, r, tail, v);
    }
  }

  /** Marks made for a term that cannot occur in v's way keep v out of every wrapper. */
  lemma {:induction false} ShieldedApply(m: Markup, u: string, v: string)
    requires Shielded(m, v) && !Contains(Wrap(u), v)
    ensures Shielded(ApplyTerm(m, u), v)
  {
    match m
    case Plain(p) => ShieldedSplit(p, u, v);
    case Marked(p, t, r, rest) =>
      ShieldedSplit(p, u, v);
      ShieldedApply(rest, u, v);
      ShieldedAppend(Split(p, u), t, r, ApplyTerm(rest, u), v);
  }

  /**
   * Replacing u in the rendered HTML of m is the same as applying u to the
   * plain text of m, when u cannot straddle or enter a wrapper.
   */
  lemma {:induction false} ApplyTermRender(m: Markup, u: string)
    requires u != [] && '<' !in u && '>' !in u && Shielded(m, u)
    ensures Render(ApplyTerm(m, u)) == Substitute(Render(m), u, Wrap(u))
  {
    match m
    case Plain(p) => SplitOnRender(p, u);
    case Marked(p, t, r, rest) =>
      var w, wt, rr := Wrap(u), Wrap(t), Render(rest);
      SplitOnRender(p, u);
      ApplyTermRender(rest, u);
      AppendRender(Split(p, u), t, r, ApplyTerm(rest, u));
      assert (wt + rr)[0] == '<';
      SubstituteConcat(p, wt + rr, u, w);
      SubstituteConcat(wt, rr, u, w);
      SubstituteAbsent(wt, u, w);
      Associative(p, wt, rr);
      Associative(Substitute(p, u, w), wt, Substitute(rr, u, w));
  }
}

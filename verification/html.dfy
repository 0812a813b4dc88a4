/**
 * The HTML string the content script really builds for a text node: for each
 * search term in turn, when the string built so far includes the term, every
 * occurrence is replaced through `String.prototype.replace` with the wrapper
 * of the term as the replacement template. This module states when that
 * string parses back to the marks of the `Markup` model, and exhibits two
 * inputs for which it does not.
 */
module ScriptHtml {
  import opened Seqs
  import opened Text
  import opened Markup
  import opened Substitution

  /** The string assigned to the container's `innerHTML` (the `forEach` over the terms). */
  function HighlightHtml(content: string, terms: seq<string>): string
    decreases |terms|
  {
    if terms == [] then content
    else
      var t := terms[0];
      HighlightHtml(if Contains(content, t) then ReplaceAllAsWritten(content, t, Wrap(t)) else content, terms[1..])
  }

  /**
   * Terms for which the string the script builds parses back to the intended
   * marks: each is non-empty, has no angle bracket and no dollar sign, and
   * none occurs inside the wrapper HTML of an earlier one.
   */
  predicate SafeTerms(terms: seq<string>) {
    && (forall i | 0 <= i < |terms| ::
          terms[i] != [] && '<' !in terms[i] && '>' !in terms[i] && '$' !in terms[i])
    && (forall i, j | 0 <= i < j < |terms| :: !Contains(Wrap(terms[i]), terms[j]))
  }

  lemma WrapPartsLiteral()
    ensures '$' !in MarkOpenHead && '$' !in MarkOpenTail && '$' !in MarkClose
  {
  }

  /** The wrapper of a term without a dollar sign has none either. */
  lemma WrapLiteral(t: string)
    requires '$' !in t
    ensures '$' !in Wrap(t)
  {
    WrapPartsLiteral();
    assert Wrap(t) == MarkOpenHead + (t + (MarkOpenTail + (t + MarkClose)));
  }

  /** For a term without a dollar sign, the script's replacement is the literal one. */
  lemma HighlightHtmlLiteralStep(content: string, terms: seq<string>)
    requires terms != [] && '$' !in terms[0]
    ensures HighlightHtml(content, terms) ==
      HighlightHtml(if Contains(content, terms[0]) then ReplaceAll(content, terms[0], Wrap(terms[0])) else content, terms[1..])
  {
    WrapLiteral(terms[0]);
    LiteralTemplate(content, terms[0], Wrap(terms[0]));
  }

  lemma {:induction false} MarkUpFromRender(m: Markup, terms: seq<string>)
    requires SafeTerms(terms)
    requires forall j | 0 <= j < |terms| :: Shielded(m, terms[j])
    ensures Render(MarkUpFrom(m, terms)) == HighlightHtml(Render(m), terms)
    decreases |terms|
  {
    if terms != [] {
      var u := terms[0];
      var next := ApplyTerm(m, u);
      HighlightHtmlLiteralStep(Render(m), terms);
      ApplyTermRender(m, u);
      if !Contains(Render(m), u) {
        SubstituteAbsent(Render(m), u, Wrap(u));
      }
      forall j | 0 <= j < |terms[1..]| ensures Shielded(next, terms[1..][j]) {
        ShieldedApply(m, u, terms[j + 1]);
      }
      MarkUpFromRender(next, terms[1..]);
    }
  }

  /**
   * For safe terms, the marks the model gives a node are exactly what the
   * browser parses out of the HTML string the script assigns to the span.
   */
  lemma AsWrittenAgrees(s: string, terms: seq<string>)
    requires SafeTerms(terms)
    ensures Render(MarkUp(s, terms)) == HighlightHtml(s, terms)
  {
    MarkUpFromRender(Plain(s), terms);
  }

  /** A term occurs in its own wrapper, inside the `data-vocab` attribute. */
  lemma TermInWrap(t: string)
    ensures Contains(Wrap(t), t)
  {
    var w := Wrap(t);
    assert OccursAt(w, t, |MarkOpenHead|);
    ContainsAt(w, t);
  }

  /**
   * A later term that occurs in an earlier term reaches into the earlier
   * term's mark: with terms "台灣" and then "台", the string the script builds
   * puts a second mark inside the first mark's `data-vocab` attribute, so it
   * is not the HTML of the intended highlighting.
   */
  lemma NestedTermBreaksMarkup()
    ensures Render(MarkUp("台灣", ["台灣", "台"])) == Wrap("台灣")
    ensures HighlightHtml("台灣", ["台灣", "台"]) != Wrap("台灣")
  {
    var big, small := "台灣", "台";
    assert SplitOn(big, big) == Marked([], big, 0, Plain([]));
    assert ApplyTerm(Plain(big), big) == Marked([], big, 0, Plain([]));
    assert SplitOn([], small) == Plain([]);
    assert ApplyTerm(Marked([], big, 0, Plain([])), small) == Marked([], big, 0, Plain([]));
    assert MarkUp(big, [big, small]) == MarkUpFrom(Marked([], big, 0, Plain([])), [small]);
    assert Render(Marked([], big, 0, Plain([]))) == Wrap(big);

    var w := Wrap(big);
    assert Contains(big, big);
    assert ReplaceAll(big, big, w) == w by {
      MatchUnfold(big, big, w);
    }
    assert OccursAt(w, small, |MarkOpenHead|);
    ContainsAt(w, small);
    SubstituteLength(w, small, Wrap(small));
    HighlightHtmlLiteralStep(big, [big, small]);
    assert HighlightHtml(big, [big, small]) == HighlightHtml(w, [small]);
    HighlightHtmlLiteralStep(w, [small]);
    assert HighlightHtml(w, [small]) == Substitute(w, small, Wrap(small));
  }

  /**
   * The commonest case of the above: a term listed twice. For the text "台"
   * and the terms "台", "台" the second replacement runs on the first mark's
   * HTML, where the term occurs twice, while the model keeps the one mark.
   */
  lemma DuplicateTermBreaksMarkup()
    ensures Render(MarkUp("台", ["台", "台"])) == Wrap("台")
    ensures HighlightHtml("台", ["台", "台"]) != Wrap("台")
    ensures !SafeTerms(["台", "台"])
  {
    var t := "台";
    var one := Marked([], t, 0, Plain([]));
    assert SplitOn(t, t) == one;
    assert ApplyTerm(Plain(t), t) == one;
    assert SplitOn([], t) == Plain([]);
    assert ApplyTerm(one, t) == one;
    assert MarkUp(t, [t, t]) == MarkUpFrom(one, [t]);
    assert Render(one) == Wrap(t);

    var w := Wrap(t);
    assert Contains(t, t);
    assert ReplaceAll(t, t, w) == w by {
      MatchUnfold(t, t, w);
    }
    TermInWrap(t);
    SubstituteLength(w, t, w);
    HighlightHtmlLiteralStep(t, [t, t]);
    assert HighlightHtml(t, [t, t]) == HighlightHtml(w, [t]);
    HighlightHtmlLiteralStep(w, [t]);
    assert HighlightHtml(w, [t]) == Substitute(w, t, w);
  }

  /** Expanding the mark for "$$" gives the mark for "$". */
  lemma ExpandDollarWrap(matched: string, before: string, after: string)
    ensures Expand(Wrap("$$"), matched, before, after) == Wrap("$")
  {
    var h, m, c := MarkOpenHead, MarkOpenTail, MarkClose;
    var x2 := "$$" + c;
    var x1 := m + x2;
    var x0 := "$$" + x1;
    WrapPartsLiteral();
    ExpandLiteral(c, matched, before, after);
    ExpandDollarDollar(c, matched, before, after);
    ExpandLiteralPrefix(m, x2, matched, before, after);
    ExpandDollarDollar(x1, matched, before, after);
    ExpandLiteralPrefix(h, x0, matched, before, after);
  }

  lemma DollarReplaced()
    ensures ReplaceAllAsWritten("$$", "$$", Wrap("$$")) == Wrap("$")
  {
    var t := "$$";
    assert ReplaceFrom(t, t, Wrap(t), 2) == [];
    assert ReplaceFrom(t, t, Wrap(t), 0) == Expand(Wrap(t), t, [], []) + [];
    ExpandDollarWrap(t, [], []);
  }

  lemma DollarMarked()
    ensures Render(MarkUp("$$", ["$$"])) == Wrap("$$")
  {
    var t := "$$";
    var one := Marked([], t, 0, Plain([]));
    assert SplitOn([], t) == Plain([]);
    assert SplitOn(t, t) == one;
    assert ApplyTerm(Plain(t), t) == one;
    assert [t][1..] == [];
    assert MarkUpFrom(Plain(t), [t]) == MarkUpFrom(one, []);
    assert Render(one) == [] + Wrap(t) + [];
  }

  /**
   * The term "$$" is highlighted as "$": the template the script passes to
   * `replace` contains the term, and `replace` reads its "$$" as an escaped
   * dollar sign, so the page text changes and the `data-vocab` attribute no
   * longer names the term. The model gives the intended mark.
   */
  lemma DollarTermIsRewritten()
    ensures HighlightHtml("$$", ["$$"]) == Wrap("$")
    ensures Render(MarkUp("$$", ["$$"])) == Wrap("$$")
    ensures Wrap("$") != Wrap("$$")
  {
    var t := "$$";
    DollarReplaced();
    DollarMarked();
    assert Contains(t, t);
    assert HighlightHtml(t, [t]) == ReplaceAllAsWritten(t, t, Wrap(t));
    assert |Wrap("$")| < |Wrap("$$")|;
  }
}

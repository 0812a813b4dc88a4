/**
 * The page as the content script sees it: the text nodes below `document.body`
 * in document order, some of which a scan has replaced by a
 * `vocab-highlight-container` span holding marks.
 */
module Document {
  import opened Wrappers
  import opened Text
  import opened Seqs
  import opened Markup

  /** `parent` is the tag name of the parent element, None when there is none. */
  datatype Node =
    | TextNode(parent: Option<string>, text: string)
    | Container(parent: Option<string>, content: Markup)

  /** Some character of text is not whitespace. */
  predicate HasContent(text: string) {
    text != [] && (!IsJsWhitespace(text[0]) || HasContent(text[1..]))
  }

  /** The TreeWalker's filter: not inside SCRIPT or STYLE, and not blank. */
  predicate Accept(parent: Option<string>, text: string) {
    !(parent.Some? && (parent.value == "SCRIPT" || parent.value == "STYLE")) && HasContent(text)
  }

  lemma {:induction false} HasContentIff(text: string)
    ensures HasContent(text) <==> exists i | 0 <= i < |text| :: !IsJsWhitespace(text[i])
  {
    if text != [] {
      HasContentIff(text[1..]);
      if exists i | 0 <= i < |text| :: !IsJsWhitespace(text[i]) {
        var i :| 0 <= i < |text| && !IsJsWhitespace(text[i]);
        if i > 0 {
          assert text[1..][i - 1] == text[i];
        }
      }
      if HasContent(text[1..]) && IsJsWhitespace(text[0]) {
        var i :| 0 <= i < |text[1..]| && !IsJsWhitespace(text[1..][i]);
        assert text[i + 1] == text[1..][i];
      }
    }
  }

  /** The filter is exactly `parent` not SCRIPT/STYLE and `textContent.trim().length > 0`. */
  lemma AcceptIff(parent: Option<string>, text: string)
    ensures Accept(parent, text) <==>
      !(parent.Some? && (parent.value == "SCRIPT" || parent.value == "STYLE")) && |Trim(text)| > 0
  {
    HasContentIff(text);
    TrimNonEmpty(text);
  }

  // ---------------------------------------------------------------------
  // One node
  // ---------------------------------------------------------------------

  /** The marks a scan with these terms puts in place of n. */
  function NodeMarks(n: Node, terms: seq<string>): nat {
    if n.TextNode? && Accept(n.parent, n.text) then MarkCount(MarkUp(n.text, terms)) else 0
  }

  /** What a scan turns n into, numbering its marks from start. */
  function HighlightNode(n: Node, terms: seq<string>, start: nat): Node {
    if NodeMarks(n, terms) > 0 then Container(n.parent, Number(MarkUp(n.text, terms), start)) else n
  }

  /** A container replaced by a text node holding its `textContent`. */
  function Flatten(n: Node): (r: Node)
    ensures r.TextNode? && r.parent == n.parent
  {
    match n
    case TextNode(_, _) => n
    case Container(p, m) => TextNode(p, TextOf(m))
  }

  /** The marks of n, in document order. */
  function NodeRefs(n: Node): seq<nat> {
    if n.Container? then Refs(n.content) else []
  }

  /**
   * A scan changes a node exactly when the filter accepts it and some term
   * occurs in its text; the node it leaves shows the same text.
   */
  lemma HighlightNodeChanges(n: Node, terms: seq<string>, start: nat)
    requires n.TextNode?
    ensures HighlightNode(n, terms, start) != n <==>
      Accept(n.parent, n.text) && exists j | 0 <= j < |terms| :: Contains(n.text, terms[j])
    ensures Flatten(HighlightNode(n, terms, start)) == n
    ensures NodeRefs(HighlightNode(n, terms, start)) == Consecutive(start, NodeMarks(n, terms))
  {
    MarkUpMatched(n.text, terms);
    MarkUpText(n.text, terms);
    NumberShape(MarkUp(n.text, terms), start);
  }

  // ---------------------------------------------------------------------
  // The whole page
  // ---------------------------------------------------------------------

  /** The number of marks a scan inserts into ns (the returned `highlightedCount`). */
  function InsertedCount(ns: seq<Node>, terms: seq<string>): nat {
    if ns == [] then 0 else NodeMarks(ns[0], terms) + InsertedCount(ns[1..], terms)
  }

  /** The page after the scan loop: each node highlighted, marks numbered in document order. */
  function Highlighted(ns: seq<Node>, terms: seq<string>, start: nat): (r: seq<Node>)
    ensures |r| == |ns|
  {
    if ns == [] then []
    else [HighlightNode(ns[0], terms, start)] + Highlighted(ns[1..], terms, start + NodeMarks(ns[0], terms))
  }

  /** `document.querySelectorAll('.vocab-highlight')`: every mark of the page in document order. */
  function DocRefs(ns: seq<Node>): seq<nat> {
    if ns == [] then [] else NodeRefs(ns[0]) + DocRefs(ns[1..])
  }

  lemma HighlightedCons(node: Node, rest: seq<Node>, terms: seq<string>, k: nat)
    ensures Highlighted([node] + rest, terms, k)
      == [HighlightNode(node, terms, k)] + Highlighted(rest, terms, k + NodeMarks(node, terms))
  {
    assert ([node] + rest)[1..] == rest;
  }

  lemma InsertedCons(node: Node, rest: seq<Node>, terms: seq<string>)
    ensures InsertedCount([node] + rest, terms) == NodeMarks(node, terms) + InsertedCount(rest, terms)
  {
    assert ([node] + rest)[1..] == rest;
  }

  /** Highlighting a page node by node, front to back. */
  lemma HighlightedStep(done: seq<Node>, node: Node, rest: seq<Node>, terms: seq<string>, k: nat)
    ensures done + Highlighted([node] + rest, terms, k)
      == (done + [HighlightNode(node, terms, k)]) + Highlighted(rest, terms, k + NodeMarks(node, terms))
    ensures InsertedCount([node] + rest, terms) == NodeMarks(node, terms) + InsertedCount(rest, terms)
  {
    HighlightedCons(node, rest, terms, k);
    InsertedCons(node, rest, terms);
    var hn, hr := HighlightNode(node, terms, k), Highlighted(rest, terms, k + NodeMarks(node, terms));
    assert done + ([hn] + hr) == (done + [hn]) + hr;
  }

  /** The page after `clearHighlights` has flattened every container. */
  function ClearNodes(ns: seq<Node>): (r: seq<Node>)
    ensures |r| == |ns|
    ensures forall i | 0 <= i < |ns| :: r[i].TextNode? && r[i].parent == ns[i].parent
  {
    seq(|ns|, i requires 0 <= i < |ns| => Flatten(ns[i]))
  }

  /** The page after the mark `ref` was removed by something other than the script. */
  function DetachNodes(ns: seq<Node>, ref: nat): (r: seq<Node>)
    ensures |r| == |ns|
  {
    seq(|ns|, i requires 0 <= i < |ns| =>
      if ns[i].Container? then Container(ns[i].parent, Detach(ns[i].content, ref)) else ns[i])
  }

  predicate AllText(ns: seq<Node>) {
    forall i | 0 <= i < |ns| :: ns[i].TextNode?
  }

  /**
   * The i-th node of a scanned page shows the text of the i-th node before,
   * and differs from it exactly when the filter accepts it and a term occurs in it.
   */
  lemma {:induction false} HighlightedAt(ns: seq<Node>, terms: seq<string>, start: nat, i: nat)
    requires AllText(ns) && i < |ns|
    ensures Flatten(Highlighted(ns, terms, start)[i]) == ns[i]
    ensures Highlighted(ns, terms, start)[i] != ns[i] <==>
      Accept(ns[i].parent, ns[i].text) && exists j | 0 <= j < |terms| :: Contains(ns[i].text, terms[j])
  {
    if i == 0 {
      HighlightNodeChanges(ns[0], terms, start);
    } else {
      HighlightedAt(ns[1..], terms, start + NodeMarks(ns[0], terms), i - 1);
    }
  }

  /** Clearing after a scan gives the page back exactly as it was. */
  lemma ClearAfterHighlight(ns: seq<Node>, terms: seq<string>, start: nat)
    requires AllText(ns)
    ensures ClearNodes(Highlighted(ns, terms, start)) == ns
  {
    var h := Highlighted(ns, terms, start);
    forall i | 0 <= i < |ns| ensures ClearNodes(h)[i] == ns[i] {
      HighlightedAt(ns, terms, start, i);
    }
  }

  /** Clearing twice is clearing once. */
  lemma ClearIdempotent(ns: seq<Node>)
    ensures ClearNodes(ClearNodes(ns)) == ClearNodes(ns)
  {
  }

  lemma {:induction false} DocRefsOfText(ns: seq<Node>)
    requires AllText(ns)
    ensures DocRefs(ns) == []
  {
    if ns != [] {
      DocRefsOfText(ns[1..]);
    }
  }

  /** A cleared page has no marks. */
  lemma ClearRemovesMarks(ns: seq<Node>)
    ensures DocRefs(ClearNodes(ns)) == []
  {
    DocRefsOfText(ClearNodes(ns));
  }

  /**
   * The marks of a scanned page are numbered start, start + 1, ... in
   * document order, as many as the scan counted.
   */
  lemma {:induction false} DocRefsHighlighted(ns: seq<Node>, terms: seq<string>, start: nat)
    requires AllText(ns)
    ensures DocRefs(Highlighted(ns, terms, start)) == Consecutive(start, InsertedCount(ns, terms))
  {
    if ns != [] {
      var n := NodeMarks(ns[0], terms);
      var hn := HighlightNode(ns[0], terms, start);
      var hr := Highlighted(ns[1..], terms, start + n);
      assert Highlighted(ns, terms, start) == [hn] + hr;
      assert ([hn] + hr)[1..] == hr;
      DocRefsHighlighted(ns[1..], terms, start + n);
      HighlightNodeChanges(ns[0], terms, start);
      ConsecutiveAppend(start, n, InsertedCount(ns[1..], terms));
    }
  }

  lemma DetachNodesCons(ns: seq<Node>, ref: nat)
    requires ns != []
    ensures DetachNodes(ns, ref)[1..] == DetachNodes(ns[1..], ref)
    ensures NodeRefs(DetachNodes(ns, ref)[0]) == Without(NodeRefs(ns[0]), ref)
  {
  }

  /** Removing one mark from the page removes exactly that identity from its marks. */
  lemma {:induction false} DocRefsDetach(ns: seq<Node>, ref: nat)
    ensures DocRefs(DetachNodes(ns, ref)) == Without(DocRefs(ns), ref)
  {
    if ns != [] {
      var d := DetachNodes(ns, ref);
      DetachNodesCons(ns, ref);
      DocRefsDetach(ns[1..], ref);
      WithoutAppend(NodeRefs(ns[0]), DocRefs(ns[1..]), ref);
      assert DocRefs(d) == NodeRefs(d[0]) + DocRefs(d[1..]);
    }
  }
}

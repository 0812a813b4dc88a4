/**
 * The content script itself: its module globals, the page it works on, and
 * the functions that change them, each proved against the specification
 * functions of the other modules.
 */
module Engine {
  import opened Wrappers
  import opened Text
  import opened Seqs
  import opened Markup
  import opened Terms
  import opened Document
  import opened Navigation

  /** An auto-scan is skipped within this many milliseconds of the last jump. */
  const QuietPeriod: int := 30000

  /** The scan handler's test: skip an auto-scan while navigating or shortly after. */
  predicate SkipsAutoScan(isAutoScan: bool, navigationActive: bool, lastNavigationTime: int, now: int) {
    isAutoScan && (navigationActive || now - lastNavigationTime < QuietPeriod)
  }

  /** The page a scan with this vocabulary leaves, numbering new marks from start. */
  function ScannedPage(ns: seq<Node>, vocab: seq<Row>, start: nat): seq<Node> {
    var terms := ExtractTerms(vocab);
    if vocab == [] || terms.None? then ClearNodes(ns)
    else Highlighted(ClearNodes(ns), terms.value, start)
  }

  /** What `highlightVocabulary` returns; None when it throws. */
  function ScanCount(ns: seq<Node>, vocab: seq<Row>): Option<nat> {
    var terms := ExtractTerms(vocab);
    if vocab == [] then Some(0)
    else if terms.None? then None
    else Some(InsertedCount(ClearNodes(ns), terms.value))
  }

  /** The response the scan branch of the message handler sends. */
  datatype ScanResponse =
    | Skipped(highlightedCount: nat)
    | Completed(highlightedCount: nat)
    | Failed

  /**
   * The inner `forEach` of `highlightVocabulary` for one accepted node: each
   * term in turn is looked for in the content built so far and, when found,
   * every occurrence is wrapped.
   */
  method HighlightText(text: string, terms: seq<string>) returns (content: Markup, hasMatches: bool)
    ensures content == MarkUp(text, terms)
    ensures hasMatches <==> MarkCount(content) > 0
  {
    content := Plain(text);
    hasMatches := false;
    var k := 0;
    while k < |terms|
      invariant 0 <= k <= |terms|
      invariant MarkUpFrom(content, terms[k..]) == MarkUp(text, terms)
      invariant hasMatches <==> MarkCount(content) > 0
    {
      var term := terms[k];
      assert terms[k..][1..] == terms[k + 1..];
      if ContainsIn(content, term) {
        hasMatches := true;
        ApplyTermGrows(content, term);
        content := ApplyTerm(content, term);
      } else {
        ApplyTermAbsent(content, term);
      }
      k := k + 1;
    }
  }

  /**
   * One node of the outer `forEach`: an accepted text node in which some
   * term occurs becomes a container whose marks are numbered from ref.
   */
  method HighlightOne(node: Node, terms: seq<string>, ref: nat) returns (result: Node, marks: nat)
    ensures result == HighlightNode(node, terms, ref)
    ensures marks == NodeMarks(node, terms)
  {
    result, marks := node, 0;
    if node.TextNode? && Accept(node.parent, node.text) {
      var content, hasMatches := HighlightText(node.text, terms);
      if hasMatches {
        var span := Number(content, ref);
        NumberShape(content, ref);
        result := Container(node.parent, span);
        marks := MarkCount(span);
      }
    }
  }

  /**
   * The outer `forEach` of `highlightVocabulary` over the accepted nodes,
   * counting the marks inserted (`highlightedCount`).
   */
  method HighlightPage(nodes: seq<Node>, terms: seq<string>, start: nat) returns (page: seq<Node>, highlightedCount: nat)
    ensures page == Highlighted(nodes, terms, start)
    ensures highlightedCount == InsertedCount(nodes, terms)
  {
    page := nodes;
    highlightedCount := 0;
    var i := 0;
    while i < |page|
      invariant 0 <= i <= |page| == |nodes|
      invariant page[i..] == nodes[i..]
      invariant page[..i] + Highlighted(page[i..], terms, start + highlightedCount) == Highlighted(nodes, terms, start)
      invariant highlightedCount + InsertedCount(page[i..], terms) == InsertedCount(nodes, terms)
    {
      var node, rest := page[i], page[i + 1..];
      assert page[i..] == [node] + rest;
      HighlightedStep(page[..i], node, rest, terms, start + highlightedCount);
      var replaced, marks := HighlightOne(node, terms, start + highlightedCount);
      ghost var done := page[..i];
      page := page[i := replaced];
      assert page[..i + 1] == done + [replaced];
      assert page[i + 1..] == rest;
      highlightedCount := highlightedCount + marks;
      i := i + 1;
    }
    assert page[..i] == page && page[i..] == [];
  }

  class ContentScript {
    /** The text nodes and highlight containers of the page, in document order. */
    var nodes: seq<Node>
    /** The identity the next mark created will get. */
    var nextRef: nat
    var currentHighlightIndex: int
    var allHighlights: seq<nat>
    /** The `data-highlight-id` attribute of each mark that has one. */
    var highlightIds: map<nat, nat>
    var navigationActive: bool
    var lastNavigationTime: int
    /** Whether the `vocab-highlight-styles` element is in the page. */
    var styleInstalled: bool

    function Position(): Cursor
      reads this
    {
      Cursor(allHighlights, currentHighlightIndex)
    }

    /**
     * Marks are distinct elements, every identity used so far is below
     * nextRef, and each listed mark carries its position as its id.
     */
    predicate Sound()
      reads this
    {
      && Distinct(DocRefs(nodes))
      && (forall r | r in DocRefs(nodes) :: r < nextRef)
      && (forall r | r in allHighlights :: r < nextRef)
      && (forall j | 0 <= j < |allHighlights| ::
            allHighlights[j] in highlightIds && highlightIds[allHighlights[j]] == j)
    }

    predicate Valid()
      reads this
    {
      Sound() && CursorValid(Position())
    }

    /** The script loading on a page it has not highlighted. */
    constructor(page: seq<Node>)
      requires AllText(page)
      ensures Valid()
      ensures nodes == page && allHighlights == [] && currentHighlightIndex == -1
      ensures !navigationActive && lastNavigationTime == 0 && !styleInstalled
    {
      nodes := page;
      nextRef := 0;
      currentHighlightIndex := -1;
      allHighlights := [];
      highlightIds := map[];
      navigationActive := false;
      lastNavigationTime := 0;
      styleInstalled := false;
      DocRefsOfText(page);
    }

    /** `clearHighlights`: flatten every container, remove the style, forget the list. */
    method ClearHighlights()
      modifies this
      ensures Valid()
      ensures nodes == ClearNodes(old(nodes))
      ensures allHighlights == [] && currentHighlightIndex == -1 && !styleInstalled
      ensures nextRef == old(nextRef) && highlightIds == old(highlightIds)
      ensures navigationActive == old(navigationActive) && lastNavigationTime == old(lastNavigationTime)
    {
      var page := nodes;
      var i := 0;
      while i < |page|
        invariant 0 <= i <= |page| == |nodes|
        invariant forall k | 0 <= k < i :: page[k] == Flatten(nodes[k])
        invariant forall k | i <= k < |page| :: page[k] == nodes[k]
      {
        if page[i].Container? {
          page := page[i := Flatten(page[i])];
        }
        i := i + 1;
      }
      assert page == ClearNodes(nodes);
      nodes := page;
      styleInstalled := false;
      allHighlights := [];
      currentHighlightIndex := -1;
      ClearRemovesMarks(old(nodes));
    }

    /** `addHighlightStyles`: install the style element unless it is there. */
    method AddHighlightStyles()
      modifies this
      ensures styleInstalled
      ensures nodes == old(nodes) && nextRef == old(nextRef) && highlightIds == old(highlightIds)
      ensures Position() == old(Position())
      ensures navigationActive == old(navigationActive) && lastNavigationTime == old(lastNavigationTime)
    {
      if styleInstalled {
        return;
      }
      styleInstalled := true;
    }

    /**
     * `updateHighlightsArray`: list the marks of the page in document order,
     * give each its position as id, and reset the cursor only if the old list
     * was empty.
     */
    method UpdateHighlightsArray()
      requires Sound()
      modifies this
      ensures Sound()
      ensures Position() == Reconciled(old(Position()), DocRefs(nodes))
      ensures nodes == old(nodes) && nextRef == old(nextRef) && styleInstalled == old(styleInstalled)
      ensures navigationActive == old(navigationActive) && lastNavigationTime == old(lastNavigationTime)
    {
      var newHighlights := DocRefs(nodes);
      var ids: map<nat, nat> := highlightIds;
      var index: nat := 0;
      while index < |newHighlights|
        invariant 0 <= index <= |newHighlights|
        invariant forall j | 0 <= j < index :: newHighlights[j] in ids && ids[newHighlights[j]] == j
      {
        ids := ids[newHighlights[index] := index];
        index := index + 1;
      }
      highlightIds := ids;
      if |allHighlights| == 0 {
        currentHighlightIndex := -1;
      }
      allHighlights := newHighlights;
    }

    /**
     * `highlightVocabulary`: clear, turn the vocabulary into terms, highlight
     * every accepted text node, install the style and list the marks. The
     * result is the number of marks inserted, None where the script throws.
     */
    method HighlightVocabulary(vocab: seq<Row>) returns (count: Option<nat>)
      modifies this
      ensures Valid()
      ensures nodes == ScannedPage(old(nodes), vocab, old(nextRef))
      ensures count == ScanCount(old(nodes), vocab)
      ensures allHighlights == DocRefs(nodes) && currentHighlightIndex == -1
      ensures count.Some? ==> count.value == |allHighlights|
      ensures styleInstalled <==> vocab != [] && ExtractTerms(vocab).Some?
      ensures navigationActive == old(navigationActive) && lastNavigationTime == old(lastNavigationTime)
    {
      ClearHighlights();
      ClearRemovesMarks(old(nodes));
      if |vocab| == 0 {
        return Some(0);
      }
      var searchTerms := ExtractTerms(vocab);
      if searchTerms.None? {
        return None;
      }
      var terms := searchTerms.value;
      ghost var cleared := nodes;
      var page, highlightedCount := HighlightPage(nodes, terms, nextRef);
      DocRefsHighlighted(cleared, terms, nextRef);
      ConsecutiveDistinct(nextRef, highlightedCount);
      nodes := page;
      nextRef := nextRef + highlightedCount;
      AddHighlightStyles();
      UpdateHighlightsArray();
      count := Some(highlightedCount);
    }
  
    /** `document.contains(allHighlights[i])`, false when there is no such entry. */
    function Attached(i: int): bool
      reads this
    {
      0 <= i < |allHighlights| && allHighlights[i] in DocRefs(nodes)
    }

    /** The start of both jumps: an empty list is refreshed from the page. */
    method RefreshIfEmpty()
      requires Sound()
      modifies this
      ensures Sound()
      ensures Position() == Refreshed(old(Position()), DocRefs(nodes))
      ensures nodes == old(nodes) && nextRef == old(nextRef) && styleInstalled == old(styleInstalled)
      ensures navigationActive == old(navigationActive) && lastNavigationTime == old(lastNavigationTime)
    {
      if |allHighlights| == 0 {
        UpdateHighlightsArray();
      }
    }

    /**
     * The end of both jumps, once the index has moved: check the target,
     * reconcile and clamp once if it is gone, and throw if it is still gone.
     */
    method SettleCursor(forward: bool) returns (result: Result<Report, NavError>)
      requires Sound()
      modifies this
      ensures Sound()
      ensures (Position(), result) == Settle(old(Position()), DocRefs(nodes), forward)
      ensures navigationActive == (old(navigationActive) && result.Success?)
      ensures nodes == old(nodes) && nextRef == old(nextRef) && styleInstalled == old(styleInstalled)
      ensures lastNavigationTime == old(lastNavigationTime)
    {
      if !Attached(currentHighlightIndex) {
        UpdateHighlightsArray();
        if currentHighlightIndex >= |allHighlights| {
          currentHighlightIndex := if forward then 0 else |allHighlights| - 1;
        }
      }
      if !Attached(currentHighlightIndex) {
        navigationActive := false;
        return Failure(TargetLost);
      }
      result := Success(MakeReport(Position(), forward));
    }

    /** Both jumps start by raising `navigationActive` and stamping the time. */
    method BeginNavigation(now: int)
      requires Sound()
      modifies this
      ensures Sound() && navigationActive && lastNavigationTime == now
      ensures Position() == old(Position()) && highlightIds == old(highlightIds)
      ensures nodes == old(nodes) && nextRef == old(nextRef) && styleInstalled == old(styleInstalled)
    {
      navigationActive := true;
      lastNavigationTime := now;
    }

    /**
     * The wrap-around move of both jumps on a non-empty list: one step
     * forward with the end wrapping to 0, or one step back with the start
     * (and -1) wrapping to the last entry.
     */
    method MoveIndex(forward: bool)
      requires Sound() && |allHighlights| > 0
      modifies this
      ensures Sound() && allHighlights == old(allHighlights) && highlightIds == old(highlightIds)
      ensures forward ==>
        currentHighlightIndex == (if old(currentHighlightIndex) + 1 >= |allHighlights| then 0 else old(currentHighlightIndex) + 1)
      ensures !forward ==>
        currentHighlightIndex == (if old(currentHighlightIndex) - 1 < 0 then |allHighlights| - 1 else old(currentHighlightIndex) - 1)
      ensures nodes == old(nodes) && nextRef == old(nextRef) && styleInstalled == old(styleInstalled)
      ensures navigationActive == old(navigationActive) && lastNavigationTime == old(lastNavigationTime)
    {
      if forward {
        currentHighlightIndex := currentHighlightIndex + 1;
        if currentHighlightIndex >= |allHighlights| {
          currentHighlightIndex := 0;
        }
      } else {
        currentHighlightIndex := currentHighlightIndex - 1;
        if currentHighlightIndex < 0 {
          currentHighlightIndex := |allHighlights| - 1;
        }
      }
    }

    /** `jumpToNextHighlight` with `Date.now()` given as now. */
    method JumpToNext(now: int) returns (result: Result<Report, NavError>)
      requires Valid()
      modifies this
      ensures Valid()
      ensures (Position(), result) == NextStep(old(Position()), DocRefs(nodes))
      ensures navigationActive == result.Success? && lastNavigationTime == now
      ensures nodes == old(nodes) && nextRef == old(nextRef) && styleInstalled == old(styleInstalled)
    {
      ghost var before, live := Position(), DocRefs(nodes);
      NextKeepsValid(before, live);
      BeginNavigation(now);
      RefreshIfEmpty();
      ghost var c1 := Position();
      assert DocRefs(nodes) == live && c1 == Refreshed(before, live);
      if |allHighlights| == 0 {
        navigationActive := false;
        return Failure(NoHighlights);
      }
      MoveIndex(true);
      ghost var moved := Position();
      assert NextStep(before, live) == Settle(moved, live, true);
      result := SettleCursor(true);
    }

    /** `jumpToPreviousHighlight` with `Date.now()` given as now. */
    method JumpToPrevious(now: int) returns (result: Result<Report, NavError>)
      requires Valid()
      modifies this
      ensures Valid()
      ensures (Position(), result) == PrevStep(old(Position()), DocRefs(nodes))
      ensures navigationActive == result.Success? && lastNavigationTime == now
      ensures nodes == old(nodes) && nextRef == old(nextRef) && styleInstalled == old(styleInstalled)
    {
      ghost var before, live := Position(), DocRefs(nodes);
      PrevKeepsValid(before, live);
      BeginNavigation(now);
      RefreshIfEmpty();
      ghost var c1 := Position();
      assert DocRefs(nodes) == live && c1 == Refreshed(before, live);
      if |allHighlights| == 0 {
        navigationActive := false;
        return Failure(NoHighlights);
      }
      MoveIndex(false);
      ghost var moved := Position();
      assert PrevStep(before, live) == Settle(moved, live, false);
      result := SettleCursor(false);
    }

    /** The one-second timer a successful jump sets: it clears `navigationActive`. */
    method CooldownElapsed()
      requires Valid()
      modifies this
      ensures Valid() && !navigationActive
      ensures nodes == old(nodes) && nextRef == old(nextRef) && styleInstalled == old(styleInstalled)
      ensures Position() == old(Position()) && highlightIds == old(highlightIds)
      ensures lastNavigationTime == old(lastNavigationTime)
    {
      navigationActive := false;
    }

    /** The page, not the script, removes the mark ref (for instance by re-rendering). */
    method DetachMark(ref: nat)
      requires Valid()
      modifies this
      ensures Valid()
      ensures nodes == DetachNodes(old(nodes), ref)
      ensures DocRefs(nodes) == Without(old(DocRefs(nodes)), ref)
      ensures nextRef == old(nextRef) && styleInstalled == old(styleInstalled)
      ensures Position() == old(Position()) && highlightIds == old(highlightIds)
      ensures navigationActive == old(navigationActive) && lastNavigationTime == old(lastNavigationTime)
    {
      DocRefsDetach(nodes, ref);
      WithoutDistinct(DocRefs(nodes), ref);
      nodes := DetachNodes(nodes, ref);
    }

    /** `verifyHighlightsIntegrity`. */
    method VerifyHighlightsIntegrity() returns (ok: bool)
      ensures ok == Intact(allHighlights, DocRefs(nodes))
    {
      var actualHighlights := DocRefs(nodes);
      var validCount := 0;
      var index := 0;
      while index < |allHighlights|
        invariant 0 <= validCount <= index <= |allHighlights|
        invariant validCount == index <==> forall j | 0 <= j < index :: allHighlights[j] in actualHighlights
      {
        if allHighlights[index] in actualHighlights {
          validCount := validCount + 1;
        }
        index := index + 1;
      }
      ok := validCount == |allHighlights| && |allHighlights| == |actualHighlights|;
    }

    /** The `scan` branch of the message handler, with `Date.now()` given as now. */
    method HandleScan(vocab: seq<Row>, isAutoScan: bool, now: int) returns (response: ScanResponse)
      requires Valid()
      modifies this
      ensures Valid()
      ensures response.Skipped? <==> SkipsAutoScan(isAutoScan, old(navigationActive), old(lastNavigationTime), now)
      ensures response.Skipped? ==>
        && response.highlightedCount == |old(allHighlights)|
        && nodes == old(nodes) && Position() == old(Position()) && nextRef == old(nextRef)
        && styleInstalled == old(styleInstalled) && highlightIds == old(highlightIds)
      ensures !response.Skipped? ==>
        && nodes == ScannedPage(old(nodes), vocab, old(nextRef))
        && allHighlights == DocRefs(nodes) && currentHighlightIndex == -1
        && (styleInstalled <==> vocab != [] && ExtractTerms(vocab).Some?)
        && response == (match ScanCount(old(nodes), vocab)
                        case Some(n) => Completed(n)
                        case None => Failed)
      ensures navigationActive == old(navigationActive) && lastNavigationTime == old(lastNavigationTime)
    {
      var timeSinceLastNav := now - lastNavigationTime;
      if isAutoScan && (navigationActive || timeSinceLastNav < QuietPeriod) {
        return Skipped(|allHighlights|);
      }
      var highlightedCount := HighlightVocabulary(vocab);
      if highlightedCount.Some? {
        response := Completed(highlightedCount.value);
      } else {
        response := Failed;
      }
    }
  }

  // ---------------------------------------------------------------------
  // Properties of a scan
  // ---------------------------------------------------------------------

  /** A scan never changes the text of the page: clearing afterwards gives the cleared page. */
  lemma ScanKeepsText(ns: seq<Node>, vocab: seq<Row>, start: nat)
    ensures ClearNodes(ScannedPage(ns, vocab, start)) == ClearNodes(ns)
  {
    var terms := ExtractTerms(vocab);
    if vocab == [] || terms.None? {
      ClearIdempotent(ns);
    } else {
      ClearAfterHighlight(ClearNodes(ns), terms.value, start);
    }
  }

  /** Scanning a scanned page again gives the same page as one scan (up to mark identities). */
  lemma RescanIsScan(ns: seq<Node>, vocab: seq<Row>, k1: nat, k2: nat)
    ensures ScannedPage(ScannedPage(ns, vocab, k1), vocab, k2) == ScannedPage(ns, vocab, k2)
    ensures ScanCount(ScannedPage(ns, vocab, k1), vocab) == ScanCount(ns, vocab)
  {
    ScanKeepsText(ns, vocab, k1);
  }

  /**
   * A scan with terms replaces a node exactly when the filter accepts it and
   * some term occurs in its text, and leaves every other node as it was.
   */
  lemma ScanTouches(ns: seq<Node>, vocab: seq<Row>, start: nat, i: nat)
    requires vocab != [] && ExtractTerms(vocab).Some? && i < |ns|
    ensures var before := ClearNodes(ns)[i];
      ScannedPage(ns, vocab, start)[i] != before <==>
        Accept(before.parent, before.text)
        && exists j | 0 <= j < |ExtractTerms(vocab).value| :: Contains(before.text, ExtractTerms(vocab).value[j])
  {
    HighlightedAt(ClearNodes(ns), ExtractTerms(vocab).value, start, i);
  }

  // ---------------------------------------------------------------------
  // Keyboard shortcuts
  // ---------------------------------------------------------------------

  datatype Direction = Forward | Backward

  /** The `keydown` listener: which jump a key press triggers, if any. */
  function KeyAction(highlightCount: nat, targetTag: string, ctrlKey: bool, metaKey: bool, key: string): (a: Option<Direction>)
    ensures a.Some? ==> highlightCount > 0 && (ctrlKey || metaKey)
    ensures a.Some? ==> targetTag != "INPUT" && targetTag != "TEXTAREA" && targetTag != "SELECT"
    ensures a == Some(Forward) ==> key == "ArrowDown" || key == "n"
    ensures a == Some(Backward) ==> key == "ArrowUp" || key == "p"
    ensures highlightCount > 0 && targetTag !in ["INPUT", "TEXTAREA", "SELECT"] && (ctrlKey || metaKey) ==>
      && ((key == "ArrowDown" || key == "n") ==> a == Some(Forward))
      && ((key == "ArrowUp" || key == "p") ==> a == Some(Backward))
  {
    if highlightCount > 0 && targetTag !in ["INPUT", "TEXTAREA", "SELECT"] && (ctrlKey || metaKey) then
      if key == "ArrowDown" || key == "n" then Some(Forward)
      else if key == "ArrowUp" || key == "p" then Some(Backward)
      else None
    else None
  }
}

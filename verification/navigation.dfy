/**
 * The cursor over the highlights and the two jump commands, as a pure state
 * machine. `highlights` is `allHighlights`, `index` is `currentHighlightIndex`,
 * and `live` is the list of marks currently in the page
 * (`document.querySelectorAll('.vocab-highlight')`); a mark is attached
 * (`document.contains`) when it is in `live`.
 */
module Navigation {
  import opened Wrappers

  datatype Cursor = Cursor(highlights: seq<nat>, index: int)

  /** The results the jump commands return. */
  datatype Report =
    | NextReport(currentIndex: int, totalCount: nat, hasNext: bool)
    | PreviousReport(currentIndex: int, totalCount: nat, hasPrevious: bool)

  /** The two errors the jump commands throw. */
  datatype NavError = NoHighlights | TargetLost

  function Message(e: NavError): string {
    match e
    case NoHighlights => "No highlights found on the page"
    case TargetLost => "Could not find valid highlight to navigate to"
  }

  /** Between commands the cursor is -1 or, when there are highlights, one of their positions. */
  predicate CursorValid(c: Cursor) {
    -1 <= c.index && (|c.highlights| > 0 ==> c.index < |c.highlights|)
  }

  /**
   * `updateHighlightsArray`: the list becomes the live marks; the cursor goes
   * back to -1 only when the old list was empty and is otherwise kept as it is.
   */
  function Reconciled(c: Cursor, live: seq<nat>): Cursor {
    Cursor(live, if |c.highlights| == 0 then -1 else c.index)
  }

  /** `allHighlights[i]` exists and `document.contains` it. */
  predicate Resolves(c: Cursor, i: int, live: seq<nat>) {
    0 <= i < |c.highlights| && c.highlights[i] in live
  }

  /** The list is refreshed first when it is empty. */
  function Refreshed(c: Cursor, live: seq<nat>): Cursor {
    if |c.highlights| == 0 then Reconciled(c, live) else c
  }

  function MakeReport(c: Cursor, forward: bool): Report {
    var n := |c.highlights|;
    if forward then NextReport(c.index, n, c.index < n - 1)
    else PreviousReport(c.index, n, c.index > 0)
  }

  /**
   * Landing on the cursor's entry, shared by both jumps: if it is missing or
   * detached, reconcile once, bring an index past the end back to 0 (forward)
   * or to the last entry (backward), and try once more.
   */
  function Settle(c: Cursor, live: seq<nat>, forward: bool): (Cursor, Result<Report, NavError>) {
    if Resolves(c, c.index, live) then (c, Success(MakeReport(c, forward)))
    else
      var c2 := Reconciled(c, live);
      var n2 := |c2.highlights|;
      var c3 := if c2.index >= n2 then Cursor(c2.highlights, if forward then 0 else n2 - 1) else c2;
      if Resolves(c3, c3.index, live) then (c3, Success(MakeReport(c3, forward)))
      else (c3, Failure(TargetLost))
  }

  /** `jumpToNextHighlight`, apart from the flags: the new cursor and what the call returns or throws. */
  function NextStep(c: Cursor, live: seq<nat>): (Cursor, Result<Report, NavError>) {
    var c1 := Refreshed(c, live);
    if |c1.highlights| == 0 then (c1, Failure(NoHighlights))
    else
      var i1 := if c1.index + 1 >= |c1.highlights| then 0 else c1.index + 1;
      Settle(Cursor(c1.highlights, i1), live, true)
  }

  /** `jumpToPreviousHighlight`, apart from the flags. */
  function PrevStep(c: Cursor, live: seq<nat>): (Cursor, Result<Report, NavError>) {
    var c1 := Refreshed(c, live);
    if |c1.highlights| == 0 then (c1, Failure(NoHighlights))
    else
      var i1 := if c1.index - 1 < 0 then |c1.highlights| - 1 else c1.index - 1;
      Settle(Cursor(c1.highlights, i1), live, false)
  }

  // ---------------------------------------------------------------------
  // Outcomes
  // ---------------------------------------------------------------------

  /**
   * From a valid cursor a jump forward succeeds exactly when the page has a
   * mark; it fails with NoHighlights when the list was empty too and with
   * TargetLost otherwise. On success the cursor points at an attached mark,
   * and the report says where it is and whether it is the last one.
   */
  lemma NextOutcome(c: Cursor, live: seq<nat>)
    requires CursorValid(c)
    ensures var (c', out) := NextStep(c, live);
      && CursorValid(c')
      && (out.Success? <==> |live| > 0)
      && (out == Failure(NoHighlights) <==> |c.highlights| == 0 && |live| == 0)
      && (out == Failure(TargetLost) <==> |c.highlights| > 0 && |live| == 0)
      && (out.Success? ==>
            && 0 <= c'.index < |c'.highlights|
            && c'.highlights[c'.index] in live
            && out.value == NextReport(c'.index, |c'.highlights|, c'.index < |c'.highlights| - 1))
      && (out.Failure? ==> c'.highlights == live)
  {
    SettleOutcome(c, live, true);
  }

  /** The same for a jump backward, whose report says whether there is an earlier mark. */
  lemma PrevOutcome(c: Cursor, live: seq<nat>)
    requires CursorValid(c)
    ensures var (c', out) := PrevStep(c, live);
      && CursorValid(c')
      && (out.Success? <==> |live| > 0)
      && (out == Failure(NoHighlights) <==> |c.highlights| == 0 && |live| == 0)
      && (out == Failure(TargetLost) <==> |c.highlights| > 0 && |live| == 0)
      && (out.Success? ==>
            && 0 <= c'.index < |c'.highlights|
            && c'.highlights[c'.index] in live
            && out.value == PreviousReport(c'.index, |c'.highlights|, c'.index > 0))
      && (out.Failure? ==> c'.highlights == live)
  {
    SettleOutcome(c, live, false);
  }

  /** The common part of the two outcome lemmas. */
  lemma SettleOutcome(c: Cursor, live: seq<nat>, forward: bool)
    requires CursorValid(c)
    ensures var c1 := Refreshed(c, live);
      |c1.highlights| > 0 ==>
        var i1 := if forward then (if c1.index + 1 >= |c1.highlights| then 0 else c1.index + 1)
                  else (if c1.index - 1 < 0 then |c1.highlights| - 1 else c1.index - 1);
        var (c', out) := Settle(Cursor(c1.highlights, i1), live, forward);
        && CursorValid(c')
        && (out.Success? <==> |live| > 0)
        && (out.Failure? ==> out.error == TargetLost && c'.highlights == live)
        && (out.Success? ==> 0 <= c'.index < |c'.highlights| && c'.highlights[c'.index] in live
                             && out.value == MakeReport(c', forward))
  {
    var c1 := Refreshed(c, live);
    if |c1.highlights| > 0 {
      var i1 := if forward then (if c1.index + 1 >= |c1.highlights| then 0 else c1.index + 1)
                else (if c1.index - 1 < 0 then |c1.highlights| - 1 else c1.index - 1);
      var d := Cursor(c1.highlights, i1);
      if !Resolves(d, i1, live) && |live| > 0 {
        var i2 := if i1 >= |live| then (if forward then 0 else |live| - 1) else i1;
        assert live[i2] in live;
      }
    }
  }

  /** Both jumps keep the cursor valid, whatever they return. */
  lemma NextKeepsValid(c: Cursor, live: seq<nat>)
    requires CursorValid(c)
    ensures CursorValid(NextStep(c, live).0)
  {
    NextOutcome(c, live);
  }

  lemma PrevKeepsValid(c: Cursor, live: seq<nat>)
    requires CursorValid(c)
    ensures CursorValid(PrevStep(c, live).0)
  {
    PrevOutcome(c, live);
  }

  // ---------------------------------------------------------------------
  // Wrap-around when every listed mark is attached
  // ---------------------------------------------------------------------

  predicate AllAttached(c: Cursor, live: seq<nat>) {
    forall k | 0 <= k < |c.highlights| :: c.highlights[k] in live
  }

  /** Forward from i in [-1, N) lands on (i + 1) mod N and keeps the list. */
  lemma NextWraps(c: Cursor, live: seq<nat>)
    requires CursorValid(c) && |c.highlights| > 0 && AllAttached(c, live)
    ensures NextStep(c, live).0 == Cursor(c.highlights, (c.index + 1) % |c.highlights|)
    ensures NextStep(c, live).1.Success?
  {
    var n := |c.highlights|;
    assert Refreshed(c, live) == c;
    var i1 := if c.index + 1 >= n then 0 else c.index + 1;
    assert i1 == (c.index + 1) % n;
    assert Resolves(Cursor(c.highlights, i1), i1, live);
  }

  /** Backward from -1 or 0 lands on N - 1, and from any other i on i - 1. */
  lemma PrevWraps(c: Cursor, live: seq<nat>)
    requires CursorValid(c) && |c.highlights| > 0 && AllAttached(c, live)
    ensures PrevStep(c, live).0 == Cursor(c.highlights, if c.index <= 0 then |c.highlights| - 1 else c.index - 1)
    ensures PrevStep(c, live).1.Success?
  {
  }

  /** k jumps forward in a row. */
  function NextTimes(c: Cursor, live: seq<nat>, k: nat): Cursor
    decreases k
  {
    if k == 0 then c else NextTimes(NextStep(c, live).0, live, k - 1)
  }

  lemma {:induction false} NextTimesAdd(c: Cursor, live: seq<nat>, a: nat, b: nat)
    ensures NextTimes(c, live, a + b) == NextTimes(NextTimes(c, live, a), live, b)
    decreases a
  {
    if a > 0 {
      NextTimesAdd(NextStep(c, live).0, live, a - 1, b);
    }
  }

  /** Forward jumps that stay below the end move the cursor one step each. */
  lemma {:induction false} NextTimesClimb(c: Cursor, live: seq<nat>, k: nat)
    requires |c.highlights| > 0 && AllAttached(c, live) && -1 <= c.index && c.index + k < |c.highlights|
    ensures NextTimes(c, live, k) == Cursor(c.highlights, c.index + k)
    decreases k
  {
    if k > 0 {
      var c' := NextStep(c, live).0;
      assert c' == Cursor(c.highlights, c.index + 1);
      NextTimesClimb(c', live, k - 1);
    }
  }

  /** N jumps forward over N attached marks come back to the starting mark. */
  lemma NextCycle(c: Cursor, live: seq<nat>)
    requires |c.highlights| > 0 && 0 <= c.index < |c.highlights| && AllAttached(c, live)
    ensures NextTimes(c, live, |c.highlights|) == c
  {
    var n, i := |c.highlights|, c.index;
    var last := Cursor(c.highlights, n - 1);
    var first := Cursor(c.highlights, 0);
    NextTimesAdd(c, live, n - 1 - i, i + 1);
    NextTimesClimb(c, live, n - 1 - i);
    assert NextStep(last, live).0 == first;
    assert NextTimes(last, live, i + 1) == NextTimes(first, live, i);
    NextTimesClimb(first, live, i);
  }

  /** A jump backward undoes a jump forward. */
  lemma PrevAfterNext(c: Cursor, live: seq<nat>)
    requires |c.highlights| > 0 && 0 <= c.index < |c.highlights| && AllAttached(c, live)
    ensures PrevStep(NextStep(c, live).0, live).0 == c
  {
    NextWraps(c, live);
    PrevWraps(NextStep(c, live).0, live);
  }

  /** A jump forward undoes a jump backward. */
  lemma NextAfterPrev(c: Cursor, live: seq<nat>)
    requires |c.highlights| > 0 && 0 <= c.index < |c.highlights| && AllAttached(c, live)
    ensures NextStep(PrevStep(c, live).0, live).0 == c
  {
    PrevWraps(c, live);
    NextWraps(PrevStep(c, live).0, live);
  }

  // ---------------------------------------------------------------------
  // The integrity check
  // ---------------------------------------------------------------------

  /**
   * What `verifyHighlightsIntegrity` reports as healthy: every listed mark is
   * attached and the list is as long as the page's list of marks.
   */
  predicate Intact(highlights: seq<nat>, live: seq<nat>) {
    (forall j | 0 <= j < |highlights| :: highlights[j] in live) && |highlights| == |live|
  }

  /**
   * A reconcile keeps the cursor valid exactly when the old list was empty,
   * the page has no marks, or the old index still fits the new list: since it
   * does not clamp, a shrunken list can leave the cursor past its end, which
   * is why both jumps clamp after reconciling.
   */
  lemma ReconciledValid(c: Cursor, live: seq<nat>)
    requires CursorValid(c)
    ensures CursorValid(Reconciled(c, live)) <==> |c.highlights| == 0 || |live| == 0 || c.index < |live|
    ensures Intact(Reconciled(c, live).highlights, live)
  {
  }

  /** While the list is intact the jumps are the plain wrap-around ones. */
  lemma IntactWraps(c: Cursor, live: seq<nat>)
    requires CursorValid(c) && |c.highlights| > 0 && Intact(c.highlights, live)
    ensures NextStep(c, live).0 == Cursor(c.highlights, (c.index + 1) % |c.highlights|)
    ensures PrevStep(c, live).0 == Cursor(c.highlights, if c.index <= 0 then |c.highlights| - 1 else c.index - 1)
  {
    NextWraps(c, live);
    PrevWraps(c, live);
  }
}

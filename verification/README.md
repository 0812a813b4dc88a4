# Vocabulary highlighter content script, modelled in Dafny

This project models the in-page engine of the vocabulary highlighter browser
extension (`chrome-extension/content.js`). The engine has five parts:

- **Search terms.** A scan turns a vocabulary (plain strings, or objects with
  a `chinese` or `taiwanese` field) into search terms.
- **Highlighting.** The scan walks every text node whose text is not blank
  and whose parent is not SCRIPT or STYLE; there is no visibility test, so
  hidden text is highlighted too. In such a node, every leftmost
  non-overlapping occurrence of a term is wrapped in a
  `<mark class="vocab-highlight">` (the term `aa` in `aaa` gets one mark). The
  matched node is replaced by a `vocab-highlight-container` span.
- **Reconciliation.** The marks are listed in document order for keyboard and
  popup navigation (`updateHighlightsArray`).
- **Navigation.** The user jumps forward and backward through the marks with
  wrap-around. A lost target triggers one reconcile and a clamp before the
  command gives up.
- **Clear and auto-scan guard.** The page can be cleared. Background auto-scans
  are skipped while the user is navigating.

## Files

| file | module | what it holds |
|---|---|---|
| `wrappers.dfy` | `Wrappers` | `Option` and `Result` |
| `text.dfy` | `Text` | `includes`, global literal replacement, `trim` with the ECMAScript white-space set |
| `escape.dfy` | `RegexEscape` | `escapeRegExp` and the literal reading of an escaped pattern |
| `terms.dfy` | `Terms` | vocabulary rows and the `map`/`filter` that yields the search terms |
| `seqs.dfy` | `Seqs` | distinctness, removal and consecutive runs of mark identities |
| `markup.dfy` | `Markup` | the content of a highlight container as plain text and marks, and how one term is applied to it |
| `substitution.dfy` | `Substitution` | `String.prototype.replace` with its `$` replacement patterns |
| `html.dfy` | `ScriptHtml` | the HTML string the script really builds, when it parses back to the modelled marks, and inputs for which it does not |
| `document.dfy` | `Document` | the page as a sequence of text nodes and containers, the node filter, the scan loop, clearing, the list of marks |
| `navigation.dfy` | `Navigation` | the cursor and the two jumps as a pure state machine, with their outcome, validity and wrap-around properties |
| `engine.dfy` | `Engine` | class `ContentScript`, whose fields are the module globals, the page and the style flag; its methods are the script's functions, proved against the functions above |

### Modelling decisions

- **The page.** The page is the sequence of text nodes below `document.body`
  in document order. Each node records its parent's tag.
- **Containers.** A highlight container holds a `Markup`: plain text, then a
  mark, then the rest.
- **Mark identity.** A mark is an identity `ref: nat`. Fresh identities are
  taken from `nextRef`.
- **The mark list.** `document.querySelectorAll('.vocab-highlight')` is
  `DocRefs(nodes)`. `document.contains(mark)` is membership in that list.
- **Sorting.** `querySelectorAll` already returns marks in document order, so
  the `compareDocumentPosition` sort leaves the list as it is.
- **Detaching marks.** The page can lose a mark without the script's help
  (`DetachMark`). This is how a stored mark becomes detached between two
  commands.
- **Time.** `Date.now()` is passed in as `now`.
- **The one-second timer.** The timer that lowers `navigationActive` after a
  successful jump is the method `CooldownElapsed`.

### Behaviour of the script worth knowing

- **Duplicate terms.** Nothing removes duplicate terms (`content.js:136-146`).
  A term listed twice is looked for a second time in the HTML string built so
  far (`content.js:180-184`). That string holds the term twice inside the
  first mark, in `data-vocab` and in the mark's text, so the second pass wraps
  it again inside that mark. This is the commonest case of the second finding
  below. The model applies a repeated term only to text outside the marks, so
  the repetition changes nothing (`Markup.RepeatedTermIgnored`).
- **Where terms are escaped.** The terms are kept as they are, and
  `escapeRegExp` is applied only when each term's pattern is built
  (`content.js:183`).
- **Field names.** An object row gives its `chinese` field if truthy, else its
  `taiwanese` field if truthy, else nothing (`content.js:140-145`).
- **Reconciliation and the cursor.** `updateHighlightsArray` never clamps the
  cursor. It sets it to -1 only when the old list was empty and otherwise
  leaves it as it is, even past the end of a shorter new list
  (`content.js:235-239`). Only the jumps clamp, and only after a lost target
  (`content.js:282-284`, `353-355`).
- **The report flags.** `hasNext` is `index < total - 1` (`content.js:312`)
  and `hasPrevious` is `index > 0` (`content.js:383`), so the last mark reports
  no next and the first reports no previous, although the jumps wrap around.

## Model

| member | source | states |
|---|---|---|
| `RegexEscape.EscapeRegExp` | chrome-extension/content.js:459-461 | each of `.*+?^${}()\|[]\` gets exactly one backslash in front, every other character is copied, and the length grows by the number of special characters |
| `RegexEscape.EscapedIsLiteral` | chrome-extension/content.js:459-461 | reading the escaped term back as a literal pattern gives exactly the term (removing the escapes returns the input) |
| `RegexEscape.LiteralIsEscaped` | chrome-extension/content.js:459-461 | any pattern that reads as the literal s is `escapeRegExp(s)`: escaping is the inverse of the literal reading |
| `Terms.ExtractTerms` | chrome-extension/content.js:136-146 | extraction succeeds exactly when no row is `null` (reading a field of `null` throws), and yields at most one term per row |
| `Terms.ExtractTermsAppend` | chrome-extension/content.js:136-146 | the terms of a + b are the terms of a followed by those of b: row order is kept, and nothing is deduplicated |
| `Terms.ExtractTermsCount` | chrome-extension/content.js:136-146 | each row that yields a term (a string, or a truthy `chinese`, or else a truthy `taiwanese`) gives exactly one term; every other row is dropped |
| `Terms.ExtractedComeFromRows` | chrome-extension/content.js:136-146 | every extracted term is the term of some row, so no `null` remains after the filter |
| `Text.ContainsAt` | chrome-extension/content.js:180 | `includes` holds exactly when the term occurs at some index |
| `Text.SubstituteAbsent` | chrome-extension/content.js:180-185 | global replacement of a term that does not occur leaves the string unchanged |
| `Text.SubstituteLength` | chrome-extension/content.js:184 | replacing by a longer wrapper never shortens the string, and lengthens it when the term occurs |
| `Text.SubstituteConcat` | chrome-extension/content.js:184 | global replacement distributes over a concatenation whose seam no occurrence straddles |
| `Text.TrimNonEmpty` | chrome-extension/content.js:162 | `trim().length > 0` exactly when some character is not ECMAScript white space |
| `Document.AcceptIff` | chrome-extension/content.js:155-163 | the node filter accepts exactly when the parent is not SCRIPT or STYLE and the trimmed text is non-empty |
| `Markup.ConsChar` | chrome-extension/content.js:184 | a character put in front of the content keeps its marks and comes first in both the HTML and the visible text |
| `Markup.SplitRender` | chrome-extension/content.js:183-184 | the marks made for one term render to exactly the string `replace` produces with the wrapper taken literally (the empty term included, with one mark before each character and one at the end) |
| `Markup.SplitText` | chrome-extension/content.js:184 | wrapping the occurrences of a term never changes the container's `textContent` |
| `Markup.SplitMarks` | chrome-extension/content.js:180-184 | a term produces a mark in a string exactly when the string includes it |
| `Markup.ApplyTermText` | chrome-extension/content.js:179-186 | applying one more term keeps the container's text |
| `Markup.ApplyTermAbsent` | chrome-extension/content.js:180-185 | a term that is not included leaves the content unchanged |
| `Markup.ApplyTermGrows` | chrome-extension/content.js:180-185 | applying a term never removes a mark, and adds at least one when the term is included |
| `Markup.MarkUpText` | chrome-extension/content.js:174-186 | after all terms are applied, the container's text is the node's original text |
| `Markup.MarkUpMatched` | chrome-extension/content.js:176-189 | a node ends with at least one mark (`hasMatches`) exactly when some term occurs in its text |
| `Markup.NumberShape` | chrome-extension/content.js:195-196 | numbering the marks keeps text and count, and gives them consecutive identities in document order |
| `Markup.RepeatedTermIgnored` | chrome-extension/content.js:136-186 | a non-empty term listed again after its first occurrence leaves the intended highlighting unchanged: the highlighting with the repeated term is that of the terms without it |
| `Markup.Detach` | chrome-extension/content.js:277 | a mark the page removed disappears from the container's list of marks; the other marks keep their order |
| `ScriptHtml.HighlightHtmlLiteralStep` | chrome-extension/content.js:180-184 | for a term without `$`, one step of the script's template replacement is the literal global replacement |
| `ScriptHtml.AsWrittenAgrees` | chrome-extension/content.js:179-191 | for safe terms (non-empty, no angle brackets, no `$`, no later term inside an earlier wrapper), the HTML string the script builds with its template `replace` is exactly the rendering of the modelled marks |
| `ScriptHtml.NestedTermBreaksMarkup` | chrome-extension/content.js:179-186 | with terms "台灣" then "台", the script's string is not the single intended mark, while the model gives that mark |
| `ScriptHtml.DuplicateTermBreaksMarkup` | chrome-extension/content.js:179-186 | with the text "台" and the term "台" listed twice, the script's string is not the single intended mark, the model gives that mark, and the terms are not safe |
| `Substitution.ReplaceAllAsWritten` | chrome-extension/content.js:184 | names the call as written: `replace` with a string template, which is expanded at each match |
| `Substitution.LiteralTemplate` | chrome-extension/content.js:184 | a template without `$` is inserted literally, so the call as written agrees with literal replacement |
| `ScriptHtml.ExpandDollarWrap` | chrome-extension/content.js:184 | expanding the wrapper for the term `$$` yields the wrapper for `$` |
| `ScriptHtml.DollarTermIsRewritten` | chrome-extension/content.js:179-186 | text "$$" with the term "$$" gives, as the script builds it, the mark for "$"; the model gives the mark for "$$", and the two differ |
| `Document.Flatten` | chrome-extension/content.js:393-394 | clearing turns a container into a text node with the same parent |
| `Document.HighlightNodeChanges` | chrome-extension/content.js:174-200 | a text node is replaced exactly when the filter accepts it and some term occurs in it; flattening gives it back; its marks are numbered consecutively |
| `Document.HighlightedAt` | chrome-extension/content.js:155-200 | the i-th node after a scan shows the i-th node's text, and differs from it exactly when it is accepted and some term occurs in it |
| `Document.ClearNodes` | chrome-extension/content.js:388-395 | clearing keeps the node count and parents, and leaves only text nodes |
| `Document.ClearAfterHighlight` | chrome-extension/content.js:174-200 | clearing a scanned page gives back the page exactly as it was before the scan |
| `Document.ClearIdempotent` | chrome-extension/content.js:388-395 | clearing twice is the same as clearing once |
| `Document.ClearRemovesMarks` | chrome-extension/content.js:388-395 | a cleared page has no marks |
| `Document.DocRefsHighlighted` | chrome-extension/content.js:174-201 | the marks of a scanned page are consecutive identities in document order, as many as the returned count |
| `Document.DocRefsDetach` | chrome-extension/content.js:277 | after the page removes one mark, `querySelectorAll` lists the other marks in their old order |
| `Seqs.WithoutDistinct` | chrome-extension/content.js:216 | removing a mark keeps the page's marks distinct |
| `Seqs.ConsecutiveDistinct` | chrome-extension/content.js:230-232 | freshly numbered marks are distinct and are exactly the identities in the numbered range |
| `Navigation.ReconciledValid` | chrome-extension/content.js:235-239 | a reconcile keeps the cursor valid exactly when the old list was empty, the page has no marks, or the old index fits the new list: the index is kept, not clamped; and the reconciled list passes the integrity check of content.js:495 |
| `Navigation.NextOutcome` | chrome-extension/content.js:246-314 | from a valid cursor, a forward jump succeeds exactly when the page has marks. It throws "No highlights found" exactly when both the list and the page are empty, and "Could not find valid highlight" exactly when the list was non-empty but the page is empty. On success it lands on an attached mark with `hasNext = index < total - 1` |
| `Navigation.PrevOutcome` | chrome-extension/content.js:317-385 | the same for the backward jump, with `hasPrevious = index > 0` |
| `Navigation.SettleOutcome` | chrome-extension/content.js:273-302 | after one reconcile and a clamp to 0 (forward) or to the last entry (backward), the retry finds a mark exactly when the page has marks; otherwise the jump fails with the list reconciled |
| `Navigation.NextKeepsValid` | chrome-extension/content.js:266-302 | a forward jump, successful or not, leaves the cursor at -1 or within the list |
| `Navigation.PrevKeepsValid` | chrome-extension/content.js:337-373 | a backward jump, successful or not, leaves the cursor at -1 or within the list |
| `Navigation.NextWraps` | chrome-extension/content.js:266-271 | when every listed mark is attached, forward from i in [-1, N) lands on (i + 1) mod N and succeeds |
| `Navigation.PrevWraps` | chrome-extension/content.js:337-342 | when every listed mark is attached, backward from -1 or 0 lands on N - 1, from any other i on i - 1, and succeeds |
| `Navigation.NextTimesAdd` | chrome-extension/content.js:246-314 | a + b forward jumps are a jumps followed by b jumps |
| `Navigation.NextTimesClimb` | chrome-extension/content.js:266-271 | forward jumps that stay below the end move the cursor one step each |
| `Navigation.NextCycle` | chrome-extension/content.js:266-271 | N forward jumps over N attached marks return to the starting mark |
| `Navigation.PrevAfterNext` | chrome-extension/content.js:266-271 | a backward jump (the decrement of content.js:337-342) undoes a forward jump |
| `Navigation.NextAfterPrev` | chrome-extension/content.js:266-271 | a forward jump undoes a backward jump (the decrement of content.js:337-342) |
| `Navigation.IntactWraps` | chrome-extension/content.js:480-496 | while the integrity check holds, both jumps are plain wrap-around moves |
| `Engine.HighlightText` | chrome-extension/content.js:175-186 | the loop over the terms builds exactly the modelled content of the node, and `hasMatches` is set exactly when that content has a mark |
| `Engine.HighlightOne` | chrome-extension/content.js:174-200 | one node of the scan: the node the scan leaves and the number of marks it adds to `highlightedCount` |
| `Engine.HighlightPage` | chrome-extension/content.js:173-201 | the loop over the nodes produces the scanned page and returns the number of marks inserted, not the number of nodes |
| `Engine.ContentScript.constructor` | chrome-extension/content.js:5-8 | the globals start at index -1, an empty list, inactive and time 0, with no style installed |
| `Engine.ContentScript.ClearHighlights` | chrome-extension/content.js:388-408 | every container is flattened, the style is removed, the list is emptied and the index set to -1; the navigation flags are unchanged |
| `Engine.ContentScript.AddHighlightStyles` | chrome-extension/content.js:411-456 | afterwards the style is installed, and nothing else changes (a second call is a no-op) |
| `Engine.ContentScript.UpdateHighlightsArray` | chrome-extension/content.js:214-243 | the list becomes the page's marks in document order, each carrying its position as id, and the cursor is reset only when the old list was empty |
| `Engine.ContentScript.HighlightVocabulary` | chrome-extension/content.js:124-211 | clears, then for an empty vocabulary returns 0 without installing the style. A `null` row throws after the clear. Otherwise it returns the number of marks inserted, which equals the new list's length, installs the style even when the count is zero, and leaves the cursor at -1 |
| `Engine.ContentScript.RefreshIfEmpty` | chrome-extension/content.js:251-258 | an empty list is refreshed from the page before a jump |
| `Engine.ContentScript.SettleCursor` | chrome-extension/content.js:273-302 | check the target; if it is missing or detached, reconcile once, clamp and retry once, and on failure lower `navigationActive` |
| `Engine.ContentScript.BeginNavigation` | chrome-extension/content.js:247-249 | a jump raises `navigationActive` and records the time |
| `Engine.ContentScript.MoveIndex` | chrome-extension/content.js:265-271 | the index moves one step forward (wrapping to 0), or, as at content.js:336-342, one step back (wrapping to N - 1) |
| `Engine.ContentScript.JumpToNext` | chrome-extension/content.js:246-314 | the new cursor and the report or error are those of `NextStep`; the cursor invariant holds afterwards; `navigationActive` stays raised exactly when the jump succeeded; the time is recorded |
| `Engine.ContentScript.JumpToPrevious` | chrome-extension/content.js:317-385 | the same, for `PrevStep` |
| `Engine.ContentScript.CooldownElapsed` | chrome-extension/content.js:305-307 | the delayed reset lowers `navigationActive` and changes nothing else |
| `Engine.ContentScript.DetachMark` | chrome-extension/content.js:277 | the page loses one mark; the page's list of marks loses exactly that identity, and the script's state is unchanged |
| `Engine.ContentScript.VerifyHighlightsIntegrity` | chrome-extension/content.js:480-496 | returns true exactly when every listed mark is attached and the list is as long as the page's list of marks |
| `Engine.ContentScript.HandleScan` | chrome-extension/content.js:16-48 | an auto-scan is skipped exactly when navigating or within 30000 ms of the last jump; a skipped scan reports the list length and changes nothing; other scans run `highlightVocabulary`, report its count or failure, and leave the page's marks as the list, the cursor at -1, and the style installed exactly when the vocabulary is non-empty and has no `null` row |
| `Engine.ScanKeepsText` | chrome-extension/content.js:124-211 | a scan never changes the text of the page |
| `Engine.RescanIsScan` | chrome-extension/content.js:124-211 | scanning a scanned page again gives the page of a single scan, with the same count |
| `Engine.ScanTouches` | chrome-extension/content.js:155-200 | a scan replaces a node exactly when the filter accepts it and a term occurs in it |
| `Engine.KeyAction` | chrome-extension/content.js:464-477 | a key press triggers a jump only with highlights, outside INPUT/TEXTAREA/SELECT, with Ctrl or Meta: ArrowDown or n goes forward, ArrowUp or p goes back |

## Left out

- DOM APIs are abstracted. `TreeWalker`, `innerHTML` parsing, `replaceChild`, `querySelectorAll` and `compareDocumentPosition` become operations on the node sequence.
- Visual effects are not modelled: the `vocab-highlight-current` class, `scrollIntoView`, `focus`, and the CSS text of the style element. They do not affect the state.
- Console logging and `chrome.i18n` message formatting are not modelled. The handler branches for ping, clear, and the jump commands only wrap the modelled functions in responses.
- `chrome-extension/popup.js` is not part of this model. It is UI, fetch, messaging and storage plumbing.
- HTML escaping and the normalisation done by the `innerHTML` parser are not modelled. The model assumes the browser parses the rendered string back into the same marks and the same text. That holds when the page text has no `<`, `&`, carriage return or U+0000, and the terms have no `"`. The script escapes none of these, and the parser turns a carriage return into a line feed and drops U+0000. `Document.ClearAfterHighlight` and `Engine.ScanKeepsText` describe the script only for such text.
- Markup.SplitRender: strings are sequences of Unicode scalar values, while JavaScript strings are sequences of UTF-16 code units. The empty term's pattern has no `u` flag, so the script also matches between the two surrogate halves of a character outside the Basic Multilingual Plane (such as U+2A736, a CJK Extension B character used in Taiwanese) and puts a mark there. The model puts one mark per character, so for such text it has fewer marks than the script.
- Engine.HighlightText: decides `content.includes(term)` on the plain text outside the marks, not on the HTML string built so far. `ScriptHtml.AsWrittenAgrees` shows the two agree for safe terms, and the Findings below show where they differ.
- Engine.ContentScript.HighlightVocabulary: collects accepted nodes and replaces them in one pass. The source first collects them with the walker and then replaces them. The replacement never changes which other nodes the filter accepts.
- Terms.RowTerm: rows are strings, objects with optional string fields, or `null`. Fields holding non-string truthy values are not modelled.
- Engine.ContentScript.HandleScan: an absent `vocabData` is passed as the empty vocabulary, as `request.vocabData || []` does. The failure response carries no error text.
- Navigation.Message: the error texts are those of the thrown `Error`s. The popup's localised wrappers are not modelled.
- The `setTimeout` reset of `navigationActive` is the separate method `CooldownElapsed`. When it runs relative to other commands is left to the caller.

## Findings

| source | as written | input that shows it | evidently intended | confidence | as-written member | corrected member |
|---|---|---|---|---|---|---|
| chrome-extension/content.js:184 | the wrapper, which contains the term, is passed to `replace` as a string template, so `$$`, `$&`, `` $` `` and `$'` inside a term are expanded | page text `$$` with the term `$$` | a mark whose text and `data-vocab` are `$$` (the page text stays `$$`) | not executed | `ScriptHtml.DollarTermIsRewritten` | `Markup.SplitRender` |
| chrome-extension/content.js:179-186 | each later term is replaced in the HTML string already holding earlier marks, so it can match inside an earlier mark's attribute or text | page text `台灣` with the terms `台灣` then `台` | one mark for `台灣`; the later term applies only to text outside the existing marks | not executed | `ScriptHtml.NestedTermBreaksMarkup` | `Markup.MarkUpText` |
| chrome-extension/content.js:136-186 | duplicate terms are kept, and the second pass of a term runs on the HTML holding its first marks, wrapping the term again inside them | page text `台` with the terms `台` then `台` | one mark for `台` | not executed | `ScriptHtml.DuplicateTermBreaksMarkup` | `Markup.RepeatedTermIgnored` |

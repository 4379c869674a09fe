# Highlight session and slug converter, modelled in Dafny

This project models two pieces of a browser extension that highlights links
and text on a page.

**The content script's highlight session** (`content.js`). The popup sends
messages of two kinds:

- A `search` message runs `performSearch`, which does three things:
  - It clears the previous highlights.
  - It highlights every `<a href>` whose raw `href` equals the search string, or contains it in partial mode.
  - When `searchText` is set, it wraps in a highlighted `<span>` every text node under `body` whose trimmed text matches and that is not directly inside `SCRIPT` or `STYLE`.
- A `clear` message undoes every highlight.

Each highlight pushes one undo record onto the session-wide list
`highlightedElements`. There are two kinds of record:

- a style record, holding the element's previous background and font size;
- a swap record, holding the span, the original text node and the parent.

`clearHighlights` replays the records in order and empties the list.

**The popup's text-to-slug converter** (`popup.js`). `cleanTextToSlug`
lowercases the text and strips combining marks. It then replaces each run of
characters outside `[a-z0-9]` by one `-`, trims the dashes at both ends, and
collapses repeated dashes. `updateOutput` shows `''` for a blank input.

The project has four modules:

- `JsString` (`js_string.dfy`): ECMAScript `String.prototype.trim` and `includes`.
- `Dom` (`dom.dfy`): elements with mutable style fields, attributes and child lists; text nodes; `replaceChild`.
- `Content` (`content.dfy`):
  - the records, the link test and the tree-walker filter;
  - folds that say what applying or undoing a list of records does to a look or a child list;
  - the class `Session`, which holds `highlightedElements` and whose methods change the page in place.
- `Popup` (`popup.dfy`): the slug pipeline, one function per chained call except `.normalize('NFD')`, which is taken as the identity. The pipeline is proved against a reference definition, namely the words of the text joined by `-`.

### How the model represents the page

- **Querying the page.** `document.querySelectorAll('a[href]')` and the tree walker are not modelled as traversals. Each operation that queries the page takes the query's result as a parameter:
  - `links` is the link list;
  - `walk` is the text nodes in document order.

  Their preconditions state facts the DOM guarantees. `Distinct(links)` and `Distinct(walk)` hold because a query returns each node once. Each walked node is a child of its parent once the old highlights are undone.
- **Nothing else edits the page.** The session's invariant `Valid()` says that every span is still a child of the element it was put in. The model assumes that no other script on the page moves or removes these nodes.
- **Undoing, as functions.** `CleanedLook(e)` and `CleanedChildren(p)` say what undoing the current records would give.
- **How the contracts use them.** The session methods state their effects through these two functions. That is how the model states that clear restores what search changed, except that a matched link loses `data-highlighted` even when it carried that attribute before the search: `applyHighlight` does not save it and `clearHighlights` removes it.

## Model

| member | source | states |
|---|---|---|
| JsString.Trim | content.js:102 | the result is the input less its leading and trailing ECMAScript whitespace: it neither starts nor ends with whitespace, only whitespace was cut on either side, and it is empty exactly when the input is all whitespace |
| JsString.Includes | content.js:105-107 | `s.includes(sub)` holds exactly when `sub` occurs in `s` at some index |
| Dom.Element.constructor | content.js:71 | `createElement` gives an element with the tag, no inline style, no marker attribute and no child |
| Dom.TextNode.constructor | content.js:75 | the text node that `span.textContent = text` creates holds exactly `text` and has the span as its parent |
| Dom.Element.ReplaceChild | content.js:86 | `replaceChild` needs the old child to be present and leaves the list with the new child in the old one's slot and every other slot unchanged |
| Dom.Replaced | content.js:86 | `replaceChild` never changes the length of a child list; which slots change is stated by `ReplacedAt` and `ReplacedMembers` |
| Dom.ReplacedAt | content.js:86 | a child that occurs once is replaced in its own position and the rest of the list is unchanged |
| Dom.ReplacedMembers | content.js:86 | after the replacement the new child is present and every other former child still is |
| Dom.ReplacedBack | content.js:126 | putting the original node back in place of a span that was not in the list before gives back the original child list |
| Content.LinkMatches | content.js:27-30 | a link whose raw `href` is the search string itself matches in both modes, so an exact match is also a partial match |
| Content.LinkMatchesMeaning | content.js:27-30 | a link matches exactly when its raw `href` equals the search string (exact mode) or the search string occurs in it (partial mode); no normalisation on either side |
| Content.MatchedExactly | content.js:25-36 | the links the forEach highlights are exactly the links that match |
| Content.MatchedDistinct | content.js:25-36 | distinct links give distinct highlighted links |
| Content.LinkRecordsMatched | content.js:25-36 | the links phase pushes one style record per matched link, in order, each naming that link |
| Content.LinkRecordsUndone | content.js:127-131 | undoing the links phase's records gives a matched link back its saved background and font size without `data-highlighted`, and leaves any other link as it is |
| Content.LinksUndone | content.js:25-36 | once every link has been visited, undoing the records takes every link back to its look before the phase, less `data-highlighted` |
| Content.AcceptNode | content.js:95-110 | the filter rejects a node under `SCRIPT` or `STYLE` and a node whose trimmed text is empty, and otherwise accepts exactly when the trimmed text equals the search string (exact mode) or contains it (partial mode) |
| Content.ExactEmptySearchAcceptsNothing | content.js:102-107 | an empty search string in exact mode accepts no text node, because an empty trimmed text is rejected first |
| Content.Accepted | content.js:114-117 | the collected nodes are at most as many as the walked nodes, and each of them is a walked node |
| Content.AcceptedExactly | content.js:114-119 | the collected nodes are exactly the walked nodes the filter accepts |
| Content.AcceptedDistinct | content.js:114-119 | distinct walked nodes give distinct collected nodes |
| Content.GetTextNodesContaining | content.js:89-120 | the loop collects, in document order, exactly the walked nodes the filter accepts |
| Content.RestoreLook | content.js:123-133 | undoing the records one by one, in order, either leaves an element's look as it was or removes its `data-highlighted` marker, and an element that a style record names always loses the marker |
| Content.RestoreChildren | content.js:123-133 | undoing the records, slot by slot, never changes the length of a child list; what each slot becomes is stated by `RestoreChildrenAfterHighlight` and `UndoSwaps` |
| Content.RestoreLookUntouched | content.js:127-131 | undoing records leaves the look of an element that no style record names unchanged |
| Content.RestoreLookSkipsSwaps | content.js:124-126 | swap records do not touch any element's look |
| Content.RestoreChildrenAfterHighlight | content.js:126 | undoing the swaps of a child list whose children are no spans gives back the list as it was before the swaps |
| Content.UndoSwaps | content.js:122-136 | undoing style records followed by swap records gives back the child lists the swaps were made on |
| Content.Session.constructor | content.js:2 | the script starts with an empty record list |
| Content.Session.NothingToUndo | content.js:123-135 | with an empty list undoing changes nothing, so by the contract of `ClearHighlights` a clear on an empty list, or a second clear right after a first one, changes no element and no child list |
| Content.Session.UndoRecord | content.js:123-133 | a swap record puts the original node back in place of the span in the same parent, and a style record restores the saved background and font size and removes `data-highlighted` |
| Content.Session.ClearHighlights | content.js:122-136 | after the clear the list is empty, every element has the look undoing the records gives it, and every child list is what undoing the swaps gives |
| Content.Session.ApplyHighlight | content.js:50-64 | one style record holding the element's previous background and font size is pushed, and the element gets `bgColor`, `fontSize + 'px'` and `data-highlighted` |
| Content.Session.HighlightTextNode | content.js:66-87 | one swap record is pushed. The new span has tag `SPAN`, the highlight style, the `data-highlighted-text` marker and one text child with the node's text (no child when the text is empty, as `textContent = ''` gives). The span takes the node's place in the parent's child list, and nothing else in that list changes |
| Content.Session.VisitLink | content.js:27-35 | one step of the link forEach highlights the link and pushes its record exactly when the link matches; otherwise it changes nothing |
| Content.Session.HighlightLinks | content.js:25-36 | the links phase pushes the style records of the matched links in order. It counts them. Every matched link gets the highlight look, and every other link keeps its look |
| Content.Session.LinksPhaseUndone | content.js:25-36 | right after the links phase, undoing the records takes every link back to its previous look, less `data-highlighted` |
| Content.Session.VisitTextNode | content.js:41-44 | one step of the text forEach pushes one swap record for that node, whose fresh span has tag `SPAN`, the highlight style, the `data-highlighted-text` marker and the node's text. It edits only that node's parent, putting the span in the node's slot, and keeps the nodes still to come in their parents |
| Content.Session.HighlightTextNodes | content.js:41-44 | the text phase pushes one swap record per collected node, in order, each with a fresh span that has the highlight style, the marker and that node's text. It counts them. Each parent's child list is the list before with the swaps applied |
| Content.Session.SwapsUndone | content.js:41-44 | after the text phase, undoing the records gives every element back the child list it had before the phase |
| Content.Session.HighlightText | content.js:39-45 | the text phase runs only when `searchText` is set and adds one swap record per accepted node, in order, each with a fresh span that has the highlight style, the marker and that node's text. It leaves every element's cleaned look unchanged. Undoing the records gives back every child list |
| Content.Session.HighlightMatches | content.js:22-47 | on a cleared list, the count equals the number of records. The list is the matched links' style records, followed by the accepted nodes' swap records, with fresh highlighted spans carrying each node's text, when `searchText` is set. Matched links get the highlight look. Undoing gives every link back less `data-highlighted` on the matched links, and gives every child list back |
| Content.Session.PerformSearch | content.js:16-48 | the count is the number of matched links plus, when `searchText` is set, the number of accepted text nodes, and the list has exactly that many records: the matched links' style records, then the accepted nodes' swap records with fresh highlighted spans carrying each node's text. Matched links are highlighted, and every other element keeps the look the clear gave it. A later clear would give back the page as the first clear left it, less `data-highlighted` on the matched links |
| Content.Session.OnMessage | content.js:5-14 | `search` answers `{ count }` with the number of records and has the effects `performSearch` states on the records, the looks and the child lists, `clear` answers `{ success: true }` with an empty list and every look and child list set to what undoing the records gives, and any other action gets no answer and leaves the list alone |
| Popup.LowerChar | popup.js:160 | lowercasing maps exactly the ASCII letters and digits to `[a-z0-9]` and leaves slug characters and `-` alone |
| Popup.LowerCase | popup.js:160 | lowercasing keeps the length, and a character becomes one of `[a-z0-9]` exactly when it was an ASCII letter or digit |
| Popup.StripMarks | popup.js:162 | removing the marks U+0300–U+036F leaves no such mark and never lengthens the text |
| Popup.DashRuns | popup.js:163 | the `[^a-z0-9]+` replacement never lengthens the text and gives an empty result only for an empty text |
| Popup.TrimDashes | popup.js:164 | trimming the dashes leaves no `-` at either end and never lengthens the text |
| Popup.CollapseDashes | popup.js:165 | collapsing leaves no two `-` in a row, keeps the first character and never lengthens the text |
| Popup.CleanTextToSlug | popup.js:158-166 | the slug has only `[a-z0-9-]`, no `-` at either end and never two `-` in a row |
| Popup.UpdateOutput | popup.js:179-182 | a blank trimmed input gives `''`, the output is empty exactly when the input has no ASCII letter or digit, and it is always a slug |
| Popup.SlugIsJoinedWords | popup.js:159-165 | the slug is the maximal runs of `[a-z0-9]` of the prepared text joined by single dashes |
| Popup.SlugKeepsAlnums | popup.js:159-165 | the letters and digits of the lowercased input appear in the slug in the same order, and nothing but `-` is added |
| Popup.SlugEmptyIffNoAlnum | popup.js:163-164 | the slug is empty exactly when the input has no ASCII letter or digit |
| Popup.SlugIdempotent | popup.js:158-166 | converting a slug again returns it unchanged |
| Popup.CollapseIsRedundant | popup.js:163-165 | the final `-{2,}` replacement never changes anything after the `[^a-z0-9]+` replacement and the trim |
| Popup.DashRunsShape | popup.js:163 | the dash replacement yields only `[a-z0-9-]` and never two `-` in a row |
| Popup.DashRunsAsWords | popup.js:163 | the dash replacement gives the joined words, with a `-` in front when the text starts outside `[a-z0-9]` and one behind when it ends outside it after a word |
| Popup.TrimDashesShape | popup.js:164 | trimming the dashes of a dashed text gives a slug, and leaves a slug unchanged |
| Popup.CollapseIdentity | popup.js:165 | collapsing leaves a text without double dashes unchanged |
| Popup.AlnumsDashRuns | popup.js:163 | the dash replacement keeps the letters and digits in order |
| Popup.AlnumsStripMarks | popup.js:162 | removing the combining marks loses no letter or digit |
| Popup.TrimKeepsAlnums | popup.js:180 | trimming whitespace removes no ASCII letter or digit |

## Left out

- Browser APIs are not modelled: all `chrome.*` calls, `sendResponse` delivery, and the listener's `return true`. `OnMessage` returns the response it would send.
- The popup's UI, storage, timers and clipboard code are not modelled, and neither is the `isLoading` guard. Only `cleanTextToSlug` and the `updateOutput` rule are modelled from `popup.js`.
- `toLowerCase` is modelled on ASCII letters only, and every other character is kept. `normalize('NFD')` is the identity: the input is taken to be in decomposed form already. The removal of the marks U+0300–U+036F is modelled exactly.
- The document walk is not modelled:
  - `querySelectorAll('a[href]')` is the parameter `links`;
  - the tree walker's traversal of `document.body` is the parameter `walk`, the text nodes in document order;
  - only the `acceptNode` filter and the collecting loop are modelled.
- A text node's parent is fixed. Once a swapped node leaves the tree, the DOM would give it a null `parentNode`; the model does not capture that.
- A walked node whose `parentElement` is null would throw in the filter. The model has no such node.
- Strings are sequences of Unicode scalar values, while JavaScript strings are UTF-16 code units, so page text holding a lone surrogate cannot be represented. On well-formed text `trim`, `includes` and the slug regexes give the same results on either representation.
- Styles are opaque strings. No CSS value is parsed or normalised.
- No URL resolution or normalisation is modelled, because the code has none. Links are compared by their raw `href` attribute.
- The `specialCases` flag of the search data is never read by the content script, so it has no field in `SearchData`.
- `Content.Session.PerformSearch`: its contract gives each parent's child list after the search only through what undoing the records gives back (`CleanedChildren`) and through the order of the swap records. The exact lists with the spans in place are stated by `HighlightTextNodes` for the text phase.
- `Content.Session.HighlightMatches`: the same as for `PerformSearch`.
- `Content.Session.OnMessage`: for `search`, the child lists are stated as for `PerformSearch`. For an action other than `search` or `clear`, it states that there is no response and that the record list is unchanged. That it touches no element follows from its body but is not restated.
- `Content.Session.ClearHighlights`, `Content.Session.Valid`: the model assumes that no other script moves or removes a span between a search and the next clear. On a live page one can. `replaceChild` then throws a `NotFoundError` inside the `forEach` of `clearHighlights`, the list is never emptied, and every later clear or search throws again at that record. The model does not have this error path: `Valid()` is a precondition of the session's methods.
- `Dom.Element.ReplaceChild`: when the new child is already in the list, the DOM first takes it out of its old slot. The model does not capture that move. In the program the new child is either a fresh span or the text node the span replaced, which is no longer in the list.
- `Content.Session.NothingToUndo`: clearing twice is stated through `ClearHighlights` and this lemma rather than as one contract over two calls, because a lemma cannot call a method.

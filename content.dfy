/** The content script's pure part: the undo records it keeps, the link and
    text-node tests, and the folds that say what undoing or applying a list
    of records does to the page. */
module Content {
  import JsString
  import opened Dom

  datatype Option<T> = None | Some(value: T)

  /** The `data` of a `search` request. The popup also sends a
      `specialCases` flag, which the content script never reads. */
  datatype SearchData = SearchData(
    searchUrl: string,
    bgColor: string,
    fontSize: string,
    searchText: bool,
    partialSearch: bool)

  /** A message from the popup. `data` matters only for `search`. */
  datatype Request = Request(action: string, data: SearchData)

  /** What `sendResponse` is given. */
  datatype Response = CountResponse(count: nat) | SuccessResponse(success: bool)

  /** An entry of `highlightedElements`: what is needed to undo one
      highlight. */
  datatype HighlightRecord =
    | StyleRecord(element: Element, backgroundColor: string, fontSize: string)
    | TextNodeRecord(span: Element, originalNode: TextNode, parent: Element)

  /** The three things a highlight changes on an element: its background,
      its font size and the `data-highlighted` attribute. */
  datatype Look = Look(backgroundColor: string, fontSize: string, highlighted: bool)

  function LookOf(e: Element): Look
    reads e
  {
    Look(e.backgroundColor, e.fontSize, e.dataHighlighted)
  }

  /** The look `applyHighlight` gives an element. */
  function HighlightLook(bgColor: string, fontSize: string): Look {
    Look(bgColor, fontSize + "px", true)
  }

  /** The look a link has once its highlight is undone: a matched link gets
      back its background and font size but not its `data-highlighted`
      attribute, which `clearHighlights` removes. */
  function Unmarked(was: Look, matched: bool): Look {
    if matched then Look(was.backgroundColor, was.fontSize, false) else was
  }

  /** The result of the tree walker's `acceptNode` callback. */
  datatype FilterResult = FilterAccept | FilterReject

  predicate Distinct<T(==)>(s: seq<T>) {
    forall i, j :: 0 <= i < j < |s| ==> s[i] != s[j]
  }

  function Elements(s: seq<Element>): set<Element> {
    set e | e in s
  }

  /** The elements holding the given text nodes. */
  function ParentsOf(nodes: seq<TextNode>): set<Element> {
    set n | n in nodes :: n.parent
  }

  /** The elements whose style the records saved. */
  function StyleTargets(R: seq<HighlightRecord>): set<Element> {
    set r | r in R && r.StyleRecord? :: r.element
  }

  /** The element a style record saved, as a frame. */
  function StyleTarget(r: HighlightRecord): set<Element> {
    if r.StyleRecord? then {r.element} else {}
  }

  /** The element in which a text-node record swapped a node, as a frame. */
  function ParentOf(r: HighlightRecord): set<Element> {
    if r.TextNodeRecord? then {r.parent} else {}
  }

  /** The elements in which the records swapped a text node for a span. */
  function Parents(R: seq<HighlightRecord>): set<Element> {
    set r | r in R && r.TextNodeRecord? :: r.parent
  }

  /** No two text-node records share a span. */
  predicate SpansDistinct(R: seq<HighlightRecord>) {
    forall i, j :: 0 <= i < j < |R| && R[i].TextNodeRecord? && R[j].TextNodeRecord? ==> R[i].span != R[j].span
  }

  /** `x` is not the span of any text-node record. */
  predicate NotASpan(x: Node, R: seq<HighlightRecord>) {
    forall k :: 0 <= k < |R| && R[k].TextNodeRecord? ==> x != ElementChild(R[k].span)
  }

  /** The span `highlightTextNode` puts in place of a text node with text
      `text`. */
  predicate SpanFor(span: Element, text: string, bgColor: string, fontSize: string)
    reads span
  {
    && span.tagName == "SPAN"
    && span.backgroundColor == bgColor && span.fontSize == fontSize + "px"
    && !span.dataHighlighted && span.dataHighlightedText
    && if text == "" then span.children == []
       else
         && |span.children| == 1 && span.children[0].TextChild?
         && span.children[0].node.text == text && span.children[0].node.parent == span
  }

  /** `r` is the record `highlightTextNode` keeps for `node`: the node, its
      parent, and a span made for the node's text. */
  predicate SwapRecordFor(r: HighlightRecord, node: TextNode, bgColor: string, fontSize: string)
    reads if r.TextNodeRecord? then {r.span} else {}
  {
    && r.TextNodeRecord? && r.originalNode == node && r.parent == node.parent
    && SpanFor(r.span, node.text, bgColor, fontSize)
  }

  /** Every span of `R` is the span `highlightTextNode` makes for the node
      at the same position of `nodes`. */
  predicate SpansFor(R: seq<HighlightRecord>, nodes: seq<TextNode>, bgColor: string, fontSize: string)
    reads set k | 0 <= k < |R| && R[k].TextNodeRecord? :: R[k].span
  {
    forall k :: 0 <= k < |R| && k < |nodes| && R[k].TextNodeRecord? ==>
      SpanFor(R[k].span, nodes[k].text, bgColor, fontSize)
  }

  /** Adding the record of the next node. */
  lemma SpansForSnoc(R: seq<HighlightRecord>, r: HighlightRecord, nodes: seq<TextNode>, bgColor: string, fontSize: string)
    requires SpansFor(R, nodes, bgColor, fontSize) && |R| < |nodes|
    requires r.TextNodeRecord? && SpanFor(r.span, nodes[|R|].text, bgColor, fontSize)
    ensures SpansFor(R + [r], nodes, bgColor, fontSize)
  {
    forall k | 0 <= k < |R| + 1 && (R + [r])[k].TextNodeRecord?
      ensures SpanFor((R + [r])[k].span, nodes[k].text, bgColor, fontSize)
    {
      if k < |R| {
        assert (R + [r])[k] == R[k];
      }
    }
  }

  /** `R` holds one text-node record per node of `nodes`, in the same
      order, each naming the node and its parent. */
  predicate SwapsOf(R: seq<HighlightRecord>, nodes: seq<TextNode>) {
    && |R| <= |nodes|
    && forall k :: 0 <= k < |R| ==>
         R[k].TextNodeRecord? && R[k].originalNode == nodes[k] && R[k].parent == nodes[k].parent
  }

  /** One more record, for the next node. */
  lemma SwapsOfSnoc(R: seq<HighlightRecord>, r: HighlightRecord, nodes: seq<TextNode>)
    requires SwapsOf(R, nodes) && |R| < |nodes|
    requires r.TextNodeRecord? && r.originalNode == nodes[|R|] && r.parent == nodes[|R|].parent
    ensures SwapsOf(R + [r], nodes)
  {
  }

  lemma AppendSnoc<T>(a: seq<T>, b: seq<T>, x: T)
    ensures a + b + [x] == a + (b + [x])
  {
  }

  // ---------------------------------------------------------------------
  // Link matching and the text-node filter
  // ---------------------------------------------------------------------

  /** The test each link's raw `href` attribute goes through: containment in
      partial mode, equality otherwise. Neither side is normalised. A link
      whose `href` is the search URL itself matches in both modes, so an
      exact match is also a partial match. */
  function LinkMatches(href: string, searchUrl: string, partialSearch: bool): (m: bool)
    ensures href == searchUrl ==> m
  {
    if partialSearch then
      assert href == searchUrl ==> JsString.OccursAt(href, searchUrl, 0);
      JsString.Includes(href, searchUrl)
    else
      href == searchUrl
  }

  /** In partial mode a link matches when the search URL occurs somewhere
      in its `href`; otherwise only when the two are equal. */
  lemma LinkMatchesMeaning(href: string, searchUrl: string, partialSearch: bool)
    ensures LinkMatches(href, searchUrl, partialSearch) <==>
      if partialSearch then exists i :: JsString.OccursAt(href, searchUrl, i) else href == searchUrl
  {
  }

  /** The links that match, in document order. */
  function Matched(links: seq<Element>, searchUrl: string, partialSearch: bool): (matched: seq<Element>)
    ensures |matched| <= |links|
    ensures forall e :: e in matched ==> e in links
  {
    if links == [] then
      []
    else
      var last := links[|links| - 1];
      Matched(links[..|links| - 1], searchUrl, partialSearch)
        + (if LinkMatches(last.href, searchUrl, partialSearch) then [last] else [])
  }

  /** The matched links are exactly the links that match. */
  lemma {:induction false} MatchedExactly(links: seq<Element>, searchUrl: string, partialSearch: bool)
    ensures forall e :: e in Matched(links, searchUrl, partialSearch) <==> e in links && LinkMatches(e.href, searchUrl, partialSearch)
  {
    if links != [] {
      var init := links[..|links| - 1];
      MatchedExactly(init, searchUrl, partialSearch);
      assert links == init + [links[|links| - 1]];
    }
  }

  /** Distinct links give distinct matches. */
  lemma {:induction false} MatchedDistinct(links: seq<Element>, searchUrl: string, partialSearch: bool)
    requires Distinct(links)
    ensures Distinct(Matched(links, searchUrl, partialSearch))
  {
    if links != [] {
      var init := links[..|links| - 1];
      var last := links[|links| - 1];
      MatchedDistinct(init, searchUrl, partialSearch);
      assert last !in init;
    }
  }

  /** The looks of the links, in document order. */
  function LooksOf(links: seq<Element>): (looks: seq<Look>)
    reads Elements(links)
    ensures |looks| == |links|
    ensures forall j :: 0 <= j < |links| ==> looks[j] == LookOf(links[j])
  {
    if links == [] then [] else LooksOf(links[..|links| - 1]) + [LookOf(links[|links| - 1])]
  }

  /** The style records the `links.forEach` of `performSearch` makes when
      the links have the looks `looks`: one per matching link, in document
      order, saving that link's background and font size. */
  function LinkRecords(links: seq<Element>, looks: seq<Look>, searchUrl: string, partialSearch: bool): (R: seq<HighlightRecord>)
    requires |looks| == |links|
  {
    if links == [] then
      []
    else
      var n := |links| - 1;
      LinkRecords(links[..n], looks[..n], searchUrl, partialSearch)
        + (if LinkMatches(links[n].href, searchUrl, partialSearch)
           then [StyleRecord(links[n], looks[n].backgroundColor, looks[n].fontSize)] else [])
  }

  /** The records name the matched links, one each, in order. */
  lemma {:induction false} LinkRecordsMatched(links: seq<Element>, looks: seq<Look>, searchUrl: string, partialSearch: bool)
    requires |looks| == |links|
    ensures var R := LinkRecords(links, looks, searchUrl, partialSearch);
      && |R| == |Matched(links, searchUrl, partialSearch)|
      && forall k :: 0 <= k < |R| ==> R[k].StyleRecord? && R[k].element == Matched(links, searchUrl, partialSearch)[k]
  {
    if links != [] {
      var n := |links| - 1;
      LinkRecordsMatched(links[..n], looks[..n], searchUrl, partialSearch);
    }
  }

  /** Looking at one more link. */
  lemma LinkRecordsSnoc(links: seq<Element>, looks: seq<Look>, i: int, searchUrl: string, partialSearch: bool)
    requires |looks| == |links| && 0 <= i < |links|
    ensures LinkRecords(links[..i + 1], looks[..i + 1], searchUrl, partialSearch) ==
      LinkRecords(links[..i], looks[..i], searchUrl, partialSearch)
        + (if LinkMatches(links[i].href, searchUrl, partialSearch)
           then [StyleRecord(links[i], looks[i].backgroundColor, looks[i].fontSize)] else [])
  {
    assert links[..i + 1][..i] == links[..i];
    assert looks[..i + 1][..i] == looks[..i];
  }

  /** The looks of the links once the first `n` have been visited: those
      that match have the highlight look, the rest still have `looks`. */
  function HighlightedLooks(links: seq<Element>, looks: seq<Look>, n: int, searchUrl: string,
                            bgColor: string, fontSize: string, partialSearch: bool): (r: seq<Look>)
    requires |looks| == |links| && 0 <= n <= |links|
    ensures |r| == |links|
    ensures forall j :: 0 <= j < |links| ==>
      r[j] == if j < n && LinkMatches(links[j].href, searchUrl, partialSearch) then HighlightLook(bgColor, fontSize) else looks[j]
  {
    seq(|links|, j requires 0 <= j < |links| =>
      if j < n && LinkMatches(links[j].href, searchUrl, partialSearch) then HighlightLook(bgColor, fontSize) else looks[j])
  }

  /** Visiting one more link. */
  lemma HighlightedLooksStep(links: seq<Element>, looks: seq<Look>, n: int, searchUrl: string,
                             bgColor: string, fontSize: string, partialSearch: bool)
    requires |looks| == |links| && 0 <= n < |links|
    ensures HighlightedLooks(links, looks, n + 1, searchUrl, bgColor, fontSize, partialSearch) ==
      HighlightedLooks(links, looks, n, searchUrl, bgColor, fontSize, partialSearch)[n :=
        if LinkMatches(links[n].href, searchUrl, partialSearch) then HighlightLook(bgColor, fontSize) else looks[n]]
  {
  }

  /** Once every link has been visited, undoing the records of the links
      phase takes each link back to its look before, less `data-highlighted`. */
  lemma LinksUndone(links: seq<Element>, looks: seq<Look>, searchUrl: string,
                    bgColor: string, fontSize: string, partialSearch: bool)
    requires |looks| == |links| && Distinct(links)
    ensures var R := LinkRecords(links, looks, searchUrl, partialSearch);
      var now := HighlightedLooks(links, looks, |links|, searchUrl, bgColor, fontSize, partialSearch);
      forall j :: 0 <= j < |links| ==>
        RestoreLook(now[j], R, links[j]) == Unmarked(looks[j], LinkMatches(links[j].href, searchUrl, partialSearch))
  {
    var now := HighlightedLooks(links, looks, |links|, searchUrl, bgColor, fontSize, partialSearch);
    forall j | 0 <= j < |links|
      ensures RestoreLook(now[j], LinkRecords(links, looks, searchUrl, partialSearch), links[j]) ==
        Unmarked(looks[j], LinkMatches(links[j].href, searchUrl, partialSearch))
    {
      LinkRecordsUndone(links, looks, searchUrl, partialSearch, j, now[j]);
    }
  }

  /** Undoing the records of the links phase gives a matched link back the
      look it had before, less `data-highlighted`, and leaves any other link
      as it is. */
  lemma {:induction false} LinkRecordsUndone(links: seq<Element>, looks: seq<Look>, searchUrl: string, partialSearch: bool, j: int, now: Look)
    requires |looks| == |links| && Distinct(links) && 0 <= j < |links|
    ensures RestoreLook(now, LinkRecords(links, looks, searchUrl, partialSearch), links[j]) ==
      if LinkMatches(links[j].href, searchUrl, partialSearch) then Unmarked(looks[j], true) else now
  {
    var n := |links| - 1;
    var init := LinkRecords(links[..n], looks[..n], searchUrl, partialSearch);
    var R := LinkRecords(links, looks, searchUrl, partialSearch);
    var e := links[j];
    LinkRecordsMatched(links[..n], looks[..n], searchUrl, partialSearch);
    if j == n {
      assert e !in links[..n];
      assert e !in Matched(links[..n], searchUrl, partialSearch);
      assert e !in StyleTargets(init);
      RestoreLookUntouched(now, init, e);
    } else {
      assert links[..n][j] == e;
      LinkRecordsUndone(links[..n], looks[..n], searchUrl, partialSearch, j, now);
      assert links[n] != e;
    }
    if LinkMatches(links[n].href, searchUrl, partialSearch) {
      assert R[..|R| - 1] == init;
    } else {
      assert R == init;
    }
  }

  /** `acceptNode`: a node is accepted exactly when it is not inside
      `SCRIPT` or `STYLE`, its text is not all whitespace, and its trimmed
      text contains the search text (partial mode) or equals it. */
  function AcceptNode(node: TextNode, searchText: string, partialSearch: bool): (r: FilterResult)
    ensures r == FilterAccept <==>
      && node.parent.tagName != "SCRIPT" && node.parent.tagName != "STYLE"
      && (exists k :: 0 <= k < |node.text| && !JsString.IsWhitespace(node.text[k]))
      && (if partialSearch then exists i :: JsString.OccursAt(JsString.Trim(node.text), searchText, i)
          else JsString.Trim(node.text) == searchText)
  {
    if node.parent.tagName == "SCRIPT" || node.parent.tagName == "STYLE" then
      FilterReject
    else
      var text := JsString.Trim(node.text);
      if text == [] then
        FilterReject
      else
        var matches := if partialSearch then JsString.Includes(text, searchText) else text == searchText;
        if matches then FilterAccept else FilterReject
  }

  /** In exact mode an empty search text accepts no node: the trimmed text
      of an accepted node is never empty. */
  lemma ExactEmptySearchAcceptsNothing(node: TextNode)
    ensures AcceptNode(node, "", false) == FilterReject
  {
  }

  /** The nodes of the walk that `acceptNode` accepts, in document order. */
  function Accepted(walk: seq<TextNode>, searchText: string, partialSearch: bool): (nodes: seq<TextNode>)
    ensures |nodes| <= |walk|
    ensures forall n :: n in nodes ==> n in walk
  {
    if walk == [] then
      []
    else
      var last := walk[|walk| - 1];
      Accepted(walk[..|walk| - 1], searchText, partialSearch)
        + (if AcceptNode(last, searchText, partialSearch) == FilterAccept then [last] else [])
  }

  /** The collected nodes are exactly the nodes of the walk that
      `acceptNode` accepts. */
  lemma {:induction false} AcceptedExactly(walk: seq<TextNode>, searchText: string, partialSearch: bool)
    ensures forall n :: n in Accepted(walk, searchText, partialSearch) <==> n in walk && AcceptNode(n, searchText, partialSearch) == FilterAccept
  {
    if walk != [] {
      var init := walk[..|walk| - 1];
      AcceptedExactly(init, searchText, partialSearch);
      assert walk == init + [walk[|walk| - 1]];
    }
  }

  /** A walk that visits each node once collects each node once. */
  lemma {:induction false} AcceptedDistinct(walk: seq<TextNode>, searchText: string, partialSearch: bool)
    requires Distinct(walk)
    ensures Distinct(Accepted(walk, searchText, partialSearch))
  {
    if walk != [] {
      var init := walk[..|walk| - 1];
      var last := walk[|walk| - 1];
      AcceptedDistinct(init, searchText, partialSearch);
      assert last !in init;
    }
  }

  // ---------------------------------------------------------------------
  // Undoing the records: the styles
  // ---------------------------------------------------------------------

  /** What undoing record `r` does to the look of `e`. */
  function RestoreLookStep(look: Look, r: HighlightRecord, e: Element): Look {
    if r.StyleRecord? && r.element == e then Look(r.backgroundColor, r.fontSize, false) else look
  }

  /** The look of `e` after the records are undone one by one, in order. */
  function RestoreLook(look: Look, R: seq<HighlightRecord>, e: Element): (restored: Look)
    ensures restored == look || !restored.highlighted
    ensures e in StyleTargets(R) ==> !restored.highlighted
  {
    if R == [] then look else RestoreLookStep(RestoreLook(look, R[..|R| - 1], e), R[|R| - 1], e)
  }

  /** An element no style record names keeps its look. */
  lemma {:induction false} RestoreLookUntouched(look: Look, R: seq<HighlightRecord>, e: Element)
    requires e !in StyleTargets(R)
    ensures RestoreLook(look, R, e) == look
  {
    if R != [] {
      var init := R[..|R| - 1];
      assert forall r :: r in init ==> r in R;
      assert R[|R| - 1] in R;
      RestoreLookUntouched(look, init, e);
    }
  }

  /** Undoing one more record. */
  lemma RestoreLookSnoc(look: Look, R: seq<HighlightRecord>, i: int, e: Element)
    requires 0 <= i < |R|
    ensures RestoreLook(look, R[..i + 1], e) == RestoreLookStep(RestoreLook(look, R[..i], e), R[i], e)
  {
    assert R[..i + 1][..i] == R[..i];
  }

  // ---------------------------------------------------------------------
  // Undoing and applying the records: the child lists
  // ---------------------------------------------------------------------

  /** What undoing record `r` does to a slot of the child list of `p`: the
      span goes, the original text node comes back. */
  function RestoreStep(x: Node, r: HighlightRecord, p: Element): Node {
    if r.TextNodeRecord? && r.parent == p && x == ElementChild(r.span) then TextChild(r.originalNode) else x
  }

  function RestoreSlot(x: Node, R: seq<HighlightRecord>, p: Element): Node {
    if R == [] then x else RestoreStep(RestoreSlot(x, R[..|R| - 1], p), R[|R| - 1], p)
  }

  /** The child list of `p` after the records are undone one by one. */
  function RestoreChildren(cs: seq<Node>, R: seq<HighlightRecord>, p: Element): (restored: seq<Node>)
    ensures |restored| == |cs|
  {
    seq(|cs|, k requires 0 <= k < |cs| => RestoreSlot(cs[k], R, p))
  }

  /** What applying record `r` does to a slot of the child list of `p`: the
      text node goes, the span takes its place. */
  function HighlightStep(x: Node, r: HighlightRecord, p: Element): Node {
    if r.TextNodeRecord? && r.parent == p && x == TextChild(r.originalNode) then ElementChild(r.span) else x
  }

  function HighlightSlot(x: Node, R: seq<HighlightRecord>, p: Element): Node {
    if R == [] then x else HighlightStep(HighlightSlot(x, R[..|R| - 1], p), R[|R| - 1], p)
  }

  /** The child list of `p` after the swaps the records describe are made
      one by one. */
  function HighlightChildren(cs: seq<Node>, R: seq<HighlightRecord>, p: Element): (highlighted: seq<Node>)
    ensures |highlighted| == |cs|
  {
    seq(|cs|, k requires 0 <= k < |cs| => HighlightSlot(cs[k], R, p))
  }

  /** A slot that holds no span of the records is left alone by undoing. */
  lemma {:induction false} RestoreSlotUntouched(x: Node, R: seq<HighlightRecord>, p: Element)
    requires NotASpan(x, R)
    ensures RestoreSlot(x, R, p) == x
  {
    if R != [] {
      RestoreSlotUntouched(x, R[..|R| - 1], p);
    }
  }

  /** A list of style records names no parent. */
  lemma StylesOnlyNoParents(R: seq<HighlightRecord>)
    requires forall k :: 0 <= k < |R| ==> R[k].StyleRecord?
    ensures Parents(R) == {}
  {
    forall r | r in R ensures r.StyleRecord? {
      var k :| 0 <= k < |R| && R[k] == r;
    }
  }

  /** A parent no text-node record names keeps its children under undoing. */
  lemma RestoreChildrenUntouched(cs: seq<Node>, R: seq<HighlightRecord>, p: Element)
    requires p !in Parents(R)
    ensures RestoreChildren(cs, R, p) == cs
  {
    forall k | 0 <= k < |cs| ensures RestoreSlot(cs[k], R, p) == cs[k] {
      RestoreSlotNoParent(cs[k], R, p);
    }
  }

  lemma {:induction false} RestoreSlotNoParent(x: Node, R: seq<HighlightRecord>, p: Element)
    requires p !in Parents(R)
    ensures RestoreSlot(x, R, p) == x
  {
    if R != [] {
      var init := R[..|R| - 1];
      assert forall r :: r in init ==> r in R;
      assert R[|R| - 1] in R;
      RestoreSlotNoParent(x, init, p);
    }
  }

  /** A parent no text-node record names keeps its children under the swaps. */
  lemma HighlightChildrenUntouched(cs: seq<Node>, R: seq<HighlightRecord>, p: Element)
    requires p !in Parents(R)
    ensures HighlightChildren(cs, R, p) == cs
  {
    forall k | 0 <= k < |cs| ensures HighlightSlot(cs[k], R, p) == cs[k] {
      HighlightSlotNoParent(cs[k], R, p);
    }
  }

  lemma {:induction false} HighlightSlotNoParent(x: Node, R: seq<HighlightRecord>, p: Element)
    requires p !in Parents(R)
    ensures HighlightSlot(x, R, p) == x
  {
    if R != [] {
      var init := R[..|R| - 1];
      assert forall r :: r in init ==> r in R;
      assert R[|R| - 1] in R;
      HighlightSlotNoParent(x, init, p);
    }
  }

  /** Undoing the swaps brings back every slot that did not already hold one
      of the spans, as long as the spans are distinct. */
  lemma {:induction false} RestoreAfterHighlight(x: Node, R: seq<HighlightRecord>, p: Element)
    requires SpansDistinct(R) && NotASpan(x, R)
    ensures RestoreSlot(HighlightSlot(x, R, p), R, p) == x
  {
    if R != [] {
      var init := R[..|R| - 1];
      var r := R[|R| - 1];
      var z := HighlightSlot(x, init, p);
      RestoreAfterHighlight(x, init, p);
      if HighlightStep(z, r, p) != z {
        assert NotASpan(ElementChild(r.span), init);
        RestoreSlotUntouched(ElementChild(r.span), init, p);
        RestoreSlotUntouched(z, init, p);
      }
    }
  }

  /** Undoing the swaps of a child list gives the list back. */
  lemma RestoreChildrenAfterHighlight(cs: seq<Node>, R: seq<HighlightRecord>, p: Element)
    requires SpansDistinct(R)
    requires forall k :: 0 <= k < |cs| ==> NotASpan(cs[k], R)
    ensures RestoreChildren(HighlightChildren(cs, R, p), R, p) == cs
  {
    var h := HighlightChildren(cs, R, p);
    forall k | 0 <= k < |cs| ensures RestoreChildren(h, R, p)[k] == cs[k] {
      RestoreAfterHighlight(cs[k], R, p);
    }
  }

  /** Undoing a list of records that starts with records of another kind
      than text-node swaps is undoing the rest. */
  lemma {:induction false} RestoreSlotAfterStyles(x: Node, S: seq<HighlightRecord>, T: seq<HighlightRecord>, p: Element)
    requires forall k :: 0 <= k < |S| ==> S[k].StyleRecord?
    ensures RestoreSlot(x, S + T, p) == RestoreSlot(x, T, p)
    decreases |T|
  {
    if T == [] {
      assert S + T == S;
      RestoreSlotUntouched(x, S, p);
    } else {
      assert (S + T)[..|S + T| - 1] == S + T[..|T| - 1];
      RestoreSlotAfterStyles(x, S, T[..|T| - 1], p);
    }
  }

  /** The span of a record not yet undone is still where it was. */
  lemma SpanSurvives(cs: seq<Node>, R: seq<HighlightRecord>, i: int, p: Element)
    requires SpansDistinct(R) && 0 <= i < |R| && R[i].TextNodeRecord?
    requires ElementChild(R[i].span) in cs
    ensures ElementChild(R[i].span) in RestoreChildren(cs, R[..i], p)
  {
    var x := ElementChild(R[i].span);
    assert NotASpan(x, R[..i]);
    RestoreSlotUntouched(x, R[..i], p);
    var j :| 0 <= j < |cs| && cs[j] == x;
    assert RestoreChildren(cs, R[..i], p)[j] == x;
  }

  /** Undoing one more record changes at most the children of its parent,
      by the `replaceChild` call it makes. */
  lemma RestoreChildrenSnoc(cs: seq<Node>, R: seq<HighlightRecord>, i: int, p: Element)
    requires 0 <= i < |R|
    ensures RestoreChildren(cs, R[..i + 1], p) ==
      if R[i].TextNodeRecord? && R[i].parent == p
      then Replaced(RestoreChildren(cs, R[..i], p), TextChild(R[i].originalNode), ElementChild(R[i].span))
      else RestoreChildren(cs, R[..i], p)
  {
    assert R[..i + 1][..i] == R[..i];
  }

  /** One more swap changes at most the children of its parent, by the
      `replaceChild` call it makes. */
  lemma HighlightChildrenSnoc(cs: seq<Node>, R: seq<HighlightRecord>, r: HighlightRecord, p: Element)
    ensures HighlightChildren(cs, R + [r], p) ==
      if r.TextNodeRecord? && r.parent == p
      then Replaced(HighlightChildren(cs, R, p), ElementChild(r.span), TextChild(r.originalNode))
      else HighlightChildren(cs, R, p)
  {
    assert (R + [r])[..|R|] == R;
  }

  /** Text-node records do not touch any look. */
  lemma {:induction false} RestoreLookSkipsSwaps(look: Look, R: seq<HighlightRecord>, T: seq<HighlightRecord>, e: Element)
    requires forall k :: 0 <= k < |T| ==> T[k].TextNodeRecord?
    ensures RestoreLook(look, R + T, e) == RestoreLook(look, R, e)
  {
    if T == [] {
      assert R + T == R;
    } else {
      assert (R + T)[..|R + T| - 1] == R + T[..|T| - 1];
      RestoreLookSkipsSwaps(look, R, T[..|T| - 1], e);
    }
  }

  /** Undoing style records followed by the swaps `T` gives back a child
      list that the swaps were made on, as long as the spans are new. */
  lemma UndoSwaps(cs: seq<Node>, S: seq<HighlightRecord>, T: seq<HighlightRecord>, p: Element)
    requires forall k :: 0 <= k < |S| ==> S[k].StyleRecord?
    requires SpansDistinct(T)
    requires forall k :: 0 <= k < |cs| ==> NotASpan(cs[k], T)
    ensures RestoreChildren(HighlightChildren(cs, T, p), S + T, p) == cs
  {
    var h := HighlightChildren(cs, T, p);
    forall k | 0 <= k < |cs| ensures RestoreSlot(h[k], S + T, p) == RestoreSlot(h[k], T, p) {
      RestoreSlotAfterStyles(h[k], S, T, p);
    }
    RestoreChildrenAfterHighlight(cs, T, p);
  }

  // ---------------------------------------------------------------------
  // Collecting the text nodes
  // ---------------------------------------------------------------------

  /** `getTextNodesContaining`: the tree walker visits the text nodes in
      `walk`, in document order, and every node `acceptNode` accepts is
      collected. */
  method GetTextNodesContaining(searchText: string, partialSearch: bool, walk: seq<TextNode>)
    returns (textNodes: seq<TextNode>)
    ensures textNodes == Accepted(walk, searchText, partialSearch)
  {
    textNodes := [];
    var i := 0;
    while i < |walk|
      invariant 0 <= i <= |walk|
      invariant textNodes == Accepted(walk[..i], searchText, partialSearch)
    {
      var node := walk[i];
      assert walk[..i + 1][..i] == walk[..i];
      if AcceptNode(node, searchText, partialSearch) == FilterAccept {
        textNodes := textNodes + [node];
      }
      i := i + 1;
    }
    assert walk[..|walk|] == walk;
  }

  // ---------------------------------------------------------------------
  // The session: the script's `highlightedElements` list and the
  // operations on it
  // ---------------------------------------------------------------------

  class Session {
    /** `highlightedElements`: one undo record per highlight made since the
        last clear, in the order they were made. */
    var highlightedElements: seq<HighlightRecord>

    /** The script is loaded with an empty list. */
    constructor ()
      ensures highlightedElements == []
    {
      highlightedElements := [];
    }

    /** What the model assumes while the records wait to be undone: no
        other script edits the spans or the elements holding them, so every
        span is still a child of the element it was put in; and no two
        records share a span. */
    predicate Valid()
      reads this, Parents(highlightedElements)`children
    {
      && SpansDistinct(highlightedElements)
      && forall k :: 0 <= k < |highlightedElements| && highlightedElements[k].TextNodeRecord? ==>
           ElementChild(highlightedElements[k].span) in highlightedElements[k].parent.children
    }

    /** The look `e` will have once the records are undone. */
    function CleanedLook(e: Element): Look
      reads this, e
    {
      RestoreLook(LookOf(e), highlightedElements, e)
    }

    /** The children `p` will have once the records are undone. */
    function CleanedChildren(p: Element): seq<Node>
      reads this, p
    {
      RestoreChildren(p.children, highlightedElements, p)
    }

    /** With nothing recorded, undoing changes nothing. By the contract of
        `ClearHighlights`, a clear on an empty list therefore leaves every
        element as it is, and a second clear right after a first one does
        nothing more. */
    lemma NothingToUndo()
      requires highlightedElements == []
      ensures forall e: Element :: CleanedLook(e) == LookOf(e)
      ensures forall p: Element :: CleanedChildren(p) == p.children
    {
    }

    /** The callback `clearHighlights` runs on one record: a text-node
        record puts the original node back in place of the span, a style
        record puts back the saved background and font size and drops
        `data-highlighted`. */
    method UndoRecord(item: HighlightRecord)
      requires item.TextNodeRecord? ==> ElementChild(item.span) in item.parent.children
      modifies StyleTarget(item)`backgroundColor, StyleTarget(item)`fontSize,
        StyleTarget(item)`dataHighlighted, ParentOf(item)`children
      ensures item.TextNodeRecord? ==>
        item.parent.children == Replaced(old(item.parent.children), TextChild(item.originalNode), ElementChild(item.span))
      ensures item.StyleRecord? ==> LookOf(item.element) == Look(item.backgroundColor, item.fontSize, false)
    {
      if item.TextNodeRecord? {
        item.parent.ReplaceChild(TextChild(item.originalNode), ElementChild(item.span));
      } else {
        item.element.backgroundColor := item.backgroundColor;
        item.element.fontSize := item.fontSize;
        item.element.dataHighlighted := false;
      }
    }

    /** `clearHighlights`: every record is undone in order (a style record
        puts back the saved background and font size and drops
        `data-highlighted`; a text-node record puts the original node back in
        place of the span), and the list is emptied. */
    method ClearHighlights()
      requires Valid()
      modifies this, StyleTargets(highlightedElements)`backgroundColor,
        StyleTargets(highlightedElements)`fontSize, StyleTargets(highlightedElements)`dataHighlighted,
        Parents(highlightedElements)`children
      ensures Valid() && highlightedElements == []
      ensures forall e: Element :: old(allocated(e)) ==> LookOf(e) == old(CleanedLook(e))
      ensures forall p: Element :: old(allocated(p)) ==> p.children == old(CleanedChildren(p))
    {
      var R := highlightedElements;
      var i := 0;
      while i < |R|
        invariant 0 <= i <= |R|
        invariant highlightedElements == R
        invariant forall e :: e in StyleTargets(R) ==> LookOf(e) == RestoreLook(old(LookOf(e)), R[..i], e)
        invariant forall p :: p in Parents(R) ==> p.children == RestoreChildren(old(p.children), R[..i], p)
      {
        var item := R[i];
        assert item in R;
        if item.TextNodeRecord? {
          SpanSurvives(old(item.parent.children), R, i, item.parent);
        }
        UndoRecord(item);
        forall p | p in Parents(R)
          ensures p.children == RestoreChildren(old(p.children), R[..i + 1], p)
        {
          RestoreChildrenSnoc(old(p.children), R, i, p);
        }
        forall e | e in StyleTargets(R)
          ensures LookOf(e) == RestoreLook(old(LookOf(e)), R[..i + 1], e)
        {
          RestoreLookSnoc(old(LookOf(e)), R, i, e);
        }
        i := i + 1;
      }
      assert R[..|R|] == R;
      highlightedElements := [];
      forall e: Element | old(allocated(e)) ensures LookOf(e) == old(CleanedLook(e)) {
        if e !in StyleTargets(R) {
          RestoreLookUntouched(old(LookOf(e)), R, e);
        }
      }
      forall p: Element | old(allocated(p)) ensures p.children == old(CleanedChildren(p)) {
        if p !in Parents(R) {
          RestoreChildrenUntouched(old(p.children), R, p);
        }
      }
    }
  
    /** `applyHighlight`: the element's background and font size are saved
        in a new record first, then the highlight look is set. */
    method ApplyHighlight(element: Element, bgColor: string, fontSize: string)
      modifies this, element`backgroundColor, element`fontSize, element`dataHighlighted
      ensures highlightedElements ==
        old(highlightedElements) + [StyleRecord(element, old(element.backgroundColor), old(element.fontSize))]
      ensures LookOf(element) == HighlightLook(bgColor, fontSize)
    {
      var originalStyles := StyleRecord(element, element.backgroundColor, element.fontSize);
      highlightedElements := highlightedElements + [originalStyles];
      element.backgroundColor := bgColor;
      element.fontSize := fontSize + "px";
      element.dataHighlighted := true;
    }

    /** `highlightTextNode`: a new span carrying the node's text and the
        highlight style is recorded together with the node and its parent,
        and then takes the node's place in the parent's child list. */
    method HighlightTextNode(node: TextNode, searchText: string, bgColor: string, fontSize: string, partialSearch: bool)
      requires Valid()
      requires TextChild(node) in node.parent.children
      modifies this, node.parent`children
      ensures Valid()
      ensures |highlightedElements| == |old(highlightedElements)| + 1
      ensures var r := highlightedElements[|old(highlightedElements)|];
        && highlightedElements == old(highlightedElements) + [r]
        && SwapRecordFor(r, node, bgColor, fontSize) && fresh(r.span)
        && (node.text != "" ==> fresh(r.span.children[0].node))
        && node.parent.children == Replaced(old(node.parent.children), ElementChild(r.span), TextChild(node))
    {
      var parent := node.parent;
      var text := node.text;
      var span := new Element("SPAN");
      span.backgroundColor := bgColor;
      span.fontSize := fontSize + "px";
      span.dataHighlightedText := true;
      if text != "" {
        var content := new TextNode(text, span);
        span.children := [TextChild(content)];
      }
      ghost var R := highlightedElements;
      highlightedElements := highlightedElements + [TextNodeRecord(span, node, parent)];
      ghost var before := parent.children;
      parent.ReplaceChild(ElementChild(span), TextChild(node));
      ReplacedMembers(before, ElementChild(span), TextChild(node));
      assert highlightedElements[..|R|] == R;
      forall k | 0 <= k < |R| && R[k].TextNodeRecord?
        ensures ElementChild(R[k].span) in R[k].parent.children
      {
        assert R[k] in R;
      }
    }

    /** The callback the `links.forEach` of `performSearch` runs on the
        link at position `i`: when its raw `href` matches, the link is
        highlighted; no other link changes. */
    method VisitLink(links: seq<Element>, i: int, searchUrl: string, bgColor: string, fontSize: string, partialSearch: bool)
      returns (matched: bool)
      requires Distinct(links) && 0 <= i < |links|
      modifies this, {links[i]}`backgroundColor, {links[i]}`fontSize, {links[i]}`dataHighlighted
      ensures matched == LinkMatches(links[i].href, searchUrl, partialSearch)
      ensures highlightedElements == old(highlightedElements)
        + if matched then [StyleRecord(links[i], old(links[i].backgroundColor), old(links[i].fontSize))] else []
      ensures LooksOf(links) == old(LooksOf(links))[i := if matched then HighlightLook(bgColor, fontSize) else old(LookOf(links[i]))]
    {
      var link := links[i];
      var href := link.href;
      matched := LinkMatches(href, searchUrl, partialSearch);
      if matched {
        ApplyHighlight(link, bgColor, fontSize);
      }
    }

    /** The `links.forEach` of `performSearch`: every link whose raw `href`
        matches gets a style record saving its look, in document order, and
        then the highlight look, and is counted; the other links are not
        touched. */
    method HighlightLinks(links: seq<Element>, searchUrl: string, bgColor: string, fontSize: string, partialSearch: bool)
      returns (count: nat)
      requires Distinct(links)
      modifies this, Elements(links)`backgroundColor, Elements(links)`fontSize, Elements(links)`dataHighlighted
      ensures highlightedElements ==
        old(highlightedElements) + LinkRecords(links, old(LooksOf(links)), searchUrl, partialSearch)
      ensures count == |highlightedElements| - |old(highlightedElements)|
      ensures LooksOf(links) == HighlightedLooks(links, old(LooksOf(links)), |links|, searchUrl, bgColor, fontSize, partialSearch)
    {
      ghost var R0 := highlightedElements;
      ghost var looks := LooksOf(links);
      ghost var done: seq<HighlightRecord> := [];
      count := 0;
      var i := 0;
      while i < |links|
        invariant 0 <= i <= |links|
        invariant done == LinkRecords(links[..i], looks[..i], searchUrl, partialSearch)
        invariant highlightedElements == R0 + done
        invariant count == |done|
        invariant LooksOf(links) == HighlightedLooks(links, looks, i, searchUrl, bgColor, fontSize, partialSearch)
      {
        LinkRecordsSnoc(links, looks, i, searchUrl, partialSearch);
        ghost var saved := StyleRecord(links[i], looks[i].backgroundColor, looks[i].fontSize);
        var matched := VisitLink(links, i, searchUrl, bgColor, fontSize, partialSearch);
        HighlightedLooksStep(links, looks, i, searchUrl, bgColor, fontSize, partialSearch);
        if matched {
          AppendSnoc(R0, done, saved);
          done := done + [saved];
          count := count + 1;
        }
        i := i + 1;
      }
      assert links[..|links|] == links;
      assert looks[..|links|] == looks;
    }

    /** Right after the links phase, undoing the records takes each link
        back to its look before the phase, less `data-highlighted`. */
    lemma LinksPhaseUndone(links: seq<Element>, looks: seq<Look>, searchUrl: string,
                           bgColor: string, fontSize: string, partialSearch: bool)
      requires |looks| == |links| && Distinct(links)
      requires highlightedElements == LinkRecords(links, looks, searchUrl, partialSearch)
      requires LooksOf(links) == HighlightedLooks(links, looks, |links|, searchUrl, bgColor, fontSize, partialSearch)
      ensures forall j :: 0 <= j < |links| ==>
        CleanedLook(links[j]) == Unmarked(looks[j], LinkMatches(links[j].href, searchUrl, partialSearch))
    {
      LinksUndone(links, looks, searchUrl, bgColor, fontSize, partialSearch);
    }

    /** The callback the `textNodes.forEach` of `performSearch` runs on the
        node at position `i`: the node is swapped for a highlighted span;
        the nodes still to come stay where they are. */
    method VisitTextNode(textNodes: seq<TextNode>, i: int, searchUrl: string, bgColor: string, fontSize: string, partialSearch: bool)
      requires Valid()
      requires Distinct(textNodes) && 0 <= i < |textNodes|
      requires forall k :: i <= k < |textNodes| ==> TextChild(textNodes[k]) in textNodes[k].parent.children
      modifies this, {textNodes[i].parent}`children
      ensures Valid()
      ensures |highlightedElements| == |old(highlightedElements)| + 1
      ensures var r := highlightedElements[|old(highlightedElements)|];
        && highlightedElements == old(highlightedElements) + [r]
        && SwapRecordFor(r, textNodes[i], bgColor, fontSize) && fresh(r.span)
        && r.parent.children == Replaced(old(textNodes[i].parent.children), ElementChild(r.span), TextChild(textNodes[i]))
      ensures forall k :: i < k < |textNodes| ==> TextChild(textNodes[k]) in textNodes[k].parent.children
    {
      var node := textNodes[i];
      ghost var before := node.parent.children;
      HighlightTextNode(node, searchUrl, bgColor, fontSize, partialSearch);
      ghost var r := highlightedElements[|old(highlightedElements)|];
      ReplacedMembers(before, ElementChild(r.span), TextChild(node));
    }

    /** The `textNodes.forEach` of `performSearch`: each collected node, in
        order, is swapped for a highlighted span and counted. */
    method HighlightTextNodes(count0: nat, textNodes: seq<TextNode>, searchUrl: string, bgColor: string, fontSize: string, partialSearch: bool)
      returns (count: nat)
      requires Valid()
      requires Distinct(textNodes)
      requires forall n :: n in textNodes ==> TextChild(n) in n.parent.children
      modifies this, ParentsOf(textNodes)`children
      ensures Valid()
      ensures count == count0 + |textNodes|
      ensures |old(highlightedElements)| <= |highlightedElements|
      ensures var T := highlightedElements[|old(highlightedElements)|..];
        && highlightedElements == old(highlightedElements) + T
        && |T| == |textNodes| && SwapsOf(T, textNodes)
        && (forall k :: 0 <= k < |T| ==> fresh(T[k].span))
        && SpansFor(T, textNodes, bgColor, fontSize)
        && (forall p :: p in ParentsOf(textNodes) ==> p.children == HighlightChildren(old(p.children), T, p))
    {
      ghost var R0 := highlightedElements;
      ghost var T: seq<HighlightRecord> := [];
      count := count0;
      var i := 0;
      while i < |textNodes|
        invariant 0 <= i <= |textNodes|
        invariant Valid()
        invariant count == count0 + i
        invariant highlightedElements == R0 + T
        invariant |T| == i && SwapsOf(T, textNodes)
        invariant forall k :: 0 <= k < |T| ==> fresh(T[k].span)
        invariant SpansFor(T, textNodes, bgColor, fontSize)
        invariant forall k :: i <= k < |textNodes| ==> TextChild(textNodes[k]) in textNodes[k].parent.children
        invariant forall p :: p in ParentsOf(textNodes) ==> p.children == HighlightChildren(old(p.children), T, p)
      {
        VisitTextNode(textNodes, i, searchUrl, bgColor, fontSize, partialSearch);
        ghost var r := highlightedElements[|R0| + |T|];
        forall p | p in ParentsOf(textNodes)
          ensures p.children == HighlightChildren(old(p.children), T + [r], p)
        {
          HighlightChildrenSnoc(old(p.children), T, r, p);
        }
        SwapsOfSnoc(T, r, textNodes);
        SpansForSnoc(T, r, textNodes, bgColor, fontSize);
        forall k | 0 <= k < |T| + 1 ensures fresh((T + [r])[k].span) {
          if k < |T| {
            assert (T + [r])[k] == T[k];
          }
        }
        AppendSnoc(R0, T, r);
        T := T + [r];
        count := count + 1;
        i := i + 1;
      }
      assert highlightedElements[|R0|..] == T;
    }

    /** Undoing the records after the swaps of `highlightTextNodes`, made
        on top of style records only, puts back every child list as it was
        before the swaps. */
    twostate lemma SwapsUndone(textNodes: seq<TextNode>)
      requires |old(highlightedElements)| <= |highlightedElements|
      requires highlightedElements[..|old(highlightedElements)|] == old(highlightedElements)
      requires forall k :: 0 <= k < |old(highlightedElements)| ==> old(highlightedElements)[k].StyleRecord?
      requires var T := highlightedElements[|old(highlightedElements)|..];
        && SwapsOf(T, textNodes) && SpansDistinct(T)
        && (forall k :: 0 <= k < |T| ==> fresh(T[k].span))
        && (forall p :: p in ParentsOf(textNodes) ==> p.children == HighlightChildren(old(p.children), T, p))
      requires forall p: Element :: old(allocated(p)) && p !in ParentsOf(textNodes) ==> p.children == old(p.children)
      ensures forall p: Element :: old(allocated(p)) ==> CleanedChildren(p) == old(p.children)
    {
      var H := highlightedElements;
      var S, T := H[..|old(highlightedElements)|], H[|old(highlightedElements)|..];
      assert H == S + T;
      forall p: Element | old(allocated(p)) ensures CleanedChildren(p) == old(p.children) {
        var c1 := old(p.children);
        if p !in ParentsOf(textNodes) {
          assert p !in Parents(T);
          HighlightChildrenUntouched(c1, T, p);
        }
        forall k | 0 <= k < |c1| ensures NotASpan(c1[k], T) {
          assert old(allocated(c1[k]));
        }
        UndoSwaps(c1, S, T, p);
      }
    }

    /** The `if (searchText)` block of `performSearch`, which runs once the
        list holds only the style records of the links: when `searchText` is
        set, the text nodes the tree walker's filter accepts are collected,
        then each is swapped for a highlighted span. Undoing the new records
        gives back every child list. */
    method HighlightText(count0: nat, searchText: bool, walk: seq<TextNode>, searchUrl: string, bgColor: string, fontSize: string, partialSearch: bool)
      returns (count: nat)
      requires Valid()
      requires forall k :: 0 <= k < |highlightedElements| ==> highlightedElements[k].StyleRecord?
      requires Distinct(walk)
      requires forall n :: n in walk ==> TextChild(n) in n.parent.children
      modifies this, ParentsOf(Accepted(walk, searchUrl, partialSearch))`children
      ensures Valid()
      ensures var A := if searchText then Accepted(walk, searchUrl, partialSearch) else [];
        && count == count0 + |A|
        && |highlightedElements| == |old(highlightedElements)| + |A|
        && highlightedElements[..|old(highlightedElements)|] == old(highlightedElements)
        && SwapsOf(highlightedElements[|old(highlightedElements)|..], A)
        && SpansFor(highlightedElements[|old(highlightedElements)|..], A, bgColor, fontSize)
        && (forall k :: |old(highlightedElements)| <= k < |highlightedElements| ==>
              highlightedElements[k].TextNodeRecord? && fresh(highlightedElements[k].span))
      ensures forall e: Element :: old(allocated(e)) ==> CleanedLook(e) == old(CleanedLook(e))
      ensures forall p: Element :: old(allocated(p)) ==> CleanedChildren(p) == old(p.children)
    {
      count := count0;
      if searchText {
        var textNodes := GetTextNodesContaining(searchUrl, partialSearch, walk);
        AcceptedDistinct(walk, searchUrl, partialSearch);
        count := HighlightTextNodes(count0, textNodes, searchUrl, bgColor, fontSize, partialSearch);
        ghost var R0, T := old(highlightedElements), highlightedElements[|old(highlightedElements)|..];
        forall e: Element | old(allocated(e)) ensures CleanedLook(e) == old(CleanedLook(e)) {
          RestoreLookSkipsSwaps(LookOf(e), R0, T, e);
        }
        SwapsUndone(textNodes);
      } else {
        StylesOnlyNoParents(highlightedElements);
        forall p: Element | old(allocated(p)) ensures CleanedChildren(p) == p.children {
          RestoreChildrenUntouched(p.children, highlightedElements, p);
        }
        assert highlightedElements[..|highlightedElements|] == highlightedElements;
        assert highlightedElements[|highlightedElements|..] == [];
      }
    }

    /** The matching part of `performSearch`, on a cleared list: every link
        whose raw `href` matches is highlighted, then, when `searchText` is
        set, every text node the filter accepts. */
    method HighlightMatches(data: SearchData, links: seq<Element>, walk: seq<TextNode>) returns (count: nat)
      requires highlightedElements == []
      requires Distinct(links) && Distinct(walk)
      requires forall n :: n in walk ==> TextChild(n) in n.parent.children
      modifies this, Elements(links)`backgroundColor, Elements(links)`fontSize, Elements(links)`dataHighlighted,
        ParentsOf(Accepted(walk, data.searchUrl, data.partialSearch))`children
      ensures Valid()
      ensures var M := Matched(links, data.searchUrl, data.partialSearch);
        && count == |highlightedElements|
           == |M| + (if data.searchText then |Accepted(walk, data.searchUrl, data.partialSearch)| else 0)
        && highlightedElements[..|M|] == LinkRecords(links, old(LooksOf(links)), data.searchUrl, data.partialSearch)
        && (forall k :: 0 <= k < |M| ==> highlightedElements[k].StyleRecord? && highlightedElements[k].element == M[k])
        && SwapsOf(highlightedElements[|M|..], if data.searchText then Accepted(walk, data.searchUrl, data.partialSearch) else [])
        && SpansFor(highlightedElements[|M|..], if data.searchText then Accepted(walk, data.searchUrl, data.partialSearch) else [],
             data.bgColor, data.fontSize)
        && (forall k :: |M| <= k < |highlightedElements| ==> fresh(highlightedElements[k].span))
      ensures forall j :: 0 <= j < |links| ==>
        LookOf(links[j]) == if LinkMatches(links[j].href, data.searchUrl, data.partialSearch)
          then HighlightLook(data.bgColor, data.fontSize) else old(LookOf(links[j]))
      ensures forall j :: 0 <= j < |links| ==>
        CleanedLook(links[j]) == Unmarked(old(LookOf(links[j])), LinkMatches(links[j].href, data.searchUrl, data.partialSearch))
      ensures forall p: Element :: old(allocated(p)) ==> CleanedChildren(p) == old(p.children)
    {
      var searchUrl, bgColor, fontSize, searchText, partialSearch :=
        data.searchUrl, data.bgColor, data.fontSize, data.searchText, data.partialSearch;
      ghost var looks := LooksOf(links);
      count := HighlightLinks(links, searchUrl, bgColor, fontSize, partialSearch);
      ghost var M := Matched(links, searchUrl, partialSearch);
      LinkRecordsMatched(links, looks, searchUrl, partialSearch);
      assert highlightedElements == LinkRecords(links, looks, searchUrl, partialSearch);
      LinksPhaseUndone(links, looks, searchUrl, bgColor, fontSize, partialSearch);
      ghost var linkRecords := highlightedElements;
      assert |linkRecords| == |M|;
      label links:
      count := HighlightText(count, searchText, walk, searchUrl, bgColor, fontSize, partialSearch);
      assert highlightedElements[..|M|] == linkRecords;
      forall k | 0 <= k < |M| ensures highlightedElements[k] == linkRecords[k] {
        assert highlightedElements[..|M|][k] == highlightedElements[k];
      }
      forall j | 0 <= j < |links|
        ensures LookOf(links[j]) == old@links(LookOf(links[j]))
        ensures CleanedLook(links[j]) == old@links(CleanedLook(links[j]))
      {
      }
    }

    /** `performSearch`: the previous highlights are undone, then every link
        whose raw `href` matches is highlighted, then, when `searchText` is
        set, every text node the filter accepts. `links` is what
        `querySelectorAll('a[href]')` returns and `walk` the text nodes the
        tree walker visits, both in document order on the page as it is once
        the previous highlights are undone. The count returned is the
        number of records the list then holds, and undoing them gives back
        the page as the previous clear left it. */
    method PerformSearch(data: SearchData, links: seq<Element>, walk: seq<TextNode>) returns (count: nat)
      requires Valid()
      requires Distinct(links) && Distinct(walk)
      requires forall n :: n in walk ==> TextChild(n) in CleanedChildren(n.parent)
      modifies this, StyleTargets(highlightedElements)`backgroundColor,
        StyleTargets(highlightedElements)`fontSize, StyleTargets(highlightedElements)`dataHighlighted,
        Parents(highlightedElements)`children,
        Elements(links)`backgroundColor, Elements(links)`fontSize, Elements(links)`dataHighlighted,
        ParentsOf(Accepted(walk, data.searchUrl, data.partialSearch))`children
      ensures Valid()
      ensures var M := Matched(links, data.searchUrl, data.partialSearch);
        && count == |highlightedElements|
           == |M| + (if data.searchText then |Accepted(walk, data.searchUrl, data.partialSearch)| else 0)
        && (forall k :: 0 <= k < |M| ==> highlightedElements[k].StyleRecord? && highlightedElements[k].element == M[k])
        && SwapsOf(highlightedElements[|M|..], if data.searchText then Accepted(walk, data.searchUrl, data.partialSearch) else [])
        && SpansFor(highlightedElements[|M|..], if data.searchText then Accepted(walk, data.searchUrl, data.partialSearch) else [],
             data.bgColor, data.fontSize)
        && (forall k :: |M| <= k < |highlightedElements| ==> fresh(highlightedElements[k].span))
      ensures forall j :: 0 <= j < |links| ==>
        LookOf(links[j]) == if LinkMatches(links[j].href, data.searchUrl, data.partialSearch)
          then HighlightLook(data.bgColor, data.fontSize) else old(CleanedLook(links[j]))
      ensures forall e: Element :: old(allocated(e)) && e !in links ==> LookOf(e) == old(CleanedLook(e))
      ensures forall j :: 0 <= j < |links| ==>
        CleanedLook(links[j]) == Unmarked(old(CleanedLook(links[j])), LinkMatches(links[j].href, data.searchUrl, data.partialSearch))
      ensures forall p: Element :: old(allocated(p)) ==> CleanedChildren(p) == old(CleanedChildren(p))
    {
      ClearHighlights();
      count := HighlightMatches(data, links, walk);
    }

    /** The `chrome.runtime.onMessage` listener. A `search` request runs
        `performSearch` and answers with the count, a `clear` request undoes
        every highlight and answers `{ success: true }`, and any other
        action gets no answer and changes nothing. `links` and `walk` stand
        for what the page's queries return during the search. */
    method OnMessage(request: Request, links: seq<Element>, walk: seq<TextNode>) returns (response: Option<Response>)
      requires Valid()
      requires Distinct(links) && Distinct(walk)
      requires forall n :: n in walk ==> TextChild(n) in CleanedChildren(n.parent)
      modifies this, StyleTargets(highlightedElements)`backgroundColor,
        StyleTargets(highlightedElements)`fontSize, StyleTargets(highlightedElements)`dataHighlighted,
        Parents(highlightedElements)`children,
        Elements(links)`backgroundColor, Elements(links)`fontSize, Elements(links)`dataHighlighted,
        ParentsOf(Accepted(walk, request.data.searchUrl, request.data.partialSearch))`children
      ensures Valid()
      ensures request.action == "search" ==>
        var data := request.data;
        var M := Matched(links, data.searchUrl, data.partialSearch);
        var A := if data.searchText then Accepted(walk, data.searchUrl, data.partialSearch) else [];
        && response == Some(CountResponse(|highlightedElements|))
        && |highlightedElements| == |M| + |A|
        && (forall k :: 0 <= k < |M| ==> highlightedElements[k].StyleRecord? && highlightedElements[k].element == M[k])
        && SwapsOf(highlightedElements[|M|..], A)
        && SpansFor(highlightedElements[|M|..], A, data.bgColor, data.fontSize)
        && (forall k :: |M| <= k < |highlightedElements| ==> fresh(highlightedElements[k].span))
      ensures request.action == "search" ==>
        var data := request.data;
        && (forall j :: 0 <= j < |links| ==>
              LookOf(links[j]) == if LinkMatches(links[j].href, data.searchUrl, data.partialSearch)
                then HighlightLook(data.bgColor, data.fontSize) else old(CleanedLook(links[j])))
        && (forall j :: 0 <= j < |links| ==>
              CleanedLook(links[j]) == Unmarked(old(CleanedLook(links[j])), LinkMatches(links[j].href, data.searchUrl, data.partialSearch)))
        && (forall e: Element :: old(allocated(e)) && e !in links ==> LookOf(e) == old(CleanedLook(e)))
        && (forall p: Element :: old(allocated(p)) ==> CleanedChildren(p) == old(CleanedChildren(p)))
      ensures request.action == "clear" ==>
        && response == Some(SuccessResponse(true))
        && highlightedElements == []
        && (forall e: Element :: old(allocated(e)) ==> LookOf(e) == old(CleanedLook(e)))
        && (forall p: Element :: old(allocated(p)) ==> p.children == old(CleanedChildren(p)))
      ensures request.action != "search" && request.action != "clear" ==>
        response == None && highlightedElements == old(highlightedElements)
    {
      if request.action == "search" {
        var count := PerformSearch(request.data, links, walk);
        response := Some(CountResponse(count));
      } else if request.action == "clear" {
        ClearHighlights();
        response := Some(SuccessResponse(true));
      } else {
        response := None;
      }
    }
  }
}

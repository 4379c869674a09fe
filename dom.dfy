/** The part of the page's document object model the content script touches:
    elements with their inline style and marker attributes, text nodes, and
    the child lists that `replaceChild` edits. */
module Dom {

  /** A node in an element's child list. */
  datatype Node = TextChild(node: TextNode) | ElementChild(element: Element)

  /** An element of the page. */
  class Element {
    /** `element.tagName`, upper case for HTML elements. */
    const tagName: string
    /** The raw value of the `href` attribute; `''` for an element created by
        the script. */
    const href: string
    /** `element.style.backgroundColor`, an opaque CSS value. */
    var backgroundColor: string
    /** `element.style.fontSize`, an opaque CSS value. */
    var fontSize: string
    /** Whether the `data-highlighted` attribute is present. */
    var dataHighlighted: bool
    /** Whether the `data-highlighted-text` attribute is present. */
    var dataHighlightedText: bool
    /** The child nodes, in document order. */
    var children: seq<Node>

    /** `document.createElement(tagName)`: no inline style, no attribute and
        no child. */
    constructor (tagName: string)
      ensures this.tagName == tagName && href == ""
      ensures backgroundColor == "" && fontSize == ""
      ensures !dataHighlighted && !dataHighlightedText && children == []
    {
      this.tagName := tagName;
      href := "";
      backgroundColor := "";
      fontSize := "";
      dataHighlighted := false;
      dataHighlightedText := false;
      children := [];
    }

    /** `parent.replaceChild(newChild, oldChild)`. The DOM throws a
        `NotFoundError` when `oldChild` is not a child, which is why the
        caller must show that it is. */
    method ReplaceChild(newChild: Node, oldChild: Node)
      requires oldChild in children
      modifies this`children
      ensures children == Replaced(old(children), newChild, oldChild)
    {
      children := Replaced(children, newChild, oldChild);
    }
  }

  /** A text node: its `textContent` and the element it was found in. */
  class TextNode {
    const text: string
    const parent: Element

    constructor (text: string, parent: Element)
      ensures this.text == text && this.parent == parent
    {
      this.text := text;
      this.parent := parent;
    }
  }

  /** The child list after `oldChild` is replaced by `newChild`: every slot
      keeps its place, and only the slot holding `oldChild` changes. */
  function Replaced(children: seq<Node>, newChild: Node, oldChild: Node): (r: seq<Node>)
    ensures |r| == |children|
  {
    seq(|children|, k requires 0 <= k < |children| =>
      if children[k] == oldChild then newChild else children[k])
  }

  /** A child that occurs once is replaced in its own slot, and nothing else
      in the list changes. */
  lemma ReplacedAt(children: seq<Node>, newChild: Node, oldChild: Node, j: int)
    requires 0 <= j < |children| && children[j] == oldChild
    requires forall k :: 0 <= k < |children| && k != j ==> children[k] != oldChild
    ensures Replaced(children, newChild, oldChild) == children[j := newChild]
  {
    var r := Replaced(children, newChild, oldChild);
    forall k | 0 <= k < |children| ensures r[k] == children[j := newChild][k] {
    }
  }

  /** After the replacement `newChild` is a child if `oldChild` was, and
      every other child stays a child. */
  lemma ReplacedMembers(children: seq<Node>, newChild: Node, oldChild: Node)
    ensures oldChild in children ==> newChild in Replaced(children, newChild, oldChild)
    ensures forall x :: x in children && x != oldChild ==> x in Replaced(children, newChild, oldChild)
  {
    var r := Replaced(children, newChild, oldChild);
    if oldChild in children {
      var j :| 0 <= j < |children| && children[j] == oldChild;
      assert r[j] == newChild;
    }
    forall x | x in children && x != oldChild ensures x in r {
      var j :| 0 <= j < |children| && children[j] == x;
      assert r[j] == x;
    }
  }

  /** Putting the old child back in place of a new one that was not in the
      list before gives the original list. */
  lemma ReplacedBack(children: seq<Node>, newChild: Node, oldChild: Node)
    requires newChild !in children
    ensures Replaced(Replaced(children, newChild, oldChild), oldChild, newChild) == children
  {
    var r := Replaced(Replaced(children, newChild, oldChild), oldChild, newChild);
    forall k | 0 <= k < |children| ensures r[k] == children[k] {
      assert children[k] != newChild;
    }
  }
}

/** The abstract DOM the routine works on: elements in document order, their
    class lists and `data-equalize` attribute, their natural heights, and the
    inline `style.height` values the routine reads and writes. */
module Dom {
  import opened Common

  /** The reserved class prefix that marks an element for equalization. */
  const Prefix: string := "eh-"

  /** A `DOMTokenList`: the element's classes in declaration order, each once. */
  type ClassList = s: seq<string> | NoDup(s)

  /** An element as the routine sees it. `dataEqualize` is the value of the
      `data-equalize` attribute (`None` when the attribute is absent);
      `natural` is the height in whole pixels the element reports through
      `offsetHeight` while its inline height is `auto`. */
  datatype Element = Element(dataEqualize: Option<string>, classes: ClassList, natural: nat)

  /** An element is identified by its position in document order. */
  type Node = nat

  type Document = seq<Element>

  /** An inline `style.height` value this routine writes. */
  datatype Height = Auto | Px(px: nat)

  /** Inline heights by node; a node that is not a key carries no inline height. */
  type Styles = map<Node, Height>

  function Inline(styles: Styles, n: Node): Option<Height> {
    if n in styles then Some(styles[n]) else None
  }

  /** Every node in `nodes` is an element of `doc`. */
  predicate ValidNodes(doc: Document, nodes: seq<Node>) {
    forall i :: 0 <= i < |nodes| ==> nodes[i] < |doc|
  }

  /** The selector `[class*="eh-"]`. A class token never contains whitespace and
      neither does the prefix, so the class attribute contains the prefix exactly
      when one of its tokens does. */
  predicate ClassMentionsPrefix(e: Element) {
    exists i :: 0 <= i < |e.classes| && Contains(e.classes[i], Prefix)
  }

  /** The natural height of node `n` (a node outside the document has none). */
  function Natural(doc: Document, n: Node): nat {
    if n < |doc| then doc[n].natural else 0
  }

  /** `el.offsetHeight`: an explicit pixel height is what the element reports
      (heights are border-box); with no inline height, or `auto`, it reports its
      natural height. */
  function OffsetHeight(doc: Document, styles: Styles, n: Node): nat {
    match Inline(styles, n)
    case Some(Px(p)) => p
    case _ => Natural(doc, n)
  }

  /** `nodes.forEach(el => { el.style.height = h; })`: the writes happen in
      order, and each member ends with `h`; no other node changes. */
  function SetAll(styles: Styles, nodes: seq<Node>, h: Height): (r: Styles)
    ensures forall i :: 0 <= i < |nodes| ==> Inline(r, nodes[i]) == Some(h)
    ensures forall n :: n !in nodes ==> Inline(r, n) == Inline(styles, n)
  {
    if |nodes| == 0 then styles
    else SetAll(styles, nodes[..|nodes| - 1], h)[nodes[|nodes| - 1] := h]
  }
}

/**
 * The parsed document tree the link extractor walks.
 *
 * The tree of `golang.org/x/net/html` links each node to its first child and
 * next sibling; here a node owns the ordered sequence of its children, which
 * is the same tree read left to right. Tag names are those the parser
 * produced (already lower-cased), so an anchor is matched on exactly "a".
 */
module Html {

  /** One attribute of an element, in source order. */
  datatype Attr = Attr(key: string, val: string)

  datatype Node =
    | Element(tag: string, attrs: seq<Attr>, children: seq<Node>)
    | Text(data: string)
    | Other(children: seq<Node>)  // document, comment, doctype: no text, no link

  /** The children of a node; a text node has none. */
  function Children(n: Node): seq<Node> {
    match n
    case Element(_, _, cs) => cs
    case Text(_) => []
    case Other(cs) => cs
  }

  /** The attributes of a node; only elements carry any. */
  function Attrs(n: Node): seq<Attr> {
    if n.Element? then n.attrs else []
  }

  /** An element node whose tag is exactly "a". */
  predicate IsAnchor(n: Node) {
    n.Element? && n.tag == "a"
  }

  /** Every node of the tree rooted at `n`, parent first, children left to right. */
  function PreOrder(n: Node): (r: seq<Node>)
    ensures |r| > 0 && r[0] == n
  {
    match n
    case Element(_, _, cs) => [n] + PreOrderSeq(cs)
    case Text(_) => [n]
    case Other(cs) => [n] + PreOrderSeq(cs)
  }

  /** The pre-order node sequences of a list of sibling trees, one after the other. */
  function PreOrderSeq(cs: seq<Node>): seq<Node> {
    if cs == [] then [] else PreOrder(cs[0]) + PreOrderSeq(cs[1..])
  }

  lemma {:induction false} PreOrderSeqAppend(a: seq<Node>, b: seq<Node>)
    ensures PreOrderSeq(a + b) == PreOrderSeq(a) + PreOrderSeq(b)
  {
    if a != [] {
      assert (a + b)[1..] == a[1..] + b;
      PreOrderSeqAppend(a[1..], b);
    } else {
      assert a + b == b;
    }
  }
}

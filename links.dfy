/**
 * The link extractor: one `Link` per anchor element of a parsed document,
 * in document order.
 */
module Links {
  import opened Html
  import opened LinkText

  /** The record reported for one anchor. */
  datatype Link = Link(href: string, text: string)

  datatype Option<T> = None | Some(value: T)

  /** `(*Link).String`: "Link: ", the href, ", Text: ", the text. */
  function Format(l: Link): (r: string)
    ensures |r| == 14 + |l.href| + |l.text|
    ensures r[..6] == "Link: " && r[6..6 + |l.href|] == l.href
    ensures r[6 + |l.href|..14 + |l.href|] == ", Text: " && r[14 + |l.href|..] == l.text
  {
    "Link: " + l.href + ", Text: " + l.text
  }

  /**
   * Reads a formatted link back: the href runs from after "Link: " up to the
   * first ", Text: ", and the text is everything after it.
   */
  function ParseLine(s: string): Option<Link> {
    if |s| < 6 || s[..6] != "Link: " then None
    else
      match FindSeparator(s, 6)
      case None => None
      case Some(i) => Some(Link(s[6..i], s[i + 8..]))
  }

  /** ", Text: " occurs in `s` at position `j`. */
  predicate SeparatorAt(s: string, j: nat) {
    j + 8 <= |s| && s[j..j + 8] == ", Text: "
  }

  /** The first position at or after `from` where ", Text: " occurs in `s`. */
  function FindSeparator(s: string, from: nat): (r: Option<nat>)
    requires from <= |s|
    ensures r.Some? ==> from <= r.value && SeparatorAt(s, r.value)
    ensures r.Some? ==> forall j :: from <= j < r.value ==> !SeparatorAt(s, j)
    ensures r.None? ==> forall j :: from <= j ==> !SeparatorAt(s, j)
    decreases |s| - from
  {
    if |s| < from + 8 then None
    else if SeparatorAt(s, from) then Some(from)
    else FindSeparator(s, from + 1)
  }

  /** A link whose href contains no comma is recovered from its formatted line. */
  lemma ParseFormat(l: Link)
    requires forall i :: 0 <= i < |l.href| ==> l.href[i] != ','
    ensures ParseLine(Format(l)) == Some(l)
  {
    var s := Format(l);
    var at := 6 + |l.href|;
    assert s[..6] == "Link: ";
    assert s[6..at] == l.href;
    assert s[at..at + 8] == ", Text: ";
    assert s[at + 8..] == l.text;
    var r := FindSeparator(s, 6);
    forall j | 6 <= j < at
      ensures !SeparatorAt(s, j)
    {
      assert s[j] == l.href[j - 6];
      assert s[j..j + 8][0] == s[j];
    }
    assert SeparatorAt(s, at);
    assert r == Some(at);
  }

  /** The value of the first attribute whose key is "href", or "" if there is none. */
  function FirstHref(attrs: seq<Attr>): (r: string)
    ensures (forall i :: 0 <= i < |attrs| ==> attrs[i].key != "href") ==> r == ""
    ensures forall i :: (0 <= i < |attrs| && attrs[i].key == "href"
                         && forall j :: 0 <= j < i ==> attrs[j].key != "href") ==> r == attrs[i].val
  {
    if attrs == [] then ""
    else if attrs[0].key == "href" then attrs[0].val
    else
      var rest := FirstHref(attrs[1..]);
      assert forall i :: 1 <= i < |attrs| ==> attrs[i] == attrs[1..][i - 1];
      rest
  }

  /** The link `newLinkFromNode` makes of `n`. */
  function NewLink(n: Node): Link {
    Link(FirstHref(Attrs(n)), Label(n))
  }

  /** The links `traverseLinks` appends for the tree `n`: its own, then its children's. */
  function Anchors(n: Node): seq<Link> {
    match n
    case Element(_, _, cs) => (if IsAnchor(n) then [NewLink(n)] else []) + AnchorsSeq(cs)
    case Text(_) => []
    case Other(cs) => AnchorsSeq(cs)
  }

  function AnchorsSeq(cs: seq<Node>): seq<Link> {
    if cs == [] then [] else Anchors(cs[0]) + AnchorsSeq(cs[1..])
  }

  /** Reference reading: one link for each anchor among `ns`, in order. */
  function LinksOf(ns: seq<Node>): seq<Link> {
    if ns == [] then []
    else (if IsAnchor(ns[0]) then [NewLink(ns[0])] else []) + LinksOf(ns[1..])
  }

  /** The number of anchors among `ns`. */
  function AnchorCount(ns: seq<Node>): nat {
    if ns == [] then 0 else (if IsAnchor(ns[0]) then 1 else 0) + AnchorCount(ns[1..])
  }

  // ---------------------------------------------------------------------------
  // Lemmas on node sequences

  lemma {:induction false} AnchorsSeqAppend(a: seq<Node>, b: seq<Node>)
    ensures AnchorsSeq(a + b) == AnchorsSeq(a) + AnchorsSeq(b)
  {
    if a == [] {
      assert a + b == b;
    } else {
      assert (a + b)[1..] == a[1..] + b;
      AnchorsSeqAppend(a[1..], b);
    }
  }

  lemma {:induction false} LinksOfAppend(a: seq<Node>, b: seq<Node>)
    ensures LinksOf(a + b) == LinksOf(a) + LinksOf(b)
  {
    if a == [] {
      assert a + b == b;
    } else {
      assert (a + b)[1..] == a[1..] + b;
      LinksOfAppend(a[1..], b);
    }
  }

  lemma {:induction false} AnchorCountAppend(a: seq<Node>, b: seq<Node>)
    ensures AnchorCount(a + b) == AnchorCount(a) + AnchorCount(b)
  {
    if a == [] {
      assert a + b == b;
    } else {
      assert (a + b)[1..] == a[1..] + b;
      AnchorCountAppend(a[1..], b);
    }
  }

  /** There is one link per anchor. */
  lemma {:induction false} LinksOfCount(ns: seq<Node>)
    ensures |LinksOf(ns)| == AnchorCount(ns)
  {
    if ns != [] {
      LinksOfCount(ns[1..]);
    }
  }

  /** The anchor at position `i` gives the link numbered by the anchors before it. */
  lemma {:induction false} LinksOfAt(ns: seq<Node>, i: nat)
    requires i < |ns| && IsAnchor(ns[i])
    ensures AnchorCount(ns[..i]) < |LinksOf(ns)|
    ensures LinksOf(ns)[AnchorCount(ns[..i])] == NewLink(ns[i])
  {
    assert ns == ns[..i] + ns[i..];
    assert ns[i..] == [ns[i]] + ns[i + 1..];
    LinksOfAppend(ns[..i], ns[i..]);
    LinksOfAppend([ns[i]], ns[i + 1..]);
    LinksOfCount(ns[..i]);
    assert LinksOf([ns[i]]) == [NewLink(ns[i])] + LinksOf([]);
  }

  /** An anchor's number is smaller than that of every later node. */
  lemma AnchorCountIncreases(ns: seq<Node>, i: nat, j: nat)
    requires i < j <= |ns| && IsAnchor(ns[i])
    ensures AnchorCount(ns[..i]) < AnchorCount(ns[..j])
  {
    assert ns[..j] == ns[..i] + [ns[i]] + ns[i + 1..j];
    AnchorCountAppend(ns[..i] + [ns[i]], ns[i + 1..j]);
    AnchorCountAppend(ns[..i], [ns[i]]);
    assert AnchorCount([ns[i]]) == 1 + AnchorCount([]);
  }

  // ---------------------------------------------------------------------------
  // The links of a tree follow its pre-order

  lemma {:induction false} AnchorsArePreOrder(n: Node)
    ensures Anchors(n) == LinksOf(PreOrder(n))
    decreases n, 1
  {
    match n
    case Text(_) =>
    case Element(_, _, cs) =>
      AnchorsSeqArePreOrder(cs);
      LinksOfAppend([n], PreOrderSeq(cs));
    case Other(cs) =>
      AnchorsSeqArePreOrder(cs);
      LinksOfAppend([n], PreOrderSeq(cs));
  }

  lemma {:induction false} AnchorsSeqArePreOrder(cs: seq<Node>)
    ensures AnchorsSeq(cs) == LinksOf(PreOrderSeq(cs))
    decreases cs, 0
  {
    if cs != [] {
      AnchorsArePreOrder(cs[0]);
      AnchorsSeqArePreOrder(cs[1..]);
      LinksOfAppend(PreOrder(cs[0]), PreOrderSeq(cs[1..]));
    }
  }

  /** The number of links is the number of anchors anywhere in the tree, nested ones included. */
  lemma LinkCount(n: Node)
    ensures |Anchors(n)| == AnchorCount(PreOrder(n))
  {
    AnchorsArePreOrder(n);
    LinksOfCount(PreOrder(n));
  }

  /**
   * The anchor at pre-order position `i` gives the link numbered by the anchors
   * before it, so it comes before the links of its descendants and of every
   * node visited after it.
   */
  lemma LinkOfAnchor(n: Node, i: nat)
    requires i < |PreOrder(n)| && IsAnchor(PreOrder(n)[i])
    ensures AnchorCount(PreOrder(n)[..i]) < |Anchors(n)|
    ensures Anchors(n)[AnchorCount(PreOrder(n)[..i])] == NewLink(PreOrder(n)[i])
    ensures forall j :: i < j <= |PreOrder(n)| ==> AnchorCount(PreOrder(n)[..i]) < AnchorCount(PreOrder(n)[..j])
  {
    var p := PreOrder(n);
    AnchorsArePreOrder(n);
    LinksOfAt(p, i);
    forall j | i < j <= |p|
      ensures AnchorCount(p[..i]) < AnchorCount(p[..j])
    {
      AnchorCountIncreases(p, i, j);
    }
  }

  // ---------------------------------------------------------------------------
  // The imperative walk

  /** `newLinkFromNode`: scans the attributes for the first "href", then builds the label. */
  method NewLinkFromNode(n: Node) returns (l: Link)
    ensures l == NewLink(n)
  {
    var attrs := Attrs(n);
    var href := "";
    var i := 0;
    while i < |attrs|
      invariant 0 <= i <= |attrs|
      invariant forall j :: 0 <= j < i ==> attrs[j].key != "href"
      invariant href == ""
    {
      if attrs[i].key == "href" {
        href := attrs[i].val;
        break;
      }
      i := i + 1;
    }
    var sb := new Builder();
    TraverseText(n, sb);
    l := Link(href, sb.buf);
  }

  /** `traverseLinks`: appends the links of the tree `n` to `allLinks`. */
  method TraverseLinks(n: Node, allLinks: seq<Link>) returns (out: seq<Link>)
    ensures out == allLinks + Anchors(n)
    decreases n
  {
    out := allLinks;
    if n.Element? && n.tag == "a" {
      var l := NewLinkFromNode(n);
      out := out + [l];
    }
    var cs := if n.Text? then [] else n.children;
    ghost var start := out;
    var i := 0;
    while i < |cs|
      invariant 0 <= i <= |cs|
      invariant out == start + AnchorsSeq(cs[..i])
    {
      out := TraverseLinks(cs[i], out);
      AnchorsNextChild(cs, i);
      i := i + 1;
    }
    assert cs[..i] == cs;
    assert Anchors(n) == (if IsAnchor(n) then [NewLink(n)] else []) + AnchorsSeq(cs);
  }

  /** The sibling loop of `TraverseLinks` appends one more child's links per round. */
  lemma AnchorsNextChild(cs: seq<Node>, i: nat)
    requires i < |cs|
    ensures AnchorsSeq(cs[..i + 1]) == AnchorsSeq(cs[..i]) + Anchors(cs[i])
  {
    assert cs[..i + 1] == cs[..i] + [cs[i]];
    AnchorsSeqAppend(cs[..i], [cs[i]]);
    assert AnchorsSeq([cs[i]]) == Anchors(cs[i]) + AnchorsSeq([]);
  }

  // ---------------------------------------------------------------------------
  // Examples
  //
  // Dafny unfolds a function applied to literal arguments without bound, so
  // the examples pass their strings and trees in as parameters fixed by a
  // `requires`, and compute the trimmed payloads, the text pieces and the
  // join in separate small lemmas.

  lemma AnchorsSeqCons(c: Node, rest: seq<Node>)
    ensures AnchorsSeq([c] + rest) == Anchors(c) + AnchorsSeq(rest)
  {
    assert ([c] + rest)[1..] == rest;
  }

  /** `<a href="/x">Go <b>Here</b></a>` gives one link, "/x" labelled "Go Here". */
  lemma GoHereExample(doc: Node)
    requires doc == Element("a", [Attr("href", "/x")], [Text("Go "), Element("b", [], [Text("Here")])])
    ensures Anchors(doc) == [Link("/x", "Go Here")]
  {
    var b := Element("b", [], [Text("Here")]);
    AnchorsSeqCons(Text("Here"), []);
    AnchorsSeqCons(b, []);
    AnchorsSeqCons(Text("Go "), [b]);
    assert [Text("Here")] + [] == [Text("Here")];
    assert [b] + [] == [b];
    assert [Text("Go ")] + [b] == doc.children;
    assert AnchorsSeq(doc.children) == [];
    GoHereTrims("Go ", "Here");
    GoHereLabel(doc, "Go ", "Here");
  }

  lemma GoHereTrims(go: string, here: string)
    requires go == "Go " && here == "Here"
    ensures Trim.TrimString(go) == "Go" && Trim.TrimString(here) == "Here"
  {
    Trim.TrimUnique(go, Trim.Whitespace, 0, "Go");
    Trim.TrimUnique(here, Trim.Whitespace, 0, "Here");
  }

  lemma GoHereLabel(doc: Node, go: string, here: string)
    requires Trim.TrimString(go) == "Go" && Trim.TrimString(here) == "Here"
    requires doc == Element("a", [Attr("href", "/x")], [Text(go), Element("b", [], [Text(here)])])
    ensures NewLink(doc) == Link("/x", "Go Here")
  {
    GoHerePieces(doc.children, go, here);
    assert TextsOf(doc) == ["Go", "Here"];
    GoHereJoin();
    assert FirstHref(Attrs(doc)) == "/x";
  }

  lemma GoHereJoin()
    ensures Join("", ["Go", "Here"]) == "Go Here"
  {
    assert Step("", "Go") == "Go";
    assert Step("Go", "Here") == "Go Here";
    assert ["Go", "Here"][1..] == ["Here"];
    assert ["Here"][1..] == [];
  }

  lemma GoHerePieces(cs: seq<Node>, go: string, here: string)
    requires Trim.TrimString(go) == "Go" && Trim.TrimString(here) == "Here"
    requires cs == [Text(go), Element("b", [], [Text(here)])]
    ensures TextsOfSeq(cs) == ["Go", "Here"]
  {
    var b := Element("b", [], [Text(here)]);
    TextsOfSeqCons(Text(here), []);
    TextsOfSeqCons(b, []);
    TextsOfSeqCons(Text(go), [b]);
    assert [Text(here)] + [] == [Text(here)];
    assert [b] + [] == [b];
    assert [Text(go)] + [b] == cs;
  }

  /**
   * An anchor nested in another is reported after it, with its own first
   * href; its text belongs to both labels.
   */
  lemma NestedAnchorsExample(doc: Node)
    requires doc == Element("a", [Attr("href", "/outer")],
                            [Element("a", [Attr("href", "/inner"), Attr("href", "/later")], [Text("x")])])
    ensures Anchors(doc) == [Link("/outer", "x"), Link("/inner", "x")]
  {
    NestedTrim("x");
    NestedAnchorsLinks(doc, "x");
  }

  lemma NestedTrim(x: string)
    requires x == "x"
    ensures Trim.TrimString(x) == "x"
  {
    Trim.TrimUnique(x, Trim.Whitespace, 0, "x");
  }

  lemma NestedAnchorsLinks(doc: Node, x: string)
    requires Trim.TrimString(x) == "x"
    requires doc == Element("a", [Attr("href", "/outer")],
                            [Element("a", [Attr("href", "/inner"), Attr("href", "/later")], [Text(x)])])
    ensures Anchors(doc) == [Link("/outer", "x"), Link("/inner", "x")]
  {
    var inner := doc.children[0];
    TextsOfSeqCons(Text(x), []);
    assert [Text(x)] + [] == inner.children;
    assert TextsOf(inner) == ["x"];
    TextsOfSeqCons(inner, []);
    assert [inner] + [] == doc.children;
    assert TextsOf(doc) == ["x"];
    assert Join("", ["x"]) == "x" by {
      assert Step("", "x") == "x";
      assert ["x"][1..] == [];
    }
    AnchorsSeqCons(Text(x), []);
    AnchorsSeqCons(inner, []);
    assert Anchors(inner) == [Link("/inner", "x")];
    assert Anchors(doc) == [Link("/outer", "x")] + [Link("/inner", "x")];
  }
}

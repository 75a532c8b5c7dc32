/**
 * The label of a link: the trimmed payloads of the text nodes below an
 * anchor, written into a string builder one after another.
 *
 * The builder writes a single space before a payload exactly when it already
 * holds something, and it decides that before looking at the payload. So a
 * payload that trims to "" still gets its separator once the label has begun,
 * which leaves a trailing space or a double space; before the label has begun,
 * such a payload writes nothing at all.
 */
module LinkText {
  import opened Html
  import opened Trim

  /** What one text node with trimmed payload `piece` does to the builder contents `buf`. */
  function Step(buf: string, piece: string): string {
    (if |buf| > 0 then buf + " " else buf) + piece
  }

  /** The builder contents after writing `pieces` one by one, starting from `buf`. */
  function Join(buf: string, pieces: seq<string>): string
    decreases |pieces|
  {
    if pieces == [] then buf else Join(Step(buf, pieces[0]), pieces[1..])
  }

  /** The trimmed payloads of the text nodes under `n`, in the order the walk reaches them. */
  function TextsOf(n: Node): seq<string> {
    match n
    case Element(_, _, cs) => TextsOfSeq(cs)
    case Text(data) => [TrimString(data)]
    case Other(cs) => TextsOfSeq(cs)
  }

  function TextsOfSeq(cs: seq<Node>): seq<string> {
    if cs == [] then [] else TextsOf(cs[0]) + TextsOfSeq(cs[1..])
  }

  /** The label `newLinkFromNode` builds for `n`, starting from an empty builder. */
  function Label(n: Node): string {
    Join("", TextsOf(n))
  }

  /** Reference reading: the trimmed payloads of the text nodes among `ns`, in order. */
  function TextPieces(ns: seq<Node>): seq<string> {
    if ns == [] then []
    else (if ns[0].Text? then [TrimString(ns[0].data)] else []) + TextPieces(ns[1..])
  }

  /** A piece with no white space at either end. */
  predicate Trimmed(p: string) {
    p != [] ==> !IsSpace(p[0]) && !IsSpace(p[|p| - 1])
  }

  /** `strings.Join(ws, " ")`: the words separated by single spaces. */
  function JoinWords(ws: seq<string>): string {
    if ws == [] then "" else ws[0] + Spaced(ws[1..])
  }

  /** Each word preceded by one space. */
  function Spaced(ws: seq<string>): string {
    if ws == [] then "" else " " + ws[0] + Spaced(ws[1..])
  }

  /** `ps` without the empty pieces that come before its first non-empty one. */
  function DropLeadingEmpty(ps: seq<string>): (r: seq<string>)
    ensures |r| <= |ps| && r == ps[|ps| - |r|..]
    ensures forall i :: 0 <= i < |ps| - |r| ==> ps[i] == ""
    ensures r != [] ==> r[0] != ""
  {
    if ps == [] || ps[0] != "" then ps else DropLeadingEmpty(ps[1..])
  }

  /** The non-empty pieces of `ps`, in order. */
  function NonEmpty(ps: seq<string>): (r: seq<string>)
    ensures |r| <= |ps|
    ensures forall i :: 0 <= i < |r| ==> r[i] != ""
    ensures (forall i :: 0 <= i < |ps| ==> ps[i] != "") ==> r == ps
  {
    if ps == [] then []
    else if ps[0] == "" then NonEmpty(ps[1..])
    else [ps[0]] + NonEmpty(ps[1..])
  }

  function TotalLength(ps: seq<string>): nat {
    if ps == [] then 0 else |ps[0]| + TotalLength(ps[1..])
  }

  function EmptyCount(ps: seq<string>): nat {
    if ps == [] then 0 else (if ps[0] == "" then 1 else 0) + EmptyCount(ps[1..])
  }

  // ---------------------------------------------------------------------------
  // Sequences of children

  lemma {:induction false} TextsOfSeqAppend(a: seq<Node>, b: seq<Node>)
    ensures TextsOfSeq(a + b) == TextsOfSeq(a) + TextsOfSeq(b)
  {
    if a == [] {
      assert a + b == b;
    } else {
      assert (a + b)[1..] == a[1..] + b;
      TextsOfSeqAppend(a[1..], b);
    }
  }

  lemma {:induction false} TextPiecesAppend(a: seq<Node>, b: seq<Node>)
    ensures TextPieces(a + b) == TextPieces(a) + TextPieces(b)
  {
    if a == [] {
      assert a + b == b;
    } else {
      assert (a + b)[1..] == a[1..] + b;
      TextPiecesAppend(a[1..], b);
    }
  }

  /** Writing `xs` and then `ys` is writing `xs + ys`. */
  lemma {:induction false} JoinAppend(buf: string, xs: seq<string>, ys: seq<string>)
    ensures Join(buf, xs + ys) == Join(Join(buf, xs), ys)
    decreases |xs|
  {
    if xs == [] {
      assert xs + ys == ys;
    } else {
      assert (xs + ys)[1..] == xs[1..] + ys;
      JoinAppend(Step(buf, xs[0]), xs[1..], ys);
    }
  }

  // ---------------------------------------------------------------------------
  // Only text nodes contribute, in pre-order

  /** The label walk visits exactly the text nodes of the pre-order, in that order. */
  lemma {:induction false} TextsArePreOrder(n: Node)
    ensures TextsOf(n) == TextPieces(PreOrder(n))
    decreases n, 1
  {
    match n
    case Text(data) =>
    case Element(_, _, cs) =>
      TextsSeqArePreOrder(cs);
      TextPiecesAppend([n], PreOrderSeq(cs));
    case Other(cs) =>
      TextsSeqArePreOrder(cs);
      TextPiecesAppend([n], PreOrderSeq(cs));
  }

  lemma {:induction false} TextsSeqArePreOrder(cs: seq<Node>)
    ensures TextsOfSeq(cs) == TextPieces(PreOrderSeq(cs))
    decreases cs, 0
  {
    if cs != [] {
      TextsArePreOrder(cs[0]);
      TextsSeqArePreOrder(cs[1..]);
      TextPiecesAppend(PreOrder(cs[0]), PreOrderSeq(cs[1..]));
    }
  }

  /** A subtree without text nodes has the empty label. */
  lemma NoTextNoLabel(n: Node)
    requires forall i :: 0 <= i < |PreOrder(n)| ==> !PreOrder(n)[i].Text?
    ensures Label(n) == ""
  {
    TextsArePreOrder(n);
    NoTextNoPieces(PreOrder(n));
  }

  lemma {:induction false} NoTextNoPieces(ns: seq<Node>)
    requires forall i :: 0 <= i < |ns| ==> !ns[i].Text?
    ensures TextPieces(ns) == []
  {
    if ns != [] {
      NoTextNoPieces(ns[1..]);
    }
  }

  lemma {:induction false} PiecesTrimmed(ns: seq<Node>)
    ensures forall i :: 0 <= i < |TextPieces(ns)| ==> Trimmed(TextPieces(ns)[i])
  {
    if ns != [] {
      PiecesTrimmed(ns[1..]);
    }
  }

  // ---------------------------------------------------------------------------
  // The separator rule

  /** Once the builder is non-empty, every piece is written after exactly one space. */
  lemma {:induction false} JoinAfterText(buf: string, ps: seq<string>)
    requires buf != ""
    ensures Join(buf, ps) == buf + Spaced(ps)
    decreases |ps|
  {
    if ps != [] {
      JoinAfterText(Step(buf, ps[0]), ps[1..]);
    }
  }

  /**
   * The builder's result is the pieces from the first non-empty one on,
   * separated by single spaces, whether or not the later ones are empty.
   */
  lemma {:induction false} JoinIsJoinWords(ps: seq<string>)
    ensures Join("", ps) == JoinWords(DropLeadingEmpty(ps))
  {
    if ps != [] {
      if ps[0] == "" {
        JoinIsJoinWords(ps[1..]);
      } else {
        assert Step("", ps[0]) == ps[0];
        JoinAfterText(ps[0], ps[1..]);
      }
    }
  }

  lemma {:induction false} SpacedLength(ws: seq<string>)
    ensures |Spaced(ws)| == TotalLength(ws) + |ws|
  {
    if ws != [] {
      SpacedLength(ws[1..]);
    }
  }

  lemma {:induction false} NonEmptyCounts(ps: seq<string>)
    ensures TotalLength(NonEmpty(ps)) == TotalLength(ps)
    ensures |NonEmpty(ps)| + EmptyCount(ps) == |ps|
  {
    if ps != [] {
      NonEmptyCounts(ps[1..]);
    }
  }

  lemma {:induction false} NonEmptyKeepsLeading(ps: seq<string>)
    ensures NonEmpty(DropLeadingEmpty(ps)) == NonEmpty(ps)
  {
    if ps != [] && ps[0] == "" {
      NonEmptyKeepsLeading(ps[1..]);
    }
  }

  lemma {:induction false} NoEmptyCount(ps: seq<string>)
    ensures EmptyCount(ps) == 0 <==> forall i :: 0 <= i < |ps| ==> ps[i] != ""
  {
    if ps != [] {
      NoEmptyCount(ps[1..]);
      if ps[0] != "" {
        forall i | 1 <= i < |ps|
          ensures ps[i] == ps[1..][i - 1]
        {
        }
      }
    }
  }

  /**
   * The label equals the plain space-joined non-empty pieces exactly when no
   * piece that trims to "" comes after the label has begun; otherwise each such
   * piece leaves an extra space behind.
   */
  lemma JoinCleanIff(ps: seq<string>)
    ensures Join("", ps) == JoinWords(NonEmpty(ps))
        <==> forall i :: 0 <= i < |DropLeadingEmpty(ps)| ==> DropLeadingEmpty(ps)[i] != ""
  {
    var d := DropLeadingEmpty(ps);
    JoinIsJoinWords(ps);
    NonEmptyKeepsLeading(ps);
    NonEmptyCounts(d);
    NoEmptyCount(d);
    var ne := NonEmpty(d);
    if d != [] {
      SpacedLength(d[1..]);
      assert ne[0] == d[0] by {
        assert d[0] != "";
      }
      SpacedLength(ne[1..]);
      assert |JoinWords(d)| == TotalLength(d) + |d| - 1;
      assert |JoinWords(ne)| == TotalLength(ne) + |ne| - 1;
    }
  }

  // ---------------------------------------------------------------------------
  // Properties of labels

  /** A label never starts with white space: not with a separator, and not with a piece's own. */
  lemma LabelNoLeadingSpace(n: Node)
    ensures Label(n) != "" ==> !IsSpace(Label(n)[0])
  {
    var ps := TextsOf(n);
    TextsArePreOrder(n);
    PiecesTrimmed(PreOrder(n));
    JoinIsJoinWords(ps);
    var d := DropLeadingEmpty(ps);
    if d != [] {
      assert d[0] == ps[|ps| - |d|];
      assert Trimmed(d[0]);
    }
  }

  /** The label is the pieces from the first non-empty one on, joined by single spaces. */
  lemma LabelSeparators(n: Node)
    ensures Label(n) == JoinWords(DropLeadingEmpty(TextsOf(n)))
    ensures Label(n) == JoinWords(NonEmpty(TextsOf(n)))
        <==> forall i :: 0 <= i < |DropLeadingEmpty(TextsOf(n))| ==> DropLeadingEmpty(TextsOf(n))[i] != ""
  {
    JoinIsJoinWords(TextsOf(n));
    JoinCleanIff(TextsOf(n));
  }

  // ---------------------------------------------------------------------------
  // The builder and the imperative walk

  /** A `strings.Builder`: a growing string. */
  class Builder {
    var buf: string

    constructor ()
      ensures buf == ""
    {
      buf := "";
    }

    method WriteString(s: string)
      modifies this
      ensures buf == old(buf) + s
    {
      buf := buf + s;
    }
  }

  /** `traverseText`: writes the label pieces of the subtree `n` into `sb`. */
  method TraverseText(n: Node, sb: Builder)
    modifies sb
    ensures sb.buf == Join(old(sb.buf), TextsOf(n))
    decreases n
  {
    if n.Text? {
      if |sb.buf| > 0 {
        sb.WriteString(" ");
      }
      sb.WriteString(TrimString(n.data));
    }
    var cs := if n.Text? then [] else n.children;
    ghost var start := sb.buf;
    var i := 0;
    while i < |cs|
      invariant 0 <= i <= |cs|
      invariant sb.buf == Join(start, TextsOfSeq(cs[..i]))
    {
      TraverseText(cs[i], sb);
      JoinNextChild(start, cs, i);
      i := i + 1;
    }
    assert cs[..i] == cs;
    assert TextsOf(n) == (if n.Text? then [TrimString(n.data)] else TextsOfSeq(cs));
    assert n.Text? ==> Join(old(sb.buf), TextsOf(n)) == Step(old(sb.buf), TrimString(n.data));
  }

  /** The sibling loop of `TraverseText` writes one more child's pieces per round. */
  lemma JoinNextChild(start: string, cs: seq<Node>, i: nat)
    requires i < |cs|
    ensures Join(start, TextsOfSeq(cs[..i + 1])) == Join(Join(start, TextsOfSeq(cs[..i])), TextsOf(cs[i]))
  {
    assert cs[..i + 1] == cs[..i] + [cs[i]];
    TextsOfSeqAppend(cs[..i], [cs[i]]);
    assert TextsOfSeq([cs[i]]) == TextsOf(cs[i]) + TextsOfSeq([]);
    assert TextsOfSeq(cs[..i + 1]) == TextsOfSeq(cs[..i]) + TextsOf(cs[i]);
    JoinAppend(start, TextsOfSeq(cs[..i]), TextsOf(cs[i]));
  }

  // ---------------------------------------------------------------------------
  // Examples

  // The example below binds its strings through parameters and splits its
  // proof into small lemmas: functions applied to literal arguments are
  // unfolded without bound, which exhausts the solver.

  lemma TextsOfSeqCons(c: Node, rest: seq<Node>)
    ensures TextsOfSeq([c] + rest) == TextsOf(c) + TextsOfSeq(rest)
  {
    assert ([c] + rest)[1..] == rest;
  }

  /**
   * "  Home  ", then "Page" inside a child element, then a payload that trims
   * to "": the label keeps a trailing space.
   */
  lemma HomePageExample(anchor: Node)
    requires anchor == Element("a", [], [Text("  Home  "), Element("b", [], [Text("Page")]), Text("\n ")])
    ensures Label(anchor) == "Home Page "
  {
    HomePageTrims("  Home  ", "Page", "\n ");
    HomePagePieces("  Home  ", "Page", "\n ");
    assert TextsOf(anchor) == ["Home", "Page", ""];
    TrailingSeparator();
  }

  /** An empty piece after the label has begun still writes its separator. */
  lemma TrailingSeparator()
    ensures Join("", ["Home", "Page", ""]) == "Home Page "
  {
    assert Step("", "Home") == "Home";
    assert Step("Home", "Page") == "Home Page";
    assert Step("Home Page", "") == "Home Page ";
    assert ["Home", "Page", ""][1..] == ["Page", ""];
    assert ["Page", ""][1..] == [""];
    assert [""][1..] == [];
  }

  lemma HomePageTrims(home: string, page: string, blank: string)
    requires home == "  Home  " && page == "Page" && blank == "\n "
    ensures TrimString(home) == "Home" && TrimString(page) == "Page" && TrimString(blank) == ""
  {
    TrimUnique(home, Whitespace, 2, "Home");
    TrimUnique(page, Whitespace, 0, "Page");
    TrimUnique(blank, Whitespace, 0, "");
  }

  lemma HomePagePieces(home: string, page: string, blank: string)
    requires TrimString(home) == "Home" && TrimString(page) == "Page" && TrimString(blank) == ""
    ensures TextsOfSeq([Text(home), Element("b", [], [Text(page)]), Text(blank)])
         == ["Home", "Page", ""]
  {
    var b := Element("b", [], [Text(page)]);
    TextsOfSeqCons(Text(page), []);
    TextsOfSeqCons(Text(blank), []);
    TextsOfSeqCons(b, [Text(blank)]);
    TextsOfSeqCons(Text(home), [b, Text(blank)]);
    assert [Text(page)] + [] == [Text(page)];
    assert [Text(blank)] + [] == [Text(blank)];
    assert [b] + [Text(blank)] == [b, Text(blank)];
    assert [Text(home)] + [b, Text(blank)] == [Text(home), b, Text(blank)];
  }
}

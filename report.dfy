/**
 * What the program reports for a list of parsed documents.
 *
 * File opening, parsing and printing are left out; the documents arrive as
 * trees and the report is the sequence of links that would be listed.
 */
module Report {
  import opened Html
  import opened Links

  /**
   * The list printed after the last of `docs`, as the driver loop is written:
   * each file's walk starts from the links of all earlier files, and the
   * walk's result (those links followed by the new ones) is appended to them
   * once more.
   */
  function AccumulatedLinks(docs: seq<Node>): seq<Link> {
    if docs == [] then []
    else
      var earlier := AccumulatedLinks(docs[..|docs| - 1]);
      earlier + (earlier + Anchors(docs[|docs| - 1]))
  }

  function Pow2(k: nat): nat {
    if k == 0 then 1 else 2 * Pow2(k - 1)
  }

  /**
   * Reference count: the links of document i, of n, weighted by 2^(n-1-i).
   */
  function WeightedCount(docs: seq<Node>): nat {
    if docs == [] then 0
    else Pow2(|docs| - 1) * |Anchors(docs[0])| + WeightedCount(docs[1..])
  }

  /**
   * As written, the length of the list after n files is the sum over i of
   * 2^(n-1-i) times the number of links of file i.
   */
  lemma {:induction false} AccumulatedLength(docs: seq<Node>)
    ensures |AccumulatedLinks(docs)| == WeightedCount(docs)
    decreases |docs|
  {
    if docs != [] {
      var n := |docs|;
      var init := docs[..n - 1];
      AccumulatedLength(init);
      if n > 1 {
        assert docs[1..][..n - 2] == init[1..];
        assert docs[1..][n - 2] == docs[n - 1];
        WeightedCountSnoc(docs);
      } else {
        assert docs[1..] == [];
      }
    }
  }

  /** Adding a last document doubles the weights of all earlier ones. */
  lemma {:induction false} WeightedCountSnoc(docs: seq<Node>)
    requires |docs| > 0
    ensures WeightedCount(docs) == 2 * WeightedCount(docs[..|docs| - 1]) + |Anchors(docs[|docs| - 1])|
    decreases |docs|
  {
    var n := |docs|;
    if n == 1 {
      assert docs[1..] == [];
      assert docs[..0] == [];
    } else {
      var tail := docs[1..];
      var init := docs[..n - 1];
      WeightedCountSnoc(tail);
      assert tail[..n - 2] == init[1..];
      assert init[0] == docs[0];
      assert tail[n - 2] == docs[n - 1];
      var a := |Anchors(docs[0])|;
      var p := Pow2(n - 2);
      assert Pow2(n - 1) == 2 * p;
      assert Pow2(n - 1) * a == 2 * (p * a) by {
        assert (2 * p) * a == 2 * (p * a);
      }
      assert WeightedCount(init) == p * a + WeightedCount(init[1..]);
    }
  }

  /** `k` copies of `m`, as one multiset. */
  function Rep(k: nat, m: multiset<Link>): multiset<Link> {
    if k == 0 then multiset{} else m + Rep(k - 1, m)
  }

  /**
   * Reference contents: the links of document i, of n, each present
   * 2^(n-1-i) times.
   */
  function WeightedLinks(docs: seq<Node>): multiset<Link> {
    if docs == [] then multiset{}
    else Rep(Pow2(|docs| - 1), multiset(Anchors(docs[0]))) + WeightedLinks(docs[1..])
  }

  /** Twice as many copies are two lots of the copies. */
  lemma {:induction false} RepDouble(k: nat, m: multiset<Link>)
    ensures Rep(2 * k, m) == Rep(k, m) + Rep(k, m)
  {
    if k > 0 {
      RepDouble(k - 1, m);
      assert Rep(2 * k, m) == m + (m + Rep(2 * (k - 1), m));
    }
  }

  /** Adding a last document doubles the copies of all earlier links. */
  lemma {:induction false} WeightedLinksSnoc(docs: seq<Node>)
    requires |docs| > 0
    ensures WeightedLinks(docs) == WeightedLinks(docs[..|docs| - 1]) + WeightedLinks(docs[..|docs| - 1]) + multiset(Anchors(docs[|docs| - 1]))
    decreases |docs|
  {
    var n := |docs|;
    if n == 1 {
      assert docs[1..] == [];
      assert docs[..0] == [];
      assert Rep(1, multiset(Anchors(docs[0]))) == multiset(Anchors(docs[0])) + Rep(0, multiset(Anchors(docs[0])));
    } else {
      var tail, init := docs[1..], docs[..n - 1];
      SnocSlices(docs);
      WeightedLinksSnoc(tail);
      WeightedLinksCons(init);
      WeightedLinksCons(docs);
      var m := multiset(Anchors(docs[0]));
      var p := Pow2(n - 2);
      RepDouble(p, m);
      Regroup(WeightedLinks(docs), WeightedLinks(init), WeightedLinks(tail), Rep(2 * p, m),
              Rep(p, m), WeightedLinks(init[1..]), multiset(Anchors(docs[n - 1])));
    }
  }

  /** How the tail and the front of a sequence overlap. */
  lemma SnocSlices(docs: seq<Node>)
    requires |docs| > 1
    ensures docs[1..][..|docs| - 2] == docs[..|docs| - 1][1..]
    ensures docs[1..][|docs| - 2] == docs[|docs| - 1]
    ensures docs[..|docs| - 1][0] == docs[0]
  {
  }

  lemma WeightedLinksCons(docs: seq<Node>)
    requires |docs| > 0
    ensures WeightedLinks(docs) == Rep(Pow2(|docs| - 1), multiset(Anchors(docs[0]))) + WeightedLinks(docs[1..])
  {
  }

  /** The multiset bookkeeping of one step of `WeightedLinksSnoc`. */
  lemma Regroup(whole: multiset<Link>, front: multiset<Link>, tail: multiset<Link>, doubled: multiset<Link>,
                r: multiset<Link>, w: multiset<Link>, a: multiset<Link>)
    requires whole == doubled + tail && doubled == r + r
    requires front == r + w && tail == w + w + a
    ensures whole == front + front + a
  {
  }

  /**
   * As written, the list after n files holds the links of file i (counting
   * from 0) 2^(n-1-i) times: every later file doubles what came before.
   */
  lemma {:induction false} AccumulatedContents(docs: seq<Node>)
    ensures multiset(AccumulatedLinks(docs)) == WeightedLinks(docs)
    decreases |docs|
  {
    if docs != [] {
      var n := |docs|;
      var init := docs[..n - 1];
      AccumulatedContents(init);
      WeightedLinksSnoc(docs);
      var earlier := AccumulatedLinks(init);
      assert AccumulatedLinks(docs) == earlier + (earlier + Anchors(docs[n - 1]));
    }
  }

  /**
   * Two files with one anchor each: after the second file, the first file's
   * link is listed twice and the second file's link is numbered 3.
   */
  lemma AccumulationRepeatsLinks(d1: Node, d2: Node)
    requires |Anchors(d1)| == 1 && |Anchors(d2)| == 1
    ensures AccumulatedLinks([d1, d2]) == Anchors(d1) + Anchors(d1) + Anchors(d2)
    ensures |AccumulatedLinks([d1, d2])| == 3
    ensures AccumulatedLinks([d1, d2])[2] == Anchors(d2)[0]
  {
    var a1, a2 := Anchors(d1), Anchors(d2);
    AccumulatedSnoc([], d1);
    assert [] + [d1] == [d1];
    assert AccumulatedLinks([d1]) == a1;
    AccumulatedSnoc([d1], d2);
    assert [d1] + [d2] == [d1, d2];
    var r := AccumulatedLinks([d1, d2]);
    assert r == a1 + a1 + a2;
    assert |r| == 3;
    assert r[2] == a2[0];
  }

  /**
   * One more file: the earlier list, then the earlier list again with the
   * file's links, so the earlier list stays a prefix.
   */
  lemma AccumulatedSnoc(docs: seq<Node>, d: Node)
    ensures AccumulatedLinks(docs + [d]) == AccumulatedLinks(docs) + (AccumulatedLinks(docs) + Anchors(d))
    ensures AccumulatedLinks(docs) <= AccumulatedLinks(docs + [d])
  {
    assert (docs + [d])[..|docs|] == docs;
  }

  /**
   * The driver with a fresh accumulator per document: the links of each
   * document, on their own, numbered from 1.
   */
  method ReportDocuments(docs: seq<Node>) returns (reports: seq<seq<Link>>)
    ensures |reports| == |docs|
    ensures forall i :: 0 <= i < |docs| ==> reports[i] == Anchors(docs[i])
  {
    reports := [];
    var i := 0;
    while i < |docs|
      invariant 0 <= i <= |docs|
      invariant |reports| == i
      invariant forall k :: 0 <= k < i ==> reports[k] == Anchors(docs[k])
    {
      var links := TraverseLinks(docs[i], []);
      reports := reports + [links];
      i := i + 1;
    }
  }
}

/**
 * Whitespace trimming of text-node payloads.
 *
 * Go's `strings.Trim(s, cutset)` removes every leading and trailing character
 * that belongs to `cutset`; `strings.TrimSpace(s)` does the same with the
 * characters `unicode.IsSpace` accepts. Both are modelled by one function,
 * `Trim`, over a set of characters to cut.
 */
module Trim {

  /** The characters Go's `unicode.IsSpace` treats as white space. */
  const Whitespace: set<char> := {
    '\t', '\n', '\U{000B}', '\U{000C}', '\r', ' ', '\U{0085}', '\U{00A0}', '\U{1680}',
    '\U{2000}', '\U{2001}', '\U{2002}', '\U{2003}', '\U{2004}', '\U{2005}',
    '\U{2006}', '\U{2007}', '\U{2008}', '\U{2009}', '\U{200A}',
    '\U{2028}', '\U{2029}', '\U{202F}', '\U{205F}', '\U{3000}'
  }

  predicate IsSpace(c: char) {
    c in Whitespace
  }

  /** Number of characters at the start of `s` that belong to `cut`. */
  function LeadingCount(s: string, cut: set<char>): (k: nat)
    ensures k <= |s|
    ensures forall i :: 0 <= i < k ==> s[i] in cut
    ensures k < |s| ==> s[k] !in cut
  {
    if |s| > 0 && s[0] in cut then 1 + LeadingCount(s[1..], cut) else 0
  }

  /** Number of characters at the end of `s` that belong to `cut`. */
  function TrailingCount(s: string, cut: set<char>): (k: nat)
    ensures k <= |s|
    ensures forall i :: |s| - k <= i < |s| ==> s[i] in cut
    ensures k < |s| ==> s[|s| - 1 - k] !in cut
  {
    if |s| > 0 && s[|s| - 1] in cut then 1 + TrailingCount(s[..|s| - 1], cut) else 0
  }

  /**
   * `strings.Trim(s, cut)`: the longest infix of `s` that neither starts nor
   * ends with a character of `cut`, obtained by cutting only characters of `cut`.
   */
  function Trim(s: string, cut: set<char>): (r: string)
    ensures LeadingCount(s, cut) + |r| <= |s|
    ensures r == s[LeadingCount(s, cut)..LeadingCount(s, cut) + |r|]
    ensures forall i :: LeadingCount(s, cut) + |r| <= i < |s| ==> s[i] in cut
    ensures r != [] ==> r[0] !in cut && r[|r| - 1] !in cut
  {
    var rest := s[LeadingCount(s, cut)..];
    rest[..|rest| - TrailingCount(rest, cut)]
  }

  /**
   * The contract of `Trim` determines its result: any infix of `s` whose
   * surroundings are all cut characters and whose ends are not is `Trim(s, cut)`.
   */
  lemma TrimUnique(s: string, cut: set<char>, start: nat, r: string)
    requires start + |r| <= |s| && r == s[start..start + |r|]
    requires forall k :: 0 <= k < start ==> s[k] in cut
    requires forall k :: start + |r| <= k < |s| ==> s[k] in cut
    requires r != [] ==> r[0] !in cut && r[|r| - 1] !in cut
    ensures Trim(s, cut) == r
  {
    var lead := LeadingCount(s, cut);
    var t := Trim(s, cut);
    if r != [] {
      assert s[start] == r[0];
      assert s[start + |r| - 1] == r[|r| - 1];
      assert lead == start;
      if t != [] {
        assert t[|t| - 1] == s[lead + |t| - 1];
      }
    }
  }

  /** Trimming twice with the same cut set is the same as trimming once. */
  lemma TrimIdempotent(s: string, cut: set<char>)
    ensures Trim(Trim(s, cut), cut) == Trim(s, cut)
  {
    var t := Trim(s, cut);
    TrimUnique(t, cut, 0, t);
  }

  /** Trimming with a smaller cut set first changes nothing. */
  lemma TrimNested(s: string, inner: set<char>, outer: set<char>)
    requires inner <= outer
    ensures Trim(Trim(s, inner), outer) == Trim(s, outer)
  {
    var t := Trim(s, inner);
    var a := LeadingCount(s, inner);
    var r := Trim(t, outer);
    var b := LeadingCount(t, outer);
    assert r == s[a + b..a + b + |r|];
    forall k | 0 <= k < a + b
      ensures s[k] in outer
    {
      if k >= a {
        assert s[k] == t[k - a];
      }
    }
    forall k | a + b + |r| <= k < |s|
      ensures s[k] in outer
    {
      if k < a + |t| {
        assert s[k] == t[k - a];
      }
    }
    TrimUnique(s, outer, a + b, r);
  }

  /**
   * `trimString`: cuts newlines, then white space. The first step is
   * subsumed by the second, so the result is just `s` without its leading and
   * trailing white space.
   */
  function TrimString(s: string): (r: string)
    ensures r == Trim(s, Whitespace)
    ensures r != [] ==> !IsSpace(r[0]) && !IsSpace(r[|r| - 1])
  {
    TrimNested(s, {'\n'}, Whitespace);
    Trim(Trim(s, {'\n'}), Whitespace)
  }

  lemma TrimStringIdempotent(s: string)
    ensures TrimString(TrimString(s)) == TrimString(s)
  {
    TrimIdempotent(s, Whitespace);
  }
}

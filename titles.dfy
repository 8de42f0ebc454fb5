/**
 The display title of a tab in the popup list: `tab.title.split('-')[0].trim()`,
 the part of the title before its first hyphen-minus with white space
 removed from both ends.
 */
module Titles {

  /**
   The code points String.prototype.trim removes: ECMAScript WhiteSpace
   (tab, vertical tab, form feed, zero width no-break space and the Zs
   space separators) and LineTerminator (line feed, carriage return, line
   and paragraph separators).
   */
  const JsWhitespace: set<char> := {
    '\t', '\U{000B}', '\U{000C}', '\U{FEFF}',
    ' ', '\U{00A0}', '\U{1680}',
    '\U{2000}', '\U{2001}', '\U{2002}', '\U{2003}', '\U{2004}', '\U{2005}',
    '\U{2006}', '\U{2007}', '\U{2008}', '\U{2009}', '\U{200A}',
    '\U{202F}', '\U{205F}', '\U{3000}',
    '\n', '\r', '\U{2028}', '\U{2029}'
  }

  /** `s.split('-')[0]`: everything before the first '-', or all of `s` when it has none. */
  function BeforeFirstDash(s: string): (r: string)
    ensures |r| <= |s| && r == s[..|r|]
    ensures '-' !in r
    ensures |r| == |s| || s[|r|] == '-'
  {
    if s == [] || s[0] == '-' then [] else [s[0]] + BeforeFirstDash(s[1..])
  }

  /*
   The trimming functions take the class of characters they remove as a
   parameter, `space`; the popup always passes JsWhitespace. Their proofs
   need nothing about which characters the class holds.
   */

  /** Where the leading run of `space` characters of `s` ends. */
  function LeadingSpace(s: string, space: set<char>): (n: nat)
    ensures n <= |s|
    ensures forall k | 0 <= k < n :: s[k] in space
    ensures n == |s| || s[n] !in space
  {
    if s == [] || s[0] !in space then 0 else 1 + LeadingSpace(s[1..], space)
  }

  /** Where the trailing run of `space` characters of `s` starts. */
  function TrailingSpace(s: string, space: set<char>): (n: nat)
    ensures n <= |s|
    ensures forall k | n <= k < |s| :: s[k] in space
    ensures n == 0 || s[n - 1] !in space
  {
    if s == [] || s[|s| - 1] !in space then |s| else TrailingSpace(s[..|s| - 1], space)
  }

  /** `s` with `space` characters removed from both ends; `s.trim()` when `space` is JsWhitespace. */
  function Trim(s: string, space: set<char>): (r: string)
    ensures |r| <= |s|
    ensures forall k | 0 <= k < |r| :: r[k] in s
    ensures r == [] || (r[0] !in space && r[|r| - 1] !in space)
  {
    var i := LeadingSpace(s, space);
    var t := s[i..];
    var j := TrailingSpace(t, space);
    assert forall k | 0 <= k < j :: t[..j][k] == s[i + k];
    t[..j]
  }

  /** The title the popup shows for a tab whose title is `title`. */
  function DisplayTitle(title: string): (r: string)
    ensures |r| <= |title|
    ensures '-' !in r
    ensures r == [] || (r[0] !in JsWhitespace && r[|r| - 1] !in JsWhitespace)
  {
    Trim(BeforeFirstDash(title), JsWhitespace)
  }

  /** The first '-' of `s` is at `d` (or `s` has none and `d` is its length). */
  lemma {:induction false} BeforeFirstDashUnique(s: string, d: nat)
    requires d <= |s| && '-' !in s[..d]
    requires d == |s| || s[d] == '-'
    ensures BeforeFirstDash(s) == s[..d]
  {
    if d > 0 {
      assert s[0] in s[..d];
      assert s[1..][..d - 1] == s[1..d];
      BeforeFirstDashUnique(s[1..], d - 1);
      assert s[..d] == [s[0]] + s[1..d];
    }
  }

  lemma SliceOfPrefix(s: string, d: nat, i: nat, j: nat)
    requires i <= j <= d <= |s|
    ensures s[..d][i..j] == s[i..j]
  {
  }

  /** The piece s[i..j], with only `space` around it and none at its own ends, is what trimming keeps. */
  lemma {:induction false} TrimUnique(s: string, space: set<char>, i: nat, j: nat)
    requires i <= j <= |s|
    requires forall k | 0 <= k < i :: s[k] in space
    requires forall k | j <= k < |s| :: s[k] in space
    requires i == j || (s[i] !in space && s[j - 1] !in space)
    ensures Trim(s, space) == s[i..j]
  {
    var i' := LeadingSpace(s, space);
    var t := s[i'..];
    var j' := TrailingSpace(t, space);
    if i == j {
      assert i' == |s|;
    } else {
      assert i' == i;
      assert t[j - i - 1] == s[j - 1];
      assert j' == j - i;
      assert t[..j'] == s[i..j];
    }
  }

  /**
   The display title is the piece title[i..j] of the text before the
   first '-' (which sits at `d`) with only white space around it inside
   title[..d] and none at its own ends: any such piece is the one shown.
   */
  lemma {:induction false} DisplayTitleUnique(title: string, i: nat, j: nat, d: nat)
    requires i <= j <= d <= |title|
    requires '-' !in title[..d]
    requires d == |title| || title[d] == '-'
    requires forall k | 0 <= k < i :: title[k] in JsWhitespace
    requires forall k | j <= k < d :: title[k] in JsWhitespace
    requires i == j || (title[i] !in JsWhitespace && title[j - 1] !in JsWhitespace)
    ensures DisplayTitle(title) == title[i..j]
  {
    BeforeFirstDashUnique(title, d);
    var p := title[..d];
    assert forall k | 0 <= k < d :: p[k] == title[k];
    TrimUnique(p, JsWhitespace, i, j);
    SliceOfPrefix(title, d, i, j);
  }

  /** Shortening an already shortened title changes nothing. */
  lemma {:induction false} DisplayTitleIdempotent(title: string)
    ensures DisplayTitle(DisplayTitle(title)) == DisplayTitle(title)
  {
    var r := DisplayTitle(title);
    assert r[..|r|] == r;
    DisplayTitleUnique(r, 0, |r|, |r|);
  }
}

/**
 * The two pieces of string handling the join handler relies on:
 * `String.prototype.trim` (strip leading and trailing white space and line
 * terminators) and the decimal rendering of a count in a template literal.
 */
module Text {

  /** White space and line terminators as `String.prototype.trim` strips them. */
  const Whitespace: set<char> := {
    '\t', '\n', '\U{000B}', '\U{000C}', '\r', ' ', '\U{00A0}', '\U{1680}',
    '\U{2000}', '\U{2001}', '\U{2002}', '\U{2003}', '\U{2004}', '\U{2005}',
    '\U{2006}', '\U{2007}', '\U{2008}', '\U{2009}', '\U{200A}',
    '\U{2028}', '\U{2029}', '\U{202F}', '\U{205F}', '\U{3000}', '\U{FEFF}'
  }

  predicate IsWhitespace(c: char)
  {
    c in Whitespace
  }

  predicate AllWhitespace(s: string)
  {
    forall k :: 0 <= k < |s| ==> IsWhitespace(s[k])
  }

  /** The number of white space characters `s` starts with. */
  function LeadingBlanks(s: string): (n: nat)
    ensures n <= |s| && AllWhitespace(s[..n])
    ensures n < |s| ==> !IsWhitespace(s[n])
  {
    var n := BlanksFrom(s, 0);
    ghost var head := s[..n];
    assert forall k :: 0 <= k < |head| ==> head[k] == s[k];
    n
  }

  /** The number of white space characters starting at position `start` of `s`. */
  function BlanksFrom(s: string, start: nat): (n: nat)
    requires start <= |s|
    ensures start + n <= |s|
    ensures forall k :: start <= k < start + n ==> IsWhitespace(s[k])
    ensures start + n < |s| ==> !IsWhitespace(s[start + n])
    decreases |s| - start
  {
    if start < |s| && IsWhitespace(s[start]) then 1 + BlanksFrom(s, start + 1) else 0
  }

  /**
   * The number of white space characters right before position `end` of `s`,
   * looking no further back than position `lo`.
   */
  function BlanksBefore(s: string, lo: nat, end: nat): (n: nat)
    requires lo <= end <= |s|
    ensures lo + n <= end
    ensures forall k :: end - n <= k < end ==> IsWhitespace(s[k])
    ensures lo + n < end ==> !IsWhitespace(s[end - n - 1])
  {
    if end > lo && IsWhitespace(s[end - 1]) then 1 + BlanksBefore(s, lo, end - 1) else 0
  }

  /**
   * `String.prototype.trim`: the part of `s` between its leading and its
   * trailing white space. It is empty exactly when `s` is blank.
   */
  function Trim(s: string): (r: string)
    ensures |r| <= |s|
    ensures r == [] <==> AllWhitespace(s)
    ensures r != [] ==> !IsWhitespace(r[0]) && !IsWhitespace(r[|r| - 1])
    ensures LeadingBlanks(s) + |r| <= |s|
    ensures r == s[LeadingBlanks(s)..LeadingBlanks(s) + |r|]
    ensures AllWhitespace(s[LeadingBlanks(s) + |r|..])
  {
    var i := LeadingBlanks(s);
    var e := |s| - BlanksBefore(s, i, |s|);
    var r := s[i..e];
    TrimParts(s, i, e, r);
    r
  }

  /** How the stripped prefix, the result and the stripped suffix make up `s`. */
  lemma TrimParts(s: string, i: nat, e: nat, r: string)
    requires i <= e <= |s| && r == s[i..e]
    requires AllWhitespace(s[..i]) && (i < |s| ==> !IsWhitespace(s[i]))
    requires forall k :: e <= k < |s| ==> IsWhitespace(s[k])
    requires i < e ==> !IsWhitespace(s[e - 1])
    ensures r == [] <==> AllWhitespace(s)
    ensures r != [] ==> !IsWhitespace(r[0]) && !IsWhitespace(r[|r| - 1])
    ensures r == s[i..i + |r|] && AllWhitespace(s[i + |r|..])
  {
    ghost var tail := s[e..];
    assert forall k :: 0 <= k < |tail| ==> tail[k] == s[e + k];
    if r == [] {
      forall k | 0 <= k < |s| ensures IsWhitespace(s[k]) {
        if k < i {
          assert s[..i][k] == s[k];
        }
      }
    } else {
      assert r[0] == s[i] && r[|r| - 1] == s[e - 1];
    }
  }

  function Digit(d: nat): (c: char)
    requires d < 10
  {
    "0123456789"[d]
  }

  predicate IsDigit(c: char)
  {
    '0' <= c <= '9'
  }

  /** The decimal value of a string of digits. */
  function DecimalValue(s: string): nat
    requires forall k :: 0 <= k < |s| ==> IsDigit(s[k])
  {
    if s == [] then 0
    else
      assert IsDigit(s[|s| - 1]);
      DecimalValue(s[..|s| - 1]) * 10 + (s[|s| - 1] as int - '0' as int)
  }

  /** The decimal rendering of `n` (what `${n}` gives for a non-negative integer). */
  function NatToString(n: nat): (r: string)
    ensures r != []
    ensures forall k :: 0 <= k < |r| ==> IsDigit(r[k])
    ensures |r| > 1 ==> r[0] != '0'
  {
    if n < 10 then [Digit(n)] else NatToString(n / 10) + [Digit(n % 10)]
  }

  /** Reading back the decimal rendering of `n` gives `n`. */
  lemma {:induction false} NatToStringRoundTrip(n: nat)
    ensures DecimalValue(NatToString(n)) == n
  {
    var r := NatToString(n);
    if n >= 10 {
      NatToStringRoundTrip(n / 10);
      assert r[..|r| - 1] == NatToString(n / 10);
    }
  }
}

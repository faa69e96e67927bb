/**
 * The string operations of Python that the vote route and the client-address
 * helper rely on: `str.strip()`, `str.lower()` and the first element of
 * `str.split(sep)`.
 */
module Text {
  import opened Wrappers

  /** `x or ''` for an optional string: a missing value reads as the empty string. */
  function OrEmpty(o: Option<string>): string {
    o.GetOr("")
  }

  /**
   * The characters for which Python's `str.isspace()` holds; `str.strip()`
   * without arguments removes exactly these at both ends.
   */
  predicate IsSpace(c: char) {
    var n := c as int;
    (9 <= n <= 13) || (28 <= n <= 32) || n == 0x85 || n == 0xA0 || n == 0x1680
    || (0x2000 <= n <= 0x200A) || n == 0x2028 || n == 0x2029 || n == 0x202F
    || n == 0x205F || n == 0x3000
  }

  predicate AllSpace(s: string) {
    forall i :: 0 <= i < |s| ==> IsSpace(s[i])
  }

  /** The length of the longest prefix of `s` made of white space. */
  function LeadingSpaces(s: string): (n: nat)
    ensures n <= |s|
    ensures AllSpace(s[..n])
    ensures n < |s| ==> !IsSpace(s[n])
  {
    if |s| > 0 && IsSpace(s[0]) then
      1 + LeadingSpaces(s[1..])
    else
      0
  }

  /** The length of the longest suffix of `s` made of white space. */
  function TrailingSpaces(s: string): (n: nat)
    ensures n <= |s|
    ensures AllSpace(s[|s| - n..])
    ensures n < |s| ==> !IsSpace(s[|s| - 1 - n])
  {
    if |s| > 0 && IsSpace(s[|s| - 1]) then
      1 + TrailingSpaces(s[..|s| - 1])
    else
      0
  }

  /**
   * Python's `s.strip()`: the part of `s` left after removing white space at
   * both ends. The result is a slice of `s` whose surroundings are all white
   * space, and it neither starts nor ends with white space.
   */
  function Strip(s: string): (r: string)
    ensures |r| <= |s|
    ensures exists i, j :: 0 <= i <= j <= |s| && r == s[i..j] && AllSpace(s[..i]) && AllSpace(s[j..])
    ensures r == [] || (!IsSpace(r[0]) && !IsSpace(r[|r| - 1]))
    ensures r == [] <==> AllSpace(s)
  {
    var i := LeadingSpaces(s);
    if i == |s| then
      assert s[..|s|] == s;
      assert s[|s|..|s|] == [];
      []
    else
      var t := TrailingSpaces(s);
      assert t < |s| - i;
      var r := s[i..|s| - t];
      assert r[0] == s[i] && r[|r| - 1] == s[|s| - 1 - t];
      assert !AllSpace(s) by { assert !IsSpace(s[i]); }
      r
  }

  /** Python's `str.lower()` on one character, restricted to ASCII letters. */
  function LowerChar(c: char): char {
    if 'A' <= c <= 'Z' then (c as int + 32) as char else c
  }

  /** Python's `s.lower()`: every character mapped by `LowerChar`, position by position. */
  function Lower(s: string): (r: string)
    ensures |r| == |s|
    ensures forall i :: 0 <= i < |s| ==> r[i] == LowerChar(s[i])
  {
    if s == [] then [] else [LowerChar(s[0])] + Lower(s[1..])
  }

  /** `s.split(sep)[0]`: the longest prefix of `s` that does not contain `sep`. */
  function FirstField(s: string, sep: char): (p: string)
    ensures p <= s
    ensures sep !in p
    ensures |p| < |s| ==> s[|p|] == sep
  {
    if s == [] || s[0] == sep then [] else [s[0]] + FirstField(s[1..], sep)
  }

  /** No white space at either end; what `Strip` returns. */
  predicate Unpadded(s: string) {
    s == [] || (!IsSpace(s[0]) && !IsSpace(s[|s| - 1]))
  }

  /** Strip removes exactly the white space around a string that has none at its ends. */
  lemma StripPadded(a: string, s: string, b: string)
    requires AllSpace(a) && AllSpace(b) && Unpadded(s)
    ensures Strip(a + s + b) == s
  {
    var x := a + s + b;
    if s == [] {
      assert AllSpace(x) by {
        forall k | 0 <= k < |x| ensures IsSpace(x[k]) {
          if k < |a| { assert x[k] == a[k]; } else { assert x[k] == b[k - |a|]; }
        }
      }
    } else {
      var n := LeadingSpaces(x);
      assert x[|a|] == s[0];
      assert n == |a|;
      var t := TrailingSpaces(x);
      assert x[|x| - 1 - |b|] == s[|s| - 1];
      assert t == |b|;
      assert x[|a|..|x| - |b|] == s;
    }
  }

  /** Stripping is idempotent: a stripped string has no white space left at its ends. */
  lemma StripIdempotent(s: string)
    ensures Strip(Strip(s)) == Strip(s)
  {
  }

  /**
   * Comparing a lowered string with a lower-case ASCII word is a
   * case-insensitive comparison: each character is either the word's letter
   * or its upper-case form.
   */
  lemma LowerMatches(s: string, w: string)
    requires forall k :: 0 <= k < |w| ==> 'a' <= w[k] <= 'z'
    ensures Lower(s) == w <==>
      |s| == |w| && forall k :: 0 <= k < |s| ==> s[k] == w[k] || s[k] as int == w[k] as int - 32
  {
    if |s| == |w| && forall k :: 0 <= k < |s| ==> s[k] == w[k] || s[k] as int == w[k] as int - 32 {
      assert forall k :: 0 <= k < |s| ==> Lower(s)[k] == w[k];
    }
    if Lower(s) == w {
      forall k | 0 <= k < |s|
        ensures s[k] == w[k] || s[k] as int == w[k] as int - 32
      {
        assert LowerChar(s[k]) == w[k];
      }
    }
  }

  /** The first field is exactly the text before the first separator. */
  lemma {:induction false} FirstFieldBeforeSeparator(a: string, sep: char, b: string)
    requires sep !in a
    ensures FirstField(a + [sep] + b, sep) == a
  {
    if a != [] {
      assert (a + [sep] + b)[1..] == a[1..] + [sep] + b;
      FirstFieldBeforeSeparator(a[1..], sep, b);
    }
  }

  /** A string without the separator is its own first field. */
  lemma {:induction false} FirstFieldWhole(s: string, sep: char)
    requires sep !in s
    ensures FirstField(s, sep) == s
  {
    if s != [] {
      FirstFieldWhole(s[1..], sep);
    }
  }
}

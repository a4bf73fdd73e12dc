/** Character classes and string helpers from Rust's standard library that the model relies on. */
module Strings {

  /** Rust's char::is_whitespace: the Unicode White_Space property, written out code point by code point. */
  predicate IsWhitespace(c: char)
  {
    ('\U{0009}' <= c <= '\U{000D}') || c == '\U{0020}' || c == '\U{0085}' || c == '\U{00A0}'
    || c == '\U{1680}' || ('\U{2000}' <= c <= '\U{200A}') || c == '\U{2028}' || c == '\U{2029}'
    || c == '\U{202F}' || c == '\U{205F}' || c == '\U{3000}'
  }

  /** Rust's char::is_alphanumeric, restricted to ASCII letters and digits. */
  predicate IsAlphanumeric(c: char)
  {
    ('0' <= c <= '9') || ('a' <= c <= 'z') || ('A' <= c <= 'Z')
  }

  predicate AllWhitespace(s: string)
  {
    forall i :: 0 <= i < |s| ==> IsWhitespace(s[i])
  }

  /** The number of leading whitespace characters of s. */
  function LeadingWhitespace(s: string): (n: nat)
    ensures n <= |s| && AllWhitespace(s[..n])
    ensures n == |s| || !IsWhitespace(s[n])
  {
    if s == [] || !IsWhitespace(s[0]) then 0
    else
      var n := 1 + LeadingWhitespace(s[1..]);
      assert s[..n] == [s[0]] + s[1..][..n - 1];
      n
  }

  /** Rust's str::trim_start: drops every leading whitespace character. */
  function TrimStart(s: string): (r: string)
    ensures |r| <= |s| && r == s[|s| - |r|..]
    ensures AllWhitespace(s[..|s| - |r|])
    ensures r == [] || !IsWhitespace(r[0])
  {
    s[LeadingWhitespace(s)..]
  }

  /** A text that does not start with whitespace is its own trim. */
  lemma TrimStartPlain(s: string)
    requires s == [] || !IsWhitespace(s[0])
    ensures TrimStart(s) == s
  {
    assert LeadingWhitespace(s) == 0;
  }

  /** Trimming a run of whitespace in front of a text that does not start with whitespace leaves the text. */
  lemma TrimStartOfPadding(pad: string, t: string)
    requires AllWhitespace(pad) && (t == [] || !IsWhitespace(t[0]))
    ensures TrimStart(pad + t) == t
  {
    LeadingPadding(pad, t);
    assert (pad + t)[|pad|..] == t;
  }

  lemma {:induction false} LeadingPadding(pad: string, t: string)
    requires AllWhitespace(pad) && (t == [] || !IsWhitespace(t[0]))
    ensures LeadingWhitespace(pad + t) == |pad|
  {
    if pad != [] {
      assert (pad + t)[0] == pad[0];
      assert (pad + t)[1..] == pad[1..] + t;
      assert AllWhitespace(pad[1..]) by {
        forall i | 0 <= i < |pad[1..]|
          ensures IsWhitespace(pad[1..][i])
        {
          assert pad[1..][i] == pad[i + 1];
        }
      }
      LeadingPadding(pad[1..], t);
    } else {
      assert pad + t == t;
    }
  }

  /** Rust's str::trim_end: drops every trailing whitespace character. */
  function TrimEnd(s: string): (r: string)
    ensures |r| <= |s| && r == s[..|r|]
    ensures AllWhitespace(s[|r|..])
    ensures r == [] || !IsWhitespace(r[|r| - 1])
  {
    if s != [] && IsWhitespace(s[|s| - 1]) then
      var r := TrimEnd(s[..|s| - 1]);
      assert s[|r|..] == s[..|s| - 1][|r|..] + [s[|s| - 1]];
      r
    else s
  }

  /** Rust's Ord on String: lexicographic by code point, a proper prefix first. */
  predicate StrLess(a: string, b: string)
  {
    (a == [] && b != [])
    || (a != [] && b != [] && (a[0] < b[0] || (a[0] == b[0] && StrLess(a[1..], b[1..]))))
  }

  lemma {:induction false} StrLessIrreflexive(a: string)
    ensures !StrLess(a, a)
  {
    if a != [] {
      StrLessIrreflexive(a[1..]);
    }
  }

  lemma {:induction false} StrLessTransitive(a: string, b: string, c: string)
    requires StrLess(a, b) && StrLess(b, c)
    ensures StrLess(a, c)
  {
    if a != [] && a[0] == b[0] && b[0] == c[0] {
      StrLessTransitive(a[1..], b[1..], c[1..]);
    }
  }

  lemma {:induction false} StrLessTotal(a: string, b: string)
    ensures a == b || StrLess(a, b) || StrLess(b, a)
  {
    if a != [] && b != [] && a[0] == b[0] {
      StrLessTotal(a[1..], b[1..]);
      if a[1..] == b[1..] {
        assert a == [a[0]] + a[1..] && b == [b[0]] + b[1..];
      }
    }
  }
}

/** Decimal digits: the parts of chrono's and std::fmt's integer formatting and scanning the model uses. */
module Numerals {

  predicate IsDigit(c: char)
  {
    '0' <= c <= '9'
  }

  predicate AllDigits(s: string)
  {
    forall i :: 0 <= i < |s| ==> IsDigit(s[i])
  }

  function DigitChar(d: int): (c: char)
    requires 0 <= d <= 9
    ensures IsDigit(c) && c as int - '0' as int == d
  {
    ('0' as int + d) as char
  }

  function Pow10(w: nat): (p: nat)
    ensures p >= 1
  {
    if w == 0 then 1 else 10 * Pow10(w - 1)
  }

  /** The numeric value of a string of decimal digits. */
  function ValueOf(s: string): nat
    requires AllDigits(s)
  {
    if s == [] then 0 else 10 * ValueOf(s[..|s| - 1]) + (s[|s| - 1] as int - '0' as int)
  }

  /** Exactly w digits, zero-padded on the left: chrono's `%m`, `%d`, `%H`, `%M`, and `%Y` for 0..=9999. */
  function Fixed(n: nat, w: nat): (s: string)
    requires n < Pow10(w)
    ensures |s| == w && AllDigits(s)
  {
    if w == 0 then [] else Fixed(n / 10, w - 1) + [DigitChar(n % 10)]
  }

  /** The shortest decimal rendering of n, as std's `{}` writes an unsigned integer. */
  function Decimal(n: nat): (s: string)
    ensures 1 <= |s| && AllDigits(s)
    ensures |s| == 1 || s[0] != '0'
  {
    if n < 10 then [DigitChar(n)] else Decimal(n / 10) + [DigitChar(n % 10)]
  }

  /** Left-pads s with c up to width w, as std's `{:>w$}` does; a longer s is left as it is. */
  function PadLeft(s: string, w: nat, c: char): (r: string)
    ensures |r| == if |s| >= w then |s| else w
  {
    if |s| >= w then s else seq(w - |s|, _ => c) + s
  }

  /** The padded text ends with s, and every character before it is c. */
  lemma PadLeftParts(s: string, w: nat, c: char)
    ensures PadLeft(s, w, c)[|PadLeft(s, w, c)| - |s|..] == s
    ensures forall i :: 0 <= i < |PadLeft(s, w, c)| - |s| ==> PadLeft(s, w, c)[i] == c
  {
  }

  lemma ValueOfSnoc(s: string, c: char)
    requires AllDigits(s) && IsDigit(c)
    ensures AllDigits(s + [c]) && ValueOf(s + [c]) == 10 * ValueOf(s) + (c as int - '0' as int)
  {
    assert (s + [c])[..|s|] == s;
  }

  lemma {:induction false} ValueOfFixed(n: nat, w: nat)
    requires n < Pow10(w)
    ensures ValueOf(Fixed(n, w)) == n
  {
    if w > 0 {
      ValueOfFixed(n / 10, w - 1);
      ValueOfSnoc(Fixed(n / 10, w - 1), DigitChar(n % 10));
    }
  }

  lemma {:induction false} FixedValueOf(s: string)
    requires AllDigits(s)
    ensures ValueOf(s) < Pow10(|s|) && Fixed(ValueOf(s), |s|) == s
  {
    if s != [] {
      var p := s[..|s| - 1];
      FixedValueOf(p);
      var d := s[|s| - 1] as int - '0' as int;
      assert ValueOf(s) / 10 == ValueOf(p) && ValueOf(s) % 10 == d;
      assert s == p + [s[|s| - 1]];
    }
  }

  lemma {:induction false} ValueOfDecimal(n: nat)
    ensures ValueOf(Decimal(n)) == n
  {
    if n >= 10 {
      ValueOfDecimal(n / 10);
      ValueOfSnoc(Decimal(n / 10), DigitChar(n % 10));
    }
  }

  /** Powers of ten grow with the exponent. */
  lemma {:induction false} Pow10Monotone(a: nat, b: nat)
    requires a <= b
    ensures Pow10(a) <= Pow10(b)
    decreases b
  {
    if a < b {
      Pow10Monotone(a, b - 1);
    }
  }

  /** The decimal rendering of n has d digits exactly when 10^(d-1) <= n < 10^d. */
  lemma {:induction false} DecimalLength(n: nat, d: nat)
    requires d >= 1
    ensures |Decimal(n)| == d <==> (d == 1 || Pow10(d - 1) <= n) && n < Pow10(d)
  {
    if n >= 10 && d >= 2 {
      DecimalLength(n / 10, d - 1);
    } else if n >= 10 {
      DecimalLength(n / 10, 1);
    }
  }
}

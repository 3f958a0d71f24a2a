/**
 * Decimal numerals of non-negative integers: the `str(n)` and `int(s)`
 * conversions that the range code applies to its bounds, and the facts
 * about them that the range and pattern proofs rely on.
 */
module Decimal {

  /** 10 to the power k. */
  function Pow10(k: nat): (r: nat)
    ensures r >= 1
  {
    if k == 0 then 1 else 10 * Pow10(k - 1)
  }

  predicate IsDigit(c: char) {
    '0' <= c <= '9'
  }

  predicate IsDigits(s: string) {
    forall i :: 0 <= i < |s| ==> IsDigit(s[i])
  }

  /** The form `str` gives a non-negative int: at least one digit, no leading zero. */
  predicate IsCanonical(s: string) {
    IsDigits(s) && |s| >= 1 && (|s| == 1 || s[0] != '0')
  }

  function DigitChar(d: nat): (c: char)
    requires d < 10
    ensures IsDigit(c)
  {
    ('0' as int + d) as char
  }

  function DigitValue(c: char): (d: nat)
    requires IsDigit(c)
    ensures d < 10 && DigitChar(d) == c
  {
    c as int - '0' as int
  }

  /** k copies of the character c. */
  function Repeat(c: char, k: nat): (s: string)
    ensures |s| == k && forall i :: 0 <= i < k ==> s[i] == c
  {
    seq(k, _ => c)
  }

  /** Python's `str(n)` for n >= 0. */
  function Str(n: nat): (s: string)
    ensures IsCanonical(s)
    ensures s[0] == '0' <==> n == 0
  {
    if n < 10 then [DigitChar(n)] else Str(n / 10) + [DigitChar(n % 10)]
  }

  /** Python's `int(s)` for a string of decimal digits; leading zeros are allowed. */
  function Int(s: string): (n: nat)
    requires IsDigits(s)
    ensures n < Pow10(|s|)
  {
    if s == [] then 0 else 10 * Int(s[..|s| - 1]) + DigitValue(s[|s| - 1])
  }

  /** `int(str(n)) == n`. */
  lemma {:induction false} IntOfStr(n: nat)
    ensures Int(Str(n)) == n
  {
    if n >= 10 {
      var s := Str(n);
      assert s[..|s| - 1] == Str(n / 10);
      IntOfStr(n / 10);
    }
  }

  /** The value of a concatenation: the digits of u are shifted left by |v| places. */
  lemma {:induction false} IntConcat(u: string, v: string)
    requires IsDigits(u) && IsDigits(v)
    ensures IsDigits(u + v)
    ensures Int(u + v) == Int(u) * Pow10(|v|) + Int(v)
  {
    if v == [] {
      assert u + v == u;
    } else {
      var w, c := v[..|v| - 1], v[|v| - 1];
      assert u + v == (u + w) + [c];
      IntConcat(u, w);
      IntSnoc(u + w, c);
      IntSnoc(w, c);
      assert v == w + [c];
      var x: int, p: int, y: int, d: int := Int(u), Pow10(|w|), Int(w), DigitValue(c);
      ShiftDigit(x, p, y, d);
    }
  }

  /** Appending one digit to a numeral multiplies its value by 10 and adds the digit. */
  lemma IntSnoc(t: string, c: char)
    requires IsDigits(t) && IsDigit(c)
    ensures IsDigits(t + [c]) && Int(t + [c]) == 10 * Int(t) + DigitValue(c)
  {
    assert (t + [c])[..|t|] == t;
  }

  /** Dividing 10q + d by 10, for a digit d, gives back q and d. */
  lemma DivMod10(q: nat, d: nat)
    requires d < 10
    ensures (10 * q + d) / 10 == q && (10 * q + d) % 10 == d
  {
  }

  lemma ShiftDigit(x: int, p: int, y: int, d: int)
    ensures 10 * (x * p + y) + d == x * (10 * p) + (10 * y + d)
  {
  }

  /** The value of a numeral read from its first digit: that digit is worth 10^(|s|-1). */
  lemma IntCons(s: string)
    requires IsDigits(s) && |s| >= 1
    ensures Int(s) == DigitValue(s[0]) * Pow10(|s| - 1) + Int(s[1..])
  {
    var head, tail := [s[0]], s[1..];
    assert s == head + tail;
    assert Int(head) == DigitValue(s[0]) by {
      assert head[..0] == [];
    }
    IntConcat(head, tail);
  }

  lemma MulSucc(x: int, p: int)
    ensures (x + 1) * p == x * p + p
  {
  }

  lemma MulMonotone(x: nat, y: nat, p: nat)
    requires x <= y
    ensures x * p <= y * p
  {
    assert y * p == x * p + (y - x) * p;
  }

  /**
   * Comparing two numerals of the same length by their leading digits:
   * x and y are the leading digits, u and v the values of the rest, p the
   * weight of the leading position.
   */
  lemma LeadingDigitOrder(x: nat, y: nat, u: nat, v: nat, p: nat)
    requires v < p && x * p + u <= y * p + v
    ensures x <= y
  {
    if x > y {
      MulMonotone(y + 1, x, p);
    }
  }

  /** `str(int(s)) == s` for every canonical numeral: the other half of the round trip. */
  lemma {:induction false} StrOfInt(s: string)
    requires IsCanonical(s)
    ensures Str(Int(s)) == s
  {
    if |s| > 1 {
      var p := s[..|s| - 1];
      var d := DigitValue(s[|s| - 1]);
      assert IsCanonical(p);
      IntCons(p);
      MulMonotone(1, DigitValue(p[0]), Pow10(|p| - 1));
      assert Int(p) >= 1;
      StrOfInt(p);
      var n := Int(s);
      assert n == 10 * Int(p) + d;
      assert n / 10 == Int(p) && n % 10 == d;
      assert s == p + [s[|s| - 1]];
    } else {
      assert Int(s) == DigitValue(s[0]);
    }
  }

  /** A string of zeros denotes 0. */
  lemma {:induction false} IntZeros(k: nat)
    ensures Int(Repeat('0', k)) == 0
  {
    if k > 0 {
      assert Repeat('0', k)[..k - 1] == Repeat('0', k - 1);
      IntZeros(k - 1);
    }
  }

  /** Numbers that are not smaller have numerals that are not shorter. */
  lemma {:induction false} StrLengthMonotone(m: nat, n: nat)
    requires m <= n
    ensures |Str(m)| <= |Str(n)|
  {
    if m >= 10 {
      StrLengthMonotone(m / 10, n / 10);
    }
  }

  /** s is digit-by-digit no larger than t. */
  predicate PointwiseLe(s: string, t: string) {
    |s| == |t| && forall i :: 0 <= i < |s| ==> s[i] <= t[i]
  }

  /** Raising digits never lowers the value. */
  lemma {:induction false} IntMonotone(s: string, t: string)
    requires IsDigits(s) && IsDigits(t) && PointwiseLe(s, t)
    ensures Int(s) <= Int(t)
  {
    if s != [] {
      IntMonotone(s[..|s| - 1], t[..|t| - 1]);
    }
  }

  /** Raising digits, at least one of them strictly, raises the value. */
  lemma {:induction false} IntStrictlyMonotone(s: string, t: string, k: nat)
    requires IsDigits(s) && IsDigits(t) && PointwiseLe(s, t)
    requires k < |s| && s[k] < t[k]
    ensures Int(s) < Int(t)
  {
    var n := |s| - 1;
    if k == n {
      IntMonotone(s[..n], t[..n]);
    } else {
      IntStrictlyMonotone(s[..n], t[..n], k);
    }
  }
}

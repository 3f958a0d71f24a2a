/**
 * NumRange: an inclusive interval [start, end] of non-negative integers, the
 * two greedy ways of growing one integer into such an interval (from_end,
 * from_start), the overlap test, join, and rendering as a digit pattern.
 */
module NumRanges {
  import opened Decimal
  import opened Regex

  datatype NumRange = NumRange(start: nat, end: nat) {
    /** What the constructor asserts of its arguments. */
    predicate Valid() {
      start <= end
    }

    predicate Contains(n: int) {
      start <= n <= end
    }
  }

  /** The constructor: it asserts start <= end (both bounds are naturals). */
  function New(start: nat, end: nat): (r: NumRange)
    requires start <= end
    ensures r.Valid() && r.Contains(start) && r.Contains(end)
  {
    NumRange(start, end)
  }

  // ---------------------------------------------------------------------------
  // The digit rewrites done by from_end and from_start
  // ---------------------------------------------------------------------------

  /**
   * The index at which a right-to-left scan stops: the last character that is
   * not c, or 0 when every character is c.
   */
  function Pivot(s: string, c: char): (p: nat)
    requires |s| > 0
    ensures p < |s|
    ensures forall i :: p < i < |s| ==> s[i] == c
    ensures p > 0 ==> s[p] != c
  {
    if s[|s| - 1] != c || |s| == 1 then |s| - 1 else Pivot(s[..|s| - 1], c)
  }

  /**
   * from_end's rewrite of a numeral: trailing 9s and the digit before them
   * become 0.
   */
  function RoundDownDigits(s: string): (t: string)
    requires IsDigits(s)
    ensures |t| == |s| && IsDigits(t) && PointwiseLe(t, s)
    ensures s != [] ==> t[|s| - 1] == '0'
  {
    if s == [] then []
    else if s[|s| - 1] == '9' then RoundDownDigits(s[..|s| - 1]) + "0"
    else s[..|s| - 1] + "0"
  }

  /**
   * from_start's rewrite of a numeral: trailing 0s and the digit before them
   * become 9.
   */
  function RoundUpDigits(s: string): (t: string)
    requires IsDigits(s)
    ensures |t| == |s| && IsDigits(t) && PointwiseLe(s, t)
    ensures s != [] ==> t[|s| - 1] == '9'
  {
    if s == [] then []
    else if s[|s| - 1] == '0' then RoundUpDigits(s[..|s| - 1]) + "9"
    else s[..|s| - 1] + "9"
  }

  /** RoundDownDigits keeps the digits before the pivot and zeroes the rest. */
  lemma {:induction false} RoundDownShape(s: string)
    requires IsDigits(s) && |s| > 0
    ensures RoundDownDigits(s) == s[..Pivot(s, '9')] + Repeat('0', |s| - Pivot(s, '9'))
  {
    var n := |s| - 1;
    if s[n] == '9' && n > 0 {
      RoundDownShape(s[..n]);
      assert s[..n][..Pivot(s, '9')] == s[..Pivot(s, '9')];
      assert Repeat('0', n - Pivot(s, '9')) + "0" == Repeat('0', |s| - Pivot(s, '9'));
    } else if s[n] == '9' {
      assert RoundDownDigits(s) == "0";
    }
  }

  /** RoundUpDigits keeps the digits before the pivot and sets the rest to 9. */
  lemma {:induction false} RoundUpShape(s: string)
    requires IsDigits(s) && |s| > 0
    ensures RoundUpDigits(s) == s[..Pivot(s, '0')] + Repeat('9', |s| - Pivot(s, '0'))
  {
    var n := |s| - 1;
    if s[n] == '0' && n > 0 {
      RoundUpShape(s[..n]);
      assert s[..n][..Pivot(s, '0')] == s[..Pivot(s, '0')];
      assert Repeat('9', n - Pivot(s, '0')) + "9" == Repeat('9', |s| - Pivot(s, '0'));
    } else if s[n] == '0' {
      assert RoundUpDigits(s) == "9";
    }
  }

  // ---------------------------------------------------------------------------
  // from_end and from_start
  // ---------------------------------------------------------------------------

  /**
   * The start of from_end(n), computed on the number: clear the last digit,
   * and when that digit was a 9 (and more digits remain) round the rest down
   * the same way.
   */
  function RoundDown(n: nat): (m: nat)
    ensures m <= n && m % 10 == 0
  {
    if n >= 10 && n % 10 == 9 then
      var k := RoundDown(n / 10);
      DivMod10(k, 0);
      DivMod10(n / 10, 9);
      10 * k
    else
      DivMod10(n / 10, 0);
      DivMod10(n / 10, n % 10);
      n - n % 10
  }

  /**
   * The end of from_start(n), computed on the number: set the last digit to 9,
   * and when that digit was a 0 (and more digits remain) round the rest up
   * the same way.
   */
  function RoundUp(n: nat): (m: nat)
    ensures m >= n && m % 10 == 9
  {
    if n >= 10 && n % 10 == 0 then
      var k := RoundUp(n / 10);
      DivMod10(k, 9);
      DivMod10(n / 10, 0);
      10 * k + 9
    else
      DivMod10(n / 10, 9);
      DivMod10(n / 10, n % 10);
      n - n % 10 + 9
  }

  /** Rounding the numeral of n down digit by digit gives RoundDown(n). */
  lemma {:induction false} RoundDownOfDigits(n: nat)
    ensures Int(RoundDownDigits(Str(n))) == RoundDown(n)
  {
    var s := Str(n);
    if n < 10 {
      assert RoundDownDigits(s) == "0" by {
        assert s[..0] == [];
      }
      IntSnoc([], '0');
    } else {
      var u := Str(n / 10);
      assert s[..|s| - 1] == u;
      if n % 10 == 9 {
        RoundDownOfDigits(n / 10);
        IntSnoc(RoundDownDigits(u), '0');
      } else {
        IntOfStr(n / 10);
        IntSnoc(u, '0');
      }
    }
  }

  /** Rounding the numeral of n up digit by digit gives RoundUp(n). */
  lemma {:induction false} RoundUpOfDigits(n: nat)
    ensures Int(RoundUpDigits(Str(n))) == RoundUp(n)
  {
    var s := Str(n);
    if n < 10 {
      assert RoundUpDigits(s) == "9" by {
        assert s[..0] == [];
      }
      IntSnoc([], '9');
    } else {
      var u := Str(n / 10);
      assert s[..|s| - 1] == u;
      if n % 10 == 0 {
        RoundUpOfDigits(n / 10);
        IntSnoc(RoundUpDigits(u), '9');
      } else {
        IntOfStr(n / 10);
        IntSnoc(u, '9');
      }
    }
  }

  /** The range from_end(n) returns. */
  function RangeEndingAt(n: nat): (r: NumRange)
    ensures r.Valid() && r.end == n && r.start % 10 == 0
  {
    NumRange(RoundDown(n), n)
  }

  /** The range from_start(n) returns. */
  function RangeStartingAt(n: nat): (r: NumRange)
    ensures r.Valid() && r.start == n && r.end % 10 == 9
  {
    NumRange(n, RoundUp(n))
  }

  /** The pivot is the one position that is not c (or the first) after which every digit is c. */
  lemma PivotAt(s: string, c: char, q: nat)
    requires q < |s| && (q > 0 ==> s[q] != c)
    requires forall k :: q < k < |s| ==> s[k] == c
    ensures Pivot(s, c) == q
  {
  }

  /** A string that agrees with s before q and is d from q on. */
  lemma FilledFrom(s: string, t: string, q: nat, d: char)
    requires |t| == |s| && q <= |s|
    requires forall k :: 0 <= k < q ==> t[k] == s[k]
    requires forall k :: q <= k < |s| ==> t[k] == d
    ensures t == s[..q] + Repeat(d, |s| - q)
  {
    var u := s[..q] + Repeat(d, |s| - q);
    forall k | 0 <= k < |s|
      ensures t[k] == u[k]
    {
      if k >= q {
        assert u[k] == Repeat(d, |s| - q)[k - q];
      }
    }
  }

  /** Where the from_end loop stops at position q, the digits it left are RoundDownDigits(s). */
  lemma ZeroedFrom(s: string, ln: string, q: nat)
    requires IsDigits(s) && |ln| == |s| && q < |s|
    requires q > 0 ==> s[q] != '9'
    requires forall k :: q < k < |s| ==> s[k] == '9'
    requires forall k :: 0 <= k < q ==> ln[k] == s[k]
    requires forall k :: q <= k < |s| ==> ln[k] == '0'
    ensures ln == RoundDownDigits(s)
  {
    PivotAt(s, '9', q);
    RoundDownShape(s);
    FilledFrom(s, ln, q, '0');
  }

  /** Where the from_start loop stops at position q, the digits it left are RoundUpDigits(s). */
  lemma NinesFrom(s: string, ln: string, q: nat)
    requires IsDigits(s) && |ln| == |s| && q < |s|
    requires q > 0 ==> s[q] != '0'
    requires forall k :: q < k < |s| ==> s[k] == '0'
    requires forall k :: 0 <= k < q ==> ln[k] == s[k]
    requires forall k :: q <= k < |s| ==> ln[k] == '9'
    ensures ln == RoundUpDigits(s)
  {
    PivotAt(s, '0', q);
    RoundUpShape(s);
    FilledFrom(s, ln, q, '9');
  }

  /**
   * from_end: walk the digits of n from the right, zeroing each one and
   * stopping after the first one that was not 9.
   */
  method FromEnd(n: nat) returns (r: NumRange)
    ensures r == RangeEndingAt(n)
    ensures r.Valid() && r.end == n && r.start <= n && r.start % 10 == 0
  {
    var ln := Str(n);
    ghost var s, stopped := ln, false;
    for i := |ln| downto 0
      invariant |ln| == |s| && !stopped
      invariant forall k :: 0 <= k < i ==> ln[k] == s[k]
      invariant forall k :: i <= k < |s| ==> ln[k] == '0' && s[k] == '9'
    {
      var p := ln[i];
      ln := ln[i := '0'];
      if p != '9' {
        ZeroedFrom(s, ln, i);
        stopped := true;
        break;
      }
    }
    assert ln == RoundDownDigits(s) by {
      if !stopped {
        ZeroedFrom(s, ln, 0);
      }
    }
    assert Int(ln) == RoundDown(n) by {
      RoundDownOfDigits(n);
    }
    r := New(Int(ln), n);
  }

  /**
   * from_start: walk the digits of n from the right, setting each one to 9 and
   * stopping after the first one that was not 0.
   */
  method FromStart(n: nat) returns (r: NumRange)
    ensures r == RangeStartingAt(n)
    ensures r.Valid() && r.start == n && r.end >= n && r.end % 10 == 9
  {
    var ln := Str(n);
    ghost var s, stopped := ln, false;
    for i := |ln| downto 0
      invariant |ln| == |s| && !stopped
      invariant forall k :: 0 <= k < i ==> ln[k] == s[k]
      invariant forall k :: i <= k < |s| ==> ln[k] == '9' && s[k] == '0'
    {
      var p := ln[i];
      ln := ln[i := '9'];
      if p != '0' {
        NinesFrom(s, ln, i);
        stopped := true;
        break;
      }
    }
    assert ln == RoundUpDigits(s) by {
      if !stopped {
        NinesFrom(s, ln, 0);
      }
    }
    assert Int(ln) == RoundUp(n) by {
      RoundUpOfDigits(n);
    }
    r := New(n, Int(ln));
  }

  // ---------------------------------------------------------------------------
  // join and overlaps
  // ---------------------------------------------------------------------------

  /** join(a, b): from the start of a to the end of b. */
  function Join(a: NumRange, b: NumRange): (r: NumRange)
    requires a.start <= b.end
    ensures r.Valid() && r.start == a.start && r.end == b.end
  {
    New(a.start, b.end)
  }

  /** a.overlaps(b), compared with strict inequalities. */
  predicate Overlaps(a: NumRange, b: NumRange)
    ensures Overlaps(a, b) && a.Valid() && b.Valid() ==> a.Contains(b.start) || b.Contains(a.start)
    ensures a.end == b.start || b.end == a.start ==> !Overlaps(a, b)
  {
    a.end > b.start && b.end > a.start
  }

  /** The overlap test does not depend on the order of its arguments. */
  lemma OverlapsSymmetric(a: NumRange, b: NumRange)
    ensures Overlaps(a, b) <==> Overlaps(b, a)
  {
  }

  /**
   * Overlapping valid ranges share an integer; ranges that share two or more
   * integers overlap; ranges that only touch at one endpoint do not, and
   * neither do two one-point ranges at the same value.
   */
  lemma OverlapsMeaning(a: NumRange, b: NumRange)
    requires a.Valid() && b.Valid()
    ensures Overlaps(a, b) ==> exists x :: a.Contains(x) && b.Contains(x)
    ensures (exists x :: a.Contains(x) && b.Contains(x) && a.Contains(x + 1) && b.Contains(x + 1))
            ==> Overlaps(a, b)
    ensures a.end == b.start ==> !Overlaps(a, b)
    ensures a.start == a.end == b.start == b.end ==> !Overlaps(a, b)
  {
    if Overlaps(a, b) {
      var x := if a.start <= b.start then b.start else a.start;
      assert a.Contains(x) && b.Contains(x);
    }
  }

  // ---------------------------------------------------------------------------
  // to_regex
  // ---------------------------------------------------------------------------

  /** The unanchored pattern of r: one token per position of zip(str(start), str(end)). */
  function Pattern(r: NumRange): string {
    Text(Tokens(Str(r.start), Str(r.end)))
  }

  /** The pattern to_regex returns, wrapped in ^...$ when anchor is set. */
  function RegexOf(r: NumRange, anchor: bool): (q: string)
    ensures !anchor ==> q == Pattern(r)
    ensures anchor ==> |q| == |Pattern(r)| + 2 && q[0] == '^' && q[|q| - 1] == '$' && q[1..|q| - 1] == Pattern(r)
  {
    if anchor then "^" + Pattern(r) + "$" else Pattern(r)
  }

  /** to_regex: append one piece per digit pair, then join them and anchor if asked. */
  method ToRegex(r: NumRange, anchor: bool) returns (result: string)
    ensures result == RegexOf(r, anchor)
    ensures anchor ==> result == "^" + RegexOf(r, false) + "$"
  {
    var a := Str(r.start);
    var b := Str(r.end);
    var ts := Tokens(a, b);
    result := "";
    for i := 0 to Min(|a|, |b|)
      invariant result == Text(ts[..i])
    {
      assert ts[..i + 1] == ts[..i] + [TokenFor(a[i], b[i])];
      TextAppend(ts[..i], TokenFor(a[i], b[i]));
      if a[i] == b[i] {
        result := result + [a[i]];
      } else if a[i] == '0' && b[i] == '9' {
        result := result + "\\d";
      } else {
        result := result + ['[', a[i], '-', b[i], ']'];
      }
    }
    assert ts[..Min(|a|, |b|)] == ts;
    if anchor {
      result := "^" + result + "$";
    }
  }

  // ---------------------------------------------------------------------------
  // When a pattern means exactly its range
  // ---------------------------------------------------------------------------

  /**
   * a and b agree before position p, a[p] <= b[p], and after p a has only 0s
   * and b only 9s: the shape of numerals whose range is one digit pattern.
   */
  ghost predicate AlignedAt(a: string, b: string, p: nat) {
    |a| == |b| && p < |a| && a[..p] == b[..p] && a[p] <= b[p]
    && forall i :: p < i < |a| ==> a[i] == '0' && b[i] == '9'
  }

  /** The numerals of r's bounds have one length and are aligned at some position. */
  ghost predicate Renderable(r: NumRange) {
    exists p :: AlignedAt(Str(r.start), Str(r.end), p)
  }

  /** Of two numerals of the same length, the one with the larger value has a leading digit no smaller. */
  lemma LeadingDigitMonotone(a: string, s: string)
    requires IsDigits(a) && IsDigits(s) && |a| == |s| >= 1
    requires Int(a) <= Int(s)
    ensures a[0] <= s[0]
  {
    IntCons(a);
    IntCons(s);
    LeadingDigitOrder(DigitValue(a[0]), DigitValue(s[0]), Int(a[1..]), Int(s[1..]), Pow10(|a| - 1));
  }

  /**
   * Between two aligned numerals, a numeral of the same length that lies
   * between them in value also lies between them digit by digit.
   */
  lemma {:induction false} WithinOfAligned(a: string, b: string, s: string, p: nat)
    requires IsDigits(a) && IsDigits(b) && IsDigits(s) && |s| == |a|
    requires AlignedAt(a, b, p)
    requires Int(a) <= Int(s) <= Int(b)
    ensures Within(a, b, s)
  {
    assert a[0] <= s[0] <= b[0] by {
      LeadingDigitMonotone(a, s);
      LeadingDigitMonotone(s, b);
    }
    if p > 0 {
      var a', b', s' := a[1..], b[1..], s[1..];
      assert a[0] == s[0] == b[0] by {
        assert a[..p][0] == b[..p][0];
      }
      TailsOrdered(a, s, b);
      assert AlignedAt(a', b', p - 1) by {
        assert a'[..p - 1] == a[..p][1..];
        assert b'[..p - 1] == b[..p][1..];
      }
      WithinOfAligned(a', b', s', p - 1);
      WithinCons(a, b, s);
    }
  }

  /** Numerals that share their leading digit are ordered as their tails are. */
  lemma TailsOrdered(a: string, s: string, b: string)
    requires IsDigits(a) && IsDigits(s) && IsDigits(b) && |a| == |s| == |b| >= 1
    requires a[0] == s[0] == b[0] && Int(a) <= Int(s) <= Int(b)
    ensures IsDigits(a[1..]) && IsDigits(s[1..]) && IsDigits(b[1..])
    ensures Int(a[1..]) <= Int(s[1..]) <= Int(b[1..])
  {
    IntCons(a);
    IntCons(s);
    IntCons(b);
  }

  /** Lying between a and b digit by digit, from the head and from the tails. */
  lemma WithinCons(a: string, b: string, s: string)
    requires |a| == |b| == |s| >= 1 && a[0] <= s[0] <= b[0]
    requires Within(a[1..], b[1..], s[1..])
    ensures Within(a, b, s)
  {
    forall i | 1 <= i < |s|
      ensures a[i] <= s[i] <= b[i]
    {
      assert a[1..][i - 1] <= s[1..][i - 1] <= b[1..][i - 1];
    }
  }

  /**
   * The meaning of a rendered range: when the bounds of r are aligned, its
   * pattern matches the numeral of n exactly when n lies in r.
   */
  lemma PatternMatchesRange(r: NumRange, n: nat)
    requires r.Valid() && Renderable(r)
    ensures Parse(Pattern(r)).Some?
    ensures FullMatch(Pattern(r), Str(n)) <==> r.Contains(n)
  {
    var a, b, s := Str(r.start), Str(r.end), Str(n);
    var p :| AlignedAt(a, b, p);
    TokensMatchWithin(a, b, s);
    ParseText(Tokens(a, b));
    IntOfStr(r.start);
    IntOfStr(r.end);
    IntOfStr(n);
    if Within(a, b, s) {
      IntMonotone(a, s);
      IntMonotone(s, b);
    }
    if r.Contains(n) {
      StrLengthMonotone(r.start, n);
      StrLengthMonotone(n, r.end);
      WithinOfAligned(a, b, s, p);
    }
  }

  /** The anchored pattern of r matches a numeral exactly when its unanchored pattern matches all of it. */
  lemma AnchoredPatternMatches(r: NumRange, s: string)
    ensures AnchoredMatch(RegexOf(r, true), s) <==> FullMatch(RegexOf(r, false), s)
  {
    var q := RegexOf(r, true);
    assert q[1..|q| - 1] == Pattern(r);
  }

  /** Every range from_start returns renders as one pattern. */
  lemma RangeStartingAtRenderable(n: nat)
    ensures Renderable(RangeStartingAt(n))
    ensures AlignedAt(Str(n), Str(RangeStartingAt(n).end), Pivot(Str(n), '0'))
  {
    var s := Str(n);
    var t := RoundUpDigits(s);
    assert RangeStartingAt(n).end == Int(t) by {
      RoundUpOfDigits(n);
    }
    RoundUpCanonical(s);
    StrOfInt(t);
  }

  /** Rounding a numeral up keeps it canonical and aligned with it at its pivot. */
  lemma RoundUpCanonical(s: string)
    requires IsCanonical(s)
    ensures IsCanonical(RoundUpDigits(s))
    ensures AlignedAt(s, RoundUpDigits(s), Pivot(s, '0'))
  {
    var p := Pivot(s, '0');
    var t := RoundUpDigits(s);
    assert t == s[..p] + Repeat('9', |s| - p) by {
      RoundUpShape(s);
    }
    ShapeParts(s, t, p, '9');
    if |s| > 1 {
      assert t[0] == (if p > 0 then s[0] else '9');
    }
  }

  /** The digits before q kept, the rest replaced by c: the prefix and each later digit. */
  lemma ShapeParts(s: string, t: string, q: nat, c: char)
    requires q <= |s| && t == s[..q] + Repeat(c, |s| - q)
    ensures |t| == |s| && t[..q] == s[..q]
    ensures forall i :: q <= i < |s| ==> t[i] == c
  {
    forall i | q <= i < |s|
      ensures t[i] == c
    {
      assert t[i] == Repeat(c, |s| - q)[i - q];
    }
  }

  /**
   * A range from_end returns renders as one pattern unless it was widened to
   * start at 0 from a numeral of two or more digits (from_end(999) = [0, 999]).
   */
  lemma RangeEndingAtRenderable(n: nat)
    requires RangeEndingAt(n).start != 0 || n < 10
    ensures Renderable(RangeEndingAt(n))
  {
    var s := Str(n);
    var p := Pivot(s, '9');
    var t := RoundDownDigits(s);
    assert RangeEndingAt(n).start == Int(t) by {
      RoundDownOfDigits(n);
    }
    assert n < 10 ==> |s| == 1;
    RoundDownCanonical(s);
    assert Str(Int(t)) == t by {
      StrOfInt(t);
    }
    assert AlignedAt(t, s, p);
  }

  /** Rounding down keeps a numeral canonical unless it zeroes every digit of a longer numeral. */
  lemma RoundDownCanonical(s: string)
    requires IsCanonical(s)
    requires Int(RoundDownDigits(s)) != 0 || |s| == 1
    ensures IsCanonical(RoundDownDigits(s))
    ensures RoundDownDigits(s)[..Pivot(s, '9')] == s[..Pivot(s, '9')]
    ensures forall i :: Pivot(s, '9') <= i < |s| ==> RoundDownDigits(s)[i] == '0'
  {
    var p := Pivot(s, '9');
    var t := RoundDownDigits(s);
    assert t == s[..p] + Repeat('0', |s| - p) by {
      RoundDownShape(s);
    }
    ShapeParts(s, t, p, '0');
    if |s| > 1 && p == 0 {
      assert t == Repeat('0', |s|);
      IntZeros(|s|);
      assert false;
    }
    if |s| > 1 {
      assert t[0] == s[0];
    }
  }

  /**
   * If sd exceeds sa at some digit before sd's pivot, and sa has only 0s from
   * the pivot on, then rounding sd down still leaves it at least 10 above sa.
   */
  lemma RoundDownStaysAbove(sa: string, sd: string, i: nat)
    requires IsDigits(sa) && IsDigits(sd) && PointwiseLe(sa, sd) && |sd| > 0
    requires i < Pivot(sd, '9') && sa[i] < sd[i]
    requires forall k :: Pivot(sd, '9') <= k < |sa| ==> sa[k] == '0'
    ensures Int(RoundDownDigits(sd)) >= Int(sa) + 10
  {
    var q, len := Pivot(sd, '9'), |sd|;
    var ta, td := sa[..q], sd[..q];
    var zeros := Repeat('0', len - q);
    var w := Pow10(len - q);
    assert Int(RoundDownDigits(sd)) == Int(td) * w by {
      RoundDownShape(sd);
      IntConcat(td, zeros);
      IntZeros(len - q);
    }
    assert Int(sa) == Int(ta) * w by {
      assert sa == ta + zeros;
      IntConcat(ta, zeros);
      IntZeros(len - q);
    }
    assert Int(ta) < Int(td) by {
      assert ta[i] < td[i];
      IntStrictlyMonotone(ta, td, i);
    }
    assert w >= 10 by {
      assert Pow10(len - q) == 10 * Pow10(len - q - 1);
    }
    ScaleGap(Int(ta), Int(td), w);
  }

  /** Scaling two different naturals by w >= 10 leaves them at least 10 apart. */
  lemma ScaleGap(x: nat, y: nat, w: nat)
    requires x < y && w >= 10
    ensures y * w >= x * w + 10
  {
    MulMonotone(x + 1, y, w);
    MulSucc(x, w);
  }

  /**
   * If rounding sd down stays close to sa, which is zero from sd's pivot on,
   * then sa and sd agree before that pivot.
   */
  lemma RoundDownKeepsPrefix(sa: string, sd: string)
    requires IsDigits(sa) && IsDigits(sd) && PointwiseLe(sa, sd) && |sd| > 0
    requires forall k :: Pivot(sd, '9') <= k < |sa| ==> sa[k] == '0'
    requires Int(RoundDownDigits(sd)) < Int(sa) + 10
    ensures sa[..Pivot(sd, '9')] == sd[..Pivot(sd, '9')]
  {
    var q := Pivot(sd, '9');
    if sa[..q] != sd[..q] {
      var i :| 0 <= i < q && sa[i] != sd[i];
      RoundDownStaysAbove(sa, sd, i);
      assert false;
    }
  }

  /** A string squeezed between two strings that share a prefix shares it too. */
  lemma SqueezedPrefix(a: string, b: string, s: string, p: nat)
    requires Within(a, b, s) && p <= |s| && a[..p] == b[..p]
    ensures a[..p] == s[..p]
  {
    forall i | 0 <= i < p
      ensures a[i] == s[i]
    {
      assert a[..p][i] == b[..p][i];
    }
  }

  /**
   * The boundary merge stays renderable: when a from_start range [a, b] and a
   * from_end range ending at d with a < d <= b and starting at or below a + 1
   * are joined, the joined range [a, d] renders as one pattern.
   */
  lemma JoinRenderable(a: nat, d: nat)
    requires a < d <= RangeStartingAt(a).end
    requires RangeEndingAt(d).start <= a + 1
    ensures Renderable(NumRange(a, d))
  {
    var left := RangeStartingAt(a);
    var sa, sb, sd := Str(a), Str(left.end), Str(d);
    var p := Pivot(sa, '0');
    assert AlignedAt(sa, sb, p) by {
      RangeStartingAtRenderable(a);
    }
    assert Within(sa, sb, sd) by {
      RangeStartingAtRenderable(a);
      PatternMatchesRange(left, d);
      TokensMatchWithin(sa, sb, sd);
      ParseText(Tokens(sa, sb));
    }
    SqueezedPrefix(sa, sb, sd, p);
    var q := Pivot(sd, '9');
    if q <= p {
      assert AlignedAt(sa, sd, p);
    } else {
      assert sa[..q] == sd[..q] by {
        RoundDownOfDigits(d);
        IntOfStr(a);
        RoundDownKeepsPrefix(sa, sd);
      }
      assert AlignedAt(sa, sd, q);
    }
  }
}

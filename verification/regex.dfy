/**
 * The fragment of regular-expression syntax that the range renderer emits:
 * a sequence of digit literals, the any-digit escape `\d`, and digit classes
 * `[a-b]`. A parser reads such text back into tokens, and a matcher gives the
 * meaning of a pattern when it has to match a whole string (the anchored
 * `^...$` form).
 */
module Regex {
  import opened Decimal

  datatype Option<T> = None | Some(value: T)

  datatype Token = Lit(c: char) | AnyDigit | Class(lo: char, hi: char)

  /** The tokens a renderer may produce: literals and class bounds are digits. */
  predicate WellFormed(t: Token) {
    match t
    case Lit(c) => IsDigit(c)
    case AnyDigit => true
    case Class(lo, hi) => IsDigit(lo) && IsDigit(hi)
  }

  /** The text of one token. */
  function TokenText(t: Token): string {
    match t
    case Lit(c) => [c]
    case AnyDigit => "\\d"
    case Class(lo, hi) => ['[', lo, '-', hi, ']']
  }

  /** The text of a token sequence: the texts of its tokens, in order. */
  function Text(ts: seq<Token>): string {
    if ts == [] then "" else TokenText(ts[0]) + Text(ts[1..])
  }

  lemma {:induction false} TextAppend(ts: seq<Token>, t: Token)
    ensures Text(ts + [t]) == Text(ts) + TokenText(t)
  {
    if ts == [] {
      assert [] + [t] == [t];
      assert [t][1..] == [];
    } else {
      assert (ts + [t])[1..] == ts[1..] + [t];
      TextAppend(ts[1..], t);
    }
  }

  function Prepend(t: Token, rest: Option<seq<Token>>): Option<seq<Token>> {
    match rest
    case None => None
    case Some(ts) => Some([t] + ts)
  }

  /** Reads pattern text back into tokens; None when the text is outside the fragment. */
  function Parse(p: string): Option<seq<Token>>
    decreases |p|
  {
    if p == [] then Some([])
    else if IsDigit(p[0]) then Prepend(Lit(p[0]), Parse(p[1..]))
    else if |p| >= 2 && p[0] == '\\' && p[1] == 'd' then Prepend(AnyDigit, Parse(p[2..]))
    else if |p| >= 5 && p[0] == '[' && IsDigit(p[1]) && p[2] == '-' && IsDigit(p[3]) && p[4] == ']'
    then Prepend(Class(p[1], p[3]), Parse(p[5..]))
    else None
  }

  /** Rendering loses nothing: parsing the text of well-formed tokens gives the tokens back. */
  lemma {:induction false} ParseText(ts: seq<Token>)
    requires forall i :: 0 <= i < |ts| ==> WellFormed(ts[i])
    ensures Parse(Text(ts)) == Some(ts)
  {
    if ts != [] {
      var t, rest := ts[0], ts[1..];
      ParseText(rest);
      var p := TokenText(t) + Text(rest);
      assert p[|TokenText(t)|..] == Text(rest);
      assert [t] + rest == ts;
    }
  }

  /** The characters one token accepts. */
  predicate TokenMatches(t: Token, c: char) {
    match t
    case Lit(x) => c == x
    case AnyDigit => IsDigit(c)
    case Class(lo, hi) => lo <= c <= hi
  }

  /** A token sequence matches all of s: one token per character. */
  predicate MatchesAll(ts: seq<Token>, s: string) {
    |ts| == |s| && forall i :: 0 <= i < |s| ==> TokenMatches(ts[i], s[i])
  }

  /** Pattern p matches the whole of s, as `^p$` would. */
  predicate FullMatch(p: string, s: string) {
    Parse(p).Some? && MatchesAll(Parse(p).value, s)
  }

  /** An anchored pattern `^p$` matches s. */
  predicate AnchoredMatch(q: string, s: string) {
    |q| >= 2 && q[0] == '^' && q[|q| - 1] == '$' && FullMatch(q[1..|q| - 1], s)
  }

  /** The token `to_regex` emits for the digit pair (x, y) at one position. */
  function TokenFor(x: char, y: char): (t: Token)
    ensures WellFormed(t) <==> IsDigit(x) && IsDigit(y)
    ensures x <= y ==> TokenMatches(t, x) && TokenMatches(t, y)
  {
    if x == y then Lit(x)
    else if x == '0' && y == '9' then AnyDigit
    else Class(x, y)
  }

  function Min(a: int, b: int): int {
    if a <= b then a else b
  }

  /** One token per position of `zip(a, b)`: the shorter string decides the length. */
  function Tokens(a: string, b: string): (ts: seq<Token>)
    ensures |ts| == Min(|a|, |b|)
  {
    seq(Min(|a|, |b|), i requires 0 <= i < Min(|a|, |b|) => TokenFor(a[i], b[i]))
  }

  /** s lies between a and b position by position. */
  predicate Within(a: string, b: string, s: string) {
    |a| == |s| && |b| == |s| && forall i :: 0 <= i < |s| ==> a[i] <= s[i] <= b[i]
  }

  /** The token of (x, y) accepts exactly the characters from x to y. */
  lemma TokenForMatches(x: char, y: char, c: char)
    requires IsDigit(x) && IsDigit(y)
    ensures WellFormed(TokenFor(x, y))
    ensures TokenMatches(TokenFor(x, y), c) <==> x <= c <= y
  {
  }

  /**
   * The tokens of two equal-length digit strings accept exactly the strings
   * that lie between them position by position.
   */
  lemma TokensMatchWithin(a: string, b: string, s: string)
    requires IsDigits(a) && IsDigits(b) && |a| == |b|
    ensures forall i :: 0 <= i < |Tokens(a, b)| ==> WellFormed(Tokens(a, b)[i])
    ensures MatchesAll(Tokens(a, b), s) <==> Within(a, b, s)
  {
    var ts := Tokens(a, b);
    forall i | 0 <= i < |ts|
      ensures WellFormed(ts[i])
      ensures i < |s| ==> (TokenMatches(ts[i], s[i]) <==> a[i] <= s[i] <= b[i])
    {
      if i < |s| {
        TokenForMatches(a[i], b[i], s[i]);
      } else {
        TokenForMatches(a[i], b[i], '0');
      }
    }
  }
}

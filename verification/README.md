# RegexNumRange in Dafny

RegexNumRange turns an inclusive range `[start, end]` of non-negative
integers into a list of regular-expression fragments. The union of the
fragments matches the decimal numerals of exactly that range. For example,
`0..500` gives `\d`, `[1-9]\d`, `[1-4]\d\d` and `500`.

The module has two parts. The first is the value type `NumRange` with these
operations:

- `from_end(n)`: the range ending at `n` whose start is `n` with its last
  digit that is not 9, and every digit after it, set to 0 (every digit when
  all are 9). So `from_end(150)` is `[150, 150]` and `from_end(199)` is
  `[0, 199]`.
- `from_start(n)`: the range starting at `n` whose end is `n` with its last
  digit that is not 0, and every digit after it, set to 9 (every digit when
  all are 0). So `from_start(124)` is `[124, 129]` and `from_start(100)` is
  `[100, 999]`.
- `join` and `overlaps`.
- `to_regex`: renders a range as one token per digit position.

The second part is `generate_regex`. It builds its ranges in three steps:

1. A left sweep, `left_bounds`, of `from_start` ranges.
2. A right sweep, `right_bounds`, of `from_end` ranges, run from the start of
   the last left range.
3. A reconciliation of the two ranges where the sweeps meet: they are joined
   when they overlap and kept apart otherwise.

The ranges are then rendered.

The project has four modules:

- `Decimal` (`decimal.dfy`) models Python's `str(n)` and `int(s)` on
  naturals, as digit strings. It proves that `int(str(n)) == n` and that
  `str(int(s)) == s` for canonical numerals.
- `Regex` (`regex.dfy`) gives a meaning to the pattern fragment the renderer
  emits. A fragment is a sequence of digit literals, `\d` and classes
  `[a-b]`. A parser reads such text back into tokens, and a matcher says when
  a pattern matches a whole numeral, as `^p$` would.
- `NumRanges` (`num_range.dfy`) holds the `NumRange` datatype and the
  following:
  - `from_end`/`from_start` as loops over a digit list, proved equal to
    arithmetic roundings.
  - `join`, `overlaps` and the `to_regex` loop.
  - The theorem that a range whose bounds are aligned renders to a pattern
    matching exactly the numerals in the range. Bounds `a` and `b` are
    aligned at a position `p` when their numerals have equal length, agree
    before `p`, have `a[p] <= b[p]`, and continue after `p` with 0s in `a`
    against 9s in `b`. For `[124, 129]` the position is the last digit.
- `Generate` (`generate.dfy`) models `left_bounds`, `right_bounds` and
  `generate_regex` as loops, proved equal to recursive sweep functions. It
  also proves:
  - The merged ranges tile `[start, end]`.
  - Every merged range is aligned.
  - So the patterns partition the range: the numeral of `n` is matched by
    some pattern iff `start <= n <= end`, and by at most one.
  - The anchored output is the unanchored one wrapped in `^…$`.
  - The four documented examples hold.

Python's `str` and `int` are never called on anything but naturals and the
digit strings built from them. They appear as the functions `Str` and `Int`.
`''.join` of a list of pieces appears as appending each piece to a string.

## Model

| member | source | states |
|---|---|---|
| Decimal.Str | RegexNumRange.py:28 | `str(n)` is a canonical numeral: digits only, non-empty, no leading zero; its first digit is 0 only for n = 0 |
| Decimal.Int | RegexNumRange.py:34-35 | `int` of a digit string of length k is below 10^k |
| Decimal.IntOfStr | RegexNumRange.py:34-35 | `int(str(n)) == n` for every natural n |
| Decimal.StrOfInt | RegexNumRange.py:61 | `str(int(s)) == s` for every canonical numeral s, so the renderer sees the very digits the sweeps produced |
| NumRanges.New | RegexNumRange.py:18-23 | the constructor's `start <= end` assertion is its precondition; the range it builds is valid and contains both bounds |
| NumRanges.RoundDownDigits | RegexNumRange.py:29-34 | the digit rewrite of `from_end` keeps the length, never raises a digit, and always leaves a final 0 |
| NumRanges.RoundUpDigits | RegexNumRange.py:41-46 | the digit rewrite of `from_start` keeps the length, raises digits only, and always leaves a final 9 |
| NumRanges.RoundDownShape | RegexNumRange.py:29-33 | the `from_end` rewrite keeps the digits before the last non-9 digit (the first digit when all are 9) and zeroes that digit and everything after it |
| NumRanges.RoundUpShape | RegexNumRange.py:41-45 | the `from_start` rewrite keeps the digits before the last non-0 digit (the first digit when all are 0) and sets that digit and everything after it to 9 |
| NumRanges.RoundDown | RegexNumRange.py:26-35 | the start `from_end(n)` computes is at most n and a multiple of 10 |
| NumRanges.RoundUp | RegexNumRange.py:38-47 | the end `from_start(n)` computes is at least n and ends in digit 9 |
| NumRanges.RoundDownOfDigits | RegexNumRange.py:28-35 | `int` of the `from_end` digit rewrite of `str(n)` is the arithmetic rounding RoundDown(n) |
| NumRanges.RoundUpOfDigits | RegexNumRange.py:40-47 | `int` of the `from_start` digit rewrite of `str(n)` is the arithmetic rounding RoundUp(n) |
| NumRanges.RangeEndingAt | RegexNumRange.py:26-35 | the range `from_end(n)` returns is valid, ends at n and starts at a multiple of 10 |
| NumRanges.RangeStartingAt | RegexNumRange.py:38-47 | the range `from_start(n)` returns is valid, starts at n and ends in digit 9 |
| NumRanges.FromEnd | RegexNumRange.py:26-35 | the right-to-left loop with its `break` returns a range with `end == n`, `start <= n` and `start % 10 == 0`, the range RangeEndingAt(n) |
| NumRanges.FromStart | RegexNumRange.py:38-47 | the mirror loop returns a range with `start == n`, `end >= n` and `end % 10 == 9`, the range RangeStartingAt(n) |
| NumRanges.Join | RegexNumRange.py:50-51 | `join(a, b)` is the valid range from a's start to b's end; the constructor's assertion makes `a.start <= b.end` its precondition |
| NumRanges.Overlaps | RegexNumRange.py:53-54 | when valid ranges overlap, one contains the start of the other; ranges where one ends exactly where the other starts never overlap |
| NumRanges.OverlapsSymmetric | RegexNumRange.py:53-54 | `a.overlaps(b) == b.overlaps(a)` |
| NumRanges.OverlapsMeaning | RegexNumRange.py:53-54 | overlapping ranges share a number; ranges sharing two consecutive numbers overlap; ranges that only touch at an endpoint, and two equal one-point ranges, do not overlap |
| NumRanges.ToRegex | RegexNumRange.py:59-72 | the loop appends one piece per position of `zip(str(start), str(end))` (literal, `\d` for 0/9, `[a-b]` otherwise); with `anchor` the result is `"^" + unanchored + "$"` |
| NumRanges.RegexOf | RegexNumRange.py:69-72 | without `anchor` the result is the joined pattern; with it, the result is that pattern between a leading `^` and a trailing `$` |
| NumRanges.PatternMatchesRange | RegexNumRange.py:59-69 | for a range with aligned bounds the pattern parses, and it matches the numeral of n in full iff n lies in the range |
| NumRanges.AnchoredPatternMatches | RegexNumRange.py:70-71 | the anchored pattern matches a string as `^…$` iff the unanchored pattern matches all of it |
| NumRanges.RangeStartingAtRenderable | RegexNumRange.py:38-47 | every `from_start` range has aligned bounds, so it renders to a pattern that means exactly that range |
| NumRanges.RangeEndingAtRenderable | RegexNumRange.py:26-35 | a `from_end` range has aligned bounds unless it was widened to start at 0 from a numeral of two or more digits (`from_end(499)` is `[0, 499]`) |
| NumRanges.JoinRenderable | RegexNumRange.py:108 | the join of the last left range `[a, b]` with a right range ending at d, with `a < d <= b` and starting at most at a + 1, still has aligned bounds |
| Regex.Tokens | RegexNumRange.py:61 | one token per position of the `zip`: as many tokens as the shorter numeral has digits |
| Regex.TokenFor | RegexNumRange.py:62-68 | the piece for the digit pair (x, y) is well-formed exactly when both are digits, and when x <= y it accepts both x and y |
| Regex.TokenForMatches | RegexNumRange.py:62-68 | the token for the digit pair (x, y) accepts exactly the characters from x to y |
| Regex.TokensMatchWithin | RegexNumRange.py:61-68 | the tokens of two equal-length numerals accept exactly the strings lying between them digit by digit |
| Regex.ParseText | RegexNumRange.py:69 | the text of well-formed tokens parses back to those tokens, so the joined pieces lose nothing |
| Generate.Reverse | RegexNumRange.py:94 | `list(reversed(xs))` has the length of xs and holds its elements in the opposite order |
| Generate.LeftSweep | RegexNumRange.py:79-85 | `left_bounds(s, e)` is empty iff `s >= e`; otherwise its first range starts at s |
| Generate.LeftSweepLast | RegexNumRange.py:79-85 | the last range of `left_bounds(s, e)` ends at e - 1 or later |
| Generate.LeftSweepContiguous | RegexNumRange.py:79-85 | the ranges of `left_bounds` are valid and each starts one past the end of the previous one |
| Generate.LeftSweepPiece | RegexNumRange.py:82-84 | every range of `left_bounds(s, e)` is `from_start` of its own start, which lies below e |
| Generate.RightSweep | RegexNumRange.py:87-94 | `right_bounds(s, e)` is empty iff `e <= s`; otherwise its last range ends at e |
| Generate.RightSweepFirst | RegexNumRange.py:87-94 | the first range of `right_bounds(s, e)` is `from_end` of its end, ends above s and starts at most at s + 1 |
| Generate.RightSweepContiguous | RegexNumRange.py:87-94 | the ranges of `right_bounds` are valid and each starts one past the end of the previous one |
| Generate.RightSweepPiece | RegexNumRange.py:89-92 | every range of `right_bounds(s, e)` is `from_end` of its own end, ends above s, and starts above s + 1 unless it is the first |
| Generate.LeftBounds | RegexNumRange.py:79-85 | the `while` loop returns the left sweep LeftSweep(start, end); it terminates because each step moves past the range just added |
| Generate.RightBounds | RegexNumRange.py:87-94 | the `while` loop followed by the reversal returns the right sweep RightSweep(start, end) |
| Generate.GenerateRegex | RegexNumRange.py:74-112 | pop, sweep, take `right[0]`, extend, append or join, extend and render: the result is Patterns(start, end, anchor), about which the partition lemmas below are proved |
| Generate.RenderAll | RegexNumRange.py:112 | the final list comprehension renders every merged range with `to_regex(anchor)`, in order |
| Generate.Rendered | RegexNumRange.py:112 | one pattern per range, in order: the i-th is `to_regex(anchor)` of the i-th range |
| Generate.Merge | RegexNumRange.py:101-110 | the assembled list keeps every left range but the last in place, ends with every right range but the first, starts its meeting entry at the start of the last left range, and is one shorter than both lists together exactly when the meeting ranges overlap |
| Generate.MergedRanges | RegexNumRange.py:74-110 | the ranges `generate_regex(start, end)` renders are non-empty, valid and contiguous, start at start and end at end |
| Generate.Patterns | RegexNumRange.py:74-112 | `generate_regex` returns one pattern per merged range: the i-th is `to_regex(anchor)` of the i-th merged range |
| Generate.Seam | RegexNumRange.py:104-108 | the last left range never ends where the first right range starts (one ends in 9, the other starts at a multiple of 10); so when they do not overlap the last left range is a single number a, the first right range starts at a + 1, and both render as one pattern each; when they do overlap, their join renders as one pattern |
| Generate.MergeContiguous | RegexNumRange.py:101-110 | the assembled list is non-empty, valid and contiguous, starts where the left sweep starts and ends where the right sweep ends |
| Generate.SweepsMeet | RegexNumRange.py:96-99 | with `start < end` the left sweep is non-empty (so `pop` succeeds), the right sweep from the popped start is non-empty (so `right[0]` exists), and they meet as Seam needs |
| Generate.MergeAt | RegexNumRange.py:101-110 | where each assembled range comes from: a left range, the last left range, the first right range, their join, or a later right range |
| Generate.LeftSweepRenderable | RegexNumRange.py:79-85 | every range of `left_bounds` has aligned bounds |
| Generate.RightSweepRenderable | RegexNumRange.py:87-94 | every range of `right_bounds` after the first has aligned bounds |
| Generate.MergedRenderable | RegexNumRange.py:96-112 | every rendered range has aligned bounds, so the `zip` in `to_regex` never drops a digit |
| Generate.AllMergedRenderable | RegexNumRange.py:96-112 | all merged ranges have aligned bounds at once |
| Generate.ContiguousCover | RegexNumRange.py:76 | a contiguous list of valid ranges covers a number iff the number lies between the first start and the last end, and no number lies in two of its ranges |
| Generate.PatternMeansRange | RegexNumRange.py:104-112 | the i-th pattern, anchored or not, matches the numeral of n iff n lies in the i-th merged range |
| Generate.PatternsPartition | RegexNumRange.py:104-112 | the unanchored renderings of contiguous ranges with aligned bounds match the numeral of n in full iff n lies between the first start and the last end, and at most one of them does |
| Generate.AnchoredPatternsPartition | RegexNumRange.py:104-112 | the same for anchored renderings read as `^…$` matches |
| Generate.GenerateRegexPartitions | RegexNumRange.py:74-112 | with `start < end`, the numeral of n is matched in full by some returned pattern iff `start <= n <= end`, and by at most one pattern |
| Generate.GenerateRegexAnchoredPartitions | RegexNumRange.py:74-112 | the same partition for `anchor=True`, reading each pattern as an anchored `^…$` match |
| Generate.AnchoredIsWrapped | RegexNumRange.py:132-134 | the anchored result has the length of the unanchored one and each of its patterns is `"^" + p + "$"` for the corresponding p |
| Generate.Example100To199 | RegexNumRange.py:118 | `generate_regex(100, 199)` is `['1\d\d']` |
| Generate.Example0To500 | RegexNumRange.py:119 | `generate_regex(0, 500)` is `['\d', '[1-9]\d', '[1-4]\d\d', '500']` |
| Generate.Example124To137 | RegexNumRange.py:120 | `generate_regex(124, 137)` is `['12[4-9]', '13[0-7]']` |
| Generate.Example29To34 | RegexNumRange.py:121 | `generate_regex(29, 34)` is `['29', '3[0-4]']` |

## Left out

- `__repr__` (RegexNumRange.py:56-57) is debug formatting only.
- The `isinstance` assertions (RegexNumRange.py:19, 27, 39) are left out. The bounds are `nat`, which also covers the non-negativity assertion at line 21.
- The `__main__` self-test (RegexNumRange.py:116-135) is not modelled as a program, because it only prints and raises. Its four cases are the Example lemmas, and its anchored comparison is AnchoredIsWrapped.
- Generate.GenerateRegex requires `start < end`. When `start == end`, `left_bounds` returns `[]` and `left.pop()` at RegexNumRange.py:97 raises `IndexError`, so no single literal pattern comes back for that case.
- The code defines no error classes. Bad bounds fail only through the `assert`s at RegexNumRange.py:19-21, which the `nat` bound types and the preconditions of New and Join stand for.
- Regex matching is modelled only for the fragment the renderer emits (digit literals, `\d`, `[a-b]`, and `^`/`$` around a whole pattern). Python's `re` engine is not modelled.
- The in-place `list` mutations are modelled as reassignment of `seq` values: the character list in `from_end`/`from_start`, and `append`, `pop`, `extend` and slicing in `generate_regex`. No list is shared, so no aliasing is lost.

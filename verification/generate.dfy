/**
 * `generate_regex`: a greedy sweep up from the start with `from_start`, a
 * greedy sweep down from the end with `from_end`, a reconciliation of the two
 * ranges where the sweeps meet, and the rendering of every range with
 * `to_regex`. The theorems at the end say that the merged ranges tile the
 * requested range and that the patterns match exactly its numerals.
 */
module Generate {
  import opened Decimal
  import opened Regex
  import opened NumRanges

  /** Each range starts one past the end of the range before it. */
  predicate Contiguous(rs: seq<NumRange>) {
    forall i :: 0 < i < |rs| ==> rs[i].start == rs[i - 1].end + 1
  }

  predicate AllValid(rs: seq<NumRange>) {
    forall i :: 0 <= i < |rs| ==> rs[i].Valid()
  }

  /** The reversal of a list, as `list(reversed(xs))` gives it. */
  function Reverse<T>(xs: seq<T>): (ys: seq<T>)
    ensures |ys| == |xs|
    ensures forall i :: 0 <= i < |xs| ==> ys[i] == xs[|xs| - 1 - i]
  {
    if xs == [] then [] else [xs[|xs| - 1]] + Reverse(xs[..|xs| - 1])
  }

  /**
   * The ranges `left_bounds(s, e)` collects: `from_start` ranges, each
   * starting one past the last, for as long as the next start is below e.
   */
  function LeftSweep(s: nat, e: nat): (rs: seq<NumRange>)
    decreases e - s
    ensures |rs| == 0 <==> s >= e
    ensures |rs| > 0 ==> rs[0].start == s
  {
    if s < e then
      var r := RangeStartingAt(s);
      [r] + LeftSweep(r.end + 1, e)
    else
      []
  }

  /** The last range of the left sweep reaches at least e - 1. */
  lemma {:induction false} LeftSweepLast(s: nat, e: nat)
    requires s < e
    ensures LeftSweep(s, e)[|LeftSweep(s, e)| - 1].end + 1 >= e
    decreases e - s
  {
    var r := RangeStartingAt(s);
    var rs, rest := LeftSweep(s, e), LeftSweep(r.end + 1, e);
    assert rs == [r] + rest;
    if r.end + 1 < e {
      LeftSweepLast(r.end + 1, e);
      assert rs[|rs| - 1] == rest[|rest| - 1];
    } else {
      assert rest == [];
      assert rs[|rs| - 1] == r;
    }
  }

  /** The left sweep is a contiguous list of valid ranges. */
  lemma {:induction false} LeftSweepContiguous(s: nat, e: nat)
    ensures Contiguous(LeftSweep(s, e)) && AllValid(LeftSweep(s, e))
    decreases e - s
  {
    if s < e {
      var r := RangeStartingAt(s);
      var rest := LeftSweep(r.end + 1, e);
      assert LeftSweep(s, e) == [r] + rest;
      LeftSweepContiguous(r.end + 1, e);
      if |rest| > 0 {
        assert rest[0].start == RangeStartingAt(r.end + 1).start;
      }
      PrependContiguous(r, rest);
    }
  }

  /** Every range of the left sweep is the `from_start` range of its own start, which is below e. */
  lemma {:induction false} LeftSweepPiece(s: nat, e: nat, i: nat)
    requires i < |LeftSweep(s, e)|
    ensures LeftSweep(s, e)[i] == RangeStartingAt(LeftSweep(s, e)[i].start)
    ensures LeftSweep(s, e)[i].start < e
    decreases i
  {
    var r := RangeStartingAt(s);
    var rest := LeftSweep(r.end + 1, e);
    assert LeftSweep(s, e) == [r] + rest;
    if i > 0 {
      LeftSweepPiece(r.end + 1, e, i - 1);
      assert LeftSweep(s, e)[i] == rest[i - 1];
    } else {
      assert LeftSweep(s, e)[0] == r && r.start == s;
    }
  }

  lemma PrependContiguous(r: NumRange, rest: seq<NumRange>)
    requires Contiguous(rest) && AllValid(rest) && r.Valid()
    requires |rest| > 0 ==> rest[0].start == r.end + 1
    ensures Contiguous([r] + rest) && AllValid([r] + rest)
    ensures forall i :: 0 < i < |rest| + 1 ==> ([r] + rest)[i] == rest[i - 1]
  {
    var zs := [r] + rest;
    forall i | 0 < i < |zs|
      ensures zs[i] == rest[i - 1]
    {
    }
  }

  /**
   * The ranges `right_bounds(s, e)` returns: `from_end` ranges, each ending
   * one below the start of the last, for as long as the next end is above s,
   * listed from low to high.
   */
  function RightSweep(s: nat, e: int): (rs: seq<NumRange>)
    decreases e
    ensures |rs| == 0 <==> e <= s
    ensures |rs| > 0 ==> rs[|rs| - 1].end == e
  {
    if s < e then
      var r := RangeEndingAt(e);
      RightSweep(s, r.start - 1) + [r]
    else
      []
  }

  /** The right sweep begins with a `from_end` range that ends above s and starts at most at s + 1. */
  lemma {:induction false} RightSweepFirst(s: nat, e: int)
    requires s < e
    ensures var rs := RightSweep(s, e);
      rs[0] == RangeEndingAt(rs[0].end) && rs[0].start <= s + 1 && rs[0].end > s
    decreases e
  {
    var r := RangeEndingAt(e);
    var rs, init := RightSweep(s, e), RightSweep(s, r.start - 1);
    assert rs == init + [r];
    if s < r.start - 1 {
      RightSweepFirst(s, r.start - 1);
      assert rs[0] == init[0];
    } else {
      assert init == [];
      assert rs[0] == r;
    }
  }

  /** The right sweep is a contiguous list of valid ranges. */
  lemma {:induction false} RightSweepContiguous(s: nat, e: int)
    ensures Contiguous(RightSweep(s, e)) && AllValid(RightSweep(s, e))
    decreases e
  {
    if s < e {
      var r := RangeEndingAt(e);
      var init := RightSweep(s, r.start - 1);
      assert RightSweep(s, e) == init + [r];
      RightSweepContiguous(s, r.start - 1);
      AppendContiguous(init, r);
    }
  }

  /** Every range of the right sweep is the `from_end` range of its own end, and ends above s. */
  lemma {:induction false} RightSweepPiece(s: nat, e: int, i: nat)
    requires i < |RightSweep(s, e)|
    ensures RightSweep(s, e)[i] == RangeEndingAt(RightSweep(s, e)[i].end)
    ensures RightSweep(s, e)[i].end > s
    ensures i > 0 ==> RightSweep(s, e)[i].start > s + 1
    decreases e
  {
    var r := RangeEndingAt(e);
    var init := RightSweep(s, r.start - 1);
    assert RightSweep(s, e) == init + [r];
    if i < |init| {
      RightSweepPiece(s, r.start - 1, i);
      assert RightSweep(s, e)[i] == init[i];
    }
  }

  lemma AppendContiguous(init: seq<NumRange>, r: NumRange)
    requires Contiguous(init) && AllValid(init) && r.Valid()
    requires |init| > 0 ==> r.start == init[|init| - 1].end + 1
    ensures Contiguous(init + [r]) && AllValid(init + [r])
    ensures forall i :: 0 <= i < |init| ==> (init + [r])[i] == init[i]
  {
  }

  /** `left_bounds`: the loop appends `from_start(s)` and moves s past its end. */
  method LeftBounds(start: nat, end: nat) returns (result: seq<NumRange>)
    ensures result == LeftSweep(start, end)
  {
    result := [];
    var s := start;
    while s < end
      invariant result + LeftSweep(s, end) == LeftSweep(start, end)
      decreases end - s
    {
      var r := FromStart(s);
      assert LeftSweep(s, end) == [r] + LeftSweep(r.end + 1, end);
      result := result + [r];
      s := r.end + 1;
    }
    assert result + [] == result;
  }

  /** `right_bounds`: the loop appends `from_end(e)`, moves e below its start, and reverses at the end. */
  method RightBounds(start: nat, end: nat) returns (result: seq<NumRange>)
    ensures result == RightSweep(start, end)
  {
    var acc: seq<NumRange> := [];
    var e: int := end;
    while start < e
      invariant RightSweep(start, e) + Reverse(acc) == RightSweep(start, end)
      decreases e
    {
      var r := FromEnd(e);
      assert RightSweep(start, e) == RightSweep(start, r.start - 1) + [r];
      assert Reverse(acc + [r]) == [r] + Reverse(acc) by {
        assert (acc + [r])[..|acc|] == acc;
      }
      acc := acc + [r];
      e := r.start - 1;
    }
    result := Reverse(acc);
    assert [] + result == result;
  }

  /**
   * The reconciliation step: every left range but the last, then the last
   * left range and the first right range (joined into one when they
   * overlap), then the remaining right ranges.
   */
  function Merge(left: seq<NumRange>, right: seq<NumRange>): (ms: seq<NumRange>)
    requires |left| > 0 && |right| > 0
    ensures |ms| == |left| + |right| - (if Overlaps(left[|left| - 1], right[0]) then 1 else 0)
    ensures ms[..|left| - 1] == left[..|left| - 1]
    ensures ms[|ms| - |right| + 1..] == right[1..]
    ensures ms[|left| - 1].start == left[|left| - 1].start
  {
    var lastLeft, firstRight := left[|left| - 1], right[0];
    left[..|left| - 1]
    + (if !Overlaps(lastLeft, firstRight) then [lastLeft, firstRight] else [Join(lastLeft, firstRight)])
    + right[1..]
  }

  /** The ranges `generate_regex(start, end)` renders. */
  function MergedRanges(start: nat, end: nat): (ms: seq<NumRange>)
    requires start < end
    ensures |ms| > 0 && Contiguous(ms) && AllValid(ms)
    ensures ms[0].start == start && ms[|ms| - 1].end == end
  {
    var left := LeftSweep(start, end);
    SweepsMeet(start, end);
    SweepsSeam(start, end);
    var right := RightSweep(left[|left| - 1].start, end);
    MergeContiguous(left, right);
    Merge(left, right)
  }

  /** `to_regex(anchor)` of every range, in order. */
  function Rendered(rs: seq<NumRange>, anchor: bool): (ps: seq<string>)
    ensures |ps| == |rs|
    ensures forall i :: 0 <= i < |rs| ==> ps[i] == RegexOf(rs[i], anchor)
  {
    if rs == [] then [] else Rendered(rs[..|rs| - 1], anchor) + [RegexOf(rs[|rs| - 1], anchor)]
  }

  /** The patterns `generate_regex(start, end, anchor)` returns. */
  function Patterns(start: nat, end: nat, anchor: bool): (ps: seq<string>)
    requires start < end
    ensures |ps| == |MergedRanges(start, end)|
    ensures forall i :: 0 <= i < |ps| ==> ps[i] == RegexOf(MergedRanges(start, end)[i], anchor)
  {
    Rendered(MergedRanges(start, end), anchor)
  }

  /**
   * `generate_regex`: pop the last left range, sweep right from its start,
   * take the first right range off, assemble, and render every range.
   */
  method GenerateRegex(start: nat, end: nat, anchor: bool) returns (patterns: seq<string>)
    requires start < end
    ensures patterns == Patterns(start, end, anchor)
  {
    var left := LeftBounds(start, end);
    LeftSweepPiece(start, end, |left| - 1);
    ghost var wholeLeft := left;
    var lastLeft := left[|left| - 1];
    left := left[..|left| - 1];
    var right := RightBounds(lastLeft.start, end);
    ghost var wholeRight := right;
    var firstRight := right[0];
    right := right[1..];
    var merged: seq<NumRange> := [];
    merged := merged + left;
    if !Overlaps(lastLeft, firstRight) {
      merged := merged + [lastLeft];
      merged := merged + [firstRight];
    } else {
      merged := merged + [Join(lastLeft, firstRight)];
    }
    merged := merged + right;
    assert merged == Merge(wholeLeft, wholeRight);
    assert merged == MergedRanges(start, end);
    patterns := RenderAll(merged, anchor);
  }

  /** The closing list comprehension of `generate_regex`: `to_regex(anchor)` of each range. */
  method RenderAll(rs: seq<NumRange>, anchor: bool) returns (patterns: seq<string>)
    ensures patterns == Rendered(rs, anchor)
  {
    patterns := [];
    for i := 0 to |rs|
      invariant patterns == Rendered(rs[..i], anchor)
    {
      var p := ToRegex(rs[i], anchor);
      assert rs[..i + 1][..i] == rs[..i];
      assert Rendered(rs[..i + 1], anchor) == patterns + [p];
      patterns := patterns + [p];
    }
    assert rs[..|rs|] == rs;
  }

  /** Joining two contiguous lists whose seam is contiguous keeps them contiguous. */
  lemma ContiguousAppend(xs: seq<NumRange>, ys: seq<NumRange>)
    requires Contiguous(xs) && Contiguous(ys) && AllValid(xs) && AllValid(ys)
    requires |xs| > 0 && |ys| > 0 ==> ys[0].start == xs[|xs| - 1].end + 1
    ensures Contiguous(xs + ys) && AllValid(xs + ys)
  {
    var zs := xs + ys;
    forall i | 0 < i < |zs|
      ensures zs[i].start == zs[i - 1].end + 1
    {
      if i > |xs| {
        assert zs[i] == ys[i - |xs|] && zs[i - 1] == ys[i - 1 - |xs|];
      }
    }
  }

  /**
   * Where the sweeps meet. The last left range ll is from_start of its start a
   * and reaches e - 1; the first right range fr is from_end of its end d > a
   * and starts at most at a + 1. When they do not overlap, ll is the single
   * number a and fr starts at a + 1; when they do, fr ends inside ll and their
   * join [a, d] still renders as one pattern.
   */
  lemma Seam(ll: NumRange, fr: NumRange, e: nat)
    requires ll == RangeStartingAt(ll.start) && fr == RangeEndingAt(fr.end)
    requires ll.start < fr.end <= e <= ll.end + 1 && fr.start <= ll.start + 1
    ensures ll.end != fr.start
    ensures !Overlaps(ll, fr) ==> ll.start == ll.end && fr.start == ll.end + 1
    ensures !Overlaps(ll, fr) ==> Renderable(ll) && Renderable(fr)
    ensures Overlaps(ll, fr) ==> Renderable(Join(ll, fr))
  {
    if Overlaps(ll, fr) {
      assert fr.end <= ll.end;
      JoinRenderable(ll.start, fr.end);
    } else {
      assert ll.end % 10 == 9 && fr.start % 10 == 0;
      RangeStartingAtRenderable(ll.start);
      RangeEndingAtRenderable(fr.end);
    }
  }

  /**
   * The reconciliation keeps a tiling: when both lists are contiguous and
   * their meeting ranges either abut or overlap, the merged list is
   * contiguous, starts where left starts and ends where right ends.
   */
  lemma MergeContiguous(left: seq<NumRange>, right: seq<NumRange>)
    requires |left| > 0 && |right| > 0
    requires Contiguous(left) && AllValid(left) && Contiguous(right) && AllValid(right)
    requires var ll, fr := left[|left| - 1], right[0];
      !Overlaps(ll, fr) ==> fr.start == ll.end + 1
    ensures var ms := Merge(left, right);
      |ms| > 0 && Contiguous(ms) && AllValid(ms)
      && ms[0].start == left[0].start && ms[|ms| - 1].end == right[|right| - 1].end
  {
    var ll, fr := left[|left| - 1], right[0];
    var init, tail := left[..|left| - 1], right[1..];
    var mid := if !Overlaps(ll, fr) then [ll, fr] else [Join(ll, fr)];
    assert Contiguous(init) && AllValid(init);
    assert Contiguous(tail) && AllValid(tail);
    assert Contiguous(mid) && AllValid(mid);
    assert |init| > 0 ==> mid[0].start == init[|init| - 1].end + 1 by {
      if |init| > 0 {
        assert left[|left| - 1].start == left[|left| - 2].end + 1;
      }
    }
    ContiguousAppend(init, mid);
    assert |tail| > 0 ==> tail[0].start == (init + mid)[|init + mid| - 1].end + 1 by {
      if |tail| > 0 {
        assert right[1].start == right[0].end + 1;
      }
    }
    ContiguousAppend(init + mid, tail);
    var ms := init + mid + tail;
    assert |ms| == |init| + |mid| + |tail| && |mid| > 0;
    assert ms[|ms| - 1].end == right[|right| - 1].end by {
      if |tail| > 0 {
        assert ms[|ms| - 1] == tail[|tail| - 1];
      } else {
        assert ms[|ms| - 1] == mid[|mid| - 1];
      }
    }
    assert Merge(left, right) == ms;
  }

  /**
   * What the two sweeps give generate_regex: the left sweep is non-empty, its
   * last range ll starts below end and reaches end - 1; the right sweep from
   * ll's start is non-empty, its first range ends above ll's start, no later
   * than end, and starts at most one past ll's start.
   */
  lemma SweepsMeet(start: nat, end: nat)
    requires start < end
    ensures var left := LeftSweep(start, end);
      |left| > 0 && Contiguous(left) && AllValid(left) && left[0].start == start
      && var ll := left[|left| - 1];
      var right := RightSweep(ll.start, end);
      ll == RangeStartingAt(ll.start) && ll.start < end <= ll.end + 1
      && |right| > 0 && Contiguous(right) && AllValid(right) && right[|right| - 1].end == end
      && right[0] == RangeEndingAt(right[0].end)
      && ll.start < right[0].end <= end && right[0].start <= ll.start + 1
  {
    var left := LeftSweep(start, end);
    var k := |left| - 1;
    LeftSweepPiece(start, end, k);
    LeftSweepLast(start, end);
    LeftSweepContiguous(start, end);
    var ll := left[k];
    var right := RightSweep(ll.start, end);
    RightSweepFirst(ll.start, end);
    RightSweepContiguous(ll.start, end);
    LastEndMonotone(right, 0);
  }

  /** The seam of the two sweeps of generate_regex, as Seam describes it. */
  lemma SweepsSeam(start: nat, end: nat)
    requires start < end
    ensures var left := LeftSweep(start, end);
      |left| > 0 && var ll := left[|left| - 1];
      var right := RightSweep(ll.start, end);
      |right| > 0 && var fr := right[0];
      && (!Overlaps(ll, fr) ==> ll.start == ll.end && fr.start == ll.end + 1)
      && (!Overlaps(ll, fr) ==> Renderable(ll) && Renderable(fr))
      && (Overlaps(ll, fr) ==> Renderable(Join(ll, fr)))
  {
    SweepsMeet(start, end);
    var left := LeftSweep(start, end);
    var right := RightSweep(left[|left| - 1].start, end);
    Seam(left[|left| - 1], right[0], end);
  }

  /** Where each range of Merge(left, right) comes from. */
  lemma MergeAt(left: seq<NumRange>, right: seq<NumRange>, i: nat)
    requires |left| > 0 && |right| > 0 && i < |Merge(left, right)|
    ensures var k, ll, fr := |left| - 1, left[|left| - 1], right[0];
      var m := if Overlaps(ll, fr) then 1 else 2;
      && (i < k ==> Merge(left, right)[i] == left[i])
      && (i == k && Overlaps(ll, fr) ==> Merge(left, right)[i] == Join(ll, fr))
      && (i == k && !Overlaps(ll, fr) ==> Merge(left, right)[i] == ll)
      && (i == k + 1 && !Overlaps(ll, fr) ==> Merge(left, right)[i] == fr)
      && (i >= k + m ==> Merge(left, right)[i] == right[i - k - m + 1])
  {
  }

  /** Every range of the left sweep renders as one pattern. */
  lemma LeftSweepRenderable(s: nat, e: nat, i: nat)
    requires i < |LeftSweep(s, e)|
    ensures Renderable(LeftSweep(s, e)[i])
  {
    LeftSweepPiece(s, e, i);
    RangeStartingAtRenderable(LeftSweep(s, e)[i].start);
  }

  /** Every range of the right sweep after its first renders as one pattern. */
  lemma RightSweepRenderable(s: nat, e: int, j: nat)
    requires 0 < j < |RightSweep(s, e)|
    ensures Renderable(RightSweep(s, e)[j])
  {
    RightSweepPiece(s, e, j);
    RangeEndingAtRenderable(RightSweep(s, e)[j].end);
  }

  /** Every merged range renders as one pattern. */
  lemma MergedRenderable(start: nat, end: nat, i: nat)
    requires start < end && i < |MergedRanges(start, end)|
    ensures Renderable(MergedRanges(start, end)[i])
  {
    SweepsMeet(start, end);
    var left := LeftSweep(start, end);
    var k := |left| - 1;
    var ll := left[k];
    var right := RightSweep(ll.start, end);
    var fr := right[0];
    var m := if Overlaps(ll, fr) then 1 else 2;
    assert MergedRanges(start, end) == Merge(left, right);
    MergeAt(left, right, i);
    if i < k {
      LeftSweepRenderable(start, end, i);
    } else if i >= k + m {
      RightSweepRenderable(ll.start, end, i - k - m + 1);
    } else {
      SweepsSeam(start, end);
    }
  }

  /**
   * A non-empty contiguous list of valid ranges covers exactly the numbers from
   * its first start to its last end, and no number lies in two of its ranges.
   */
  lemma ContiguousCover(rs: seq<NumRange>, n: int)
    requires |rs| > 0 && Contiguous(rs) && AllValid(rs)
    ensures rs[0].start <= n <= rs[|rs| - 1].end <==> exists i :: 0 <= i < |rs| && rs[i].Contains(n)
    ensures forall i, j :: 0 <= i < j < |rs| && rs[i].Contains(n) ==> !rs[j].Contains(n)
  {
    if rs[0].start <= n <= rs[|rs| - 1].end {
      CoverReaches(rs, n);
    }
    forall i | 0 <= i < |rs| && rs[i].Contains(n)
      ensures rs[0].start <= n <= rs[|rs| - 1].end
    {
      StartsAbove(rs, 0, i);
      LastEndMonotone(rs, i);
    }
    forall i, j | 0 <= i < j < |rs| && rs[i].Contains(n)
      ensures !rs[j].Contains(n)
    {
      EndsBelow(rs, i, j);
    }
  }

  /** Every number from the first start to the last end lies in some range. */
  lemma {:induction false} CoverReaches(rs: seq<NumRange>, n: int)
    requires |rs| > 0 && Contiguous(rs) && AllValid(rs)
    requires rs[0].start <= n <= rs[|rs| - 1].end
    ensures exists i :: 0 <= i < |rs| && rs[i].Contains(n)
    decreases |rs|
  {
    var k := |rs| - 1;
    if n < rs[k].start {
      var init := rs[..k];
      assert Contiguous(init) && AllValid(init);
      CoverReaches(init, n);
      var i :| 0 <= i < k && init[i].Contains(n);
      assert rs[i].Contains(n);
    } else {
      assert rs[k].Contains(n);
    }
  }

  /** In a contiguous list of valid ranges, an earlier range ends before a later one starts. */
  lemma {:induction false} EndsBelow(rs: seq<NumRange>, i: nat, j: nat)
    requires Contiguous(rs) && AllValid(rs) && i < j < |rs|
    ensures rs[i].end < rs[j].start
    decreases j - i
  {
    if i + 1 < j {
      EndsBelow(rs, i + 1, j);
    }
  }

  /** In a contiguous list of valid ranges, no range ends beyond the last one. */
  lemma {:induction false} LastEndMonotone(rs: seq<NumRange>, j: nat)
    requires Contiguous(rs) && AllValid(rs) && j < |rs|
    ensures rs[j].end <= rs[|rs| - 1].end
    decreases |rs| - j
  {
    if j + 1 < |rs| {
      LastEndMonotone(rs, j + 1);
    }
  }

  /** In a contiguous list of valid ranges, no range starts below an earlier one's start. */
  lemma {:induction false} StartsAbove(rs: seq<NumRange>, i: nat, j: nat)
    requires Contiguous(rs) && AllValid(rs) && i <= j < |rs|
    ensures rs[i].start <= rs[j].start
    decreases j - i
  {
    if i < j {
      StartsAbove(rs, i, j - 1);
    }
  }

  // ---------------------------------------------------------------------------
  // What the patterns of generate_regex match
  // ---------------------------------------------------------------------------

  /** The i-th pattern matches the numeral of n exactly when n lies in the i-th merged range. */
  lemma PatternMeansRange(start: nat, end: nat, n: nat, i: nat)
    requires start < end && i < |MergedRanges(start, end)|
    ensures |Patterns(start, end, false)| == |Patterns(start, end, true)| == |MergedRanges(start, end)|
    ensures FullMatch(Patterns(start, end, false)[i], Str(n)) <==> MergedRanges(start, end)[i].Contains(n)
    ensures AnchoredMatch(Patterns(start, end, true)[i], Str(n)) <==> MergedRanges(start, end)[i].Contains(n)
  {
    var r := MergedRanges(start, end)[i];
    MergedRenderable(start, end, i);
    PatternMatchesRange(r, n);
    AnchoredPatternMatches(r, Str(n));
  }

  /** Every merged range renders as a single literal pattern. */
  lemma AllMergedRenderable(start: nat, end: nat)
    requires start < end
    ensures forall i :: 0 <= i < |MergedRanges(start, end)| ==> Renderable(MergedRanges(start, end)[i])
  {
    forall i | 0 <= i < |MergedRanges(start, end)|
      ensures Renderable(MergedRanges(start, end)[i])
    {
      MergedRenderable(start, end, i);
    }
  }

  /** Renderable contiguous ranges give patterns that partition their span. */
  lemma PatternsPartition(ms: seq<NumRange>, ps: seq<string>, n: nat)
    requires |ms| > 0 && Contiguous(ms) && AllValid(ms) && |ps| == |ms|
    requires forall i :: 0 <= i < |ms| ==> Renderable(ms[i]) && ps[i] == RegexOf(ms[i], false)
    ensures ms[0].start <= n <= ms[|ms| - 1].end <==> exists i :: 0 <= i < |ps| && FullMatch(ps[i], Str(n))
    ensures forall i, j :: 0 <= i < j < |ps| && FullMatch(ps[i], Str(n)) ==> !FullMatch(ps[j], Str(n))
  {
    ContiguousCover(ms, n);
    forall i | 0 <= i < |ps|
      ensures FullMatch(ps[i], Str(n)) <==> ms[i].Contains(n)
    {
      PatternMatchesRange(ms[i], n);
    }
  }

  /** The same for anchored patterns read as `^...$` matches. */
  lemma AnchoredPatternsPartition(ms: seq<NumRange>, qs: seq<string>, n: nat)
    requires |ms| > 0 && Contiguous(ms) && AllValid(ms) && |qs| == |ms|
    requires forall i :: 0 <= i < |ms| ==> Renderable(ms[i]) && qs[i] == RegexOf(ms[i], true)
    ensures ms[0].start <= n <= ms[|ms| - 1].end <==> exists i :: 0 <= i < |qs| && AnchoredMatch(qs[i], Str(n))
    ensures forall i, j :: 0 <= i < j < |qs| && AnchoredMatch(qs[i], Str(n)) ==> !AnchoredMatch(qs[j], Str(n))
  {
    ContiguousCover(ms, n);
    forall i | 0 <= i < |qs|
      ensures AnchoredMatch(qs[i], Str(n)) <==> ms[i].Contains(n)
    {
      PatternMatchesRange(ms[i], n);
      AnchoredPatternMatches(ms[i], Str(n));
    }
  }

  /**
   * The unanchored patterns of generate_regex(start, end) partition
   * [start, end]: a number's numeral is matched in full by some pattern
   * exactly when the number lies between start and end, and by no more than one.
   */
  lemma GenerateRegexPartitions(start: nat, end: nat, n: nat)
    requires start < end
    ensures var ps := Patterns(start, end, false);
      (start <= n <= end <==> exists i :: 0 <= i < |ps| && FullMatch(ps[i], Str(n)))
      && forall i, j :: 0 <= i < j < |ps| && FullMatch(ps[i], Str(n)) ==> !FullMatch(ps[j], Str(n))
  {
    AllMergedRenderable(start, end);
    PatternsPartition(MergedRanges(start, end), Patterns(start, end, false), n);
  }

  /** The same partition for the anchored patterns, read as `^...$` matches. */
  lemma GenerateRegexAnchoredPartitions(start: nat, end: nat, n: nat)
    requires start < end
    ensures var qs := Patterns(start, end, true);
      (start <= n <= end <==> exists i :: 0 <= i < |qs| && AnchoredMatch(qs[i], Str(n)))
      && forall i, j :: 0 <= i < j < |qs| && AnchoredMatch(qs[i], Str(n)) ==> !AnchoredMatch(qs[j], Str(n))
  {
    AllMergedRenderable(start, end);
    AnchoredPatternsPartition(MergedRanges(start, end), Patterns(start, end, true), n);
  }

  /** The anchored result is the unanchored one with each pattern wrapped in ^ and $. */
  lemma AnchoredIsWrapped(start: nat, end: nat)
    requires start < end
    ensures |Patterns(start, end, true)| == |Patterns(start, end, false)|
    ensures forall i :: 0 <= i < |Patterns(start, end, true)| ==>
      Patterns(start, end, true)[i] == "^" + Patterns(start, end, false)[i] + "$"
  {
  }

  // ---------------------------------------------------------------------------
  // The documented examples
  // ---------------------------------------------------------------------------

  /** Rendered is pinned down by its elements. */
  lemma RenderedIs(rs: seq<NumRange>, anchor: bool, ps: seq<string>)
    requires |ps| == |rs| && forall i :: 0 <= i < |rs| ==> ps[i] == RegexOf(rs[i], anchor)
    ensures Rendered(rs, anchor) == ps
  {
    assert |Rendered(rs, anchor)| == |ps|;
  }

  lemma Sweeps100To199()
    ensures LeftSweep(100, 199) == [NumRange(100, 999)]
    ensures RightSweep(100, 199) == [NumRange(0, 199)]
  {
    assert RoundUp(100) == 999 && RoundDown(199) == 0;
    assert LeftSweep(1000, 199) == [];
    assert RightSweep(100, -1) == [];
  }

  lemma Merged100To199()
    ensures MergedRanges(100, 199) == [NumRange(100, 199)]
  {
    Sweeps100To199();
  }

  lemma Pattern100To199()
    ensures Pattern(NumRange(100, 199)) == "1\\d\\d"
  {
    assert Str(100) == "100" && Str(199) == "199";
    assert Tokens("100", "199") == [Lit('1'), AnyDigit, AnyDigit];
  }

  /** 100..199 is the one pattern 1\d\d. */
  lemma Example100To199()
    ensures Patterns(100, 199, false) == ["1\\d\\d"]
  {
    Merged100To199();
    Pattern100To199();
    RenderedIs([NumRange(100, 199)], false, ["1\\d\\d"]);
  }

  lemma LeftSweep0To500()
    ensures LeftSweep(0, 500) == [NumRange(0, 9), NumRange(10, 99), NumRange(100, 999)]
  {
    assert RoundUp(0) == 9 && RoundUp(10) == 99 && RoundUp(100) == 999;
    assert LeftSweep(1000, 500) == [];
    assert LeftSweep(100, 500) == [NumRange(100, 999)];
    assert LeftSweep(10, 500) == [NumRange(10, 99), NumRange(100, 999)];
  }

  lemma RightSweep100To500()
    ensures RightSweep(100, 500) == [NumRange(0, 499), NumRange(500, 500)]
  {
    assert RoundDown(500) == 500 && RoundDown(499) == 0;
    assert RightSweep(100, -1) == [];
    assert RightSweep(100, 499) == [NumRange(0, 499)];
  }

  lemma Merged0To500()
    ensures MergedRanges(0, 500) == [NumRange(0, 9), NumRange(10, 99), NumRange(100, 499), NumRange(500, 500)]
  {
    LeftSweep0To500();
    RightSweep100To500();
  }

  lemma Pattern0To9()
    ensures Pattern(NumRange(0, 9)) == "\\d"
  {
    assert Str(0) == "0" && Str(9) == "9";
    assert Tokens("0", "9") == [AnyDigit];
  }

  lemma Pattern10To99()
    ensures Pattern(NumRange(10, 99)) == "[1-9]\\d"
  {
    assert Str(10) == "10" && Str(99) == "99";
    assert Tokens("10", "99") == [Class('1', '9'), AnyDigit];
  }

  lemma Pattern100To499()
    ensures Pattern(NumRange(100, 499)) == "[1-4]\\d\\d"
  {
    assert Str(100) == "100" && Str(499) == "499";
    assert Tokens("100", "499") == [Class('1', '4'), AnyDigit, AnyDigit];
  }

  lemma Pattern500To500()
    ensures Pattern(NumRange(500, 500)) == "500"
  {
    assert Str(500) == "500";
    assert Tokens("500", "500") == [Lit('5'), Lit('0'), Lit('0')];
  }

  /** 0..500 takes the four patterns \d, [1-9]\d, [1-4]\d\d and 500. */
  lemma Example0To500()
    ensures Patterns(0, 500, false) == ["\\d", "[1-9]\\d", "[1-4]\\d\\d", "500"]
  {
    Merged0To500();
    Pattern0To9();
    Pattern10To99();
    Pattern100To499();
    Pattern500To500();
    var ms := [NumRange(0, 9), NumRange(10, 99), NumRange(100, 499), NumRange(500, 500)];
    assert RegexOf(ms[0], false) == "\\d" && RegexOf(ms[1], false) == "[1-9]\\d";
    assert RegexOf(ms[2], false) == "[1-4]\\d\\d" && RegexOf(ms[3], false) == "500";
    RenderedIs(ms, false, ["\\d", "[1-9]\\d", "[1-4]\\d\\d", "500"]);
  }

  lemma Sweeps124To137()
    ensures LeftSweep(124, 137) == [NumRange(124, 129), NumRange(130, 199)]
    ensures RightSweep(130, 137) == [NumRange(130, 137)]
  {
    assert RoundUp(124) == 129 && RoundUp(130) == 199 && RoundDown(137) == 130;
    assert LeftSweep(200, 137) == [];
    assert LeftSweep(130, 137) == [NumRange(130, 199)];
    assert RightSweep(130, 129) == [];
  }

  lemma Merged124To137()
    ensures MergedRanges(124, 137) == [NumRange(124, 129), NumRange(130, 137)]
  {
    Sweeps124To137();
  }

  lemma Pattern124To129()
    ensures Pattern(NumRange(124, 129)) == "12[4-9]"
  {
    assert Str(124) == "124" && Str(129) == "129";
    assert Tokens("124", "129") == [Lit('1'), Lit('2'), Class('4', '9')];
  }

  lemma Pattern130To137()
    ensures Pattern(NumRange(130, 137)) == "13[0-7]"
  {
    assert Str(130) == "130" && Str(137) == "137";
    assert Tokens("130", "137") == [Lit('1'), Lit('3'), Class('0', '7')];
  }

  /** 124..137 takes 12[4-9] and 13[0-7]. */
  lemma Example124To137()
    ensures Patterns(124, 137, false) == ["12[4-9]", "13[0-7]"]
  {
    Merged124To137();
    Pattern124To129();
    Pattern130To137();
    RenderedIs([NumRange(124, 129), NumRange(130, 137)], false, ["12[4-9]", "13[0-7]"]);
  }

  lemma Sweeps29To34()
    ensures LeftSweep(29, 34) == [NumRange(29, 29), NumRange(30, 99)]
    ensures RightSweep(30, 34) == [NumRange(30, 34)]
  {
    assert RoundUp(29) == 29 && RoundUp(30) == 99 && RoundDown(34) == 30;
    assert LeftSweep(100, 34) == [];
    assert RightSweep(30, 29) == [];
  }

  lemma Merged29To34()
    ensures MergedRanges(29, 34) == [NumRange(29, 29), NumRange(30, 34)]
  {
    Sweeps29To34();
  }

  lemma Pattern29To29()
    ensures Pattern(NumRange(29, 29)) == "29"
  {
    assert Str(29) == "29";
    assert Tokens("29", "29") == [Lit('2'), Lit('9')];
  }

  lemma Pattern30To34()
    ensures Pattern(NumRange(30, 34)) == "3[0-4]"
  {
    assert Str(30) == "30" && Str(34) == "34";
    assert Tokens("30", "34") == [Lit('3'), Class('0', '4')];
  }

  /** 29..34 takes 29 and 3[0-4]. */
  lemma Example29To34()
    ensures Patterns(29, 34, false) == ["29", "3[0-4]"]
  {
    Merged29To34();
    Pattern29To29();
    Pattern30To34();
    RenderedIs([NumRange(29, 29), NumRange(30, 34)], false, ["29", "3[0-4]"]);
  }
}

// Day 5: fresh ingredients. The input lists inclusive id ranges, a blank
// line, then ingredient ids. Part 1 counts the ids some range contains;
// part 2 counts the distinct ids the ranges cover, by sorting the ranges by
// start and fusing those that overlap or touch.

module Day05 {
  import opened Common
  import opened Text
  import opened Sorting

  /** An inclusive range of ids, `(start, end)`. */
  type Range = (nat, nat)

  predicate Contains(r: Range, id: nat)
  {
    r.0 <= id <= r.1
  }

  /** `is_fresh`: some range contains the id. */
  function IsFresh(id: nat, ranges: seq<Range>): (found: bool)
    ensures found <==> exists i :: 0 <= i < |ranges| && Contains(ranges[i], id)
  {
    if |ranges| == 0 then false
    else IsFresh(id, ranges[..|ranges| - 1]) || Contains(ranges[|ranges| - 1], id)
  }

  /** Every id some range covers. */
  ghost function Union(ranges: seq<Range>): set<nat>
  {
    if |ranges| == 0 then {}
    else
      var r := ranges[|ranges| - 1];
      Union(ranges[..|ranges| - 1]) + Span(r.0, r.1)
  }

  /** An id is fresh exactly when it is in the union of the ranges. */
  lemma {:induction false} FreshIffInUnion(id: nat, ranges: seq<Range>)
    ensures IsFresh(id, ranges) <==> id in Union(ranges)
  {
    if |ranges| > 0 {
      FreshIffInUnion(id, ranges[..|ranges| - 1]);
    }
  }

  /** Part 1: how many of the ids are fresh (each occurrence counts). */
  function FreshCount(ids: seq<nat>, ranges: seq<Range>): (count: nat)
    ensures count <= |ids|
  {
    if |ids| == 0 then 0
    else FreshCount(ids[..|ids| - 1], ranges) + if IsFresh(ids[|ids| - 1], ranges) then 1 else 0
  }

  /** Every id counts exactly when every id is fresh. */
  lemma {:induction false} FreshCountAll(ids: seq<nat>, ranges: seq<Range>)
    ensures FreshCount(ids, ranges) == |ids| <==> forall i :: 0 <= i < |ids| ==> IsFresh(ids[i], ranges)
  {
    if |ids| > 0 {
      var init := ids[..|ids| - 1];
      FreshCountAll(init, ranges);
      assert forall i :: 0 <= i < |init| ==> init[i] == ids[i];
    }
  }

  // ---------------------------------------------------------------------------
  // Sorting a copy by start

  /** The sort key: a range's start. */
  function Start(r: Range): int
  {
    r.0
  }

  /** Ranges with the same elements cover the same ids. */
  lemma UnionOfPermutation(a: seq<Range>, b: seq<Range>)
    requires multiset(a) == multiset(b)
    ensures Union(a) == Union(b)
  {
    forall id | id in Union(a)
      ensures id in Union(b)
    {
      FreshIffInUnion(id, a);
      FreshIffInUnion(id, b);
      var i :| 0 <= i < |a| && Contains(a[i], id);
      assert a[i] in multiset(b);
      var j :| 0 <= j < |b| && b[j] == a[i];
    }
    forall id | id in Union(b)
      ensures id in Union(a)
    {
      FreshIffInUnion(id, a);
      FreshIffInUnion(id, b);
      var j :| 0 <= j < |b| && Contains(b[j], id);
      assert b[j] in multiset(a);
      var i :| 0 <= i < |a| && a[i] == b[j];
    }
  }

  // ---------------------------------------------------------------------------
  // Fusing

  /** No range is reversed: every range starts no later than it ends. */
  ghost predicate WellFormed(rs: seq<Range>)
  {
    forall i :: 0 <= i < |rs| ==> rs[i].0 <= rs[i].1
  }

  /** Each range starts more than one past the end of the one before it. */
  ghost predicate Separated(rs: seq<Range>)
  {
    forall i :: 0 < i < |rs| ==> rs[i - 1].1 + 1 < rs[i].0
  }

  /** Every fused bound is a bound of some input range. */
  ghost predicate BoundsFrom(merged: seq<Range>, ranges: seq<Range>)
  {
    forall k :: 0 <= k < |merged| ==>
      (exists i :: 0 <= i < |ranges| && ranges[i].0 == merged[k].0) &&
      (exists i :: 0 <= i < |ranges| && ranges[i].1 == merged[k].1)
  }

  /** The inclusive range `lo..=hi` as a set. */
  ghost function Span(lo: nat, hi: nat): (ids: set<nat>)
    ensures forall id :: id in ids <==> lo <= id <= hi
    decreases hi
  {
    if hi < lo then {} else if hi == 0 then {0} else Span(lo, hi - 1) + {hi}
  }

  lemma UnionAppend(rs: seq<Range>, r: Range)
    ensures Union(rs + [r]) == Union(rs) + Span(r.0, r.1)
  {
    assert (rs + [r])[..|rs|] == rs;
  }

  /** Extending the last range to cover a range that overlaps or touches it
      covers the same ids as keeping both. */
  lemma UnionFuse(rs: seq<Range>, last: Range, r: Range)
    requires last.0 <= r.0 <= last.1 + 1 && r.0 <= r.1
    ensures Union(rs + [(last.0, Max(last.1, r.1))]) == Union(rs + [last]) + Span(r.0, r.1)
  {
    UnionAppend(rs, (last.0, Max(last.1, r.1)));
    UnionAppend(rs, last);
    assert Span(last.0, Max(last.1, r.1)) == Span(last.0, last.1) + Span(r.0, r.1);
  }

  /** One input range is taken into the fused list: it extends the last fused
      range when it starts at most one past its end, and is appended otherwise. */
  function Fuse(merged: seq<Range>, r: Range): seq<Range>
    requires |merged| > 0
  {
    var last := merged[|merged| - 1];
    if r.0 <= last.1 + 1 then merged[|merged| - 1 := (last.0, Max(last.1, r.1))]
    else merged + [r]
  }

  /** Taking one more range, which starts no earlier than the last fused one,
      keeps the fused list well formed and separated. */
  lemma FuseShape(merged: seq<Range>, r: Range)
    requires |merged| > 0 && WellFormed(merged) && Separated(merged) && r.0 <= r.1
    requires merged[|merged| - 1].0 <= r.0
    ensures var result := Fuse(merged, r);
      |result| > 0 && WellFormed(result) && Separated(result) && result[|result| - 1].0 <= r.0
  {
  }

  /** Taking one more range covers exactly the ids of both. */
  lemma FuseUnion(merged: seq<Range>, r: Range)
    requires |merged| > 0 && r.0 <= r.1 && merged[|merged| - 1].0 <= r.0
    ensures Union(Fuse(merged, r)) == Union(merged) + Span(r.0, r.1)
  {
    var n := |merged|;
    var last := merged[n - 1];
    var init := merged[..n - 1];
    assert merged == init + [last];
    if r.0 <= last.1 + 1 {
      UnionFuse(init, last, r);
      assert Fuse(merged, r) == init + [(last.0, Max(last.1, r.1))];
    } else {
      UnionAppend(merged, r);
    }
  }

  /** Taking one more input range keeps every fused bound an input bound. */
  lemma FuseBounds(merged: seq<Range>, r: Range, ranges: seq<Range>)
    requires |merged| > 0 && BoundsFrom(merged, ranges) && r in ranges
    ensures BoundsFrom(Fuse(merged, r), ranges)
  {
    var i :| 0 <= i < |ranges| && ranges[i] == r;
  }

  /** What the fusing loop keeps after `i` sorted ranges. */
  ghost predicate Fusing(merged: seq<Range>, sorted: seq<Range>, i: nat)
    requires 0 < i <= |sorted|
  {
    |merged| > 0 && WellFormed(merged) && Separated(merged) &&
    Union(merged) == Union(sorted[..i]) &&
    merged[|merged| - 1].0 <= sorted[i - 1].0 &&
    BoundsFrom(merged, sorted)
  }

  lemma FusingStep(merged: seq<Range>, sorted: seq<Range>, i: nat)
    requires 0 < i < |sorted| && SortedBy(sorted, Start) && WellFormed(sorted)
    requires Fusing(merged, sorted, i)
    ensures Fusing(Fuse(merged, sorted[i]), sorted, i + 1)
  {
    var r := sorted[i];
    FuseShape(merged, r);
    FuseUnion(merged, r);
    FuseBounds(merged, r, sorted);
    UnionPrefix(sorted, i);
  }

  /** One more element of a prefix adds its span. */
  lemma UnionPrefix(rs: seq<Range>, i: nat)
    requires i < |rs|
    ensures Union(rs[..i + 1]) == Union(rs[..i]) + Span(rs[i].0, rs[i].1)
  {
    assert rs[..i + 1][..i] == rs[..i];
  }

  /** The fusing loop of `count_unique_fresh_ids` over the sorted copy. */
  method MergeSorted(sorted: seq<Range>) returns (merged: seq<Range>)
    requires |sorted| > 0 && SortedBy(sorted, Start) && WellFormed(sorted)
    ensures |merged| > 0 && WellFormed(merged) && Separated(merged)
    ensures Union(merged) == Union(sorted)
    ensures BoundsFrom(merged, sorted)
  {
    merged := [sorted[0]];
    assert sorted[..1] == [sorted[0]];
    for i := 1 to |sorted|
      invariant Fusing(merged, sorted, i)
    {
      FusingStep(merged, sorted, i);
      var r := sorted[i];
      var last := merged[|merged| - 1];
      if r.0 <= last.1 + 1 {
        merged := merged[|merged| - 1 := (last.0, Max(last.1, r.1))];
      } else {
        merged := merged + [r];
      }
    }
    assert sorted[..|sorted|] == sorted;
  }

  // ---------------------------------------------------------------------------
  // Counting

  /** The sum of `end - start + 1` over the ranges. */
  function Total(rs: seq<Range>): nat
    requires WellFormed(rs)
  {
    if |rs| == 0 then 0
    else Total(rs[..|rs| - 1]) + (rs[|rs| - 1].1 - rs[|rs| - 1].0 + 1)
  }

  lemma {:induction false} SpanSize(lo: nat, hi: nat)
    requires lo <= hi
    ensures |Span(lo, hi)| == hi + 1 - lo
    decreases hi
  {
    if lo < hi {
      SpanSize(lo, hi - 1);
    }
  }

  /** In a separated list every range ends before any later one starts. */
  lemma {:induction false} EndsBeforeLater(rs: seq<Range>, k: nat, l: nat)
    requires WellFormed(rs) && Separated(rs) && k < l < |rs|
    ensures rs[k].1 < rs[l].0
    decreases l - k
  {
    if k + 1 < l {
      EndsBeforeLater(rs, k + 1, l);
    }
  }

  /** Ranges that all end before `bound` cover only ids below it. */
  lemma {:induction false} UnionBelow(rs: seq<Range>, bound: nat)
    requires forall i :: 0 <= i < |rs| ==> rs[i].1 < bound
    ensures forall id :: id in Union(rs) ==> id < bound
  {
    if |rs| > 0 {
      UnionBelow(rs[..|rs| - 1], bound);
    }
  }

  /** Separated ranges cover as many ids as their lengths add up to. */
  lemma {:induction false} UnionSize(rs: seq<Range>)
    requires WellFormed(rs) && Separated(rs)
    ensures |Union(rs)| == Total(rs)
  {
    if |rs| == 0 {
      assert Union(rs) == {};
    } else {
      var n := |rs|;
      var init := rs[..n - 1];
      var last := rs[n - 1];
      assert rs == init + [last];
      UnionAppend(init, last);
      UnionSize(init);
      SpanSize(last.0, last.1);
      forall k | 0 <= k < n - 1
        ensures init[k].1 < last.0
      {
        EndsBeforeLater(rs, k, n - 1);
      }
      UnionBelow(init, last.0);
      assert Union(init) !! Span(last.0, last.1);
    }
  }

  /** A reversed range that starts at most one past the last fused range ends
      inside it, so the merge step leaves the fused list as it was. */
  lemma FuseSkipsReversed(merged: seq<Range>, r: Range)
    requires |merged| > 0 && r.1 < r.0 <= merged[|merged| - 1].1 + 1
    ensures Fuse(merged, r) == merged
  {
  }

  /** `count_unique_fresh_ids`: the number of distinct ids some range covers;
      no ranges give 0. The ranges are not changed: sorting works on a copy. */
  method CountUniqueFreshIds(ranges: seq<Range>) returns (count: nat)
    requires WellFormed(ranges)
    ensures count == |Union(ranges)|
    ensures |ranges| == 0 ==> count == 0
  {
    if |ranges| == 0 {
      assert Union(ranges) == {};
      return 0;
    }
    var sorted := SortBy(ranges, Start);
    SortSorted(ranges, Start);
    UnionOfPermutation(ranges, sorted);
    assert WellFormed(sorted) by {
      forall i | 0 <= i < |sorted|
        ensures sorted[i].0 <= sorted[i].1
      {
        assert sorted[i] in multiset(ranges);
      }
    }
    var merged := MergeSorted(sorted);
    count := Total(merged);
    UnionSize(merged);
  }

  // ---------------------------------------------------------------------------
  // parse_input

  /** Every piece parsed as an unsigned number; `None` if one fails (a panic
      in the program). */
  function ParseAll(pieces: seq<string>): (r: Option<seq<nat>>)
    ensures r.Some? ==> |r.value| == |pieces| && forall i :: 0 <= i < |pieces| ==> ParseNat(pieces[i]) == Some(r.value[i])
    ensures r.None? ==> exists i :: 0 <= i < |pieces| && ParseNat(pieces[i]).None?
  {
    if |pieces| == 0 then Some([])
    else
      var init := ParseAll(pieces[..|pieces| - 1]);
      var last := ParseNat(pieces[|pieces| - 1]);
      if init.None? || last.None? then None else Some(init.value + [last.value])
  }

  /** A range line: every `-`-separated piece must parse, and the first two
      are the bounds. */
  function ParseRange(line: string): Option<Range>
  {
    var nums := ParseAll(Split(line, '-'));
    if nums.None? || |nums.value| < 2 then None else Some((nums.value[0], nums.value[1]))
  }

  /** The range lines, in order; one bad line fails them all. */
  function ParseRanges(lines: seq<string>): (r: Option<seq<Range>>)
    ensures r.Some? ==> |r.value| == |lines|
  {
    if |lines| == 0 then Some([])
    else
      var init := ParseRanges(lines[..|lines| - 1]);
      var last := ParseRange(lines[|lines| - 1]);
      if init.None? || last.None? then None else Some(init.value + [last.value])
  }

  /** The id lines: empty lines are skipped, every other must parse. */
  function ParseIds(lines: seq<string>): Option<seq<nat>>
  {
    if |lines| == 0 then Some([])
    else
      var init := ParseIds(lines[..|lines| - 1]);
      var line := lines[|lines| - 1];
      if |line| == 0 then init
      else
        var id := ParseNat(line);
        if init.None? || id.None? then None else Some(init.value + [id.value])
  }

  /** `parse_input`: the ranges before the first blank line, the ids after it;
      `None` when there is no blank line or a number does not parse. */
  function ParseInput(input: string): (r: Option<(seq<Range>, seq<nat>)>)
    ensures r.Some? ==>
      |SplitOn(input, "\n\n")| >= 2 && |r.value.0| == |Lines(SplitOn(input, "\n\n")[0])|
  {
    var parts := SplitOn(input, "\n\n");
    if |parts| < 2 then None
    else
      var ranges := ParseRanges(Lines(parts[0]));
      var ids := ParseIds(Lines(parts[1]));
      if ranges.None? || ids.None? then None else Some((ranges.value, ids.value))
  }

  /** The line `a-b` in decimal. */
  function FormatRange(r: Range): string
  {
    DecimalString(r.0) + "-" + DecimalString(r.1)
  }

  /** A range written in decimal parses back to itself. */
  lemma RangeRoundTrip(r: Range)
    ensures ParseRange(FormatRange(r)) == Some(r)
  {
    var a := DecimalString(r.0);
    var b := DecimalString(r.1);
    assert '-' !in a && '-' !in b by {
      assert forall k :: 0 <= k < |a| ==> IsDigit(a[k]);
      assert forall k :: 0 <= k < |b| ==> IsDigit(b[k]);
    }
    assert Join([a, b], '-') == FormatRange(r);
    SplitJoin([a, b], '-');
    ParseDecimal(r.0);
    ParseDecimal(r.1);
    assert [a, b][..1] == [a] && [a][..0] == [];
  }

  /** One line per range. */
  function FormatRanges(rs: seq<Range>): (lines: seq<string>)
    ensures |lines| == |rs|
  {
    if |rs| == 0 then [] else FormatRanges(rs[..|rs| - 1]) + [FormatRange(rs[|rs| - 1])]
  }

  /** Range lines written in decimal parse back to the ranges. */
  lemma {:induction false} RangesRoundTrip(rs: seq<Range>)
    ensures ParseRanges(FormatRanges(rs)) == Some(rs)
  {
    if |rs| > 0 {
      var lines := FormatRanges(rs);
      var init := rs[..|rs| - 1];
      RangesRoundTrip(init);
      assert lines[..|lines| - 1] == FormatRanges(init);
      RangeRoundTrip(rs[|rs| - 1]);
      assert rs == init + [rs[|rs| - 1]];
    }
  }

  /** One decimal line per id. */
  function FormatIds(ids: seq<nat>): (lines: seq<string>)
    ensures |lines| == |ids|
  {
    if |ids| == 0 then [] else FormatIds(ids[..|ids| - 1]) + [DecimalString(ids[|ids| - 1])]
  }

  /** Id lines written in decimal parse back to the ids. */
  lemma {:induction false} IdsRoundTrip(ids: seq<nat>)
    ensures ParseIds(FormatIds(ids)) == Some(ids)
  {
    if |ids| > 0 {
      var lines := FormatIds(ids);
      var init := ids[..|ids| - 1];
      IdsRoundTrip(init);
      assert lines[..|lines| - 1] == FormatIds(init);
      ParseDecimal(ids[|ids| - 1]);
      assert ids == init + [ids[|ids| - 1]];
    }
  }

  /** A decimal line is a non-empty line ending in a digit. */
  lemma DecimalLine(s: string)
    requires |s| > 0 && AllDigits(s)
    ensures '\n' !in s && !EndsWith(s, '\r')
  {
    assert forall k :: 0 <= k < |s| ==> IsDigit(s[k]);
  }

  /** A formatted range is a non-empty line ending in a digit. */
  lemma RangeLine(r: Range)
    ensures |FormatRange(r)| > 0 && '\n' !in FormatRange(r) && !EndsWith(FormatRange(r), '\r')
  {
    var a := DecimalString(r.0);
    var b := DecimalString(r.1);
    DecimalLine(a);
    DecimalLine(b);
    assert FormatRange(r)[|FormatRange(r)| - 1] == b[|b| - 1];
  }

  /** Every formatted line is a non-empty line ending in a digit. */
  lemma {:induction false} RangeLines(rs: seq<Range>)
    ensures forall i :: 0 <= i < |rs| ==>
      |FormatRanges(rs)[i]| > 0 && '\n' !in FormatRanges(rs)[i] && !EndsWith(FormatRanges(rs)[i], '\r')
  {
    if |rs| > 0 {
      RangeLines(rs[..|rs| - 1]);
      RangeLine(rs[|rs| - 1]);
    }
  }

  /** Every formatted id is a non-empty line ending in a digit. */
  lemma {:induction false} IdLines(ids: seq<nat>)
    ensures forall i :: 0 <= i < |ids| ==>
      |FormatIds(ids)[i]| > 0 && '\n' !in FormatIds(ids)[i] && !EndsWith(FormatIds(ids)[i], '\r')
  {
    if |ids| > 0 {
      IdLines(ids[..|ids| - 1]);
      DecimalLine(DecimalString(ids[|ids| - 1]));
    }
  }

  /** The whole input: the range lines, a blank line, the id lines. */
  function FormatInput(rs: seq<Range>, ids: seq<nat>): string
    requires |rs| >= 1 && |ids| >= 1
  {
    Join(FormatRanges(rs), '\n') + "\n\n" + Join(FormatIds(ids), '\n')
  }

  /** `parse_input` reads back the ranges and ids that were written out. */
  lemma InputRoundTrip(rs: seq<Range>, ids: seq<nat>)
    requires |rs| >= 1 && |ids| >= 1
    ensures ParseInput(FormatInput(rs, ids)) == Some((rs, ids))
  {
    var rangeLines := FormatRanges(rs);
    var idLines := FormatIds(ids);
    RangeLines(rs);
    IdLines(ids);
    var a := Join(rangeLines, '\n');
    var b := Join(idLines, '\n');
    JoinBlankLineFree(rangeLines);
    JoinBlankLineFree(idLines);
    SplitAtBlankLine(a, b);
    SplitBlankLineFree(b);
    assert SplitOn(FormatInput(rs, ids), "\n\n") == [a, b];
    LinesOfJoin(rangeLines);
    LinesOfJoin(idLines);
    RangesRoundTrip(rs);
    IdsRoundTrip(ids);
  }

  /** Blank lines among the ids are skipped. */
  lemma {:induction false} BlankIdLinesSkipped(lines: seq<string>)
    requires forall i :: 0 <= i < |lines| ==> |lines[i]| == 0
    ensures ParseIds(lines) == Some([])
  {
    if |lines| > 0 {
      BlankIdLinesSkipped(lines[..|lines| - 1]);
    }
  }
}

// Day 2: product ID ranges. An ID is invalid when its decimal digits are
// some digit string written twice (55, 6464, 123123); part 1 adds up the
// invalid IDs of every inclusive range in the input.

module Day02 {
  import opened Common
  import opened Text

  // ---------------------------------------------------------------------------
  // is_invalid_id

  /** The test `is_invalid_id` applies to the decimal form: an even number of
      characters, the first half equal to the second half. */
  predicate Doubled(s: string)
  {
    |s| % 2 == 0 && s[..|s| / 2] == s[|s| / 2..]
  }

  function Pow10(k: nat): (p: nat)
    ensures p >= 1
  {
    if k == 0 then 1 else 10 * Pow10(k - 1)
  }

  lemma {:induction false} Pow10Monotone(j: nat, k: nat)
    requires j <= k
    ensures Pow10(j) <= Pow10(k)
    decreases k
  {
    if j < k {
      Pow10Monotone(j, k - 1);
    }
  }

  /** A string of digits with no leading zero, as `to_string` writes numbers. */
  predicate Canonical(s: string)
  {
    |s| > 0 && AllDigits(s) && (|s| > 1 ==> s[0] != '0')
  }

  /** Digits written one after the other: the first string shifts left by
      the length of the second. */
  lemma {:induction false} DigitsConcat(a: string, b: string)
    requires AllDigits(a) && AllDigits(b)
    ensures AllDigits(a + b)
    ensures DigitsValue(a + b) == DigitsValue(a) * Pow10(|b|) + DigitsValue(b)
    decreases |b|
  {
    var s := a + b;
    if |b| > 0 {
      var b' := b[..|b| - 1];
      assert s[..|s| - 1] == a + b';
      DigitsConcat(a, b');
      Regroup(DigitsValue(a), Pow10(|b'|), DigitsValue(b'), DigitValue(b[|b| - 1]));
    } else {
      assert s == a;
    }
  }

  lemma Regroup(x: int, p: int, y: int, d: int)
    ensures 10 * (x * p + y) + d == x * (10 * p) + (10 * y + d)
  {
  }

  /** `k` digits spell less than `10^k`, and at least `10^(k-1)` when the
      first is not `0`. */
  lemma {:induction false} DigitsBounds(s: string)
    requires AllDigits(s)
    ensures DigitsValue(s) < Pow10(|s|)
    ensures |s| > 0 && s[0] != '0' ==> DigitsValue(s) >= Pow10(|s| - 1)
  {
    if |s| > 0 {
      var init := s[..|s| - 1];
      DigitsBounds(init);
      if |init| > 0 {
        assert init[0] == s[0];
      } else {
        assert DigitValue(s[0]) >= 1 || s[0] == '0';
      }
    }
  }

  /** `to_string` gives back any canonical digit string from its value. */
  lemma {:induction false} DecimalOfCanonical(s: string)
    requires Canonical(s)
    ensures DecimalString(DigitsValue(s)) == s
  {
    var v := DigitsValue(s);
    var last := s[|s| - 1];
    assert DigitChar(DigitValue(last)) == last;
    if |s| > 1 {
      var init := s[..|s| - 1];
      assert init[0] == s[0];
      DigitsBounds(init);
      DecimalOfCanonical(init);
      assert v / 10 == DigitsValue(init) && v % 10 == DigitValue(last);
      assert s == init + [last];
    }
  }

  /** Numbers from `10^(k-1)` below `10^k` have `k` digits. */
  lemma DecimalLength(h: nat, k: nat)
    requires k >= 1 && Pow10(k - 1) <= h < Pow10(k)
    ensures |DecimalString(h)| == k
  {
    var s := DecimalString(h);
    DecimalStringValue(h);
    DigitsBounds(s);
    if |s| > k {
      Pow10Monotone(k, |s| - 1);
    } else if |s| < k {
      Pow10Monotone(|s|, k - 1);
    }
  }

  /** `n` is the `k`-digit number `h` written twice, `h * (10^k + 1)`. */
  ghost predicate Repeats(n: nat, k: nat, h: nat)
  {
    k >= 1 && Pow10(k - 1) <= h < Pow10(k) && n == h * (Pow10(k) + 1)
  }

  lemma Twice(h: int, p: int)
    ensures h * p + h == h * (p + 1)
  {
  }

  lemma RepeatOfInvalid(n: nat)
    requires Doubled(DecimalString(n))
    ensures exists k: nat, h: nat :: Repeats(n, k, h)
  {
    var s := DecimalString(n);
    var k := |s| / 2;
    var a := s[..k];
    assert s == a + a;
    assert AllDigits(a) && a[0] == s[0];
    DigitsConcat(a, a);
    DecimalStringValue(n);
    DigitsBounds(a);
    var h := DigitsValue(a);
    Twice(h, Pow10(k));
    assert Repeats(n, k, h);
  }

  lemma InvalidOfRepeat(n: nat, k: nat, h: nat)
    requires Repeats(n, k, h)
    ensures Doubled(DecimalString(n))
  {
    var a := DecimalString(h);
    DoubledValue(h, k);
    assert Canonical(a + a) by { assert (a + a)[0] == a[0]; }
    DecimalOfCanonical(a + a);
    var s := DecimalString(n);
    assert s == a + a;
    assert |s| == 2 * k && |s| / 2 == k;
    assert s[..k] == a && s[k..] == a;
  }

  /** The digits of a `k`-digit `h`, written twice, spell `h * (10^k + 1)`. */
  lemma DoubledValue(h: nat, k: nat)
    requires k >= 1 && Pow10(k - 1) <= h < Pow10(k)
    ensures |DecimalString(h)| == k
    ensures AllDigits(DecimalString(h) + DecimalString(h))
    ensures DigitsValue(DecimalString(h) + DecimalString(h)) == h * (Pow10(k) + 1)
  {
    var a := DecimalString(h);
    DecimalLength(h, k);
    DecimalStringValue(h);
    DigitsConcat(a, a);
    Twice(h, Pow10(k));
  }

  /** `is_invalid_id`: the decimal form is some digit string written twice.
      So an invalid ID is a `k`-digit number `h` written twice, that is
      `h * (10^k + 1)`, and every such number is invalid. */
  function IsInvalidId(n: nat): (invalid: bool)
    ensures invalid <==> exists k: nat, h: nat :: Repeats(n, k, h)
  {
    assert Doubled(DecimalString(n)) <==> exists k: nat, h: nat :: Repeats(n, k, h) by {
      if Doubled(DecimalString(n)) {
        RepeatOfInvalid(n);
      }
      if exists k: nat, h: nat :: Repeats(n, k, h) {
        var k: nat, h: nat :| Repeats(n, k, h);
        InvalidOfRepeat(n, k, h);
      }
    }
    Doubled(DecimalString(n))
  }

  /** The invalid IDs the program's tests check, each a number written twice. */
  lemma InvalidIdExamples()
    ensures IsInvalidId(11) && IsInvalidId(22) && IsInvalidId(55) && IsInvalidId(99)
    ensures IsInvalidId(6464) && IsInvalidId(123123) && IsInvalidId(1010)
  {
    assert Pow10(1) == 10 && Pow10(2) == 100 && Pow10(3) == 1000;
    InvalidOfRepeat(11, 1, 1);
    InvalidOfRepeat(22, 1, 2);
    InvalidOfRepeat(55, 1, 5);
    InvalidOfRepeat(99, 1, 9);
    InvalidOfRepeat(6464, 2, 64);
    InvalidOfRepeat(123123, 3, 123);
    InvalidOfRepeat(1010, 2, 10);
  }

  /** The valid IDs the program's tests check: two different digits, an odd
      number of digits, or two different halves. */
  lemma ValidIdExamples()
    ensures !IsInvalidId(12) && !IsInvalidId(123) && !IsInvalidId(1234) && !IsInvalidId(100)
  {
    assert Pow10(1) == 10 && Pow10(2) == 100 && Pow10(3) == 1000 && Pow10(4) == 10000;
    assert DecimalString(12) == "12";
    DecimalLength(123, 3);
    DecimalLength(100, 3);
    assert DecimalString(1234) == DecimalString(123) + "4";
    assert DecimalString(123) == DecimalString(12) + "3";
  }

  // ---------------------------------------------------------------------------
  // part1

  /** The sum of the invalid IDs from `start` below `stop`. */
  function InvalidBelow(start: nat, stop: nat): nat
    decreases stop - start
  {
    if stop <= start then 0
    else InvalidBelow(start, stop - 1) + if IsInvalidId(stop - 1) then stop - 1 else 0
  }

  /** The sum of the invalid IDs of `start..=end` (none when `end < start`). */
  function InvalidSum(start: nat, end: nat): nat
  {
    InvalidBelow(start, end + 1)
  }

  /** A range splits into two adjacent ones. */
  lemma {:induction false} InvalidBelowSplit(a: nat, b: nat, c: nat)
    requires a <= b <= c
    ensures InvalidBelow(a, c) == InvalidBelow(a, b) + InvalidBelow(b, c)
    decreases c - b
  {
    if b < c {
      InvalidBelowSplit(a, b, c - 1);
    }
  }

  /** Only invalid IDs count: a range holding none adds nothing. */
  lemma {:induction false} InvalidBelowNone(start: nat, stop: nat)
    requires forall n :: start <= n < stop ==> !IsInvalidId(n)
    ensures InvalidBelow(start, stop) == 0
    decreases stop - start
  {
    if start < stop {
      InvalidBelowNone(start, stop - 1);
    }
  }

  /** Every invalid ID of a range is part of its sum. */
  lemma InvalidBelowAtLeast(start: nat, stop: nat, n: nat)
    requires start <= n < stop && IsInvalidId(n)
    ensures n <= InvalidBelow(start, stop)
  {
    InvalidBelowSplit(start, n, stop);
    InvalidBelowSplit(n, n + 1, stop);
    assert InvalidBelow(n, n + 1) == n;
  }

  /** The loop over `start..=end`. */
  method SumRange(start: nat, end: nat) returns (sum: nat)
    ensures sum == InvalidSum(start, end)
  {
    sum := 0;
    var n := start;
    while n <= end
      invariant start <= n <= if end + 1 < start then start else end + 1
      invariant sum == InvalidBelow(start, n)
    {
      if IsInvalidId(n) {
        sum := sum + n;
      }
      n := n + 1;
    }
  }

  /** A comma-separated piece of a line: empty or without exactly one `-` it
      is skipped, and a bound that does not parse as a number is an error
      (the program panics). */
  datatype Piece = Skipped | Span(start: nat, end: nat) | Unparsable

  function ReadPiece(raw: string): Piece
  {
    var piece := Trim(raw);
    if |piece| == 0 then Skipped
    else
      var parts := Split(piece, '-');
      if |parts| != 2 then Skipped
      else
        match (ParseNat(Trim(parts[0])), ParseNat(Trim(parts[1])))
        case (Some(start), Some(end)) => Span(start, end)
        case _ => Unparsable
  }

  /** One more piece on top of the sum so far; an error stays an error. */
  function AddPiece(sum: Option<nat>, piece: Piece): Option<nat>
  {
    match piece
    case Skipped => sum
    case Unparsable => None
    case Span(start, end) => if sum.Some? then Some(sum.value + InvalidSum(start, end)) else None
  }

  /** The sum over the comma-separated pieces of a line, `None` once one
      does not parse. */
  function PiecesTotal(pieces: seq<string>): Option<nat>
  {
    if |pieces| == 0 then Some(0)
    else AddPiece(PiecesTotal(pieces[..|pieces| - 1]), ReadPiece(pieces[|pieces| - 1]))
  }

  /** A prefix of the pieces that fails makes them all fail. */
  lemma {:induction false} PanicPropagates(pieces: seq<string>, n: nat)
    requires n <= |pieces| && PiecesTotal(pieces[..n]) == None
    ensures PiecesTotal(pieces) == None
    decreases |pieces|
  {
    if n < |pieces| {
      var init := pieces[..|pieces| - 1];
      assert init[..n] == pieces[..n];
      PanicPropagates(init, n);
    } else {
      assert pieces[..n] == pieces;
    }
  }

  /** A line is trimmed; a blank one adds nothing. */
  function LineTotal(line: string): Option<nat>
  {
    var trimmed := Trim(line);
    if |trimmed| == 0 then Some(0) else PiecesTotal(Split(trimmed, ','))
  }

  /** The total of each line. */
  function LineTotals(lines: seq<string>): (totals: seq<Option<nat>>)
    ensures |totals| == |lines|
  {
    seq(|lines|, i requires 0 <= i < |lines| => LineTotal(lines[i]))
  }

  /** Line totals added up, `None` once one of them fails. */
  function SumTotals(totals: seq<Option<nat>>): Option<nat>
  {
    if |totals| == 0 then Some(0)
    else
      var init := SumTotals(totals[..|totals| - 1]);
      var last := totals[|totals| - 1];
      if init.Some? && last.Some? then Some(init.value + last.value) else None
  }

  /** The answer of `part1` over the lines of the input, `None` once a
      line fails. */
  function LinesTotal(lines: seq<string>): Option<nat>
  {
    SumTotals(LineTotals(lines))
  }

  /** One more line adds its total, or fails. */
  lemma SumTotalsStep(totals: seq<Option<nat>>, i: nat, sum: nat)
    requires i < |totals| && SumTotals(totals[..i]) == Some(sum)
    ensures SumTotals(totals[..i + 1]) == if totals[i].Some? then Some(sum + totals[i].value) else None
  {
    assert totals[..i + 1][..i] == totals[..i];
  }

  /** A prefix of the lines that fails makes them all fail. */
  lemma {:induction false} FailurePropagates(totals: seq<Option<nat>>, n: nat)
    requires n <= |totals| && SumTotals(totals[..n]) == None
    ensures SumTotals(totals) == None
    decreases |totals|
  {
    if n < |totals| {
      var init := totals[..|totals| - 1];
      assert init[..n] == totals[..n];
      FailurePropagates(init, n);
    } else {
      assert totals[..n] == totals;
    }
  }

  /** The inner loop of `part1`, over the pieces of one line. */
  method SumPieces(pieces: seq<string>) returns (total: Option<nat>)
    ensures total == PiecesTotal(pieces)
  {
    var sum: nat := 0;
    for i := 0 to |pieces|
      invariant PiecesTotal(pieces[..i]) == Some(sum)
    {
      assert pieces[..i + 1][..i] == pieces[..i];
      var next := AddRange(sum, pieces[i]);
      if next.None? {
        PanicPropagates(pieces, i + 1);
        return None;
      }
      sum := next.value;
    }
    assert pieces[..|pieces|] == pieces;
    return Some(sum);
  }

  /** One round of the inner loop: read the piece and add its range. */
  method AddRange(sum: nat, raw: string) returns (next: Option<nat>)
    ensures next == AddPiece(Some(sum), ReadPiece(raw))
  {
    var piece := ScanPiece(raw);
    match piece {
      case Skipped =>
        return Some(sum);
      case Unparsable =>
        return None;
      case Span(start, end) =>
        var inRange := SumRange(start, end);
        return Some(sum + inRange);
    }
  }

  /** The body of the inner loop of `part1`, up to the range's sum. */
  method ScanPiece(raw: string) returns (piece: Piece)
    ensures piece == ReadPiece(raw)
  {
    var trimmed := Trim(raw);
    if |trimmed| == 0 {
      return Skipped;
    }
    var parts := Split(trimmed, '-');
    if |parts| != 2 {
      return Skipped;
    }
    var start := ParseNat(Trim(parts[0]));
    var end := ParseNat(Trim(parts[1]));
    if start.None? || end.None? {
      return Unparsable;
    }
    return Span(start.value, end.value);
  }

  /** `part1`: `None` stands for the panic on a bound that does not parse. */
  method Part1(input: string) returns (answer: Option<nat>)
    ensures answer == LinesTotal(Lines(input))
  {
    answer := SumLines(Lines(input));
  }

  /** The outer loop of `part1`, over the lines. */
  method SumLines(lines: seq<string>) returns (answer: Option<nat>)
    ensures answer == LinesTotal(lines)
  {
    ghost var totals := LineTotals(lines);
    var sum: nat := 0;
    for i := 0 to |lines|
      invariant SumTotals(totals[..i]) == Some(sum)
    {
      SumTotalsStep(totals, i, sum);
      var lineTotal := SumLine(lines[i]);
      if lineTotal.None? {
        FailurePropagates(totals, i + 1);
        return None;
      }
      sum := sum + lineTotal.value;
    }
    assert totals[..|lines|] == totals;
    return Some(sum);
  }

  /** One round of the outer loop of `part1`. */
  method SumLine(raw: string) returns (total: Option<nat>)
    ensures total == LineTotal(raw)
  {
    var line := Trim(raw);
    if |line| == 0 {
      return Some(0);
    }
    total := SumPieces(Split(line, ','));
  }

  lemma BoundsExample()
    ensures ParseNat(Trim("11")) == Some(11) && ParseNat(Trim("22")) == Some(22)
  {
    TrimmedDecimal(11);
    TrimmedDecimal(22);
    assert DecimalString(11) == "11" && DecimalString(22) == "22";
  }

  /** `to_string` output survives trimming and parses back. */
  lemma TrimmedDecimal(n: nat)
    ensures ParseNat(Trim(DecimalString(n))) == Some(n)
  {
    var s := DecimalString(n);
    assert IsDigit(s[0]) && IsDigit(s[|s| - 1]);
    TrimOfTrimmed(s);
    ParseDecimal(n);
  }

  lemma ReadPieceExample()
    ensures ReadPiece("11-22") == Span(11, 22)
  {
    TrimOfTrimmed("11-22");
    SplitJoin(["11", "22"], '-');
    assert Join(["11", "22"], '-') == "11-22";
    BoundsExample();
  }

  lemma InvalidSumExample()
    ensures InvalidSum(11, 22) == 33
  {
    assert InvalidBelow(11, 12) == 11;
    assert InvalidBelow(12, 22) == 0 by {
      forall n | 12 <= n < 22
        ensures !IsInvalidId(n)
      {
        assert DecimalString(n) == [DigitChar(n / 10), DigitChar(n % 10)];
      }
      InvalidBelowNone(12, 22);
    }
    assert IsInvalidId(22);
    InvalidBelowSplit(11, 12, 22);
  }

  lemma LineTotalExample()
    ensures LineTotal("11-22") == Some(33)
  {
    TrimOfTrimmed("11-22");
    SplitJoin(["11-22"], ',');
    ReadPieceExample();
    InvalidSumExample();
    assert ["11-22"][..0] == [];
  }

  /** The program's own example: the range `11-22` holds 11 and 22. */
  lemma Part1Example()
    ensures LinesTotal(Lines("11-22")) == Some(33)
  {
    SplitJoin(["11-22"], '\n');
    assert Lines("11-22") == ["11-22"];
    LineTotalExample();
    assert LineTotals(["11-22"]) == [Some(33)];
    assert [Some(33)][..0] == [];
  }
}

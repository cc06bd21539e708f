// Day 3: banks of batteries. A bank's joltage is the two-digit number formed
// by two of its digits taken in order; part 1 sums the largest joltage of
// every bank.

module Day03 {
  import opened Common
  import opened Text

  /** The digits of a bank, in order; every other character is dropped. */
  function Digits(bank: string): (d: seq<nat>)
    ensures |d| <= |bank|
    ensures DigitSeq(d)
  {
    if |bank| == 0 then []
    else
      var c := bank[|bank| - 1];
      Digits(bank[..|bank| - 1]) + if IsDigit(c) then [DigitValue(c)] else []
  }

  ghost predicate DigitSeq(d: seq<nat>)
  {
    forall i :: 0 <= i < |d| ==> d[i] < 10
  }

  /** Filtering distributes over concatenation. */
  lemma {:induction false} DigitsConcat(a: string, b: string)
    ensures Digits(a + b) == Digits(a) + Digits(b)
    decreases |b|
  {
    if |b| == 0 {
      assert a + b == a;
    } else {
      var c := b[|b| - 1];
      assert (a + b)[..|a + b| - 1] == a + b[..|b| - 1];
      DigitsConcat(a, b[..|b| - 1]);
    }
  }

  /** A character that is not a digit makes no difference to the digits. */
  lemma NonDigitIgnored(a: string, c: char, b: string)
    requires !IsDigit(c)
    ensures Digits(a + [c] + b) == Digits(a + b)
  {
    DigitsConcat(a + [c], b);
    DigitsConcat(a, [c]);
    DigitsConcat(a, b);
    var one: string := [c];
    assert one[..0] == [];
  }

  /** A string of digits keeps every one of them. */
  lemma {:induction false} DigitsOfDigitString(s: string)
    requires AllDigits(s)
    ensures |Digits(s)| == |s|
    ensures forall i :: 0 <= i < |s| ==> Digits(s)[i] == DigitValue(s[i])
  {
    if |s| > 0 {
      DigitsOfDigitString(s[..|s| - 1]);
    }
  }

  // ---------------------------------------------------------------------------
  // The specification: the best pair of positions

  ghost predicate IsPair(d: seq<nat>, i: int, j: int)
  {
    0 <= i < j < |d|
  }

  /** The joltage of the batteries at positions `i` and `j`, in that order. */
  function Jolt(d: seq<nat>, i: int, j: int): nat
    requires 0 <= i < j < |d|
  {
    10 * d[i] + d[j]
  }

  /** `v` is the joltage of some pair and no pair does better. */
  ghost predicate IsMaxJoltage(d: seq<nat>, v: nat)
  {
    (exists i, j :: IsPair(d, i, j) && Jolt(d, i, j) == v) &&
    (forall i, j :: IsPair(d, i, j) ==> Jolt(d, i, j) <= v)
  }

  // ---------------------------------------------------------------------------
  // The program's way: suffix maxima

  /** `max_suffix[k]`: the largest digit at or after `k`. */
  function SuffixMax(d: seq<nat>, k: nat): (m: nat)
    requires k < |d|
    ensures forall j :: k <= j < |d| ==> d[j] <= m
    ensures exists j :: k <= j < |d| && d[j] == m
    decreases |d| - k
  {
    if k == |d| - 1 then d[k] else Max(d[k], SuffixMax(d, k + 1))
  }

  /** The best joltage with the first digit before position `n`. */
  function BestBefore(d: seq<nat>, n: nat): nat
    requires n < |d|
  {
    if n == 0 then 0 else Max(BestBefore(d, n - 1), 10 * d[n - 1] + SuffixMax(d, n))
  }

  /** `max_joltage` on the digits: the best pair of positions, and 0 with
      fewer than two digits. */
  function Best(d: seq<nat>): (best: nat)
    ensures |d| >= 2 ==> IsMaxJoltage(d, best)
    ensures |d| < 2 ==> best == 0
  {
    if |d| < 2 then 0 else BestBeforeIsMax(d, |d| - 1); BestBefore(d, |d| - 1)
  }

  lemma {:induction false} BestBeforeIsMax(d: seq<nat>, n: nat)
    requires n < |d|
    ensures forall i, j :: IsPair(d, i, j) && i < n ==> Jolt(d, i, j) <= BestBefore(d, n)
    ensures n > 0 ==> exists i, j :: IsPair(d, i, j) && i < n && Jolt(d, i, j) == BestBefore(d, n)
  {
    if n > 0 {
      BestBeforeIsMax(d, n - 1);
      var j :| n <= j < |d| && d[j] == SuffixMax(d, n);
      assert Jolt(d, n - 1, j) == 10 * d[n - 1] + SuffixMax(d, n);
      forall i, j' | IsPair(d, i, j') && i < n
        ensures Jolt(d, i, j') <= BestBefore(d, n)
      {
        if i == n - 1 {
          assert d[j'] <= SuffixMax(d, n);
        }
      }
    }
  }

  /** Two digits make at most 99. */
  lemma BestAtMost99(d: seq<nat>)
    requires DigitSeq(d)
    ensures Best(d) <= 99
  {
    if |d| >= 2 {
      assert IsMaxJoltage(d, Best(d));
      var i, j :| IsPair(d, i, j) && Jolt(d, i, j) == Best(d);
    }
  }

  /** `max_joltage`: filters the digits, fills the suffix maxima from the
      back, then tries every first position. */
  method MaxJoltage(bank: string) returns (jolt: nat)
    ensures jolt == Best(Digits(bank)) && jolt <= 99
    ensures |Digits(bank)| >= 2 ==> IsMaxJoltage(Digits(bank), jolt)
    ensures |Digits(bank)| < 2 ==> jolt == 0
  {
    var digits := Digits(bank);
    var len := |digits|;
    if len < 2 {
      return 0;
    }
    jolt := BestPair(digits);
    BestAtMost99(digits);
  }

  /** The loop of `max_joltage` over the first position, with the suffix
      maxima for the second. */
  method BestPair(digits: seq<nat>) returns (jolt: nat)
    requires |digits| >= 2
    ensures jolt == Best(digits)
  {
    var len := |digits|;
    var maxSuffix := SuffixMaxima(digits);
    jolt := 0;
    for i := 0 to len - 1
      invariant jolt == BestBefore(digits, i)
    {
      var joltage := 10 * digits[i] + maxSuffix[i + 1];
      jolt := Max(jolt, joltage);
    }
  }

  /** The `max_suffix` array, filled from the back. */
  method SuffixMaxima(digits: seq<nat>) returns (maxSuffix: array<nat>)
    requires |digits| > 0
    ensures fresh(maxSuffix) && maxSuffix.Length == |digits|
    ensures forall k :: 0 <= k < |digits| ==> maxSuffix[k] == SuffixMax(digits, k)
  {
    var len := |digits|;
    maxSuffix := new nat[len];
    maxSuffix[len - 1] := digits[len - 1];
    var i := len - 1;
    while i > 0
      invariant 0 <= i <= len - 1
      invariant forall k :: i <= k < len ==> maxSuffix[k] == SuffixMax(digits, k)
    {
      i := i - 1;
      maxSuffix[i] := Max(maxSuffix[i + 1], digits[i]);
    }
  }

  // ---------------------------------------------------------------------------
  // part1

  /** The joltage of one line: its trimmed text, or 0 when that is empty. */
  function LineJoltage(line: string): (jolt: nat)
    ensures jolt <= 99
  {
    var bank := Trim(line);
    if |bank| == 0 then 0 else BestAtMost99(Digits(bank)); Best(Digits(bank))
  }

  /** The sum of the line joltages, left to right. */
  function BanksTotal(lines: seq<string>): (total: nat)
    ensures total <= 99 * |lines|
  {
    if |lines| == 0 then 0 else BanksTotal(lines[..|lines| - 1]) + LineJoltage(lines[|lines| - 1])
  }

  /** `part1`: the joltages of the non-blank lines, added up. */
  function Part1(input: string): (total: nat)
    ensures total <= 99 * |Lines(input)|
  {
    BanksTotal(Lines(input))
  }

  /** Blank lines add nothing. */
  lemma {:induction false} BlankLinesAddNothing(lines: seq<string>)
    requires forall i :: 0 <= i < |lines| ==> |Trim(lines[i])| == 0
    ensures BanksTotal(lines) == 0
  {
    if |lines| > 0 {
      BlankLinesAddNothing(lines[..|lines| - 1]);
    }
  }

  // ---------------------------------------------------------------------------
  // The program's examples

  /** At most one value is the maximum joltage. */
  lemma MaxJoltageUnique(d: seq<nat>, v: nat, w: nat)
    requires IsMaxJoltage(d, v) && IsMaxJoltage(d, w)
    ensures v == w
  {
    var i, j :| IsPair(d, i, j) && Jolt(d, i, j) == v;
    var i', j' :| IsPair(d, i', j') && Jolt(d, i', j') == w;
    assert Jolt(d, i, j) <= w && Jolt(d, i', j') <= v;
  }

  /** The greedy choice: the first position holding the largest digit that
      can still be followed by another, paired with the largest digit after
      it, gives the maximum joltage. */
  lemma GreedyPair(d: seq<nat>, i0: nat, j0: nat)
    requires DigitSeq(d) && IsPair(d, i0, j0)
    requires forall i :: 0 <= i < |d| - 1 ==> d[i] <= d[i0]
    requires forall i :: 0 <= i < i0 ==> d[i] < d[i0]
    requires forall j :: i0 < j < |d| ==> d[j] <= d[j0]
    ensures Best(d) == Jolt(d, i0, j0)
  {
    forall i, j | IsPair(d, i, j)
      ensures Jolt(d, i, j) <= Jolt(d, i0, j0)
    {
      if d[i] < d[i0] {
        assert d[j] < 10;
      } else {
        assert i0 <= i;
      }
    }
    assert IsMaxJoltage(d, Jolt(d, i0, j0));
    MaxJoltageUnique(d, Best(d), Jolt(d, i0, j0));
  }

  // ---------------------------------------------------------------------------
  // The program's examples

  lemma Example1()
    ensures Best(Digits("987654321111111")) == 98
  {
    var d := [9, 8, 7, 6, 5, 4, 3, 2, 1, 1, 1, 1, 1, 1, 1];
    DigitsOfDigitString("987654321111111");
    assert Digits("987654321111111") == d;
    GreedyPair(d, 0, 1);
  }

  lemma Example2()
    ensures Best(Digits("811111111111119")) == 89
  {
    var d := [8, 1, 1, 1, 1, 1, 1, 1, 1, 1, 1, 1, 1, 1, 9];
    DigitsOfDigitString("811111111111119");
    assert Digits("811111111111119") == d;
    GreedyPair(d, 0, 14);
  }

  lemma Example3()
    ensures Best(Digits("234234234234278")) == 78
  {
    var d := [2, 3, 4, 2, 3, 4, 2, 3, 4, 2, 3, 4, 2, 7, 8];
    DigitsOfDigitString("234234234234278");
    assert Digits("234234234234278") == d;
    GreedyPair(d, 13, 14);
  }

  lemma Example4()
    ensures Best(Digits("818181911112111")) == 92
  {
    var d := [8, 1, 8, 1, 8, 1, 9, 1, 1, 1, 1, 2, 1, 1, 1];
    DigitsOfDigitString("818181911112111");
    assert Digits("818181911112111") == d;
    GreedyPair(d, 6, 11);
  }

  /** A line with no blank at either end is its own bank. */
  lemma UnpaddedLine(line: string)
    requires |line| > 0 && !IsWhitespace(line[0]) && !IsWhitespace(line[|line| - 1])
    ensures LineJoltage(line) == Best(Digits(line))
  {
    TrimOfTrimmed(line);
  }

  /** Four lines add up one after another. */
  lemma FourLines(a: string, b: string, c: string, d: string)
    ensures BanksTotal([a, b, c, d]) == LineJoltage(a) + LineJoltage(b) + LineJoltage(c) + LineJoltage(d)
  {
    var lines := [a, b, c, d];
    assert lines[..3] == [a, b, c] && [a, b, c][..2] == [a, b] && [a, b][..1] == [a] && [a][..0] == [];
    assert BanksTotal([a]) == LineJoltage(a);
    assert BanksTotal([a, b]) == LineJoltage(a) + LineJoltage(b);
    assert BanksTotal([a, b, c]) == LineJoltage(a) + LineJoltage(b) + LineJoltage(c);
  }

  /** The program's example, the four banks above on separate lines:
      98 + 89 + 78 + 92 = 357. */
  lemma Part1Example()
    ensures Part1(Join(["987654321111111", "811111111111119", "234234234234278", "818181911112111"], '\n')) == 357
  {
    var lines := ["987654321111111", "811111111111119", "234234234234278", "818181911112111"];
    LinesOfJoin(lines);
    ExampleBanks12();
    ExampleBanks34();
    FourLines("987654321111111", "811111111111119", "234234234234278", "818181911112111");
  }

  /** The first two example banks, each as a line of its own. */
  lemma ExampleBanks12()
    ensures LineJoltage("987654321111111") == 98 && LineJoltage("811111111111119") == 89
  {
    UnpaddedLine("987654321111111");
    Example1();
    UnpaddedLine("811111111111119");
    Example2();
  }

  /** The last two example banks, each as a line of its own. */
  lemma ExampleBanks34()
    ensures LineJoltage("234234234234278") == 78 && LineJoltage("818181911112111") == 92
  {
    UnpaddedLine("234234234234278");
    Example3();
    UnpaddedLine("818181911112111");
    Example4();
  }
}

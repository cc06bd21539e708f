// Day 6: a worksheet of problems set side by side in columns. Lines are
// padded to one width; columns that are blank in every row separate the
// problems; the last row holds each problem's operator. Part 1 reads a
// problem's numbers row by row, part 2 column by column from the right.

module Day06 {
  import opened Common
  import opened Text

  type Grid = seq<string>

  // ---------------------------------------------------------------------------
  // parse_grid

  /** The length of the longest line, 0 for none. */
  function MaxLength(lines: seq<string>): (n: nat)
    ensures forall i :: 0 <= i < |lines| ==> |lines[i]| <= n
    ensures |lines| > 0 ==> exists i :: 0 <= i < |lines| && |lines[i]| == n
    ensures |lines| == 0 ==> n == 0
  {
    if |lines| == 0 then 0
    else
      var rest := MaxLength(lines[..|lines| - 1]);
      var last := |lines[|lines| - 1]|;
      if last >= rest then last else rest
  }

  /** `resize(n, ' ')` of a line no longer than `n`. */
  function Pad(line: string, n: nat): (padded: string)
    requires |line| <= n
    ensures |padded| == n && padded[..|line|] == line
    ensures forall k :: |line| <= k < n ==> padded[k] == ' '
  {
    line + seq(n - |line|, _ => ' ')
  }

  /** `parse_grid`: the lines of the input, each padded with spaces to the
      length of the longest. */
  function ParseGrid(input: string): (grid: Grid)
    ensures |grid| == |Lines(input)|
    ensures Rectangular(grid)
    ensures forall i :: 0 <= i < |grid| ==>
      |grid[i]| == MaxLength(Lines(input)) && grid[i][..|Lines(input)[i]|] == Lines(input)[i] &&
      forall k :: |Lines(input)[i]| <= k < |grid[i]| ==> grid[i][k] == ' '
  {
    var lines := Lines(input);
    if |lines| == 0 then []
    else
      var width := MaxLength(lines);
      seq(|lines|, i requires 0 <= i < |lines| => Pad(lines[i], width))
  }

  /** Padding only appends: the width is that of the longest line, and a
      line of that length is kept as it is. */
  lemma ParseGridWidth(input: string)
    requires |Lines(input)| > 0
    ensures exists i :: 0 <= i < |Lines(input)| && ParseGrid(input)[i] == Lines(input)[i]
  {
    var lines := Lines(input);
    var grid := ParseGrid(input);
    var i :| 0 <= i < |lines| && |lines[i]| == MaxLength(lines);
    assert grid[i] == grid[i][..|lines[i]|];
  }

  // ---------------------------------------------------------------------------
  // find_problem_ranges

  function Width(grid: Grid): nat
  {
    if |grid| == 0 then 0 else |grid[0]|
  }

  /** A column that is a space in every row separates two problems. */
  ghost predicate IsSeparator(grid: Grid, col: nat)
    requires Rectangular(grid) && col < Width(grid)
  {
    forall r :: 0 <= r < |grid| ==> grid[r][col] == ' '
  }

  /** The end of the grid counts as a separator. */
  ghost predicate Boundary(grid: Grid, col: nat)
    requires Rectangular(grid) && col <= Width(grid)
  {
    col == Width(grid) || IsSeparator(grid, col)
  }

  /** `[s, e)` is a maximal run of columns that are not separators. */
  ghost predicate IsProblem(grid: Grid, s: nat, e: nat)
    requires Rectangular(grid)
  {
    s < e <= Width(grid) &&
    (forall c :: s <= c < e ==> !IsSeparator(grid, c)) &&
    (s == 0 || IsSeparator(grid, s - 1)) && Boundary(grid, e)
  }

  /** Problems from left to right, apart from each other. */
  ghost predicate Ordered(ranges: seq<(nat, nat)>)
  {
    forall i, j :: 0 <= i < j < |ranges| ==> ranges[i].1 < ranges[j].0
  }

  /** Every column that is not a separator belongs to some problem in `ranges`. */
  ghost predicate Covers(grid: Grid, ranges: seq<(nat, nat)>, upto: nat)
    requires Rectangular(grid) && upto <= Width(grid)
  {
    forall c :: 0 <= c < upto && !IsSeparator(grid, c) ==>
      exists i :: 0 <= i < |ranges| && ranges[i].0 <= c < ranges[i].1
  }

  /** The problems of the worksheet: its maximal runs of non-separator
      columns, left to right, with none left out. */
  ghost predicate Problems(grid: Grid, ranges: seq<(nat, nat)>)
    requires Rectangular(grid)
  {
    (forall i :: 0 <= i < |ranges| ==> IsProblem(grid, ranges[i].0, ranges[i].1)) &&
    Ordered(ranges) && Covers(grid, ranges, Width(grid))
  }

  /** The separator columns, left to right. */
  method SeparatorColumns(grid: Grid) returns (separators: seq<nat>)
    requires Rectangular(grid) && |grid| > 0
    ensures forall c: nat :: c in separators <==> c < Width(grid) && IsSeparator(grid, c)
  {
    separators := [];
    for col := 0 to |grid[0]|
      invariant forall c: nat :: c in separators <==> c < col && IsSeparator(grid, c)
    {
      var allSpace := AllSpace(grid, col);
      if allSpace {
        separators := separators + [col];
      }
    }
  }

  /** `grid.iter().all(|row| row[col] == ' ')`. */
  method AllSpace(grid: Grid, col: nat) returns (all: bool)
    requires Rectangular(grid) && col < Width(grid)
    ensures all <==> IsSeparator(grid, col)
  {
    all := true;
    for r := 0 to |grid|
      invariant all <==> forall q :: 0 <= q < r ==> grid[q][col] == ' '
    {
      if grid[r][col] != ' ' {
        all := false;
      }
    }
  }

  /** `find_problem_ranges`. */
  method FindProblemRanges(grid: Grid) returns (ranges: seq<(nat, nat)>)
    requires Rectangular(grid)
    ensures |grid| == 0 ==> ranges == []
    ensures Problems(grid, ranges)
  {
    if |grid| == 0 {
      return [];
    }
    var width := |grid[0]|;
    var separators := SeparatorColumns(grid);
    ranges := [];
    var start: Option<nat> := None;
    for col := 0 to width + 1
      invariant Scanning(grid, ranges, start, col)
    {
      var isSeparator := col == width || col in separators;
      if !isSeparator && start.None? {
        start := Some(col);
      } else if isSeparator && start.Some? {
        ranges := Close(grid, ranges, start.value, col);
        start := None;
      }
    }
  }

  /** What the scan has found before column `col`: closed problems, and the
      start of an open one. */
  ghost predicate Scanning(grid: Grid, ranges: seq<(nat, nat)>, start: Option<nat>, col: nat)
  {
    Rectangular(grid) && |grid| > 0 && col <= Width(grid) + 1 &&
    (forall i :: 0 <= i < |ranges| ==> IsProblem(grid, ranges[i].0, ranges[i].1) && ranges[i].1 < col) &&
    Ordered(ranges) &&
    match start {
      case None =>
        (col > 0 ==> col - 1 == Width(grid) || IsSeparator(grid, col - 1)) &&
        Covers(grid, ranges, Min(col, Width(grid)))
      case Some(s) =>
        s < col <= Width(grid) && (s == 0 || IsSeparator(grid, s - 1)) &&
        (forall c :: s <= c < col ==> !IsSeparator(grid, c)) &&
        (forall i :: 0 <= i < |ranges| ==> ranges[i].1 < s) &&
        Covers(grid, ranges, s)
    }
  }

  /** Closing the open problem at a separator or at the end. */
  method Close(grid: Grid, ranges0: seq<(nat, nat)>, s: nat, col: nat) returns (ranges: seq<(nat, nat)>)
    requires Scanning(grid, ranges0, Some(s), col) && col <= Width(grid) && Boundary(grid, col)
    ensures ranges == ranges0 + [(s, col)]
    ensures Scanning(grid, ranges, None, col + 1)
  {
    ranges := ranges0 + [(s, col)];
    forall c | 0 <= c < Min(col + 1, Width(grid)) && !IsSeparator(grid, c)
      ensures exists i :: 0 <= i < |ranges| && ranges[i].0 <= c < ranges[i].1
    {
      if c < s {
        var i :| 0 <= i < |ranges0| && ranges0[i].0 <= c < ranges0[i].1;
        assert ranges[i] == ranges0[i];
      } else {
        assert ranges[|ranges0|] == (s, col);
      }
    }
  }

  // ---------------------------------------------------------------------------
  // get_operator

  predicate IsOperator(c: char)
  {
    c == '+' || c == '*'
  }

  /** The first `+` or `*` of `row[s..e]`, or `+` when there is none. */
  function Operator(row: string, s: nat, e: nat): (op: char)
    requires s <= e <= |row|
    ensures IsOperator(op)
    ensures (exists k :: s <= k < e && row[k] == op && forall j :: s <= j < k ==> !IsOperator(row[j])) ||
            (op == '+' && forall k :: s <= k < e ==> !IsOperator(row[k]))
    decreases e - s
  {
    if s == e then '+'
    else if IsOperator(row[s]) then row[s]
    else Operator(row, s + 1, e)
  }

  /** `get_operator`: the operator of the problem in columns `[s, e)`, from the last row. */
  method GetOperator(grid: Grid, s: nat, e: nat) returns (op: char)
    requires |grid| > 0 && s <= e <= |grid[|grid| - 1]|
    ensures op == Operator(grid[|grid| - 1], s, e)
  {
    var row := grid[|grid| - 1];
    for col := s to e
      invariant Operator(row, col, e) == Operator(row, s, e)
    {
      var c := row[col];
      if c == '+' || c == '*' {
        return c;
      }
    }
    return '+';
  }

  // ---------------------------------------------------------------------------
  // extract_problem_horizontal

  /** The number in `row[s..e]` once trimmed, if it parses. */
  function Segment(row: string, s: nat, e: nat): Option<nat>
    requires s <= e <= |row|
  {
    ParseNat(Trim(row[s..e]))
  }

  /** The values of the present entries, in order. */
  function Somes(opts: seq<Option<nat>>): (values: seq<nat>)
    ensures |values| <= |opts|
  {
    if |opts| == 0 then []
    else
      var last := opts[|opts| - 1];
      Somes(opts[..|opts| - 1]) + if last.Some? then [last.value] else []
  }

  /** Taking one more entry appends its value when it is present. */
  lemma SomesStep(opts: seq<Option<nat>>, r: nat)
    requires r < |opts|
    ensures Somes(opts[..r + 1]) == Somes(opts[..r]) + if opts[r].Some? then [opts[r].value] else []
  {
    assert opts[..r + 1][..r] == opts[..r];
  }

  /** With every entry present, the values are the entries, one for one. */
  lemma {:induction false} SomesAll(opts: seq<Option<nat>>)
    requires forall i :: 0 <= i < |opts| ==> opts[i].Some?
    ensures |Somes(opts)| == |opts|
    ensures forall i :: 0 <= i < |opts| ==> Somes(opts)[i] == opts[i].value
  {
    if |opts| > 0 {
      var init := opts[..|opts| - 1];
      SomesAll(init);
      var values := Somes(opts);
      forall i | 0 <= i < |init|
        ensures values[i] == opts[i].value
      {
        assert values[i] == Somes(init)[i];
      }
    }
  }

  /** Each row's segment `[s, e)`, parsed. */
  function Segments(rows: seq<string>, s: nat, e: nat): (parsed: seq<Option<nat>>)
    requires s <= e && forall i :: 0 <= i < |rows| ==> e <= |rows[i]|
    ensures |parsed| == |rows|
  {
    seq(|rows|, i requires 0 <= i < |rows| => Segment(rows[i], s, e))
  }

  /** The numbers of part 1: each row's segment `[s, e)`, trimmed, when it
      parses, from top to bottom. */
  function RowNumbers(rows: seq<string>, s: nat, e: nat): (numbers: seq<nat>)
    requires s <= e && forall i :: 0 <= i < |rows| ==> e <= |rows[i]|
  {
    Somes(Segments(rows, s, e))
  }

  /** `extract_problem_horizontal`. */
  method ExtractHorizontal(grid: Grid, s: nat, e: nat) returns (numbers: seq<nat>, op: char)
    requires |grid| > 0 && Rectangular(grid) && s <= e <= Width(grid)
    ensures op == Operator(grid[|grid| - 1], s, e)
    ensures numbers == RowNumbers(grid[..|grid| - 1], s, e)
  {
    op := GetOperator(grid, s, e);
    var rows := grid[..|grid| - 1];
    numbers := [];
    ghost var parsed := Segments(rows, s, e);
    for r := 0 to |rows|
      invariant numbers == Somes(parsed[..r])
    {
      SomesStep(parsed, r);
      var trimmed := Trim(rows[r][s..e]);
      if |trimmed| > 0 {
        var value := ParseNat(trimmed);
        if value.Some? {
          numbers := numbers + [value.value];
        }
      }
    }
    assert parsed[..|rows|] == parsed;
  }

  /** When every row's segment holds a number, part 1 reads one number per
      row, top to bottom. */
  lemma RowNumbersEach(rows: seq<string>, s: nat, e: nat)
    requires s <= e && forall i :: 0 <= i < |rows| ==> e <= |rows[i]|
    requires forall i :: 0 <= i < |rows| ==> Segment(rows[i], s, e).Some?
    ensures |RowNumbers(rows, s, e)| == |rows|
    ensures forall i :: 0 <= i < |rows| ==> RowNumbers(rows, s, e)[i] == Segment(rows[i], s, e).value
  {
    SomesAll(Segments(rows, s, e));
  }

  /** A segment of digits between spaces reads as the number those digits spell. */
  lemma SegmentValue(pre: nat, digits: string, post: nat)
    requires |digits| > 0 && AllDigits(digits)
    ensures ParseNat(Trim(seq(pre, _ => ' ') + digits + seq(post, _ => ' '))) == Some(DigitsValue(digits))
  {
    assert IsDigit(digits[0]) && IsDigit(digits[|digits| - 1]);
    TrimPadded(pre, digits, post);
  }

  // ---------------------------------------------------------------------------
  // extract_problem_vertical

  /** The digits of column `col`, top to bottom. */
  function ColumnDigits(rows: seq<string>, col: nat): (digits: string)
    requires forall i :: 0 <= i < |rows| ==> col < |rows[i]|
    ensures AllDigits(digits) && |digits| <= |rows|
  {
    if |rows| == 0 then []
    else
      var c := rows[|rows| - 1][col];
      ColumnDigits(rows[..|rows| - 1], col) + if IsDigit(c) then [c] else []
  }

  /** The numbers of part 2: the columns `[s, e)` from right to left, each
      the number its digits spell, skipping columns without digits. */
  function ColumnNumbers(rows: seq<string>, s: nat, e: nat): (numbers: seq<nat>)
    requires s <= e && forall i :: 0 <= i < |rows| ==> e <= |rows[i]|
    ensures |numbers| <= e - s
    decreases e - s
  {
    if s == e then []
    else
      var digits := ColumnDigits(rows, s);
      ColumnNumbers(rows, s + 1, e) + if |digits| > 0 then [DigitsValue(digits)] else []
  }

  /** `extract_problem_vertical`. */
  method ExtractVertical(grid: Grid, s: nat, e: nat) returns (numbers: seq<nat>, op: char)
    requires |grid| > 0 && Rectangular(grid) && s <= e <= Width(grid)
    ensures op == Operator(grid[|grid| - 1], s, e)
    ensures numbers == ColumnNumbers(grid[..|grid| - 1], s, e)
  {
    op := GetOperator(grid, s, e);
    var rows := grid[..|grid| - 1];
    numbers := [];
    var col := e;
    while col > s
      invariant s <= col <= e
      invariant numbers == ColumnNumbers(rows, col, e)
    {
      col := col - 1;
      var digits := Digits(rows, col);
      if |digits| > 0 {
        var parsed := ParseNat(digits);
        assert parsed == Some(DigitsValue(digits));
        numbers := numbers + [parsed.value];
      }
    }
  }

  /** The inner loop of `extract_problem_vertical`: the digits of one column. */
  method Digits(rows: seq<string>, col: nat) returns (digits: string)
    requires forall i :: 0 <= i < |rows| ==> col < |rows[i]|
    ensures digits == ColumnDigits(rows, col)
  {
    digits := [];
    for r := 0 to |rows|
      invariant digits == ColumnDigits(rows[..r], col)
    {
      assert rows[..r + 1][..r] == rows[..r];
      var c := rows[r][col];
      if '0' <= c <= '9' {
        digits := digits + [c];
      }
    }
    assert rows[..|rows|] == rows;
  }

  /** A column with a digit in every row reads those digits top to bottom. */
  lemma {:induction false} ColumnDigitsFull(rows: seq<string>, col: nat)
    requires forall i :: 0 <= i < |rows| ==> col < |rows[i]| && IsDigit(rows[i][col])
    ensures ColumnDigits(rows, col) == seq(|rows|, i requires 0 <= i < |rows| => rows[i][col])
  {
    if |rows| > 0 {
      ColumnDigitsFull(rows[..|rows| - 1], col);
    }
  }

  /** When every column holds a digit, part 2 reads one number per column,
      the rightmost first. */
  lemma {:induction false} ColumnNumbersEach(rows: seq<string>, s: nat, e: nat)
    requires s <= e && forall i :: 0 <= i < |rows| ==> e <= |rows[i]|
    requires forall c :: s <= c < e ==> |ColumnDigits(rows, c)| > 0
    ensures |ColumnNumbers(rows, s, e)| == e - s
    ensures forall k :: 0 <= k < e - s ==> ColumnNumbers(rows, s, e)[k] == DigitsValue(ColumnDigits(rows, e - 1 - k))
    decreases e - s
  {
    if s < e {
      ColumnNumbersEach(rows, s + 1, e);
      var rest := ColumnNumbers(rows, s + 1, e);
      var numbers := ColumnNumbers(rows, s, e);
      assert numbers == rest + [DigitsValue(ColumnDigits(rows, s))];
      forall k | 0 <= k < e - s ensures numbers[k] == DigitsValue(ColumnDigits(rows, e - 1 - k)) {
        if k < e - s - 1 {
          assert numbers[k] == rest[k];
        }
      }
    }
  }

  // ---------------------------------------------------------------------------
  // calculate

  /** `calculate`: the sum for `+`, the product for `*` and 0 for anything else. */
  function Calculate(numbers: seq<nat>, op: char): (r: int)
    ensures op == '+' ==> r == Sum(numbers)
    ensures op == '*' ==> r == Product(numbers)
    ensures !IsOperator(op) ==> r == 0
  {
    match op
    case '+' => Sum(numbers)
    case '*' => Product(numbers)
    case _ => 0
  }

  /** Each number is at most the sum. */
  lemma {:induction false} SumBounds(numbers: seq<nat>)
    ensures Calculate(numbers, '+') >= 0
    ensures forall i :: 0 <= i < |numbers| ==> numbers[i] <= Calculate(numbers, '+')
  {
    if |numbers| > 0 {
      var init := numbers[..|numbers| - 1];
      SumBounds(init);
      assert forall i :: 0 <= i < |init| ==> init[i] == numbers[i];
    }
  }

  /** With no zero among them, each number is at most the product, which is
      at least 1 (the empty product). */
  lemma {:induction false} ProductBounds(numbers: seq<nat>)
    requires forall i :: 0 <= i < |numbers| ==> numbers[i] > 0
    ensures Calculate(numbers, '*') >= 1
    ensures forall i :: 0 <= i < |numbers| ==> numbers[i] <= Calculate(numbers, '*')
  {
    if |numbers| > 0 {
      var init := numbers[..|numbers| - 1];
      var last := numbers[|numbers| - 1];
      assert forall i :: 0 <= i < |init| ==> init[i] == numbers[i];
      ProductBounds(init);
      var p := Product(init);
      MulAtLeast(p, last);
      MulAtLeast(last, p);
      assert p * last == last * p;
    }
  }
}

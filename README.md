# Advent of Code 2025, days 1 to 12, in Dafny

This project models the puzzle solvers of a Rust Advent of Code repository, one
module per day, and proves what each solver computes:

- **Day01** turns a safe's dial left and right over 100 positions and counts how often it lands on or passes 0.
- **Day02** sums the product IDs in ranges whose digits are one block written twice.
- **Day03** finds each battery bank's largest two-digit joltage.
- **Day04** counts paper rolls with fewer than four neighbours, then removes them round by round.
- **Day05** merges fresh-ingredient ID ranges and counts fresh IDs.
- **Day06** evaluates the cephalopod worksheet, read by rows and by columns.
- **Day07** follows a tachyon beam through splitters: the splitters hit, and the number of timelines.
- **Day08** joins junction boxes into circuits with a union-find structure.
- **Day09** finds the largest rectangle spanned by two red tiles.
- **Day10** switches a machine's lights (least presses over GF(2)) and sets its joltage counters (integer elimination and a bounded search over free presses).
- **Day11** counts device paths, including those through two given devices.
- **Day12** fits presents (polyomino shapes in all rotations and flips) under trees.

Pure parsing and arithmetic are functions with lemmas. The loops of the source
are methods proved against specification functions. The state the source
mutates (the union-find arrays, the present grid) is a class or an array.
Input text is a parameter: reading files, timing and printing are left out.
`Common` holds shared helpers: Rust's truncating division, sums, and the
Option and Result types. `Text` holds line splitting and number parsing.
`Sorting` holds the sort used by days 5, 8 and 9.

## Model

| member | source | states |
| Common.TruncDivRem | src/day01.rs:27 | Rust's truncating `/` and `%` recombine: `a == b * (a / b) + a % b` |
| Common.TruncRemSign | src/day01.rs:110 | Rust's `%` takes the sign of the dividend and stays below the divisor in magnitude |
| Common.TruncAgreesWhenExact | src/day10.rs:316-319 | Rust's `%` is zero exactly when the Euclidean one is, and then both divisions agree |
| Common.AsUsize | src/day10.rs:271 | the `as usize` cast of an `i64` on a 64-bit target keeps values in 0..usize::MAX unchanged and wraps every value modulo 2^64 (two's complement), so the result never exceeds usize::MAX |
| Common.MaxOr0 | src/day10.rs:266 | the maximum of a sequence bounds every element and is one of them; 0 for an empty sequence |
| Text.FindFrom | src/day10.rs:39 | the first position of a character at or after `from`, or none when it does not occur there |
| Text.Find | src/day10.rs:26-27 | the first position of a character, or none when it does not occur |
| Text.Split | src/day02.rs:49 | `str::split` on one character: at least one piece and no piece holds the separator |
| Text.JoinSplit | src/day02.rs:49 | joining the pieces with the separator gives back the string |
| Text.SplitJoin | src/day02.rs:55 | splitting a join of separator-free pieces gives back the pieces |
| Text.Lines | src/day01.rs:17 | `str::lines`: no line holds a newline |
| Text.LinesOfJoin | src/day01.rs:17 | newline-joined lines with no trailing `\r` split back into the same lines |
| Text.TrimIsSlice | src/day01.rs:18 | `str::trim` removes whitespace only, from the two ends, and what is left starts and ends with a non-space |
| Text.TrimPadded | src/day06.rs:100 | a word padded with spaces on both sides trims to the word |
| Text.TrimOfTrimmed | src/day02.rs:60 | trimming a string with no space at either end changes nothing |
| Text.SplitWhitespace | src/day11.rs:29 | `str::split_whitespace` yields non-empty words without whitespace |
| Text.SplitWhitespaceJoin | src/day11.rs:29 | splitting a space-joined list of words gives back the words |
| Text.DecimalString | src/day02.rs:15 | `to_string` of a number: digits only, no leading zero |
| Text.DecimalStringValue | src/day02.rs:15 | the digits of `to_string` spell the number |
| Text.ParseDecimal | src/day02.rs:60-61 | parsing the decimal text of a number gives the number back |
| Text.ParseSigned | src/day10.rs:53-54 | parsing the signed text of an integer gives it back |
| Text.SplitOnFirst | src/day05.rs:18 | splitting on a separator whose first character is absent from the head peels the head off |
| Text.SplitAtBlankLine | src/day05.rs:18 | `split("\n\n")` of two blocks joined by a blank line gives the first block, then the split of the rest |
| Text.ParseNat | src/day02.rs:60-61 | `parse::<u64>()` succeeds only on a non-empty string |
| Text.SplitOn | src/day05.rs:18 | `str::split` on a string separator yields at least one piece |
| Text.SplitOnPlain | src/day05.rs:18 | a string without the separator's first character is one piece |
| Text.SplitBlankLineFree | src/day05.rs:18 | a block without a blank line is one piece of `split("\n\n")` |
| Text.LeadingSpaceIsMaximal | src/day01.rs:18 | `trim` removes exactly the leading run of whitespace |
| Text.TrailingSpaceIsMaximal | src/day01.rs:18 | `trim` removes exactly the trailing run of whitespace |
| Text.SignedString | src/day10.rs:53-54 | the text of an integer is never empty |
| Text.DigitChar | src/day02.rs:19 | the digit character of a value below 10 is a digit with that value |
| Day01.RotationOf | src/day01.rs:18-34 | a line that is blank after trimming is no rotation; otherwise a rotation comes out only when the trimmed text starts with `R` or `L` and has a distance after it; a distance that does not parse or any other first letter is an error (the source's panics) |
| Day01.RotationsOf | src/day01.rs:17-24 | the lines are read in order, at most one rotation per line, and the first bad line's error is the result |
| Day01.LeftWrap | src/day01.rs:29-32 | the `L` loop leaves a non-negative position alone and brings a negative one into 0..99 without changing it modulo 100 |
| Day01.LoopIsLeftWrap | src/day01.rs:29-32 | the loop's invariants (same residue modulo 100, below 100 once it started negative) pin its result to `LeftWrap` |
| Day01.Rotate | src/day01.rs:26-35 | one rotation of `part1`: Rust's truncating remainder for `R`, the add-100 loop for `L`, giving the specified move |
| Day01.Part1 | src/day01.rs:13-43 | the result is the number of rotations after which the dial reads 0, or the error of the first bad line |
| Day01.PositionStep | src/day01.rs:37-39 | one more rotation adds one to the count exactly when it leaves the dial at 0 |
| Day01.Position1InRange | src/day01.rs:14-35 | with non-negative distances the part 1 position always lies in 0..99 |
| Day01.Part2 | src/day01.rs:45-117 | the result is the part 2 click count over all rotations, or the error of the first bad line |
| Day01.Turn | src/day01.rs:61-111 | one rotation of `part2`: the `first_zero` formula for the clicks through 0 and the lifted remainder for the new position |
| Day01.Position2Step | src/day01.rs:87-110 | one more rotation moves the dial by the formula and adds its clicks through 0 to the count |
| Day01.LeftLift | src/day01.rs:110 | `((x % 100) + 100) % 100` with Rust's truncating remainder is the mathematical residue of `x` modulo 100 |
| Day01.WalkEndIsRemainder | src/day01.rs:65-110 | turning the dial one click at a time ends where the remainder formula of both parts says |
| Day01.ZerosAreClicks | src/day01.rs:78-108 | the closed formula `1 + (d - first_zero) / 100` counts exactly the single clicks that leave the dial at 0, and the formula's end position is the walk's end |
| Day01.Part2CountsClicks | src/day01.rs:45-117 | over any input with non-negative distances, part 2 equals the click-by-click count of passes through 0 and its position stays in 0..99 |
| Day01.PartsAgreeOnPosition | src/day01.rs:27-32 | the two parts compute the same dial position after every rotation (part 1's loop and part 2's lifted remainder agree) |
| Day01.MovesAgree | src/day01.rs:110 | for one rotation from a position in 0..99, part 1's move and part 2's move agree |
| Day01.LandingIsAClick | src/day01.rs:37-39 | a rotation of at least one click that ends on 0 has passed 0 at least once |
| Day01.Part1AtMostPart2 | src/day01.rs:37-108 | with distances of at least 1, part 1's count never exceeds part 2's |
| Day01.ExampleFirstHalf | src/day01.rs:126-130 | after L68, L30, R48, L5, R60 the dial reads 55 in both parts, with counts 1 and 3 |
| Day01.ExampleEightSteps | src/day01.rs:126-133 | after the first eight rotations of the example the dial reads 0, with counts 3 and 5 |
| Day01.ExampleCounts | src/day01.rs:124-139 | the ten-rotation example gives 6 for part 2 (and 3 for part 1) |
| Day01.LongTurn | src/day01.rs:142-150 | R1000 from 50 passes 0 ten times |
| Day01.Part1Count | src/day01.rs:36-39 | part 1 counts at most one landing on 0 per rotation |
| Day01.RotationsStep | src/day01.rs:17-24 | reading one more line appends its rotation, skips a blank line, or turns the result into that line's error |
| Day01.RotationsStop | src/day01.rs:17-34 | once a line fails, the lines after it do not matter |
| Day01.ZerosStep | src/day01.rs:87-108 | during a turn of `d >= 1` clicks the first click lands on 0 or not, and the rest is a turn of `d - 1` clicks from there |
| Day01.ExampleStep | src/day01.rs:124-150 | one more rotation of the example moves both dials by the specified move and adds its landings and clicks on 0 |
| Day02.RepeatOfInvalid | src/day02.rs:14-36 | a number whose decimal halves are equal is some `k`-digit number `h` without a leading zero written twice, `h * (10^k + 1)` |
| Day02.InvalidOfRepeat | src/day02.rs:14-36 | conversely, every `k`-digit number written twice has equal decimal halves |
| Day02.IsInvalidId | src/day02.rs:14-36 | both directions: an ID is invalid exactly when it is some `k`-digit number `h` written twice, `h * (10^k + 1)` |
| Day02.DoubledValue | src/day02.rs:19-29 | a `k`-digit number written twice has `2k` digits and the value `h * (10^k + 1)` |
| Day02.DecimalOfCanonical | src/day02.rs:19 | a digit string without a leading zero is the decimal form of its own value |
| Day02.DecimalLength | src/day02.rs:19-20 | a number between `10^(k-1)` and `10^k` has exactly `k` decimal digits |
| Day02.InvalidIdExamples | src/day02.rs:79-86 | 11, 22, 55, 99, 6464, 123123 and 1010 are invalid |
| Day02.ValidIdExamples | src/day02.rs:88-91 | 12, 123, 1234 and 100 are valid |
| Day02.InvalidBelowSplit | src/day02.rs:63-67 | the sum over a range is the sum over any two adjacent parts of it |
| Day02.InvalidBelowNone | src/day02.rs:63-67 | a range without invalid IDs adds nothing |
| Day02.InvalidBelowAtLeast | src/day02.rs:63-67 | every invalid ID of a range is at most that range's sum |
| Day02.SumRange | src/day02.rs:63-67 | the loop over `start..=end` adds up exactly the invalid IDs of the range, and nothing when `end < start` |
| Day02.PanicPropagates | src/day02.rs:60-61 | once a piece of a line fails to parse, the whole line fails, whatever follows |
| Day02.LineTotals | src/day02.rs:42-47 | one total per line of the input |
| Day02.SumTotalsStep | src/day02.rs:42-69 | adding one more line's total to a sum that has not failed gives the new sum, or a failure when the line failed |
| Day02.FailurePropagates | src/day02.rs:60-61 | once a line fails, the answer for the whole input is a failure |
| Day02.SumPieces | src/day02.rs:49-68 | the loop over the comma-separated pieces computes the specified line sum, failing on the first piece whose bounds do not parse |
| Day02.AddRange | src/day02.rs:50-67 | one piece: trimmed, skipped when empty or not two `-`-separated parts, otherwise its range's invalid IDs are added |
| Day02.ScanPiece | src/day02.rs:50-61 | the classification of one piece: skipped, a range with both bounds, or a bound that does not parse |
| Day02.Part1 | src/day02.rs:38-72 | the answer is the sum over all lines as specified, or the failure that stands for the source's panic |
| Day02.SumLines | src/day02.rs:42-69 | the loop over the lines adds their totals and stops at the first failure |
| Day02.SumLine | src/day02.rs:43-68 | a trimmed blank line adds nothing; any other line adds the sum of its pieces |
| Day02.TrimmedDecimal | src/day02.rs:60-61 | a decimal number, trimmed and parsed, gives the number back |
| Day02.ReadPieceExample | src/day02.rs:101-103 | `11-22` reads as the range from 11 to 22 |
| Day02.InvalidSumExample | src/day02.rs:96-103 | the invalid IDs between 11 and 22 add up to 33 |
| Day02.LineTotalExample | src/day02.rs:101-103 | the line `11-22` totals 33 |
| Day02.Part1Example | src/day02.rs:101-103 | `part1("11-22")` is 33, as the test expects |
| Day03.Digits | src/day03.rs:18-22 | the digits of a bank keep only the ASCII digit characters, each a value from 0 to 9, so there are never more digits than characters |
| Day03.DigitsConcat | src/day03.rs:18-22 | filtering the digits of two joined texts gives the digits of each, joined |
| Day03.NonDigitIgnored | src/day03.rs:20 | a character that is not a digit contributes nothing |
| Day03.DigitsOfDigitString | src/day03.rs:18-22 | a text of digits gives one value per character, each that character's value |
| Day03.SuffixMax | src/day03.rs:30-34 | `max_suffix[k]` is the largest digit at or after `k`: none later is bigger, and one of them equals it |
| Day03.BestBeforeIsMax | src/day03.rs:37-41 | after `n` rounds the running maximum bounds every pair whose first digit comes before `n`, and one such pair attains it |
| Day03.Best | src/day03.rs:14-44 | with at least two digits the result is the largest `10 * d[i] + d[j]` over all positions `i < j`, and some pair attains it; with fewer it is 0 |
| Day03.BestAtMost99 | src/day03.rs:37-41 | a two-digit joltage is at most 99 |
| Day03.MaxJoltage | src/day03.rs:14-44 | `max_joltage` returns the best joltage of two batteries in order, at most 99, and 0 for a bank with fewer than two digits |
| Day03.BestPair | src/day03.rs:29-43 | the two loops (suffix maxima, then the best tens digit) compute the specified best joltage |
| Day03.SuffixMaxima | src/day03.rs:30-34 | the backward loop fills `max_suffix` with the suffix maxima |
| Day03.LineJoltage | src/day03.rs:49-51 | the joltage of one line is at most 99 |
| Day03.BanksTotal | src/day03.rs:46-53 | the sum over `n` lines is at most `99 * n` |
| Day03.Part1 | src/day03.rs:46-53 | the answer is at most 99 per input line |
| Day03.BlankLinesAddNothing | src/day03.rs:49-50 | lines that are blank after trimming add nothing |
| Day03.MaxJoltageUnique | src/day03.rs:14-44 | the maximum joltage of a bank is unique |
| Day03.GreedyPair | src/day03.rs:36-41 | taking the first largest digit before the last position, then the largest digit after it, gives the best joltage |
| Day03.Example1 | src/day03.rs:61 | `987654321111111` gives 98 |
| Day03.Example2 | src/day03.rs:62 | `811111111111119` gives 89 |
| Day03.Example3 | src/day03.rs:63 | `234234234234278` gives 78 |
| Day03.Example4 | src/day03.rs:64 | `818181911112111` gives 92 |
| Day03.UnpaddedLine | src/day03.rs:49-51 | a line without surrounding whitespace is its own bank |
| Day03.FourLines | src/day03.rs:46-53 | the answer for four lines is the sum of their joltages |
| Day03.ExampleBanks12 | src/day03.rs:61-62 | the first two example lines give 98 and 89 |
| Day03.ExampleBanks34 | src/day03.rs:63-64 | the last two example lines give 78 and 92 |
| Day03.Part1Example | src/day03.rs:68-71 | the four example lines, joined by newlines, give 357 |
| Day04.RollsTowardNext | src/day04.rs:50-59 | looking in one more direction adds that neighbour when it is a roll inside the grid, and it was not counted before |
| Day04.RollsTowardAll | src/day04.rs:43-59 | after all eight directions the rolls seen are exactly the roll neighbours of the cell |
| Day04.CountAdjacent | src/day04.rs:42-62 | `count_adjacent` returns the number of `@` cells among the eight neighbours inside the grid, at most 8 |
| Day04.Accessible | src/day04.rs:27-37 | the accessible cells are rolls |
| Day04.AccessibleBeforeNext | src/day04.rs:28-35 | one more cell of the row-major scan adds that cell exactly when it is a roll with fewer than 4 roll neighbours |
| Day04.CountBeforeNext | src/day04.rs:28-35 | the count goes up by one exactly at such a cell |
| Day04.AccessibleBeforeRow | src/day04.rs:27-28 | the end of one row is the start of the next, and after the last row the scan has seen every accessible roll |
| Day04.IsAccessible | src/day04.rs:29-32 | a cell is counted exactly when it holds `@` and has fewer than 4 roll neighbours |
| Day04.Part1 | src/day04.rs:13-40 | the answer is the number of accessible rolls, 0 for an empty input |
| Day04.CountAccessible | src/day04.rs:19-39 | the double loop counts exactly the accessible rolls |
| Day04.RoundClears | src/day04.rs:98-100 | one round replaces exactly the accessible rolls by `.`, keeps the grid's shape, and leaves the other rolls |
| Day04.RoundShrinks | src/day04.rs:93-100 | a round that removes something leaves fewer rolls, so the outer loop ends |
| Day04.Final | src/day04.rs:78-103 | the grid left when the loop stops keeps the shape of the input |
| Day04.TotalRemovedIsDifference | src/day04.rs:64-106 | when the loop stops no roll is accessible; the total removed is the number of rolls that disappeared, and at least the first round's count |
| Day04.FindAccessible | src/day04.rs:80-91 | `to_remove` lists every accessible roll exactly once |
| Day04.RemoveAll | src/day04.rs:98-100 | marking the listed cells `.` gives the grid with exactly those cells cleared |
| Day04.ListedRound | src/day04.rs:98-100 | clearing the listed accessible cells is one round |
| Day04.ListedTotal | src/day04.rs:93-102 | an empty list ends the loop with nothing more removed; otherwise the list's length plus what later rounds remove is the total |
| Day04.Part2 | src/day04.rs:64-106 | the answer is the total number of rolls removed round after round until none is accessible, at least part 1's answer |
| Day05.IsFresh | src/day05.rs:37-39 | an ID is fresh exactly when some range contains it, bounds included |
| Day05.FreshIffInUnion | src/day05.rs:37-39 | an ID is fresh exactly when it lies in the union of the ranges |
| Day05.FreshCount | src/day05.rs:9 | part 1's count of fresh IDs never exceeds the number of IDs |
| Day05.FreshCountAll | src/day05.rs:9 | the count equals the number of IDs exactly when every ID is fresh |
| Day05.UnionOfPermutation | src/day05.rs:47-48 | reordering the ranges, as the sort does, keeps their union |
| Day05.Span | src/day05.rs:64 | a range `start..=end` holds exactly the IDs between its bounds |
| Day05.UnionAppend | src/day05.rs:59 | pushing a range adds its IDs to the union |
| Day05.UnionFuse | src/day05.rs:54-56 | extending the last range to `max(last.1, end)` when the next one starts no later than one past it adds exactly the next range's IDs |
| Day05.FuseShape | src/day05.rs:52-61 | after a merge step the merged ranges stay non-empty, ordered, separated by at least one missing ID and each with start at most end |
| Day05.FuseUnion | src/day05.rs:52-61 | a merge step adds exactly the IDs of the next range to the merged union |
| Day05.FuseBounds | src/day05.rs:52-61 | every merged range starts and ends at bounds taken from the input ranges |
| Day05.FuseSkipsReversed | src/day05.rs:52-55 | a range with end below start that starts at most one past the last merged range leaves the merged ranges as they were |
| Day05.FusingStep | src/day05.rs:52-61 | the loop invariant (merged ranges separated, covering exactly the ranges seen, starting no later than the next range) survives one step |
| Day05.UnionPrefix | src/day05.rs:52 | the ranges seen so far grow by one range per step |
| Day05.MergeSorted | src/day05.rs:51-61 | merging sorted ranges gives non-empty, separated, well-formed ranges with the same union, whose bounds come from the input |
| Day05.SpanSize | src/day05.rs:64 | a range holds `end - start + 1` IDs |
| Day05.EndsBeforeLater | src/day05.rs:52-61 | in separated ranges every range ends before any later one starts |
| Day05.UnionSize | src/day05.rs:64 | for separated ranges the sum of their sizes is the number of distinct IDs they cover |
| Day05.CountUniqueFreshIds | src/day05.rs:41-65 | the answer of part 2 is the number of distinct IDs that some range contains, 0 with no ranges |
| Day05.ParseAll | src/day05.rs:23 | every piece parses, giving one number each, or some piece does not and the line fails |
| Day05.ParseRanges | src/day05.rs:20-26 | one range per line of the first section, or a failure (the source's panic) |
| Day05.ParseInput | src/day05.rs:17-35 | a parsed input has a blank-line separator and one range per line of the first section; a missing section or a bad number is a failure |
| Day05.RangeRoundTrip | src/day05.rs:23-24 | a range written as `start-end` parses back to itself |
| Day05.FormatRanges | src/day05.rs:20-26 | one line per range |
| Day05.RangesRoundTrip | src/day05.rs:20-26 | the lines of any ranges parse back to the same ranges |
| Day05.FormatIds | src/day05.rs:28-32 | one line per ID |
| Day05.IdsRoundTrip | src/day05.rs:28-32 | the lines of any IDs parse back to the same IDs |
| Day05.RangeLines | src/day05.rs:20-22 | a written range is a non-empty line without a newline or a trailing carriage return, so splitting into lines keeps it whole |
| Day05.IdLines | src/day05.rs:28-30 | a written ID is such a line too |
| Day05.InputRoundTrip | src/day05.rs:17-35 | ranges and IDs written as two sections separated by a blank line parse back to the same ranges and IDs |
| Day05.BlankIdLinesSkipped | src/day05.rs:30 | blank lines of the ID section are skipped |
| Day06.MaxLength | src/day06.rs:36 | the longest line's length: no line is longer and some line has it; 0 with no lines |
| Day06.Pad | src/day06.rs:41-42 | padding keeps the line as a prefix and fills up to the target length with spaces |
| Day06.ParseGrid | src/day06.rs:30-46 | one row per line, every row as long as the longest line, each the line followed by spaces; an empty input gives an empty grid |
| Day06.ParseGridWidth | src/day06.rs:36-44 | some line is left as it is, so no column is added beyond the longest line |
| Day06.SeparatorColumns | src/day06.rs:55-62 | a column is listed exactly when it is inside the grid and a space in every row |
| Day06.AllSpace | src/day06.rs:58 | true exactly when the column is a space in every row |
| Day06.FindProblemRanges | src/day06.rs:48-80 | the ranges are the maximal runs of non-separator columns, each non-empty, left to right and apart from each other, and every non-separator column is in one; an empty grid gives none |
| Day06.Close | src/day06.rs:73-75 | reaching a separator or the end while a run is open closes that run as the next range |
| Day06.Operator | src/day06.rs:82-91 | the operator is the first `+` or `*` of the last row within the range, or `+` when there is none |
| Day06.GetOperator | src/day06.rs:82-91 | the loop returns that operator |
| Day06.Somes | src/day06.rs:101-104 | keeping the segments that parse never yields more numbers than rows |
| Day06.SomesStep | src/day06.rs:101-104 | one more row adds its number exactly when its segment parses |
| Day06.SomesAll | src/day06.rs:101-104 | when every segment parses there is one number per row, in order |
| Day06.Segments | src/day06.rs:98-100 | one trimmed segment per row above the operator row |
| Day06.ExtractHorizontal | src/day06.rs:93-109 | the operator of the range and, top to bottom, the numbers of the row segments that are not blank and parse |
| Day06.RowNumbersEach | src/day06.rs:98-106 | when every segment parses, number `i` is row `i`'s segment |
| Day06.SegmentValue | src/day06.rs:99-102 | a segment of digits padded by spaces parses to the digits' value |
| Day06.ColumnDigits | src/day06.rs:119-125 | a column's digits, top to bottom, are digits only and no more than the rows |
| Day06.ColumnNumbers | src/day06.rs:118-131 | at most one number per column of the range |
| Day06.ExtractVertical | src/day06.rs:111-134 | the operator of the range and the numbers read column by column from right to left, columns without digits skipped |
| Day06.Digits | src/day06.rs:119-125 | the inner loop collects exactly the column's digits, top to bottom |
| Day06.ColumnDigitsFull | src/day06.rs:119-125 | a column that is all digits gives all its characters, top digit first |
| Day06.ColumnNumbersEach | src/day06.rs:118-131 | when every column has a digit there is one number per column, the rightmost first, each the value of its digits read top to bottom |
| Day06.Calculate | src/day06.rs:136-142 | the sum for `+`, the product for `*`, and 0 for any other operator |
| Day06.SumBounds | src/day06.rs:138 | a sum is non-negative and at least each of its numbers |
| Day06.ProductBounds | src/day06.rs:139 | a product of positive numbers is at least 1 and at least each of its numbers; an empty product is 1 |
| Day07.LastS | src/day07.rs:30-35 | the last `S` of a row: it is an `S` and none follows it; none when the row has no `S` |
| Day07.FirstS | src/day07.rs:98-103 | the first `S` of a row: it is an `S` and none precedes it; none when the row has no `S` |
| Day07.SplitStart | src/day07.rs:27-36 | `count_splits` starts at the last `S` in row-major order, or at (0, 0) when there is none |
| Day07.TimelineStart | src/day07.rs:96-104 | `count_timelines` starts at the first `S` of the last row holding one (the `break` leaves only the inner loop), or at column 0 |
| Day07.StartsAgree | src/day07.rs:27-104 | when no row holds two `S`, both parts start in the same column |
| Day07.FindStart | src/day07.rs:27-36 | the scan returns the position the specification picks |
| Day07.FindStartColumn | src/day07.rs:96-104 | the scan returns the column the specification picks |
| Day07.FirstSPrefix | src/day07.rs:98-102 | an `S` with none before it is the row's first |
| Day07.Next | src/day07.rs:60-81 | the columns a beam moves to in the next row: `^` sends it left and right where those are inside, any other cell straight down; all inside the grid |
| Day07.Reach | src/day07.rs:48-82 | the beam columns `k` rows below the start lie inside the grid |
| Day07.Advance | src/day07.rs:111-139 | the columns reached from a set of columns lie inside the grid |
| Day07.BeamMember | src/day07.rs:48-82 | a position is among the beams exactly when the beam reaches it |
| Day07.SplitsAtMostSplitters | src/day07.rs:67-69 | no more splits are counted than there are splitters in the grid |
| Day07.BeamInside | src/day07.rs:60 | a beam above the last row is in a column inside the grid |
| Day07.NextIsBeam | src/day07.rs:62-81 | a beam's successors are beams |
| Day07.ReachStep | src/day07.rs:62-81 | a column reached from a beam column is a beam column of the next row |
| Day07.ClosedHoldsBeams | src/day07.rs:48-82 | a visited set that holds the start and every successor of its members holds every beam |
| Day07.CountSplits | src/day07.rs:18-85 | the answer is the number of beam positions that sit above a splitter, each counted once, at most the number of splitters; 0 for an empty grid |
| Day07.Simulate | src/day07.rs:40-84 | the breadth-first search counts exactly the beam positions above a splitter |
| Day07.Visit | src/day07.rs:48-82 | one dequeue keeps the search invariant (visited beams closed under successors through the queue, splits counted over the visited ones) and either visits a new beam or shortens the queue |
| Day07.VisitNew | src/day07.rs:53-81 | visiting a new beam keeps the invariant and leaves fewer beams to visit |
| Day07.FewerLeft | src/day07.rs:53 | marking a new beam visited leaves fewer beams unvisited, so the search ends |
| Day07.VisitStep | src/day07.rs:53-81 | a visited beam adds one split exactly when it is above a splitter and queues exactly its successors |
| Day07.AllVisited | src/day07.rs:48-82 | when the queue is empty, the visited positions are exactly the beams |
| Day07.Expand | src/day07.rs:59-81 | one step of the match: a hit exactly at a splitter, and exactly the successors pushed |
| Day07.PushedAreBeams | src/day07.rs:62-81 | everything pushed is a beam |
| Day07.ClosedStep | src/day07.rs:48-81 | dequeuing a position and pushing its successors keeps the visited set closed through the queue |
| Day07.SplitCellsAdd | src/day07.rs:67-69 | a newly visited position adds one split exactly when it is above a splitter |
| Day07.Step | src/day07.rs:111-139 | one row's step gives timeline counts on exactly the columns reached from the current ones |
| Day07.StepEntries | src/day07.rs:114-136 | each column of the next row receives the counts sent to it from the current row |
| Day07.Timelines | src/day07.rs:108-139 | the timeline counts after `k` rows lie inside the grid; with one row the single start timeline |
| Day07.CountTimelines | src/day07.rs:87-143 | the answer is the total of the timelines reaching the last row, at most `2^(rows - 1)`; 0 for an empty grid |
| Day07.TimelinesInside | src/day07.rs:108-139 | every column with timelines is inside the grid, or the start column of a one-row grid |
| Day07.Rows | src/day07.rs:108-139 | the row loop computes the timeline counts of the last row |
| Day07.NextRow | src/day07.rs:111-138 | one iteration turns the counts of row `k` into those of row `k + 1` |
| Day07.TimelinesNext | src/day07.rs:111-138 | the counts of row `k + 1` are one step from those of row `k` |
| Day07.StepRow | src/day07.rs:112-136 | the loop over the current counts computes one step |
| Day07.AddTo | src/day07.rs:120-133 | adding a count to a set of columns creates entries for exactly those columns |
| Day07.AddToEntries | src/day07.rs:120-133 | each column in the set gains the count; other entries are kept |
| Day07.Deposit | src/day07.rs:117-135 | one column's timelines are added to each column it sends them to |
| Day07.AddAt | src/day07.rs:120-133 | `entry(col).or_insert(0) += count` adds the count to one more column |
| Day07.StepAdd | src/day07.rs:114-136 | the order in which the current columns are visited does not change the result |
| Day07.AdvanceAdd | src/day07.rs:114-136 | the columns reached from one more column are those reached before plus its successors |
| Day07.ReceivedAt | src/day07.rs:114-136 | a column's new count is the sum of what it receives |
| Day07.SumCounts | src/day07.rs:142 | the final sum adds every column's count |
| Day07.TotalRemove | src/day07.rs:142 | the total is one entry plus the total of the rest |
| Day07.TimelineColumns | src/day07.rs:108-139 | the columns carrying timelines `k` rows down are exactly the columns that a beam entering the top row at the start column reaches in row `k` |
| Day07.TotalIsReceived | src/day07.rs:114-136 | a step's total is the sum of what every column receives |
| Day07.ReceivedBound | src/day07.rs:122-130 | what a row receives is at most twice what it sends, because a split sends each timeline at most twice |
| Day07.TotalStep | src/day07.rs:122-130 | one step at most doubles the number of timelines |
| Day07.TimelinesAtMost | src/day07.rs:108-139 | after `k` rows there are at most `2^k` timelines |
| Day07.TimelinesDouble | src/day07.rs:111-138 | each row at most doubles the timelines |
| Day08.MaxRank | src/day08.rs:31 | no rank exceeds the largest one, which bounds the length of every parent chain |
| Day08.Root | src/day08.rs:44-49 | following parent links from an element ends at a root, an element that is its own parent |
| Day08.Roots | src/day08.rs:44-49 | one root per element |
| Day08.RankBelowRoot | src/day08.rs:57-66 | an element that is not a root has a smaller rank than its root, as union by rank guarantees |
| Day08.RootIsSelf | src/day08.rs:45 | an element is its own root exactly when it is its own parent |
| Day08.Compress | src/day08.rs:46 | pointing an element straight at its root keeps the forest valid and every element's root unchanged |
| Day08.CompressAt | src/day08.rs:46 | after such a step each element still has the same root |
| Day08.Link | src/day08.rs:57-62 | hanging a root of smaller rank under another root keeps the forest valid and moves exactly the first root's elements to the second |
| Day08.LinkAt | src/day08.rs:57-62 | after linking, an element whose root was the lower root now has the upper one, and every other element keeps its root |
| Day08.Promote | src/day08.rs:66 | raising a root's rank keeps the forest valid, the sizes right and the roots unchanged |
| Day08.Redirect | src/day08.rs:57-66 | moving every element of one class to another leaves none in the first |
| Day08.RedirectCount | src/day08.rs:57-66 | after the move the second class holds both classes' elements and the first none, so the sizes add up |
| Day08.RootsBelow | src/day08.rs:74-78 | the roots among the first `k` elements, in order |
| Day08.RootsBelowSame | src/day08.rs:74-78 | path compression does not change which elements are roots |
| Day08.RootsBelowLose | src/day08.rs:57-66 | a merge makes exactly one root stop being a root |
| Day08.CountIn | src/day08.rs:71-80 | counting the elements whose root is in a set never exceeds the number of elements |
| Day08.CountInAll | src/day08.rs:71-80 | when every element's root is in the set, all are counted |
| Day08.CountInAdd | src/day08.rs:71-80 | adding one root to the set adds the number of elements under it |
| Day08.ComponentSizes | src/day08.rs:71-80 | one size per root |
| Day08.SizesSum | src/day08.rs:71-80 | the sizes of the roots seen so far add up to the number of elements under them |
| Day08.RootSetStep | src/day08.rs:74-78 | one more element adds itself to the roots seen exactly when it is a root |
| Day08.SizesTotal | src/day08.rs:71-80 | all component sizes add up to the number of elements |
| Day08.UnionFind.constructor | src/day08.rs:36-42 | `n` singleton sets: every element its own parent, rank 0 and size 1, and `n` components |
| Day08.UnionFind.Find | src/day08.rs:44-49 | returns the root of `x` as it was, points `x` straight at it, and changes no element's root, no rank and no size |
| Day08.UnionFind.Union | src/day08.rs:51-69 | afterwards `x` and `y` have the same root; nothing changes when they already had, otherwise the root of smaller rank hangs under the other (on a tie `y`'s root under `x`'s, whose rank goes up), sizes add up and there is one component fewer |
| Day08.UnionFind.Join | src/day08.rs:55-68 | the three branches of the rank comparison, given the two roots |
| Day08.UnionFind.MergeTie | src/day08.rs:63-67 | on equal ranks the second root hangs under the first, whose rank and size grow |
| Day08.UnionFind.Merge | src/day08.rs:57-62 | the lower-rank root hangs under the other, whose size grows by its size |
| Day08.UnionFind.GetComponentSizes | src/day08.rs:71-80 | the sizes of the components in order of their roots, one per component, adding up to the number of elements; the roots are unchanged |
| Day08.RootsKeepRoots | src/day08.rs:44-49 | two forests with the same roots for every element have the same root elements |
| Day08.AllRoots | src/day08.rs:36-42 | in a fresh structure every element is a root |
| Day08.Labels | src/day08.rs:119-121 | the reference partition after a list of connections has one label per element |
| Day08.RedirectPartition | src/day08.rs:51-69 | merging the classes of two elements gives the same partition whichever root ends on top |
| Day08.JoinedPartition | src/day08.rs:51-69 | what `union` does to the roots is what connecting the two elements does to the reference partition |
| Day08.SingleTree | src/day08.rs:150-161 | one component remains exactly when all elements have the same root |
| Day08.OneClassTransfer | src/day08.rs:150-161 | two descriptions of the same partition agree on whether everything is in one class |
| Day08.Connect | src/day08.rs:153-158 | connecting two elements follows the reference partition, reports a merge exactly when they were in different classes, and then counts one component fewer |
| Day08.LastConnection | src/day08.rs:132-171 | the pair returned is the first connection after which all elements are in one circuit; none when there are at most one element or the connections never join them all |
| Day08.ComponentSizesAt | src/day08.rs:74-78 | the `m`-th size is the size of the `m`-th root |
| Day08.LargestThree | src/day08.rs:124-128 | the three largest sizes (fewer when there are fewer components), each one of the sizes |
| Day08.SolvePart1 | src/day08.rs:117-129 | after the first 1000 connections the answer is the product of the three largest circuit sizes of the reference partition, each circuit counted once |
| Day08.CircuitSizesListed | src/day08.rs:124 | the reference list of circuit sizes has one positive entry per circuit: for each size `s`, its entries `s` add up to the boxes whose circuit has `s` boxes |
| Day08.CircuitSizes | src/day08.rs:124 | the reference list of circuit sizes, one entry per circuit of the joined boxes, has only entries of at least 1 |
| Day08.BoxesInCircuitsOfSize | src/day08.rs:124 | the number of boxes whose circuit has a given size is at most the number of boxes |
| Day08.ComponentSizesListed | src/day08.rs:124 | the sizes `get_component_sizes` reports list the circuits of the partition the union-find follows in the same sense |
| Day08.ListsCircuitsUnique | src/day08.rs:124 | two lists of the circuits of one partition hold the same sizes, each as often, so the reported sizes are the reference sizes reordered |
| Day08.SizeTotalIsCount | src/day08.rs:124 | the entries equal to `s` add up to `s` times how often `s` occurs |
| Day08.LargestThreeOfPermutation | src/day08.rs:125-128 | the descending sort and `take(3)` give the same three sizes for any order of the same sizes |
| Sorting.SortedUnique | src/day08.rs:125 | two orderings of the same elements by a key that tells every two elements apart are the same sequence |
| Day08.JoinAll | src/day08.rs:119-121 | the loop over the connections gives the reference partition |
| Day08.UnionStep | src/day08.rs:120 | one `union` call follows the reference partition |
| Day08.ClassSizes | src/day08.rs:124 | every reported size is the size of some circuit |
| Day09.TilesOf | src/day09.rs:14-26 | at most one tile per line (blank lines skipped); a piece that does not parse, or a line with fewer than two pieces, makes the input fail (the source's panics) |
| Day09.TileRoundTrip | src/day09.rs:18-24 | a tile written as `x,y` parses back to itself |
| Day09.TrimSigned | src/day09.rs:21 | a written coordinate is unchanged by trimming |
| Day09.Mul | src/day09.rs:44 | the product of two positive dimensions is positive |
| Day09.MulIsProduct | src/day09.rs:44 | the area is width times height |
| Day09.SolvePart1 | src/day09.rs:28-53 | the answer is the largest area `(abs(dx) + 1) * (abs(dy) + 1)` over all pairs of tiles, attained by some pair, 0 with fewer than two tiles |
| Day09.LargestRectangle | src/day09.rs:32-52 | the double loop finds that largest area |
| Day09.LargestFrom | src/day09.rs:36-49 | one pass of the inner loop: the running maximum never drops, bounds every pair starting at `i`, and is attained by some pair |
| Day09.RectangleArea | src/day09.rs:37-44 | the area of the rectangle two tiles span, corner tiles included |
| Day09.LargestAtEnd | src/day09.rs:52 | a value bounding every pair and attained by one is the largest area |
| Day09.BuildEdges | src/day09.rs:64-69 | the edges join each tile to the next, the last to the first |
| Day09.Crossings | src/day09.rs:150-165 | a ray crosses at most one edge per edge |
| Day09.CrossingsCount | src/day09.rs:152-165 | the crossing count is the number of vertical edges to the right of the point whose span holds its row, the top end excluded |
| Day09.IsInsidePolygon | src/day09.rs:148-168 | a point is inside exactly when its ray crosses an odd number of edges |
| Day09.FillValid | src/day09.rs:84-96 | the table has one entry per compressed cell, and an entry is true exactly when the cell's centre (truncating halves) is inside the polygon |
| Day09.ColumnNoneInvalid | src/day09.rs:107-112 | a column has no invalid cell in a span exactly when all its cells there are valid |
| Day09.NoneInvalid | src/day09.rs:107-112 | a block has no invalid cell exactly when all its cells are valid |
| Day09.PrefixStep | src/day09.rs:102-103 | the recurrence of the prefix table counts the invalid cells of the block above and to the left |
| Day09.FillPrefix | src/day09.rs:99-105 | every entry of the prefix table is the number of invalid cells above and to the left of it |
| Day09.FillRow | src/day09.rs:101-104 | one row of the loop fills the next row of the table |
| Day09.SplitX | src/day09.rs:111 | a block splits into two at any column boundary |
| Day09.SplitY | src/day09.rs:111 | a block splits into two at any row boundary |
| Day09.CountInvalidMeaning | src/day09.rs:107-112 | the four-entry formula counts the invalid cells of the inclusive block |
| Day09.CountInvalidCells | src/day09.rs:107-112 | an empty rectangle counts 0; over a prefix table of the validity grid, the count is the number of invalid cells in the inclusive rectangle |
| Day09.DegenerateAccepted | src/day09.rs:130-133 | a rectangle of zero width or height is always accepted |
| Day09.Part2AtMostPart1 | src/day09.rs:28-145 | part 2's answer never exceeds part 1's |
| Day09.IndexRange | src/day09.rs:121-128 | a compressed cell lies between two coordinates exactly when its index lies between their indices |
| Day09.BoxByIndex | src/day09.rs:126-129 | the cells between two coordinate pairs are those between their indices |
| Day09.InsideByTable | src/day09.rs:89-96 | all those cells are inside the polygon exactly when all their table entries are valid |
| Day09.PairCheck | src/day09.rs:128-133 | the check on the prefix table accepts a pair of tiles exactly when every compressed cell of their rectangle has its centre inside the polygon |
| Day09.PairValid | src/day09.rs:121-133 | the index lookups and the check accept exactly the accepted pairs |
| Day09.SpanArea | src/day09.rs:136 | the area of an accepted rectangle, from the min and max of each coordinate |
| Day09.LargestAccepted | src/day09.rs:115-144 | the double loop finds the largest area over the accepted pairs, 0 when none |
| Day09.BoundStep | src/day09.rs:116-142 | finishing row `i` extends the bound to every pair starting before `i + 1` |
| Day09.LargestAcceptedFrom | src/day09.rs:117-141 | one pass of the inner loop: the maximum never drops, bounds every accepted pair starting at `i`, and is attained by one |
| Day09.RowStep | src/day09.rs:117-141 | one more pair keeps the row bound |
| Day09.LargestAcceptedAtEnd | src/day09.rs:144 | at the end the maximum is the largest area over the accepted pairs |
| Day09.LargestOf | src/day09.rs:115-144 | a value that bounds every pair of a set and is attained by one of them, or is 0 for an empty set, is that set's largest area |
| Day09.SolvePart2 | src/day09.rs:55-145 | the answer is the largest area over the pairs whose rectangle has every compressed cell inside the polygon, 0 when there are none |
| Day09.Prepare | src/day09.rs:63-105 | the edges, the compressed coordinates, their index maps and both tables are set up as specified |
| Day09.PositionMap | src/day09.rs:79-80 | the map sends each compressed coordinate to its index |
| Day09.CoveredBy | src/day09.rs:121-124 | every tile coordinate is in the map, so the lookups cannot fail |
| Sorting.Insert | src/day09.rs:74-77 | inserting keeps every element and adds one |
| Sorting.InsertSorted | src/day09.rs:74-77 | inserting into a sorted sequence keeps it sorted |
| Sorting.SortBy | src/day09.rs:74-77 | sorting is a permutation |
| Sorting.SortSorted | src/day09.rs:74-77 | the result is sorted by the key |
| Sorting.Dedup | src/day09.rs:75 | removing adjacent duplicates never adds elements and keeps the first |
| Sorting.DedupAscending | src/day09.rs:74-77 | deduplicating a sorted sequence leaves it strictly increasing with the same elements |
| Sorting.CompressedProperties | src/day09.rs:72-77 | the compressed coordinates are strictly increasing and are exactly the coordinates that occur |
| Day10Machine.Lights | src/day10.rs:28-29 | the target has one light per pattern character, on exactly where the character is `#` |
| Day10Machine.ButtonGroup | src/day10.rs:40-47 | an empty `( )` group adds no button, any other adds exactly one; a position that does not parse is an error |
| Day10Machine.JoltageGroup | src/day10.rs:51-55 | a `{ }` group yields the joltages and no buttons |
| Day10Machine.MachinesOf | src/day10.rs:21-24 | blank lines are skipped, so there is at most one machine per line |
| Day10Machine.ParseMachine | src/day10.rs:24-62 | the line is parsed as the specification `MachineOf` says: missing brackets and bad numbers are errors |
| Day10Machine.ScanRest | src/day10.rs:36-60 | the `while i < rest.len()` loop computes the scan of the text after `]` |
| Day10Machine.ParseInput | src/day10.rs:20-65 | the machines of the non-blank lines, in order, or the first line's error |
| Day10Machine.NatListOf | src/day10.rs:42-45 | the positions parse to `values` exactly when every trimmed piece parses to its value |
| Day10Machine.IntListOf | src/day10.rs:52-55 | the joltages parse to `values` exactly when every trimmed piece parses to its value |
| Day10Machine.ParseNumbers | src/day10.rs:42-45 | comma-joined decimal positions parse back to the same positions |
| Day10Machine.ParseSignedNumbers | src/day10.rs:52-55 | comma-joined signed joltages parse back to the same joltages |
| Day10Machine.ScanButtonStep | src/day10.rs:38-48 | at a `(`, the scan adds the group's button and resumes after the `)` |
| Day10Machine.ScanJoltageStep | src/day10.rs:49-56 | at a `{`, the scan ends with the group's joltages |
| Day10Machine.ScanSkipAt | src/day10.rs:57-58 | any other character is skipped |
| Day10Machine.ScanButtonsAt | src/day10.rs:37-48 | a run of written buttons is read back as those buttons, in order |
| Day10Machine.ParseRender | src/day10.rs:20-65 | writing a machine in the puzzle's format and parsing it gives the machine back |
| Day10Machine.PatternText | src/day10.rs:28-29 | a written light pattern has one character per light and no bracket |
| Day10Machine.FindAt | src/day10.rs:26-27 | a character at position `k` with none of it before is found at `k` |
| Day10Machine.ScanJoltagesAt | src/day10.rs:49-56 | a brace group of joltages ends the scan with those joltages and no more buttons |
| Day10Machine.ButtonText | src/day10.rs:40-46 | a written button parses back to that button |
| Day10Machine.ScanGroupAt | src/day10.rs:38-48 | a parenthesised group is read as its button (none when empty) and the scan goes on after the `)` |
| Day10Machine.ScanFirstButton | src/day10.rs:38-48 | a written button is read and the scan goes on after it |
| Day10Machine.MachineOfParts | src/day10.rs:24-62 | a line's machine is its light pattern between the brackets together with the buttons and joltages scanned after `]` |
| Day10Machine.ScanRendered | src/day10.rs:36-60 | scanning written buttons followed by written joltages gives back those buttons and joltages |
| Day10Lights.BuildMatrix | src/day10.rs:72-87 | the augmented matrix has entry [light][button] set exactly when the button lists that light (positions past the last light are ignored), and the target in the last column |
| Day10Lights.MatrixMeansPresses | src/day10.rs:72-87 | a plan solves the matrix system over GF(2) exactly when pressing its buttons lights exactly the `#` positions |
| Day10Lights.ParityIsToggled | src/day10.rs:75-82 | a row's XOR with a plan is the parity of the pressed buttons that toggle that light |
| Day10Lights.XorKeepsSolutions | src/day10.rs:112-118 | adding one row into another (XOR) keeps exactly the same solutions |
| Day10Lights.SwapKeepsSolutions | src/day10.rs:105-107 | swapping two rows keeps exactly the same solutions |
| Day10Lights.XorRowInto | src/day10.rs:114-116 | the inner `for c in 0..=n_buttons` loop XORs the pivot row into one row and changes nothing else |
| Day10Lights.FindPivotRow | src/day10.rs:95-101 | the first row at or below the current row with a set bit in the column, or none when every such row is clear there |
| Day10Lights.ClearColumn | src/day10.rs:111-118 | every other row with a set bit in the pivot column gets the pivot row XORed in; the solutions are unchanged |
| Day10Lights.PivotStep | src/day10.rs:103-120 | clearing the column around a new pivot extends the echelon form by one column |
| Day10Lights.PivotColumn | src/day10.rs:94-120 | one column of the elimination keeps the echelon form, adds at most one pivot and keeps the solutions |
| Day10Lights.Reduce | src/day10.rs:89-121 | the elimination ends in reduced row-echelon form with at most one pivot per row and per column, and the system has the same solutions as before |
| Day10Lights.HasContradiction | src/day10.rs:123-129 | the check finds a row reading `0 = 1` exactly when there is one |
| Day10Lights.ContradictionHasNoSolution | src/day10.rs:123-129 | a system with such a row has no solution |
| Day10Lights.FreeColumns | src/day10.rs:131-136 | the free columns are the non-pivot columns, in increasing order |
| Day10Lights.MaskOfBits | src/day10.rs:142-148 | a bit vector is read back from its mask bit by bit, and the mask is below 2^length |
| Day10Lights.AssignFreeAt | src/day10.rs:143-148 | free column i gets bit i of the mask; every other column stays false |
| Day10Lights.PivotRowEquation | src/day10.rs:151-160 | in reduced form, a pivot row holds exactly when its pivot unknown is the target XOR the later entries |
| Day10Lights.BackSubstSolves | src/day10.rs:150-160 | back substitution leaves the free columns alone and makes every pivot row hold |
| Day10Lights.BackSubstUnique | src/day10.rs:150-160 | a solution that agrees with the free columns is the one back substitution produces |
| Day10Lights.CandidateSolves | src/day10.rs:142-160 | in a consistent reduced system every mask gives a solution |
| Day10Lights.SolutionIsCandidate | src/day10.rs:142-160 | every solution is the candidate of the mask of its free columns |
| Day10Lights.BuildCandidate | src/day10.rs:143-160 | the candidate built in place for one mask is the specified one |
| Day10Lights.MinPressesIsMin | src/day10.rs:140-165 | the running minimum over masks below `hi` is the presses of one of them and at most the presses of each |
| Day10Lights.MaskSearch | src/day10.rs:131-165 | the free columns found and the minimum over all 2^free masks |
| Day10Lights.MaskMinimumAttained | src/day10.rs:138-167 | the minimum over masks is the presses of some plan that lights the pattern |
| Day10Lights.MaskMinimumIsLowest | src/day10.rs:138-167 | no plan that lights the pattern uses fewer presses than that minimum |
| Day10Lights.SolveMachine | src/day10.rs:68-168 | None exactly when no plan lights the pattern; otherwise the fewest presses of any plan, at most the number of buttons, equal to the brute-force minimum over all 2^buttons plans |
| Day10Lights.FewestBelowIsMin | src/day10.rs:142-165 | the brute-force reference returns the fewest presses among the lighting plans of masks below `hi`, and none when there is none |
| Day10Lights.EveryPlanHasAMask | src/day10.rs:142 | every plan is the plan of a mask below 2^buttons |
| Day10Lights.OptimumIsFewest | src/day10.rs:68-168 | an answer that is attained, lowest, and None only without solutions is the brute-force answer |
| Day10Lights.SolvePart1 | src/day10.rs:170-177 | the sum of the fewest presses over the machines that can be lit; the others add nothing |
| Day10Lights.Part1Total | src/day10.rs:173-176 | the sum is at least the fewest presses of every machine that can be lit, and it is 0 exactly when every machine either cannot be lit or needs no press |
| Day10Lights.PressesAtMost | src/day10.rs:163 | a plan presses at most every button once |
| Day10Lights.XorRow | src/day10.rs:110-117 | XOR-ing two rows flips exactly the entries where the other row is set |
| Day10Lights.AssignFree | src/day10.rs:143-148 | the free buttons set from the mask give one value per button |
| Day10Lights.BackSubst | src/day10.rs:150-160 | back substitution gives one value per button |
| Day10Lights.MaskMinimumIsOptimal | src/day10.rs:138-167 | the minimum over all masks is the fewest presses of any plan that lights the target, and some plan attains it |
| Day10Lights.PlanOf | src/day10.rs:142-148 | a mask read as a plan presses button `j` exactly when bit `j` is set |
| Day10Joltage.BuildMatrix | src/day10.rs:197-211 | the integer matrix has a 1 at [counter][button] exactly when the button lists that counter (positions past the last counter ignored), and the joltages in the last column |
| Day10Joltage.MarkButton | src/day10.rs:201-205 | one button's column is set to 1 at the counters it lists and 0 elsewhere; no other column changes |
| Day10Joltage.MatrixMeansConfigures | src/day10.rs:197-211 | a vector solves the integer system and is non-negative exactly when pressing each button that many times gives every counter its joltage |
| Day10Joltage.DotIsReceived | src/day10.rs:200-205 | a row's dot product with a press vector is what that counter receives from the presses |
| Day10Joltage.CrossRow | src/day10.rs:241-243 | the cross-multiplied row is `row * pivot_val - pivot_row * factor`, entry by entry |
| Day10Joltage.DotOfCross | src/day10.rs:241-243 | the dot product of a cross-multiplied row is the same combination of the two dot products |
| Day10Joltage.CrossRowHolds | src/day10.rs:237-245 | with a non-zero pivot and a pivot row that holds, the new row holds exactly when the old one did |
| Day10Joltage.CrossKeepsSolutions | src/day10.rs:237-245 | replacing a row by its cross-multiplication with another keeps exactly the same solutions |
| Day10Machine.SwapRows | src/day10.rs:229-231 | `matrix.swap`, shared by both eliminations: the two rows trade places and every other row stays |
| Day10Joltage.SwapKeepsSolutions | src/day10.rs:229-231 | swapping rows keeps exactly the same solutions |
| Day10Joltage.CrossRowInto | src/day10.rs:241-243 | the inner `for c in 0..=n_buttons` loop replaces one row by its cross-multiplication and nothing else |
| Day10Joltage.FindPivotRow | src/day10.rs:220-226 | the first row at or below the current row with a non-zero entry in the column, or none |
| Day10Joltage.EliminateBelow | src/day10.rs:237-245 | every row below the pivot with a non-zero entry in the column is cross-multiplied; the rows above stay; the solutions are unchanged |
| Day10Joltage.PivotStep | src/day10.rs:228-247 | eliminating below a new pivot extends the echelon form by one column, recording the pivot value |
| Day10Joltage.PivotColumn | src/day10.rs:219-247 | one column of the elimination keeps the echelon form, adds at most one pivot and keeps the solutions |
| Day10Joltage.Eliminate | src/day10.rs:213-248 | the elimination ends in echelon form (zeros below each pivot, non-zero recorded pivot values) with the same solutions |
| Day10Joltage.ZeroBelowPivots | src/day10.rs:236-245 | in echelon form every entry below a pivot is 0 |
| Day10Joltage.HasContradiction | src/day10.rs:250-256 | the check finds a row reading `0 = c` with `c != 0` exactly when there is one |
| Day10Joltage.ContradictionHasNoSolution | src/day10.rs:250-256 | a system with such a row has no solution |
| Day10Joltage.RowsBelowPivotsHold | src/day10.rs:250-256 | in a consistent echelon system the rows without a pivot hold for every vector |
| Day10Joltage.PivotRowEquation | src/day10.rs:304-320 | a pivot row holds exactly when `pivot_val * x[pivot_col]` equals the right-hand side minus the other entries |
| Day10Joltage.BackSubstSolves | src/day10.rs:304-321 | when every division is exact, back substitution leaves the free entries alone and makes every pivot row hold |
| Day10Joltage.BackSubstUnique | src/day10.rs:304-321 | an integer solution that agrees with the free entries is the one back substitution finds (so no exact division fails for it) |
| Day10Joltage.LeafSolves | src/day10.rs:299-328 | a leaf with a total has a non-negative integer solution with that total, agreeing with the free values |
| Day10Joltage.LeafFinds | src/day10.rs:299-328 | every non-negative solution is found by the leaf with its free values, with its own total |
| Day10Joltage.EvaluateLeaf | src/day10.rs:299-328 | the leaf of `search_free_vars_v2` computed in place is the specified leaf: back substitution with exact division, then the non-negativity check and the total |
| Day10Joltage.FillAt | src/day10.rs:332-334 | the scratch vector holds the chosen free values at the free columns and 0 elsewhere |
| Day10Joltage.FillExtend | src/day10.rs:333-337 | setting the next free column adds its value to the running sum |
| Day10Joltage.MinOpt | src/day10.rs:326 | the smaller of two optional totals, present when either is |
| Day10Joltage.BoxLower | src/day10.rs:331-345 | the best leaf total of a sub-box is at most the total of any completion in it |
| Day10Joltage.BoxAttained | src/day10.rs:331-345 | the best leaf total of a sub-box is the total of some completion in it |
| Day10Joltage.RangeLower | src/day10.rs:333 | the best over the values below `n` of the next free column bounds each of them |
| Day10Joltage.RangeAttained | src/day10.rs:333 | the best over the values below `n` is attained by one of them |
| Day10Joltage.LeafAtLeast | src/day10.rs:336-340 | with non-negative remaining values, a leaf total is at least the running sum of the free values chosen so far |
| Day10Joltage.PruneSound | src/day10.rs:336-340 | once the running sum reaches the minimum, no larger value of this column gives a better leaf |
| Day10Joltage.PruneRest | src/day10.rs:338-340 | the `break` loses nothing: the minimum over the whole range equals the minimum so far |
| Day10Joltage.RangeStep | src/day10.rs:342-343 | one more value of the column folds its sub-box's best into the minimum |
| Day10Joltage.Search | src/day10.rs:287-346 | the recursive search leaves `current` as it found it and returns the minimum folded with the best leaf total of its sub-box |
| Day10Joltage.BoxBestAttainedBy | src/day10.rs:274-284 | the best leaf total of the whole box is the total presses of a press vector that configures the machine within the box |
| Day10Joltage.NonPivotInBox | src/day10.rs:267-272 | a vector whose free entries come from the box lies in the box |
| Day10Joltage.BoxBestIsMinimal | src/day10.rs:274-284 | every configuring press vector within the box presses at least the best leaf total |
| Day10Joltage.SolveJoltage | src/day10.rs:189-285 | Some(0) without counters; otherwise an answer is the total of a configuring press vector whose free entries lie in 0..max_free, and no such vector with a total below i64::MAX presses fewer; so None means no such vector has a total below i64::MAX |
| Day10Joltage.SolvePart2 | src/day10.rs:179-186 | the answers of the machines that have one, summed, each answer as `SolveJoltage` promises |
| Day10Joltage.BackSubst | src/day10.rs:303-321 | a back substitution that does not fail gives one value per button |
| Day10Joltage.Fill | src/day10.rs:332-334 | the free values chosen so far, as a vector with one entry per button |
| Day10Joltage.MinWith | src/day10.rs:326 | `min` of the running minimum and a candidate: no larger than either and equal to one of them |
| Day10Joltage.RangeSkip | src/day10.rs:333-340 | values that cannot beat the running minimum leave it unchanged |
| Day11.ParseLine | src/day11.rs:18-31 | a line read as an entry gives whitespace-free output names, and a line written as `device: out1 out2 ...` from names without `':'` reads back as that device and those outputs |
| Day11.EntryLineParts | src/day11.rs:22-31 | such a line splits on `": "` into the device and the text of the outputs, which splits on whitespace into the outputs |
| Day11.Build | src/day11.rs:14-37 | a device has an entry exactly when some non-blank line splits on `": "` into exactly two parts naming it |
| Day11.LastLineWins | src/day11.rs:33 | a device's outputs are those of the last line that names it, since `insert` overwrites |
| Day11.ParseInput | src/day11.rs:14-37 | the parsing loop builds that map |
| Day11.Rank | src/day11.rs:39-70 | in a graph without cycles before the target, some ranking decreases along every output |
| Day11.OutputsBelow | src/day11.rs:63-65 | the outputs of a device other than the target rank below it, so the recursion ends |
| Day11.CountPaths | src/day11.rs:39-70 | the result is the number of paths from the device that end on their first visit to the target (1 at the target, 0 without outputs, a repeated output counted twice), and every memoised entry holds that number for its device; the entries only grow, and a device other than the target that has outputs is memoised on return |
| Day11.SolvePart1 | src/day11.rs:72-76 | the answer is the number of paths from `you` to `out` |
| Day11.CountPathsWithBoth | src/day11.rs:78-116 | the result is the number of such paths that pass both `dac` and `fft`, given the flags so far, and every memoised entry holds that number for its device and flags; the entries only grow, and the key of a device other than the target that has outputs is memoised on return |
| Day11.SolvePart2 | src/day11.rs:118-122 | the answer is the number of paths from `svr` to `out` through both `dac` and `fft` |
| Day11.BothAtMostAll | src/day11.rs:39-116 | paths through both devices are among all paths, and with both flags already set they are all of them |
| Day11.BothAtMostAllVia | src/day11.rs:109-111 | the same over a device's list of outputs |
| Day11.FlagsMonotone | src/day11.rs:92-98 | setting a flag never lowers the count |
| Day11.FlagsMonotoneVia | src/day11.rs:109-111 | the same over a device's list of outputs |
| Day12Shapes.NewShape | src/day12.rs:19-29 | the shape's cells are the `#` characters of the picture, row by row and left to right, as (row, column) pairs |
| Day12Shapes.RowCellsMember | src/day12.rs:22-26 | a cell comes from one picture row exactly when it is in that row, within the scanned prefix and marked `#` |
| Day12Shapes.GridCellsMember | src/day12.rs:21-27 | a cell is in the shape exactly when its row and column are inside the picture and the picture has `#` there |
| Day12Shapes.RowCellsRowMajor | src/day12.rs:22-26 | the cells of one row are pushed in increasing column order |
| Day12Shapes.GridCellsRowMajor | src/day12.rs:21-27 | the cells of a whole picture are pushed in row-major order, so no cell repeats |
| Day12Shapes.Rotated | src/day12.rs:53-57 | a quarter turn maps every cell (r, c) to (c, -r) and keeps the number of cells |
| Day12Shapes.Flipped | src/day12.rs:59-63 | a horizontal flip maps every cell (r, c) to (r, -c) and keeps the number of cells |
| Day12Shapes.FlipTwice | src/day12.rs:59-63 | flipping twice gives back the shape |
| Day12Shapes.Turned | src/day12.rs:36-40 | `k` quarter turns keep the number of cells |
| Day12Shapes.FullTurn | src/day12.rs:36-40 | four quarter turns give back the shape, so the loop's four rotations are all the turns there are |
| Day12Shapes.TransformsKeepDistinct | src/day12.rs:53-63 | turning or flipping a shape with distinct cells leaves them distinct |
| Day12Shapes.MinRow | src/day12.rs:69 | the smallest row of a non-empty cell list: no cell is above it and some cell is on it |
| Day12Shapes.MinCol | src/day12.rs:70 | the smallest column of a non-empty cell list: no cell is left of it and some cell is in it |
| Day12Shapes.Translated | src/day12.rs:71-75 | a shift moves every cell by the same offset and keeps the number of cells |
| Day12Shapes.Normalized | src/day12.rs:65-77 | normalising keeps the number of cells and puts the shape against the origin: every row and column is non-negative and row 0 and column 0 are used (an empty shape is returned as it is) |
| Day12Shapes.TranslatedToOrigin | src/day12.rs:69-75 | shifting by minus the smallest row and column puts a non-empty shape against the origin |
| Day12Shapes.NormalizeNormalized | src/day12.rs:65-77 | normalising is idempotent: a shape already against the origin is left unchanged |
| Day12Shapes.Variations | src/day12.rs:32-40 | the loop produces eight variations, each turn followed by its mirror image |
| Day12Shapes.NormalizedAll | src/day12.rs:44-45 | every variation is normalised, one for one |
| Day12Shapes.DedupProperties | src/day12.rs:43-49 | deduplication keeps exactly the shapes it was given, with no repeats and never more of them |
| Day12Shapes.DedupStep | src/day12.rs:44-48 | one step of the loop pushes the next shape only when it is not already among the kept ones |
| Day12Shapes.RotationsAndFlips | src/day12.rs:31-51 | the loops compute the normalised, deduplicated orientations of the shape |
| Day12Shapes.OrientationsProperties | src/day12.rs:31-51 | there are at most eight orientations; each is normalised, none repeats, and every normalised variation is among them |
| Day12Shapes.OrientationsKeepSize | src/day12.rs:31-51 | every orientation has as many cells as the shape |
| Day12Puzzle.BlockEnd | src/day12.rs:99-102 | the picture of a shape stops at the end of input, at a blank line or at the next header ending in `:` |
| Day12Puzzle.ShapeSection | src/day12.rs:87-107 | the shape section ends no earlier than it starts and no later than the input |
| Day12Puzzle.HeaderStep | src/day12.rs:95-103 | a header line is followed by a picture, which becomes one shape before the scan goes on after it |
| Day12Puzzle.SkipStep | src/day12.rs:104-106 | any other line before the regions is skipped |
| Day12Puzzle.ShapeSectionStops | src/day12.rs:87-93 | the shape section stops only at the end of input or at a line containing both `x` and `:` |
| Day12Puzzle.OneShapePerHeader | src/day12.rs:95-103 | exactly one shape is read for each header line of the shape section |
| Day12Puzzle.Counts | src/day12.rs:122-125 | the counts are the words that parse as numbers, so there are no more counts than words |
| Day12Puzzle.RegionSection | src/day12.rs:110-131 | at most one region is read per line; blank lines and lines that do not split into two parts, two dimensions and two numbers are skipped |
| Day12Puzzle.Decimals | src/day12.rs:122-125 | the counts written back as decimal words, one for one |
| Day12Puzzle.RegionOf | src/day12.rs:117-127 | a line written from a region as `WxH: c1 c2 ...` is read back as that same region |
| Day12Puzzle.RegionLineParts | src/day12.rs:117-125 | a written region splits at its one `": "` into dimensions and counts that parse back to its width, height and counts |
| Day12Puzzle.RegionParts | src/day12.rs:117 | splitting such a line on `": "` gives exactly the dimensions and the count list |
| Day12Puzzle.CountsOfDecimals | src/day12.rs:122-125 | the counts of a space-separated list of decimals are the numbers written |
| Day12Puzzle.DecimalsCount | src/day12.rs:124 | every decimal word parses back to its number |
| Day12Puzzle.ParseInput | src/day12.rs:80-134 | the parser's loops compute the shapes and regions the line-by-line specification defines |
| Day12Puzzle.ParseShapes | src/day12.rs:87-107 | the first loop reads the shape section and stops where the specification says |
| Day12Puzzle.Picture | src/day12.rs:98-102 | the inner loop collects the picture lines up to the end of the block |
| Day12Puzzle.ReadShape | src/day12.rs:95-103 | a header and the picture after it give the next shape of the section, and the scan goes on after the picture |
| Day12Puzzle.StopStep | src/day12.rs:87-93 | the shape section ends at the end of the lines or at the first region line |
| Day12Puzzle.ParseRegions | src/day12.rs:110-131 | the second loop reads the region section as specified |
| Day12Puzzle.CountTrue | src/day12.rs:255-259 | the number of successes never exceeds the number of regions |
| Day12Puzzle.SolvePart1AsWritten | src/day12.rs:252-265 | `solve_part1` as written: the answer is exactly the number of regions whose area is at least the cells their presents need |
| Day12Puzzle.CountRoomy | src/day12.rs:255-264 | the loop as written counts exactly the roomy regions |
| Day12Puzzle.RoomyRegions | src/day12.rs:152-159 | the number of regions that pass the size check, at most the number of regions |
| Day12Puzzle.SolvePart1 | src/day12.rs:252-265 | with the corrected search: one answer per region, the count is the number of successes, each success a region with enough cells and a real non-overlapping packing of its presents, and the count is at most the as-written answer |
| Day12Puzzle.CountFitting | src/day12.rs:255-264 | the loop with the corrected search: one answer per region, each success a real packing, the count the number of successes and at most the number of roomy regions |
| Day12Puzzle.FitsRegion | src/day12.rs:257 | with the corrected search, a region is accepted only when its presents fit its cells and a real packing exists |
| Day12Packing.SetCell | src/day12.rs:218-220 | marking a cell adds it to the taken cells, unmarking removes it, and nothing else changes |
| Day12Packing.CanPlace | src/day12.rs:224-242 | true exactly when every cell of the placed shape is inside the grid and free |
| Day12Packing.PlaceShape | src/day12.rs:244-250 | marking adds the shape's cells to the taken cells, unmarking removes them, and nothing else changes |
| Day12Packing.FirstEmpty | src/day12.rs:181-192 | none only when the grid is full; otherwise a free cell with no free cell before it in row-major order |
| Day12Packing.OrientationsOf | src/day12.rs:176 | one list of orientations per shape |
| Day12Packing.Backtrack | src/day12.rs:165-222 | the search with the full-grid case corrected: true only with a packing of all remaining shapes into cells that were free, which are then taken; on failure the grid is as it was; true whenever nothing is left to place |
| Day12Packing.LeaveGap | src/day12.rs:216-221 | leaving the first empty cell as a gap keeps the search's promise and restores the cell afterwards |
| Day12Packing.GapStep | src/day12.rs:216-221 | a packing found with the gap taken is a packing of the free cells, and the grid is restored without the gap |
| Day12Packing.TryOrientations | src/day12.rs:199-214 | trying each orientation and each anchoring cell keeps the search's promise: success gives a packing whose first shape is placed, and every failed try is undone |
| Day12Packing.PlacedFirst | src/day12.rs:206-210 | placing one shape on free cells and packing the rest into the remaining cells packs the whole list |
| Day12Packing.BacktrackAsWritten | src/day12.rs:165-222 | `backtrack` as written always answers true: every path ends in an explicit `true`, or in the gap recursion, which ends on a full grid |
| Day12Packing.TryAsWritten | src/day12.rs:199-214 | the orientation loop as written succeeds exactly when some orientation, anchored at one of its cells on the target cell, lies on free cells; when none does the grid is unchanged |
| Day12Packing.PackingNeedsRoom | src/day12.rs:194-197 | a packing of at least one non-empty shape needs a free cell, so a full grid cannot hold what remains |
| Day12Packing.FullGridAnswer | src/day12.rs:194-197 | on a grid with no free cell and one single-cell shape still to place, `backtrack` as written answers true although that shape has no packing into the free cells |
| Day12Packing.Expand | src/day12.rs:146-150 | the list of shapes to place names only shapes the region counts |
| Day12Packing.ExpandCounts | src/day12.rs:146-150 | shape `i` occurs in the list exactly as often as the region requires |
| Day12Packing.TotalIsNeeded | src/day12.rs:153-156 | the quick size check's total equals the sum of the cells of every shape in the list |
| Day12Packing.ShapeListAndCells | src/day12.rs:142-156 | the list of shapes to place holds each shape index as often as the region requires it, and the cells counted are exactly those the listed shapes need |
| Day12Packing.CanFitRegionAsWritten | src/day12.rs:136-163 | `can_fit_region` as written answers true exactly when the region has at least as many cells as the required shapes need |
| Day12Packing.CanFitRegion | src/day12.rs:136-163 | with the corrected search: false when the shapes need more cells than the region has, true when nothing is to be placed, and true only with a real packing of all required presents into the region |

## Left out

- Fixed-width integer overflow (u32, i32, u64, usize, i64) is not modelled. Integers are unbounded, and the inputs the source handles stay far from its limits.
- Panics on malformed input are either preconditions or `None`/`Err` results, member by member as stated in the table.
- Reading input files, the `solve` wrappers, timing, `src/main.rs` and day 12's progress output on standard error are I/O and are left out.
- Day 8: the junction boxes' floating-point coordinates, `parse_input`, `distance_squared` and the sort by distance are left out. The pairs arrive as an already-sorted sequence of index pairs. Part 2 returns the closing pair rather than the product of the two x-coordinates.
- Day 12: part 2 is a stub in the source and is not modelled.
- Day12Puzzle.SolvePart1: uses the corrected search of the finding below. Each region it counts is proved to have a real packing, and the count is at most the as-written answer. That every region with a packing is counted is not proved: the search only tries, at the first empty cell, the next shape in list order.
- Day12Puzzle.CountFitting: the same as SolvePart1, for its loop over the parsed regions.
- Day12Packing.CanFitRegion: uses the corrected search. It answers false on too few cells and true without presents, and a true answer comes with a real packing. A false answer is not proved to mean that no packing exists, for the same reason.
- Days 7 and 11: the order in which a `HashMap` is iterated is left open. The model picks keys in any order, and every result is proved independent of that order.
- Day 7: the grid must be rectangular, and must have at least one column when it has more than one row, because the source indexes the next row without a check. The timeline total is taken over `cols + 1` keys, so that the start column 0 of a grid whose rows are empty is still counted.
- Day 6: lengths are counted in characters, not bytes. The worksheet is ASCII, where the two agree.
- Day 10: `MachineOf`, `ScanRest`, `ParseMachine` and `MachineOfParts` index characters throughout. The source tests characters with `chars().nth(i)` but bounds its loop by the byte length `rest.len()` and slices by byte offsets, so non-ASCII text after the `]` could be misread or make the source panic. The machine lines are ASCII, where the two agree.
- Day 11: the device graph must have no cycle that avoids `out` anywhere in the graph (the `Acyclic` precondition). This is stronger than the source needs. The source's memoised recursion only fails to end on such a cycle when the start device reaches it, so a graph whose only such cycles are unreachable from the start is handled by the source but excluded here.
- Day 2: part 2 is not implemented in the source. A number that fails to parse gives `None` where the source panics.
- Day 3: part 2 is not implemented in the source. The example answer 357 is stated over the joined bank values.
- Day 4: coordinates must fit the grid (the `Fits` precondition). Part 2's grid is a sequence that the loop reassigns, not a mutable `Vec`. The example answer 43 for part 2 is not proved.
- Day05.CountUniqueFreshIds: every range must have start <= end (`WellFormed`), which excludes some reversed ranges that the source handles. A reversed range that starts at most one past the last merged range is absorbed without effect (`FuseSkipsReversed`). A reversed range `(s, s - 1)` followed by a range starting at `s` is extended into a proper group. Only a reversed range left as a group of its own makes `end - start + 1` underflow. The model proves the merge correct by keeping every merged range well formed after each step. That invariant assumes well-formed input, and a pending `(s, s - 1)` group breaks it between steps, so the count is stated for well-formed ranges only.
- Day 5: `ParseNat` has no 64-bit bound. `sort_by_key` is modelled as a stable insertion sort.

## Findings

| source | as written | input that shows it | evidently intended | confidence | as-written member | corrected member |
|---|---|---|---|---|---|---|
| src/day12.rs:194-197 | `backtrack` never answers false: a full grid answers true even while shapes remain, and every failed placement ends in a full grid of gaps. So `can_fit_region` is exactly its area check, and `solve_part1` counts every region whose area is at least the cells of its presents (BacktrackAsWritten, CanFitRegionAsWritten, SolvePart1AsWritten) | a 3 by 1 region with one L-shaped tromino passes the area check (3 <= 3) and is counted, though no orientation fits; FullGridAnswer shows the last step on a full 1 by 1 grid with one shape left | a full grid with shapes left answers false, and only regions with a real packing are counted | high, not executed | Day12Packing.BacktrackAsWritten | Day12Packing.Backtrack |

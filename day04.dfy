// Day 4: rolls of paper (`@`) on a grid. A roll is accessible when fewer
// than four of its eight neighbours hold rolls. Part 1 counts the accessible
// rolls; part 2 removes every accessible roll at once, round after round,
// until none is accessible, and counts how many it removed.

module Day04 {
  import opened Text

  /** The input's lines; only the first `Cols` characters of each are read. */
  type Grid = seq<string>

  type Cell = (int, int)

  /** The width of the grid: the length of its first line. */
  function Cols(grid: Grid): nat
  {
    if |grid| == 0 then 0 else |grid[0]|
  }

  /** No line is shorter than the first (the program indexes every line up
      to that width). */
  ghost predicate Fits(grid: Grid)
  {
    forall r :: 0 <= r < |grid| ==> |grid[r]| >= Cols(grid)
  }

  ghost predicate InBounds(grid: Grid, r: int, c: int)
  {
    0 <= r < |grid| && 0 <= c < Cols(grid)
  }

  /** A roll of paper at `(r, c)`; nothing is outside the grid. */
  ghost predicate IsRoll(grid: Grid, r: int, c: int)
    requires Fits(grid)
  {
    InBounds(grid, r, c) && grid[r][c] == '@'
  }

  /** The rolls among the eight cells around `(r, c)`. */
  ghost function Neighbours(grid: Grid, r: int, c: int): set<Cell>
    requires Fits(grid)
  {
    set nr, nc | r - 1 <= nr <= r + 1 && c - 1 <= nc <= c + 1 && (nr != r || nc != c) && IsRoll(grid, nr, nc) :: (nr, nc)
  }

  /** The number of neighbouring rolls. */
  ghost function Adjacent(grid: Grid, r: int, c: int): nat
    requires Fits(grid)
  {
    |Neighbours(grid, r, c)|
  }

  // ---------------------------------------------------------------------------
  // count_adjacent

  /** The eight directions, in the order the program tries them. */
  const Directions: seq<Cell> := [(-1, -1), (-1, 0), (-1, 1), (0, -1), (0, 1), (1, -1), (1, 0), (1, 1)]

  /** The neighbouring rolls in the first `k` directions. */
  ghost function RollsToward(grid: Grid, r: int, c: int, k: nat): set<Cell>
    requires Fits(grid) && k <= |Directions|
  {
    set nr, nc | r - 1 <= nr <= r + 1 && c - 1 <= nc <= c + 1 && (nr - r, nc - c) in Directions[..k] && IsRoll(grid, nr, nc) :: (nr, nc)
  }

  /** Trying one more direction adds its cell when it holds a roll; the
      directions are distinct, so the cell is new. */
  lemma RollsTowardNext(grid: Grid, r: int, c: int, k: nat)
    requires Fits(grid) && k < |Directions|
    ensures var d := Directions[k];
      RollsToward(grid, r, c, k + 1) ==
        RollsToward(grid, r, c, k) + if IsRoll(grid, r + d.0, c + d.1) then {(r + d.0, c + d.1)} else {}
    ensures (r + Directions[k].0, c + Directions[k].1) !in RollsToward(grid, r, c, k)
  {
    var d := Directions[k];
    assert Directions[..k + 1] == Directions[..k] + [d];
    assert d !in Directions[..k];
  }

  /** All eight directions reach exactly the neighbours. */
  lemma RollsTowardAll(grid: Grid, r: int, c: int)
    requires Fits(grid)
    ensures RollsToward(grid, r, c, |Directions|) == Neighbours(grid, r, c)
  {
    assert Directions[..|Directions|] == Directions;
  }

  /** `count_adjacent`: the number of rolls around `(r, c)`, at most 8. */
  method CountAdjacent(grid: Grid, r: nat, c: nat) returns (count: nat)
    requires Fits(grid)
    ensures count == Adjacent(grid, r, c) && count <= 8
  {
    count := 0;
    for k := 0 to |Directions|
      invariant count == |RollsToward(grid, r, c, k)| && count <= k
    {
      var d := Directions[k];
      var nr := r + d.0;
      var nc := c + d.1;
      RollsTowardNext(grid, r, c, k);
      if 0 <= nr < |grid| && 0 <= nc < Cols(grid) && grid[nr][nc] == '@' {
        assert IsRoll(grid, nr, nc);
        count := count + 1;
      } else {
        assert !IsRoll(grid, nr, nc);
      }
    }
    RollsTowardAll(grid, r, c);
  }

  // ---------------------------------------------------------------------------
  // part1

  /** The rolls of the grid. */
  ghost function Rolls(grid: Grid): set<Cell>
    requires Fits(grid)
  {
    set r, c | 0 <= r < |grid| && 0 <= c < Cols(grid) && IsRoll(grid, r, c) :: (r, c)
  }

  /** The rolls with fewer than four neighbouring rolls. */
  ghost function Accessible(grid: Grid): (cells: set<Cell>)
    requires Fits(grid)
    ensures cells <= Rolls(grid)
  {
    set r, c | 0 <= r < |grid| && 0 <= c < Cols(grid) && IsRoll(grid, r, c) && Adjacent(grid, r, c) < 4 :: (r, c)
  }

  /** Cells before `(r, c)` in row-major order. */
  predicate Before(p: Cell, r: int, c: int)
  {
    p.0 < r || (p.0 == r && p.1 < c)
  }

  ghost function AccessibleBefore(grid: Grid, r: int, c: int): set<Cell>
    requires Fits(grid)
  {
    set p | p in Accessible(grid) && Before(p, r, c)
  }

  /** The scan moves one cell along a row. */
  lemma AccessibleBeforeNext(grid: Grid, r: nat, c: nat)
    requires Fits(grid) && r < |grid| && c < Cols(grid)
    ensures AccessibleBefore(grid, r, c + 1) ==
      AccessibleBefore(grid, r, c) + if IsRoll(grid, r, c) && Adjacent(grid, r, c) < 4 then {(r, c)} else {}
    ensures (r, c) !in AccessibleBefore(grid, r, c)
  {
  }

  /** The same step, counted. */
  lemma CountBeforeNext(grid: Grid, r: nat, c: nat)
    requires Fits(grid) && r < |grid| && c < Cols(grid)
    ensures |AccessibleBefore(grid, r, c + 1)| ==
      |AccessibleBefore(grid, r, c)| + if IsRoll(grid, r, c) && Adjacent(grid, r, c) < 4 then 1 else 0
  {
    AccessibleBeforeNext(grid, r, c);
  }

  /** The end of a row is the start of the next; the end of the grid covers it all. */
  lemma AccessibleBeforeRow(grid: Grid, r: nat)
    requires Fits(grid)
    ensures AccessibleBefore(grid, r, Cols(grid)) == AccessibleBefore(grid, r + 1, 0)
    ensures r == |grid| ==> AccessibleBefore(grid, r, 0) == Accessible(grid)
  {
  }

  /** The test of the scan for one cell. */
  method IsAccessible(grid: Grid, r: nat, c: nat) returns (accessible: bool)
    requires Fits(grid) && r < |grid| && c < Cols(grid)
    ensures accessible <==> IsRoll(grid, r, c) && Adjacent(grid, r, c) < 4
  {
    accessible := false;
    if grid[r][c] == '@' {
      var adjacent := CountAdjacent(grid, r, c);
      accessible := adjacent < 4;
    }
  }

  /** `part1`: the number of accessible rolls; no lines give 0. */
  method Part1(input: string) returns (count: nat)
    requires Fits(Lines(input))
    ensures count == |Accessible(Lines(input))|
    ensures Lines(input) == [] ==> count == 0
  {
    var grid := Lines(input);
    count := CountAccessible(grid);
  }

  /** The loops of `part1`: every cell in row-major order, counting the
      accessible ones. */
  method CountAccessible(grid: Grid) returns (count: nat)
    requires Fits(grid)
    ensures count == |Accessible(grid)|
    ensures grid == [] ==> count == 0
  {
    var rows := |grid|;
    if rows == 0 {
      return 0;
    }
    var cols := |grid[0]|;
    count := 0;
    for r := 0 to rows
      invariant count == |AccessibleBefore(grid, r, 0)|
    {
      for c := 0 to cols
        invariant count == |AccessibleBefore(grid, r, c)|
      {
        CountBeforeNext(grid, r, c);
        var accessible := IsAccessible(grid, r, c);
        if accessible {
          count := count + 1;
        }
      }
      AccessibleBeforeRow(grid, r);
    }
    AccessibleBeforeRow(grid, rows);
  }

  // ---------------------------------------------------------------------------
  // part2

  /** The grid with the given cells turned to `.`. */
  ghost function Cleared(grid: Grid, cells: set<Cell>): Grid
  {
    seq(|grid|, r requires 0 <= r < |grid| =>
      seq(|grid[r]|, c requires 0 <= c < |grid[r]| => if (r, c) in cells then '.' else grid[r][c]))
  }

  /** One round of part 2: every accessible roll is removed at once, each
      judged against the grid before the round. */
  ghost function Round(grid: Grid): Grid
    requires Fits(grid)
  {
    Cleared(grid, Accessible(grid))
  }

  /** A round keeps the shape, turns exactly the accessible rolls into `.`
      and changes no other cell. */
  lemma RoundClears(grid: Grid)
    requires Fits(grid)
    ensures |Round(grid)| == |grid| && forall r :: 0 <= r < |grid| ==> |Round(grid)[r]| == |grid[r]|
    ensures Fits(Round(grid)) && Cols(Round(grid)) == Cols(grid)
    ensures forall r, c :: 0 <= r < |grid| && 0 <= c < |grid[r]| ==>
      Round(grid)[r][c] == if (r, c) in Accessible(grid) then '.' else grid[r][c]
    ensures Rolls(Round(grid)) == Rolls(grid) - Accessible(grid)
  {
    var next := Round(grid);
    assert Cols(next) == Cols(grid) by {
      if |grid| > 0 {
        assert |next[0]| == |grid[0]|;
      }
    }
    forall p | p in Rolls(next)
      ensures p in Rolls(grid) - Accessible(grid)
    {
      assert next[p.0][p.1] == '@';
    }
    forall p | p in Rolls(grid) - Accessible(grid)
      ensures p in Rolls(next)
    {
      assert next[p.0][p.1] == '@';
    }
  }

  /** A round with something accessible removes at least one roll. */
  lemma RoundShrinks(grid: Grid)
    requires Fits(grid) && Accessible(grid) != {}
    ensures Fits(Round(grid)) && |Rolls(Round(grid))| < |Rolls(grid)|
  {
    RoundClears(grid);
    var p :| p in Accessible(grid);
    assert Rolls(Round(grid)) < Rolls(grid) by {
      assert p in Rolls(grid) && p !in Rolls(Round(grid));
    }
  }

  /** The rolls part 2 removes from `grid`: rounds until nothing is accessible. */
  ghost function TotalRemoved(grid: Grid): nat
    requires Fits(grid)
    decreases |Rolls(grid)|
  {
    if Accessible(grid) == {} then 0
    else
      RoundShrinks(grid);
      |Accessible(grid)| + TotalRemoved(Round(grid))
  }

  /** The grid part 2 leaves behind. */
  ghost function Final(grid: Grid): (last: Grid)
    requires Fits(grid)
    ensures Fits(last)
    decreases |Rolls(grid)|
  {
    if Accessible(grid) == {} then grid
    else
      RoundShrinks(grid);
      Final(Round(grid))
  }

  /** Part 2 stops at a grid where no roll is accessible, and it removed the
      difference between the rolls before and after. */
  lemma {:induction false} TotalRemovedIsDifference(grid: Grid)
    requires Fits(grid)
    ensures Accessible(Final(grid)) == {}
    ensures Rolls(Final(grid)) <= Rolls(grid)
    ensures TotalRemoved(grid) == |Rolls(grid)| - |Rolls(Final(grid))|
    ensures TotalRemoved(grid) >= |Accessible(grid)|
    decreases |Rolls(grid)|
  {
    if Accessible(grid) != {} {
      RoundShrinks(grid);
      RoundClears(grid);
      var next := Round(grid);
      TotalRemovedIsDifference(next);
      assert |Rolls(next)| == |Rolls(grid)| - |Accessible(grid)|;
    }
  }

  /** The first pass of a round of `part2`: the accessible rolls, in
      row-major order. */
  method FindAccessible(grid: Grid) returns (toRemove: seq<Cell>)
    requires Fits(grid)
    ensures Lists(toRemove, Accessible(grid))
  {
    toRemove := [];
    for r := 0 to |grid|
      invariant Lists(toRemove, AccessibleBefore(grid, r, 0))
    {
      for c := 0 to Cols(grid)
        invariant Lists(toRemove, AccessibleBefore(grid, r, c))
      {
        AccessibleBeforeNext(grid, r, c);
        var accessible := IsAccessible(grid, r, c);
        if accessible {
          toRemove := toRemove + [(r, c)];
        }
      }
      AccessibleBeforeRow(grid, r);
    }
    AccessibleBeforeRow(grid, |grid|);
  }

  /** `cells` lists each element of `s` exactly once. */
  ghost predicate Lists(cells: seq<Cell>, s: set<Cell>)
  {
    (forall p :: p in cells <==> p in s) && |cells| == |s|
  }

  /** The second pass of a round of `part2`: each listed cell becomes `.`. */
  method RemoveAll(grid0: Grid, toRemove: seq<Cell>) returns (grid: Grid)
    requires forall i :: 0 <= i < |toRemove| ==> 0 <= toRemove[i].0 < |grid0| && 0 <= toRemove[i].1 < |grid0[toRemove[i].0]|
    ensures grid == Cleared(grid0, set p | p in toRemove)
  {
    grid := grid0;
    for i := 0 to |toRemove|
      invariant |grid| == |grid0| && forall r :: 0 <= r < |grid| ==> |grid[r]| == |grid0[r]|
      invariant forall r, c :: 0 <= r < |grid| && 0 <= c < |grid[r]| ==>
        grid[r][c] == if (r, c) in toRemove[..i] then '.' else grid0[r][c]
    {
      var (r, c) := toRemove[i];
      assert toRemove[..i + 1] == toRemove[..i] + [(r, c)];
      grid := grid[r := grid[r][c := '.']];
    }
    assert toRemove[..|toRemove|] == toRemove;
    ghost var cleared := Cleared(grid0, set p | p in toRemove);
    forall r | 0 <= r < |grid|
      ensures grid[r] == cleared[r]
    {
      assert forall c :: 0 <= c < |grid[r]| ==> grid[r][c] == cleared[r][c];
    }
  }

  /** Listed accessible rolls lie inside the grid and clearing them is one round. */
  lemma ListedRound(grid: Grid, toRemove: seq<Cell>)
    requires Fits(grid) && Lists(toRemove, Accessible(grid))
    ensures forall i :: 0 <= i < |toRemove| ==> 0 <= toRemove[i].0 < |grid| && 0 <= toRemove[i].1 < |grid[toRemove[i].0]|
    ensures Cleared(grid, set p | p in toRemove) == Round(grid)
  {
    forall i | 0 <= i < |toRemove|
      ensures 0 <= toRemove[i].0 < |grid| && 0 <= toRemove[i].1 < |grid[toRemove[i].0]|
    {
      assert toRemove[i] in Accessible(grid);
    }
    assert (set p | p in toRemove) == Accessible(grid);
  }

  /** An empty list ends part 2; otherwise the round removes as many rolls as
      are listed. */
  lemma ListedTotal(grid: Grid, toRemove: seq<Cell>)
    requires Fits(grid) && Lists(toRemove, Accessible(grid))
    ensures |toRemove| == 0 ==> TotalRemoved(grid) == 0
    ensures |toRemove| > 0 ==>
      Fits(Round(grid)) && |Rolls(Round(grid))| < |Rolls(grid)| &&
      TotalRemoved(grid) == |toRemove| + TotalRemoved(Round(grid))
  {
    if |toRemove| > 0 {
      assert toRemove[0] in Accessible(grid);
      RoundShrinks(grid);
    }
  }

  /** `part2`: rounds of removal until no roll is accessible; the grid is the
      method's own copy of the lines. */
  method Part2(input: string) returns (total: nat)
    requires Fits(Lines(input))
    ensures total == TotalRemoved(Lines(input))
    ensures total >= |Accessible(Lines(input))|
  {
    var lines := Lines(input);
    TotalRemovedIsDifference(lines);
    if |lines| == 0 {
      return 0;
    }
    var grid := lines;
    total := 0;
    while true
      invariant Fits(grid) && total + TotalRemoved(grid) == TotalRemoved(lines)
      decreases |Rolls(grid)|
    {
      var toRemove := FindAccessible(grid);
      if |toRemove| == 0 {
        ListedTotal(grid, toRemove);
        break;
      }
      ListedRound(grid, toRemove);
      ListedTotal(grid, toRemove);
      grid := RemoveAll(grid, toRemove);
      total := total + |toRemove|;
    }
  }
}

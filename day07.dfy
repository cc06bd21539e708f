// Day 7: a beam enters a grid at `S` and falls one row at a time; a `^`
// below a beam splits it into the two neighbouring columns. Part 1 counts
// the splitters the beams meet (a breadth-first search with a visited
// set); part 2 counts the timelines, column by column, row by row.

module Day07 {
  import opened Common

  type Grid = seq<string>
  type Pos = (nat, nat)

  /** What both parts need of the grid: rectangular, and not empty rows when
      a beam can move down. */
  ghost predicate WellFormed(grid: Grid)
  {
    Rectangular(grid) && (|grid| > 1 ==> |grid[0]| > 0)
  }

  // ---------------------------------------------------------------------------
  // The start position

  /** The last `S` of a row. */
  function LastS(row: string): (r: Option<nat>)
    ensures r.Some? ==> r.value < |row| && row[r.value] == 'S' &&
                        forall c :: r.value < c < |row| ==> row[c] != 'S'
    ensures r.None? ==> forall c :: 0 <= c < |row| ==> row[c] != 'S'
  {
    if |row| == 0 then None
    else if row[|row| - 1] == 'S' then Some(|row| - 1)
    else LastS(row[..|row| - 1])
  }

  /** The first `S` of a row. */
  function FirstS(row: string): (r: Option<nat>)
    ensures r.Some? ==> r.value < |row| && row[r.value] == 'S' &&
                        forall c :: 0 <= c < r.value ==> row[c] != 'S'
    ensures r.None? ==> forall c :: 0 <= c < |row| ==> row[c] != 'S'
  {
    if |row| == 0 then None
    else if row[0] == 'S' then Some(0)
    else match FirstS(row[1..]) {
      case None => None
      case Some(c) => Some(c + 1)
    }
  }

  /** The start of `count_splits` among the first `k` rows: the last `S` in
      row-major order, or `(0, 0)` when there is none. */
  function SplitStart(grid: Grid, k: nat): (p: Pos)
    requires k <= |grid|
    ensures p != (0, 0) ==> p.0 < k && p.1 < |grid[p.0]| && grid[p.0][p.1] == 'S'
  {
    if k == 0 then (0, 0)
    else match LastS(grid[k - 1]) {
      case Some(c) => (k - 1, c)
      case None => SplitStart(grid, k - 1)
    }
  }

  /** The start column of `count_timelines` among the first `k` rows: the
      first `S` of the last row that has one, or 0. */
  function TimelineStart(grid: Grid, k: nat): (c: nat)
    requires k <= |grid|
    ensures c != 0 ==> exists r :: 0 <= r < k && c < |grid[r]| && grid[r][c] == 'S'
  {
    if k == 0 then 0
    else match FirstS(grid[k - 1]) {
      case Some(c) => c
      case None => TimelineStart(grid, k - 1)
    }
  }

  /** The two scans agree on the column whenever no row holds two `S`. */
  lemma {:induction false} StartsAgree(grid: Grid, k: nat)
    requires k <= |grid|
    requires forall r, a, b :: 0 <= r < |grid| && 0 <= a < b < |grid[r]| ==> !(grid[r][a] == 'S' && grid[r][b] == 'S')
    ensures TimelineStart(grid, k) == SplitStart(grid, k).1
  {
    if k > 0 {
      var row := grid[k - 1];
      match FirstS(row) {
        case None =>
          StartsAgree(grid, k - 1);
        case Some(c) =>
      }
    }
  }

  /** The start scan of `count_splits`. */
  method FindStart(grid: Grid) returns (start: Pos)
    ensures start == SplitStart(grid, |grid|)
  {
    start := (0, 0);
    for r := 0 to |grid|
      invariant start == SplitStart(grid, r)
    {
      var row := grid[r];
      ghost var before := start;
      for c := 0 to |row|
        invariant start == match LastS(row[..c]) { case Some(j) => (r, j) case None => before }
      {
        assert row[..c + 1][..c] == row[..c];
        if row[c] == 'S' {
          start := (r, c);
        }
      }
      assert row[..|row|] == row;
    }
  }

  /** The start scan of `count_timelines`, which leaves each row at its first `S`. */
  method FindStartColumn(grid: Grid) returns (start: nat)
    ensures start == TimelineStart(grid, |grid|)
  {
    start := 0;
    for r := 0 to |grid|
      invariant start == TimelineStart(grid, r)
    {
      var row := grid[r];
      ghost var before := start;
      var c := 0;
      while c < |row|
        invariant c <= |row| && FirstS(row[..c]).None?
        invariant start == before
      {
        assert row[..c + 1][..c] == row[..c];
        if row[c] == 'S' {
          start := c;
          FirstSPrefix(row, c);
          break;
        }
        c := c + 1;
      }
      if c == |row| {
        assert row[..c] == row;
      }
    }
  }

  /** The first `S` of a row is found by the scan that stops at it. */
  lemma {:induction false} FirstSPrefix(row: string, c: nat)
    requires c < |row| && row[c] == 'S' && FirstS(row[..c]).None?
    ensures FirstS(row) == Some(c)
  {
    if c > 0 {
      assert row[..c][1..] == row[1..][..c - 1];
      FirstSPrefix(row[1..], c - 1);
    }
  }

  // ---------------------------------------------------------------------------
  // Where the beams go

  /** A beam at column `c` of row `row` hits a splitter in the next row. */
  predicate Splits(grid: Grid, row: nat, c: nat)
    requires row + 1 < |grid| && c < |grid[row + 1]|
  {
    grid[row + 1][c] == '^'
  }

  /** The columns a beam at column `c` of row `row` occupies in the next
      row: the two in-bounds neighbours below a splitter, and the same
      column below any other cell. */
  function Next(grid: Grid, row: nat, c: nat): (next: set<nat>)
    requires Rectangular(grid) && row + 1 < |grid| && c < |grid[0]|
    ensures forall d :: d in next ==> d < |grid[0]|
  {
    if Splits(grid, row, c) then
      (if c > 0 then {c - 1} else {}) + (if c + 1 < |grid[0]| then {c + 1} else {})
    else {c}
  }

  /** The start position lies in the grid wherever a beam can move down from it. */
  ghost predicate ValidStart(grid: Grid, start: Pos)
  {
    start.0 < |grid| && (start.0 + 1 < |grid| ==> start.1 < |grid[0]|)
  }

  /** The columns holding a beam `k` rows below the start. */
  ghost function Reach(grid: Grid, start: Pos, k: nat): (cols: set<nat>)
    requires Rectangular(grid) && ValidStart(grid, start) && start.0 + k < |grid|
    ensures start.0 + 1 < |grid| ==> forall c :: c in cols ==> c < |grid[0]|
  {
    if k == 0 then {start.1}
    else
      Advance(grid, start.0 + k - 1, Reach(grid, start, k - 1))
  }

  /** The columns the beams in columns `prev` of row `row` occupy in the next row. */
  ghost function Advance(grid: Grid, row: nat, prev: set<nat>): (next: set<nat>)
    requires Rectangular(grid) && row + 1 < |grid| && forall c :: c in prev ==> c < |grid[0]|
    ensures forall d :: d in next ==> d < |grid[0]|
  {
    set d: nat | d < |grid[0]| && Feeds(grid, row, prev, d)
  }

  /** Some beam column of `prev` in row `row` moves to column `d` of the next row. */
  ghost predicate Feeds(grid: Grid, row: nat, prev: set<nat>, d: nat)
    requires Rectangular(grid) && row + 1 < |grid| && forall c :: c in prev ==> c < |grid[0]|
  {
    exists c :: c in prev && d in Next(grid, row, c)
  }

  /** Position `p` holds a beam. */
  ghost predicate IsBeam(grid: Grid, start: Pos, p: Pos)
    requires Rectangular(grid) && ValidStart(grid, start)
  {
    start.0 <= p.0 < |grid| && p.1 in Reach(grid, start, p.0 - start.0)
  }

  /** Every position a beam occupies. */
  ghost function Beams(grid: Grid, start: Pos): set<Pos>
    requires Rectangular(grid) && ValidStart(grid, start)
  {
    set r: nat, c | start.0 <= r < |grid| && c in Reach(grid, start, r - start.0) :: (r, c)
  }

  lemma BeamMember(grid: Grid, start: Pos, p: Pos)
    requires Rectangular(grid) && ValidStart(grid, start)
    ensures p in Beams(grid, start) <==> IsBeam(grid, start, p)
  {
  }

  /** The beams that meet a splitter in the next row. */
  ghost function SplitCells(grid: Grid, beams: set<Pos>): set<Pos>
    requires Rectangular(grid)
  {
    set p | p in beams && p.0 + 1 < |grid| && p.1 < |grid[0]| && Splits(grid, p.0, p.1)
  }

  /** The splitters of the grid. */
  ghost function Splitters(grid: Grid): set<Pos>
  {
    set r: nat, c: nat | r < |grid| && c < |grid[r]| && grid[r][c] == '^' :: (r, c)
  }

  /** Each splitter is met from at most one beam cell, the one above it, so
      no more splits are counted than there are splitters. */
  lemma SplitsAtMostSplitters(grid: Grid, beams: set<Pos>)
    requires Rectangular(grid)
    ensures |SplitCells(grid, beams)| <= |Splitters(grid)|
  {
    var cells := SplitCells(grid, beams);
    forall p | p in cells
      ensures (p.0 + 1, p.1) in Splitters(grid)
    {
    }
    ShiftedCount(cells, Splitters(grid));
  }

  /** A set sent one row down into `target` has no more elements than it. */
  lemma {:induction false} ShiftedCount(cells: set<Pos>, target: set<Pos>)
    requires forall p :: p in cells ==> (p.0 + 1, p.1) in target
    ensures |cells| <= |target|
    decreases |cells|
  {
    if cells != {} {
      var p :| p in cells;
      var below := (p.0 + 1, p.1);
      forall q | q in cells - {p}
        ensures (q.0 + 1, q.1) in target - {below}
      {
      }
      ShiftedCount(cells - {p}, target - {below});
    }
  }

  /** A beam that can still move down lies inside the grid. */
  lemma BeamInside(grid: Grid, start: Pos, p: Pos)
    requires Rectangular(grid) && ValidStart(grid, start)
    requires IsBeam(grid, start, p) && p.0 + 1 < |grid|
    ensures p.1 < |grid[0]|
  {
    var cols := Reach(grid, start, p.0 - start.0);
    assert p.1 in cols;
  }

  /** A position one row below a beam, in a column `Next` allows, holds a beam. */
  lemma NextIsBeam(grid: Grid, start: Pos, p: Pos, d: nat)
    requires Rectangular(grid) && ValidStart(grid, start)
    requires IsBeam(grid, start, p) && p.0 + 1 < |grid| && p.1 < |grid[0]| && d in Next(grid, p.0, p.1)
    ensures IsBeam(grid, start, (p.0 + 1, d))
  {
    ReachStep(grid, start, p.0 - start.0, p.1, d);
  }

  /** A beam column `k` rows below the start leads to its successors one row further. */
  lemma ReachStep(grid: Grid, start: Pos, k: nat, c: nat, d: nat)
    requires Rectangular(grid) && ValidStart(grid, start) && start.0 + k + 1 < |grid|
    requires c in Reach(grid, start, k) && d in Next(grid, start.0 + k, c)
    ensures d in Reach(grid, start, k + 1)
  {
    assert Feeds(grid, start.0 + k, Reach(grid, start, k), d);
  }

  /** After every beam cell in `visited` has had its successors visited or
      queued, with nothing left queued. */
  ghost predicate Closed(grid: Grid, visited: set<Pos>, queue: seq<Pos>)
    requires Rectangular(grid)
  {
    forall v :: v in visited && v.0 + 1 < |grid| && v.1 < |grid[0]| ==>
      forall d :: d in Next(grid, v.0, v.1) ==> (v.0 + 1, d) in visited || (v.0 + 1, d) in queue
  }

  /** A set of positions that holds the start and is closed under moving
      down holds every beam. */
  lemma {:induction false} ClosedHoldsBeams(grid: Grid, start: Pos, visited: set<Pos>, k: nat)
    requires Rectangular(grid) && ValidStart(grid, start) && start.0 + k < |grid|
    requires start in visited && Closed(grid, visited, [])
    ensures forall c :: c in Reach(grid, start, k) ==> (start.0 + k, c) in visited
  {
    if k > 0 {
      ClosedHoldsBeams(grid, start, visited, k - 1);
      forall d | d in Reach(grid, start, k)
        ensures (start.0 + k, d) in visited
      {
        assert Feeds(grid, start.0 + k - 1, Reach(grid, start, k - 1), d);
        var c :| c in Reach(grid, start, k - 1) && d in Next(grid, start.0 + k - 1, c);
        var v := (start.0 + k - 1, c);
        assert v in visited && v.0 + 1 < |grid| && v.1 < |grid[0]|;
        assert (v.0 + 1, d) in visited || (v.0 + 1, d) in [];
      }
    }
  }

  // ---------------------------------------------------------------------------
  // count_splits

  /** `count_splits`: the number of beam cells that sit above a splitter. */
  method CountSplits(grid: Grid) returns (splits: nat)
    requires WellFormed(grid)
    ensures |grid| == 0 ==> splits == 0
    ensures |grid| > 0 ==> ValidStart(grid, SplitStart(grid, |grid|)) &&
                           splits == |SplitCells(grid, Beams(grid, SplitStart(grid, |grid|)))|
    ensures splits <= |Splitters(grid)|
  {
    if |grid| == 0 {
      assert Splitters(grid) == {};
      return 0;
    }
    var start := FindStart(grid);
    splits := Simulate(grid, start);
    SplitsAtMostSplitters(grid, Beams(grid, start));
  }

  /** The breadth-first search of `count_splits` from `start`. */
  method Simulate(grid: Grid, start: Pos) returns (splits: nat)
    requires WellFormed(grid) && ValidStart(grid, start)
    ensures splits == |SplitCells(grid, Beams(grid, start))|
  {
    ghost var beams := Beams(grid, start);
    var queue: seq<Pos> := [start];
    var visited: set<Pos> := {};
    splits := 0;
    while queue != []
      invariant Searching(grid, start, beams, queue, visited, splits)
      decreases |beams - visited|, |queue|
    {
      queue, visited, splits := Visit(grid, start, beams, queue, visited, splits);
    }
    AllVisited(grid, start, visited);
  }

  /** The loop invariant of the search: everything visited or queued is a
      beam, the start has been reached, the visited cells are closed up to
      the queue, and `splits` counts the visited cells above a splitter. */
  ghost predicate Searching(grid: Grid, start: Pos, beams: set<Pos>, queue: seq<Pos>, visited: set<Pos>, splits: nat)
  {
    Rectangular(grid) && ValidStart(grid, start) && beams == Beams(grid, start) &&
    visited <= beams && (forall q :: q in queue ==> IsBeam(grid, start, q)) &&
    (start in visited || start in queue) &&
    Closed(grid, visited, queue) &&
    splits == |SplitCells(grid, visited)|
  }

  /** One turn of the search loop: take the head of the queue and, when it
      is new, mark it visited, count a split below it and queue its successors. */
  method Visit(grid: Grid, ghost start: Pos, ghost beams: set<Pos>, queue0: seq<Pos>, visited0: set<Pos>, splits0: nat)
    returns (queue: seq<Pos>, visited: set<Pos>, splits: nat)
    requires queue0 != [] && Searching(grid, start, beams, queue0, visited0, splits0)
    ensures Searching(grid, start, beams, queue, visited, splits)
    ensures |beams - visited| < |beams - visited0| || (visited == visited0 && |queue| < |queue0|)
  {
    var u := queue0[0];
    queue, visited, splits := queue0[1..], visited0, splits0;
    assert queue0 == [u] + queue;
    if u in visited {
      ClosedStep(grid, visited, u, queue, []);
      return;
    }
    queue, visited, splits := VisitNew(grid, start, beams, u, queue, visited, splits);
  }

  /** The turn of the search loop on a cell not yet visited. */
  method VisitNew(grid: Grid, ghost start: Pos, ghost beams: set<Pos>, u: Pos, rest: seq<Pos>, visited0: set<Pos>, splits0: nat)
    returns (queue: seq<Pos>, visited: set<Pos>, splits: nat)
    requires u !in visited0 && Searching(grid, start, beams, [u] + rest, visited0, splits0)
    ensures Searching(grid, start, beams, queue, visited, splits)
    ensures |beams - visited| < |beams - visited0|
  {
    queue, visited, splits := rest, visited0 + {u}, splits0;
    BeamMember(grid, start, u);
    FewerLeft(beams, visited0, u);
    if u.0 + 1 >= |grid| {
      VisitStep(grid, start, beams, u, rest, visited0, splits0, [], false);
      return;
    }
    assert IsBeam(grid, start, u);
    BeamInside(grid, start, u);
    var pushed, hit := Expand(grid, u.0, u.1);
    VisitStep(grid, start, beams, u, rest, visited0, splits0, pushed, hit);
    if hit {
      splits := splits + 1;
    }
    queue := rest + pushed;
  }

  /** Visiting a new beam leaves one beam fewer to visit. */
  lemma FewerLeft(beams: set<Pos>, visited: set<Pos>, u: Pos)
    requires u in beams && u !in visited
    ensures |beams - (visited + {u})| < |beams - visited|
  {
    var left := beams - (visited + {u});
    assert beams - visited == left + {u} && u !in left;
  }

  /** What one turn on a new cell keeps: the search invariant, with one beam fewer left to visit. */
  lemma VisitStep(grid: Grid, start: Pos, beams: set<Pos>, u: Pos, rest: seq<Pos>, visited0: set<Pos>, splits0: nat,
                  pushed: seq<Pos>, hit: bool)
    requires u !in visited0 && Searching(grid, start, beams, [u] + rest, visited0, splits0)
    requires u.0 + 1 >= |grid| ==> pushed == [] && !hit
    requires u.0 + 1 < |grid| ==>
      u.1 < |grid[0]| && (hit <==> Splits(grid, u.0, u.1)) &&
      forall q :: q in pushed <==> q.0 == u.0 + 1 && q.1 in Next(grid, u.0, u.1)
    ensures Searching(grid, start, beams, rest + pushed, visited0 + {u}, splits0 + if hit then 1 else 0)
  {
    var queue, visited := rest + pushed, visited0 + {u};
    assert IsBeam(grid, start, u);
    BeamMember(grid, start, u);
    assert visited <= beams;
    SplitCellsAdd(grid, visited0, u);
    assert splits0 + (if hit then 1 else 0) == |SplitCells(grid, visited)|;
    if u.0 + 1 >= |grid| {
      ClosedStep(grid, visited0, u, rest, []);
      assert queue == rest;
    } else {
      PushedAreBeams(grid, start, u, pushed);
      ClosedStep(grid, visited0, u, rest, pushed);
    }
    assert forall q :: q in queue ==> IsBeam(grid, start, q);
    assert start in visited || start in queue;
  }

  /** A closed set of beam cells holding the start is the set of all beams. */
  lemma AllVisited(grid: Grid, start: Pos, visited: set<Pos>)
    requires Rectangular(grid) && ValidStart(grid, start)
    requires visited <= Beams(grid, start) && start in visited && Closed(grid, visited, [])
    ensures visited == Beams(grid, start)
  {
    forall p | p in Beams(grid, start)
      ensures p in visited
    {
      BeamMember(grid, start, p);
      ClosedHoldsBeams(grid, start, visited, p.0 - start.0);
    }
  }

  /** The cells `count_splits` pushes from a beam at `(row, col)`: its
      successors in the next row; and whether it met a splitter. */
  method Expand(grid: Grid, row: nat, col: nat) returns (pushed: seq<Pos>, hit: bool)
    requires Rectangular(grid) && row + 1 < |grid| && col < |grid[0]|
    ensures hit <==> Splits(grid, row, col)
    ensures forall q :: q in pushed <==> q.0 == row + 1 && q.1 in Next(grid, row, col)
  {
    var cols := |grid[0]|;
    pushed := [];
    hit := grid[row + 1][col] == '^';
    if hit {
      if col > 0 {
        pushed := pushed + [(row + 1, col - 1)];
      }
      if col + 1 < cols {
        pushed := pushed + [(row + 1, col + 1)];
      }
    } else {
      pushed := [(row + 1, col)];
    }
  }

  /** Everything pushed from a beam holds a beam. */
  lemma PushedAreBeams(grid: Grid, start: Pos, p: Pos, pushed: seq<Pos>)
    requires Rectangular(grid) && ValidStart(grid, start)
    requires IsBeam(grid, start, p) && p.0 + 1 < |grid| && p.1 < |grid[0]|
    requires forall q :: q in pushed ==> q.0 == p.0 + 1 && q.1 in Next(grid, p.0, p.1)
    ensures forall q :: q in pushed ==> IsBeam(grid, start, q)
  {
    forall q | q in pushed
      ensures IsBeam(grid, start, q)
    {
      NextIsBeam(grid, start, p, q.1);
    }
  }

  /** Visiting the head of the queue and appending its successors keeps the
      visited cells closed. */
  lemma ClosedStep(grid: Grid, visited: set<Pos>, u: Pos, rest: seq<Pos>, pushed: seq<Pos>)
    requires Rectangular(grid) && Closed(grid, visited, [u] + rest)
    requires u in visited || u.0 + 1 >= |grid| || u.1 >= |grid[0]| ||
             forall d :: d in Next(grid, u.0, u.1) ==> (u.0 + 1, d) in pushed
    ensures Closed(grid, visited + {u}, rest + pushed)
  {
    forall v, d | v in visited + {u} && v.0 + 1 < |grid| && v.1 < |grid[0]| && d in Next(grid, v.0, v.1)
      ensures (v.0 + 1, d) in visited + {u} || (v.0 + 1, d) in rest + pushed
    {
      assert v in visited ==> (v.0 + 1, d) in visited || (v.0 + 1, d) in [u] + rest;
    }
  }

  /** Visiting one more cell adds it to the split cells exactly when it sits
      above a splitter. */
  lemma SplitCellsAdd(grid: Grid, visited: set<Pos>, u: Pos)
    requires Rectangular(grid) && u !in visited
    ensures u !in SplitCells(grid, visited)
    ensures SplitCells(grid, visited + {u}) ==
      SplitCells(grid, visited) + if u.0 + 1 < |grid| && u.1 < |grid[0]| && Splits(grid, u.0, u.1) then {u} else {}
  {
  }

  // ---------------------------------------------------------------------------
  // count_timelines

  /** Timelines per column; a column that no beam reaches has no entry. */
  type Counts = map<nat, nat>

  function Get(m: Counts, c: nat): nat
  {
    if c in m then m[c] else 0
  }

  /** Every column of `m` lies in the grid. */
  ghost predicate Inside(grid: Grid, m: Counts)
  {
    |grid| > 0 && forall c :: c in m ==> c < |grid[0]|
  }

  /** The timelines in column `c` that a splitter below turns aside. */
  function Turned(grid: Grid, row: nat, m: Counts, c: nat): nat
    requires Rectangular(grid) && row + 1 < |grid|
  {
    if c < |grid[0]| && c in m && Splits(grid, row, c) then m[c] else 0
  }

  /** The timelines column `d` of the next row receives: its own, unless a
      splitter is below it, and the ones turned aside by splitters in the
      two neighbouring columns. */
  function Incoming(grid: Grid, row: nat, m: Counts, d: nat): nat
    requires Rectangular(grid) && row + 1 < |grid| && d < |grid[0]|
  {
    (if d in m && !Splits(grid, row, d) then m[d] else 0) +
    (if d > 0 then Turned(grid, row, m, d - 1) else 0) +
    Turned(grid, row, m, d + 1)
  }

  /** The timelines of the next row: an entry for every column a beam moves
      to, holding what that column receives. */
  ghost function Step(grid: Grid, row: nat, m: Counts): (next: Counts)
    requires Rectangular(grid) && row + 1 < |grid| && Inside(grid, m)
    ensures next.Keys == Advance(grid, row, m.Keys)
  {
    map d | d in Advance(grid, row, m.Keys) :: Incoming(grid, row, m, d)
  }

  /** Each column of the next row holds what it receives. */
  lemma StepEntries(grid: Grid, row: nat, m: Counts)
    requires Rectangular(grid) && row + 1 < |grid| && Inside(grid, m)
    ensures forall d :: d in Step(grid, row, m) ==> Step(grid, row, m)[d] == Incoming(grid, row, m, d)
  {
  }

  /** The timelines `k` rows into the grid, one timeline starting in column `start` of the top row. */
  ghost function Timelines(grid: Grid, start: nat, k: nat): (m: Counts)
    requires Rectangular(grid) && k < |grid| && start <= |grid[0]| && (|grid| > 1 ==> start < |grid[0]|)
    ensures |grid| > 1 ==> Inside(grid, m)
    ensures |grid| == 1 ==> m == map[start := 1]
  {
    if k == 0 then map[start := 1]
    else Step(grid, k - 1, Timelines(grid, start, k - 1))
  }

  /** The total of the entries in the columns below `n`. */
  function Total(m: Counts, n: nat): nat
  {
    if n == 0 then 0 else Total(m, n - 1) + Get(m, n - 1)
  }

  /** `count_timelines`: the total of the timelines after the last row. */
  method CountTimelines(grid: Grid) returns (total: nat)
    requires WellFormed(grid)
    ensures |grid| == 0 ==> total == 0
    ensures |grid| > 0 ==>
      var start := TimelineStart(grid, |grid|);
      start <= |grid[0]| && (|grid| > 1 ==> start < |grid[0]|) &&
      total == Total(Timelines(grid, start, |grid| - 1), |grid[0]| + 1) &&
      total <= Pow2(|grid| - 1)
  {
    if |grid| == 0 {
      return 0;
    }
    var start := FindStartColumn(grid);
    var timelines := Rows(grid, start);
    TimelinesInside(grid, start, |grid| - 1);
    total := SumCounts(timelines, |grid[0]| + 1);
    TimelinesAtMost(grid, start, |grid| - 1);
  }

  /** Every column holding timelines is at most the width of the grid. */
  lemma TimelinesInside(grid: Grid, start: nat, k: nat)
    requires Rectangular(grid) && k < |grid| && start <= |grid[0]| && (|grid| > 1 ==> start < |grid[0]|)
    ensures forall c :: c in Timelines(grid, start, k) ==> c < |grid[0]| + 1
  {
    if |grid| > 1 {
      assert Inside(grid, Timelines(grid, start, k));
    }
  }

  /** The row loop of `count_timelines`, from one timeline in column `start`. */
  method Rows(grid: Grid, start: nat) returns (timelines: Counts)
    requires WellFormed(grid) && |grid| > 0 && start <= |grid[0]| && (|grid| > 1 ==> start < |grid[0]|)
    ensures timelines == Timelines(grid, start, |grid| - 1)
  {
    timelines := map[start := 1];
    assert RowsDone(grid, start, 0, timelines);
    var row := 0;
    while row < |grid| - 1
      invariant row <= |grid| - 1
      invariant RowsDone(grid, start, row, timelines)
    {
      timelines := NextRow(grid, start, row, timelines);
      row := row + 1;
    }
  }

  /** One pass of the outer loop of `count_timelines`. */
  method NextRow(grid: Grid, start: nat, row: nat, timelines: Counts) returns (next: Counts)
    requires Rectangular(grid) && row + 1 < |grid| && start < |grid[0]|
    requires RowsDone(grid, start, row, timelines)
    ensures RowsDone(grid, start, row + 1, next)
  {
    next := StepRow(grid, row, timelines);
    TimelinesNext(grid, start, row);
  }

  ghost predicate RowsDone(grid: Grid, start: nat, row: nat, timelines: Counts)
    requires Rectangular(grid) && row < |grid| && start <= |grid[0]| && (|grid| > 1 ==> start < |grid[0]|)
  {
    timelines == Timelines(grid, start, row)
  }

  lemma TimelinesNext(grid: Grid, start: nat, k: nat)
    requires Rectangular(grid) && k + 1 < |grid| && start < |grid[0]|
    ensures Timelines(grid, start, k + 1) == Step(grid, k, Timelines(grid, start, k))
  {
  }

  /** One row of `count_timelines`: every column's timelines, taken in any
      order, are added to the columns they move to. */
  method StepRow(grid: Grid, row: nat, timelines: Counts) returns (next: Counts)
    requires Rectangular(grid) && row + 1 < |grid| && Inside(grid, timelines)
    ensures next == Step(grid, row, timelines)
  {
    next := map[];
    var remaining := timelines.Keys;
    assert timelines - remaining == map[];
    assert Advance(grid, row, {}) == {};
    while remaining != {}
      invariant remaining <= timelines.Keys
      invariant next == Step(grid, row, timelines - remaining)
      decreases |remaining|
    {
      var col :| col in remaining;
      var count := timelines[col];
      TakeOne(timelines, remaining, col);
      StepAdd(grid, row, timelines - remaining, col, count);
      next := Deposit(grid, row, next, col, count);
      remaining := remaining - {col};
    }
    assert timelines - remaining == timelines;
  }

  /** Taking one more column off the unprocessed ones adds its entry to the processed part. */
  lemma TakeOne(m: Counts, remaining: set<nat>, c: nat)
    requires c in remaining && remaining <= m.Keys
    ensures c !in m - remaining
    ensures m - (remaining - {c}) == (m - remaining)[c := m[c]]
  {
  }

  /** `m` with `v` added to every column of `cols`. */
  ghost function AddTo(m: Counts, cols: set<nat>, v: nat): (r: Counts)
    ensures r.Keys == m.Keys + cols
  {
    map d | d in m.Keys + cols :: Get(m, d) + if d in cols then v else 0
  }

  lemma AddToEntries(m: Counts, cols: set<nat>, v: nat)
    ensures forall d :: d in AddTo(m, cols, v) ==> AddTo(m, cols, v)[d] == Get(m, d) + if d in cols then v else 0
  {
  }

  /** The timelines of column `col` added to the columns they move to. */
  method Deposit(grid: Grid, row: nat, next0: Counts, col: nat, count: nat) returns (next: Counts)
    requires Rectangular(grid) && row + 1 < |grid| && col < |grid[0]|
    ensures next == AddTo(next0, Next(grid, row, col), count)
  {
    next := next0;
    AddNone(next0, count);
    ghost var targets: set<nat> := {};
    if grid[row + 1][col] == '^' {
      if col > 0 {
        next := AddAt(next, next0, targets, col - 1, count);
        targets := targets + {col - 1};
      }
      if col + 1 < |grid[0]| {
        next := AddAt(next, next0, targets, col + 1, count);
        targets := targets + {col + 1};
      }
    } else {
      next := AddAt(next, next0, targets, col, count);
      targets := targets + {col};
    }
    assert targets == Next(grid, row, col);
  }

  /** One `next_row[c] += count` of `count_timelines`. */
  method AddAt(next: Counts, ghost next0: Counts, ghost targets: set<nat>, d: nat, count: nat) returns (next': Counts)
    requires next == AddTo(next0, targets, count) && d !in targets
    ensures next' == AddTo(next0, targets + {d}, count)
  {
    AddOne(next0, targets, d, count);
    next' := next[d := Get(next, d) + count];
  }

  lemma AddNone(m: Counts, v: nat)
    ensures AddTo(m, {}, v) == m
  {
    AddToEntries(m, {}, v);
    SameEntries(AddTo(m, {}, v), m);
  }

  /** Adding to one more column is one more update of the map. */
  lemma AddOne(m: Counts, cols: set<nat>, d: nat, v: nat)
    requires d !in cols
    ensures AddTo(m, cols + {d}, v) == AddTo(m, cols, v)[d := Get(AddTo(m, cols, v), d) + v]
  {
    var a, b := AddTo(m, cols + {d}, v), AddTo(m, cols, v)[d := Get(AddTo(m, cols, v), d) + v];
    assert a.Keys == b.Keys;
    AddToEntries(m, cols + {d}, v);
    AddToEntries(m, cols, v);
    SameEntries(a, b);
  }

  /** Adding a column's timelines to those already taken adds them to every
      column they move to, and nowhere else. */
  lemma StepAdd(grid: Grid, row: nat, m: Counts, col: nat, v: nat)
    requires Rectangular(grid) && row + 1 < |grid| && Inside(grid, m) && col < |grid[0]| && col !in m
    ensures Step(grid, row, m[col := v]) == AddTo(Step(grid, row, m), Next(grid, row, col), v)
  {
    var next := Step(grid, row, m[col := v]);
    var added := AddTo(Step(grid, row, m), Next(grid, row, col), v);
    StepAddKeys(grid, row, m, col, v);
    StepAddValues(grid, row, m, col, v);
    SameEntries(next, added);
  }

  lemma StepAddKeys(grid: Grid, row: nat, m: Counts, col: nat, v: nat)
    requires Rectangular(grid) && row + 1 < |grid| && Inside(grid, m) && col < |grid[0]| && col !in m
    ensures Step(grid, row, m[col := v]).Keys == AddTo(Step(grid, row, m), Next(grid, row, col), v).Keys
  {
    var keys := m[col := v].Keys;
    assert keys == m.Keys + {col};
    AdvanceAdd(grid, row, m.Keys, col);
    assert Step(grid, row, m[col := v]).Keys == Advance(grid, row, keys);
  }

  lemma StepAddValues(grid: Grid, row: nat, m: Counts, col: nat, v: nat)
    requires Rectangular(grid) && row + 1 < |grid| && Inside(grid, m) && col < |grid[0]| && col !in m
    ensures var next, added := Step(grid, row, m[col := v]), AddTo(Step(grid, row, m), Next(grid, row, col), v);
      forall d :: d in next ==> d in added && next[d] == added[d]
  {
    var next, added := Step(grid, row, m[col := v]), AddTo(Step(grid, row, m), Next(grid, row, col), v);
    StepAddKeys(grid, row, m, col, v);
    StepEntries(grid, row, m[col := v]);
    AddToEntries(Step(grid, row, m), Next(grid, row, col), v);
    forall d | d in next
      ensures d in added && next[d] == added[d]
    {
      ReceivedAt(grid, row, m, d);
      IncomingAdd(grid, row, m, col, v, d);
    }
  }

  /** Maps with the same keys and the same entries are equal. */
  lemma SameEntries(a: Counts, b: Counts)
    requires a.Keys == b.Keys && forall d :: d in a ==> d in b && a[d] == b[d]
    ensures a == b
  {
  }

  /** A column receives the timelines of one more column exactly when a beam
      moves there from it. */
  lemma IncomingAdd(grid: Grid, row: nat, m: Counts, col: nat, v: nat, d: nat)
    requires Rectangular(grid) && row + 1 < |grid| && col < |grid[0]| && d < |grid[0]| && col !in m
    ensures Incoming(grid, row, m[col := v], d) == Incoming(grid, row, m, d) + if d in Next(grid, row, col) then v else 0
  {
  }

  /** One more beam column adds its successors to the columns beams move to. */
  lemma AdvanceAdd(grid: Grid, row: nat, prev: set<nat>, col: nat)
    requires Rectangular(grid) && row + 1 < |grid| && col < |grid[0]|
    requires forall c :: c in prev ==> c < |grid[0]|
    ensures Advance(grid, row, prev + {col}) == Advance(grid, row, prev) + Next(grid, row, col)
  {
    forall d: nat | d < |grid[0]|
      ensures Feeds(grid, row, prev + {col}, d) <==> Feeds(grid, row, prev, d) || d in Next(grid, row, col)
    {
      if Feeds(grid, row, prev + {col}, d) {
        var c :| c in prev + {col} && d in Next(grid, row, c);
        if c != col {
          assert Feeds(grid, row, prev, d);
        }
      }
      if d in Next(grid, row, col) {
        assert col in prev + {col};
      }
    }
  }

  /** A column receives its entry of the next row; one no beam moves to receives nothing. */
  lemma ReceivedAt(grid: Grid, row: nat, m: Counts, d: nat)
    requires Rectangular(grid) && row + 1 < |grid| && Inside(grid, m) && d < |grid[0]|
    ensures Get(Step(grid, row, m), d) == Incoming(grid, row, m, d)
  {
    StepEntries(grid, row, m);
    if d in m && !Splits(grid, row, d) {
      assert d in Next(grid, row, d);
      assert Feeds(grid, row, m.Keys, d);
    }
    if d > 0 && Turned(grid, row, m, d - 1) > 0 {
      assert d in Next(grid, row, d - 1);
      assert Feeds(grid, row, m.Keys, d);
    }
    if Turned(grid, row, m, d + 1) > 0 {
      assert d in Next(grid, row, d + 1);
      assert Feeds(grid, row, m.Keys, d);
    }
  }

  /** `values().sum()`: the entries added up in any order. */
  method SumCounts(m: Counts, n: nat) returns (total: nat)
    requires forall c :: c in m ==> c < n
    ensures total == Total(m, n)
  {
    total := 0;
    var rest: Counts := m;
    while |rest| > 0
      invariant forall c :: c in rest ==> c < n
      invariant total + Total(rest, n) == Total(m, n)
      decreases |rest.Keys|
    {
      var c :| c in rest;
      TotalRemove(rest, c, n);
      total := total + rest[c];
      rest := rest - {c};
    }
    TotalUnchanged(rest, map[], n);
    TotalEmpty(n);
  }

  lemma {:induction false} TotalEmpty(n: nat)
    ensures Total(map[], n) == 0
  {
    if n > 0 {
      TotalEmpty(n - 1);
    }
  }

  /** Taking one entry out of the map takes its value out of the total. */
  lemma {:induction false} TotalRemove(m: Counts, c: nat, n: nat)
    requires c in m && c < n
    ensures Total(m, n) == Total(m - {c}, n) + m[c]
  {
    if c < n - 1 {
      TotalRemove(m, c, n - 1);
    } else {
      TotalUnchanged(m, m - {c}, n - 1);
    }
  }

  /** Two maps that agree below `n` have the same total below `n`. */
  lemma {:induction false} TotalUnchanged(m: Counts, m': Counts, n: nat)
    requires forall c: nat :: c < n ==> Get(m, c) == Get(m', c)
    ensures Total(m, n) == Total(m', n)
  {
    if n > 0 {
      TotalUnchanged(m, m', n - 1);
    }
  }

  // ---------------------------------------------------------------------------
  // What the timelines promise

  /** The columns holding timelines are exactly the columns holding a beam
      that started in the top row. */
  lemma {:induction false} TimelineColumns(grid: Grid, start: nat, k: nat)
    requires Rectangular(grid) && k < |grid| && start <= |grid[0]| && (|grid| > 1 ==> start < |grid[0]|)
    ensures Timelines(grid, start, k).Keys == Reach(grid, (0, start), k)
  {
    if k > 0 {
      TimelineColumns(grid, start, k - 1);
    }
  }

  /** What all columns below `n` receive. */
  ghost function Received(grid: Grid, row: nat, m: Counts, n: nat): nat
    requires Rectangular(grid) && row + 1 < |grid| && n <= |grid[0]|
  {
    if n == 0 then 0 else Received(grid, row, m, n - 1) + Incoming(grid, row, m, n - 1)
  }

  /** The next row's total is what the columns receive. */
  lemma {:induction false} TotalIsReceived(grid: Grid, row: nat, m: Counts, n: nat)
    requires Rectangular(grid) && row + 1 < |grid| && Inside(grid, m) && n <= |grid[0]|
    ensures Total(Step(grid, row, m), n) == Received(grid, row, m, n)
  {
    if n > 0 {
      TotalIsReceived(grid, row, m, n - 1);
      ReceivedAt(grid, row, m, n - 1);
    }
  }

  /** What the columns below `n` receive is at most twice what they hold,
      give or take the timelines turned across the boundary at `n`. */
  lemma {:induction false} ReceivedBound(grid: Grid, row: nat, m: Counts, n: nat)
    requires Rectangular(grid) && row + 1 < |grid| && n <= |grid[0]|
    ensures Received(grid, row, m, n) + (if n > 0 then Turned(grid, row, m, n - 1) else 0)
            <= 2 * Total(m, n) + Turned(grid, row, m, n)
  {
    if n > 0 {
      ReceivedBound(grid, row, m, n - 1);
    }
  }

  /** A split sends each timeline into at most two columns, so one row at
      most doubles the total. */
  lemma TotalStep(grid: Grid, row: nat, m: Counts)
    requires Rectangular(grid) && row + 1 < |grid| && Inside(grid, m)
    ensures Total(Step(grid, row, m), |grid[0]| + 1) <= 2 * Total(m, |grid[0]| + 1)
  {
    var cols := |grid[0]|;
    TotalIsReceived(grid, row, m, cols);
    ReceivedBound(grid, row, m, cols);
  }

  function Pow2(k: nat): (p: nat)
    ensures p >= 1
  {
    if k == 0 then 1 else 2 * Pow2(k - 1)
  }

  /** One timeline in one column. */
  lemma TotalSingle(c: nat, n: nat)
    requires c < n
    ensures Total(map[c := 1], n) == 1
  {
    var m: Counts := map[c := 1];
    TotalRemove(m, c, n);
    assert m - {c} == map[];
    TotalEmpty(n);
  }

  /** After `k` rows there are at most 2^k timelines. */
  lemma {:induction false} TimelinesAtMost(grid: Grid, start: nat, k: nat)
    requires Rectangular(grid) && k < |grid| && start <= |grid[0]| && (|grid| > 1 ==> start < |grid[0]|)
    ensures Total(Timelines(grid, start, k), |grid[0]| + 1) <= Pow2(k)
  {
    var w := |grid[0]| + 1;
    if k == 0 {
      TotalSingle(start, w);
    } else {
      var j := k - 1;
      TimelinesAtMost(grid, start, j);
      TimelinesDouble(grid, start, j);
      assert Total(Timelines(grid, start, j + 1), w) <= 2 * Pow2(j);
    }
  }

  /** Each row holds at most twice the timelines of the row above. */
  lemma TimelinesDouble(grid: Grid, start: nat, k: nat)
    requires Rectangular(grid) && k + 1 < |grid| && start < |grid[0]|
    ensures Total(Timelines(grid, start, k + 1), |grid[0]| + 1) <= 2 * Total(Timelines(grid, start, k), |grid[0]| + 1)
  {
    var prev := Timelines(grid, start, k);
    TimelinesNext(grid, start, k);
    TotalStep(grid, k, prev);
  }
}

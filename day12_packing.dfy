/** Packing shapes into a region of src/day12.rs: the grid of taken cells,
    `can_place`, `place_shape`, the backtracking search and `can_fit_region`. */
module Day12Packing {
  import opened Common
  import opened Day12Shapes

  /** A shape in one orientation with its origin put at `(row, col)`. */
  datatype Placement = Placement(shape: Shape, row: int, col: int)

  /** The cells a placement covers. */
  ghost function Footprint(p: Placement): set<Cell>
  {
    set i | 0 <= i < |p.shape.cells| :: (p.row + p.shape.cells[i].0, p.col + p.shape.cells[i].1)
  }

  /** The cells of a `height` by `width` region. */
  ghost function Rect(height: int, width: int): set<Cell>
  {
    set r: int, c: int | 0 <= r < height && 0 <= c < width :: (r, c)
  }

  /** The cells of the grid that are taken. */
  ghost function Filled(grid: array2<bool>): set<Cell>
    reads grid
  {
    set r: int, c: int | 0 <= r < grid.Length0 && 0 <= c < grid.Length1 && grid[r, c] :: (r, c)
  }

  ghost function Free(grid: array2<bool>): set<Cell>
    reads grid
  {
    Rect(grid.Length0, grid.Length1) - Filled(grid)
  }

  /** One cell of the grid is set. */
  method SetCell(grid: array2<bool>, r: int, c: int, mark: bool)
    requires 0 <= r < grid.Length0 && 0 <= c < grid.Length1
    modifies grid
    ensures Filled(grid) == if mark then old(Filled(grid)) + {(r, c)} else old(Filled(grid)) - {(r, c)}
  {
    grid[r, c] := mark;
  }

  // ---------------------------------------------------------------------------
  // can_place and place_shape

  /** `can_place`: every cell of the placed shape is inside the grid and not
      taken. */
  method CanPlace(grid: array2<bool>, shape: Shape, row: int, col: int) returns (ok: bool)
    ensures ok <==> Footprint(Placement(shape, row, col)) <= Free(grid)
  {
    var height := grid.Length0;
    var width := if height > 0 then grid.Length1 else 0;
    var i := 0;
    while i < |shape.cells|
      invariant 0 <= i <= |shape.cells|
      invariant forall k :: 0 <= k < i ==> (row + shape.cells[k].0, col + shape.cells[k].1) in Free(grid)
    {
      var r := row + shape.cells[i].0;
      var c := col + shape.cells[i].1;
      if r < 0 || r >= height || c < 0 || c >= width {
        assert (r, c) in Footprint(Placement(shape, row, col)) && (r, c) !in Free(grid);
        return false;
      }
      if grid[r, c] {
        assert (r, c) in Footprint(Placement(shape, row, col)) && (r, c) in Filled(grid);
        return false;
      }
      i := i + 1;
    }
    return true;
  }

  /** `place_shape`: exactly the cells of the placed shape become `mark`. */
  method PlaceShape(grid: array2<bool>, shape: Shape, row: int, col: int, mark: bool)
    requires Footprint(Placement(shape, row, col)) <= Rect(grid.Length0, grid.Length1)
    modifies grid
    ensures Filled(grid) == if mark then old(Filled(grid)) + Footprint(Placement(shape, row, col))
                            else old(Filled(grid)) - Footprint(Placement(shape, row, col))
  {
    var i := 0;
    while i < |shape.cells|
      invariant 0 <= i <= |shape.cells|
      invariant Filled(grid) == if mark then old(Filled(grid)) + FootprintPrefix(shape, row, col, i)
                                else old(Filled(grid)) - FootprintPrefix(shape, row, col, i)
    {
      var r := row + shape.cells[i].0;
      var c := col + shape.cells[i].1;
      assert (r, c) in Footprint(Placement(shape, row, col));
      SetCell(grid, r, c, mark);
      assert FootprintPrefix(shape, row, col, i + 1) == FootprintPrefix(shape, row, col, i) + {(r, c)};
      i := i + 1;
    }
    assert FootprintPrefix(shape, row, col, i) == Footprint(Placement(shape, row, col));
  }

  ghost function FootprintPrefix(shape: Shape, row: int, col: int, n: nat): set<Cell>
    requires n <= |shape.cells|
  {
    set i | 0 <= i < n :: (row + shape.cells[i].0, col + shape.cells[i].1)
  }

  // ---------------------------------------------------------------------------
  // The first empty cell

  /** The first cell not taken, scanning rows top to bottom and each row left
      to right, if there is one. */
  method FirstEmpty(grid: array2<bool>) returns (target: Option<Cell>)
    ensures target.None? ==> Free(grid) == {}
    ensures target.Some? ==> target.value in Free(grid)
    ensures target.Some? ==> forall cell :: cell in Free(grid) ==> !Before(cell, target.value)
  {
    var height := grid.Length0;
    var width := if height > 0 then grid.Length1 else 0;
    var r := 0;
    while r < height
      invariant 0 <= r <= height
      invariant forall cell :: cell in Free(grid) ==> cell.0 >= r
    {
      var c := 0;
      while c < width
        invariant 0 <= c <= width
        invariant forall cell :: cell in Free(grid) ==> cell.0 > r || (cell.0 == r && cell.1 >= c)
      {
        if !grid[r, c] {
          assert (r, c) in Free(grid);
          return Some((r, c));
        }
        assert (r, c) !in Free(grid);
        c := c + 1;
      }
      r := r + 1;
    }
    return None;
  }

  // ---------------------------------------------------------------------------
  // Backtracking

  /** `placed` puts each shape of `list`, in one of its orientations, onto
      cells of `room`, with no two placements overlapping. */
  ghost predicate Packs(options: seq<seq<Shape>>, list: seq<nat>, room: set<Cell>, placed: seq<Placement>)
    requires forall j :: 0 <= j < |list| ==> list[j] < |options|
  {
    Oriented(options, list, placed) && Within(placed, room) && Disjoint(placed)
  }

  /** The orientations of each shape, by shape index. */
  ghost function OrientationsOf(shapes: seq<Shape>): (options: seq<seq<Shape>>)
    ensures |options| == |shapes|
  {
    seq(|shapes|, i requires 0 <= i < |shapes| => Orientations(shapes[i]))
  }

  /** Placement `j` puts shape `list[j]` in one of its orientations, taken
      from `options`. */
  ghost predicate Oriented(options: seq<seq<Shape>>, list: seq<nat>, placed: seq<Placement>)
    requires forall j :: 0 <= j < |list| ==> list[j] < |options|
  {
    |placed| == |list| &&
    forall j :: 0 <= j < |placed| ==> placed[j].shape in options[list[j]]
  }

  ghost predicate Within(placed: seq<Placement>, room: set<Cell>)
  {
    forall j :: 0 <= j < |placed| ==> Footprint(placed[j]) <= room
  }

  /** `backtrack` with the full-grid case corrected: the shapes `toPlace[idx..]`
      are put one by one so as to cover the first empty cell, or that cell is
      left as a gap. Only when every shape is placed is the answer true; on
      success the placements are on cells that were free and are now taken,
      and on failure the grid is as it was. */
  method Backtrack(shapes: seq<Shape>, grid: array2<bool>, toPlace: seq<nat>, idx: nat)
      returns (found: bool, ghost placed: seq<Placement>)
    requires idx <= |toPlace|
    requires forall j :: 0 <= j < |toPlace| ==> toPlace[j] < |shapes|
    modifies grid
    decreases |toPlace| - idx, |Free(grid)|, 2
    ensures Searched(OrientationsOf(shapes), toPlace[idx..], found, placed, old(Free(grid)), old(Filled(grid)), Filled(grid))
  {
    if idx == |toPlace| {
      return true, [];
    }
    var shapeIdx := toPlace[idx];
    var variations := RotationsAndFlips(shapes[shapeIdx]);
    var target := FirstEmpty(grid);
    if target.None? {
      return false, [];
    }
    found, placed := TryOrientations(shapes, grid, toPlace, idx, variations, target.value);
    if found {
      return;
    }
    found, placed := LeaveGap(shapes, grid, toPlace, idx, target.value);
  }

  /** The end of `backtrack`: no orientation covers `gap`, so it is marked
      taken, the same shapes are searched for, and the mark is removed. */
  method LeaveGap(shapes: seq<Shape>, grid: array2<bool>, toPlace: seq<nat>, idx: nat, gap: Cell)
      returns (found: bool, ghost placed: seq<Placement>)
    requires idx <= |toPlace|
    requires forall j :: 0 <= j < |toPlace| ==> toPlace[j] < |shapes|
    requires gap in Free(grid)
    modifies grid
    decreases |toPlace| - idx, |Free(grid)|, 1
    ensures Searched(OrientationsOf(shapes), toPlace[idx..], found, placed, old(Free(grid)), old(Filled(grid)), Filled(grid))
  {
    ghost var filled0 := Filled(grid);
    SetCell(grid, gap.0, gap.1, true);
    GapShrinks(Rect(grid.Length0, grid.Length1), filled0, gap);
    found, placed := Backtrack(shapes, grid, toPlace, idx);
    ghost var reached := Filled(grid);
    SetCell(grid, gap.0, gap.1, false);
    GapStep(OrientationsOf(shapes), toPlace[idx..], gap, found, placed, old(Free(grid)), filled0, reached);
  }

  /** Taking a free cell leaves one free cell fewer. */
  lemma GapShrinks(room: set<Cell>, before: set<Cell>, gap: Cell)
    requires gap in room - before
    ensures |room - (before + {gap})| < |room - before|
  {
    assert room - (before + {gap}) == (room - before) - {gap};
  }

  /** Undoing the gap keeps what the search below it found. */
  lemma GapStep(options: seq<seq<Shape>>, list: seq<nat>, gap: Cell, found: bool, placed: seq<Placement>,
                free: set<Cell>, before: set<Cell>, reached: set<Cell>)
    requires forall j :: 0 <= j < |list| ==> list[j] < |options|
    requires gap in free && before !! free
    requires Searched(options, list, found, placed, free - {gap}, before + {gap}, reached)
    ensures Searched(options, list, found, placed, free, before, reached - {gap})
  {
    if found {
      assert Within(placed, free);
      assert Within(placed, reached - {gap});
    }
  }

  /** What a search reports: with nothing left to place it succeeds; when it
      fails the taken cells are as before; when it succeeds every placement is
      on cells that were free and are now taken, no earlier cell was freed,
      and the placements pack the list. */
  ghost predicate Searched(options: seq<seq<Shape>>, list: seq<nat>, found: bool, placed: seq<Placement>,
                           free: set<Cell>, before: set<Cell>, after: set<Cell>)
    requires forall j :: 0 <= j < |list| ==> list[j] < |options|
  {
    (|list| == 0 ==> found) &&
    (!found ==> after == before) &&
    (found ==> before <= after && Packs(options, list, free, placed) &&
               Within(placed, after))
  }

  /** The loops of `backtrack` over the orientations of shape `toPlace[idx]`
      and over the cells that could cover `target`. */
  method TryOrientations(shapes: seq<Shape>, grid: array2<bool>, toPlace: seq<nat>, idx: nat,
                         variations: seq<Shape>, target: Cell)
      returns (found: bool, ghost placed: seq<Placement>)
    requires idx < |toPlace|
    requires forall j :: 0 <= j < |toPlace| ==> toPlace[j] < |shapes|
    requires variations == Orientations(shapes[toPlace[idx]])
    modifies grid
    decreases |toPlace| - idx, |Free(grid)|, 0
    ensures Searched(OrientationsOf(shapes), toPlace[idx..], found, placed, old(Free(grid)), old(Filled(grid)), Filled(grid))
  {
    var v := 0;
    while v < |variations|
      invariant 0 <= v <= |variations|
      invariant Filled(grid) == old(Filled(grid))
    {
      var shape := variations[v];
      var k := 0;
      while k < |shape.cells|
        invariant 0 <= k <= |shape.cells|
        invariant Filled(grid) == old(Filled(grid))
      {
        var placeR := target.0 - shape.cells[k].0;
        var placeC := target.1 - shape.cells[k].1;
        var ok := CanPlace(grid, shape, placeR, placeC);
        if ok {
          ghost var here := Placement(shape, placeR, placeC);
          PlaceShape(grid, shape, placeR, placeC, true);
          var rest, restPlaced := Backtrack(shapes, grid, toPlace, idx + 1);
          if rest {
            placed := [here] + restPlaced;
            assert toPlace[idx..][1..] == toPlace[idx + 1..];
            PlacedFirst(OrientationsOf(shapes), toPlace[idx..], here, restPlaced, old(Free(grid)), old(Filled(grid)), Filled(grid));
            return true, placed;
          }
          PlaceShape(grid, shape, placeR, placeC, false);
        }
        k := k + 1;
      }
      v := v + 1;
    }
    return false, [];
  }

  ghost predicate Disjoint(placed: seq<Placement>)
  {
    forall j, k :: 0 <= j < k < |placed| ==> Footprint(placed[j]) !! Footprint(placed[k])
  }

  /** The step that puts one shape first and the rest after it. */
  lemma PlacedFirst(options: seq<seq<Shape>>, list: seq<nat>, here: Placement,
                    rest: seq<Placement>, free: set<Cell>, before: set<Cell>, after: set<Cell>)
    requires |list| > 0
    requires forall j :: 0 <= j < |list| ==> list[j] < |options|
    requires here.shape in options[list[0]]
    requires Footprint(here) <= free && before !! free
    requires Searched(options, list[1..], true, rest, free - Footprint(here), before + Footprint(here), after)
    ensures Searched(options, list, true, [here] + rest, free, before, after)
  {
    OrientedCons(options, list, here, rest);
    WithinCons(here, rest, free - Footprint(here), free);
    WithinCons(here, rest, after, after);
    DisjointCons(here, rest, free);
  }

  lemma OrientedCons(options: seq<seq<Shape>>, list: seq<nat>, here: Placement, rest: seq<Placement>)
    requires |list| > 0
    requires forall j :: 0 <= j < |list| ==> list[j] < |options|
    requires here.shape in options[list[0]]
    requires Oriented(options, list[1..], rest)
    ensures Oriented(options, list, [here] + rest)
  {
    var placed := [here] + rest;
    forall j | 0 < j < |placed|
      ensures placed[j].shape in options[list[j]]
    {
      assert placed[j] == rest[j - 1] && list[j] == list[1..][j - 1];
    }
  }

  lemma WithinCons(here: Placement, rest: seq<Placement>, room: set<Cell>, wider: set<Cell>)
    requires Within(rest, room) && room <= wider && Footprint(here) <= wider
    ensures Within([here] + rest, wider)
  {
    var placed := [here] + rest;
    forall j | 0 < j < |placed|
      ensures Footprint(placed[j]) <= wider
    {
      assert placed[j] == rest[j - 1];
    }
  }

  lemma DisjointCons(here: Placement, rest: seq<Placement>, free: set<Cell>)
    requires Disjoint(rest) && Within(rest, free - Footprint(here))
    ensures Disjoint([here] + rest)
  {
    var placed := [here] + rest;
    forall j, k | 0 <= j < k < |placed|
      ensures Footprint(placed[j]) !! Footprint(placed[k])
    {
      assert placed[k] == rest[k - 1];
      if j > 0 {
        assert placed[j] == rest[j - 1];
      }
    }
  }

  // ---------------------------------------------------------------------------
  // backtrack as written

  /** `backtrack` exactly as written: when no empty cell is left it answers
      true, even if shapes remain to be placed. Since the gap branch marks
      cells until the grid is full, every search ends there, and the answer
      is always true. */
  method BacktrackAsWritten(shapes: seq<Shape>, grid: array2<bool>, toPlace: seq<nat>, idx: nat)
      returns (found: bool)
    requires idx <= |toPlace|
    requires forall j :: 0 <= j < |toPlace| ==> toPlace[j] < |shapes|
    modifies grid
    decreases |toPlace| - idx, |Free(grid)|, 1
    ensures found
  {
    if idx == |toPlace| {
      return true;
    }
    var shapeIdx := toPlace[idx];
    var variations := RotationsAndFlips(shapes[shapeIdx]);
    var target := FirstEmpty(grid);
    if target.None? {
      return true;
    }
    found := TryAsWritten(shapes, grid, toPlace, idx, variations, target.value);
    if found {
      return;
    }
    var (targetR, targetC) := target.value;
    ghost var filled0 := Filled(grid);
    SetCell(grid, targetR, targetC, true);
    GapShrinks(Rect(grid.Length0, grid.Length1), filled0, target.value);
    found := BacktrackAsWritten(shapes, grid, toPlace, idx);
    SetCell(grid, targetR, targetC, false);
  }

  /** Shape `shape` put so that its cell `k` lies on `target` stays on cells
      of `room`. */
  ghost predicate CoversAt(room: set<Cell>, shape: Shape, target: Cell, k: int)
    requires 0 <= k < |shape.cells|
  {
    Footprint(Placement(shape, target.0 - shape.cells[k].0, target.1 - shape.cells[k].1)) <= room
  }

  /** The loops of `backtrack` as written, recursing into `BacktrackAsWritten`.
      Since that recursion always answers true, the first orientation and
      cell that fit end the search with true, and the undo that follows a
      failed recursive call in the source is never reached. */
  method TryAsWritten(shapes: seq<Shape>, grid: array2<bool>, toPlace: seq<nat>, idx: nat,
                      variations: seq<Shape>, target: Cell)
      returns (found: bool)
    requires idx < |toPlace|
    requires forall j :: 0 <= j < |toPlace| ==> toPlace[j] < |shapes|
    modifies grid
    decreases |toPlace| - idx, |Free(grid)|, 0
    ensures found <==> exists v, k :: 0 <= v < |variations| && 0 <= k < |variations[v].cells| &&
                                      CoversAt(old(Free(grid)), variations[v], target, k)
    ensures !found ==> Filled(grid) == old(Filled(grid))
  {
    var v := 0;
    while v < |variations|
      invariant 0 <= v <= |variations|
      invariant Filled(grid) == old(Filled(grid))
      invariant forall v', k' :: 0 <= v' < v && 0 <= k' < |variations[v'].cells| ==>
                                 !CoversAt(old(Free(grid)), variations[v'], target, k')
    {
      var shape := variations[v];
      var k := 0;
      while k < |shape.cells|
        invariant 0 <= k <= |shape.cells|
        invariant Filled(grid) == old(Filled(grid))
        invariant forall k' :: 0 <= k' < k ==> !CoversAt(old(Free(grid)), shape, target, k')
      {
        var placeR := target.0 - shape.cells[k].0;
        var placeC := target.1 - shape.cells[k].1;
        var ok := CanPlace(grid, shape, placeR, placeC);
        if ok {
          assert CoversAt(old(Free(grid)), variations[v], target, k);
          PlaceShape(grid, shape, placeR, placeC, true);
          found := BacktrackAsWritten(shapes, grid, toPlace, idx + 1);
          return;
        }
        k := k + 1;
      }
      v := v + 1;
    }
    return false;
  }

  /** Packing a shape with at least one cell needs a free cell, so the
      answer `true` of `BacktrackAsWritten` on a full grid (no free cell) with
      such shapes left is wrong. */
  lemma PackingNeedsRoom(options: seq<seq<Shape>>, list: seq<nat>, room: set<Cell>, placed: seq<Placement>)
    requires |list| > 0 && forall j :: 0 <= j < |list| ==> list[j] < |options|
    requires forall o :: o in options[list[0]] ==> |o.cells| > 0
    requires Packs(options, list, room, placed)
    ensures room != {}
  {
    var p := placed[0];
    assert (p.row + p.shape.cells[0].0, p.col + p.shape.cells[0].1) in Footprint(p);
  }

  /** The discrepancy on a concrete state: a 1 by 1 grid whose only cell is
      taken (as the gap branch leaves it) with one single-cell shape still to
      place. `backtrack` as written answers true, yet that shape has no
      packing into the grid's free cells. */
  method FullGridAnswer() returns (found: bool, ghost room: set<Cell>)
    ensures found && room == {}
    ensures forall placed :: !Packs(OrientationsOf([Shape([(0, 0)])]), [0], room, placed)
  {
    var grid := new bool[1, 1]((_, _) => true);
    assert grid[0, 0];
    assert Rect(1, 1) == {(0, 0)};
    assert (0, 0) in Filled(grid);
    room := Free(grid);
    assert room == {};
    found := BacktrackAsWritten([Shape([(0, 0)])], grid, [0], 0);
    forall placed
      ensures !Packs(OrientationsOf([Shape([(0, 0)])]), [0], room, placed)
    {
      var options := OrientationsOf([Shape([(0, 0)])]);
      assert options[0] == Orientations(Shape([(0, 0)]));
      forall o: Shape | o in options[0]
        ensures |o.cells| > 0
      {
        OrientationsKeepSize(Shape([(0, 0)]), o);
      }
      if Packs(options, [0], room, placed) {
        PackingNeedsRoom(options, [0], room, placed);
      }
    }
  }

  // ---------------------------------------------------------------------------
  // can_fit_region

  /** The shape indices to place: `required[i]` copies of `i`, in order of `i`. */
  function Expand(required: seq<nat>): (list: seq<nat>)
    ensures forall j :: 0 <= j < |list| ==> list[j] < |required|
  {
    if |required| == 0 then []
    else Expand(required[..|required| - 1]) + seq(required[|required| - 1], _ => |required| - 1)
  }

  /** Shape `i` appears in the list exactly `required[i]` times. */
  lemma {:induction false} ExpandCounts(required: seq<nat>, i: nat)
    requires i < |required|
    ensures multiset(Expand(required))[i] == required[i]
  {
    var n := |required| - 1;
    var init := required[..n];
    var copies := seq(required[n], _ => n);
    assert multiset(Expand(required)) == multiset(Expand(init)) + multiset(copies);
    CopiesCount(required[n], n, i);
    if i < n {
      ExpandCounts(init, i);
    } else {
      assert forall j :: 0 <= j < |Expand(init)| ==> Expand(init)[j] < n;
      assert i !in multiset(Expand(init));
    }
  }

  lemma {:induction false} CopiesCount(count: nat, v: nat, i: nat)
    ensures multiset(seq(count, _ => v))[i] == if i == v then count else 0
  {
    if count > 0 {
      assert seq(count, _ => v) == seq(count - 1, _ => v) + [v];
      CopiesCount(count - 1, v, i);
    }
  }

  /** The cells needed to place `required[i]` copies of each shape `i`. */
  function TotalCells(shapes: seq<Shape>, required: seq<nat>): nat
    requires |required| <= |shapes|
  {
    if |required| == 0 then 0
    else TotalCells(shapes, required[..|required| - 1]) + |shapes[|required| - 1].cells| * required[|required| - 1]
  }

  /** The cells needed by the shapes of a list. */
  function NeededCells(shapes: seq<Shape>, list: seq<nat>): nat
    requires forall j :: 0 <= j < |list| ==> list[j] < |shapes|
  {
    if |list| == 0 then 0 else NeededCells(shapes, list[..|list| - 1]) + |shapes[list[|list| - 1]].cells|
  }

  lemma {:induction false} NeededAppend(shapes: seq<Shape>, a: seq<nat>, b: seq<nat>)
    requires forall j :: 0 <= j < |a| ==> a[j] < |shapes|
    requires forall j :: 0 <= j < |b| ==> b[j] < |shapes|
    ensures NeededCells(shapes, a + b) == NeededCells(shapes, a) + NeededCells(shapes, b)
    decreases |b|
  {
    if |b| > 0 {
      assert (a + b)[..|a + b| - 1] == a + b[..|b| - 1];
      NeededAppend(shapes, a, b[..|b| - 1]);
    } else {
      assert a + b == a;
    }
  }

  lemma {:induction false} NeededCopies(shapes: seq<Shape>, count: nat, i: nat)
    requires i < |shapes|
    ensures NeededCells(shapes, seq(count, _ => i)) == |shapes[i].cells| * count
  {
    if count > 0 {
      assert seq(count, _ => i)[..count - 1] == seq(count - 1, _ => i);
      NeededCopies(shapes, count - 1, i);
    }
  }

  /** The quick size check counts exactly the cells of the shapes to place. */
  lemma {:induction false} TotalIsNeeded(shapes: seq<Shape>, required: seq<nat>)
    requires |required| <= |shapes|
    ensures TotalCells(shapes, required) == NeededCells(shapes, Expand(required))
  {
    if |required| > 0 {
      var n := |required| - 1;
      TotalIsNeeded(shapes, required[..n]);
      NeededAppend(shapes, Expand(required[..n]), seq(required[n], _ => n));
      NeededCopies(shapes, required[n], n);
    }
  }

  /** A grid with no cell set has no taken cell. */
  lemma EmptyGrid(grid: array2<bool>)
    requires forall r, c :: 0 <= r < grid.Length0 && 0 <= c < grid.Length1 ==> !grid[r, c]
    ensures Filled(grid) == {}
  {
    forall cell | cell in Filled(grid)
      ensures false
    {
    }
  }

  /** The first half of `can_fit_region`: the list of shapes to place, each
      index repeated as often as the region requires it, and the cells they
      need. */
  method ShapeListAndCells(shapes: seq<Shape>, required: seq<nat>) returns (shapeList: seq<nat>, totalCells: nat)
    requires |required| <= |shapes|
    ensures shapeList == Expand(required)
    ensures totalCells == TotalCells(shapes, required)
  {
    shapeList := [];
    var idx := 0;
    while idx < |required|
      invariant 0 <= idx <= |required|
      invariant shapeList == Expand(required[..idx])
    {
      var n := 0;
      while n < required[idx]
        invariant 0 <= n <= required[idx]
        invariant shapeList == Expand(required[..idx]) + seq(n, _ => idx)
      {
        shapeList := shapeList + [idx];
        n := n + 1;
      }
      assert required[..idx + 1][..idx] == required[..idx];
      idx := idx + 1;
    }
    assert required[..idx] == required;
    totalCells := 0;
    idx := 0;
    while idx < |required|
      invariant 0 <= idx <= |required|
      invariant totalCells == TotalCells(shapes, required[..idx])
    {
      assert required[..idx + 1][..idx] == required[..idx];
      totalCells := totalCells + |shapes[idx].cells| * required[idx];
      idx := idx + 1;
    }
    assert required[..idx] == required;
  }

  /** `can_fit_region` as written: the size check, then `backtrack` as
      written, which never answers false; so the region is accepted exactly
      when its area is at least the cells its shapes need. */
  method CanFitRegionAsWritten(shapes: seq<Shape>, width: nat, height: nat, required: seq<nat>)
      returns (fits: bool)
    requires |required| <= |shapes|
    ensures fits <==> TotalCells(shapes, required) <= width * height
  {
    var grid := new bool[height, width]((r, c) => false);
    var shapeList, totalCells := ShapeListAndCells(shapes, required);
    if totalCells > width * height {
      return false;
    }
    fits := BacktrackAsWritten(shapes, grid, shapeList, 0);
  }

  /** `can_fit_region` with the corrected search: a region whose cells are
      fewer than the shapes need is rejected at once, a region with nothing
      to place is accepted, and a positive answer comes with a packing of
      every required shape into the region. */
  method CanFitRegion(shapes: seq<Shape>, width: nat, height: nat, required: seq<nat>)
      returns (fits: bool, ghost placed: seq<Placement>)
    requires |required| <= |shapes|
    ensures TotalCells(shapes, required) > width * height ==> !fits
    ensures Expand(required) == [] ==> fits
    ensures fits ==> Packs(OrientationsOf(shapes), Expand(required), Rect(height, width), placed)
  {
    var grid := new bool[height, width]((r, c) => false);
    var shapeList, totalCells := ShapeListAndCells(shapes, required);
    if totalCells > width * height {
      TotalIsNeeded(shapes, required);
      return false, [];
    }
    EmptyGrid(grid);
    assert shapeList[0..] == shapeList;
    fits, placed := Backtrack(shapes, grid, shapeList, 0);
  }
}

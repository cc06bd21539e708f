// Day 9: red tiles at the corners of rectangles. Part 1 takes the largest
// rectangle with two red corners; part 2 only those whose inside lies in
// the polygon the red tiles trace, checked on a compressed grid with a 2-D
// prefix-sum table.

module Day09 {
  import opened Common
  import opened Text
  import opened Sorting

  /** A red tile: its x and y coordinates. */
  type Tile = (int, int)

  // ---------------------------------------------------------------------------
  // Parsing

  /** A line `x,y`; every comma-separated piece must parse once trimmed, and
      there must be at least two (otherwise the original panics). */
  function TileOf(line: string): (t: Option<Tile>)
  {
    var parts := Split(line, ',');
    if exists k :: 0 <= k < |parts| && ParseInt(Trim(parts[k])).None? then None
    else if |parts| < 2 then None
    else
      match (ParseInt(Trim(parts[0])), ParseInt(Trim(parts[1])))
      case (Some(x), Some(y)) => Some((x, y))
      case _ => None
  }

  /** The tiles of the non-empty lines, or None when one of them is malformed. */
  function TilesOf(lines: seq<string>): (r: Option<seq<Tile>>)
    ensures r.Some? ==> |r.value| <= |lines|
  {
    if |lines| == 0 then Some([])
    else
      var rest := TilesOf(lines[1..]);
      if lines[0] == "" then rest
      else
        match (TileOf(lines[0]), rest)
        case (Some(t), Some(ts)) => Some([t] + ts)
        case _ => None
  }

  /** `parse_input`. */
  function Tiles(input: string): Option<seq<Tile>>
  {
    TilesOf(Lines(input))
  }

  /** The line a tile is written as. */
  function TileLine(t: Tile): string
  {
    SignedString(t.0) + "," + SignedString(t.1)
  }

  /** Reading a written tile gives it back. */
  lemma TileRoundTrip(t: Tile)
    ensures TileOf(TileLine(t)) == Some(t)
  {
    var a := SignedString(t.0);
    var b := SignedString(t.1);
    NoComma(t.0);
    NoComma(t.1);
    assert Join([a, b], ',') == TileLine(t);
    SplitJoin([a, b], ',');
    TrimSigned(t.0);
    TrimSigned(t.1);
    ParseSigned(t.0);
    ParseSigned(t.1);
    var parts := Split(TileLine(t), ',');
    assert parts == [a, b];
    assert forall k :: 0 <= k < |parts| ==> ParseInt(Trim(parts[k])).Some?;
  }

  lemma NoComma(v: int)
    ensures ',' !in SignedString(v)
  {
    var d := DecimalString(Abs(v));
    assert ',' !in d;
  }

  /** A written integer has no surrounding whitespace. */
  lemma TrimSigned(v: int)
    ensures Trim(SignedString(v)) == SignedString(v)
  {
    var s := SignedString(v);
    var d := DecimalString(Abs(v));
    assert IsDigit(d[|d| - 1]);
    assert s[|s| - 1] == d[|d| - 1];
    assert !IsWhitespace(s[0]) by {
      if v >= 0 {
        assert IsDigit(d[0]);
      }
    }
    assert LeadingSpace(s) == 0;
    assert TrimStart(s) == s;
    assert TrailingSpace(s) == 0;
  }

  // ---------------------------------------------------------------------------
  // Part 1: the largest rectangle

  /** `width` rows of `height` tiles, counted by repeated addition. */
  function Mul(width: nat, height: nat): (n: nat)
    ensures width >= 1 && height >= 1 ==> n >= 1
  {
    if width == 0 then 0 else Mul(width - 1, height) + height
  }

  lemma {:induction false} MulIsProduct(width: nat, height: nat)
    ensures Mul(width, height) == width * height
  {
    if width > 0 {
      MulIsProduct(width - 1, height);
    }
  }

  /** The tiles of the rectangle with opposite corners `a` and `b`. */
  function Area(a: Tile, b: Tile): nat
  {
    Mul(Abs(b.0 - a.0) + 1, Abs(b.1 - a.1) + 1)
  }

  /** Every pair of tile indices, the first below the second. */
  ghost function AllPairs(n: nat): set<(nat, nat)>
  {
    set i: nat, j: nat | i < j < n :: (i, j)
  }

  /** The area of the rectangle a pair of tiles spans (0 for indices out of range). */
  function PairArea(tiles: seq<Tile>, p: (nat, nat)): int
  {
    if p.0 < |tiles| && p.1 < |tiles| then Area(tiles[p.0], tiles[p.1]) else 0
  }

  /** `r` is the largest area over `pairs`, or 0 when there is no pair. */
  ghost predicate IsLargest(tiles: seq<Tile>, pairs: set<(nat, nat)>, r: int)
  {
    (forall p :: p in pairs ==> PairArea(tiles, p) <= r) &&
    (if pairs == {} then r == 0 else exists p :: p in pairs && PairArea(tiles, p) == r)
  }

  /** `solve_part1`: the largest rectangle over all pairs of tiles. */
  method SolvePart1(input: string) returns (maxArea: int)
    requires Tiles(input).Some?
    ensures IsLargest(Tiles(input).value, AllPairs(|Tiles(input).value|), maxArea)
  {
    var tiles := Tiles(input).value;
    maxArea := LargestRectangle(tiles);
  }

  /** The pair loops of `solve_part1`. */
  method LargestRectangle(tiles: seq<Tile>) returns (maxArea: int)
    ensures IsLargest(tiles, AllPairs(|tiles|), maxArea)
  {
    var n := |tiles|;
    maxArea := 0;
    ghost var best: (nat, nat) := (0, 0);
    var i := 0;
    while i < n
      invariant 0 <= i <= n
      invariant forall a, b :: 0 <= a < b < n && a < i ==> Area(tiles[a], tiles[b]) <= maxArea
      invariant maxArea == 0 || (best.0 < best.1 < n && Area(tiles[best.0], tiles[best.1]) == maxArea)
    {
      maxArea, best := LargestFrom(tiles, i, maxArea, best);
      forall a, b | 0 <= a < b < n && a < i + 1
        ensures Area(tiles[a], tiles[b]) <= maxArea
      {
      }
      i := i + 1;
    }
    LargestAtEnd(tiles, maxArea, best);
  }

  /** The inner loop of `solve_part1`: the pairs whose first tile is `i`. */
  method LargestFrom(tiles: seq<Tile>, i: nat, maxArea: int, ghost best: (nat, nat))
      returns (newMax: int, ghost newBest: (nat, nat))
    requires i < |tiles|
    requires maxArea == 0 || (best.0 < best.1 < |tiles| && Area(tiles[best.0], tiles[best.1]) == maxArea)
    ensures maxArea <= newMax
    ensures forall b :: i < b < |tiles| ==> Area(tiles[i], tiles[b]) <= newMax
    ensures newMax == 0 || (newBest.0 < newBest.1 < |tiles| && Area(tiles[newBest.0], tiles[newBest.1]) == newMax)
  {
    newMax, newBest := maxArea, best;
    var j := i + 1;
    while j < |tiles|
      invariant i + 1 <= j <= |tiles|
      invariant maxArea <= newMax
      invariant forall b :: i < b < j ==> Area(tiles[i], tiles[b]) <= newMax
      invariant newMax == 0 || (newBest.0 < newBest.1 < |tiles| && Area(tiles[newBest.0], tiles[newBest.1]) == newMax)
    {
      var area := RectangleArea(tiles[i], tiles[j]);
      if area > newMax {
        newMax := area;
        newBest := (i, j);
      }
      j := j + 1;
    }
  }

  /** The area computation of `solve_part1`, corners included. */
  method RectangleArea(a: Tile, b: Tile) returns (area: int)
    ensures area == Area(a, b)
  {
    var (x1, y1) := a;
    var (x2, y2) := b;
    var width := Abs(x2 - x1) + 1;
    var height := Abs(y2 - y1) + 1;
    area := width * height;
    MulIsProduct(width, height);
  }

  lemma LargestAtEnd(tiles: seq<Tile>, r: int, best: (nat, nat))
    requires forall a, b :: 0 <= a < b < |tiles| ==> Area(tiles[a], tiles[b]) <= r
    requires r == 0 || (best.0 < best.1 < |tiles| && Area(tiles[best.0], tiles[best.1]) == r)
    ensures IsLargest(tiles, AllPairs(|tiles|), r)
  {
    if |tiles| >= 2 {
      assert (0, 1) in AllPairs(|tiles|);
      assert Area(tiles[0], tiles[1]) <= r;
      assert Area(tiles[0], tiles[1]) >= 1;
      assert best in AllPairs(|tiles|);
    } else {
      assert AllPairs(|tiles|) == {};
    }
  }

  // ---------------------------------------------------------------------------
  // Part 2: the polygon

  type Edge = (Tile, Tile)

  /** Edge `i` joins tile `i` to the next one, the last to the first. */
  function Edges(tiles: seq<Tile>): seq<Edge>
  {
    seq(|tiles|, i requires 0 <= i < |tiles| => (tiles[i], tiles[(i + 1) % |tiles|]))
  }

  /** The edge loop of `solve_part2`. */
  method BuildEdges(tiles: seq<Tile>) returns (edges: seq<Edge>)
    ensures edges == Edges(tiles)
  {
    var n := |tiles|;
    edges := [];
    var i := 0;
    while i < n
      invariant 0 <= i <= n
      invariant edges == Edges(tiles)[..i]
    {
      var p1 := tiles[i];
      var p2 := tiles[(i + 1) % n];
      edges := edges + [(p1, p2)];
      i := i + 1;
    }
  }

  /** The ray from `point` to the right crosses `edge`: the edge is vertical,
      strictly to the right, and spans the point's y, bottom end included and
      top end excluded. Horizontal edges never count. */
  predicate Crosses(point: Tile, edge: Edge)
  {
    var ((x1, y1), (x2, y2)) := edge;
    x1 == x2 && x1 > point.0 && Min(y1, y2) <= point.1 < Max(y1, y2)
  }

  /** How many edges the ray crosses. */
  function Crossings(point: Tile, edges: seq<Edge>): (n: nat)
    ensures n <= |edges|
  {
    if |edges| == 0 then 0
    else Crossings(point, edges[..|edges| - 1]) + (if Crosses(point, edges[|edges| - 1]) then 1 else 0)
  }

  /** The crossing count is the number of edges that are crossed. */
  lemma {:induction false} CrossingsCount(point: Tile, edges: seq<Edge>)
    ensures Crossings(point, edges) == |set k | 0 <= k < |edges| && Crosses(point, edges[k])|
  {
    var crossed := set k | 0 <= k < |edges| && Crosses(point, edges[k]);
    if |edges| > 0 {
      var init := edges[..|edges| - 1];
      CrossingsCount(point, init);
      var before := set k | 0 <= k < |init| && Crosses(point, init[k]);
      if Crosses(point, edges[|edges| - 1]) {
        assert crossed == before + {|edges| - 1};
      } else {
        assert crossed == before;
      }
    } else {
      assert crossed == {};
    }
  }

  /** Inside the polygon: an odd number of crossings. */
  predicate Inside(point: Tile, edges: seq<Edge>)
  {
    Crossings(point, edges) % 2 == 1
  }

  /** `is_inside_polygon`: ray casting over the edges. */
  method IsInsidePolygon(point: Tile, edges: seq<Edge>) returns (inside: bool)
    ensures inside <==> Inside(point, edges)
  {
    var (px, py) := point;
    var crossings := 0;
    var k := 0;
    while k < |edges|
      invariant 0 <= k <= |edges|
      invariant crossings == Crossings(point, edges[..k])
    {
      var ((x1, y1), (x2, y2)) := edges[k];
      assert edges[..k + 1][..k] == edges[..k];
      if x1 == x2 {
        var x := x1;
        var (minY, maxY) := (Min(y1, y2), Max(y1, y2));
        if x > px && py >= minY && py < maxY {
          crossings := crossings + 1;
        }
      }
      k := k + 1;
    }
    assert edges[..k] == edges;
    inside := crossings % 2 == 1;
  }

  /** The x coordinates of the tiles, in order. */
  function XsOf(tiles: seq<Tile>): seq<int>
  {
    seq(|tiles|, k requires 0 <= k < |tiles| => tiles[k].0)
  }

  function YsOf(tiles: seq<Tile>): seq<int>
  {
    seq(|tiles|, k requires 0 <= k < |tiles| => tiles[k].1)
  }

  /** The centre of compressed cell `(a, b)`, halved as the original does,
      rounding toward zero. */
  function Center(xs: seq<int>, ys: seq<int>, a: nat, b: nat): Tile
    requires a + 1 < |xs| && b + 1 < |ys|
  {
    (TruncDiv(xs[a] + xs[a + 1], 2), TruncDiv(ys[b] + ys[b + 1], 2))
  }

  /** The cell validity loop of `solve_part2`. */
  method FillValid(edges: seq<Edge>, xs: seq<int>, ys: seq<int>) returns (valid: array2<bool>)
    ensures fresh(valid)
    ensures valid.Length0 == (if |xs| > 1 then |xs| - 1 else 0)
    ensures valid.Length1 == (if |ys| > 1 then |ys| - 1 else 0)
    ensures forall a, b :: 0 <= a < valid.Length0 && 0 <= b < valid.Length1 ==>
              valid[a, b] == Inside(Center(xs, ys, a, b), edges)
  {
    var numX := if |xs| > 1 then |xs| - 1 else 0;
    var numY := if |ys| > 1 then |ys| - 1 else 0;
    valid := new bool[numX, numY]((a, b) => false);
    var i := 0;
    while i < numX
      invariant 0 <= i <= numX
      invariant forall a, b :: 0 <= a < i && 0 <= b < numY ==> valid[a, b] == Inside(Center(xs, ys, a, b), edges)
    {
      var j := 0;
      while j < numY
        invariant 0 <= j <= numY
        invariant forall a, b :: 0 <= a < i && 0 <= b < numY ==> valid[a, b] == Inside(Center(xs, ys, a, b), edges)
        invariant forall b :: 0 <= b < j ==> valid[i, b] == Inside(Center(xs, ys, i, b), edges)
      {
        var cx := TruncDiv(xs[i] + xs[i + 1], 2);
        var cy := TruncDiv(ys[j] + ys[j + 1], 2);
        var inside := IsInsidePolygon((cx, cy), edges);
        valid[i, j] := inside;
        j := j + 1;
      }
      i := i + 1;
    }
  }

  // ---------------------------------------------------------------------------
  // Counting invalid cells

  /** Invalid cells of column `a` with y index in `[y1, y2)`. */
  function ColumnInvalid(valid: array2<bool>, a: nat, y1: nat, y2: nat): (n: nat)
    reads valid
    requires a < valid.Length0 && y2 <= valid.Length1
    decreases y2
  {
    if y2 <= y1 then 0
    else ColumnInvalid(valid, a, y1, y2 - 1) + (if valid[a, y2 - 1] then 0 else 1)
  }

  /** Invalid cells with x index in `[x1, x2)` and y index in `[y1, y2)`. */
  function InvalidIn(valid: array2<bool>, x1: nat, x2: nat, y1: nat, y2: nat): (n: nat)
    reads valid
    requires x2 <= valid.Length0 && y2 <= valid.Length1
    decreases x2
  {
    if x2 <= x1 then 0
    else InvalidIn(valid, x1, x2 - 1, y1, y2) + ColumnInvalid(valid, x2 - 1, y1, y2)
  }

  /** No invalid cell in a range exactly when every cell there is valid. */
  lemma {:induction false} ColumnNoneInvalid(valid: array2<bool>, a: nat, y1: nat, y2: nat)
    requires a < valid.Length0 && y2 <= valid.Length1
    ensures ColumnInvalid(valid, a, y1, y2) == 0 <==> forall b :: y1 <= b < y2 ==> valid[a, b]
    decreases y2
  {
    if y2 > y1 {
      ColumnNoneInvalid(valid, a, y1, y2 - 1);
    }
  }

  /** Every cell of the table with index in `[x1, x2) x [y1, y2)` is valid. */
  ghost predicate AllValid(valid: array2<bool>, x1: int, x2: int, y1: int, y2: int)
    reads valid
  {
    forall a, b :: x1 <= a < x2 && y1 <= b < y2 && 0 <= a < valid.Length0 && 0 <= b < valid.Length1 ==> valid[a, b]
  }

  lemma {:induction false} NoneInvalid(valid: array2<bool>, x1: nat, x2: nat, y1: nat, y2: nat)
    requires x2 <= valid.Length0 && y2 <= valid.Length1
    ensures InvalidIn(valid, x1, x2, y1, y2) == 0 <==> AllValid(valid, x1, x2, y1, y2)
    decreases x2
  {
    if x2 > x1 {
      NoneInvalid(valid, x1, x2 - 1, y1, y2);
      ColumnNoneInvalid(valid, x2 - 1, y1, y2);
    }
  }

  /** `prefix[i][j]` counts the invalid cells below and left of `(i, j)`. */
  ghost predicate PrefixTable(valid: array2<bool>, prefix: array2<int>)
    reads valid, prefix
  {
    prefix.Length0 == valid.Length0 + 1 && prefix.Length1 == valid.Length1 + 1 &&
    forall i, j :: 0 <= i < prefix.Length0 && 0 <= j < prefix.Length1 ==>
      prefix[i, j] == InvalidIn(valid, 0, i, 0, j)
  }

  /** The recurrence of the table: one more cell, two overlapping neighbours. */
  lemma PrefixStep(valid: array2<bool>, i: nat, j: nat)
    requires i < valid.Length0 && j < valid.Length1
    ensures InvalidIn(valid, 0, i + 1, 0, j + 1) ==
            (if valid[i, j] then 0 else 1) + InvalidIn(valid, 0, i, 0, j + 1) +
            InvalidIn(valid, 0, i + 1, 0, j) - InvalidIn(valid, 0, i, 0, j)
  {
  }

  /** A range without y values holds no cell. */
  lemma {:induction false} EmptyColumns(valid: array2<bool>, x1: nat, x2: nat)
    requires x2 <= valid.Length0
    ensures InvalidIn(valid, x1, x2, 0, 0) == 0
    decreases x2
  {
    if x2 > x1 {
      EmptyColumns(valid, x1, x2 - 1);
    }
  }

  /** The loops that fill the prefix-sum table. */
  method FillPrefix(valid: array2<bool>) returns (prefix: array2<int>)
    ensures fresh(prefix)
    ensures PrefixTable(valid, prefix)
  {
    var numX := valid.Length0;
    var numY := valid.Length1;
    prefix := new int[numX + 1, numY + 1]((a, b) => 0);
    var i := 0;
    while i < numX
      invariant 0 <= i <= numX
      invariant forall a, b :: 0 <= a <= numX && 0 <= b <= numY ==>
                  prefix[a, b] == (if a <= i then InvalidIn(valid, 0, a, 0, b) else 0)
    {
      FillRow(valid, prefix, i);
      i := i + 1;
    }
  }

  /** The inner loop of the table: row `i + 1`, from the rows filled before. */
  method FillRow(valid: array2<bool>, prefix: array2<int>, i: nat)
    requires prefix.Length0 == valid.Length0 + 1 && prefix.Length1 == valid.Length1 + 1 && i < valid.Length0
    requires forall a, b :: 0 <= a < prefix.Length0 && 0 <= b < prefix.Length1 ==>
               prefix[a, b] == (if a <= i then InvalidIn(valid, 0, a, 0, b) else 0)
    modifies prefix
    ensures forall a, b :: 0 <= a < prefix.Length0 && 0 <= b < prefix.Length1 ==>
              prefix[a, b] == (if a <= i + 1 then InvalidIn(valid, 0, a, 0, b) else 0)
  {
    EmptyColumns(valid, 0, i + 1);
    var j := 0;
    while j < valid.Length1
      invariant 0 <= j <= valid.Length1
      invariant forall a, b :: 0 <= a < prefix.Length0 && 0 <= b < prefix.Length1 ==>
                  prefix[a, b] == (if a <= i || (a == i + 1 && b <= j) then InvalidIn(valid, 0, a, 0, b) else 0)
    {
      var inv := if valid[i, j] then 0 else 1;
      PrefixStep(valid, i, j);
      prefix[i + 1, j + 1] := inv + prefix[i, j + 1] + prefix[i + 1, j] - prefix[i, j];
      j := j + 1;
    }
  }

  /** A range without y values holds no cell. */
  lemma {:induction false} EmptyRows(valid: array2<bool>, x1: nat, x2: nat, y1: nat, y2: nat)
    requires x2 <= valid.Length0 && y2 <= y1 && y2 <= valid.Length1
    ensures InvalidIn(valid, x1, x2, y1, y2) == 0
    decreases x2
  {
    if x2 > x1 {
      EmptyRows(valid, x1, x2 - 1, y1, y2);
    }
  }

  /** Splitting the x range. */
  lemma {:induction false} SplitX(valid: array2<bool>, x1: nat, x2: nat, y1: nat, y2: nat)
    requires x1 <= x2 <= valid.Length0 && y2 <= valid.Length1
    ensures InvalidIn(valid, 0, x2, y1, y2) == InvalidIn(valid, 0, x1, y1, y2) + InvalidIn(valid, x1, x2, y1, y2)
    decreases x2
  {
    if x2 > x1 {
      SplitX(valid, x1, x2 - 1, y1, y2);
    }
  }

  /** Splitting the y range. */
  lemma {:induction false} SplitColumn(valid: array2<bool>, a: nat, y1: nat, y2: nat)
    requires a < valid.Length0 && y1 <= y2 <= valid.Length1
    ensures ColumnInvalid(valid, a, 0, y2) == ColumnInvalid(valid, a, 0, y1) + ColumnInvalid(valid, a, y1, y2)
    decreases y2
  {
    if y2 > y1 {
      SplitColumn(valid, a, y1, y2 - 1);
    }
  }

  lemma {:induction false} SplitY(valid: array2<bool>, x1: nat, x2: nat, y1: nat, y2: nat)
    requires x2 <= valid.Length0 && y1 <= y2 <= valid.Length1
    ensures InvalidIn(valid, x1, x2, 0, y2) == InvalidIn(valid, x1, x2, 0, y1) + InvalidIn(valid, x1, x2, y1, y2)
    decreases x2
  {
    if x2 > x1 {
      SplitY(valid, x1, x2 - 1, y1, y2);
      SplitColumn(valid, x2 - 1, y1, y2);
    }
  }

  /** `count_invalid_cells`: four table entries give the inclusive rectangle's
      count; an empty rectangle counts 0. The ghost `valid` is the grid the
      table was built from: over a rectangle of it, the count is the number
      of its invalid cells. */
  function CountInvalidCells(ghost valid: array2<bool>, prefix: array2<int>, x1: nat, y1: nat, x2: nat, y2: nat): (count: int)
    reads valid, prefix
    requires x2 < x1 || y2 < y1 || (x2 + 1 < prefix.Length0 && y2 + 1 < prefix.Length1)
    ensures x2 < x1 || y2 < y1 ==> count == 0
    ensures PrefixTable(valid, prefix) && x1 <= x2 < valid.Length0 && y1 <= y2 < valid.Length1 ==>
              count == InvalidIn(valid, x1, x2 + 1, y1, y2 + 1)
  {
    if x2 < x1 || y2 < y1 then 0
    else
      assert PrefixTable(valid, prefix) && x2 < valid.Length0 && y2 < valid.Length1 ==>
             prefix[x2 + 1, y2 + 1] - prefix[x1, y2 + 1] - prefix[x2 + 1, y1] + prefix[x1, y1]
             == InvalidIn(valid, x1, x2 + 1, y1, y2 + 1) by {
        if PrefixTable(valid, prefix) && x2 < valid.Length0 && y2 < valid.Length1 {
          CountInvalidMeaning(valid, prefix, x1, y1, x2, y2);
        }
      }
      prefix[x2 + 1, y2 + 1] - prefix[x1, y2 + 1] - prefix[x2 + 1, y1] + prefix[x1, y1]
  }

  /** The four-entry formula counts the invalid cells of the inclusive rectangle. */
  lemma CountInvalidMeaning(valid: array2<bool>, prefix: array2<int>, x1: nat, y1: nat, x2: nat, y2: nat)
    requires PrefixTable(valid, prefix)
    requires x1 <= x2 < valid.Length0 && y1 <= y2 < valid.Length1
    ensures prefix[x2 + 1, y2 + 1] - prefix[x1, y2 + 1] - prefix[x2 + 1, y1] + prefix[x1, y1]
            == InvalidIn(valid, x1, x2 + 1, y1, y2 + 1)
  {
    SplitX(valid, x1, x2 + 1, 0, y2 + 1);
    SplitX(valid, x1, x2 + 1, 0, y1);
    SplitY(valid, x1, x2 + 1, y1, y2 + 1);
  }

  // ---------------------------------------------------------------------------
  // Which rectangles part 2 accepts

  /** Compressed cell `(a, b)` exists and its centre lies in the polygon. */
  ghost predicate CellInside(edges: seq<Edge>, xs: seq<int>, ys: seq<int>, a: int, b: int)
  {
    0 <= a && a + 1 < |xs| && 0 <= b && b + 1 < |ys| && Inside(Center(xs, ys, a, b), edges)
  }

  /** Every compressed cell within `[lox, hix] x [loy, hiy]` lies in the polygon. */
  ghost predicate BoxInside(edges: seq<Edge>, xs: seq<int>, ys: seq<int>, lox: int, hix: int, loy: int, hiy: int)
  {
    forall a, b {:trigger CellInside(edges, xs, ys, a, b)} ::
      (0 <= a && a + 1 < |xs| && 0 <= b && b + 1 < |ys| &&
       lox <= xs[a] && xs[a + 1] <= hix && loy <= ys[b] && ys[b + 1] <= hiy) ==>
      CellInside(edges, xs, ys, a, b)
  }

  /** Part 2 accepts the rectangle of tiles `i` and `j` when every compressed
      cell inside it lies in the polygon. */
  ghost predicate Accepted(tiles: seq<Tile>, i: nat, j: nat)
    requires i < |tiles| && j < |tiles|
  {
    var (t, u) := (tiles[i], tiles[j]);
    BoxInside(Edges(tiles), Compressed(XsOf(tiles)), Compressed(YsOf(tiles)),
              Min(t.0, u.0), Max(t.0, u.0), Min(t.1, u.1), Max(t.1, u.1))
  }

  ghost function AcceptedPairs(tiles: seq<Tile>): set<(nat, nat)>
  {
    set i: nat, j: nat | i < j < |tiles| && Accepted(tiles, i, j) :: (i, j)
  }

  /** A rectangle of zero width or height holds no whole compressed cell, so
      part 2 always accepts it. */
  lemma DegenerateAccepted(tiles: seq<Tile>, i: nat, j: nat)
    requires i < |tiles| && j < |tiles|
    requires tiles[i].0 == tiles[j].0 || tiles[i].1 == tiles[j].1
    ensures Accepted(tiles, i, j)
  {
    CompressedProperties(XsOf(tiles));
    CompressedProperties(YsOf(tiles));
  }

  /** Part 2 only filters the pairs of part 1, so its answer is never larger. */
  lemma Part2AtMostPart1(tiles: seq<Tile>, part1: int, part2: int)
    requires IsLargest(tiles, AllPairs(|tiles|), part1)
    requires IsLargest(tiles, AcceptedPairs(tiles), part2)
    ensures part2 <= part1
  {
    if AcceptedPairs(tiles) != {} {
      var p :| p in AcceptedPairs(tiles) && PairArea(tiles, p) == part2;
      assert p in AllPairs(|tiles|);
    }
  }

  /** Between the positions of `lo` and `hi` in a strictly increasing `xs`
      lie exactly the gaps whose ends are within `[lo, hi]`. */
  lemma IndexRange(xs: seq<int>, i1: nat, i2: nat, a: int)
    requires StrictlyIncreasing(xs) && i1 < |xs| && i2 < |xs|
    ensures (i1 <= a < i2) <==> (0 <= a && a + 1 < |xs| && xs[i1] <= xs[a] && xs[a + 1] <= xs[i2])
  {
  }

  /** What the table of cell validity holds. */
  ghost predicate ValidTable(edges: seq<Edge>, xs: seq<int>, ys: seq<int>, valid: array2<bool>)
    reads valid
  {
    valid.Length0 == (if |xs| > 1 then |xs| - 1 else 0) &&
    valid.Length1 == (if |ys| > 1 then |ys| - 1 else 0) &&
    forall a, b :: 0 <= a < valid.Length0 && 0 <= b < valid.Length1 ==>
      valid[a, b] == Inside(Center(xs, ys, a, b), edges)
  }

  /** Every compressed cell with index in `[x1, x2) x [y1, y2)` lies in the polygon. */
  ghost predicate AllInside(edges: seq<Edge>, xs: seq<int>, ys: seq<int>, x1: int, x2: int, y1: int, y2: int)
  {
    forall a, b :: x1 <= a < x2 && y1 <= b < y2 ==> CellInside(edges, xs, ys, a, b)
  }

  /** The box between two compressed coordinates is the index range between them. */
  lemma BoxByIndex(edges: seq<Edge>, xs: seq<int>, ys: seq<int>, xi1: nat, xi2: nat, yi1: nat, yi2: nat)
    requires StrictlyIncreasing(xs) && StrictlyIncreasing(ys)
    requires xi1 < |xs| && xi2 < |xs| && yi1 < |ys| && yi2 < |ys|
    ensures BoxInside(edges, xs, ys, xs[xi1], xs[xi2], ys[yi1], ys[yi2]) <==> AllInside(edges, xs, ys, xi1, xi2, yi1, yi2)
  {
    forall a, b
      ensures (0 <= a && a + 1 < |xs| && 0 <= b && b + 1 < |ys| &&
               xs[xi1] <= xs[a] && xs[a + 1] <= xs[xi2] && ys[yi1] <= ys[b] && ys[b + 1] <= ys[yi2])
              <==> (xi1 <= a < xi2 && yi1 <= b < yi2)
    {
      IndexRange(xs, xi1, xi2, a);
      IndexRange(ys, yi1, yi2, b);
    }
  }

  /** Over cells of the table, inside the polygon means valid. */
  lemma InsideByTable(edges: seq<Edge>, xs: seq<int>, ys: seq<int>, valid: array2<bool>, xi1: nat, xi2: nat, yi1: nat, yi2: nat)
    requires ValidTable(edges, xs, ys, valid)
    requires xi2 < |xs| && yi2 < |ys|
    ensures AllInside(edges, xs, ys, xi1, xi2, yi1, yi2) <==> AllValid(valid, xi1, xi2, yi1, yi2)
  {
    if AllValid(valid, xi1, xi2, yi1, yi2) {
      forall a, b | xi1 <= a < xi2 && yi1 <= b < yi2
        ensures CellInside(edges, xs, ys, a, b)
      {
        assert valid[a, b];
      }
    }
    if AllInside(edges, xs, ys, xi1, xi2, yi1, yi2) {
      forall a, b | xi1 <= a < xi2 && yi1 <= b < yi2
        ensures valid[a, b]
      {
        assert CellInside(edges, xs, ys, a, b);
      }
    }
  }

  /** The validity test of one pair: an empty count over the interior cells,
      or a rectangle without interior. */
  lemma PairCheck(edges: seq<Edge>, xs: seq<int>, ys: seq<int>, valid: array2<bool>, prefix: array2<int>,
                  xi1: nat, xi2: nat, yi1: nat, yi2: nat)
    requires StrictlyIncreasing(xs) && StrictlyIncreasing(ys)
    requires xi1 <= xi2 < |xs| && yi1 <= yi2 < |ys|
    requires ValidTable(edges, xs, ys, valid) && PrefixTable(valid, prefix)
    ensures xi2 > xi1 && yi2 > yi1 ==> xi2 - 1 + 1 < prefix.Length0 && yi2 - 1 + 1 < prefix.Length1
    ensures (if xi2 > xi1 && yi2 > yi1 then CountInvalidCells(valid, prefix, xi1, yi1, xi2 - 1, yi2 - 1) == 0 else true)
            <==> BoxInside(edges, xs, ys, xs[xi1], xs[xi2], ys[yi1], ys[yi2])
  {
    BoxByIndex(edges, xs, ys, xi1, xi2, yi1, yi2);
    ghost var inside := AllInside(edges, xs, ys, xi1, xi2, yi1, yi2);
    InsideByTable(edges, xs, ys, valid, xi1, xi2, yi1, yi2);
    if xi2 > xi1 && yi2 > yi1 {
      ghost var count := CountInvalidCells(valid, prefix, xi1, yi1, xi2 - 1, yi2 - 1);
      assert count == InvalidIn(valid, xi1, xi2, yi1, yi2);
      NoneInvalid(valid, xi1, xi2, yi1, yi2);
      assert count == 0 <==> inside;
    } else {
      assert inside;
    }
  }

  // ---------------------------------------------------------------------------
  // solve_part2

  /** `m` sends each coordinate to its position in `xs`. */
  ghost predicate Indexes(m: map<int, nat>, xs: seq<int>)
  {
    forall v :: v in m ==> m[v] < |xs| && xs[m[v]] == v
  }

  /** What `solve_part2` has built before it looks at the pairs. */
  ghost predicate Setup(tiles: seq<Tile>, xs: seq<int>, ys: seq<int>, xToIdx: map<int, nat>, yToIdx: map<int, nat>,
                        valid: array2<bool>, prefix: array2<int>)
    reads valid, prefix
  {
    xs == Compressed(XsOf(tiles)) && ys == Compressed(YsOf(tiles)) &&
    StrictlyIncreasing(xs) && StrictlyIncreasing(ys) &&
    Indexes(xToIdx, xs) && Indexes(yToIdx, ys) &&
    (forall k :: 0 <= k < |tiles| ==> tiles[k].0 in xToIdx && tiles[k].1 in yToIdx) &&
    ValidTable(Edges(tiles), xs, ys, valid) && PrefixTable(valid, prefix)
  }

  /** The test of one pair in `solve_part2`. */
  method PairValid(tiles: seq<Tile>, xs: seq<int>, ys: seq<int>, xToIdx: map<int, nat>, yToIdx: map<int, nat>,
                   valid: array2<bool>, prefix: array2<int>, i: nat, j: nat) returns (ok: bool)
    requires i < |tiles| && j < |tiles|
    requires Setup(tiles, xs, ys, xToIdx, yToIdx, valid, prefix)
    ensures ok <==> Accepted(tiles, i, j)
  {
    var (x1, y1) := tiles[i];
    var (x2, y2) := tiles[j];
    var xi1 := xToIdx[Min(x1, x2)];
    var xi2 := xToIdx[Max(x1, x2)];
    var yi1 := yToIdx[Min(y1, y2)];
    var yi2 := yToIdx[Max(y1, y2)];
    PairCheck(Edges(tiles), xs, ys, valid, prefix, xi1, xi2, yi1, yi2);
    ok := if xi2 > xi1 && yi2 > yi1 then CountInvalidCells(valid, prefix, xi1, yi1, xi2 - 1, yi2 - 1) == 0 else true;
  }

  /** The area computation of `solve_part2`, from the larger and smaller coordinates. */
  method SpanArea(a: Tile, b: Tile) returns (area: int)
    ensures area == Area(a, b)
  {
    var (x1, y1) := a;
    var (x2, y2) := b;
    var width := Max(x1, x2) - Min(x1, x2) + 1;
    var height := Max(y1, y2) - Min(y1, y2) + 1;
    area := width * height;
    MulIsProduct(width, height);
  }

  /** The pair loops of `solve_part2`. */
  method LargestAccepted(tiles: seq<Tile>, xs: seq<int>, ys: seq<int>, xToIdx: map<int, nat>, yToIdx: map<int, nat>,
                         valid: array2<bool>, prefix: array2<int>) returns (maxArea: int)
    requires Setup(tiles, xs, ys, xToIdx, yToIdx, valid, prefix)
    ensures IsLargest(tiles, AcceptedPairs(tiles), maxArea)
  {
    var n := |tiles|;
    maxArea := 0;
    ghost var pairs := AcceptedPairs(tiles);
    ghost var best: (nat, nat) := (0, 0);
    var i := 0;
    while i < n
      invariant 0 <= i <= n
      invariant Bound(tiles, pairs, i, maxArea)
      invariant Witness(tiles, pairs, maxArea, best)
    {
      ghost var before := maxArea;
      maxArea, best := LargestAcceptedFrom(tiles, xs, ys, xToIdx, yToIdx, valid, prefix, i, maxArea, pairs, best);
      BoundStep(tiles, pairs, i, before, maxArea);
      i := i + 1;
    }
    LargestAcceptedAtEnd(tiles, pairs, maxArea, best);
  }

  /** Every pair of `pairs` whose first tile comes before `i` has area at most `m`. */
  ghost predicate Bound(tiles: seq<Tile>, pairs: set<(nat, nat)>, i: nat, m: int)
  {
    forall a, b :: 0 <= a < b < |tiles| && a < i && (a, b) in pairs ==> Area(tiles[a], tiles[b]) <= m
  }

  lemma BoundStep(tiles: seq<Tile>, pairs: set<(nat, nat)>, i: nat, before: int, after: int)
    requires i < |tiles|
    requires Bound(tiles, pairs, i, before) && before <= after && RowBound(tiles, pairs, i, |tiles|, after)
    ensures Bound(tiles, pairs, i + 1, after)
  {
  }

  /** Every pair `(i, b)` of `pairs` with `i < b < j` has area at most `m`. */
  ghost predicate RowBound(tiles: seq<Tile>, pairs: set<(nat, nat)>, i: nat, j: nat, m: int)
    requires i < |tiles| && j <= |tiles|
  {
    forall b :: i < b < j && (i, b) in pairs ==> Area(tiles[i], tiles[b]) <= m
  }

  /** `m` is 0 or the area of the pair `best` of `pairs`. */
  ghost predicate Witness(tiles: seq<Tile>, pairs: set<(nat, nat)>, m: int, best: (nat, nat))
  {
    m == 0 || (best.0 < best.1 < |tiles| && best in pairs && Area(tiles[best.0], tiles[best.1]) == m)
  }

  /** The inner loop of `solve_part2`: the pairs whose first tile is `i`. */
  method LargestAcceptedFrom(tiles: seq<Tile>, xs: seq<int>, ys: seq<int>, xToIdx: map<int, nat>, yToIdx: map<int, nat>,
                             valid: array2<bool>, prefix: array2<int>, i: nat, maxArea: int,
                             ghost pairs: set<(nat, nat)>, ghost best: (nat, nat))
      returns (newMax: int, ghost newBest: (nat, nat))
    requires i < |tiles| && pairs == AcceptedPairs(tiles)
    requires Setup(tiles, xs, ys, xToIdx, yToIdx, valid, prefix)
    requires Witness(tiles, pairs, maxArea, best)
    ensures maxArea <= newMax
    ensures RowBound(tiles, pairs, i, |tiles|, newMax)
    ensures Witness(tiles, pairs, newMax, newBest)
  {
    newMax, newBest := maxArea, best;
    var j := i + 1;
    while j < |tiles|
      invariant i + 1 <= j <= |tiles|
      invariant maxArea <= newMax
      invariant RowBound(tiles, pairs, i, j, newMax)
      invariant Witness(tiles, pairs, newMax, newBest)
    {
      ghost var before := newMax;
      var ok := PairValid(tiles, xs, ys, xToIdx, yToIdx, valid, prefix, i, j);
      assert ok <==> (i, j) in pairs;
      if ok {
        var area := SpanArea(tiles[i], tiles[j]);
        if area > newMax {
          newMax := area;
          newBest := (i, j);
        }
      }
      RowStep(tiles, pairs, i, j, before, newMax);
      j := j + 1;
    }
  }

  lemma RowStep(tiles: seq<Tile>, pairs: set<(nat, nat)>, i: nat, j: nat, before: int, after: int)
    requires i < j < |tiles|
    requires RowBound(tiles, pairs, i, j, before) && before <= after
    requires (i, j) in pairs ==> Area(tiles[i], tiles[j]) <= after
    ensures RowBound(tiles, pairs, i, j + 1, after)
  {
  }

  lemma LargestAcceptedAtEnd(tiles: seq<Tile>, pairs: set<(nat, nat)>, r: int, best: (nat, nat))
    requires pairs == AcceptedPairs(tiles)
    requires Bound(tiles, pairs, |tiles|, r) && Witness(tiles, pairs, r, best)
    ensures IsLargest(tiles, pairs, r)
  {
    forall p | p in pairs
      ensures PairArea(tiles, p) <= r && 1 <= PairArea(tiles, p)
    {
    }
    LargestOf(tiles, pairs, r, best);
  }

  /** The maximum found by a pair loop, in terms of the set of pairs it considered. */
  lemma LargestOf(tiles: seq<Tile>, pairs: set<(nat, nat)>, r: int, best: (nat, nat))
    requires forall p :: p in pairs ==> p.0 < |tiles| && p.1 < |tiles|
    requires forall p :: p in pairs ==> 1 <= PairArea(tiles, p) <= r
    requires r == 0 || (best in pairs && PairArea(tiles, best) == r)
    ensures IsLargest(tiles, pairs, r)
  {
    if pairs != {} {
      var p :| p in pairs;
      assert PairArea(tiles, p) <= r;
    }
  }

  /** `solve_part2`: the largest rectangle over the accepted pairs. */
  method SolvePart2(input: string) returns (maxArea: int)
    requires Tiles(input).Some?
    ensures IsLargest(Tiles(input).value, AcceptedPairs(Tiles(input).value), maxArea)
  {
    var tiles := Tiles(input).value;
    if |tiles| == 0 {
      assert AcceptedPairs(tiles) == {};
      return 0;
    }
    var xs, ys, xToIdx, yToIdx, valid, prefix := Prepare(tiles);
    maxArea := LargestAccepted(tiles, xs, ys, xToIdx, yToIdx, valid, prefix);
  }

  /** The tables `solve_part2` builds before it looks at the pairs: the
      edges, the compressed coordinates and their positions, the inside test
      of every compressed cell and its prefix sums. */
  method Prepare(tiles: seq<Tile>)
      returns (xs: seq<int>, ys: seq<int>, xToIdx: map<int, nat>, yToIdx: map<int, nat>,
               valid: array2<bool>, prefix: array2<int>)
    ensures Setup(tiles, xs, ys, xToIdx, yToIdx, valid, prefix)
  {
    var edges := BuildEdges(tiles);
    xs := Compressed(XsOf(tiles));
    ys := Compressed(YsOf(tiles));
    CompressedProperties(XsOf(tiles));
    CompressedProperties(YsOf(tiles));
    xToIdx := PositionMap(xs);
    yToIdx := PositionMap(ys);
    CoveredBy(XsOf(tiles), xToIdx);
    CoveredBy(YsOf(tiles), yToIdx);
    valid := FillValid(edges, xs, ys);
    prefix := FillPrefix(valid);
    forall k | 0 <= k < |tiles|
      ensures tiles[k].0 in xToIdx && tiles[k].1 in yToIdx
    {
      assert XsOf(tiles)[k] == tiles[k].0;
      assert YsOf(tiles)[k] == tiles[k].1;
    }
  }

  /** The map from each coordinate to its position, as the `collect` of the
      enumerated coordinates builds it. */
  method PositionMap(xs: seq<int>) returns (m: map<int, nat>)
    requires StrictlyIncreasing(xs)
    ensures Indexes(m, xs)
    ensures forall k :: 0 <= k < |xs| ==> xs[k] in m
  {
    m := map k | 0 <= k < |xs| :: xs[k] := k as nat;
    forall v | v in m
      ensures m[v] < |xs| && xs[m[v]] == v
    {
      var k :| 0 <= k < |xs| && xs[k] == v;
      assert m[v] == k;
    }
  }

  /** Every coordinate of a tile is a key of the position map. */
  lemma CoveredBy(values: seq<int>, m: map<int, nat>)
    requires forall k :: 0 <= k < |Compressed(values)| ==> Compressed(values)[k] in m
    ensures forall k :: 0 <= k < |values| ==> values[k] in m
  {
    var xs := Compressed(values);
    CompressedProperties(values);
    forall k | 0 <= k < |values|
      ensures values[k] in m
    {
      assert values[k] in values;
      var a :| 0 <= a < |xs| && xs[a] == values[k];
    }
  }
}

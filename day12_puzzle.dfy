// Day 12, reading the puzzle and counting the regions that can hold their
// presents.

module Day12Puzzle {
  import opened Common
  import opened Text
  import opened Day12Shapes
  import opened Day12Packing

  /** A region under a tree: its size and how many of each shape it needs. */
  datatype Region = Region(width: nat, height: nat, counts: seq<nat>)

  // ---------------------------------------------------------------------------
  // The shape section

  /** A line such as `4x4: 0 0 0 0 2 0` starts the region section. */
  predicate IsRegionLine(line: string)
  {
    'x' in line && ':' in line
  }

  /** The end of a shape's picture: the first line from `i` that is empty or
      is a header. */
  function BlockEnd(lines: seq<string>, i: nat): (j: nat)
    requires i <= |lines|
    ensures i <= j <= |lines|
    ensures j == |lines| || lines[j] == "" || EndsWith(lines[j], ':')
    decreases |lines| - i
  {
    if i < |lines| && lines[i] != "" && !EndsWith(lines[i], ':') then BlockEnd(lines, i + 1) else i
  }

  /** The shapes read from line `i` on, and the line where the region section
      starts: a header line is followed by its picture, any other line before
      the first region line is skipped. */
  function ShapeSection(lines: seq<string>, i: nat): (r: (seq<Shape>, nat))
    requires i <= |lines|
    ensures i <= r.1 <= |lines|
    decreases |lines| - i
  {
    if i == |lines| || IsRegionLine(lines[i]) then ([], i)
    else if EndsWith(lines[i], ':') then
      var j := BlockEnd(lines, i + 1);
      var rest := ShapeSection(lines, j);
      ([Shape(GridCells(lines[i + 1..j], j - i - 1))] + rest.0, rest.1)
    else ShapeSection(lines, i + 1)
  }

  /** One header and its picture. */
  lemma HeaderStep(lines: seq<string>, i: nat)
    requires i < |lines| && !IsRegionLine(lines[i]) && EndsWith(lines[i], ':')
    ensures var j := BlockEnd(lines, i + 1);
            ShapeSection(lines, i) == ([Shape(GridCells(lines[i + 1..j], j - i - 1))] + ShapeSection(lines, j).0, ShapeSection(lines, j).1)
  {
  }

  /** The shape section ends at the end of the lines or at a region line. */
  lemma StopStep(lines: seq<string>, i: nat)
    requires i <= |lines| && (i == |lines| || IsRegionLine(lines[i]))
    ensures ShapeSection(lines, i) == ([], i)
  {
  }

  /** A line before the region section that is no header is skipped. */
  lemma SkipStep(lines: seq<string>, i: nat)
    requires i < |lines| && !IsRegionLine(lines[i]) && !EndsWith(lines[i], ':')
    ensures ShapeSection(lines, i) == ShapeSection(lines, i + 1)
  {
  }

  /** The region section starts at a region line, or there is none. */
  lemma {:induction false} ShapeSectionStops(lines: seq<string>, i: nat)
    requires i <= |lines|
    ensures var j := ShapeSection(lines, i).1;
            j == |lines| || IsRegionLine(lines[j])
    decreases |lines| - i
  {
    if i == |lines| || IsRegionLine(lines[i]) {
    } else if EndsWith(lines[i], ':') {
      ShapeSectionStops(lines, BlockEnd(lines, i + 1));
    } else {
      ShapeSectionStops(lines, i + 1);
    }
  }

  /** Each header before the region section yields one shape. */
  function Headers(lines: seq<string>, i: nat): (n: nat)
    requires i <= |lines|
    decreases |lines| - i
  {
    if i == |lines| || IsRegionLine(lines[i]) then 0
    else if EndsWith(lines[i], ':') then 1 + Headers(lines, BlockEnd(lines, i + 1))
    else Headers(lines, i + 1)
  }

  lemma {:induction false} OneShapePerHeader(lines: seq<string>, i: nat)
    requires i <= |lines|
    ensures |ShapeSection(lines, i).0| == Headers(lines, i)
    decreases |lines| - i
  {
    if i == |lines| || IsRegionLine(lines[i]) {
    } else if EndsWith(lines[i], ':') {
      OneShapePerHeader(lines, BlockEnd(lines, i + 1));
    } else {
      OneShapePerHeader(lines, i + 1);
    }
  }

  // ---------------------------------------------------------------------------
  // The region section

  /** The counts of a region line: the words that parse, in order; the others
      are dropped. */
  function Counts(words: seq<string>): (counts: seq<nat>)
    ensures |counts| <= |words|
  {
    if |words| == 0 then []
    else
      var head := match ParseNat(words[0]) case Some(n) => [n] case None => [];
      head + Counts(words[1..])
  }

  /** A line `<width>x<height>: <counts>`; a line of any other form is no region. */
  function RegionOf(line: string): (r: Option<Region>)
    ensures forall region :: line == RegionLine(region) ==> r == Some(region)
  {
    var parts := SplitOn(line, ": ");
    assert forall region :: line == RegionLine(region) ==> WrittenParts(parts, region) by {
      forall region | line == RegionLine(region)
        ensures WrittenParts(parts, region)
      {
        RegionLineParts(region);
      }
    }
    if |parts| != 2 then None
    else
      var dims := Split(parts[0], 'x');
      if |dims| != 2 then None
      else
        match (ParseNat(dims[0]), ParseNat(dims[1]))
        case (Some(width), Some(height)) => Some(Region(width, height, Counts(SplitWhitespace(parts[1]))))
        case _ => None
  }

  /** The regions of the lines from `i` on: empty lines and lines that are no
      region are skipped. */
  function RegionSection(lines: seq<string>, i: nat): (regions: seq<Region>)
    requires i <= |lines|
    ensures |regions| <= |lines| - i
    decreases |lines| - i
  {
    if i == |lines| then []
    else if lines[i] == "" then RegionSection(lines, i + 1)
    else
      match RegionOf(lines[i])
      case Some(region) => [region] + RegionSection(lines, i + 1)
      case None => RegionSection(lines, i + 1)
  }

  /** The line a region is written as. */
  function RegionLine(region: Region): string
  {
    DecimalString(region.width) + "x" + DecimalString(region.height) + ": " +
    (if |region.counts| == 0 then "" else Join(Decimals(region.counts), ' '))
  }

  function Decimals(ns: seq<nat>): (ds: seq<string>)
    ensures |ds| == |ns|
    ensures forall i :: 0 <= i < |ds| ==> ds[i] == DecimalString(ns[i])
  {
    if |ns| == 0 then [] else [DecimalString(ns[0])] + Decimals(ns[1..])
  }

  /** The pieces of a written region, split on `": "`, read back as its
      width, height and counts. */
  ghost predicate WrittenParts(parts: seq<string>, region: Region)
  {
    |parts| == 2 &&
    Split(parts[0], 'x') == [DecimalString(region.width), DecimalString(region.height)] &&
    ParseNat(DecimalString(region.width)) == Some(region.width) &&
    ParseNat(DecimalString(region.height)) == Some(region.height) &&
    Counts(SplitWhitespace(parts[1])) == region.counts
  }

  /** A written region splits into parts that read back as it. */
  lemma RegionLineParts(region: Region)
    ensures WrittenParts(SplitOn(RegionLine(region), ": "), region)
  {
    var w := DecimalString(region.width);
    var h := DecimalString(region.height);
    RegionParts(region);
    DigitsHaveNo(w, 'x');
    DigitsHaveNo(h, 'x');
    assert Join([w, h], 'x') == w + "x" + h;
    SplitJoin([w, h], 'x');
    ParseDecimal(region.width);
    ParseDecimal(region.height);
    CountsOfDecimals(region.counts);
  }

  /** A written region splits at its one `": "`. */
  lemma RegionParts(region: Region)
    ensures SplitOn(RegionLine(region), ": ") ==
            [DecimalString(region.width) + "x" + DecimalString(region.height),
             if |region.counts| == 0 then "" else Join(Decimals(region.counts), ' ')]
  {
    var w := DecimalString(region.width);
    var h := DecimalString(region.height);
    var tail := if |region.counts| == 0 then "" else Join(Decimals(region.counts), ' ');
    var dims := w + "x" + h;
    assert RegionLine(region) == dims + ": " + tail;
    assert ':' !in dims by {
      DigitsHaveNo(w, ':');
      DigitsHaveNo(h, ':');
    }
    assert ':' !in tail by {
      if |region.counts| > 0 {
        JoinHasNo(Decimals(region.counts), ' ', ':');
      }
    }
    SplitOnFirst(dims, tail, ": ");
    SplitOnPlain(tail, ": ");
  }

  /** The words of the written counts read back as the counts. */
  lemma {:induction false} CountsOfDecimals(ns: seq<nat>)
    ensures Counts(SplitWhitespace(if |ns| == 0 then "" else Join(Decimals(ns), ' '))) == ns
  {
    if |ns| > 0 {
      var ds := Decimals(ns);
      forall i | 0 <= i < |ds|
        ensures IsWord(ds[i])
      {
        DigitsHaveNoSpace(ds[i]);
      }
      SplitWhitespaceJoin(ds);
      DecimalsCount(ns);
    }
  }

  lemma {:induction false} DecimalsCount(ns: seq<nat>)
    ensures Counts(Decimals(ns)) == ns
  {
    if |ns| > 0 {
      ParseDecimal(ns[0]);
      assert Decimals(ns)[1..] == Decimals(ns[1..]);
      DecimalsCount(ns[1..]);
      assert [ns[0]] + ns[1..] == ns;
    }
  }

  lemma DigitsHaveNo(s: string, c: char)
    requires AllDigits(s) && !IsDigit(c)
    ensures c !in s
  {
  }

  lemma DigitsHaveNoSpace(s: string)
    requires |s| > 0 && AllDigits(s)
    ensures IsWord(s)
  {
    forall k | 0 <= k < |s|
      ensures !IsWhitespace(s[k])
    {
      assert IsDigit(s[k]);
    }
  }

  lemma {:induction false} JoinHasNo(ds: seq<string>, sep: char, c: char)
    requires |ds| >= 1 && sep != c
    requires forall i :: 0 <= i < |ds| ==> AllDigits(ds[i])
    requires !IsDigit(c)
    ensures c !in Join(ds, sep)
  {
    DigitsHaveNo(ds[0], c);
    if |ds| > 1 {
      JoinHasNo(ds[1..], sep, c);
    }
  }

  /** The whole puzzle: the shapes, then the regions from the first region line on. */
  function Puzzle(input: string): (puzzle: (seq<Shape>, seq<Region>))
  {
    var lines := Lines(input);
    var (shapes, start) := ShapeSection(lines, 0);
    (shapes, RegionSection(lines, start))
  }

  /** `parse_input`: one pass over the lines, shapes first, then regions. */
  method ParseInput(input: string) returns (shapes: seq<Shape>, regions: seq<Region>)
    ensures (shapes, regions) == Puzzle(input)
  {
    var lines := Lines(input);
    var start;
    shapes, start := ParseShapes(lines);
    regions := ParseRegions(lines, start);
  }

  /** The first loop of `parse_input`: shapes up to the first region line. */
  method ParseShapes(lines: seq<string>) returns (shapes: seq<Shape>, i: nat)
    ensures (shapes, i) == ShapeSection(lines, 0)
  {
    shapes := [];
    i := 0;
    assert shapes + ShapeSection(lines, 0).0 == ShapeSection(lines, 0).0;
    while i < |lines|
      invariant 0 <= i <= |lines|
      invariant ShapeSection(lines, 0).0 == shapes + ShapeSection(lines, i).0
      invariant ShapeSection(lines, 0).1 == ShapeSection(lines, i).1
      decreases |lines| - i
    {
      var line := lines[i];
      if IsRegionLine(line) {
        StopStep(lines, i);
        break;
      }
      if EndsWith(line, ':') {
        var shape, next := ReadShape(lines, i);
        ghost var rest := ShapeSection(lines, next).0;
        assert shapes + ([shape] + rest) == (shapes + [shape]) + rest;
        shapes := shapes + [shape];
        i := next;
      } else {
        SkipStep(lines, i);
        i := i + 1;
      }
    }
    StopStep(lines, i);
    assert shapes + [] == shapes;
  }

  /** A header line and the picture after it: one shape. */
  method ReadShape(lines: seq<string>, i: nat) returns (shape: Shape, next: nat)
    requires i < |lines| && !IsRegionLine(lines[i]) && EndsWith(lines[i], ':')
    ensures i < next <= |lines|
    ensures ShapeSection(lines, i) == ([shape] + ShapeSection(lines, next).0, ShapeSection(lines, next).1)
  {
    var shapeLines;
    shapeLines, next := Picture(lines, i + 1);
    shape := NewShape(shapeLines);
    HeaderStep(lines, i);
  }

  /** The inner loop of `parse_input`: a shape's picture runs up to the next
      empty line or header. */
  method Picture(lines: seq<string>, start: nat) returns (picture: seq<string>, i: nat)
    requires start <= |lines|
    ensures i == BlockEnd(lines, start) && picture == lines[start..i]
  {
    i := start;
    picture := [];
    while i < |lines| && lines[i] != "" && !EndsWith(lines[i], ':')
      invariant start <= i <= |lines|
      invariant picture == lines[start..i]
      invariant BlockEnd(lines, i) == BlockEnd(lines, start)
    {
      picture := picture + [lines[i]];
      i := i + 1;
    }
  }

  /** The second loop of `parse_input`: the regions from line `start` on. */
  method ParseRegions(lines: seq<string>, start: nat) returns (regions: seq<Region>)
    requires start <= |lines|
    ensures regions == RegionSection(lines, start)
  {
    regions := [];
    var i := start;
    assert regions + RegionSection(lines, i) == RegionSection(lines, start);
    while i < |lines|
      invariant start <= i <= |lines|
      invariant RegionSection(lines, start) == regions + RegionSection(lines, i)
    {
      var line := lines[i];
      if line == "" {
        i := i + 1;
        continue;
      }
      var region := RegionOf(line);
      if region.Some? {
        regions := regions + [region.value];
      }
      i := i + 1;
    }
    assert regions + [] == regions;
  }

  // ---------------------------------------------------------------------------
  // Part 1

  /** How many of the answers are positive. */
  function CountTrue(answers: seq<bool>): (n: nat)
    ensures n <= |answers|
  {
    if |answers| == 0 then 0 else CountTrue(answers[..|answers| - 1]) + (if answers[|answers| - 1] then 1 else 0)
  }

  /** Every region names no more shapes than the puzzle has, as indexing the
      shapes by a region's counts requires. */
  predicate CountsInRange(shapes: seq<Shape>, regions: seq<Region>)
  {
    forall i :: 0 <= i < |regions| ==> |regions[i].counts| <= |shapes|
  }

  /** The region can hold its presents. */
  ghost predicate Holds(shapes: seq<Shape>, region: Region)
    requires |region.counts| <= |shapes|
  {
    exists placed :: Packs(OrientationsOf(shapes), Expand(region.counts), Rect(region.height, region.width), placed)
  }

  /** The search may report success: the cells suffice and a packing exists. */
  ghost predicate Feasible(shapes: seq<Shape>, region: Region)
    requires |region.counts| <= |shapes|
  {
    TotalCells(shapes, region.counts) <= region.width * region.height && Holds(shapes, region)
  }

  /** The region's area is at least the cells its presents need. */
  predicate Roomy(shapes: seq<Shape>, region: Region)
    requires |region.counts| <= |shapes|
  {
    TotalCells(shapes, region.counts) <= region.width * region.height
  }

  /** How many regions are roomy. */
  function RoomyRegions(shapes: seq<Shape>, regions: seq<Region>): (n: nat)
    requires CountsInRange(shapes, regions)
    ensures n <= |regions|
  {
    if |regions| == 0 then 0
    else
      var init := regions[..|regions| - 1];
      assert CountsInRange(shapes, init) by {
        forall i | 0 <= i < |init|
          ensures |init[i].counts| <= |shapes|
        {
          assert init[i] == regions[i];
        }
      }
      RoomyRegions(shapes, init) + (if Roomy(shapes, regions[|regions| - 1]) then 1 else 0)
  }

  /** One more region adds one to the roomy count when it is roomy. */
  lemma RoomyStep(shapes: seq<Shape>, regions: seq<Region>, i: nat)
    requires i < |regions| && CountsInRange(shapes, regions)
    ensures CountsInRange(shapes, regions[..i]) && CountsInRange(shapes, regions[..i + 1])
    ensures RoomyRegions(shapes, regions[..i + 1]) ==
            RoomyRegions(shapes, regions[..i]) + (if Roomy(shapes, regions[i]) then 1 else 0)
  {
    assert regions[..i + 1][..i] == regions[..i];
  }

  /** One more answer adds one to the count when it is true. */
  lemma CountTrueStep(answers: seq<bool>, b: bool)
    ensures CountTrue(answers + [b]) == CountTrue(answers) + (if b then 1 else 0)
  {
    assert (answers + [b])[..|answers|] == answers;
  }

  /** `solve_part1` as written: since `can_fit_region` as written accepts
      exactly the regions that pass its size check, the answer is the number
      of roomy regions. */
  method SolvePart1AsWritten(input: string) returns (count: nat)
    requires CountsInRange(Puzzle(input).0, Puzzle(input).1)
    ensures count == RoomyRegions(Puzzle(input).0, Puzzle(input).1)
  {
    var shapes, regions := ParseInput(input);
    count := CountRoomy(shapes, regions);
  }

  /** The loop of `solve_part1` as written, over the parsed regions. */
  method CountRoomy(shapes: seq<Shape>, regions: seq<Region>) returns (count: nat)
    requires CountsInRange(shapes, regions)
    ensures count == RoomyRegions(shapes, regions)
  {
    count := 0;
    var i := 0;
    while i < |regions|
      invariant 0 <= i <= |regions|
      invariant CountsInRange(shapes, regions[..i])
      invariant count == RoomyRegions(shapes, regions[..i])
    {
      var region := regions[i];
      var fits := CanFitRegionAsWritten(shapes, region.width, region.height, region.counts);
      RoomyStep(shapes, regions, i);
      if fits {
        count := count + 1;
      }
      i := i + 1;
    }
    assert regions[..i] == regions;
  }

  /** The call of `can_fit_region` for one region, with the corrected search. */
  method FitsRegion(shapes: seq<Shape>, region: Region) returns (fits: bool)
    requires |region.counts| <= |shapes|
    ensures fits ==> Feasible(shapes, region)
  {
    ghost var placed;
    fits, placed := CanFitRegion(shapes, region.width, region.height, region.counts);
  }

  /** `solve_part1`: the number of regions for which the search succeeds;
      each success is a real packing and no region with too few cells counts. */
  method SolvePart1(input: string) returns (count: nat, ghost answers: seq<bool>)
    requires CountsInRange(Puzzle(input).0, Puzzle(input).1)
    ensures |answers| == |Puzzle(input).1| && count == CountTrue(answers)
    ensures forall i :: 0 <= i < |answers| && answers[i] ==> Feasible(Puzzle(input).0, Puzzle(input).1[i])
    ensures count <= RoomyRegions(Puzzle(input).0, Puzzle(input).1)
  {
    var shapes, regions := ParseInput(input);
    count, answers := CountFitting(shapes, regions);
  }

  /** The loop of `solve_part1` over the parsed regions, with the corrected
      search: the answer of each region, and how many are true. */
  method CountFitting(shapes: seq<Shape>, regions: seq<Region>) returns (count: nat, ghost answers: seq<bool>)
    requires CountsInRange(shapes, regions)
    ensures |answers| == |regions| && count == CountTrue(answers)
    ensures forall i :: 0 <= i < |answers| && answers[i] ==> Feasible(shapes, regions[i])
    ensures count <= RoomyRegions(shapes, regions)
  {
    count := 0;
    answers := [];
    var i := 0;
    while i < |regions|
      invariant 0 <= i <= |regions|
      invariant |answers| == i && count == CountTrue(answers)
      invariant forall k :: 0 <= k < i && answers[k] ==> Feasible(shapes, regions[k])
      invariant CountsInRange(shapes, regions[..i])
      invariant count <= RoomyRegions(shapes, regions[..i])
    {
      var region := regions[i];
      var fits := FitsRegion(shapes, region);
      RoomyStep(shapes, regions, i);
      CountTrueStep(answers, fits);
      if fits {
        count := count + 1;
      }
      answers := answers + [fits];
      i := i + 1;
    }
    assert regions[..i] == regions;
  }
}

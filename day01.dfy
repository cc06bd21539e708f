/** The safe dial of src/day01.rs: a dial numbered 0..99 starts at 50 and is
    turned by rotations such as `L68` or `R48`. Part 1 counts the rotations
    that leave the dial at 0; part 2 counts every click that passes 0, with a
    closed formula per rotation, which is proved here to agree with turning the
    dial one click at a time. */
module Day01 {
  import opened Common
  import opened Text

  datatype Direction = Right | Left

  datatype Rotation = Rotation(dir: Direction, dist: int)

  const START: int := 50
  const DIAL: int := 100

  // ---------------------------------------------------------------------------
  // Reading the rotations

  /** One line: blank after trimming is no rotation; otherwise the first
      character is the direction and the rest a signed 32-bit distance. The
      distance is read before the direction is checked. */
  function RotationOf(line: string): (r: Result<Option<Rotation>>)
    ensures r.Ok? && r.value.Some? ==> |Trim(line)| > 1 && Trim(line)[0] in {'R', 'L'}
  {
    var t := Trim(line);
    if |t| == 0 then Ok(None)
    else
      match ParseInt(t[1..])
      case None => Err("Failed to parse distance")
      case Some(d) =>
        if t[0] == 'R' then Ok(Some(Rotation(Right, d)))
        else if t[0] == 'L' then Ok(Some(Rotation(Left, d)))
        else Err("Unknown direction")
  }

  /** The rotations of all lines in order, or the error of the first bad line. */
  function RotationsOf(lines: seq<string>): (r: Result<seq<Rotation>>)
    ensures r.Ok? ==> |r.value| <= |lines|
  {
    if |lines| == 0 then Ok([])
    else
      match RotationsOf(lines[..|lines| - 1])
      case Err(msg) => Err(msg)
      case Ok(rs) =>
        match RotationOf(lines[|lines| - 1])
        case Err(msg) => Err(msg)
        case Ok(None) => Ok(rs)
        case Ok(Some(rot)) => Ok(rs + [rot])
  }

  // ---------------------------------------------------------------------------
  // Part 1

  /** What the `while position < 0` loop leaves: a negative value is brought
      up into 0..99, a non-negative one is left alone. */
  function LeftWrap(x: int): (r: int)
    ensures x >= 0 ==> r == x
    ensures x < 0 ==> 0 <= r < DIAL && (r - x) % DIAL == 0
  {
    if x >= 0 then x else x % DIAL
  }

  /** The loop's invariant at its exit pins its result down to `LeftWrap`. */
  lemma LoopIsLeftWrap(x: int, p: int)
    requires p >= 0 && (p - x) % DIAL == 0
    requires x < 0 ==> p < DIAL
    requires x >= 0 ==> p == x
    ensures p == LeftWrap(x)
  {
    if x < 0 {
      var q := (p - x) / DIAL;
      assert p == x + q * DIAL;
      assert x == (x % DIAL) + (x / DIAL) * DIAL;
    }
  }

  /** Part 1's move: `R` takes Rust's truncating remainder, `L` subtracts
      and wraps negative positions. */
  function Move1(p: int, rot: Rotation): int
  {
    match rot.dir
    case Right => TruncRem(p + rot.dist, DIAL)
    case Left => LeftWrap(p - rot.dist)
  }

  /** The position after all of `rs`, from the start. */
  function Position1(rs: seq<Rotation>): int
  {
    if |rs| == 0 then START else Move1(Position1(rs[..|rs| - 1]), rs[|rs| - 1])
  }

  /** The number of rotations after which the dial reads 0. */
  function Part1Count(rs: seq<Rotation>): (n: nat)
    ensures n <= |rs|
  {
    if |rs| == 0 then 0
    else Part1Count(rs[..|rs| - 1]) + (if Position1(rs) == 0 then 1 else 0)
  }

  predicate NonNegative(rs: seq<Rotation>)
  {
    forall i :: 0 <= i < |rs| ==> rs[i].dist >= 0
  }

  /** With non-negative distances the dial never leaves 0..99. */
  lemma {:induction false} Position1InRange(rs: seq<Rotation>)
    requires NonNegative(rs)
    ensures 0 <= Position1(rs) < DIAL
  {
    if |rs| > 0 {
      Position1InRange(rs[..|rs| - 1]);
      var p := Position1(rs[..|rs| - 1]);
      var rot := rs[|rs| - 1];
      if rot.dir == Right {
        TruncAgreesWhenExact(p + rot.dist, DIAL);
        TruncRemSign(p + rot.dist, DIAL);
      }
    }
  }

  /** `part1`: the rotations are read and applied line by line. */
  method Part1(input: string) returns (r: Result<nat>)
    ensures r == match RotationsOf(Lines(input))
                 case Err(msg) => Err(msg)
                 case Ok(rs) => Ok(Part1Count(rs))
  {
    var lines := Lines(input);
    var position := START;
    var zeroCount := 0;
    ghost var rs: seq<Rotation> := [];
    var k := 0;
    while k < |lines|
      invariant 0 <= k <= |lines|
      invariant RotationsOf(lines[..k]) == Ok(rs)
      invariant position == Position1(rs) && zeroCount == Part1Count(rs)
    {
      RotationsStep(lines, k);
      match RotationOf(lines[k]) {
        case Err(msg) =>
          RotationsStop(lines, k + 1);
          return Err(msg);
        case Ok(None) =>
        case Ok(Some(rot)) =>
          position := Rotate(position, rot);
          PositionStep(rs, rot);
          rs := rs + [rot];
          if position == 0 {
            zeroCount := zeroCount + 1;
          }
      }
      k := k + 1;
    }
    assert lines[..k] == lines;
    return Ok(zeroCount);
  }

  /** One rotation as `part1` applies it: a right turn by remainder, a left
      turn by adding full turns while the position is negative. */
  method Rotate(position: int, rot: Rotation) returns (p: int)
    ensures p == Move1(position, rot)
  {
    if rot.dir == Right {
      p := TruncRem(position + rot.dist, DIAL);
    } else {
      p := position - rot.dist;
      ghost var x := p;
      while p < 0
        invariant (p - x) % DIAL == 0
        invariant x < 0 ==> p < DIAL
        invariant x >= 0 ==> p == x
        decreases -p
      {
        p := p + DIAL;
      }
      LoopIsLeftWrap(x, p);
    }
  }

  lemma RotationsStep(lines: seq<string>, k: nat)
    requires k < |lines|
    ensures RotationsOf(lines[..k + 1]) ==
            match RotationsOf(lines[..k])
            case Err(msg) => Err(msg)
            case Ok(rs) =>
              match RotationOf(lines[k])
              case Err(msg) => Err(msg)
              case Ok(None) => Ok(rs)
              case Ok(Some(rot)) => Ok(rs + [rot])
  {
    assert lines[..k + 1][..k] == lines[..k];
  }

  lemma PositionStep(rs: seq<Rotation>, rot: Rotation)
    ensures Position1(rs + [rot]) == Move1(Position1(rs), rot)
    ensures Part1Count(rs + [rot]) == Part1Count(rs) + (if Move1(Position1(rs), rot) == 0 then 1 else 0)
  {
    assert (rs + [rot])[..|rs|] == rs;
  }

  /** Once a prefix of the lines is an error, so is every longer prefix. */
  lemma {:induction false} RotationsStop(lines: seq<string>, k: nat)
    requires k <= |lines| && RotationsOf(lines[..k]).Err?
    ensures RotationsOf(lines) == RotationsOf(lines[..k])
    decreases |lines| - k
  {
    if k < |lines| {
      RotationsStep(lines, k);
      RotationsStop(lines, k + 1);
    } else {
      assert lines[..k] == lines;
    }
  }

  // ---------------------------------------------------------------------------
  // Part 2: the closed formula

  /** How many clicks from `p` reach 0 for the first time. */
  function FirstZero(p: int, dir: Direction): int
  {
    if p == 0 then DIAL
    else if dir == Right then DIAL - p
    else p
  }

  /** Part 2's count for one rotation, as `part2` computes it. */
  function Zeros2(p: int, rot: Rotation): nat
  {
    var first := FirstZero(p, rot.dir);
    if rot.dist >= first then 1 + TruncDiv(rot.dist - first, DIAL) else 0
  }

  /** Part 2's end position: Rust's remainder, lifted into 0..99 for `L`. */
  function Move2(p: int, rot: Rotation): int
  {
    match rot.dir
    case Right => TruncRem(p + rot.dist, DIAL)
    case Left => TruncRem(TruncRem(p - rot.dist, DIAL) + DIAL, DIAL)
  }

  function Position2(rs: seq<Rotation>): int
  {
    if |rs| == 0 then START else Move2(Position2(rs[..|rs| - 1]), rs[|rs| - 1])
  }

  function Part2Count(rs: seq<Rotation>): nat
  {
    if |rs| == 0 then 0
    else Part2Count(rs[..|rs| - 1]) + Zeros2(Position2(rs[..|rs| - 1]), rs[|rs| - 1])
  }

  /** `part2`: the same reading loop, with the closed formula per rotation. */
  method Part2(input: string) returns (r: Result<nat>)
    ensures r == match RotationsOf(Lines(input))
                 case Err(msg) => Err(msg)
                 case Ok(rs) => Ok(Part2Count(rs))
  {
    var lines := Lines(input);
    var position := START;
    var zeroCount := 0;
    ghost var rs: seq<Rotation> := [];
    var k := 0;
    while k < |lines|
      invariant 0 <= k <= |lines|
      invariant RotationsOf(lines[..k]) == Ok(rs)
      invariant position == Position2(rs) && zeroCount == Part2Count(rs)
    {
      RotationsStep(lines, k);
      match RotationOf(lines[k]) {
        case Err(msg) =>
          RotationsStop(lines, k + 1);
          return Err(msg);
        case Ok(None) =>
        case Ok(Some(rot)) =>
          var zeros;
          position, zeros := Turn(position, rot);
          zeroCount := zeroCount + zeros;
          Position2Step(rs, rot);
          rs := rs + [rot];
      }
      k := k + 1;
    }
    assert lines[..k] == lines;
    return Ok(zeroCount);
  }

  /** The body of `part2`'s loop for one rotation: the clicks through 0 and
      the new position. */
  method Turn(position: int, rot: Rotation) returns (end: int, zeros: nat)
    ensures end == Move2(position, rot) && zeros == Zeros2(position, rot)
  {
    var distance := rot.dist;
    zeros := 0;
    if rot.dir == Right {
      end := TruncRem(position + distance, DIAL);
      var firstZero := if position == 0 then DIAL else DIAL - position;
      if distance >= firstZero {
        zeros := 1 + TruncDiv(distance - firstZero, DIAL);
      }
    } else {
      var firstZero := if position == 0 then DIAL else position;
      if distance >= firstZero {
        zeros := 1 + TruncDiv(distance - firstZero, DIAL);
      }
      end := TruncRem(TruncRem(position - distance, DIAL) + DIAL, DIAL);
    }
  }

  lemma Position2Step(rs: seq<Rotation>, rot: Rotation)
    ensures Position2(rs + [rot]) == Move2(Position2(rs), rot)
    ensures Part2Count(rs + [rot]) == Part2Count(rs) + Zeros2(Position2(rs), rot)
  {
    assert (rs + [rot])[..|rs|] == rs;
  }

  // ---------------------------------------------------------------------------
  // Part 2: the dial turned one click at a time

  /** One click of the dial. */
  function Click(p: int, dir: Direction): int
  {
    if dir == Right then (p + 1) % DIAL else (p - 1) % DIAL
  }

  /** The number of clicks among the first `d` that leave the dial at 0. */
  function WalkZeros(p: int, dir: Direction, d: int): nat
    decreases d
  {
    if d <= 0 then 0
    else
      var q := Click(p, dir);
      (if q == 0 then 1 else 0) + WalkZeros(q, dir, d - 1)
  }

  /** Where the dial stands after `d` clicks. */
  function WalkEnd(p: int, dir: Direction, d: int): int
    decreases d
  {
    if d <= 0 then p else WalkEnd(Click(p, dir), dir, d - 1)
  }

  function WalkPosition(rs: seq<Rotation>): int
  {
    if |rs| == 0 then START
    else WalkEnd(WalkPosition(rs[..|rs| - 1]), rs[|rs| - 1].dir, rs[|rs| - 1].dist)
  }

  /** Every click that passes 0, over all rotations. */
  function WalkCount(rs: seq<Rotation>): nat
  {
    if |rs| == 0 then 0
    else
      var last := rs[|rs| - 1];
      WalkCount(rs[..|rs| - 1]) + WalkZeros(WalkPosition(rs[..|rs| - 1]), last.dir, last.dist)
  }

  lemma ModShift(a: int, b: int)
    ensures (a % DIAL + b) % DIAL == (a + b) % DIAL
  {
    var q := a / DIAL;
    assert a == a % DIAL + q * DIAL;
    assert a + b == (a % DIAL + b) + q * DIAL;
  }

  /** The walk ends where Dafny's (floored) remainder says. */
  lemma {:induction false} WalkEndIsRemainder(p: int, dir: Direction, d: int)
    requires 0 <= p < DIAL && d >= 0
    ensures WalkEnd(p, dir, d) == (if dir == Right then (p + d) % DIAL else (p - d) % DIAL)
    decreases d
  {
    if d > 0 {
      WalkEndIsRemainder(Click(p, dir), dir, d - 1);
      if dir == Right {
        ModShift(p + 1, d - 1);
      } else {
        ModShift(p - 1, -(d - 1));
      }
    }
  }

  /** Part 2's `L` position formula is the floored remainder. */
  lemma LeftLift(x: int)
    ensures TruncRem(TruncRem(x, DIAL) + DIAL, DIAL) == x % DIAL
  {
    TruncRemSign(x, DIAL);
    var t := TruncRem(x, DIAL);
    TruncRemSign(t + DIAL, DIAL);
    assert x == t + DIAL * TruncDiv(x, DIAL);
    ModShift(t + DIAL, DIAL * TruncDiv(x, DIAL) - DIAL);
  }

  /** The closed formula obeys the same one-click recurrence as the walk. */
  lemma ZerosStep(p: int, dir: Direction, d: int)
    requires 0 <= p < DIAL && d >= 1
    ensures Zeros2(p, Rotation(dir, d))
            == (if Click(p, dir) == 0 then 1 else 0) + Zeros2(Click(p, dir), Rotation(dir, d - 1))
  {
    var q := Click(p, dir);
    if q == 0 {
      assert FirstZero(p, dir) == 1;
      assert FirstZero(q, dir) == DIAL;
    } else {
      assert 0 < q < DIAL;
      assert FirstZero(q, dir) == FirstZero(p, dir) - 1;
    }
  }

  /** For a dial position in 0..99 and a non-negative distance, `part2`'s
      formula counts exactly the clicks that reach 0 and ends where the walk
      ends. */
  lemma {:induction false} ZerosAreClicks(p: int, dir: Direction, d: int)
    requires 0 <= p < DIAL && d >= 0
    ensures Zeros2(p, Rotation(dir, d)) == WalkZeros(p, dir, d)
    ensures Move2(p, Rotation(dir, d)) == WalkEnd(p, dir, d)
    decreases d
  {
    if d > 0 {
      ZerosStep(p, dir, d);
      ZerosAreClicks(Click(p, dir), dir, d - 1);
    }
    WalkEndIsRemainder(p, dir, d);
    if dir == Left {
      LeftLift(p - d);
    }
  }

  /** Over a whole input with non-negative distances, `part2` counts every
      click that passes 0 and stays in 0..99. */
  lemma {:induction false} Part2CountsClicks(rs: seq<Rotation>)
    requires NonNegative(rs)
    ensures Part2Count(rs) == WalkCount(rs)
    ensures Position2(rs) == WalkPosition(rs)
    ensures 0 <= Position2(rs) < DIAL
  {
    if |rs| > 0 {
      var prefix := rs[..|rs| - 1];
      var last := rs[|rs| - 1];
      Part2CountsClicks(prefix);
      ZerosAreClicks(Position2(prefix), last.dir, last.dist);
      WalkEndIsRemainder(Position2(prefix), last.dir, last.dist);
    }
  }

  /** With non-negative distances both parts leave the dial at the same
      position after every rotation. */
  lemma {:induction false} PartsAgreeOnPosition(rs: seq<Rotation>)
    requires NonNegative(rs)
    ensures Position1(rs) == Position2(rs)
  {
    if |rs| > 0 {
      var prefix := rs[..|rs| - 1];
      var last := rs[|rs| - 1];
      PartsAgreeOnPosition(prefix);
      Part2CountsClicks(prefix);
      MovesAgree(Position2(prefix), last);
    }
  }

  /** From a position in 0..99, one rotation by a non-negative distance
      lands both parts on the same position. */
  lemma MovesAgree(p: int, rot: Rotation)
    requires 0 <= p < DIAL && rot.dist >= 0
    ensures Move1(p, rot) == Move2(p, rot)
  {
    if rot.dir == Left {
      LeftLift(p - rot.dist);
    }
  }

  /** A walk of at least one click that ends on 0 passes 0 at least once. */
  lemma {:induction false} LandingIsAClick(p: int, dir: Direction, d: int)
    requires d >= 1 && WalkEnd(p, dir, d) == 0
    ensures WalkZeros(p, dir, d) >= 1
    decreases d
  {
    if d > 1 {
      LandingIsAClick(Click(p, dir), dir, d - 1);
    }
  }

  /** When every rotation moves the dial, part 2's answer is at least part 1's. */
  lemma {:induction false} Part1AtMostPart2(rs: seq<Rotation>)
    requires forall i :: 0 <= i < |rs| ==> rs[i].dist >= 1
    ensures Part1Count(rs) <= Part2Count(rs)
  {
    if |rs| > 0 {
      var prefix := rs[..|rs| - 1];
      var last := rs[|rs| - 1];
      Part1AtMostPart2(prefix);
      PartsAgreeOnPosition(rs);
      Part2CountsClicks(rs);
      Part2CountsClicks(prefix);
      ZerosAreClicks(Position2(prefix), last.dir, last.dist);
      if Position1(rs) == 0 {
        LandingIsAClick(Position2(prefix), last.dir, last.dist);
      }
    }
  }

  // ---------------------------------------------------------------------------
  // The examples of the tests

  function Example(): seq<Rotation>
  {
    [Rotation(Left, 68), Rotation(Left, 30), Rotation(Right, 48), Rotation(Left, 5),
     Rotation(Right, 60), Rotation(Left, 55), Rotation(Left, 1), Rotation(Left, 99),
     Rotation(Right, 14), Rotation(Left, 82)]
  }

  /** The ten-rotation example passes 0 six times and lands there three
      times. */
  lemma ExampleCounts()
    ensures Part2Count(Example()) == 6
    ensures Part1Count(Example()) == 3
  {
    var rs: seq<Rotation> := [Rotation(Left, 68), Rotation(Left, 30), Rotation(Right, 48), Rotation(Left, 5),
                              Rotation(Right, 60), Rotation(Left, 55), Rotation(Left, 1), Rotation(Left, 99)];
    ExampleEightSteps();
    ExampleStep(rs, Rotation(Right, 14), 0, 3, 5);
    rs := rs + [Rotation(Right, 14)];
    ExampleStep(rs, Rotation(Left, 82), 14, 3, 5);
    rs := rs + [Rotation(Left, 82)];
    assert rs == Example();
  }

  lemma ExampleEightSteps()
    ensures var rs := [Rotation(Left, 68), Rotation(Left, 30), Rotation(Right, 48), Rotation(Left, 5),
                       Rotation(Right, 60), Rotation(Left, 55), Rotation(Left, 1), Rotation(Left, 99)];
            Position1(rs) == 0 && Position2(rs) == 0 && Part1Count(rs) == 3 && Part2Count(rs) == 5
  {
    var rs: seq<Rotation> := [Rotation(Left, 68), Rotation(Left, 30), Rotation(Right, 48), Rotation(Left, 5), Rotation(Right, 60)];
    ExampleFirstHalf();
    ExampleStep(rs, Rotation(Left, 55), 55, 1, 3);
    rs := rs + [Rotation(Left, 55)];
    ExampleStep(rs, Rotation(Left, 1), 0, 2, 4);
    rs := rs + [Rotation(Left, 1)];
    ExampleStep(rs, Rotation(Left, 99), 99, 2, 4);
    rs := rs + [Rotation(Left, 99)];
    assert rs == [Rotation(Left, 68), Rotation(Left, 30), Rotation(Right, 48), Rotation(Left, 5),
                  Rotation(Right, 60), Rotation(Left, 55), Rotation(Left, 1), Rotation(Left, 99)];
  }

  lemma ExampleFirstHalf()
    ensures var rs := [Rotation(Left, 68), Rotation(Left, 30), Rotation(Right, 48), Rotation(Left, 5), Rotation(Right, 60)];
            Position1(rs) == 55 && Position2(rs) == 55 && Part1Count(rs) == 1 && Part2Count(rs) == 3
  {
    var rs: seq<Rotation> := [];
    ExampleStep(rs, Rotation(Left, 68), 50, 0, 0);
    rs := rs + [Rotation(Left, 68)];
    ExampleStep(rs, Rotation(Left, 30), 82, 0, 1);
    rs := rs + [Rotation(Left, 30)];
    ExampleStep(rs, Rotation(Right, 48), 52, 0, 1);
    rs := rs + [Rotation(Right, 48)];
    ExampleStep(rs, Rotation(Left, 5), 0, 1, 2);
    rs := rs + [Rotation(Left, 5)];
    ExampleStep(rs, Rotation(Right, 60), 95, 1, 2);
    rs := rs + [Rotation(Right, 60)];
    assert rs == [Rotation(Left, 68), Rotation(Left, 30), Rotation(Right, 48), Rotation(Left, 5), Rotation(Right, 60)];
  }

  /** One rotation of the example, from a known state. */
  lemma ExampleStep(rs: seq<Rotation>, rot: Rotation, p: int, c1: nat, c2: nat)
    requires Position1(rs) == p && Position2(rs) == p
    requires Part1Count(rs) == c1 && Part2Count(rs) == c2
    ensures Position1(rs + [rot]) == Move1(p, rot) && Position2(rs + [rot]) == Move2(p, rot)
    ensures Part1Count(rs + [rot]) == c1 + (if Move1(p, rot) == 0 then 1 else 0)
    ensures Part2Count(rs + [rot]) == c2 + Zeros2(p, rot)
  {
    PositionStep(rs, rot);
    Position2Step(rs, rot);
  }

  /** `R1000` from 50 passes 0 ten times. */
  lemma LongTurn()
    ensures Part2Count([Rotation(Right, 1000)]) == 10
  {
    Position2Step([], Rotation(Right, 1000));
  }
}

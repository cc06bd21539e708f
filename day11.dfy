// Day 11: counting the paths through a network of devices. Each device
// lists the devices its outputs feed; part 1 counts the paths from `you` to
// `out`, part 2 those from `svr` to `out` that pass both `dac` and `fft`.
// Both counts recurse over the outputs and remember what they computed.

module Day11 {
  import opened Common
  import opened Text

  /** Each device and the devices its outputs lead to, in the listed order. */
  type Graph = map<string, seq<string>>

  // ---------------------------------------------------------------------------
  // parse_input

  /** One line `device: out1 out2 ...`; an empty line, or one that does not
      split into exactly two parts on `": "`, says nothing. The outputs are
      words, and a line written from a device and its outputs reads back as
      them. */
  function ParseLine(line: string): (entry: Option<(string, seq<string>)>)
    ensures entry.Some? ==> forall k :: 0 <= k < |entry.value.1| ==> IsWord(entry.value.1[k])
    ensures forall device, outputs :: WellNamed(device, outputs) && line == EntryLine(device, outputs) ==>
              entry == Some((device, outputs))
  {
    assert forall device, outputs :: WellNamed(device, outputs) && line == EntryLine(device, outputs) ==>
             |line| > 0 && EntryParts(line, device, outputs) by {
      forall device, outputs | WellNamed(device, outputs) && line == EntryLine(device, outputs)
        ensures |line| > 0 && EntryParts(line, device, outputs)
      {
        EntryLineParts(device, outputs);
      }
    }
    if |line| == 0 then None
    else
      var parts := SplitOn(line, ": ");
      if |parts| != 2 then None else Some((parts[0], SplitWhitespace(parts[1])))
  }

  /** The line the input has for `device` and its outputs. */
  function EntryLine(device: string, outputs: seq<string>): string
  {
    device + ": " + (if |outputs| == 0 then "" else Join(outputs, ' '))
  }

  /** Names as the input writes them: no `':'` in any, and the outputs words. */
  predicate WellNamed(device: string, outputs: seq<string>)
  {
    ':' !in device && forall k :: 0 <= k < |outputs| ==> IsWord(outputs[k]) && ':' !in outputs[k]
  }

  /** `line` splits on `": "` into `device` and the words `outputs`. */
  ghost predicate EntryParts(line: string, device: string, outputs: seq<string>)
  {
    var parts := SplitOn(line, ": ");
    |parts| == 2 && parts[0] == device && SplitWhitespace(parts[1]) == outputs
  }

  /** A written entry splits back into its device and its outputs. */
  lemma EntryLineParts(device: string, outputs: seq<string>)
    requires WellNamed(device, outputs)
    ensures |EntryLine(device, outputs)| > 0 && EntryParts(EntryLine(device, outputs), device, outputs)
  {
    var tail := if |outputs| == 0 then "" else Join(outputs, ' ');
    assert EntryLine(device, outputs) == device + ": " + tail;
    if |outputs| > 0 {
      JoinHasNoColon(outputs);
      SplitWhitespaceJoin(outputs);
    }
    SplitOnFirst(device, tail, ": ");
    SplitOnPlain(tail, ": ");
  }

  lemma {:induction false} JoinHasNoColon(words: seq<string>)
    requires |words| >= 1 && forall k :: 0 <= k < |words| ==> ':' !in words[k]
    ensures ':' !in Join(words, ' ')
  {
    if |words| > 1 {
      JoinHasNoColon(words[1..]);
    }
  }

  /** The line describes device `d`. */
  predicate Names(line: string, d: string)
  {
    ParseLine(line).Some? && ParseLine(line).value.0 == d
  }

  /** The graph the lines describe, a later line for a device replacing an
      earlier one. */
  function Build(lines: seq<string>): (graph: Graph)
    ensures forall d :: d in graph <==> exists i :: 0 <= i < |lines| && Names(lines[i], d)
  {
    if |lines| == 0 then map[]
    else
      var init := lines[..|lines| - 1];
      var graph := Build(init);
      assert forall i :: 0 <= i < |init| ==> init[i] == lines[i];
      match ParseLine(lines[|lines| - 1])
      case None => graph
      case Some((device, outputs)) => graph[device := outputs]
  }

  /** The outputs of a device are those on the last line that names it. */
  lemma {:induction false} LastLineWins(lines: seq<string>, i: nat)
    requires i < |lines| && ParseLine(lines[i]).Some?
    requires forall j :: i < j < |lines| ==> !Names(lines[j], ParseLine(lines[i]).value.0)
    ensures Build(lines)[ParseLine(lines[i]).value.0] == ParseLine(lines[i]).value.1
  {
    if i < |lines| - 1 {
      var init := lines[..|lines| - 1];
      assert init[i] == lines[i];
      assert forall j :: i < j < |init| ==> init[j] == lines[j];
      LastLineWins(init, i);
    }
  }

  /** `parse_input`. */
  method ParseInput(input: string) returns (graph: Graph)
    ensures graph == Build(Lines(input))
  {
    var lines := Lines(input);
    graph := map[];
    for k := 0 to |lines|
      invariant graph == Build(lines[..k])
    {
      assert lines[..k + 1][..k] == lines[..k];
      var line := lines[k];
      if |line| == 0 {
        continue;
      }
      var parts := SplitOn(line, ": ");
      if |parts| != 2 {
        continue;
      }
      graph := graph[parts[0] := SplitWhitespace(parts[1])];
    }
    assert lines[..|lines|] == lines;
  }

  // ---------------------------------------------------------------------------
  // Acyclicity

  /** `rank` strictly decreases along every output of every device other
      than the target, where the count stops. */
  ghost predicate Ranked(graph: Graph, target: string, rank: map<string, nat>)
  {
    forall u :: u in graph && u != target ==>
      u in rank && forall v :: v in graph[u] ==> v in rank && rank[v] < rank[u]
  }

  /** No path that has not yet reached the target comes back to a device. */
  ghost predicate Acyclic(graph: Graph, target: string)
  {
    exists rank :: Ranked(graph, target, rank)
  }

  ghost function Rank(graph: Graph, target: string): (rank: map<string, nat>)
    requires Acyclic(graph, target)
    ensures Ranked(graph, target, rank)
  {
    var rank :| Ranked(graph, target, rank); rank
  }

  /** How far a device is from the ends of the graph. */
  ghost function Height(graph: Graph, target: string, current: string): nat
    requires Acyclic(graph, target)
  {
    var rank := Rank(graph, target);
    if current in rank then rank[current] else 0
  }

  // ---------------------------------------------------------------------------
  // count_paths

  /** The number of paths from `current` that end on their first visit to
      `target`: 1 at the target, 0 at a device without outputs, and the
      sum over the outputs otherwise (a repeated output counts twice). */
  ghost function Paths(graph: Graph, target: string, current: string): nat
    requires Acyclic(graph, target)
    decreases Height(graph, target, current), 1
  {
    if current == target then 1
    else if current !in graph then 0
    else PathsVia(graph, target, graph[current], Height(graph, target, current))
  }

  /** The paths through each of `outputs`, all ranked below `bound`. */
  ghost function PathsVia(graph: Graph, target: string, outputs: seq<string>, bound: nat): nat
    requires Acyclic(graph, target)
    requires forall v :: v in outputs ==> Height(graph, target, v) < bound
    decreases bound, 0, |outputs|
  {
    if |outputs| == 0 then 0
    else
      PathsVia(graph, target, outputs[..|outputs| - 1], bound) +
      Paths(graph, target, outputs[|outputs| - 1])
  }

  /** Outputs of a device other than the target sit lower than it. */
  lemma OutputsBelow(graph: Graph, target: string, current: string)
    requires Acyclic(graph, target) && current in graph && current != target
    ensures forall v :: v in graph[current] ==> Height(graph, target, v) < Height(graph, target, current)
  {
  }

  /** Every remembered count is the count of paths. */
  ghost predicate Remembered(graph: Graph, target: string, visited: map<string, nat>)
    requires Acyclic(graph, target)
  {
    forall d :: d in visited ==> visited[d] == Paths(graph, target, d)
  }

  /** `count_paths`, which reads and extends the table `visited` of counts
      already known. */
  method CountPaths(graph: Graph, current: string, target: string, visited0: map<string, nat>)
    returns (count: nat, visited: map<string, nat>)
    requires Acyclic(graph, target) && Remembered(graph, target, visited0)
    ensures count == Paths(graph, target, current)
    ensures Remembered(graph, target, visited) && visited0.Keys <= visited.Keys
    ensures current != target && current in graph ==> current in visited
    decreases Height(graph, target, current)
  {
    if current in visited0 {
      return visited0[current], visited0;
    }
    if current == target {
      return 1, visited0;
    }
    if current !in graph {
      return 0, visited0;
    }
    var outputs := graph[current];
    OutputsBelow(graph, target, current);
    ghost var bound := Height(graph, target, current);
    visited := visited0;
    count := 0;
    for i := 0 to |outputs|
      invariant count == PathsVia(graph, target, outputs[..i], bound)
      invariant Remembered(graph, target, visited) && visited0.Keys <= visited.Keys
    {
      assert outputs[..i + 1][..i] == outputs[..i];
      var paths;
      paths, visited := CountPaths(graph, outputs[i], target, visited);
      count := count + paths;
    }
    assert outputs[..|outputs|] == outputs;
    visited := visited[current := count];
  }

  /** `solve_part1`: the paths from `you` to `out`. */
  method SolvePart1(input: string) returns (count: nat)
    requires Acyclic(Build(Lines(input)), "out")
    ensures count == Paths(Build(Lines(input)), "out", "you")
  {
    var graph := ParseInput(input);
    var visited;
    count, visited := CountPaths(graph, "you", "out", map[]);
  }

  // ---------------------------------------------------------------------------
  // count_paths_with_both

  /** The paths from `current` to `target` that pass `dac` and `fft`, given
      whether the path so far has passed them; the target itself counts. */
  ghost function PathsBoth(graph: Graph, target: string, current: string, dac: bool, fft: bool): nat
    requires Acyclic(graph, target)
    decreases Height(graph, target, current), 1
  {
    var dac' := dac || current == "dac";
    var fft' := fft || current == "fft";
    if current == target then (if dac' && fft' then 1 else 0)
    else if current !in graph then 0
    else PathsBothVia(graph, target, graph[current], dac', fft', Height(graph, target, current))
  }

  ghost function PathsBothVia(graph: Graph, target: string, outputs: seq<string>, dac: bool, fft: bool, bound: nat): nat
    requires Acyclic(graph, target)
    requires forall v :: v in outputs ==> Height(graph, target, v) < bound
    decreases bound, 0, |outputs|
  {
    if |outputs| == 0 then 0
    else
      PathsBothVia(graph, target, outputs[..|outputs| - 1], dac, fft, bound) +
      PathsBoth(graph, target, outputs[|outputs| - 1], dac, fft)
  }

  type Key = (string, bool, bool)

  ghost predicate RememberedBoth(graph: Graph, target: string, memo: map<Key, nat>)
    requires Acyclic(graph, target)
  {
    forall key :: key in memo ==> memo[key] == PathsBoth(graph, target, key.0, key.1, key.2)
  }

  /** `count_paths_with_both`, with its table keyed by device and flags. */
  method CountPathsWithBoth(graph: Graph, current: string, target: string, dac: bool, fft: bool, memo0: map<Key, nat>)
    returns (count: nat, memo: map<Key, nat>)
    requires Acyclic(graph, target) && RememberedBoth(graph, target, memo0)
    ensures count == PathsBoth(graph, target, current, dac, fft)
    ensures RememberedBoth(graph, target, memo) && memo0.Keys <= memo.Keys
    ensures current != target && current in graph ==> (current, dac, fft) in memo
    decreases Height(graph, target, current)
  {
    var key := (current, dac, fft);
    if key in memo0 {
      return memo0[key], memo0;
    }
    var newDac := dac || current == "dac";
    var newFft := fft || current == "fft";
    if current == target {
      return if newDac && newFft then 1 else 0, memo0;
    }
    if current !in graph {
      return 0, memo0;
    }
    var outputs := graph[current];
    OutputsBelow(graph, target, current);
    ghost var bound := Height(graph, target, current);
    memo := memo0;
    count := 0;
    for i := 0 to |outputs|
      invariant count == PathsBothVia(graph, target, outputs[..i], newDac, newFft, bound)
      invariant RememberedBoth(graph, target, memo) && memo0.Keys <= memo.Keys
    {
      assert outputs[..i + 1][..i] == outputs[..i];
      var paths;
      paths, memo := CountPathsWithBoth(graph, outputs[i], target, newDac, newFft, memo);
      count := count + paths;
    }
    assert outputs[..|outputs|] == outputs;
    memo := memo[key := count];
  }

  /** `solve_part2`: the paths from `svr` to `out` through `dac` and `fft`. */
  method SolvePart2(input: string) returns (count: nat)
    requires Acyclic(Build(Lines(input)), "out")
    ensures count == PathsBoth(Build(Lines(input)), "out", "svr", false, false)
  {
    var graph := ParseInput(input);
    var memo;
    count, memo := CountPathsWithBoth(graph, "svr", "out", false, false, map[]);
  }

  // ---------------------------------------------------------------------------
  // How the two counts relate

  /** Requiring `dac` and `fft` only drops paths, and once both have been
      passed no path is dropped. */
  lemma {:induction false} BothAtMostAll(graph: Graph, target: string, current: string, dac: bool, fft: bool)
    requires Acyclic(graph, target)
    ensures PathsBoth(graph, target, current, dac, fft) <= Paths(graph, target, current)
    ensures dac && fft ==> PathsBoth(graph, target, current, dac, fft) == Paths(graph, target, current)
    decreases Height(graph, target, current), 1
  {
    if current != target && current in graph {
      OutputsBelow(graph, target, current);
      BothAtMostAllVia(graph, target, graph[current], dac || current == "dac", fft || current == "fft",
        Height(graph, target, current));
    }
  }

  lemma {:induction false} BothAtMostAllVia(graph: Graph, target: string, outputs: seq<string>, dac: bool, fft: bool, bound: nat)
    requires Acyclic(graph, target)
    requires forall v :: v in outputs ==> Height(graph, target, v) < bound
    ensures PathsBothVia(graph, target, outputs, dac, fft, bound) <= PathsVia(graph, target, outputs, bound)
    ensures dac && fft ==> PathsBothVia(graph, target, outputs, dac, fft, bound) == PathsVia(graph, target, outputs, bound)
    decreases bound, 0, |outputs|
  {
    if |outputs| > 0 {
      BothAtMostAllVia(graph, target, outputs[..|outputs| - 1], dac, fft, bound);
      BothAtMostAll(graph, target, outputs[|outputs| - 1], dac, fft);
    }
  }

  /** A path that has passed more of `dac` and `fft` so far can only gain:
      the flags only ever turn on. */
  lemma {:induction false} FlagsMonotone(graph: Graph, target: string, current: string, dac: bool, fft: bool, dac2: bool, fft2: bool)
    requires Acyclic(graph, target)
    requires (dac ==> dac2) && (fft ==> fft2)
    ensures PathsBoth(graph, target, current, dac, fft) <= PathsBoth(graph, target, current, dac2, fft2)
    decreases Height(graph, target, current), 1
  {
    if current != target && current in graph {
      OutputsBelow(graph, target, current);
      FlagsMonotoneVia(graph, target, graph[current], dac || current == "dac", fft || current == "fft",
        dac2 || current == "dac", fft2 || current == "fft", Height(graph, target, current));
    }
  }

  lemma {:induction false} FlagsMonotoneVia(graph: Graph, target: string, outputs: seq<string>, dac: bool, fft: bool, dac2: bool, fft2: bool, bound: nat)
    requires Acyclic(graph, target)
    requires forall v :: v in outputs ==> Height(graph, target, v) < bound
    requires (dac ==> dac2) && (fft ==> fft2)
    ensures PathsBothVia(graph, target, outputs, dac, fft, bound) <= PathsBothVia(graph, target, outputs, dac2, fft2, bound)
    decreases bound, 0, |outputs|
  {
    if |outputs| > 0 {
      FlagsMonotoneVia(graph, target, outputs[..|outputs| - 1], dac, fft, dac2, fft2, bound);
      FlagsMonotone(graph, target, outputs[|outputs| - 1], dac, fft, dac2, fft2);
    }
  }
}

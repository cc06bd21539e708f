/** One line of the machine puzzle (src/day10.rs): a light pattern, the buttons
    with the positions each one affects, and the joltage targets; and the parser
    that reads a line such as `[.##.] (3) (1,3) (2) {3,5,4,7}`. */
module Day10Machine {
  import opened Common
  import opened Text

  datatype Machine = Machine(target: seq<bool>, buttons: seq<seq<nat>>, joltages: seq<int>)

  /** What the scan after the pattern collects: the buttons and the joltages. */
  datatype Groups = Groups(buttons: seq<seq<nat>>, joltages: seq<int>)

  // ---------------------------------------------------------------------------
  // Specification of the parser

  /** `#` is a light that must end up on; every other character one that must be off. */
  function Lights(pattern: string): (target: seq<bool>)
    ensures |target| == |pattern| && forall i :: 0 <= i < |pattern| ==> (target[i] <==> pattern[i] == '#')
  {
    seq(|pattern|, i requires 0 <= i < |pattern| => pattern[i] == '#')
  }

  /** Each comma-separated piece, trimmed and parsed as an unsigned integer. */
  function NatList(pieces: seq<string>): (r: Option<seq<nat>>)
  {
    if |pieces| == 0 then Some([])
    else
      match (ParseNat(Trim(pieces[0])), NatList(pieces[1..]))
      case (Some(v), Some(vs)) => Some([v] + vs)
      case _ => None
  }

  /** Each comma-separated piece, trimmed and parsed as a signed integer. */
  function IntList(pieces: seq<string>): (r: Option<seq<int>>)
  {
    if |pieces| == 0 then Some([])
    else
      match (ParseInt(Trim(pieces[0])), IntList(pieces[1..]))
      case (Some(v), Some(vs)) => Some([v] + vs)
      case _ => None
  }

  /** The buttons found before `g`'s, added in front of them. */
  function Prepend(buttons: seq<seq<nat>>, g: Result<Groups>): Result<Groups>
  {
    match g
    case Ok(rest) => Ok(Groups(buttons + rest.buttons, rest.joltages))
    case Err(msg) => Err(msg)
  }

  /** The scan after the pattern, from position `i` of `rest`: a `(` group is
      a button unless it is empty, a `{` group holds the joltages and ends the
      scan, and any other character is skipped. A missing closing bracket or a
      number that does not parse is an error. */
  function Scan(rest: string, i: nat): (r: Result<Groups>)
    requires i <= |rest|
    decreases |rest| - i
  {
    if i == |rest| then Ok(Groups([], []))
    else if rest[i] == '(' then
      match FindFrom(rest, i, ')')
      case None => Err("unclosed button")
      case Some(end) =>
        match ButtonGroup(rest[i + 1..end])
        case Err(msg) => Err(msg)
        case Ok(found) => Prepend(found, Scan(rest, end + 1))
    else if rest[i] == '{' then
      match FindFrom(rest, i, '}')
      case None => Err("unclosed joltages")
      case Some(end) => JoltageGroup(rest[i + 1..end])
    else Scan(rest, i + 1)
  }

  /** The text between `(` and `)`: no button when empty, else one button. */
  function ButtonGroup(content: string): (r: Result<seq<seq<nat>>>)
    ensures r.Ok? ==> |r.value| <= 1
  {
    if |content| == 0 then Ok([])
    else
      match NatList(Split(content, ','))
      case None => Err("bad button position")
      case Some(button) => Ok([button])
  }

  /** The text between `{` and `}`: the joltages, which end the scan. */
  function JoltageGroup(content: string): (r: Result<Groups>)
    ensures r.Ok? ==> r.value.buttons == []
  {
    match IntList(Split(content, ','))
    case None => Err("bad joltage")
    case Some(joltages) => Ok(Groups([], joltages))
  }

  /** A whole line: the pattern between the first `[` and the first `]`, then
      the scan of what follows that `]`. */
  function MachineOf(line: string): (r: Result<Machine>)
  {
    var open, close := Find(line, '['), Find(line, ']');
    if open.None? || close.None? then Err("missing pattern")
    else if close.value < open.value + 1 then Err("pattern brackets out of order")
    else
      match Scan(line[close.value + 1..], 0)
      case Err(msg) => Err(msg)
      case Ok(g) => Ok(Machine(Lights(line[open.value + 1..close.value]), g.buttons, g.joltages))
  }

  /** The machines of the non-empty lines, or the first line's error. */
  function MachinesOf(lines: seq<string>): (r: Result<seq<Machine>>)
    ensures r.Ok? ==> |r.value| <= |lines|
  {
    if |lines| == 0 then Ok([])
    else
      var rest := MachinesOf(lines[1..]);
      if |lines[0]| == 0 then rest
      else
        match (MachineOf(lines[0]), rest)
        case (Err(msg), _) => Err(msg)
        case (_, Err(msg)) => Err(msg)
        case (Ok(m), Ok(ms)) => Ok([m] + ms)
  }

  // ---------------------------------------------------------------------------
  // The parser

  /** One line: the pattern between the brackets, then the scan of the rest. */
  method ParseMachine(line: string) returns (r: Result<Machine>)
    ensures r == MachineOf(line)
  {
    var open, close := Find(line, '['), Find(line, ']');
    if open.None? || close.None? {
      return Err("missing pattern");
    }
    if close.value < open.value + 1 {
      return Err("pattern brackets out of order");
    }
    var target := Lights(line[open.value + 1..close.value]);
    var groups := ScanRest(line[close.value + 1..]);
    if groups.Err? {
      return Err(groups.msg);
    }
    return Ok(Machine(target, groups.value.buttons, groups.value.joltages));
  }

  /** The loop over the characters after the pattern. */
  method ScanRest(rest: string) returns (r: Result<Groups>)
    ensures r == Scan(rest, 0)
  {
    var buttons: seq<seq<nat>> := [];
    var i := 0;
    PrependNothing(Scan(rest, 0));
    while i < |rest|
      invariant 0 <= i <= |rest|
      invariant Scan(rest, 0) == Prepend(buttons, Scan(rest, i))
    {
      if rest[i] == '(' {
        match FindFrom(rest, i, ')') {
          case None =>
            return Err("unclosed button");
          case Some(end) =>
            var found := ButtonGroup(rest[i + 1..end]);
            if found.Err? {
              return Err(found.msg);
            }
            ScanButtonStep(rest, i, end, found.value, end + 1);
            PrependAssoc(buttons, found.value, Scan(rest, end + 1));
            buttons := buttons + found.value;
            i := end + 1;
        }
      } else if rest[i] == '{' {
        match FindFrom(rest, i, '}') {
          case None =>
            return Err("unclosed joltages");
          case Some(end) =>
            var group := JoltageGroup(rest[i + 1..end]);
            ScanJoltageStep(rest, i, end);
            if group.Err? {
              return Err(group.msg);
            }
            assert buttons + [] == buttons;
            return Ok(Groups(buttons, group.value.joltages));
        }
      } else {
        ScanSkipAt(rest, i);
        i := i + 1;
      }
    }
    assert buttons + [] == buttons;
    return Ok(Groups(buttons, []));
  }

  lemma PrependNothing(g: Result<Groups>)
    ensures Prepend([], g) == g
  {
    if g.Ok? {
      assert [] + g.value.buttons == g.value.buttons;
    }
  }

  lemma PrependAssoc(a: seq<seq<nat>>, b: seq<seq<nat>>, g: Result<Groups>)
    ensures Prepend(a, Prepend(b, g)) == Prepend(a + b, g)
  {
    if g.Ok? {
      assert a + (b + g.value.buttons) == (a + b) + g.value.buttons;
    }
  }

  /** `parse_input`: every non-empty line read as a machine. */
  method ParseInput(input: string) returns (r: Result<seq<Machine>>)
    ensures r == MachinesOf(Lines(input))
  {
    var lines := Lines(input);
    var machines: seq<Machine> := [];
    var k := |lines|;
    // Built from the last line back, so that the first failing line is reported.
    var failure: Option<string> := None;
    while k > 0
      invariant 0 <= k <= |lines|
      invariant failure.None? ==> MachinesOf(lines[k..]) == Ok(machines)
      invariant failure.Some? ==> MachinesOf(lines[k..]) == Err(failure.value)
    {
      k := k - 1;
      assert lines[k..][1..] == lines[k + 1..];
      if |lines[k]| > 0 {
        var m := ParseMachine(lines[k]);
        if m.Err? {
          failure := Some(m.msg);
        } else if failure.None? {
          machines := [m.value] + machines;
        }
      }
    }
    assert lines[0..] == lines;
    if failure.Some? {
      return Err(failure.value);
    }
    return Ok(machines);
  }

  // ---------------------------------------------------------------------------
  // Round trip: a machine written out in the puzzle's notation parses back

  function PatternText(target: seq<bool>): (s: string)
    ensures |s| == |target| && '[' !in s && ']' !in s
  {
    seq(|target|, i requires 0 <= i < |target| => if target[i] then '#' else '.')
  }

  /** Numbers written in decimal and separated by commas. */
  function NatsText(values: seq<nat>): string
    requires |values| > 0
  {
    Join(seq(|values|, i requires 0 <= i < |values| => DecimalString(values[i])), ',')
  }

  function IntsText(values: seq<int>): string
    requires |values| > 0
  {
    Join(seq(|values|, i requires 0 <= i < |values| => SignedString(values[i])), ',')
  }

  predicate Writable(m: Machine)
  {
    |m.joltages| > 0 && forall b :: b in m.buttons ==> |b| > 0
  }

  function ButtonsText(buttons: seq<seq<nat>>): string
    requires forall b :: b in buttons ==> |b| > 0
  {
    if |buttons| == 0 then "" else " (" + NatsText(buttons[0]) + ")" + ButtonsText(buttons[1..])
  }

  /** The puzzle's notation: `[pattern] (button) ... {joltages}`. */
  function Render(m: Machine): string
    requires Writable(m)
  {
    "[" + PatternText(m.target) + "]" + ButtonsText(m.buttons) + " {" + IntsText(m.joltages) + "}"
  }

  lemma FindAt(s: string, c: char, k: nat)
    requires k < |s| && s[k] == c && c !in s[..k]
    ensures Find(s, c) == Some(k)
  {
    forall j | 0 <= j < k
      ensures s[j] != c
    {
      assert s[..k][j] == s[j];
    }
    FindFromAt(s, 0, c, k);
  }

  /** Decimal numbers joined by commas contain no bracket. */
  lemma {:induction false} JoinedDigits(texts: seq<string>, c: char)
    requires |texts| > 0 && forall i :: 0 <= i < |texts| ==> AllDigits(texts[i])
    requires c != ',' && !IsDigit(c)
    ensures c !in Join(texts, ',')
  {
    if |texts| > 1 {
      JoinedDigits(texts[1..], c);
    }
  }

  lemma {:induction false} ParseNumbers(values: seq<nat>)
    requires |values| > 0
    ensures NatList(Split(NatsText(values), ',')) == Some(values)
  {
    var texts := seq(|values|, i requires 0 <= i < |values| => DecimalString(values[i]));
    forall i | 0 <= i < |texts|
      ensures ',' !in texts[i]
    {
    }
    SplitJoin(texts, ',');
    forall i | 0 <= i < |texts|
      ensures ParseNat(Trim(texts[i])) == Some(values[i])
    {
      TrimOfTrimmed(texts[i]);
      ParseDecimal(values[i]);
    }
    NatListOf(texts, values);
  }

  /** The list parses exactly when every piece does, and then holds their values. */
  lemma {:induction false} NatListOf(pieces: seq<string>, values: seq<nat>)
    requires |pieces| == |values|
    ensures (forall i :: 0 <= i < |pieces| ==> ParseNat(Trim(pieces[i])) == Some(values[i])) <==>
            NatList(pieces) == Some(values)
  {
    if |pieces| > 0 {
      NatListOf(pieces[1..], values[1..]);
      assert [values[0]] + values[1..] == values;
      if NatList(pieces) == Some(values) {
        forall i | 0 <= i < |pieces|
          ensures ParseNat(Trim(pieces[i])) == Some(values[i])
        {
          if i > 0 {
            assert pieces[1..][i - 1] == pieces[i];
          }
        }
      }
    }
  }

  /** The list parses exactly when every piece does, and then holds their values. */
  lemma {:induction false} IntListOf(pieces: seq<string>, values: seq<int>)
    requires |pieces| == |values|
    ensures (forall i :: 0 <= i < |pieces| ==> ParseInt(Trim(pieces[i])) == Some(values[i])) <==>
            IntList(pieces) == Some(values)
  {
    if |pieces| > 0 {
      IntListOf(pieces[1..], values[1..]);
      assert [values[0]] + values[1..] == values;
      if IntList(pieces) == Some(values) {
        forall i | 0 <= i < |pieces|
          ensures ParseInt(Trim(pieces[i])) == Some(values[i])
        {
          if i > 0 {
            assert pieces[1..][i - 1] == pieces[i];
          }
        }
      }
    }
  }

  lemma {:induction false} ParseSignedNumbers(values: seq<int>)
    requires |values| > 0
    ensures IntList(Split(IntsText(values), ',')) == Some(values)
  {
    var texts := seq(|values|, i requires 0 <= i < |values| => SignedString(values[i]));
    forall i | 0 <= i < |texts|
      ensures ',' !in texts[i]
    {
      if values[i] >= 0 {
        assert texts[i] == DecimalString(values[i]);
      }
    }
    SplitJoin(texts, ',');
    forall i | 0 <= i < |texts|
      ensures ParseInt(Trim(texts[i])) == Some(values[i])
    {
      TrimOfTrimmed(texts[i]);
      ParseSigned(values[i]);
    }
    IntListOf(texts, values);
  }

  lemma {:induction false} SignedJoinNoBrace(texts: seq<string>)
    requires |texts| > 0
    requires forall i :: 0 <= i < |texts| ==> '}' !in texts[i]
    ensures '}' !in Join(texts, ',')
  {
    if |texts| > 1 {
      SignedJoinNoBrace(texts[1..]);
    }
  }

  lemma SignedNoBrace(values: seq<int>)
    requires |values| > 0
    ensures '}' !in IntsText(values)
  {
    var texts := seq(|values|, i requires 0 <= i < |values| => SignedString(values[i]));
    forall i | 0 <= i < |values|
      ensures '}' !in texts[i]
    {
      if values[i] >= 0 {
        assert texts[i] == DecimalString(values[i]);
      }
    }
    SignedJoinNoBrace(texts);
  }

  /** `text` sits in `s` at `pos`. */
  predicate At(s: string, pos: nat, text: string)
  {
    pos + |text| <= |s| && s[pos..pos + |text|] == text
  }

  lemma AtConcat(s: string, pos: nat, a: string, b: string)
    requires At(s, pos, a + b)
    ensures At(s, pos, a) && At(s, pos + |a|, b)
  {
    assert s[pos..pos + |a|] == s[pos..pos + |a + b|][..|a|];
    assert s[pos + |a|..pos + |a| + |b|] == s[pos..pos + |a + b|][|a|..];
  }

  /** A group ` <open>text<close>` written at `pos`: where it closes, and what it holds. */
  lemma GroupLocated(s: string, pos: nat, open: char, text: string, close: char)
    requires open != close && close !in text
    requires At(s, pos, [' ', open] + text + [close])
    ensures s[pos] == ' ' && s[pos + 1] == open
    ensures FindFrom(s, pos + 1, close) == Some(pos + 2 + |text|)
    ensures s[pos + 2..pos + 2 + |text|] == text
  {
    var t := [' ', open] + text + [close];
    assert |t| == |text| + 3;
    assert s[pos] == t[0] && s[pos + 1] == t[1];
    forall j | pos + 1 <= j < pos + 2 + |text|
      ensures s[j] != close
    {
      assert s[j] == t[j - pos];
      if j > pos + 1 {
        assert t[j - pos] == text[j - pos - 2];
      }
    }
    assert s[pos + 2 + |text|] == t[|t| - 1];
    FindFromAt(s, pos + 1, close, pos + 2 + |text|);
    forall k | 0 <= k < |text|
      ensures s[pos + 2..pos + 2 + |text|][k] == text[k]
    {
      assert s[pos + 2 + k] == t[2 + k];
    }
  }

  lemma ScanJoltagesAt(s: string, pos: nat, values: seq<int>)
    requires |values| > 0
    requires At(s, pos, " {" + IntsText(values) + "}")
    ensures Scan(s, pos) == Ok(Groups([], values))
  {
    var text := IntsText(values);
    SignedNoBrace(values);
    assert " {" + text + "}" == [' ', '{'] + text + ['}'];
    GroupLocated(s, pos, '{', text, '}');
    var end := pos + 2 + |text|;
    ScanSkipAt(s, pos);
    ScanJoltageStep(s, pos + 1, end);
    assert s[pos + 2..end] == text;
    ParseSignedNumbers(values);
  }

  lemma NatsNoParen(values: seq<nat>)
    requires |values| > 0
    ensures ')' !in NatsText(values)
  {
    var texts := seq(|values|, i requires 0 <= i < |values| => DecimalString(values[i]));
    JoinedDigits(texts, ')');
  }

  lemma ButtonText(button: seq<nat>)
    requires |button| > 0
    ensures ButtonGroup(NatsText(button)) == Ok([button])
  {
    ParseNumbers(button);
  }

  /** A button group ` (text)` at `pos` adds its button and moves past the `)`. */
  lemma ScanGroupAt(s: string, pos: nat, text: string, found: seq<seq<nat>>, next: nat)
    requires ')' !in text && ButtonGroup(text) == Ok(found)
    requires At(s, pos, [' ', '('] + text + [')']) && next == pos + |text| + 3
    ensures Scan(s, pos) == Prepend(found, Scan(s, next))
  {
    GroupLocated(s, pos, '(', text, ')');
    ScanSkipAt(s, pos);
    ScanButtonStep(s, pos + 1, pos + 2 + |text|, found, next);
  }

  lemma ScanSkipAt(s: string, i: nat)
    requires i < |s| && s[i] != '(' && s[i] != '{'
    ensures Scan(s, i) == Scan(s, i + 1)
  {
  }

  lemma ScanButtonStep(s: string, i: nat, end: nat, found: seq<seq<nat>>, next: nat)
    requires i < |s| && s[i] == '(' && FindFrom(s, i, ')') == Some(end)
    requires ButtonGroup(s[i + 1..end]) == Ok(found) && next == end + 1
    ensures Scan(s, i) == Prepend(found, Scan(s, next))
  {
  }

  lemma ScanJoltageStep(s: string, i: nat, end: nat)
    requires i < |s| && s[i] == '{' && FindFrom(s, i, '}') == Some(end)
    ensures Scan(s, i) == JoltageGroup(s[i + 1..end])
  {
  }

  lemma {:induction false} ScanButtonsAt(s: string, pos: nat, buttons: seq<seq<nat>>, end: nat)
    requires forall b :: b in buttons ==> |b| > 0
    requires At(s, pos, ButtonsText(buttons)) && end == pos + |ButtonsText(buttons)|
    ensures Scan(s, pos) == Prepend(buttons, Scan(s, end))
    decreases |buttons|
  {
    if |buttons| == 0 {
      PrependNothing(Scan(s, pos));
    } else {
      var first := " (" + NatsText(buttons[0]) + ")";
      var more := ButtonsText(buttons[1..]);
      assert ButtonsText(buttons) == first + more;
      AtConcat(s, pos, first, more);
      var mid := pos + |first|;
      ScanFirstButton(s, pos, buttons[0], mid);
      ScanButtonsAt(s, mid, buttons[1..], end);
      PrependAssoc([buttons[0]], buttons[1..], Scan(s, end));
      assert [buttons[0]] + buttons[1..] == buttons;
    }
  }

  /** One button written as ` (i,j,...)` at `pos` adds that button. */
  lemma ScanFirstButton(s: string, pos: nat, button: seq<nat>, mid: nat)
    requires |button| > 0
    requires At(s, pos, " (" + NatsText(button) + ")") && mid == pos + |" (" + NatsText(button) + ")"|
    ensures Scan(s, pos) == Prepend([button], Scan(s, mid))
  {
    var text := NatsText(button);
    NatsNoParen(button);
    ButtonText(button);
    assert " (" + text + ")" == [' ', '('] + text + [')'];
    ScanGroupAt(s, pos, text, [button], mid);
  }

  lemma MachineOfParts(line: string, open: nat, close: nat, pattern: string, rest: string, g: Groups)
    requires Find(line, '[') == Some(open) && Find(line, ']') == Some(close) && open < close
    requires pattern == line[open + 1..close] && rest == line[close + 1..] && Scan(rest, 0) == Ok(g)
    ensures MachineOf(line) == Ok(Machine(Lights(pattern), g.buttons, g.joltages))
  {
  }

  lemma Bracketed(line: string, p: string, rest: string, close: nat)
    requires line == "[" + p + "]" + rest && '[' !in p && ']' !in p && close == |p| + 1
    ensures Find(line, '[') == Some(0) && Find(line, ']') == Some(close)
    ensures line[1..close] == p && line[close + 1..] == rest
  {
    FindAt(line, '[', 0);
    assert line[..|p| + 1] == "[" + p;
    FindAt(line, ']', |p| + 1);
  }

  /** The text after the pattern scans to the buttons and joltages it was written from. */
  lemma ScanRendered(m: Machine)
    requires Writable(m)
    ensures Scan(ButtonsText(m.buttons) + (" {" + IntsText(m.joltages) + "}"), 0) == Ok(Groups(m.buttons, m.joltages))
  {
    var buttons := ButtonsText(m.buttons);
    var joltages := " {" + IntsText(m.joltages) + "}";
    var rest := buttons + joltages;
    assert rest[0..|rest|] == rest;
    AtConcat(rest, 0, buttons, joltages);
    ScanButtonsAt(rest, 0, m.buttons, |buttons|);
    ScanJoltagesAt(rest, |buttons|, m.joltages);
    assert m.buttons + [] == m.buttons;
  }

  lemma ParseRender(m: Machine)
    requires Writable(m)
    ensures MachineOf(Render(m)) == Ok(m)
  {
    var line := Render(m);
    var p := PatternText(m.target);
    var rest := ButtonsText(m.buttons) + (" {" + IntsText(m.joltages) + "}");
    Bracketed(line, p, rest, |p| + 1);
    ScanRendered(m);
    MachineOfParts(line, 0, |p| + 1, p, rest, Groups(m.buttons, m.joltages));
    assert Lights(p) == m.target;
  }

  // ---------------------------------------------------------------------------
  // Matrices, shared by the elimination over GF(2) and over the integers

  /** Every row of `m` has `cols` entries, and there are `rows` rows. */
  predicate Shaped<T>(m: seq<seq<T>>, rows: nat, cols: nat)
  {
    |m| == rows && forall r :: 0 <= r < |m| ==> |m[r]| == cols
  }

  /** `matrix.swap(i, j)`: the two rows trade places and every other row stays. */
  function SwapRows<T>(m: seq<seq<T>>, i: nat, j: nat): (r: seq<seq<T>>)
    requires i < |m| && j < |m|
    ensures |r| == |m| && r[i] == m[j] && r[j] == m[i]
    ensures forall k :: 0 <= k < |m| && k != i && k != j ==> r[k] == m[k]
  {
    m[i := m[j]][j := m[i]]
  }
}

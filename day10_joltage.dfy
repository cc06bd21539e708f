/** The joltage half of the machine puzzle (src/day10.rs, `solve_joltage` and
    `search_free_vars_v2`): each press of a button adds one to every counter it
    lists, and the counters must reach the joltage targets exactly.  The solver
    does fraction-free forward elimination over the integers, rejects
    inconsistent systems, then searches a box of values for the free columns,
    back-substituting the pivot columns with exact division and keeping the
    smallest total of a non-negative solution. */
module Day10Joltage {
  import opened Common
  import opened Day10Machine
  import Day10Lights

  type IntMatrix = seq<seq<int>>

  // ---------------------------------------------------------------------------
  // Meaning of a press vector

  /** Sum over the columns c in [lo, hi) of row[c] * x[c]. */
  function Dot(row: seq<int>, x: seq<int>, lo: nat, hi: nat): int
    requires lo <= hi <= |row| && hi <= |x|
    decreases hi - lo
  {
    if lo == hi then 0 else Dot(row, x, lo, hi - 1) + row[hi - 1] * x[hi - 1]
  }

  predicate RowHolds(row: seq<int>, x: seq<int>, nb: nat)
    requires |row| == nb + 1 && |x| == nb
  {
    Dot(row, x, 0, nb) == row[nb]
  }

  predicate Solves(m: IntMatrix, x: seq<int>, nb: nat)
    requires Shaped(m, |m|, nb + 1) && |x| == nb
  {
    forall r :: 0 <= r < |m| ==> RowHolds(m[r], x, nb)
  }

  /** Units counter `i` receives from the presses of the first `n` buttons. */
  function Received(buttons: seq<seq<nat>>, x: seq<int>, i: nat, n: nat): int
    requires n <= |buttons| && n <= |x|
  {
    if n == 0 then 0 else Received(buttons, x, i, n - 1) + (if i in buttons[n - 1] then x[n - 1] else 0)
  }

  predicate NonNegative(x: seq<int>)
  {
    forall j :: 0 <= j < |x| ==> x[j] >= 0
  }

  /** Pressing button j `x[j]` times brings every counter to its target. */
  predicate Configures(machine: Machine, x: seq<int>)
  {
    |x| == |machine.buttons| && NonNegative(x) &&
    forall i :: 0 <= i < |machine.joltages| ==>
      Received(machine.buttons, x, i, |x|) == machine.joltages[i]
  }

  // ---------------------------------------------------------------------------
  // The augmented matrix

  /** Entry [i][j] is 1 when button j lists counter i and 0 otherwise; the last
      column holds the joltage targets. */
  predicate Encodes(m: IntMatrix, machine: Machine)
  {
    var nc, nb := |machine.joltages|, |machine.buttons|;
    Shaped(m, nc, nb + 1) &&
    (forall i, j :: 0 <= i < nc && 0 <= j < nb ==> m[i][j] == if i in machine.buttons[j] then 1 else 0) &&
    (forall i :: 0 <= i < nc ==> m[i][nb] == machine.joltages[i])
  }

  lemma {:induction false} DotIsReceived(m: IntMatrix, machine: Machine, x: seq<int>, i: nat, n: nat)
    requires Encodes(m, machine) && i < |m| && n <= |x| == |machine.buttons|
    ensures Dot(m[i], x, 0, n) == Received(machine.buttons, x, i, n)
  {
    if n > 0 { DotIsReceived(m, machine, x, i, n - 1); }
  }

  /** The matrix holds exactly the counter equations. */
  lemma MatrixMeansConfigures(m: IntMatrix, machine: Machine, x: seq<int>)
    requires Encodes(m, machine) && |x| == |machine.buttons|
    ensures Solves(m, x, |x|) && NonNegative(x) <==> Configures(machine, x)
  {
    forall i | 0 <= i < |m| ensures Dot(m[i], x, 0, |x|) == Received(machine.buttons, x, i, |x|) {
      DotIsReceived(m, machine, x, i, |x|);
    }
  }

  /** Fill the matrix as `solve_joltage` does: zeros, a 1 per listed in-range
      counter, then the target column. */
  method BuildMatrix(machine: Machine) returns (m: IntMatrix)
    ensures Encodes(m, machine)
  {
    var nc, nb := |machine.joltages|, |machine.buttons|;
    m := seq(nc, _ => seq(nb + 1, _ => 0));
    var j := 0;
    while j < nb
      invariant 0 <= j <= nb
      invariant Shaped(m, nc, nb + 1)
      invariant forall i, k :: 0 <= i < nc && 0 <= k < nb + 1 ==>
        m[i][k] == if k < j && i in machine.buttons[k] then 1 else 0
    {
      m := MarkButton(m, nc, nb, j, machine.buttons[j]);
      j := j + 1;
    }
    var i := 0;
    while i < nc
      invariant 0 <= i <= nc
      invariant Shaped(m, nc, nb + 1)
      invariant forall r, k :: 0 <= r < nc && 0 <= k < nb ==> m[r][k] == if r in machine.buttons[k] then 1 else 0
      invariant forall r :: 0 <= r < i ==> m[r][nb] == machine.joltages[r]
    {
      m := m[i := m[i][nb := machine.joltages[i]]];
      i := i + 1;
    }
  }

  /** The inner loop of the matrix set-up: a 1 in column j for every counter
      the button lists that is below nc; other columns are untouched. */
  method MarkButton(m: IntMatrix, nc: nat, nb: nat, j: nat, button: seq<nat>) returns (m': IntMatrix)
    requires Shaped(m, nc, nb + 1) && j < nb
    requires forall i :: 0 <= i < nc ==> m[i][j] == 0
    ensures Shaped(m', nc, nb + 1)
    ensures forall i, k :: 0 <= i < nc && 0 <= k < nb + 1 && k != j ==> m'[i][k] == m[i][k]
    ensures forall i :: 0 <= i < nc ==> m'[i][j] == if i in button then 1 else 0
  {
    m' := m;
    var p := 0;
    while p < |button|
      invariant 0 <= p <= |button|
      invariant Shaped(m', nc, nb + 1)
      invariant forall i, k :: 0 <= i < nc && 0 <= k < nb + 1 && k != j ==> m'[i][k] == m[i][k]
      invariant forall i :: 0 <= i < nc ==> m'[i][j] == if i in button[..p] then 1 else 0
    {
      var counterPos := button[p];
      if counterPos < nc {
        m' := m'[counterPos := m'[counterPos][j := 1]];
      }
      assert button[..p + 1] == button[..p] + [counterPos];
      p := p + 1;
    }
    assert button[..p] == button;
  }

  // ---------------------------------------------------------------------------
  // Cross-multiplying keeps the integer solutions

  /** `row[c] * p - pivotRow[c] * f` for every column c. */
  function CrossRow(row: seq<int>, pivotRow: seq<int>, p: int, f: int): (r: seq<int>)
    requires |row| == |pivotRow|
    ensures |r| == |row| && forall c :: 0 <= c < |row| ==> r[c] == row[c] * p - pivotRow[c] * f
  {
    seq(|row|, c requires 0 <= c < |row| => row[c] * p - pivotRow[c] * f)
  }

  lemma {:induction false} DotOfCross(a: seq<int>, b: seq<int>, p: int, f: int, x: seq<int>, lo: nat, hi: nat)
    requires |a| == |b| && lo <= hi <= |a| && hi <= |x|
    ensures Dot(CrossRow(a, b, p, f), x, lo, hi) == p * Dot(a, x, lo, hi) - f * Dot(b, x, lo, hi)
    decreases hi - lo
  {
    if lo < hi {
      var k := hi - 1;
      DotOfCross(a, b, p, f, x, lo, k);
      var c := CrossRow(a, b, p, f);
      var da, db := Dot(a, x, lo, k), Dot(b, x, lo, k);
      assert Dot(c, x, lo, hi) == p * da - f * db + c[k] * x[k];
      assert c[k] == a[k] * p - b[k] * f;
      DistributeStep(p, f, da, db, a[k], b[k], x[k]);
    }
  }

  /** The arithmetic of one step of `DotOfCross`, kept apart from the
      sequence facts. */
  lemma DistributeStep(p: int, f: int, da: int, db: int, ak: int, bk: int, xk: int)
    ensures p * da - f * db + (ak * p - bk * f) * xk == p * (da + ak * xk) - f * (db + bk * xk)
  {
  }

  /** With p != 0, a vector that satisfies the pivot row satisfies the
      cross-multiplied row exactly when it satisfies the original one. */
  lemma CrossRowHolds(a: seq<int>, b: seq<int>, p: int, f: int, x: seq<int>, nb: nat)
    requires |a| == |b| == nb + 1 && |x| == nb && p != 0 && RowHolds(b, x, nb)
    ensures RowHolds(CrossRow(a, b, p, f), x, nb) <==> RowHolds(a, x, nb)
  {
    DotOfCross(a, b, p, f, x, 0, nb);
    var d := Dot(a, x, 0, nb) - a[nb];
    assert Dot(CrossRow(a, b, p, f), x, 0, nb) - CrossRow(a, b, p, f)[nb] == p * d;
    if p * d == 0 {
      assert d == 0;
    }
  }

  lemma CrossKeepsSolutions(m: IntMatrix, r: nat, k: nat, p: int, f: int, nb: nat)
    requires Shaped(m, |m|, nb + 1) && r < |m| && k < |m| && r != k && p != 0
    ensures Shaped(m[r := CrossRow(m[r], m[k], p, f)], |m|, nb + 1)
    ensures forall x :: |x| == nb ==>
      (Solves(m[r := CrossRow(m[r], m[k], p, f)], x, nb) <==> Solves(m, x, nb))
  {
    var m' := m[r := CrossRow(m[r], m[k], p, f)];
    forall x | |x| == nb
      ensures Solves(m', x, nb) <==> Solves(m, x, nb)
    {
      if Solves(m', x, nb) {
        assert RowHolds(m'[k], x, nb) && RowHolds(m'[r], x, nb);
        CrossRowHolds(m[r], m[k], p, f, x, nb);
        forall i | 0 <= i < |m| ensures RowHolds(m[i], x, nb) {
          assert RowHolds(m'[i], x, nb);
        }
      }
      if Solves(m, x, nb) {
        CrossRowHolds(m[r], m[k], p, f, x, nb);
        forall i | 0 <= i < |m| ensures RowHolds(m'[i], x, nb) {
          assert RowHolds(m[i], x, nb);
        }
      }
    }
  }

  lemma SwapKeepsSolutions(m: IntMatrix, i: nat, j: nat, nb: nat)
    requires Shaped(m, |m|, nb + 1) && i < |m| && j < |m|
    ensures Shaped(SwapRows(m, i, j), |m|, nb + 1)
    ensures forall x :: |x| == nb ==> (Solves(SwapRows(m, i, j), x, nb) <==> Solves(m, x, nb))
  {
    var m' := SwapRows(m, i, j);
    forall x | |x| == nb
      ensures Solves(m', x, nb) <==> Solves(m, x, nb)
    {
      if Solves(m', x, nb) {
        forall r | 0 <= r < |m| ensures RowHolds(m[r], x, nb) {
          var s := if r == i then j else if r == j then i else r;
          assert RowHolds(m'[s], x, nb);
        }
      }
      if Solves(m, x, nb) {
        forall r | 0 <= r < |m| ensures RowHolds(m'[r], x, nb) {
          var s := if r == i then j else if r == j then i else r;
          assert RowHolds(m[s], x, nb);
        }
      }
    }
  }

  // ---------------------------------------------------------------------------
  // Forward elimination

  /** The shape forward elimination has reached once the columns before `col`
      are done: pivot columns increase, `pivotVals` records the non-zero pivot
      entries, a pivot row is zero left of its pivot, and the rows below the
      pivots are zero on the done columns.  Rows above a pivot are not touched. */
  predicate EchelonUpTo(m: IntMatrix, pivotCols: seq<nat>, pivotVals: seq<int>, nb: nat, col: nat)
    requires Shaped(m, |m|, nb + 1) && col <= nb
  {
    |pivotCols| <= |m| && |pivotVals| == |pivotCols| &&
    (forall i :: 0 <= i < |pivotCols| ==> pivotCols[i] < col) &&
    (forall i, j :: 0 <= i < j < |pivotCols| ==> pivotCols[i] < pivotCols[j]) &&
    (forall i :: 0 <= i < |pivotCols| ==> pivotVals[i] == m[i][pivotCols[i]] != 0) &&
    (forall i, c :: 0 <= i < |pivotCols| && 0 <= c < pivotCols[i] ==> m[i][c] == 0) &&
    (forall r, c :: |pivotCols| <= r < |m| && 0 <= c < col ==> m[r][c] == 0)
  }

  predicate Echelon(m: IntMatrix, pivotCols: seq<nat>, pivotVals: seq<int>, nb: nat)
  {
    Shaped(m, |m|, nb + 1) && EchelonUpTo(m, pivotCols, pivotVals, nb, nb)
  }

  /** Every pivot column is zero below its pivot row. */
  lemma ZeroBelowPivots(m: IntMatrix, pivotCols: seq<nat>, pivotVals: seq<int>, nb: nat)
    requires Echelon(m, pivotCols, pivotVals, nb)
    ensures forall i, r :: 0 <= i < |pivotCols| && i < r < |m| ==> m[r][pivotCols[i]] == 0
  {
    forall i, r | 0 <= i < |pivotCols| && i < r < |m| ensures m[r][pivotCols[i]] == 0 {
      if r < |pivotCols| {
        assert pivotCols[i] < pivotCols[r];
      }
    }
  }

  /** `matrix[row][c] = matrix[row][c] * p - matrix[src][c] * f` for every column c. */
  method CrossRowInto(m: IntMatrix, row: nat, src: nat, p: int, f: int, nb: nat) returns (m': IntMatrix)
    requires Shaped(m, |m|, nb + 1) && row < |m| && src < |m| && row != src
    ensures m' == m[row := CrossRow(m[row], m[src], p, f)]
  {
    m' := m;
    var c := 0;
    while c <= nb
      invariant 0 <= c <= nb + 1
      invariant |m'| == |m| && |m'[row]| == nb + 1
      invariant forall r :: 0 <= r < |m| && r != row ==> m'[r] == m[r]
      invariant forall k :: 0 <= k < nb + 1 ==>
        m'[row][k] == if k < c then m[row][k] * p - m[src][k] * f else m[row][k]
    {
      m' := m'[row := m'[row][c := m'[row][c] * p - m'[src][c] * f]];
      c := c + 1;
    }
    assert m'[row] == CrossRow(m[row], m[src], p, f);
  }

  /** The first row at or below `from` whose entry in column `col` is non-zero. */
  method FindPivotRow(m: IntMatrix, col: nat, from: nat, nb: nat) returns (pivotRow: Option<nat>)
    requires Shaped(m, |m|, nb + 1) && col < nb && from <= |m|
    ensures pivotRow.None? ==> forall r :: from <= r < |m| ==> m[r][col] == 0
    ensures pivotRow.Some? ==> from <= pivotRow.value < |m| && m[pivotRow.value][col] != 0
    ensures pivotRow.Some? ==> forall r :: from <= r < pivotRow.value ==> m[r][col] == 0
  {
    pivotRow := None;
    var row := from;
    while row < |m|
      invariant from <= row <= |m|
      invariant forall r :: from <= r < row ==> m[r][col] == 0
    {
      if m[row][col] != 0 {
        pivotRow := Some(row);
        return;
      }
      row := row + 1;
    }
  }

  /** Cross-multiply the pivot row into every later row with a non-zero entry
      in the pivot column; the pivot row and the rows above it are untouched. */
  method EliminateBelow(m: IntMatrix, pivotRow: nat, col: nat, nb: nat) returns (m': IntMatrix)
    requires Shaped(m, |m|, nb + 1) && pivotRow < |m| && col < nb && m[pivotRow][col] != 0
    ensures Shaped(m', |m|, nb + 1)
    ensures forall r :: 0 <= r < |m| ==>
      m'[r] == if r > pivotRow && m[r][col] != 0
               then CrossRow(m[r], m[pivotRow], m[pivotRow][col], m[r][col]) else m[r]
    ensures forall x :: |x| == nb ==> (Solves(m', x, nb) <==> Solves(m, x, nb))
  {
    m' := m;
    var row := pivotRow + 1;
    while row < |m|
      invariant pivotRow + 1 <= row <= |m|
      invariant Shaped(m', |m|, nb + 1)
      invariant forall r :: 0 <= r < |m| ==>
        m'[r] == if pivotRow < r < row && m[r][col] != 0
                 then CrossRow(m[r], m[pivotRow], m[pivotRow][col], m[r][col]) else m[r]
      invariant forall x :: |x| == nb ==> (Solves(m', x, nb) <==> Solves(m, x, nb))
    {
      if m'[row][col] != 0 {
        var pivotVal := m'[pivotRow][col];
        var factor := m'[row][col];
        CrossKeepsSolutions(m', row, pivotRow, pivotVal, factor, nb);
        m' := CrossRowInto(m', row, pivotRow, pivotVal, factor, nb);
      }
      row := row + 1;
    }
  }

  /** One pivot step keeps the echelon shape, one column further. */
  lemma PivotStep(m: IntMatrix, m': IntMatrix, pivotCols: seq<nat>, pivotVals: seq<int>, nb: nat, col: nat)
    requires Shaped(m, |m|, nb + 1) && Shaped(m', |m|, nb + 1) && col < nb
    requires EchelonUpTo(m, pivotCols, pivotVals, nb, col) && |pivotCols| < |m|
    requires m[|pivotCols|][col] != 0
    requires forall r :: 0 <= r < |m| ==>
      m'[r] == if r > |pivotCols| && m[r][col] != 0
               then CrossRow(m[r], m[|pivotCols|], m[|pivotCols|][col], m[r][col]) else m[r]
    ensures EchelonUpTo(m', pivotCols + [col], pivotVals + [m[|pivotCols|][col]], nb, col + 1)
  {
    var cur := |pivotCols|;
    forall r, c | cur < r < |m| && 0 <= c <= col ensures m'[r][c] == 0 {
      if m[r][col] != 0 {
        if c < col {
          assert m[cur][c] == 0 && m[r][c] == 0;
        } else {
          assert m'[r][c] == m[r][col] * m[cur][col] - m[cur][col] * m[r][col];
        }
      }
    }
  }

  /** One column of the elimination: the first row at or below the current
      row with a non-zero entry in `col` becomes the pivot row, is swapped up,
      its entry is recorded, and every later row with a non-zero entry in that
      column is cross-multiplied against it; with no such row nothing changes. */
  method PivotColumn(m: IntMatrix, pivotCols: seq<nat>, pivotVals: seq<int>, col: nat, nb: nat)
    returns (m': IntMatrix, pivotCols': seq<nat>, pivotVals': seq<int>)
    requires Shaped(m, |m|, nb + 1) && col < nb && EchelonUpTo(m, pivotCols, pivotVals, nb, col)
    ensures Shaped(m', |m|, nb + 1) && EchelonUpTo(m', pivotCols', pivotVals', nb, col + 1)
    ensures |pivotCols| <= |pivotCols'| <= |pivotCols| + 1
    ensures forall x :: |x| == nb ==> (Solves(m', x, nb) <==> Solves(m, x, nb))
  {
    var currentRow := |pivotCols|;
    var pivotRow := FindPivotRow(m, col, currentRow, nb);
    if pivotRow.None? {
      assert EchelonUpTo(m, pivotCols, pivotVals, nb, col + 1);
      return m, pivotCols, pivotVals;
    }
    var pr := pivotRow.value;
    var mS := m;
    if pr != currentRow {
      SwapKeepsSolutions(m, currentRow, pr, nb);
      mS := SwapRows(m, currentRow, pr);
    }
    pivotCols' := pivotCols + [col];
    pivotVals' := pivotVals + [mS[currentRow][col]];
    m' := EliminateBelow(mS, currentRow, col, nb);
    PivotStep(mS, m', pivotCols, pivotVals, nb, col);
  }

  /** Fraction-free forward elimination, as in `solve_joltage`: one
      `PivotColumn` step per button column, the current row advancing with
      each pivot found. */
  method Eliminate(m0: IntMatrix, nc: nat, nb: nat) returns (m: IntMatrix, pivotCols: seq<nat>, pivotVals: seq<int>)
    requires Shaped(m0, nc, nb + 1)
    ensures Shaped(m, nc, nb + 1) && Echelon(m, pivotCols, pivotVals, nb)
    ensures |pivotCols| <= nc && |pivotCols| <= nb
    ensures forall x :: |x| == nb ==> (Solves(m, x, nb) <==> Solves(m0, x, nb))
  {
    m, pivotCols, pivotVals := m0, [], [];
    var col := 0;
    while col < nb
      invariant col <= nb
      invariant Shaped(m, nc, nb + 1)
      invariant |pivotCols| <= col
      invariant EchelonUpTo(m, pivotCols, pivotVals, nb, col)
      invariant forall x :: |x| == nb ==> (Solves(m, x, nb) <==> Solves(m0, x, nb))
    {
      m, pivotCols, pivotVals := PivotColumn(m, pivotCols, pivotVals, col, nb);
      col := col + 1;
    }
  }

  // ---------------------------------------------------------------------------
  // Inconsistency

  predicate ZeroCoefficients(row: seq<int>, nb: nat)
    requires nb <= |row|
  {
    forall c :: 0 <= c < nb ==> row[c] == 0
  }

  /** Some row reads 0 = t with t != 0. */
  predicate Contradiction(m: IntMatrix, nb: nat)
    requires Shaped(m, |m|, nb + 1)
  {
    exists r :: 0 <= r < |m| && ZeroCoefficients(m[r], nb) && m[r][nb] != 0
  }

  method HasContradiction(m: IntMatrix, nb: nat) returns (found: bool)
    requires Shaped(m, |m|, nb + 1)
    ensures found <==> Contradiction(m, nb)
  {
    var r := 0;
    while r < |m|
      invariant 0 <= r <= |m|
      invariant forall k :: 0 <= k < r ==> !(ZeroCoefficients(m[k], nb) && m[k][nb] != 0)
    {
      var allZeros := true;
      var c := 0;
      while c < nb
        invariant 0 <= c <= nb
        invariant allZeros <==> forall k :: 0 <= k < c ==> m[r][k] == 0
      {
        allZeros := allZeros && m[r][c] == 0;
        c := c + 1;
      }
      if allZeros && m[r][nb] != 0 {
        return true;
      }
      r := r + 1;
    }
    return false;
  }

  lemma {:induction false} DotOfZero(row: seq<int>, x: seq<int>, lo: nat, hi: nat)
    requires lo <= hi <= |row| && hi <= |x|
    requires forall c :: lo <= c < hi ==> row[c] == 0
    ensures Dot(row, x, lo, hi) == 0
    decreases hi - lo
  {
    if lo < hi { DotOfZero(row, x, lo, hi - 1); }
  }

  lemma ContradictionHasNoSolution(m: IntMatrix, nb: nat, x: seq<int>)
    requires Shaped(m, |m|, nb + 1) && |x| == nb && Contradiction(m, nb)
    ensures !Solves(m, x, nb)
  {
    var r :| 0 <= r < |m| && ZeroCoefficients(m[r], nb) && m[r][nb] != 0;
    DotOfZero(m[r], x, 0, nb);
  }

  /** In a consistent echelon system the rows below the pivots hold for every vector. */
  lemma RowsBelowPivotsHold(m: IntMatrix, pivotCols: seq<nat>, pivotVals: seq<int>, nb: nat, x: seq<int>)
    requires Echelon(m, pivotCols, pivotVals, nb) && !Contradiction(m, nb) && |x| == nb
    ensures forall r :: |pivotCols| <= r < |m| ==> RowHolds(m[r], x, nb)
  {
    forall r | |pivotCols| <= r < |m| ensures RowHolds(m[r], x, nb) {
      DotOfZero(m[r], x, 0, nb);
      assert !(ZeroCoefficients(m[r], nb) && m[r][nb] != 0);
    }
  }

  // ---------------------------------------------------------------------------
  // Back substitution

  /** Sum over the columns c < hi other than `skip` of row[c] * x[c]. */
  function DotSkip(row: seq<int>, x: seq<int>, skip: nat, hi: nat): int
    requires hi <= |row| && hi <= |x|
  {
    if hi == 0 then 0
    else DotSkip(row, x, skip, hi - 1) + (if hi - 1 == skip then 0 else row[hi - 1] * x[hi - 1])
  }

  lemma {:induction false} DotSkipSplit(row: seq<int>, x: seq<int>, skip: nat, hi: nat)
    requires skip < hi <= |row| && hi <= |x|
    ensures Dot(row, x, 0, hi) == DotSkip(row, x, skip, hi) + row[skip] * x[skip]
  {
    if hi - 1 > skip {
      DotSkipSplit(row, x, skip, hi - 1);
    } else {
      DotSkipOfBefore(row, x, skip, hi - 1);
    }
  }

  lemma {:induction false} DotSkipOfBefore(row: seq<int>, x: seq<int>, skip: nat, hi: nat)
    requires hi <= skip && hi <= |row| && hi <= |x|
    ensures DotSkip(row, x, skip, hi) == Dot(row, x, 0, hi)
  {
    if hi > 0 { DotSkipOfBefore(row, x, skip, hi - 1); }
  }

  /** Columns where the row is zero do not contribute. */
  lemma {:induction false} DotSkipAgrees(row: seq<int>, x: seq<int>, y: seq<int>, skip: nat, hi: nat)
    requires hi <= |row| && hi <= |x| && hi <= |y|
    requires forall c :: 0 <= c < hi && c != skip && row[c] != 0 ==> x[c] == y[c]
    ensures DotSkip(row, x, skip, hi) == DotSkip(row, y, skip, hi)
  {
    if hi > 0 { DotSkipAgrees(row, x, y, skip, hi - 1); }
  }

  /** Rows k-1 down to 0 in turn: the right-hand side is the target minus every
      other column's contribution; a non-zero remainder (Rust's truncating `%`)
      rejects the candidate, otherwise the pivot variable becomes the quotient. */
  function BackSubst(m: IntMatrix, pivotCols: seq<nat>, pivotVals: seq<int>, nb: nat, sol: seq<int>, k: nat)
    : (r: Option<seq<int>>)
    requires Echelon(m, pivotCols, pivotVals, nb) && |sol| == nb && k <= |pivotCols|
    ensures r.Some? ==> |r.value| == nb
    decreases k
  {
    if k == 0 then Some(sol)
    else
      var i := k - 1;
      var rhs := m[i][nb] - DotSkip(m[i], sol, pivotCols[i], nb);
      if TruncRem(rhs, pivotVals[i]) != 0 then None
      else BackSubst(m, pivotCols, pivotVals, nb, sol[pivotCols[i] := TruncDiv(rhs, pivotVals[i])], k - 1)
  }

  /** Row i of an echelon system says: pivot value * x[pivot] = target minus the other columns. */
  lemma PivotRowEquation(m: IntMatrix, pivotCols: seq<nat>, pivotVals: seq<int>, nb: nat, i: nat, x: seq<int>)
    requires Echelon(m, pivotCols, pivotVals, nb) && i < |pivotCols| && |x| == nb
    ensures RowHolds(m[i], x, nb) <==>
      pivotVals[i] * x[pivotCols[i]] == m[i][nb] - DotSkip(m[i], x, pivotCols[i], nb)
  {
    DotSkipSplit(m[i], x, pivotCols[i], nb);
  }

  /** Every row back substitution handles holds for what it returns, and the
      columns it does not handle keep their values. */
  lemma {:induction false} BackSubstSolves(m: IntMatrix, pivotCols: seq<nat>, pivotVals: seq<int>, nb: nat,
                                           sol: seq<int>, k: nat)
    requires Echelon(m, pivotCols, pivotVals, nb) && |sol| == nb && k <= |pivotCols|
    requires BackSubst(m, pivotCols, pivotVals, nb, sol, k).Some?
    ensures forall c :: 0 <= c < nb && c !in pivotCols[..k] ==>
      BackSubst(m, pivotCols, pivotVals, nb, sol, k).value[c] == sol[c]
    ensures forall i :: 0 <= i < k ==> RowHolds(m[i], BackSubst(m, pivotCols, pivotVals, nb, sol, k).value, nb)
    decreases k
  {
    if k > 0 {
      var i := k - 1;
      var pc, pv := pivotCols[i], pivotVals[i];
      var rhs := m[i][nb] - DotSkip(m[i], sol, pc, nb);
      TruncAgreesWhenExact(rhs, pv);
      var v := TruncDiv(rhs, pv);
      assert pv * v == rhs;
      var sol' := sol[pc := v];
      var y := BackSubst(m, pivotCols, pivotVals, nb, sol', k - 1).value;
      BackSubstSolves(m, pivotCols, pivotVals, nb, sol', k - 1);
      assert pivotCols[..k] == pivotCols[..k - 1] + [pc];
      forall c | 0 <= c < nb && c != pc && m[i][c] != 0 ensures y[c] == sol[c] {
        assert c > pc;
        assert c !in pivotCols[..k - 1];
      }
      assert y[pc] == v by { assert pc !in pivotCols[..k - 1]; }
      DotSkipAgrees(m[i], y, sol, pc, nb);
      PivotRowEquation(m, pivotCols, pivotVals, nb, i, y);
    }
  }

  /** A vector that satisfies the handled rows and agrees with `sol` off their
      pivots is exactly what back substitution produces: its divisions are exact. */
  lemma {:induction false} BackSubstUnique(m: IntMatrix, pivotCols: seq<nat>, pivotVals: seq<int>, nb: nat,
                                           sol: seq<int>, x: seq<int>, k: nat)
    requires Echelon(m, pivotCols, pivotVals, nb) && |sol| == nb && |x| == nb && k <= |pivotCols|
    requires forall i :: 0 <= i < k ==> RowHolds(m[i], x, nb)
    requires forall c :: 0 <= c < nb && c !in pivotCols[..k] ==> x[c] == sol[c]
    ensures BackSubst(m, pivotCols, pivotVals, nb, sol, k) == Some(x)
    decreases k
  {
    if k == 0 {
      forall c | 0 <= c < nb ensures x[c] == sol[c] {
        assert c !in pivotCols[..0];
      }
      assert x == sol;
    } else {
      var i := k - 1;
      var pc, pv := pivotCols[i], pivotVals[i];
      assert pivotCols[..k] == pivotCols[..k - 1] + [pc];
      forall c | 0 <= c < nb && c != pc && m[i][c] != 0 ensures x[c] == sol[c] {
        assert c > pc;
        forall j | 0 <= j < k ensures pivotCols[j] != c {
        }
      }
      DotSkipAgrees(m[i], x, sol, pc, nb);
      PivotRowEquation(m, pivotCols, pivotVals, nb, i, x);
      var rhs := m[i][nb] - DotSkip(m[i], sol, pc, nb);
      ExactQuotient(rhs, pv, x[pc]);
      TruncAgreesWhenExact(rhs, pv);
      BackSubstUnique(m, pivotCols, pivotVals, nb, sol[pc := x[pc]], x, k - 1);
    }
  }

  /** What one leaf of the search yields for the vector `current`: None when a
      division is inexact or some entry is negative, otherwise the total. */
  function Leaf(m: IntMatrix, pivotCols: seq<nat>, pivotVals: seq<int>, nb: nat, current: seq<int>): Option<int>
    requires Echelon(m, pivotCols, pivotVals, nb) && |current| == nb
  {
    match BackSubst(m, pivotCols, pivotVals, nb, current, |pivotCols|)
    case None => None
    case Some(solution) => if NonNegative(solution) then Some(Sum(solution)) else None
  }

  /** A leaf value is the total of a non-negative solution that keeps the
      leaf's values off the pivot columns. */
  lemma LeafSolves(m: IntMatrix, pivotCols: seq<nat>, pivotVals: seq<int>, nb: nat, current: seq<int>)
    requires Echelon(m, pivotCols, pivotVals, nb) && !Contradiction(m, nb) && |current| == nb
    requires Leaf(m, pivotCols, pivotVals, nb, current).Some?
    ensures exists y :: (|y| == nb && Solves(m, y, nb) && NonNegative(y) &&
      Sum(y) == Leaf(m, pivotCols, pivotVals, nb, current).value &&
      forall c :: 0 <= c < nb && c !in pivotCols ==> y[c] == current[c])
  {
    var y := BackSubst(m, pivotCols, pivotVals, nb, current, |pivotCols|).value;
    BackSubstSolves(m, pivotCols, pivotVals, nb, current, |pivotCols|);
    RowsBelowPivotsHold(m, pivotCols, pivotVals, nb, y);
    assert pivotCols[..|pivotCols|] == pivotCols;
  }

  /** Every non-negative solution is found by the leaf that carries its values
      off the pivot columns. */
  lemma LeafFinds(m: IntMatrix, pivotCols: seq<nat>, pivotVals: seq<int>, nb: nat, current: seq<int>, x: seq<int>)
    requires Echelon(m, pivotCols, pivotVals, nb) && |current| == nb && |x| == nb
    requires Solves(m, x, nb) && NonNegative(x)
    requires forall c :: 0 <= c < nb && c !in pivotCols ==> x[c] == current[c]
    ensures Leaf(m, pivotCols, pivotVals, nb, current) == Some(Sum(x))
  {
    assert pivotCols[..|pivotCols|] == pivotCols;
    BackSubstUnique(m, pivotCols, pivotVals, nb, current, x, |pivotCols|);
  }

  // ---------------------------------------------------------------------------
  // The search box over the free columns

  /** What `search_free_vars_v2` reads but never changes: the eliminated matrix,
      its pivots, the free columns and the largest value tried for each. */
  datatype Space = Space(m: IntMatrix, pivotCols: seq<nat>, pivotVals: seq<int>, nb: nat,
                         free: seq<nat>, maxVal: nat)

  ghost predicate ValidSpace(s: Space)
  {
    Echelon(s.m, s.pivotCols, s.pivotVals, s.nb) &&
    Day10Lights.Increasing(s.free) && (forall i :: 0 <= i < |s.free| ==> s.free[i] < s.nb) &&
    (forall c: nat :: c in s.free <==> c < s.nb && c !in s.pivotCols)
  }

  /** The `current` vector once free column free[j] holds vals[j] for j < |vals|
      and every other entry is still 0. */
  function Fill(nb: nat, free: seq<nat>, vals: seq<int>): (r: seq<int>)
    requires |vals| <= |free| && forall i :: 0 <= i < |free| ==> free[i] < nb
    ensures |r| == nb
  {
    if |vals| == 0 then seq(nb, _ => 0)
    else Fill(nb, free, vals[..|vals| - 1])[free[|vals| - 1] := vals[|vals| - 1]]
  }

  lemma {:induction false} FillAt(nb: nat, free: seq<nat>, vals: seq<int>)
    requires |vals| <= |free| && Day10Lights.Increasing(free) && forall i :: 0 <= i < |free| ==> free[i] < nb
    ensures forall j :: 0 <= j < |vals| ==> Fill(nb, free, vals)[free[j]] == vals[j]
    ensures forall c :: 0 <= c < nb && c !in free[..|vals|] ==> Fill(nb, free, vals)[c] == 0
  {
    if |vals| > 0 {
      FillAt(nb, free, vals[..|vals| - 1]);
      assert free[..|vals|] == free[..|vals| - 1] + [free[|vals| - 1]];
    }
  }

  lemma FillExtend(nb: nat, free: seq<nat>, prefix: seq<int>, v: int)
    requires |prefix| < |free| && Day10Lights.Increasing(free) && forall i :: 0 <= i < |free| ==> free[i] < nb
    ensures Fill(nb, free, prefix + [v]) == Fill(nb, free, prefix)[free[|prefix|] := v]
    ensures Fill(nb, free, prefix)[free[|prefix|]] == 0
    ensures Sum(Fill(nb, free, prefix + [v])) == Sum(Fill(nb, free, prefix)) + v
  {
    assert (prefix + [v])[..|prefix|] == prefix;
    FillAt(nb, free, prefix);
    assert free[|prefix|] !in free[..|prefix|];
    SumUpdate(Fill(nb, free, prefix), free[|prefix|], v);
  }

  /** The leaf reached with free values `vals`. */
  function LeafOf(s: Space, vals: seq<int>): Option<int>
    requires ValidSpace(s) && |vals| == |s.free|
  {
    Leaf(s.m, s.pivotCols, s.pivotVals, s.nb, Fill(s.nb, s.free, vals))
  }

  function MinOpt(a: Option<int>, b: Option<int>): (r: Option<int>)
    ensures r.None? <==> a.None? && b.None?
    ensures r.Some? ==> (r == a || r == b) && (a.Some? ==> r.value <= a.value) && (b.Some? ==> r.value <= b.value)
  {
    if a.None? then b else if b.None? then a else Some(Min(a.value, b.value))
  }

  /** `(*min_presses).min(sum)` for a leaf that yields a total, unchanged otherwise. */
  function MinWith(a: int, b: Option<int>): (r: int)
    ensures r <= a && (b.Some? ==> r <= b.value) && (r == a || (b.Some? && r == b.value))
  {
    if b.Some? && b.value < a then b.value else a
  }

  /** `vals` assigns every free column and keeps `prefix` for the first ones;
      the others lie in [0, maxVal]. */
  predicate Extends(s: Space, prefix: seq<int>, vals: seq<int>)
  {
    |vals| == |s.free| && |prefix| <= |vals| && vals[..|prefix|] == prefix &&
    forall j :: |prefix| <= j < |vals| ==> 0 <= vals[j] <= s.maxVal
  }

  /** Best leaf total over every way of completing `prefix` inside the box. */
  function BoxBest(s: Space, prefix: seq<int>): Option<int>
    requires ValidSpace(s) && |prefix| <= |s.free|
    decreases |s.free| - |prefix|, 1
  {
    if |prefix| == |s.free| then LeafOf(s, prefix) else RangeBest(s, prefix, s.maxVal + 1)
  }

  /** Best leaf total when the next free column takes a value below n. */
  function RangeBest(s: Space, prefix: seq<int>, n: nat): Option<int>
    requires ValidSpace(s) && |prefix| < |s.free|
    decreases |s.free| - |prefix|, 0, n
  {
    if n == 0 then None else MinOpt(RangeBest(s, prefix, n - 1), BoxBest(s, prefix + [n - 1]))
  }

  /** Every completion of `prefix` in the box with a leaf total bounds the best from below. */
  lemma {:induction false} BoxLower(s: Space, prefix: seq<int>, vals: seq<int>)
    requires ValidSpace(s) && |prefix| <= |s.free| && Extends(s, prefix, vals) && LeafOf(s, vals).Some?
    ensures BoxBest(s, prefix).Some? && BoxBest(s, prefix).value <= LeafOf(s, vals).value
    decreases |s.free| - |prefix|, 1
  {
    if |prefix| == |s.free| {
      assert vals == vals[..|prefix|];
    } else {
      RangeLower(s, prefix, s.maxVal + 1, vals);
    }
  }

  lemma {:induction false} RangeLower(s: Space, prefix: seq<int>, n: nat, vals: seq<int>)
    requires ValidSpace(s) && |prefix| < |s.free| && Extends(s, prefix, vals) && LeafOf(s, vals).Some?
    requires vals[|prefix|] < n
    ensures RangeBest(s, prefix, n).Some? && RangeBest(s, prefix, n).value <= LeafOf(s, vals).value
    decreases |s.free| - |prefix|, 0, n
  {
    if vals[|prefix|] == n - 1 {
      assert vals[..|prefix| + 1] == vals[..|prefix|] + [vals[|prefix|]];
      BoxLower(s, prefix + [n - 1], vals);
    } else {
      RangeLower(s, prefix, n - 1, vals);
    }
  }

  /** The best is the total of some completion of `prefix` in the box. */
  lemma {:induction false} BoxAttained(s: Space, prefix: seq<int>)
    requires ValidSpace(s) && |prefix| <= |s.free| && BoxBest(s, prefix).Some?
    ensures exists vals :: Extends(s, prefix, vals) && LeafOf(s, vals) == BoxBest(s, prefix)
    decreases |s.free| - |prefix|, 1
  {
    if |prefix| == |s.free| {
      assert Extends(s, prefix, prefix) by { assert prefix[..|prefix|] == prefix; }
    } else {
      RangeAttained(s, prefix, s.maxVal + 1);
    }
  }

  lemma {:induction false} RangeAttained(s: Space, prefix: seq<int>, n: nat)
    requires ValidSpace(s) && |prefix| < |s.free| && n <= s.maxVal + 1 && RangeBest(s, prefix, n).Some?
    ensures exists vals :: Extends(s, prefix, vals) && vals[|prefix|] < n && LeafOf(s, vals) == RangeBest(s, prefix, n)
    decreases |s.free| - |prefix|, 0, n
  {
    var rest, here := RangeBest(s, prefix, n - 1), BoxBest(s, prefix + [n - 1]);
    if RangeBest(s, prefix, n) == here {
      BoxAttained(s, prefix + [n - 1]);
      var vals :| Extends(s, prefix + [n - 1], vals) && LeafOf(s, vals) == here;
      assert vals[..|prefix|] == vals[..|prefix| + 1][..|prefix|];
      assert vals[|prefix|] == vals[..|prefix| + 1][|prefix|];
    } else {
      RangeAttained(s, prefix, n - 1);
    }
  }

  /** A leaf total is at least the sum of the vector at any earlier point of the
      search, as long as the later free values are non-negative. */
  lemma LeafAtLeast(s: Space, vals: seq<int>, k: nat)
    requires ValidSpace(s) && |vals| == |s.free| && k <= |vals| && LeafOf(s, vals).Some?
    requires forall j :: k <= j < |vals| ==> vals[j] >= 0
    ensures LeafOf(s, vals).value >= Sum(Fill(s.nb, s.free, vals[..k]))
  {
    var nb, free := s.nb, s.free;
    var cur := Fill(nb, free, vals);
    var early := Fill(nb, free, vals[..k]);
    var y := BackSubst(s.m, s.pivotCols, s.pivotVals, nb, cur, |s.pivotCols|).value;
    BackSubstSolves(s.m, s.pivotCols, s.pivotVals, nb, cur, |s.pivotCols|);
    assert s.pivotCols[..|s.pivotCols|] == s.pivotCols;
    FillAt(nb, free, vals);
    FillAt(nb, free, vals[..k]);
    assert free[..|vals|] == free;
    forall c | 0 <= c < nb ensures early[c] <= y[c] {
      if c in free {
        var j :| 0 <= j < |free| && free[j] == c;
        if j < k {
          assert vals[..k][j] == vals[j];
        } else {
          assert c !in free[..k];
        }
      }
    }
    SumMonotone(early, y);
  }

  /** The pruning in `search_free_vars_v2`: once the vector's sum reaches the
      running minimum at value v, no value from v up finds a smaller total. */
  lemma PruneSound(s: Space, prefix: seq<int>, v: int, bound: int)
    requires ValidSpace(s) && |prefix| < |s.free|
    requires Sum(Fill(s.nb, s.free, prefix + [v])) >= bound
    ensures forall w :: v <= w <= s.maxVal ==>
      BoxBest(s, prefix + [w]).None? || BoxBest(s, prefix + [w]).value >= bound
  {
    FillExtend(s.nb, s.free, prefix, v);
    forall w | v <= w <= s.maxVal && BoxBest(s, prefix + [w]).Some?
      ensures BoxBest(s, prefix + [w]).value >= bound
    {
      FillExtend(s.nb, s.free, prefix, w);
      BoxAttained(s, prefix + [w]);
      var vals :| Extends(s, prefix + [w], vals) && LeafOf(s, vals) == BoxBest(s, prefix + [w]);
      LeafAtLeast(s, vals, |prefix| + 1);
    }
  }

  /** Values whose subtrees cannot beat the running minimum may be skipped. */
  lemma {:induction false} RangeSkip(s: Space, prefix: seq<int>, lo: nat, n: nat, a: int)
    requires ValidSpace(s) && |prefix| < |s.free| && lo <= n
    requires forall w :: lo <= w < n ==>
      BoxBest(s, prefix + [w]).None? || BoxBest(s, prefix + [w]).value >= MinWith(a, RangeBest(s, prefix, lo))
    ensures MinWith(a, RangeBest(s, prefix, n)) == MinWith(a, RangeBest(s, prefix, lo))
    decreases n
  {
    if lo < n {
      RangeSkip(s, prefix, lo, n - 1, a);
    }
  }

  /** Folding one more value into the running minimum. */
  lemma RangeStep(s: Space, prefix: seq<int>, val: nat, a: int)
    requires ValidSpace(s) && |prefix| < |s.free|
    ensures MinWith(MinWith(a, RangeBest(s, prefix, val)), BoxBest(s, prefix + [val])) ==
            MinWith(a, RangeBest(s, prefix, val + 1))
  {
  }

  /** The `break` of the value loop loses nothing. */
  lemma PruneRest(s: Space, prefix: seq<int>, val: nat, a: int)
    requires ValidSpace(s) && |prefix| < |s.free| && val <= s.maxVal
    requires Sum(Fill(s.nb, s.free, prefix + [val])) >= MinWith(a, RangeBest(s, prefix, val))
    ensures MinWith(a, RangeBest(s, prefix, s.maxVal + 1)) == MinWith(a, RangeBest(s, prefix, val))
  {
    PruneSound(s, prefix, val, MinWith(a, RangeBest(s, prefix, val)));
    RangeSkip(s, prefix, val, s.maxVal + 1, a);
  }

  // ---------------------------------------------------------------------------
  // The search

  /** One leaf of `search_free_vars_v2`: back substitution from the last pivot
      row up on a copy of `current`, giving up on an inexact division, then the
      total if every entry is non-negative. */
  method EvaluateLeaf(s: Space, current: seq<int>) returns (r: Option<int>)
    requires ValidSpace(s) && |current| == s.nb
    ensures r == Leaf(s.m, s.pivotCols, s.pivotVals, s.nb, current)
  {
    var m, nb := s.m, s.nb;
    var solution := current;
    var k := |s.pivotCols|;
    while k > 0
      invariant 0 <= k <= |s.pivotCols| && |solution| == nb
      invariant BackSubst(m, s.pivotCols, s.pivotVals, nb, solution, k) ==
                BackSubst(m, s.pivotCols, s.pivotVals, nb, current, |s.pivotCols|)
    {
      var i := k - 1;
      var pivotCol, pivotVal := s.pivotCols[i], s.pivotVals[i];
      var rhs := m[i][nb];
      var c := 0;
      while c < nb
        invariant 0 <= c <= nb
        invariant rhs == m[i][nb] - DotSkip(m[i], solution, pivotCol, c)
      {
        if c != pivotCol {
          rhs := rhs - m[i][c] * solution[c];
        }
        c := c + 1;
      }
      if TruncRem(rhs, pivotVal) != 0 {
        return None;
      }
      solution := solution[pivotCol := TruncDiv(rhs, pivotVal)];
      k := k - 1;
    }
    if NonNegative(solution) {
      return Some(Sum(solution));
    }
    return None;
  }

  /** `search_free_vars_v2`: free column free[varIdx] takes the values 0, 1, ...,
      maxVal in turn, stopping as soon as the vector's sum reaches the running
      minimum, and the search recurses on the next free column; the entry is
      reset to 0 on the way out.  The new minimum folds in the best leaf total
      of the whole sub-box. */
  method Search(s: Space, varIdx: nat, current: array<int>, minPresses: int, ghost prefix: seq<int>)
    returns (newMin: int)
    requires ValidSpace(s) && current.Length == s.nb
    requires varIdx == |prefix| <= |s.free| && current[..] == Fill(s.nb, s.free, prefix)
    modifies current
    ensures current[..] == old(current[..])
    ensures newMin == MinWith(minPresses, BoxBest(s, prefix))
    decreases |s.free| - varIdx
  {
    if varIdx == |s.free| {
      var leaf := EvaluateLeaf(s, current[..]);
      newMin := if leaf.Some? then Min(minPresses, leaf.value) else minPresses;
      return;
    }
    var v := s.free[varIdx];
    ghost var base := current[..];
    FillExtend(s.nb, s.free, prefix, 0);
    newMin := minPresses;
    var val := 0;
    while val <= s.maxVal
      invariant 0 <= val <= s.maxVal + 1
      invariant current[..] == base[v := current[v]]
      invariant newMin == MinWith(minPresses, RangeBest(s, prefix, val))
      decreases s.maxVal + 1 - val
    {
      current[v] := val;
      FillExtend(s.nb, s.free, prefix, val);
      assert current[..] == Fill(s.nb, s.free, prefix + [val]);
      var currentSum := Sum(current[..]);
      if currentSum >= newMin {
        PruneRest(s, prefix, val, minPresses);
        break;
      }
      newMin := Search(s, varIdx + 1, current, newMin, prefix + [val]);
      RangeStep(s, prefix, val, minPresses);
      val := val + 1;
    }
    assert newMin == MinWith(minPresses, RangeBest(s, prefix, s.maxVal + 1));
    current[v] := 0;
    assert current[..] == base;
  }

  // ---------------------------------------------------------------------------
  // solve_joltage

  /** The bound on each free value: `max_joltage * n_buttons`, cast to usize,
      or 0 when there is no free column. */
  function MaxFree(machine: Machine, free: seq<nat>): nat
  {
    if |free| == 0 then 0 else AsUsize(MaxOr0(machine.joltages) * |machine.buttons|)
  }

  /** Every free column of `x` lies in [0, bound]. */
  predicate InBox(x: seq<int>, free: seq<nat>, bound: nat)
  {
    forall i :: 0 <= i < |free| && free[i] < |x| ==> 0 <= x[free[i]] <= bound
  }

  /** The box search's best total is that of a press vector that configures
      the machine and lies in the box. */
  lemma BoxBestAttainedBy(machine: Machine, m0: IntMatrix, s: Space)
    requires Encodes(m0, machine) && ValidSpace(s) && s.nb == |machine.buttons| && !Contradiction(s.m, s.nb)
    requires forall x :: |x| == s.nb ==> (Solves(s.m, x, s.nb) <==> Solves(m0, x, s.nb))
    requires BoxBest(s, []).Some?
    ensures exists x :: Configures(machine, x) && InBox(x, s.free, s.maxVal) && Sum(x) == BoxBest(s, []).value
  {
    var nb, free := s.nb, s.free;
    BoxAttained(s, []);
    var vals :| Extends(s, [], vals) && LeafOf(s, vals) == BoxBest(s, []);
    var cur := Fill(nb, free, vals);
    LeafSolves(s.m, s.pivotCols, s.pivotVals, nb, cur);
    var y :| |y| == nb && Solves(s.m, y, nb) && NonNegative(y) &&
      Sum(y) == Leaf(s.m, s.pivotCols, s.pivotVals, nb, cur).value &&
      forall c :: 0 <= c < nb && c !in s.pivotCols ==> y[c] == cur[c];
    NonPivotInBox(s, vals, y);
    MatrixMeansConfigures(m0, machine, y);
  }

  /** A vector that agrees with a completion in the box on every non-pivot
      column lies in the box. */
  lemma NonPivotInBox(s: Space, vals: seq<int>, y: seq<int>)
    requires ValidSpace(s) && Extends(s, [], vals) && |y| == s.nb
    requires forall c :: 0 <= c < s.nb && c !in s.pivotCols ==> y[c] == Fill(s.nb, s.free, vals)[c]
    ensures InBox(y, s.free, s.maxVal)
  {
    FillAt(s.nb, s.free, vals);
    forall i | 0 <= i < |s.free| ensures 0 <= y[s.free[i]] <= s.maxVal {
      assert s.free[i] !in s.pivotCols;
    }
  }

  /** No press vector in the box that configures the machine has a smaller total. */
  lemma BoxBestIsMinimal(machine: Machine, m0: IntMatrix, s: Space, x: seq<int>)
    requires Encodes(m0, machine) && ValidSpace(s) && s.nb == |machine.buttons|
    requires forall x :: |x| == s.nb ==> (Solves(s.m, x, s.nb) <==> Solves(m0, x, s.nb))
    requires Configures(machine, x) && InBox(x, s.free, s.maxVal)
    ensures BoxBest(s, []).Some? && BoxBest(s, []).value <= Sum(x)
  {
    var nb, free := s.nb, s.free;
    MatrixMeansConfigures(m0, machine, x);
    var vals := seq(|free|, i requires 0 <= i < |free| => x[free[i]]);
    var cur := Fill(nb, free, vals);
    FillAt(nb, free, vals);
    assert free[..|vals|] == free;
    forall c | 0 <= c < nb && c !in s.pivotCols ensures x[c] == cur[c] {
      var j :| 0 <= j < |free| && free[j] == c;
    }
    LeafFinds(s.m, s.pivotCols, s.pivotVals, nb, cur, x);
    assert Extends(s, [], vals);
    BoxLower(s, [], vals);
  }

  /** `solve_joltage`: Some(0) without counters; otherwise None when the
      eliminated system is inconsistent, and else the smallest total of a
      non-negative press vector found in the box, None when the search found
      none below the `i64::MAX` sentinel. */
  method SolveJoltage(machine: Machine) returns (r: Option<int>, ghost free: seq<nat>)
    ensures |machine.joltages| == 0 ==> r == Some(0)
    ensures forall i :: 0 <= i < |free| ==> free[i] < |machine.buttons|
    ensures r.Some? ==> r.value < I64_MAX
    ensures r.Some? ==> exists x :: Configures(machine, x) && InBox(x, free, MaxFree(machine, free)) && Sum(x) == r.value
    ensures forall x :: Configures(machine, x) && InBox(x, free, MaxFree(machine, free)) && Sum(x) < I64_MAX ==>
      r.Some? && r.value <= Sum(x)
  {
    var nc, nb := |machine.joltages|, |machine.buttons|;
    free := [];
    if nc == 0 {
      var zeros := seq(nb, _ => 0);
      SumOfZeros(nb);
      assert Configures(machine, zeros);
      forall x | Configures(machine, x) ensures 0 <= Sum(x) {
        SumNonNegative(x);
      }
      return Some(0), free;
    }
    var m0 := BuildMatrix(machine);
    var m, pivotCols, pivotVals := Eliminate(m0, nc, nb);
    var inconsistent := HasContradiction(m, nb);
    if inconsistent {
      forall x | Configures(machine, x) ensures false {
        MatrixMeansConfigures(m0, machine, x);
        ContradictionHasNoSolution(m, nb, x);
      }
      return None, free;
    }
    var freeVars := Day10Lights.FreeColumns(pivotCols, nb);
    free := freeVars;
    var maxJoltage := MaxOr0(machine.joltages);
    var maxFree := if |freeVars| == 0 then 0 else AsUsize(maxJoltage * nb);
    var space := Space(m, pivotCols, pivotVals, nb, freeVars, maxFree);
    var current := new int[nb](_ => 0);
    assert current[..] == Fill(nb, freeVars, []);
    var minPresses := Search(space, 0, current, I64_MAX, []);
    if BoxBest(space, []).Some? {
      BoxBestAttainedBy(machine, m0, space);
    }
    forall x | Configures(machine, x) && InBox(x, freeVars, maxFree)
      ensures BoxBest(space, []).Some? && BoxBest(space, []).value <= Sum(x)
    {
      BoxBestIsMinimal(machine, m0, space, x);
    }
    if minPresses == I64_MAX {
      r := None;
    } else {
      r := Some(minPresses);
    }
  }

  /** Total of the results that are present. */
  function SumPresent(results: seq<Option<int>>): int
  {
    if |results| == 0 then 0
    else
      var last := match results[|results| - 1] case None => 0 case Some(k) => k;
      SumPresent(results[..|results| - 1]) + last
  }

  /** The facts `SolveJoltage` establishes about one machine's result. */
  ghost predicate JoltageAnswer(machine: Machine, r: Option<int>, free: seq<nat>)
  {
    (|machine.joltages| == 0 ==> r == Some(0)) &&
    (r.Some? ==> r.value < I64_MAX) &&
    (r.Some? ==> exists x :: Configures(machine, x) && InBox(x, free, MaxFree(machine, free)) && Sum(x) == r.value) &&
    (forall x :: Configures(machine, x) && InBox(x, free, MaxFree(machine, free)) && Sum(x) < I64_MAX ==>
      r.Some? && r.value <= Sum(x))
  }

  /** `solve_part2`: the results of `solve_joltage` summed, skipping the machines
      without one. */
  method SolvePart2(machines: seq<Machine>)
    returns (total: int, ghost answers: seq<Option<int>>, ghost frees: seq<seq<nat>>)
    ensures |answers| == |machines| == |frees| && total == SumPresent(answers)
    ensures forall i :: 0 <= i < |machines| ==> JoltageAnswer(machines[i], answers[i], frees[i])
  {
    total, answers, frees := 0, [], [];
    var i := 0;
    while i < |machines|
      invariant 0 <= i <= |machines| && |answers| == i == |frees| && total == SumPresent(answers)
      invariant forall k :: 0 <= k < i ==> JoltageAnswer(machines[k], answers[k], frees[k])
    {
      var r, free := SolveJoltage(machines[i]);
      assert JoltageAnswer(machines[i], r, free);
      answers, frees := answers + [r], frees + [free];
      assert answers[..i] == answers[..|answers| - 1];
      if r.Some? {
        total := total + r.value;
      }
      i := i + 1;
    }
  }
}

/** The indicator-light half of the machine puzzle (src/day10.rs, `solve_machine`):
    pressing a button toggles the lights it lists, so a press plan is a vector
    over GF(2).  The solver builds the augmented matrix, reduces it to reduced
    row-echelon form, rejects inconsistent systems, and tries every assignment
    of the free columns, keeping the fewest presses. */
module Day10Lights {
  import opened Common
  import opened Day10Machine

  type Matrix = seq<seq<bool>>

  // ---------------------------------------------------------------------------
  // Meaning of a press plan

  /** XOR over the columns c in [lo, hi) of row[c] && x[c]. */
  function Parity(row: seq<bool>, x: seq<bool>, lo: nat, hi: nat): bool
    requires lo <= hi <= |row| && hi <= |x|
    decreases hi - lo
  {
    if lo == hi then false else Parity(row, x, lo, hi - 1) != (row[hi - 1] && x[hi - 1])
  }

  /** Row `row` of an augmented system with `nb` unknowns holds for `x`. */
  predicate RowHolds(row: seq<bool>, x: seq<bool>, nb: nat)
    requires |row| == nb + 1 && |x| == nb
  {
    Parity(row, x, 0, nb) == row[nb]
  }

  predicate Solves(m: Matrix, x: seq<bool>, nb: nat)
    requires Shaped(m, |m|, nb + 1) && |x| == nb
  {
    forall r :: 0 <= r < |m| ==> RowHolds(m[r], x, nb)
  }

  /** Light `i` ends up toggled by an odd number of the pressed buttons among the first `n`. */
  function Toggled(buttons: seq<seq<nat>>, x: seq<bool>, i: nat, n: nat): bool
    requires n <= |buttons| && n <= |x|
  {
    if n == 0 then false else Toggled(buttons, x, i, n - 1) != (x[n - 1] && i in buttons[n - 1])
  }

  /** Pressing exactly the buttons `j` with `x[j]` lights exactly the `#` positions. */
  predicate Reaches(machine: Machine, x: seq<bool>)
  {
    |x| == |machine.buttons| &&
    forall i :: 0 <= i < |machine.target| ==>
      Toggled(machine.buttons, x, i, |x|) == machine.target[i]
  }

  /** Number of buttons pressed. */
  function Presses(x: seq<bool>): nat
  {
    if |x| == 0 then 0 else Presses(x[..|x| - 1]) + (if x[|x| - 1] then 1 else 0)
  }

  lemma {:induction false} PressesAtMost(x: seq<bool>)
    ensures Presses(x) <= |x|
  {
    if |x| > 0 { PressesAtMost(x[..|x| - 1]); }
  }

  // ---------------------------------------------------------------------------
  // The augmented matrix

  /** Entry [i][j] is set iff button j lists light i; the last column is the target. */
  predicate Encodes(m: Matrix, machine: Machine)
  {
    var nl, nb := |machine.target|, |machine.buttons|;
    Shaped(m, nl, nb + 1) &&
    (forall i, j :: 0 <= i < nl && 0 <= j < nb ==> (m[i][j] <==> i in machine.buttons[j])) &&
    (forall i :: 0 <= i < nl ==> m[i][nb] == machine.target[i])
  }

  lemma {:induction false} ParityIsToggled(m: Matrix, machine: Machine, x: seq<bool>, i: nat, n: nat)
    requires Encodes(m, machine) && |x| == |machine.buttons|
    requires i < |machine.target| && n <= |x|
    ensures Parity(m[i], x, 0, n) == Toggled(machine.buttons, x, i, n)
  {
    if n > 0 { ParityIsToggled(m, machine, x, i, n - 1); }
  }

  /** The matrix system and the button semantics have the same solutions. */
  lemma MatrixMeansPresses(m: Matrix, machine: Machine, x: seq<bool>)
    requires Encodes(m, machine) && |x| == |machine.buttons|
    ensures Solves(m, x, |machine.buttons|) <==> Reaches(machine, x)
  {
    forall i | 0 <= i < |machine.target|
      ensures RowHolds(m[i], x, |x|) <==> Toggled(machine.buttons, x, i, |x|) == machine.target[i]
    {
      ParityIsToggled(m, machine, x, i, |x|);
    }
  }

  /** Fill the matrix as `solve_machine` does: all false, then one `true` per listed
      in-range light, then the target column. */
  method BuildMatrix(machine: Machine) returns (m: Matrix)
    ensures Encodes(m, machine)
  {
    var nl, nb := |machine.target|, |machine.buttons|;
    m := seq(nl, _ => seq(nb + 1, _ => false));
    var j := 0;
    while j < nb
      invariant 0 <= j <= nb
      invariant Shaped(m, nl, nb + 1)
      invariant forall i, k :: 0 <= i < nl && 0 <= k < nb + 1 ==>
        (m[i][k] <==> k < j && i in machine.buttons[k])
    {
      var button := machine.buttons[j];
      var p := 0;
      while p < |button|
        invariant 0 <= p <= |button|
        invariant Shaped(m, nl, nb + 1)
        invariant forall i, k :: 0 <= i < nl && 0 <= k < nb + 1 && k != j ==>
          (m[i][k] <==> k < j && i in machine.buttons[k])
        invariant forall i :: 0 <= i < nl ==> (m[i][j] <==> i in button[..p])
      {
        var lightPos := button[p];
        if lightPos < nl {
          m := m[lightPos := m[lightPos][j := true]];
        }
        assert button[..p + 1] == button[..p] + [lightPos];
        p := p + 1;
      }
      assert button[..p] == button;
      j := j + 1;
    }
    var i := 0;
    while i < nl
      invariant 0 <= i <= nl
      invariant Shaped(m, nl, nb + 1)
      invariant forall r, k :: 0 <= r < nl && 0 <= k < nb ==> (m[r][k] <==> r in machine.buttons[k])
      invariant forall r :: 0 <= r < i ==> m[r][nb] == machine.target[r]
    {
      m := m[i := m[i][nb := machine.target[i]]];
      i := i + 1;
    }
  }

  // ---------------------------------------------------------------------------
  // Row operations keep the solutions

  function XorRow(a: seq<bool>, b: seq<bool>): (r: seq<bool>)
    requires |a| == |b|
    ensures |r| == |a| && forall c :: 0 <= c < |a| ==> r[c] == (a[c] != b[c])
  {
    seq(|a|, c requires 0 <= c < |a| => a[c] != b[c])
  }

  lemma {:induction false} ParityOfXor(a: seq<bool>, b: seq<bool>, x: seq<bool>, lo: nat, hi: nat)
    requires |a| == |b| && lo <= hi <= |a| && hi <= |x|
    ensures Parity(XorRow(a, b), x, lo, hi) == (Parity(a, x, lo, hi) != Parity(b, x, lo, hi))
    decreases hi - lo
  {
    if lo < hi { ParityOfXor(a, b, x, lo, hi - 1); }
  }

  lemma {:induction false} ParitySplit(row: seq<bool>, x: seq<bool>, lo: nat, mid: nat, hi: nat)
    requires lo <= mid <= hi <= |row| && hi <= |x|
    ensures Parity(row, x, lo, hi) == (Parity(row, x, lo, mid) != Parity(row, x, mid, hi))
    decreases hi - mid
  {
    if mid < hi { ParitySplit(row, x, lo, mid, hi - 1); }
  }

  /** Columns where the row is clear do not contribute. */
  lemma {:induction false} ParityAgrees(row: seq<bool>, x: seq<bool>, y: seq<bool>, lo: nat, hi: nat)
    requires lo <= hi <= |row| && hi <= |x| && hi <= |y|
    requires forall c :: lo <= c < hi && row[c] ==> x[c] == y[c]
    ensures Parity(row, x, lo, hi) == Parity(row, y, lo, hi)
    decreases hi - lo
  {
    if lo < hi { ParityAgrees(row, x, y, lo, hi - 1); }
  }

  lemma {:induction false} ParityOfClear(row: seq<bool>, x: seq<bool>, lo: nat, hi: nat)
    requires lo <= hi <= |row| && hi <= |x|
    requires forall c :: lo <= c < hi ==> !row[c]
    ensures !Parity(row, x, lo, hi)
    decreases hi - lo
  {
    if lo < hi { ParityOfClear(row, x, lo, hi - 1); }
  }

  /** XOR-ing row k into another row r keeps the solution set. */
  lemma XorKeepsSolutions(m: Matrix, r: nat, k: nat, nb: nat)
    requires Shaped(m, |m|, nb + 1) && r < |m| && k < |m| && r != k
    ensures Shaped(m[r := XorRow(m[r], m[k])], |m|, nb + 1)
    ensures forall x :: |x| == nb ==>
      (Solves(m[r := XorRow(m[r], m[k])], x, nb) <==> Solves(m, x, nb))
  {
    var m' := m[r := XorRow(m[r], m[k])];
    forall x | |x| == nb
      ensures Solves(m', x, nb) <==> Solves(m, x, nb)
    {
      ParityOfXor(m[r], m[k], x, 0, nb);
      assert RowHolds(m'[r], x, nb) <==> (RowHolds(m[r], x, nb) <==> RowHolds(m[k], x, nb));
      if Solves(m', x, nb) {
        assert RowHolds(m'[k], x, nb) && RowHolds(m'[r], x, nb);
        forall i | 0 <= i < |m| ensures RowHolds(m[i], x, nb) {
          assert RowHolds(m'[i], x, nb);
        }
      }
      if Solves(m, x, nb) {
        forall i | 0 <= i < |m| ensures RowHolds(m'[i], x, nb) {
          assert RowHolds(m[i], x, nb);
        }
      }
    }
  }

  lemma SwapKeepsSolutions(m: Matrix, i: nat, j: nat, nb: nat)
    requires Shaped(m, |m|, nb + 1) && i < |m| && j < |m|
    ensures Shaped(SwapRows(m, i, j), |m|, nb + 1)
    ensures forall x :: |x| == nb ==> (Solves(SwapRows(m, i, j), x, nb) <==> Solves(m, x, nb))
  {
    var m' := SwapRows(m, i, j);
    forall x | |x| == nb
      ensures Solves(m', x, nb) <==> Solves(m, x, nb)
    {
      if Solves(m', x, nb) {
        forall r | 0 <= r < |m| ensures RowHolds(m[r], x, nb) {
          var s := if r == i then j else if r == j then i else r;
          assert m'[s] == m[r];
          assert RowHolds(m'[s], x, nb);
        }
      }
      if Solves(m, x, nb) {
        forall r | 0 <= r < |m| ensures RowHolds(m'[r], x, nb) {
          var s := if r == i then j else if r == j then i else r;
          assert m'[r] == m[s];
          assert RowHolds(m[s], x, nb);
        }
      }
    }
  }

  // ---------------------------------------------------------------------------
  // Reduced row-echelon form

  /** The shape elimination has reached once the columns before `col` are done:
      pivot columns increase and are unit columns, a pivot row is clear left of
      its pivot, and the rows below the pivots are clear on the done columns. */
  predicate EchelonUpTo(m: Matrix, pivotCols: seq<nat>, nb: nat, col: nat)
    requires Shaped(m, |m|, nb + 1) && col <= nb
  {
    |pivotCols| <= |m| &&
    (forall i :: 0 <= i < |pivotCols| ==> pivotCols[i] < col) &&
    (forall i, j :: 0 <= i < j < |pivotCols| ==> pivotCols[i] < pivotCols[j]) &&
    (forall i, r :: 0 <= i < |pivotCols| && 0 <= r < |m| ==> (m[r][pivotCols[i]] <==> r == i)) &&
    (forall i, c :: 0 <= i < |pivotCols| && 0 <= c < pivotCols[i] ==> !m[i][c]) &&
    (forall r, c :: |pivotCols| <= r < |m| && 0 <= c < col ==> !m[r][c])
  }

  predicate Rref(m: Matrix, pivotCols: seq<nat>, nb: nat)
    requires Shaped(m, |m|, nb + 1)
  {
    EchelonUpTo(m, pivotCols, nb, nb)
  }

  /** `matrix[row][c] ^= matrix[src][c]` for every column c. */
  method XorRowInto(m: Matrix, row: nat, src: nat, nb: nat) returns (m': Matrix)
    requires Shaped(m, |m|, nb + 1) && row < |m| && src < |m| && row != src
    ensures m' == m[row := XorRow(m[row], m[src])]
  {
    m' := m;
    var c := 0;
    while c <= nb
      invariant 0 <= c <= nb + 1
      invariant |m'| == |m| && |m'[row]| == nb + 1
      invariant forall r :: 0 <= r < |m| && r != row ==> m'[r] == m[r]
      invariant forall k :: 0 <= k < nb + 1 ==> m'[row][k] == if k < c then m[row][k] != m[src][k] else m[row][k]
    {
      m' := m'[row := m'[row][c := m'[row][c] != m'[src][c]]];
      c := c + 1;
    }
    assert m'[row] == XorRow(m[row], m[src]);
  }

  /** One pivot step keeps the echelon shape, one column further. */
  lemma PivotStep(m: Matrix, m': Matrix, pivotCols: seq<nat>, nb: nat, col: nat)
    requires Shaped(m, |m|, nb + 1) && Shaped(m', |m|, nb + 1) && col < nb
    requires EchelonUpTo(m, pivotCols, nb, col) && |pivotCols| < |m|
    requires m[|pivotCols|][col]
    requires forall r :: 0 <= r < |m| ==>
      m'[r] == if r != |pivotCols| && m[r][col] then XorRow(m[r], m[|pivotCols|]) else m[r]
    ensures EchelonUpTo(m', pivotCols + [col], nb, col + 1)
  {
    var cur := |pivotCols|;
    var pc := pivotCols + [col];
    forall r, c | 0 <= r < |m| && 0 <= c < col ensures m'[r][c] == m[r][c] {
      assert !m[cur][c];
    }
    forall i, r | 0 <= i < |pc| && 0 <= r < |m| ensures m'[r][pc[i]] <==> r == i {
      if i < cur {
        assert m'[r][pc[i]] == m[r][pc[i]];
      }
    }
  }

  /** The first row at or below `from` whose bit in column `col` is set. */
  method FindPivotRow(m: Matrix, col: nat, from: nat, nb: nat) returns (pivotRow: Option<nat>)
    requires Shaped(m, |m|, nb + 1) && col < nb && from <= |m|
    ensures pivotRow.None? ==> forall r :: from <= r < |m| ==> !m[r][col]
    ensures pivotRow.Some? ==> from <= pivotRow.value < |m| && m[pivotRow.value][col]
    ensures pivotRow.Some? ==> forall r :: from <= r < pivotRow.value ==> !m[r][col]
  {
    pivotRow := None;
    var row := from;
    while row < |m|
      invariant from <= row <= |m|
      invariant forall r :: from <= r < row ==> !m[r][col]
    {
      if m[row][col] {
        pivotRow := Some(row);
        return;
      }
      row := row + 1;
    }
  }

  /** XOR the pivot row into every other row that has the pivot column set. */
  method ClearColumn(m: Matrix, pivotRow: nat, col: nat, nb: nat) returns (m': Matrix)
    requires Shaped(m, |m|, nb + 1) && pivotRow < |m| && col < nb
    ensures Shaped(m', |m|, nb + 1)
    ensures forall r :: 0 <= r < |m| ==>
      m'[r] == if r != pivotRow && m[r][col] then XorRow(m[r], m[pivotRow]) else m[r]
    ensures forall x :: |x| == nb ==> (Solves(m', x, nb) <==> Solves(m, x, nb))
  {
    m' := m;
    var row := 0;
    while row < |m|
      invariant 0 <= row <= |m|
      invariant Shaped(m', |m|, nb + 1)
      invariant forall r :: 0 <= r < |m| ==>
        m'[r] == if r < row && r != pivotRow && m[r][col] then XorRow(m[r], m[pivotRow]) else m[r]
      invariant forall x :: |x| == nb ==> (Solves(m', x, nb) <==> Solves(m, x, nb))
    {
      if row != pivotRow && m'[row][col] {
        XorKeepsSolutions(m', row, pivotRow, nb);
        m' := XorRowInto(m', row, pivotRow, nb);
      }
      row := row + 1;
    }
  }

  /** Gaussian elimination over GF(2) to reduced row-echelon form, as in
      `solve_machine`: for each column, the first row at or below the current
      row with a set bit becomes the pivot row, is swapped up, and is XOR-ed into
      every other row that has that bit. */
  method Reduce(m0: Matrix, nl: nat, nb: nat) returns (m: Matrix, pivotCols: seq<nat>)
    requires Shaped(m0, nl, nb + 1)
    ensures Shaped(m, nl, nb + 1) && Rref(m, pivotCols, nb)
    ensures |pivotCols| <= nl && |pivotCols| <= nb
    ensures forall x :: |x| == nb ==> (Solves(m, x, nb) <==> Solves(m0, x, nb))
  {
    m, pivotCols := m0, [];
    var col := 0;
    while col < nb
      invariant col <= nb
      invariant Shaped(m, nl, nb + 1)
      invariant |pivotCols| <= col
      invariant EchelonUpTo(m, pivotCols, nb, col)
      invariant forall x :: |x| == nb ==> (Solves(m, x, nb) <==> Solves(m0, x, nb))
    {
      m, pivotCols := PivotColumn(m, pivotCols, col, nb);
      col := col + 1;
    }
  }

  /** One column of the elimination: find a row with a set bit at or below
      the next pivot row, swap it up and clear the column everywhere else. */
  method PivotColumn(m: Matrix, pivotCols: seq<nat>, col: nat, nb: nat) returns (m': Matrix, pivotCols': seq<nat>)
    requires Shaped(m, |m|, nb + 1) && col < nb && EchelonUpTo(m, pivotCols, nb, col)
    ensures Shaped(m', |m|, nb + 1) && EchelonUpTo(m', pivotCols', nb, col + 1)
    ensures |pivotCols| <= |pivotCols'| <= |pivotCols| + 1
    ensures forall x :: |x| == nb ==> (Solves(m', x, nb) <==> Solves(m, x, nb))
  {
    var currentRow := |pivotCols|;
    var pivotRow := FindPivotRow(m, col, currentRow, nb);
    if pivotRow.None? {
      assert EchelonUpTo(m, pivotCols, nb, col + 1);
      return m, pivotCols;
    }
    var pr := pivotRow.value;
    var mS := m;
    if pr != currentRow {
      SwapKeepsSolutions(m, currentRow, pr, nb);
      mS := SwapRows(m, currentRow, pr);
    }
    m' := ClearColumn(mS, currentRow, col, nb);
    PivotStep(mS, m', pivotCols, nb, col);
    pivotCols' := pivotCols + [col];
  }

  // ---------------------------------------------------------------------------
  // Inconsistency

  predicate ZeroCoefficients(row: seq<bool>, nb: nat)
    requires nb <= |row|
  {
    forall c :: 0 <= c < nb ==> !row[c]
  }

  /** Some row reads 0 = 1. */
  predicate Contradiction(m: Matrix, nb: nat)
    requires Shaped(m, |m|, nb + 1)
  {
    exists r :: 0 <= r < |m| && ZeroCoefficients(m[r], nb) && m[r][nb]
  }

  method HasContradiction(m: Matrix, nb: nat) returns (found: bool)
    requires Shaped(m, |m|, nb + 1)
    ensures found <==> Contradiction(m, nb)
  {
    var r := 0;
    while r < |m|
      invariant 0 <= r <= |m|
      invariant forall k :: 0 <= k < r ==> !(ZeroCoefficients(m[k], nb) && m[k][nb])
    {
      if ZeroCoefficients(m[r], nb) && m[r][nb] {
        return true;
      }
      r := r + 1;
    }
    return false;
  }

  lemma ContradictionHasNoSolution(m: Matrix, nb: nat, x: seq<bool>)
    requires Shaped(m, |m|, nb + 1) && |x| == nb && Contradiction(m, nb)
    ensures !Solves(m, x, nb)
  {
    var r :| 0 <= r < |m| && ZeroCoefficients(m[r], nb) && m[r][nb];
    ParityOfClear(m[r], x, 0, nb);
  }

  // ---------------------------------------------------------------------------
  // Free columns and masks

  predicate Increasing(s: seq<nat>)
  {
    forall i, j :: 0 <= i < j < |s| ==> s[i] < s[j]
  }

  /** The columns without a pivot, in increasing order. */
  method FreeColumns(pivotCols: seq<nat>, nb: nat) returns (free: seq<nat>)
    requires forall i :: 0 <= i < |pivotCols| ==> pivotCols[i] < nb
    ensures Increasing(free) && forall i :: 0 <= i < |free| ==> free[i] < nb
    ensures forall c: nat :: c in free <==> c < nb && c !in pivotCols
  {
    var isPivot := seq(nb, _ => false);
    var i := 0;
    while i < |pivotCols|
      invariant 0 <= i <= |pivotCols| && |isPivot| == nb
      invariant forall c :: 0 <= c < nb ==> (isPivot[c] <==> c in pivotCols[..i])
    {
      isPivot := isPivot[pivotCols[i] := true];
      assert pivotCols[..i + 1] == pivotCols[..i] + [pivotCols[i]];
      i := i + 1;
    }
    assert pivotCols[..i] == pivotCols;
    free := [];
    var c := 0;
    while c < nb
      invariant 0 <= c <= nb
      invariant Increasing(free)
      invariant forall k :: 0 <= k < |free| ==> free[k] < c
      invariant forall k: nat :: k in free <==> k < c && k !in pivotCols
    {
      if !isPivot[c] {
        free := free + [c];
      }
      c := c + 1;
    }
  }

  function Pow2(k: nat): (r: nat)
    ensures r >= 1
  {
    if k == 0 then 1 else 2 * Pow2(k - 1)
  }

  /** `(mask >> i) & 1 == 1` */
  predicate Bit(mask: nat, i: nat)
  {
    if i == 0 then mask % 2 == 1 else Bit(mask / 2, i - 1)
  }

  /** The mask whose bit i is bits[i]. */
  function MaskOf(bits: seq<bool>): nat
  {
    if |bits| == 0 then 0 else (if bits[0] then 1 else 0) + 2 * MaskOf(bits[1..])
  }

  lemma {:induction false} MaskOfBits(bits: seq<bool>)
    ensures MaskOf(bits) < Pow2(|bits|)
    ensures forall i :: 0 <= i < |bits| ==> Bit(MaskOf(bits), i) == bits[i]
  {
    if |bits| > 0 {
      MaskOfBits(bits[1..]);
      var v := MaskOf(bits);
      assert v / 2 == MaskOf(bits[1..]);
      forall i | 0 <= i < |bits| ensures Bit(v, i) == bits[i] {
        if i > 0 { assert bits[1..][i - 1] == bits[i]; }
      }
    }
  }

  /** The solution vector after `solution[free[i]] = bit i of mask` for i < k. */
  function AssignFree(nb: nat, free: seq<nat>, mask: nat, k: nat): (r: seq<bool>)
    requires k <= |free| && forall i :: 0 <= i < |free| ==> free[i] < nb
    ensures |r| == nb
  {
    if k == 0 then seq(nb, _ => false) else AssignFree(nb, free, mask, k - 1)[free[k - 1] := Bit(mask, k - 1)]
  }

  lemma {:induction false} AssignFreeAt(nb: nat, free: seq<nat>, mask: nat, k: nat)
    requires k <= |free| && Increasing(free) && forall i :: 0 <= i < |free| ==> free[i] < nb
    ensures forall i :: 0 <= i < k ==> AssignFree(nb, free, mask, k)[free[i]] == Bit(mask, i)
    ensures forall c :: 0 <= c < nb && c !in free[..k] ==> !AssignFree(nb, free, mask, k)[c]
  {
    if k > 0 {
      AssignFreeAt(nb, free, mask, k - 1);
      assert free[..k] == free[..k - 1] + [free[k - 1]];
    }
  }

  // ---------------------------------------------------------------------------
  // Back substitution

  /** Rows k-1 down to 0 in turn set their pivot variable to the target bit XOR
      the contributions of the later columns. */
  function BackSubst(m: Matrix, pivotCols: seq<nat>, nb: nat, sol: seq<bool>, k: nat): (r: seq<bool>)
    requires Shaped(m, |m|, nb + 1) && |sol| == nb
    requires k <= |pivotCols| <= |m| && forall i :: 0 <= i < |pivotCols| ==> pivotCols[i] < nb
    ensures |r| == nb
    decreases k
  {
    if k == 0 then sol
    else
      var i := k - 1;
      var v := m[i][nb] != Parity(m[i], sol, pivotCols[i] + 1, nb);
      BackSubst(m, pivotCols, nb, sol[pivotCols[i] := v], k - 1)
  }

  /** The candidate press plan for one mask. */
  function Candidate(m: Matrix, pivotCols: seq<nat>, free: seq<nat>, nb: nat, mask: nat): seq<bool>
    requires Shaped(m, |m|, nb + 1) && |pivotCols| <= |m|
    requires forall i :: 0 <= i < |pivotCols| ==> pivotCols[i] < nb
    requires forall i :: 0 <= i < |free| ==> free[i] < nb
  {
    BackSubst(m, pivotCols, nb, AssignFree(nb, free, mask, |free|), |pivotCols|)
  }

  /** Row i of a reduced system says: x[pivot] = target XOR the later columns. */
  lemma PivotRowEquation(m: Matrix, pivotCols: seq<nat>, nb: nat, i: nat, x: seq<bool>)
    requires Shaped(m, |m|, nb + 1) && Rref(m, pivotCols, nb) && i < |pivotCols| && |x| == nb
    ensures RowHolds(m[i], x, nb) <==> x[pivotCols[i]] == (m[i][nb] != Parity(m[i], x, pivotCols[i] + 1, nb))
  {
    var pc := pivotCols[i];
    ParitySplit(m[i], x, 0, pc, nb);
    ParitySplit(m[i], x, pc, pc + 1, nb);
    ParityOfClear(m[i], x, 0, pc);
  }

  /** Every row back substitution handles holds afterwards, and the columns it
      does not handle keep their values. */
  lemma {:induction false} BackSubstSolves(m: Matrix, pivotCols: seq<nat>, nb: nat, sol: seq<bool>, k: nat)
    requires Shaped(m, |m|, nb + 1) && Rref(m, pivotCols, nb) && |sol| == nb && k <= |pivotCols|
    ensures forall c :: 0 <= c < nb && c !in pivotCols[..k] ==> BackSubst(m, pivotCols, nb, sol, k)[c] == sol[c]
    ensures forall i :: 0 <= i < k ==> RowHolds(m[i], BackSubst(m, pivotCols, nb, sol, k), nb)
    decreases k
  {
    if k > 0 {
      var i := k - 1;
      var pc := pivotCols[i];
      var v := m[i][nb] != Parity(m[i], sol, pc + 1, nb);
      var sol' := sol[pc := v];
      var y := BackSubst(m, pivotCols, nb, sol', k - 1);
      BackSubstSolves(m, pivotCols, nb, sol', k - 1);
      assert pivotCols[..k] == pivotCols[..k - 1] + [pc];
      forall c | pc < c < nb ensures y[c] == sol[c] {
        assert c !in pivotCols[..k - 1];
      }
      assert y[pc] == v by { assert pc !in pivotCols[..k - 1]; }
      ParityAgrees(m[i], y, sol, pc + 1, nb);
      PivotRowEquation(m, pivotCols, nb, i, y);
    }
  }

  /** A vector that satisfies the handled rows and agrees with `sol` off their
      pivots is what back substitution produces. */
  lemma {:induction false} BackSubstUnique(m: Matrix, pivotCols: seq<nat>, nb: nat, sol: seq<bool>, x: seq<bool>, k: nat)
    requires Shaped(m, |m|, nb + 1) && Rref(m, pivotCols, nb) && |sol| == nb && |x| == nb && k <= |pivotCols|
    requires forall i :: 0 <= i < k ==> RowHolds(m[i], x, nb)
    requires forall c :: 0 <= c < nb && c !in pivotCols[..k] ==> x[c] == sol[c]
    ensures BackSubst(m, pivotCols, nb, sol, k) == x
    decreases k
  {
    if k == 0 {
      assert forall c :: 0 <= c < nb ==> c !in pivotCols[..0];
    } else {
      var i := k - 1;
      var pc := pivotCols[i];
      var v := m[i][nb] != Parity(m[i], sol, pc + 1, nb);
      assert pivotCols[..k] == pivotCols[..k - 1] + [pc];
      forall c | pc + 1 <= c < nb ensures x[c] == sol[c] {
        forall j | 0 <= j < k ensures pivotCols[j] != c {
        }
      }
      ParityAgrees(m[i], x, sol, pc + 1, nb);
      PivotRowEquation(m, pivotCols, nb, i, x);
      BackSubstUnique(m, pivotCols, nb, sol[pc := v], x, k - 1);
    }
  }

  /** In a consistent reduced system every mask yields a solution. */
  lemma CandidateSolves(m: Matrix, pivotCols: seq<nat>, free: seq<nat>, nb: nat, mask: nat)
    requires Shaped(m, |m|, nb + 1) && Rref(m, pivotCols, nb) && !Contradiction(m, nb)
    requires forall i :: 0 <= i < |free| ==> free[i] < nb
    ensures Solves(m, Candidate(m, pivotCols, free, nb, mask), nb)
  {
    var y := Candidate(m, pivotCols, free, nb, mask);
    BackSubstSolves(m, pivotCols, nb, AssignFree(nb, free, mask, |free|), |pivotCols|);
    forall r | |pivotCols| <= r < |m| ensures RowHolds(m[r], y, nb) {
      ParityOfClear(m[r], y, 0, nb);
      assert !(ZeroCoefficients(m[r], nb) && m[r][nb]);
    }
  }

  /** Every solution of a reduced system is the candidate of the mask read off its free columns. */
  lemma SolutionIsCandidate(m: Matrix, pivotCols: seq<nat>, free: seq<nat>, nb: nat, x: seq<bool>)
    requires Shaped(m, |m|, nb + 1) && Rref(m, pivotCols, nb) && |x| == nb && Solves(m, x, nb)
    requires Increasing(free) && forall i :: 0 <= i < |free| ==> free[i] < nb
    requires forall c: nat :: c in free <==> c < nb && c !in pivotCols
    ensures MaskOf(seq(|free|, i requires 0 <= i < |free| => x[free[i]])) < Pow2(|free|)
    ensures Candidate(m, pivotCols, free, nb, MaskOf(seq(|free|, i requires 0 <= i < |free| => x[free[i]]))) == x
  {
    var bits := seq(|free|, i requires 0 <= i < |free| => x[free[i]]);
    var mask := MaskOf(bits);
    MaskOfBits(bits);
    var sol := AssignFree(nb, free, mask, |free|);
    AssignFreeAt(nb, free, mask, |free|);
    assert free[..|free|] == free && pivotCols[..|pivotCols|] == pivotCols;
    forall c | 0 <= c < nb && c !in pivotCols ensures x[c] == sol[c] {
      var i :| 0 <= i < |free| && free[i] == c;
      assert bits[i] == x[c];
    }
    BackSubstUnique(m, pivotCols, nb, sol, x, |pivotCols|);
  }

  // ---------------------------------------------------------------------------
  // Minimum over the masks

  /** `min_presses` after the masks 0 .. hi-1, starting from `usize::MAX`. */
  function MinPresses(m: Matrix, pivotCols: seq<nat>, free: seq<nat>, nb: nat, hi: nat): nat
    requires Shaped(m, |m|, nb + 1) && |pivotCols| <= |m|
    requires forall i :: 0 <= i < |pivotCols| ==> pivotCols[i] < nb
    requires forall i :: 0 <= i < |free| ==> free[i] < nb
  {
    if hi == 0 then USIZE_MAX
    else Min(MinPresses(m, pivotCols, free, nb, hi - 1), Presses(Candidate(m, pivotCols, free, nb, hi - 1)))
  }

  lemma {:induction false} MinPressesIsMin(m: Matrix, pivotCols: seq<nat>, free: seq<nat>, nb: nat, hi: nat)
    requires Shaped(m, |m|, nb + 1) && |pivotCols| <= |m| && nb <= USIZE_MAX
    requires forall i :: 0 <= i < |pivotCols| ==> pivotCols[i] < nb
    requires forall i :: 0 <= i < |free| ==> free[i] < nb
    ensures forall j :: 0 <= j < hi ==>
      MinPresses(m, pivotCols, free, nb, hi) <= Presses(Candidate(m, pivotCols, free, nb, j))
    ensures hi > 0 ==>
      exists j :: 0 <= j < hi && MinPresses(m, pivotCols, free, nb, hi) == Presses(Candidate(m, pivotCols, free, nb, j))
  {
    if hi > 0 {
      MinPressesIsMin(m, pivotCols, free, nb, hi - 1);
      PressesAtMost(Candidate(m, pivotCols, free, nb, hi - 1));
    }
  }

  /** One pass of the mask loop: free variables from the bits of `mask`, then
      pivot variables by back substitution from the last pivot row up. */
  method BuildCandidate(m: Matrix, pivotCols: seq<nat>, free: seq<nat>, nb: nat, mask: nat)
    returns (solution: seq<bool>)
    requires Shaped(m, |m|, nb + 1) && Rref(m, pivotCols, nb)
    requires forall i :: 0 <= i < |free| ==> free[i] < nb
    ensures solution == Candidate(m, pivotCols, free, nb, mask)
  {
    solution := seq(nb, _ => false);
    var i := 0;
    while i < |free|
      invariant 0 <= i <= |free|
      invariant solution == AssignFree(nb, free, mask, i)
    {
      solution := solution[free[i] := Bit(mask, i)];
      i := i + 1;
    }
    var k := |pivotCols|;
    while k > 0
      invariant 0 <= k <= |pivotCols| && |solution| == nb
      invariant BackSubst(m, pivotCols, nb, solution, k) == Candidate(m, pivotCols, free, nb, mask)
    {
      var row := k - 1;
      var pivotCol := pivotCols[row];
      var val := m[row][nb];
      var c := pivotCol + 1;
      while c < nb
        invariant pivotCol + 1 <= c <= nb
        invariant val == (m[row][nb] != Parity(m[row], solution, pivotCol + 1, c))
      {
        if m[row][c] {
          val := val != solution[c];
        }
        c := c + 1;
      }
      solution := solution[pivotCol := val];
      k := k - 1;
    }
  }

  /** The free columns and the mask loop of `solve_machine`. */
  method MaskSearch(m: Matrix, pivotCols: seq<nat>, nb: nat) returns (free: seq<nat>, minPresses: nat)
    requires Shaped(m, |m|, nb + 1) && Rref(m, pivotCols, nb)
    ensures Increasing(free) && (forall i :: 0 <= i < |free| ==> free[i] < nb)
    ensures forall c: nat :: c in free <==> c < nb && c !in pivotCols
    ensures minPresses == MinPresses(m, pivotCols, free, nb, Pow2(|free|))
  {
    free := FreeColumns(pivotCols, nb);
    var numFree := |free|;
    minPresses := USIZE_MAX;
    var mask := 0;
    while mask < Pow2(numFree)
      invariant mask <= Pow2(numFree)
      invariant minPresses == MinPresses(m, pivotCols, free, nb, mask)
    {
      var solution := BuildCandidate(m, pivotCols, free, nb, mask);
      minPresses := Min(minPresses, Presses(solution));
      mask := mask + 1;
    }
  }

  /** What the mask loop's result means for the original matrix. */
  lemma MaskMinimumIsOptimal(machine: Machine, m0: Matrix, m: Matrix, pivotCols: seq<nat>, free: seq<nat>, v: nat)
    requires Encodes(m0, machine) && |machine.buttons| <= USIZE_MAX
    requires var nb := |machine.buttons|;
      Shaped(m, |m0|, nb + 1) && Rref(m, pivotCols, nb) && !Contradiction(m, nb) &&
      (forall x :: |x| == nb ==> (Solves(m, x, nb) <==> Solves(m0, x, nb))) &&
      Increasing(free) && (forall i :: 0 <= i < |free| ==> free[i] < nb) &&
      (forall c: nat :: c in free <==> c < nb && c !in pivotCols)
    requires v == MinPresses(m, pivotCols, free, |machine.buttons|, Pow2(|free|))
    ensures exists x :: Reaches(machine, x) && Presses(x) == v
    ensures forall x :: Reaches(machine, x) ==> v <= Presses(x)
  {
    MaskMinimumAttained(machine, m0, m, pivotCols, free, v);
    MaskMinimumIsLowest(machine, m0, m, pivotCols, free, v);
  }

  /** Some plan lighting the pattern takes the mask loop's minimum presses. */
  lemma MaskMinimumAttained(machine: Machine, m0: Matrix, m: Matrix, pivotCols: seq<nat>, free: seq<nat>, v: nat)
    requires Encodes(m0, machine) && |machine.buttons| <= USIZE_MAX
    requires var nb := |machine.buttons|;
      Shaped(m, |m0|, nb + 1) && Rref(m, pivotCols, nb) && !Contradiction(m, nb) &&
      (forall x :: |x| == nb ==> (Solves(m, x, nb) <==> Solves(m0, x, nb))) &&
      Increasing(free) && (forall i :: 0 <= i < |free| ==> free[i] < nb) &&
      (forall c: nat :: c in free <==> c < nb && c !in pivotCols)
    requires v == MinPresses(m, pivotCols, free, |machine.buttons|, Pow2(|free|))
    ensures exists x :: Reaches(machine, x) && Presses(x) == v
  {
    var nb := |machine.buttons|;
    var hi := Pow2(|free|);
    MinPressesIsMin(m, pivotCols, free, nb, hi);
    var j :| 0 <= j < hi && MinPresses(m, pivotCols, free, nb, hi) == Presses(Candidate(m, pivotCols, free, nb, j));
    var best := Candidate(m, pivotCols, free, nb, j);
    CandidateSolves(m, pivotCols, free, nb, j);
    MatrixMeansPresses(m0, machine, best);
  }

  /** No plan lighting the pattern takes fewer presses than the mask loop's minimum. */
  lemma MaskMinimumIsLowest(machine: Machine, m0: Matrix, m: Matrix, pivotCols: seq<nat>, free: seq<nat>, v: nat)
    requires Encodes(m0, machine) && |machine.buttons| <= USIZE_MAX
    requires var nb := |machine.buttons|;
      Shaped(m, |m0|, nb + 1) && Rref(m, pivotCols, nb) && !Contradiction(m, nb) &&
      (forall x :: |x| == nb ==> (Solves(m, x, nb) <==> Solves(m0, x, nb))) &&
      Increasing(free) && (forall i :: 0 <= i < |free| ==> free[i] < nb) &&
      (forall c: nat :: c in free <==> c < nb && c !in pivotCols)
    requires v == MinPresses(m, pivotCols, free, |machine.buttons|, Pow2(|free|))
    ensures forall x :: Reaches(machine, x) ==> v <= Presses(x)
  {
    var nb := |machine.buttons|;
    var hi := Pow2(|free|);
    MinPressesIsMin(m, pivotCols, free, nb, hi);
    forall x | Reaches(machine, x) ensures MinPresses(m, pivotCols, free, nb, hi) <= Presses(x) {
      MatrixMeansPresses(m0, machine, x);
      SolutionIsCandidate(m, pivotCols, free, nb, x);
    }
  }

  /** `solve_machine`: None when the system is inconsistent, otherwise the fewest
      presses over all assignments of the free columns, which is the fewest
      presses of any plan that lights the pattern. */
  method SolveMachine(machine: Machine) returns (r: Option<nat>)
    requires |machine.buttons| <= USIZE_MAX  // a Vec never holds more elements than usize::MAX
    ensures r.None? <==> forall x :: !Reaches(machine, x)
    ensures r.Some? ==> exists x :: Reaches(machine, x) && Presses(x) == r.value
    ensures r.Some? ==> forall x :: Reaches(machine, x) ==> r.value <= Presses(x)
    ensures r.Some? ==> r.value <= |machine.buttons|
    ensures r == Fewest(machine)
  {
    var nl, nb := |machine.target|, |machine.buttons|;
    var m0 := BuildMatrix(machine);
    var m, pivotCols := Reduce(m0, nl, nb);
    var inconsistent := HasContradiction(m, nb);
    if inconsistent {
      forall x | Reaches(machine, x) ensures false {
        MatrixMeansPresses(m0, machine, x);
        ContradictionHasNoSolution(m, nb, x);
      }
      OptimumIsFewest(machine, None);
      return None;
    }
    var free, minPresses := MaskSearch(m, pivotCols, nb);
    MaskMinimumIsOptimal(machine, m0, m, pivotCols, free, minPresses);
    r := Some(minPresses);
    OptimumIsFewest(machine, r);
    var x :| Reaches(machine, x) && Presses(x) == minPresses;
    PressesAtMost(x);
  }

  // ---------------------------------------------------------------------------
  // Reference: try every press plan

  /** The plan whose button j is pressed iff bit j of `mask` is set. */
  function PlanOf(mask: nat, n: nat): (x: seq<bool>)
    ensures |x| == n && forall j :: 0 <= j < n ==> x[j] == Bit(mask, j)
  {
    seq(n, j requires 0 <= j < n => Bit(mask, j))
  }

  /** Fewest presses among the plans of masks 0 .. hi-1 that light the pattern. */
  function FewestBelow(machine: Machine, hi: nat): Option<nat>
  {
    if hi == 0 then None
    else
      var x := PlanOf(hi - 1, |machine.buttons|);
      var rest := FewestBelow(machine, hi - 1);
      if !Reaches(machine, x) then rest
      else if rest.None? || Presses(x) < rest.value then Some(Presses(x))
      else rest
  }

  /** Brute force over all 2^buttons press plans. */
  function Fewest(machine: Machine): Option<nat>
  {
    FewestBelow(machine, Pow2(|machine.buttons|))
  }

  lemma {:induction false} FewestBelowIsMin(machine: Machine, hi: nat)
    ensures FewestBelow(machine, hi).None? ==>
      forall mask :: 0 <= mask < hi ==> !Reaches(machine, PlanOf(mask, |machine.buttons|))
    ensures FewestBelow(machine, hi).Some? ==>
      exists mask :: 0 <= mask < hi && Reaches(machine, PlanOf(mask, |machine.buttons|)) &&
        Presses(PlanOf(mask, |machine.buttons|)) == FewestBelow(machine, hi).value
    ensures FewestBelow(machine, hi).Some? ==>
      forall mask :: 0 <= mask < hi && Reaches(machine, PlanOf(mask, |machine.buttons|)) ==>
        FewestBelow(machine, hi).value <= Presses(PlanOf(mask, |machine.buttons|))
  {
    if hi > 0 {
      FewestBelowIsMin(machine, hi - 1);
    }
  }

  /** Every plan is the plan of some mask below 2^buttons. */
  lemma EveryPlanHasAMask(x: seq<bool>)
    ensures MaskOf(x) < Pow2(|x|) && PlanOf(MaskOf(x), |x|) == x
  {
    MaskOfBits(x);
  }

  /** The three facts `SolveMachine` proves pin its result down to the brute force. */
  lemma OptimumIsFewest(machine: Machine, r: Option<nat>)
    requires r.None? <==> forall x :: !Reaches(machine, x)
    requires r.Some? ==> exists x :: Reaches(machine, x) && Presses(x) == r.value
    requires r.Some? ==> forall x :: Reaches(machine, x) ==> r.value <= Presses(x)
    ensures r == Fewest(machine)
  {
    var nb := |machine.buttons|;
    var f := Fewest(machine);
    FewestBelowIsMin(machine, Pow2(nb));
    if r.Some? {
      var x :| Reaches(machine, x) && Presses(x) == r.value;
      EveryPlanHasAMask(x);
      assert Reaches(machine, PlanOf(MaskOf(x), nb));
      var mask :| 0 <= mask < Pow2(nb) && Reaches(machine, PlanOf(mask, nb)) && Presses(PlanOf(mask, nb)) == f.value;
      assert r.value <= f.value;
    }
  }

  /** `solve_part1`: the fewest presses summed over the machines that can be lit;
      machines that cannot be lit are skipped. */
  function Part1Total(machines: seq<Machine>): (total: nat)
    ensures forall i :: 0 <= i < |machines| && Fewest(machines[i]).Some? ==> Fewest(machines[i]).value <= total
    ensures total == 0 <==> forall i :: 0 <= i < |machines| ==> Fewest(machines[i]) in {None, Some(0)}
  {
    if |machines| == 0 then 0
    else
      var init := machines[..|machines| - 1];
      var last := match Fewest(machines[|machines| - 1]) case None => 0 case Some(k) => k;
      assert forall i :: 0 <= i < |init| ==> init[i] == machines[i];
      Part1Total(init) + last
  }

  method SolvePart1(machines: seq<Machine>) returns (total: nat)
    requires forall i :: 0 <= i < |machines| ==> |machines[i].buttons| <= USIZE_MAX
    ensures total == Part1Total(machines)
  {
    total := 0;
    var i := 0;
    while i < |machines|
      invariant 0 <= i <= |machines|
      invariant total == Part1Total(machines[..i])
    {
      var r := SolveMachine(machines[i]);
      assert machines[..i + 1][..i] == machines[..i];
      if r.Some? {
        total := total + r.value;
      }
      i := i + 1;
    }
    assert machines[..i] == machines;
  }
}

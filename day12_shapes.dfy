/** The polyomino shapes of src/day12.rs: reading a shape from its `#`
    picture, the eight rotations and flips, and their normalisation to the
    origin. */
module Day12Shapes {
  import opened Common

  /** A cell `(row, column)`, relative to the shape's own origin. */
  type Cell = (int, int)

  datatype Shape = Shape(cells: seq<Cell>)

  // ---------------------------------------------------------------------------
  // Shape::new

  /** The `#` cells among the first `n` characters of row `r`, left to right. */
  function RowCells(row: string, r: int, n: nat): seq<Cell>
    requires n <= |row|
  {
    if n == 0 then []
    else RowCells(row, r, n - 1) + (if row[n - 1] == '#' then [(r, n - 1)] else [])
  }

  /** The `#` cells of the first `m` rows, in row-major order. */
  function GridCells(picture: seq<string>, m: nat): seq<Cell>
    requires m <= |picture|
  {
    if m == 0 then []
    else GridCells(picture, m - 1) + RowCells(picture[m - 1], m - 1, |picture[m - 1]|)
  }

  /** `Shape::new`: one cell per `#`, scanning rows top to bottom and each row
      left to right. */
  method NewShape(picture: seq<string>) returns (s: Shape)
    ensures s.cells == GridCells(picture, |picture|)
  {
    var cells: seq<Cell> := [];
    var r := 0;
    while r < |picture|
      invariant 0 <= r <= |picture|
      invariant cells == GridCells(picture, r)
    {
      var c := 0;
      while c < |picture[r]|
        invariant 0 <= c <= |picture[r]|
        invariant cells == GridCells(picture, r) + RowCells(picture[r], r, c)
      {
        if picture[r][c] == '#' {
          cells := cells + [(r, c)];
        }
        c := c + 1;
      }
      r := r + 1;
    }
    s := Shape(cells);
  }

  lemma {:induction false} RowCellsMember(row: string, r: int, n: nat, cell: Cell)
    requires n <= |row|
    ensures cell in RowCells(row, r, n) <==> cell.0 == r && 0 <= cell.1 < n && row[cell.1] == '#'
  {
    if n > 0 {
      RowCellsMember(row, r, n - 1, cell);
    }
  }

  /** A cell belongs to the shape read from a picture exactly when the picture
      has a `#` there. */
  lemma {:induction false} GridCellsMember(picture: seq<string>, m: nat, cell: Cell)
    requires m <= |picture|
    ensures cell in GridCells(picture, m) <==>
            0 <= cell.0 < m && 0 <= cell.1 < |picture[cell.0]| && picture[cell.0][cell.1] == '#'
  {
    if m > 0 {
      GridCellsMember(picture, m - 1, cell);
      RowCellsMember(picture[m - 1], m - 1, |picture[m - 1]|, cell);
    }
  }

  /** `a` comes before `b` in row-major order. */
  predicate Before(a: Cell, b: Cell)
  {
    a.0 < b.0 || (a.0 == b.0 && a.1 < b.1)
  }

  predicate RowMajor(cells: seq<Cell>)
  {
    forall i, j :: 0 <= i < j < |cells| ==> Before(cells[i], cells[j])
  }

  lemma RowMajorAppend(a: seq<Cell>, b: seq<Cell>)
    requires RowMajor(a) && RowMajor(b)
    requires forall i, j :: 0 <= i < |a| && 0 <= j < |b| ==> Before(a[i], b[j])
    ensures RowMajor(a + b)
  {
    forall i, j | 0 <= i < j < |a + b|
      ensures Before((a + b)[i], (a + b)[j])
    {
      if j < |a| {
      } else if i >= |a| {
        assert (a + b)[i] == b[i - |a|] && (a + b)[j] == b[j - |a|];
      } else {
        assert (a + b)[i] == a[i] && (a + b)[j] == b[j - |a|];
      }
    }
  }

  lemma {:induction false} RowCellsRowMajor(row: string, r: int, n: nat)
    requires n <= |row|
    ensures RowMajor(RowCells(row, r, n))
  {
    if n > 0 {
      RowCellsRowMajor(row, r, n - 1);
      var a := RowCells(row, r, n - 1);
      forall i | 0 <= i < |a|
        ensures a[i].0 == r && a[i].1 < n - 1
      {
        RowCellsMember(row, r, n - 1, a[i]);
      }
      RowMajorAppend(a, if row[n - 1] == '#' then [(r, n - 1)] else []);
    }
  }

  /** The cells of a shape come out in strict row-major order, so no cell
      appears twice. */
  lemma {:induction false} GridCellsRowMajor(picture: seq<string>, m: nat)
    requires m <= |picture|
    ensures RowMajor(GridCells(picture, m))
  {
    if m > 0 {
      GridCellsRowMajor(picture, m - 1);
      var a := GridCells(picture, m - 1);
      var b := RowCells(picture[m - 1], m - 1, |picture[m - 1]|);
      RowCellsRowMajor(picture[m - 1], m - 1, |picture[m - 1]|);
      forall i, j | 0 <= i < |a| && 0 <= j < |b|
        ensures Before(a[i], b[j])
      {
        GridCellsMember(picture, m - 1, a[i]);
        RowCellsMember(picture[m - 1], m - 1, |picture[m - 1]|, b[j]);
      }
      RowMajorAppend(a, b);
    }
  }

  // ---------------------------------------------------------------------------
  // Rotations, flips and normalisation

  /** A quarter turn: `(r, c)` becomes `(c, -r)`. */
  function Rotated(s: Shape): (t: Shape)
    ensures |t.cells| == |s.cells|
  {
    Shape(seq(|s.cells|, i requires 0 <= i < |s.cells| => (s.cells[i].1, -s.cells[i].0)))
  }

  /** A mirror image: `(r, c)` becomes `(r, -c)`. */
  function Flipped(s: Shape): (t: Shape)
    ensures |t.cells| == |s.cells|
  {
    Shape(seq(|s.cells|, i requires 0 <= i < |s.cells| => (s.cells[i].0, -s.cells[i].1)))
  }

  /** Flipping twice gives the shape back. */
  lemma FlipTwice(s: Shape)
    ensures Flipped(Flipped(s)) == s
  {
    assert Flipped(Flipped(s)).cells == s.cells;
  }

  /** `k` quarter turns. */
  function Turned(s: Shape, k: nat): (t: Shape)
    ensures |t.cells| == |s.cells|
  {
    if k == 0 then s else Rotated(Turned(s, k - 1))
  }

  /** Four quarter turns give the shape back. */
  lemma FullTurn(s: Shape)
    ensures Turned(s, 4) == s
  {
    var t1 := Rotated(s);
    var t2 := Rotated(t1);
    var t3 := Rotated(t2);
    var t4 := Rotated(t3);
    assert Turned(s, 1) == t1 && Turned(s, 2) == t2 && Turned(s, 3) == t3 && Turned(s, 4) == t4;
    assert t4.cells == s.cells;
  }

  /** No cell listed twice. */
  predicate Distinct(cells: seq<Cell>)
  {
    forall i, j :: 0 <= i < j < |cells| ==> cells[i] != cells[j]
  }

  /** Turning and flipping move cells one-to-one, so they keep cells distinct. */
  lemma TransformsKeepDistinct(s: Shape)
    requires Distinct(s.cells)
    ensures Distinct(Rotated(s).cells) && Distinct(Flipped(s).cells)
  {
    forall i, j | 0 <= i < j < |s.cells|
      ensures Rotated(s).cells[i] != Rotated(s).cells[j]
    {
      assert s.cells[i] != s.cells[j];
    }
  }

  function MinRow(cells: seq<Cell>): (m: int)
    requires |cells| > 0
    ensures forall i :: 0 <= i < |cells| ==> m <= cells[i].0
    ensures exists i :: 0 <= i < |cells| && cells[i].0 == m
  {
    if |cells| == 1 then cells[0].0
    else Min(MinRow(cells[..|cells| - 1]), cells[|cells| - 1].0)
  }

  function MinCol(cells: seq<Cell>): (m: int)
    requires |cells| > 0
    ensures forall i :: 0 <= i < |cells| ==> m <= cells[i].1
    ensures exists i :: 0 <= i < |cells| && cells[i].1 == m
  {
    if |cells| == 1 then cells[0].1
    else Min(MinCol(cells[..|cells| - 1]), cells[|cells| - 1].1)
  }

  /** Every cell moved by `(dr, dc)`. */
  function Translated(s: Shape, dr: int, dc: int): (t: Shape)
    ensures |t.cells| == |s.cells|
  {
    Shape(seq(|s.cells|, i requires 0 <= i < |s.cells| => (s.cells[i].0 + dr, s.cells[i].1 + dc)))
  }

  /** Touching both axes from the non-negative side. */
  predicate IsNormalized(s: Shape)
  {
    |s.cells| == 0 ||
    ((forall i :: 0 <= i < |s.cells| ==> s.cells[i].0 >= 0 && s.cells[i].1 >= 0) &&
     (exists i :: 0 <= i < |s.cells| && s.cells[i].0 == 0) &&
     (exists j :: 0 <= j < |s.cells| && s.cells[j].1 == 0))
  }

  /** `normalized`: an empty shape is returned as it is; otherwise the shape
      is translated by its minimum row and minimum column. */
  function Normalized(s: Shape): (t: Shape)
    ensures |t.cells| == |s.cells|
    ensures IsNormalized(t)
  {
    if |s.cells| == 0 then
      s
    else
      var t := Translated(s, -MinRow(s.cells), -MinCol(s.cells));
      TranslatedToOrigin(s);
      t
  }

  lemma TranslatedToOrigin(s: Shape)
    requires |s.cells| > 0
    ensures IsNormalized(Translated(s, -MinRow(s.cells), -MinCol(s.cells)))
  {
    var t := Translated(s, -MinRow(s.cells), -MinCol(s.cells));
    var i :| 0 <= i < |s.cells| && s.cells[i].0 == MinRow(s.cells);
    var j :| 0 <= j < |s.cells| && s.cells[j].1 == MinCol(s.cells);
    assert t.cells[i].0 == 0 && t.cells[j].1 == 0;
  }

  /** Normalising a normalised shape changes nothing. */
  lemma NormalizeNormalized(s: Shape)
    requires IsNormalized(s)
    ensures Normalized(s) == s
  {
    if |s.cells| > 0 {
      var i :| 0 <= i < |s.cells| && s.cells[i].0 == 0;
      var j :| 0 <= j < |s.cells| && s.cells[j].1 == 0;
      assert MinRow(s.cells) == 0 && MinCol(s.cells) == 0;
      assert Normalized(s).cells == s.cells;
    }
  }

  // ---------------------------------------------------------------------------
  // rotations_and_flips

  /** The eight orientations in the order they are generated: each of the
      four turns, followed by its mirror image. */
  function Variations(s: Shape): (vs: seq<Shape>)
    ensures |vs| == 8
  {
    seq(8, i requires 0 <= i < 8 => if i % 2 == 0 then Turned(s, i / 2) else Flipped(Turned(s, i / 2)))
  }

  function NormalizedAll(vs: seq<Shape>): (ns: seq<Shape>)
    ensures |ns| == |vs|
  {
    seq(|vs|, i requires 0 <= i < |vs| => Normalized(vs[i]))
  }

  /** The first occurrence of each shape, in order. */
  function Dedup(xs: seq<Shape>): (ys: seq<Shape>)
  {
    if |xs| == 0 then []
    else
      var prefix := Dedup(xs[..|xs| - 1]);
      if xs[|xs| - 1] in prefix then prefix else prefix + [xs[|xs| - 1]]
  }

  /** `Dedup` keeps exactly the shapes of its input, each once. */
  lemma {:induction false} DedupProperties(xs: seq<Shape>)
    ensures forall x :: x in Dedup(xs) <==> x in xs
    ensures forall i, j :: 0 <= i < j < |Dedup(xs)| ==> Dedup(xs)[i] != Dedup(xs)[j]
    ensures |Dedup(xs)| <= |xs|
  {
    if |xs| > 0 {
      var init := xs[..|xs| - 1];
      DedupProperties(init);
      assert xs == init + [xs[|xs| - 1]];
    }
  }

  /** One more element of a prefix is kept when it is new. */
  lemma DedupStep(xs: seq<Shape>, j: nat)
    requires j < |xs|
    ensures Dedup(xs[..j + 1]) == if xs[j] in Dedup(xs[..j]) then Dedup(xs[..j]) else Dedup(xs[..j]) + [xs[j]]
  {
    assert xs[..j + 1][..j] == xs[..j];
  }

  /** The distinct normalised orientations, in order of generation. */
  function Orientations(s: Shape): seq<Shape>
  {
    Dedup(NormalizedAll(Variations(s)))
  }

  /** `rotations_and_flips`: the eight orientations are generated by four
      rounds of "keep, keep flipped, turn", then normalised and deduplicated. */
  method RotationsAndFlips(s: Shape) returns (unique: seq<Shape>)
    ensures unique == Orientations(s)
  {
    var variations: seq<Shape> := [];
    var current := s;
    var k := 0;
    while k < 4
      invariant 0 <= k <= 4
      invariant current == Turned(s, k)
      invariant |variations| == 2 * k
      invariant forall i :: 0 <= i < 2 * k ==> variations[i] == Variations(s)[i]
    {
      variations := variations + [current, Flipped(current)];
      current := Rotated(current);
      k := k + 1;
    }
    assert variations == Variations(s);
    ghost var normalized := NormalizedAll(variations);
    unique := [];
    var j := 0;
    while j < |variations|
      invariant 0 <= j <= |variations|
      invariant unique == Dedup(normalized[..j])
    {
      var n := Normalized(variations[j]);
      assert n == normalized[j];
      DedupStep(normalized, j);
      if n !in unique {
        unique := unique + [n];
      }
      j := j + 1;
    }
    assert normalized[..j] == normalized;
  }

  /** The orientations of a shape: at most eight, all normalised, pairwise
      different, and every normalised orientation among them. */
  lemma OrientationsProperties(s: Shape)
    ensures var u := Orientations(s);
            |u| <= 8 &&
            (forall i :: 0 <= i < |u| ==> IsNormalized(u[i])) &&
            (forall i, j :: 0 <= i < j < |u| ==> u[i] != u[j]) &&
            (forall k :: 0 <= k < 8 ==> Normalized(Variations(s)[k]) in u)
  {
    var ns := NormalizedAll(Variations(s));
    DedupProperties(ns);
    var u := Dedup(ns);
    forall i | 0 <= i < |u|
      ensures IsNormalized(u[i])
    {
      assert u[i] in ns;
    }
    forall k | 0 <= k < 8
      ensures Normalized(Variations(s)[k]) in u
    {
      assert ns[k] in ns;
    }
  }

  /** Every orientation has as many cells as the shape. */
  lemma OrientationsKeepSize(s: Shape, o: Shape)
    requires o in Orientations(s)
    ensures |o.cells| == |s.cells|
  {
    var ns := NormalizedAll(Variations(s));
    DedupProperties(ns);
    var k :| 0 <= k < |ns| && ns[k] == o;
    assert |Variations(s)[k].cells| == |s.cells|;
  }
}

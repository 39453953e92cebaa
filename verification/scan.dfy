/**
 * The grid scan paths of `ScanPatterns`: `raster` visits a `cols` by `rows` grid row by row, left
 * to right; `snake` visits the same rows but runs every odd row right to left, through a single
 * `range(start, stop, step)` whose arguments depend on the parity of the row.
 */
module ScanPatterns {

  type Point = (int, int)

  /** Python's `range(start, stop, step)`; a zero step raises in Python and is never passed here. */
  function Range(start: int, stop: int, step: int): (r: seq<int>)
    requires step != 0
    ensures forall i :: 0 <= i < |r| ==> r[i] == start + i * step
    ensures step == 1 ==> |r| == (if start < stop then stop - start else 0)
    ensures step == -1 ==> |r| == (if stop < start then start - stop else 0)
    decreases if step > 0 then stop - start else start - stop
  {
    if (step > 0 && start < stop) || (step < 0 && stop < start) then
      var rest := Range(start + step, stop, step);
      var r := [start] + rest;
      assert forall i :: 1 <= i < |r| ==> r[i] == rest[i - 1] == (start + step) + (i - 1) * step;
      r
    else []
  }

  /** `(x, y) for x in xs`: one row of a path, at height `y`. */
  function Row(xs: seq<int>, y: int): (r: seq<Point>)
    ensures |r| == |xs|
    ensures forall i :: 0 <= i < |r| ==> r[i] == (xs[i], y)
  {
    seq(|xs|, i requires 0 <= i < |xs| => (xs[i], y))
  }

  /** The number of values `range(n)` yields. */
  function Count(n: int): nat {
    if n > 0 then n else 0
  }

  predicate InGrid(p: Point, cols: int, rows: int) {
    0 <= p.0 < cols && 0 <= p.1 < rows
  }

  /** No point occurs twice. */
  predicate Distinct(s: seq<Point>) {
    forall i, j :: 0 <= i < j < |s| ==> s[i] != s[j]
  }

  /** `raster`: for each `y` in `range(rows)`, the points `(x, y)` for `x` in `range(cols)`. */
  function Raster(cols: int := 4, rows: int := 3): (r: seq<Point>)
    ensures |r| == Count(cols) * Count(rows)
    decreases rows
  {
    if rows <= 0 then []
    else
      GridRows(cols, rows);
      Raster(cols, rows - 1) + Row(Range(0, cols, 1), rows - 1)
  }

  /** A grid of `rows` rows is one of `rows - 1` rows and one more row. */
  lemma GridRows(cols: int, rows: int)
    requires rows > 0
    ensures Count(cols) * Count(rows) == Count(cols) * Count(rows - 1) + Count(cols)
  {
    assert Count(rows) == Count(rows - 1) + 1;
  }

  /** The `x` range of row `y` of `snake`: ascending on even rows, descending on odd ones. */
  function SnakeXs(cols: int, y: int): seq<int> {
    Range(Scale(cols - 1, y % 2), cols - Scale(cols + 1, y % 2), ((y + 1) % 2) - 1 * (y % 2))
  }

  /**
   * `a * p` for a count `p`, written as repeated addition so that the products with the row
   * parity above stay within linear arithmetic; `ScaleIsProduct` shows it is the product.
   */
  function Scale(a: int, p: nat): int {
    if p == 0 then 0 else a + Scale(a, p - 1)
  }

  lemma {:induction false} ScaleIsProduct(a: int, p: nat)
    ensures Scale(a, p) == a * p
  {
    if p > 0 {
      ScaleIsProduct(a, p - 1);
    }
  }

  /** The column the snake visits at position `x` of row `y`. */
  function SnakeColumn(cols: int, y: int, x: int): int {
    if y % 2 == 0 then x else cols - 1 - x
  }

  /** `snake`: for each `y` in `range(rows)`, the points `(x, y)` for `x` in the parity-dependent range. */
  function Snake(cols: int := 4, rows: int := 3): (r: seq<Point>)
    ensures |r| == Count(cols) * Count(rows)
    decreases rows
  {
    if rows <= 0 then []
    else
      GridRows(cols, rows);
      SnakeXsByParity(cols, rows - 1);
      Snake(cols, rows - 1) + Row(SnakeXs(cols, rows - 1), rows - 1)
  }

  /** The single-range trick: even rows run `0, 1, .., cols-1`, odd rows `cols-1, .., 1, 0`. */
  lemma SnakeXsByParity(cols: int, y: int)
    requires y >= 0
    ensures y % 2 == 0 ==> SnakeXs(cols, y) == Range(0, cols, 1)
    ensures y % 2 == 1 ==> SnakeXs(cols, y) == Range(cols - 1, -1, -1)
    ensures |SnakeXs(cols, y)| == Count(cols)
  {
    if y % 2 == 1 {
      assert Scale(cols - 1, 1) == cols - 1 && Scale(cols + 1, 1) == cols + 1;
    }
  }

  lemma MulMono(a: int, b: int, c: int)
    requires a <= b && c >= 0
    ensures a * c <= b * c
  {
    assert (b - a) * c >= 0;
  }

  /** Euclidean division is determined by quotient and remainder. */
  lemma DivMod(k: int, w: int, q: int, x: int)
    requires w > 0 && 0 <= x < w && k == q * w + x
    ensures k / w == q && k % w == x
  {
    var q', x' := k / w, k % w;
    assert k == q' * w + x';
    if q' > q {
      MulMono(q + 1, q', w);
    } else if q' < q {
      MulMono(q' + 1, q, w);
    }
  }

  /** Point `y * cols + x` of the raster is `(x, y)`. */
  lemma {:induction false} RasterAt(cols: int, rows: int, x: int, y: int)
    requires 0 <= x < cols && 0 <= y < rows
    ensures 0 <= y * cols + x < |Raster(cols, rows)|
    ensures Raster(cols, rows)[y * cols + x] == (x, y)
    decreases rows
  {
    RasterSplit(cols, rows);
    if y < rows - 1 {
      RasterAt(cols, rows - 1, x, y);
    } else {
      assert y * cols + x == (rows - 1) * cols + x;
      assert Range(0, cols, 1)[x] == 0 + x * 1;
    }
  }

  lemma RasterSplit(cols: int, rows: int)
    requires 0 < cols && 0 < rows
    ensures Raster(cols, rows) == Raster(cols, rows - 1) + Row(Range(0, cols, 1), rows - 1)
    ensures |Raster(cols, rows - 1)| == (rows - 1) * cols
  {
    assert Count(cols) == cols && Count(rows - 1) == rows - 1;
  }

  /** A path is non-empty exactly when the grid has a positive width and height. */
  lemma NonEmptyGrid(cols: int, rows: int)
    ensures Count(cols) * Count(rows) > 0 <==> cols > 0 && rows > 0
  {
    if cols > 0 && rows > 0 {
      MulMono(1, rows, cols);
    }
  }

  /** An index below `rows * cols` lies in one of the first `rows` rows. */
  lemma RowOf(cols: int, rows: int, k: int)
    requires cols > 0 && rows > 0 && 0 <= k < Count(cols) * Count(rows)
    ensures 0 <= k / cols < rows && 0 <= k % cols < cols
    ensures k == k / cols * cols + k % cols
  {
    assert Count(cols) * Count(rows) == rows * cols;
    if k / cols >= rows {
      MulMono(rows, k / cols, cols);
    }
  }

  /** Quotient and remainder together determine the index. */
  lemma DivModDetermines(i: int, j: int, w: int)
    requires w > 0
    ensures i / w == j / w && i % w == j % w ==> i == j
  {
  }

  /** Raster point `k` is `(k mod cols, k div cols)`: the path is row-major. */
  lemma {:induction false} RasterPoint(cols: int, rows: int, k: int)
    requires 0 <= k < |Raster(cols, rows)|
    ensures cols > 0 && Raster(cols, rows)[k] == (k % cols, k / cols)
    ensures InGrid(Raster(cols, rows)[k], cols, rows)
  {
    NonEmptyGrid(cols, rows);
    RowOf(cols, rows, k);
    var x, y := k % cols, k / cols;
    RasterAt(cols, rows, x, y);
  }

  /** Point `y * cols + x` of the snake is `(x, y)` on even rows and `(cols - 1 - x, y)` on odd rows. */
  lemma {:induction false} SnakeAt(cols: int, rows: int, x: int, y: int)
    requires 0 <= x < cols && 0 <= y < rows
    ensures 0 <= y * cols + x < |Snake(cols, rows)|
    ensures Snake(cols, rows)[y * cols + x] == (SnakeColumn(cols, y, x), y)
    decreases rows
  {
    var k := y * cols + x;
    SnakeSplit(cols, rows);
    if y < rows - 1 {
      SnakeAt(cols, rows - 1, x, y);
      assert Snake(cols, rows)[k] == Snake(cols, rows - 1)[k];
    } else {
      LastRowAt(cols, rows, x);
    }
  }

  /** The last row of the snake starts right after the rows before it. */
  lemma LastRowAt(cols: int, rows: int, x: int)
    requires 0 <= x < cols && 0 < rows
    ensures 0 <= (rows - 1) * cols + x < |Snake(cols, rows)|
    ensures Snake(cols, rows)[(rows - 1) * cols + x] == (SnakeColumn(cols, rows - 1, x), rows - 1)
  {
    var y := rows - 1;
    SnakeSplit(cols, rows);
    SnakeXsAt(cols, y, x);
    var before, last := Snake(cols, y), Row(SnakeXs(cols, y), y);
    AppendAt(before, last, x);
    assert |before| + x == y * cols + x;
  }

  lemma AppendAt<T>(a: seq<T>, b: seq<T>, j: int)
    requires 0 <= j < |b|
    ensures |a| + j < |a + b| && (a + b)[|a| + j] == b[j]
  {
  }

  lemma SnakeSplit(cols: int, rows: int)
    requires 0 < cols && 0 < rows
    ensures Snake(cols, rows) == Snake(cols, rows - 1) + Row(SnakeXs(cols, rows - 1), rows - 1)
    ensures |Snake(cols, rows - 1)| == (rows - 1) * cols
  {
    assert Count(cols) == cols && Count(rows - 1) == rows - 1;
  }

  lemma SnakeXsAt(cols: int, y: int, x: int)
    requires 0 <= x < cols && 0 <= y
    ensures x < |SnakeXs(cols, y)| && SnakeXs(cols, y)[x] == SnakeColumn(cols, y, x)
  {
    SnakeXsByParity(cols, y);
    if y % 2 == 0 {
      assert Range(0, cols, 1)[x] == 0 + x * 1;
    } else {
      assert Range(cols - 1, -1, -1)[x] == (cols - 1) + x * -1;
    }
  }

  /** Snake point `k` lies in row `k div cols`, at the column given by the row's parity. */
  lemma SnakePoint(cols: int, rows: int, k: int)
    requires 0 <= k < |Snake(cols, rows)|
    ensures cols > 0
    ensures Snake(cols, rows)[k] == (SnakeColumn(cols, k / cols, k % cols), k / cols)
    ensures InGrid(Snake(cols, rows)[k], cols, rows)
  {
    NonEmptyGrid(cols, rows);
    RowOf(cols, rows, k);
    var x, y := k % cols, k / cols;
    SnakeAt(cols, rows, x, y);
  }

  /** A grid point is on the raster path exactly when it lies in the grid, and it occurs once. */
  lemma RasterCoversGrid(cols: int, rows: int)
    ensures forall p :: p in Raster(cols, rows) <==> InGrid(p, cols, rows)
    ensures Distinct(Raster(cols, rows))
  {
    var r := Raster(cols, rows);
    forall p | p in r ensures InGrid(p, cols, rows) {
      var k :| 0 <= k < |r| && r[k] == p;
      RasterPoint(cols, rows, k);
    }
    forall p | InGrid(p, cols, rows) ensures p in r {
      RasterAt(cols, rows, p.0, p.1);
    }
    forall i, j | 0 <= i < j < |r| ensures r[i] != r[j] {
      RasterPoint(cols, rows, i);
      RasterPoint(cols, rows, j);
      DivModDetermines(i, j, cols);
    }
  }

  /** The same for the snake path. */
  lemma SnakeCoversGrid(cols: int, rows: int)
    ensures forall p :: p in Snake(cols, rows) <==> InGrid(p, cols, rows)
    ensures Distinct(Snake(cols, rows))
  {
    var s := Snake(cols, rows);
    forall p | p in s ensures InGrid(p, cols, rows) {
      var k :| 0 <= k < |s| && s[k] == p;
      SnakePoint(cols, rows, k);
    }
    forall p | InGrid(p, cols, rows) ensures p in s {
      SnakeAt(cols, rows, SnakeColumn(cols, p.1, p.0), p.1);
    }
    forall i, j | 0 <= i < j < |s| ensures s[i] != s[j] {
      SnakePoint(cols, rows, i);
      SnakePoint(cols, rows, j);
      DivModDetermines(i, j, cols);
    }
  }

  /** In a path without repeats every point occurs once. */
  lemma {:induction false} DistinctOnce(s: seq<Point>, p: Point)
    requires Distinct(s)
    ensures multiset(s)[p] == if p in s then 1 else 0
    decreases |s|
  {
    if s != [] {
      assert s == [s[0]] + s[1..];
      assert Distinct(s[1..]) by {
        forall i, j | 0 <= i < j < |s[1..]| ensures s[1..][i] != s[1..][j] {
          assert s[1..][i] == s[i + 1] && s[1..][j] == s[j + 1];
        }
      }
      assert s[0] !in s[1..] by {
        forall i | 0 <= i < |s[1..]| ensures s[1..][i] != s[0] {
          assert s[1..][i] == s[i + 1];
        }
      }
      DistinctOnce(s[1..], p);
    }
  }

  /** `raster` lists every cell of the grid exactly once and nothing else. */
  lemma RasterVisitsEachCellOnce(cols: int, rows: int)
    ensures forall p :: multiset(Raster(cols, rows))[p] == if InGrid(p, cols, rows) then 1 else 0
  {
    RasterCoversGrid(cols, rows);
    forall p ensures multiset(Raster(cols, rows))[p] == if InGrid(p, cols, rows) then 1 else 0 {
      DistinctOnce(Raster(cols, rows), p);
    }
  }

  /** `snake` lists every cell of the grid exactly once and nothing else. */
  lemma SnakeVisitsEachCellOnce(cols: int, rows: int)
    ensures forall p :: multiset(Snake(cols, rows))[p] == if InGrid(p, cols, rows) then 1 else 0
  {
    SnakeCoversGrid(cols, rows);
    forall p ensures multiset(Snake(cols, rows))[p] == if InGrid(p, cols, rows) then 1 else 0 {
      DistinctOnce(Snake(cols, rows), p);
    }
  }

  /** The snake is a reordering of the raster. */
  lemma SnakePermutesRaster(cols: int, rows: int)
    ensures multiset(Snake(cols, rows)) == multiset(Raster(cols, rows))
  {
    RasterVisitsEachCellOnce(cols, rows);
    SnakeVisitsEachCellOnce(cols, rows);
    assert forall p :: multiset(Snake(cols, rows))[p] == multiset(Raster(cols, rows))[p];
  }

  function Abs(n: int): nat {
    if n < 0 then -n else n
  }

  /** The index after `k` is the next column of the same row, or the first column of the next row. */
  lemma NextIndex(cols: int, k: int)
    requires cols > 0
    ensures || ((k + 1) / cols == k / cols && (k + 1) % cols == k % cols + 1)
            || (k % cols == cols - 1 && (k + 1) / cols == k / cols + 1 && (k + 1) % cols == 0)
  {
    var x, y := k % cols, k / cols;
    if x < cols - 1 {
      DivMod(k + 1, cols, y, x + 1);
    } else {
      DivMod(k + 1, cols, y + 1, 0);
    }
  }

  /**
   * Every step of the snake moves to a neighbouring cell: one column along the same row, or one
   * row up in the same column where the path turns.
   */
  lemma SnakeSteps(cols: int, rows: int, k: int)
    requires 0 <= k && k + 1 < |Snake(cols, rows)|
    ensures var s := Snake(cols, rows);
            || (s[k].1 == s[k + 1].1 && Abs(s[k].0 - s[k + 1].0) == 1)
            || (s[k].0 == s[k + 1].0 && s[k + 1].1 == s[k].1 + 1)
  {
    var s := Snake(cols, rows);
    SnakePoint(cols, rows, k);
    SnakePoint(cols, rows, k + 1);
    NextIndex(cols, k);
    var x, y, x', y' := k % cols, k / cols, (k + 1) % cols, (k + 1) / cols;
    assert s[k] == (SnakeColumn(cols, y, x), y);
    assert s[k + 1] == (SnakeColumn(cols, y', x'), y');
  }
}

/** Counting the non-zero cells of a mask and the plant fraction derived from
    that count (transformer.py:136-137, where the count comes from
    numpy's count_nonzero and the fraction divides it by the mask's size). */
module MaskCount {
  import opened Raster

  /** Number of non-zero bytes in one row, counted from the front. */
  function RowNonZero(row: seq<Byte>): (n: nat)
    ensures n <= |row|
  {
    if row == [] then 0
    else RowNonZero(row[..|row| - 1]) + (if row[|row| - 1] != 0 then 1 else 0)
  }

  /** True when every row of `grid` has `cols` entries. */
  predicate Rectangular(grid: seq<seq<Byte>>, cols: nat)
  {
    forall r :: 0 <= r < |grid| ==> |grid[r]| == cols
  }

  /** Number of non-zero bytes in a grid of rows. */
  function GridNonZero(grid: seq<seq<Byte>>, cols: nat): (n: nat)
    requires Rectangular(grid, cols)
    ensures n <= |grid| * cols
  {
    if grid == [] then 0
    else GridNonZero(grid[..|grid| - 1], cols) + RowNonZero(grid[|grid| - 1])
  }

  /** The cells of a row whose byte is non-zero, tagged with row index `r`. */
  function RowCells(r: int, row: seq<Byte>): set<(int, int)>
  {
    set c | 0 <= c < |row| && row[c] != 0 :: (r, c)
  }

  /** The cells of a grid whose byte is non-zero. */
  function GridCells(grid: seq<seq<Byte>>, cols: nat): set<(int, int)>
    requires Rectangular(grid, cols)
  {
    set r, c | 0 <= r < |grid| && 0 <= c < cols && grid[r][c] != 0 :: (r, c)
  }

  /** The (row, column) positions where the mask is non-zero. */
  function NonZeroCells(m: Mask): set<(int, int)>
    requires m.Valid()
  {
    set r, c | 0 <= r < m.rows && 0 <= c < m.cols && m.data[r][c] != 0 :: (r, c)
  }

  lemma {:induction false} RowCellsCount(r: int, row: seq<Byte>)
    ensures |RowCells(r, row)| == RowNonZero(row)
  {
    if row != [] {
      var k := |row| - 1;
      var front := row[..k];
      RowCellsCount(r, front);
      assert RowCells(r, front) == set c | 0 <= c < k && row[c] != 0 :: (r, c);
      if row[k] != 0 {
        assert RowCells(r, row) == RowCells(r, front) + {(r, k)};
        assert (r, k) !in RowCells(r, front);
      } else {
        assert RowCells(r, row) == RowCells(r, front);
      }
    }
  }

  lemma {:induction false} GridCellsCount(grid: seq<seq<Byte>>, cols: nat)
    requires Rectangular(grid, cols)
    ensures |GridCells(grid, cols)| == GridNonZero(grid, cols)
  {
    if grid != [] {
      var k := |grid| - 1;
      var front := grid[..k];
      GridCellsCount(front, cols);
      RowCellsCount(k, grid[k]);
      var above := GridCells(front, cols);
      var last := RowCells(k, grid[k]);
      assert above == set r, c | 0 <= r < k && 0 <= c < cols && grid[r][c] != 0 :: (r, c);
      assert GridCells(grid, cols) == above + last;
      assert forall p :: p in above ==> p.0 < k;
      assert above * last == {};
    }
  }

  /** count_nonzero of a mask: the number of its non-zero cells. */
  function CountNonZero(m: Mask): (n: nat)
    requires m.Valid()
    ensures n == |NonZeroCells(m)|
    ensures n <= m.Size()
  {
    GridCellsCount(m.data, m.cols);
    assert NonZeroCells(m) == GridCells(m.data, m.cols);
    GridNonZero(m.data, m.cols)
  }

  /** The fraction of mask cells that are non-zero (plant pixels). */
  function PlantFraction(m: Mask): (f: real)
    requires m.Valid() && m.Size() > 0
    ensures f * m.Size() as real == |NonZeroCells(m)| as real
    ensures 0.0 <= f <= 1.0
  {
    var n := CountNonZero(m);
    DivBounds(n as real, m.Size() as real);
    n as real / m.Size() as real
  }

  lemma DivBounds(n: real, s: real)
    requires 0.0 <= n <= s && s > 0.0
    ensures (n / s) * s == n
    ensures 0.0 <= n / s <= 1.0
  {
    assert (n / s) * s == n;
  }

  lemma {:induction false} RowFullIff(row: seq<Byte>)
    ensures RowNonZero(row) == |row| <==> forall c :: 0 <= c < |row| ==> row[c] != 0
  {
    if row != [] {
      var k := |row| - 1;
      RowFullIff(row[..k]);
      assert forall c :: 0 <= c < k ==> row[..k][c] == row[c];
    }
  }

  lemma {:induction false} RowEmptyIff(row: seq<Byte>)
    ensures RowNonZero(row) == 0 <==> forall c :: 0 <= c < |row| ==> row[c] == 0
  {
    if row != [] {
      var k := |row| - 1;
      RowEmptyIff(row[..k]);
      assert forall c :: 0 <= c < k ==> row[..k][c] == row[c];
    }
  }

  lemma {:induction false} GridFullIff(grid: seq<seq<Byte>>, cols: nat)
    requires Rectangular(grid, cols)
    ensures GridNonZero(grid, cols) == |grid| * cols
            <==> forall r, c :: 0 <= r < |grid| && 0 <= c < cols ==> grid[r][c] != 0
  {
    if grid != [] {
      var k := |grid| - 1;
      var front := grid[..k];
      GridFullIff(front, cols);
      RowFullIff(grid[k]);
      assert forall r :: 0 <= r < k ==> front[r] == grid[r];
      MulSucc(k, cols);
      var above := GridNonZero(front, cols);
      assert above <= k * cols;
      assert GridNonZero(grid, cols) == above + RowNonZero(grid[k]);
    }
  }

  lemma MulSucc(k: nat, cols: nat)
    ensures (k + 1) * cols == k * cols + cols
  {
  }

  lemma {:induction false} GridEmptyIff(grid: seq<seq<Byte>>, cols: nat)
    requires Rectangular(grid, cols)
    ensures GridNonZero(grid, cols) == 0
            <==> forall r, c :: 0 <= r < |grid| && 0 <= c < cols ==> grid[r][c] == 0
  {
    if grid != [] {
      var k := |grid| - 1;
      GridEmptyIff(grid[..k], cols);
      RowEmptyIff(grid[k]);
      assert forall r :: 0 <= r < k ==> grid[..k][r] == grid[r];
    }
  }

  /** The fraction equals 1 exactly when the count equals the size, and 0
      exactly when the count is 0. */
  lemma FractionExtremes(m: Mask)
    requires m.Valid() && m.Size() > 0
    ensures PlantFraction(m) == 1.0 <==> GridNonZero(m.data, m.cols) == m.rows * m.cols
    ensures PlantFraction(m) == 0.0 <==> GridNonZero(m.data, m.cols) == 0
  {
    var n := CountNonZero(m);
    assert n == GridNonZero(m.data, m.cols);
    assert PlantFraction(m) == n as real / m.Size() as real;
    DivExtremes(n as real, m.Size() as real);
  }

  lemma DivExtremes(n: real, s: real)
    requires s > 0.0
    ensures n / s == 1.0 <==> n == s
    ensures n / s == 0.0 <==> n == 0.0
  {
    assert (n / s) * s == n;
  }

  /** The plant fraction is 1 exactly when every cell of the mask is non-zero. */
  lemma FractionOneIffAllPlant(m: Mask)
    requires m.Valid() && m.Size() > 0
    ensures PlantFraction(m) == 1.0
            <==> forall r, c :: 0 <= r < m.rows && 0 <= c < m.cols ==> m.data[r][c] != 0
  {
    FractionExtremes(m);
    GridFullIff(m.data, m.cols);
  }

  /** The plant fraction is 0 exactly when every cell of the mask is zero. */
  lemma FractionZeroIffNoPlant(m: Mask)
    requires m.Valid() && m.Size() > 0
    ensures PlantFraction(m) == 0.0
            <==> forall r, c :: 0 <= r < m.rows && 0 <= c < m.cols ==> m.data[r][c] == 0
  {
    FractionExtremes(m);
    GridEmptyIff(m.data, m.cols);
  }
}

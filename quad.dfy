/**
 * In-block index arithmetic of a quad: cells of a GRID_SIZE x GRID_SIZE block are stored
 * row-major. GRID_SIZE is a parameter because the client's files disagree on it (16 in one
 * place, 32 in two others).
 */
module Quad {

  /** `Quad.getCell`: the row-major index of a local cell, or -1 outside the block. */
  function GetCell(gridSize: int, x: int, y: int): (r: int)
    requires gridSize > 0
    ensures r == -1 <==> !(0 <= x < gridSize && 0 <= y < gridSize)
    ensures r != -1 ==> 0 <= r < gridSize * gridSize
  {
    if x < 0 || x >= gridSize || y < 0 || y >= gridSize then -1
    else RowMajorInBlock(gridSize, x, y); y * gridSize + x
  }

  lemma RowMajorInBlock(gridSize: int, x: int, y: int)
    requires 0 <= x < gridSize && 0 <= y < gridSize
    ensures 0 <= y * gridSize + x < gridSize * gridSize
  {
    assert y * gridSize + x < (y + 1) * gridSize;
    MulMonotone(y + 1, gridSize, gridSize);
  }

  lemma {:induction false} MulMonotone(a: int, b: int, d: int)
    requires 0 <= a <= b && d >= 0
    ensures a * d <= b * d
  {
    if a < b {
      MulMonotone(a, b - 1, d);
      assert b * d == (b - 1) * d + d;
    }
  }

  /** The local column and row of index i, as the quad's update loop computes them. */
  function LocalOf(gridSize: int, i: nat): (p: (int, int))
    requires gridSize > 0
    ensures i < gridSize * gridSize ==> 0 <= p.0 < gridSize && 0 <= p.1 < gridSize
  {
    (i % gridSize, i / gridSize)
  }

  /** getCell undoes the index-to-position mapping ... */
  lemma GetCellOfLocal(gridSize: int, i: nat)
    requires gridSize > 0 && i < gridSize * gridSize
    ensures GetCell(gridSize, LocalOf(gridSize, i).0, LocalOf(gridSize, i).1) == i
  {
    var p := LocalOf(gridSize, i);
    assert i == p.1 * gridSize + p.0;
  }

  /** ... and the mapping undoes getCell, so getCell is injective on the block. */
  lemma LocalOfGetCell(gridSize: int, x: int, y: int)
    requires gridSize > 0 && 0 <= x < gridSize && 0 <= y < gridSize
    ensures LocalOf(gridSize, GetCell(gridSize, x, y)) == (x, y)
  {
    var i := y * gridSize + x;
    assert i / gridSize == y && i % gridSize == x by {
      DivModUnique(i, gridSize, y, x);
    }
  }

  lemma GetCellInjective(gridSize: int, x: int, y: int, x': int, y': int)
    requires gridSize > 0
    requires 0 <= x < gridSize && 0 <= y < gridSize && 0 <= x' < gridSize && 0 <= y' < gridSize
    requires GetCell(gridSize, x, y) == GetCell(gridSize, x', y')
    ensures x == x' && y == y'
  {
    LocalOfGetCell(gridSize, x, y);
    LocalOfGetCell(gridSize, x', y');
  }

  /** The quotient and remainder of Euclidean division are the only ones with 0 <= r < d. */
  lemma DivModUnique(n: int, d: int, q: int, r: int)
    requires d > 0 && 0 <= r < d && n == q * d + r
    ensures n / d == q && n % d == r
  {
    var q', r' := n / d, n % d;
    assert n == q' * d + r';
    if q' > q {
      assert (q' - q) * d == q' * d - q * d;
      MulMonotone(1, q' - q, d);
    } else if q' < q {
      assert (q - q') * d == q * d - q' * d;
      MulMonotone(1, q - q', d);
    }
  }

  /** The initial `clueNumbers`: one zero per cell of the block. */
  function InitialClueNumbers(gridSize: int): (s: seq<int>)
    requires gridSize > 0
    ensures |s| == gridSize * gridSize
    ensures forall i :: 0 <= i < |s| ==> s[i] == 0
  {
    seq(gridSize * gridSize, _ => 0)
  }
}

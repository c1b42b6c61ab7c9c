/** Row-major flat indexing shared by every loop of the generator: pixel p of
    a buffer w pixels wide sits at column p % w of row p / w. */
module Grid {

  /** The flat index of (row, column) in a buffer of width w. */
  function Flat(row: int, col: int, w: int): int
  {
    row * w + col
  }

  /** Row and column can be recovered from the flat index. */
  lemma {:induction false} FlatSplit(row: int, col: int, w: int)
    requires 0 < w && 0 <= row && 0 <= col < w
    ensures Flat(row, col, w) / w == row
    ensures Flat(row, col, w) % w == col
  {
    var p := Flat(row, col, w);
    var q, r := p / w, p % w;
    assert p == q * w + r && 0 <= r < w;
    // (q, r) and (row, col) are both quotient-remainder pairs of p by w
    if q < row {
      MulMonotone(q + 1, row, w);
    } else if q > row {
      MulMonotone(row + 1, q, w);
    }
  }

  /** The source writes row * w * 2 for a buffer twice w wide. */
  lemma DoubleWidth(row: int, w: int)
    ensures row * w * 2 == row * (2 * w)
  {
    assert row * (2 * w) == row * (w + w) == row * w + row * w;
  }

  lemma MulMonotone(a: int, b: int, w: int)
    requires a <= b && 0 < w
    ensures a * w <= b * w
  {
  }

  /** A flat index below rows * w lies in one of the rows. */
  lemma {:induction false} FlatBounds(p: int, w: int, rows: int)
    requires 0 < w && 0 <= p < rows * w
    ensures 0 <= p / w < rows && 0 <= p % w < w
    ensures Flat(p / w, p % w, w) == p
  {
    if p / w >= rows {
      assert rows * w <= (p / w) * w by { MulMonotone(rows, p / w, w); }
    }
  }

  /** Distinct cells of a grid have distinct flat indices. */
  lemma {:induction false} FlatInjective(r1: int, c1: int, r2: int, c2: int, w: int)
    requires 0 < w && 0 <= r1 && 0 <= r2 && 0 <= c1 < w && 0 <= c2 < w
    requires Flat(r1, c1, w) == Flat(r2, c2, w)
    ensures r1 == r2 && c1 == c2
  {
    FlatSplit(r1, c1, w);
    FlatSplit(r2, c2, w);
  }

  /** A cell of a rows-by-w grid has a flat index inside the buffer. */
  lemma {:induction false} FlatInside(row: int, col: int, w: int, rows: int)
    requires 0 <= row < rows && 0 <= col < w
    ensures 0 <= Flat(row, col, w) < rows * w
  {
    MulMonotone(row + 1, rows, w);
  }
}

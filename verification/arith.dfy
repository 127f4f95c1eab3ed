/** Small facts about Euclidean division and products of bounded naturals,
    used to decode and bound flat vertex indices. */
module Arith {

  /** Division by a positive divisor has exactly one quotient/remainder pair. */
  lemma DivModUnique(n: int, d: int, q: int, m: int)
    requires 0 < d && 0 <= m < d && n == q * d + m
    ensures n / d == q && n % d == m
  {
    var q0, m0 := n / d, n % d;
    assert n == q0 * d + m0;
    if q0 < q {
      assert (q0 + 1) * d == q0 * d + d;
      MulMono(q0 + 1, q, d);
      assert false;
    } else if q < q0 {
      assert (q + 1) * d == q * d + d;
      MulMono(q + 1, q0, d);
      assert false;
    }
  }

  lemma MulMono(a: int, b: int, c: int)
    requires a <= b && 0 <= c
    ensures a * c <= b * c
  {
    assert b * c - a * c == (b - a) * c;
  }

  /** A row-major position (row, col) in a rows x cols table lies inside the table. */
  lemma RowMajorBound(row: nat, col: nat, rows: nat, cols: nat)
    requires row < rows && col < cols
    ensures row * cols + col < rows * cols
  {
    MulMono(row + 1, rows, cols);
    assert (row + 1) * cols == row * cols + cols;
  }

  /** A position below rows * cols has a row below rows. */
  lemma QuotientBound(n: nat, rows: nat, cols: nat)
    requires 0 < cols && n < rows * cols
    ensures n / cols < rows
  {
    assert n == (n / cols) * cols + n % cols;
    if n / cols >= rows {
      MulMono(rows, n / cols, cols);
      assert false;
    }
  }
}

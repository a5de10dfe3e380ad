/** Integer facts behind the index arithmetic of the grid loops. */
module Arith {

  /** Row-major position (i, j) of a rows-by-cols grid lands inside [0, rows*cols)
      and is recovered by division and remainder. */
  lemma RowMajor(i: nat, j: nat, rows: nat, cols: nat)
    requires i < rows && j < cols
    ensures i * cols + j < rows * cols
    ensures (i * cols + j) / cols == i && (i * cols + j) % cols == j
  {
    MulMono(i + 1, rows, cols);
    DivModUnique(i * cols + j, cols, i, j);
  }

  /** Row-major position (i, j) of a rows-by-cols grid lands inside [0, rows*cols). */
  lemma RowMajorBound(i: nat, j: nat, rows: nat, cols: nat)
    requires i < rows && j < cols
    ensures 0 <= i * cols + j < rows * cols
  {
    MulMono(i + 1, rows, cols);
  }

  /** Every index of a rows-by-cols grid is the row-major position of one cell. */
  lemma RowMajorInverse(k: nat, rows: nat, cols: nat)
    requires k < rows * cols
    ensures cols > 0 && k / cols < rows && k % cols < cols
    ensures (k / cols) * cols + k % cols == k
  {
    if cols > 0 && k / cols >= rows {
      MulMono(rows, k / cols, cols);
    }
  }

  /** Multiplication by a non-negative factor is monotonic. */
  lemma MulMono(a: int, b: int, d: nat)
    requires a <= b
    ensures a * d <= b * d
  {
    assert b * d - a * d == (b - a) * d;
  }

  /** Quotient and remainder are the unique pair with q*d + r == x and 0 <= r < d. */
  lemma DivModUnique(x: int, d: nat, q: int, r: int)
    requires d > 0 && 0 <= r < d && x == q * d + r
    ensures x / d == q && x % d == r
  {
    var q', r' := x / d, x % d;
    assert q' * d + r' == x && 0 <= r' < d;
    assert (q - q') * d == q * d - q' * d;
    if q' < q {
      MulMono(1, q - q', d);
    } else if q < q' {
      MulMono(1, q' - q, d);
    }
  }

  /** Adding the divisor adds one to the quotient. */
  lemma DivStep(x: int, d: nat)
    requires d > 0
    ensures (x + d) / d == x / d + 1
  {
    DivModUnique(x + d, d, x / d + 1, x % d);
  }

  /** n blocks of m are n - 1 blocks of m followed by one more. */
  lemma LastBlock(n: nat, m: nat)
    requires n > 0
    ensures (n - 1) * m + m == n * m
  {
  }

  /** Multiplication is associative. */
  lemma MulAssoc(a: int, b: int, c: int)
    ensures a * (b * c) == a * b * c
  {
  }

  /** The flat index of item t of block b of group a, for groups of rows blocks of v items. */
  lemma BlockIndex(a: int, rows: int, b: int, v: int, t: int)
    ensures (a * rows + b) * v + t == a * (rows * v) + (b * v + t)
  {
  }

  function Min(a: int, b: int): int {
    if a < b then a else b
  }

  /** Division by a positive divisor is monotonic. */
  lemma DivMono(x: int, y: int, d: nat)
    requires d > 0 && x <= y
    ensures x / d <= y / d
  {
    if x / d > y / d {
      MulMono(y / d + 1, x / d, d);
    }
  }

  /** x lies in block q of size d exactly when q*d <= x < q*d + d. */
  lemma DivBlock(x: int, d: nat, q: int)
    requires d > 0
    ensures x / d == q <==> q * d <= x < q * d + d
  {
    if q * d <= x < q * d + d {
      DivModUnique(x, d, q, x - q * d);
    }
  }

  /** Number of blocks of size s needed to cover n cells: ceil(n / s). */
  function NumBlocks(n: nat, s: nat): nat
    requires s > 0
  {
    (n + s - 1) / s
  }

  /** Every cell x < n lies in one of the NumBlocks(n, s) blocks. */
  lemma BlockOf(x: nat, s: nat, n: nat)
    requires s > 0 && x < n
    ensures x / s < NumBlocks(n, s)
  {
    DivMono(x, n - 1, s);
    DivStep(n - 1, s);
  }

  /** Block k of size s starts inside an axis of length n exactly when k < ceil(n / s). */
  lemma BlockStartsInside(k: nat, s: nat, n: nat)
    requires s > 0
    ensures k * s < n <==> k < NumBlocks(n, s)
  {
    DivModUnique(k * s, s, k, 0);
    if k * s < n {
      BlockOf(k * s, s, n);
    } else {
      DivMono(n + s - 1, k * s + s - 1, s);
      DivModUnique(k * s + s - 1, s, k, s - 1);
    }
  }
}

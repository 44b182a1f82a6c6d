/** Integer facts about row-major cell numbering: node `i * n + j` of an
    n-wide grid sits in row `i` and column `j`. */
module Arith {

  lemma MulMono(x: int, y: int, c: nat)
    requires x <= y
    ensures x * c <= y * c
  {
    var d := y - x;
    assert y * c == x * c + d * c;
  }

  lemma MulStrict(x: int, y: int, c: int)
    requires x < y && c > 0
    ensures c * x < c * y
  {
    MulMono(x + 1, y, c);
    assert (x + 1) * c == x * c + c;
  }

  /** Row-major numbering is injective on columns `0 <= j < n`. */
  lemma CellUnique(n: int, i: int, j: int, i': int, j': int)
    requires 0 <= j < n && 0 <= j' < n
    requires i * n + j == i' * n + j'
    ensures i == i' && j == j'
  {
    if i < i' {
      MulMono(i + 1, i', n);
      assert false;
    } else if i' < i {
      MulMono(i' + 1, i, n);
      assert false;
    }
  }

  /** Dividing the number of cell (i, j) by the width gives back its row and column. */
  lemma DivModCell(n: int, i: int, j: int)
    requires 0 <= j < n
    ensures (i * n + j) / n == i && (i * n + j) % n == j
  {
    var x := i * n + j;
    assert x == (x / n) * n + x % n;
    CellUnique(n, x / n, x % n, i, j);
  }

  /** A node number below n * n has a row below n. */
  lemma RowBound(n: int, k: int)
    requires n > 0 && 0 <= k < n * n
    ensures 0 <= k / n < n
  {
    assert k == (k / n) * n + k % n;
    if k / n >= n {
      MulMono(n, k / n, n);
      assert false;
    }
  }
}

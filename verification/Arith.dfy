/** Division and multiplication by a variable. */
module Arith {
  lemma MulMono(a: nat, b: nat, n: nat)
    requires a <= b
    ensures a * n <= b * n
  {
  }

  lemma DivUnique(n: nat, q: nat, r: nat, q': nat, r': nat)
    requires q * n + r == q' * n + r' && r < n && r' < n
    ensures q == q' && r == r'
  {
    if q < q' {
      MulMono(q + 1, q', n);
    } else if q' < q {
      MulMono(q' + 1, q, n);
    }
  }

  lemma DivMod(n: nat, q: nat, r: nat)
    requires r < n
    ensures (q * n + r) / n == q && (q * n + r) % n == r
  {
    var x := q * n + r;
    assert x == x / n * n + x % n;
    DivUnique(n, q, r, x / n, x % n);
  }

  lemma MulLess(a: nat, b: nat, n: nat, r: nat)
    requires a < b && r < n
    ensures a * n + r < b * n
  {
    MulMono(a + 1, b, n);
  }

  lemma DivLess(x: nat, n: nat, b: nat)
    requires n > 0 && x < b * n
    ensures x / n < b
  {
    assert x == x / n * n + x % n;
    if x / n >= b {
      MulMono(b, x / n, n);
    }
  }

  /** Writing an m by n grid by rows and reading it by columns, and back. */
  lemma Transpose(c: nat, n: nat, m: nat)
    requires n > 0 && m > 0 && c < m * n
    ensures c % n * m + c / n < n * m
    ensures (c % n * m + c / n) % m * n + (c % n * m + c / n) / m == c
  {
    var row, col := c % n, c / n;
    DivLess(c, n, m);
    MulLess(row, n, m, col);
    DivMod(m, row, col);
    assert c == col * n + row;
  }

  lemma Quotient(x: nat, n: nat)
    requires n > 0
    ensures x / n * n + x % n == x
  {
  }

  /** The column and the row of place i in a frame w wide. */
  function Col(w: nat, i: nat): nat
    requires w > 0
  {
    i % w
  }

  function Row(w: nat, i: nat): nat
    requires w > 0
  {
    i / w
  }

  lemma ColRow(w: nat, x: nat, y: nat)
    requires x < w
    ensures Col(w, y * w + x) == x && Row(w, y * w + x) == y
  {
    DivMod(w, y, x);
  }
}

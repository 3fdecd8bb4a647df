/** The routing table keeps each n-by-n matrix in one flat buffer and
    addresses entry (a, b) at `a * n + b`. */
module FlatIndex {

  /** The flat position of row `a`, column `b`. The row and the column can
      be read back from the position, so two different cells never share
      a position. */
  function Cell(n: nat, a: nat, b: nat): (c: nat)
    requires a < n && b < n
    ensures c < n * n
    ensures c / n == a && c % n == b
  {
    CellFacts(n, a, b);
    a * n + b
  }

  lemma CellFacts(n: nat, a: nat, b: nat)
    requires a < n && b < n
    ensures a * n + b < n * n
    ensures (a * n + b) / n == a && (a * n + b) % n == b
  {
    MulMonotone(a + 1, n, n);
    assert (a + 1) * n == a * n + n;
    DivModUnique(n, a, b);
  }

  /** Euclidean division of `q * n + r` by `n` gives back `q` and `r`. */
  lemma DivModUnique(n: nat, q: nat, r: nat)
    requires r < n
    ensures (q * n + r) / n == q && (q * n + r) % n == r
  {
    var c := q * n + r;
    var q', r' := c / n, c % n;
    assert c == q' * n + r' && 0 <= r' < n;
    if q' < q {
      MulStep(q', q, n);
      assert false;
    } else if q < q' {
      MulStep(q, q', n);
      assert false;
    }
  }

  lemma MulStep(x: nat, y: nat, n: nat)
    requires x < y
    ensures x * n + n <= y * n
  {
    MulMonotone(x + 1, y, n);
    assert (x + 1) * n == x * n + n;
  }

  lemma MulMonotone(x: nat, y: nat, n: nat)
    requires x <= y
    ensures x * n <= y * n
  {
    assert y * n == x * n + (y - x) * n;
  }
}

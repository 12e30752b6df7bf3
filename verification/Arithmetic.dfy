/** Facts about products, quotients and remainders that the solver needs in small steps. */
module Arithmetic {

  lemma MulAssoc(x: int, y: int, z: int)
    ensures (x * y) * z == x * (y * z)
  {
  }

  lemma MulDist(x: int, y: int, z: int)
    ensures (x + y) * z == x * z + y * z
  {
  }

  lemma MulLe(x: int, y: int, z: nat)
    requires x <= y
    ensures x * z <= y * z
  {
  }

  lemma MulLess(x: int, y: int, z: int)
    requires x < y && 0 < z
    ensures x * z < y * z
  {
  }

  lemma DivModUnique(n: int, m: int, q: int, r: int)
    requires 0 < m && n == q * m + r && 0 <= r < m
    ensures n / m == q && n % m == r
  {
    var q', r' := n / m, n % m;
    assert n == q' * m + r';
    if q' < q {
      MulLe(q' + 1, q, m);
      MulDist(q', 1, m);
    } else if q < q' {
      MulLe(q + 1, q', m);
      MulDist(q, 1, m);
    }
  }

  lemma DivModSplit(n: int, m: int)
    requires 0 < m
    ensures (n / m) * m + n % m == n && 0 <= n % m < m && (0 <= n ==> 0 <= n / m)
  {
  }

  /** Numbers less than n apart have different remainders modulo n. */
  lemma RemaindersDiffer(i: nat, j: nat, n: nat)
    requires i < j < i + n
    ensures i % n != j % n
  {
    DivModSplit(i, n);
    DivModSplit(j, n);
    var a, b := i / n, j / n;
    if i % n == j % n {
      if a < b {
        MulLe(a + 1, b, n);
        MulDist(a, 1, n);
      } else {
        MulLe(b, a, n);
      }
    }
  }
}

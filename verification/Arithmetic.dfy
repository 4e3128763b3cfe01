// Facts about Euclidean division that the solver does not find by itself.
module Arithmetic {
  lemma MulAtLeast(m: nat, q: int)
    requires q >= 1
    ensures m * q >= m
  {
    assert m * q == m * (q - 1) + m;
    assert m * (q - 1) >= 0;
  }

  // The quotient and remainder of a division are unique.
  lemma DivModUnique(a: int, m: nat, q: int, r: nat)
    requires a == m * q + r && r < m
    ensures a / m == q && a % m == r
  {
    var q', r' := a / m, a % m;
    assert a == m * q' + r';
    if q' > q {
      assert m * (q' - q) == m * q' - m * q;
      MulAtLeast(m, q' - q);
    } else if q' < q {
      assert m * (q - q') == m * q - m * q';
      MulAtLeast(m, q - q');
    }
  }

  lemma ModPlusMultiple(m: nat, q: int, r: int)
    requires m > 0
    ensures (m * q + r) % m == r % m
  {
    assert m * q + r == m * (q + r / m) + r % m;
    DivModUnique(m * q + r, m, q + r / m, r % m);
  }
}

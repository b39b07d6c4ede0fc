/** Nonlinear facts, one at a time. */
module Arith {

  lemma MulOrder(a: int, b: int, m: nat)
    requires m > 0
    ensures a < b <==> a * m < b * m
  {
    var d := b - a;
    assert d * m == b * m - a * m;
    if d > 0 { assert d * m >= m; } else { assert d * m <= 0; }
  }

  lemma DivModUnique(v: int, k: int, m: nat, x: int)
    requires 0 <= x < m && v == k * m + x
    ensures v / m == k && v % m == x
  {
    var j := v / m;
    assert v == j * m + v % m;
    assert (k + 1) * m == k * m + m && (j + 1) * m == j * m + m;
    MulOrder(j, k + 1, m);
    MulOrder(k, j + 1, m);
  }

  lemma MultipleMod(k: int, m: nat)
    requires m > 0
    ensures (k * m) % m == 0
  {
    DivModUnique(k * m, k, m, 0);
  }

  lemma MulLeft(a: nat, b: nat, m: nat)
    requires a <= b
    ensures m * a <= m * b && a * m <= b * m
  {
    assert (b - a) * m >= 0;
  }
}

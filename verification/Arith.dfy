/** Facts about products, quotients and remainders by a variable. */
module Arith {

  lemma MulAtLeast(d: int, q: int)
    requires q >= 0
    ensures d >= 1 ==> d * q >= q
    ensures d <= -1 ==> d * q <= -q
  {
    if d >= 1 {
      assert (d - 1) * q >= 0;
    } else if d <= -1 {
      assert (-1 - d) * q >= 0;
    }
  }

  lemma MulLe(a: int, b: int, s: int)
    requires a <= b && s >= 0
    ensures a * s <= b * s
  {
    assert (b - a) * s >= 0;
  }

  lemma DivMod(q: int, s: int)
    requires s >= 1
    ensures q == q / s * s + q % s && 0 <= q % s < s
  {
  }

  /** Quotient and remainder are determined by the division equation. */
  lemma DivModUnique(k: int, q: int, r: int)
    requires 0 <= r < q
    ensures (k * q + r) / q == k && (k * q + r) % q == r
  {
    var x := k * q + r;
    var d := x / q - k;
    DivMod(x, q);
    assert d * q == r - x % q;
    MulAtLeast(d, q);
  }

  lemma NextMod(x: nat, q: nat)
    requires q >= 1
    ensures (x + 1) % q == if x % q + 1 == q then 0 else x % q + 1
  {
    var k, r := x / q, x % q;
    DivMod(x, q);
    if r + 1 == q {
      assert x + 1 == (k + 1) * q + 0;
      DivModUnique(k + 1, q, 0);
    } else {
      assert x + 1 == k * q + (r + 1);
      DivModUnique(k, q, r + 1);
    }
  }

  lemma LastMultiple(m: int, n: int)
    requires m >= 1 && n >= 1
    ensures m * n >= 1 && (m * n - 1) / n == m - 1
  {
    MulLe(1, m, n);
    assert m * n - 1 == (m - 1) * n + (n - 1);
    DivModUnique(m - 1, n, n - 1);
  }
}

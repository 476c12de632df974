/** Facts about products, quotients and remainders that the solver does not find on its own. */
module Arithmetic {
  lemma {:induction false} MulGap(a: nat, b: nat, m: nat)
    requires a > b
    ensures a * m >= b * m + m
    decreases a
  {
    assert a * m == (a - 1) * m + m;
    if a > b + 1 {
      MulGap(a - 1, b, m);
    }
  }

  lemma DivisionIsUnique(n: nat, m: nat, q: nat, r: nat)
    requires m >= 1 && n == q * m + r && r < m
    ensures n / m == q && n % m == r
  {
    var q', r' := n / m, n % m;
    assert n == q' * m + r';
    if q > q' {
      MulGap(q, q', m);
    } else if q' > q {
      MulGap(q', q, m);
    }
  }

  lemma ModStep(n: nat, m: nat)
    requires m >= 1
    ensures (n + m) % m == n % m
  {
    var q, r := n / m, n % m;
    assert n + m == (q + 1) * m + r;
    DivisionIsUnique(n + m, m, q + 1, r);
  }

  lemma {:induction false} ModShift(q: nat, m: nat, r: nat)
    requires m >= 1
    ensures (q * m + r) % m == r % m
    decreases q
  {
    if q > 0 {
      ModShift(q - 1, m, r);
      assert q * m + r == (q - 1) * m + r + m;
      ModStep((q - 1) * m + r, m);
    } else {
      assert q * m == 0;
    }
  }

  /** Reducing a summand first does not change a sum modulo m. */
  lemma ModAdd(x: nat, a: nat, m: nat)
    requires m >= 1
    ensures (x + a % m) % m == (x + a) % m && (a % m + x) % m == (a + x) % m
  {
    var q, r := a / m, a % m;
    assert x + a == q * m + (x + r);
    ModShift(q, m, x + r);
  }

  lemma ModOfMod(n: nat, m: nat, k: nat)
    requires m >= 1 && k >= 1
    ensures m * k >= 1 && n % (m * k) % m == n % m
  {
    assert m * k >= 1 by { MulGap(k, 0, m); }
    var q, r := n / (m * k), n % (m * k);
    assert n == q * (m * k) + r == (q * k) * m + r;
    ModShift(q * k, m, r);
  }
}

/** Division facts with a variable divisor, which the solver does not find on its own. */
module DivMod {

  lemma Monotone(d: nat, a: int, b: int)
    requires a <= b
    ensures d * a <= d * b
  {
  }

  /** The quotient and remainder are the only ones. */
  lemma Unique(k: nat, d: nat, q: nat, r: nat)
    requires r < d && k == d * q + r
    ensures k / d == q && k % d == r
  {
    if k / d < q {
      Monotone(d, k / d + 1, q);
    } else if k / d > q {
      Monotone(d, q + 1, k / d);
    }
  }

  lemma Successor(k: nat, d: nat)
    requires d > 0
    ensures if k % d == d - 1 then (k + 1) / d == k / d + 1 && (k + 1) % d == 0
            else (k + 1) / d == k / d && (k + 1) % d == k % d + 1
  {
    var q, r := k / d, k % d;
    assert k == d * q + r;
    if r == d - 1 {
      assert k + 1 == d * (q + 1);
      Unique(k + 1, d, q + 1, 0);
    } else {
      Unique(k + 1, d, q, r + 1);
    }
  }

  lemma Below(k: nat, d: nat, n: nat)
    requires d > 0 && k < d * n
    ensures k / d < n
  {
    if k / d >= n {
      Monotone(d, n, k / d);
    }
  }

  /** The quotient and remainder put the number together again. */
  lemma Recompose(k: nat, d: nat)
    requires d > 0
    ensures k == d * (k / d) + k % d && k % d < d
  {
  }

  /** A two-digit number is below the product of its bases. */
  lemma DigitsBelow(d: nat, q: nat, n: nat, r: nat)
    requires r < d && q < n
    ensures d * q + r < d * n
  {
    Monotone(d, q + 1, n);
  }

  lemma AddMultiple(a: nat, d: nat, k: nat)
    requires d > 0
    ensures (a + d * k) % d == a % d
  {
    Recompose(a, d);
    Unique(a + d * k, d, a / d + k, a % d);
  }
}

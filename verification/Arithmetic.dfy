/** Division of natural numbers. */
module Arithmetic {
  lemma DivMod(x: nat, p: nat)
    requires p > 0
    ensures x == x / p * p + x % p
  {
  }

  lemma Monotone(a: nat, b: nat, p: nat)
    requires a <= b
    ensures a * p <= b * p
  {
  }

  lemma DivBelow(x: nat, p: nat, q: nat)
    requires p > 0
    ensures x < q * p <==> x / p < q
  {
    var d := x / p;
    DivMod(x, p);
    if d < q {
      Monotone(d + 1, q, p);
    } else {
      Monotone(q, d, p);
    }
  }

  lemma DivUnique(x: nat, p: nat, q: nat, r: nat)
    requires p > 0 && r < p && x == q * p + r
    ensures x / p == q && x % p == r
  {
    DivBelow(x, p, q);
    assert x < (q + 1) * p;
    DivBelow(x, p, q + 1);
    DivMod(x, p);
  }

  lemma Ordered(x: nat, y: nat, bs: nat)
    requires bs > 0 && x <= y
    ensures x / bs <= y / bs
  {
    DivMod(x, bs);
    DivBelow(y, bs, x / bs);
  }

  /** Dividing by two or more makes a number smaller. */
  lemma Shrinks(x: nat, p: nat)
    requires p >= 2
    ensures 0 <= x / p && (x > 0 ==> x / p < x)
  {
    DivMod(x, p);
    if x / p > 0 {
      Monotone(2, p, x / p);
    }
  }
}

// Powers of two, and division and remainder by a variable divisor.
module Arithmetic {

  function Pow2(n: nat): (p: nat)
    ensures p >= 1
  {
    if n == 0 then 1 else 2 * Pow2(n - 1)
  }

  lemma PowersOfTwo()
    ensures Pow2(8) == 0x100 && Pow2(16) == 0x1_0000
  {
    assert Pow2(4) == 16;
    assert Pow2(8) == 16 * Pow2(4);
    assert Pow2(12) == 16 * Pow2(8);
    assert Pow2(16) == 16 * Pow2(12);
  }

  lemma {:induction false} Multiples(a: nat, b: nat, p: nat)
    ensures a < b ==> a * p + p <= b * p
  {
    if a + 1 < b {
      Multiples(a, b - 1, p);
      assert b * p == (b - 1) * p + p;
    } else if a + 1 == b {
      assert (a + 1) * p == a * p + p;
    }
  }

  lemma DivMod(x: nat, p: nat, q: nat, r: nat)
    requires p > 0 && r < p && x == q * p + r
    ensures x / p == q && x % p == r
  {
    var d, m := x / p, x % p;
    assert x == d * p + m;
    Multiples(d, q, p);
    Multiples(q, d, p);
  }

  lemma NextDivMod(x: nat, p: nat)
    requires p > 0
    ensures x % p + 1 < p ==> (x + 1) / p == x / p && (x + 1) % p == x % p + 1
    ensures x % p + 1 == p ==> (x + 1) / p == x / p + 1 && (x + 1) % p == 0
  {
    var q, r := x / p, x % p;
    assert x == q * p + r;
    if r + 1 < p {
      DivMod(x + 1, p, q, r + 1);
    } else {
      assert (q + 1) * p == q * p + p;
      DivMod(x + 1, p, q + 1, 0);
    }
  }

  lemma MultipleOf(q: nat, p: nat)
    requires p > 0
    ensures q * p % p == 0 && q * p / p == q
  {
    DivMod(q * p, p, q, 0);
  }
}

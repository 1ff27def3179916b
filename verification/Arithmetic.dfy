/** Quotients, remainders and powers of two. */
module Arithmetic {

  function Pow2(n: nat): (r: nat)
    ensures r > 0
  {
    if n == 0 then 1 else 2 * Pow2(n - 1)
  }

  lemma Pow2Step(n: nat)
    ensures Pow2(n + 64) == 0x1_0000_0000_0000_0000 * Pow2(n)
  {
    Pow2Step16(n);
    Pow2Step16(n + 16);
    Pow2Step16(n + 32);
    Pow2Step16(n + 48);
  }

  lemma Pow2Step16(n: nat)
    ensures Pow2(n + 16) == 0x1_0000 * Pow2(n)
  {
    assert Pow2(n + 4) == 0x10 * Pow2(n) by { assert Pow2(n + 2) == 4 * Pow2(n); }
    assert Pow2(n + 8) == 0x10 * Pow2(n + 4) by { assert Pow2(n + 6) == 4 * Pow2(n + 4); }
    assert Pow2(n + 12) == 0x10 * Pow2(n + 8) by { assert Pow2(n + 10) == 4 * Pow2(n + 8); }
    assert Pow2(n + 14) == 4 * Pow2(n + 12);
  }

  lemma Pow2Of128()
    ensures Pow2(128) == 0x1_0000_0000_0000_0000_0000_0000_0000_0000
  {
    hide Pow2;
    Pow2Of0();
    Pow2Step(0);
    Pow2Step(64);
  }

  lemma Pow2Of0()
    ensures Pow2(0) == 1
  {}

  lemma Multiple(k: nat, d: nat)
    requires k > 0
    ensures k * d >= d
  {}

  /** Quotient and remainder are determined. */
  lemma Division(x: nat, d: nat, q: nat, r: nat)
    requires x == q * d + r && r < d
    ensures x / d == q && x % d == r
  {
    var a := x / d;
    assert x == a * d + x % d;
    assert (q - a) * d == q * d - a * d;
    if q > a {
      Multiple(q - a, d);
    } else if q < a {
      Multiple(a - q, d);
    }
  }

  lemma Regroup(a: int, b: int, q: int, r: int)
    ensures a * (q * b + r) == q * (a * b) + a * r
  {
    assert a * (q * b) == q * (a * b);
  }

  lemma RemainderFits(a: nat, b: nat, r: nat, s: nat)
    requires r < b && s < a
    ensures a * r + s < a * b
  {
    assert a * b == a * r + a * (b - r);
    Multiple(b - r, a);
  }

  lemma DivideTwice(n: nat, a: nat, b: nat)
    requires a > 0 && b > 0
    ensures a * b > 0 && n / a / b == n / (a * b)
  {
    var k, s := n / a, n % a;
    var q, r := k / b, k % b;
    assert k == q * b + r && n == a * k + s;
    Multiple(a, b);
    Regroup(a, b, q, r);
    RemainderFits(a, b, r, s);
    Recompose(n, a, b, q, a * r + s);
  }

  lemma Recompose(n: nat, a: nat, b: nat, q: nat, rest: nat)
    requires n == q * (a * b) + rest && rest < a * b
    ensures a * b > 0 && n / (a * b) == q
  {
    Division(n, a * b, q, rest);
  }
}

/**
 Powers of two and the facts about Euclidean division by a positive number
 that the address split needs: shifts and masks by `n` bits are division and
 remainder by `Pow2(n)`.
 */
module Arith {
  function Pow2(n: nat): (r: nat)
    ensures r >= 1
  {
    if n == 0 then 1 else 2 * Pow2(n - 1)
  }

  lemma {:induction false} Pow2Add(a: nat, b: nat)
    ensures Pow2(a + b) == Pow2(a) * Pow2(b)
    decreases a
  {
    if a > 0 {
      Pow2Add(a - 1, b);
      assert Pow2(a + b) == 2 * Pow2(a - 1 + b);
    }
  }

  lemma {:induction false} Pow2Monotone(a: nat, b: nat)
    requires a <= b
    ensures Pow2(a) <= Pow2(b)
    decreases b
  {
    if a < b {
      Pow2Monotone(a, b - 1);
    }
  }

  lemma MulCancel(a: nat, b: nat, p: nat)
    requires a * p < b * p
    ensures a < b
  {
  }

  /** Euclidean division by `p` recovers the quotient and remainder it was built from. */
  lemma DivModUnique(q: nat, p: nat, r: nat)
    requires r < p
    ensures (q * p + r) / p == q && (q * p + r) % p == r
  {
    var x := q * p + r;
    var q', r' := x / p, x % p;
    assert x == q' * p + r';
    assert q' * p < (q + 1) * p;
    MulCancel(q', q + 1, p);
    assert q * p < (q' + 1) * p;
    MulCancel(q, q' + 1, p);
  }

  /** A quotient by `p` of a number below `m * p` is below `m`. */
  lemma DivBelow(a: nat, p: nat, m: nat)
    requires 0 < p && a < m * p
    ensures a / p < m
  {
    assert a == (a / p) * p + a % p;
    MulCancel(a / p, m, p);
  }

  /** Reducing modulo `m` keeps a number below `m` and takes off only a multiple of `m` otherwise. */
  lemma ModReduces(a: nat, m: nat)
    requires 0 < m
    ensures a < m ==> a % m == a
    ensures a % m <= a && (a - a % m) % m == 0
  {
    DivModUnique(0, m, a % m);
    assert a == (a / m) * m + a % m;
    DivModUnique(a / m, m, 0);
  }

  /** A number built from a quotient and a remainder below `p` splits back into them. */
  lemma SplitsBack(q: nat, p: nat, r: nat)
    requires 0 < p
    ensures r < p ==> (q * p + r) / p == q && (q * p + r) % p == r
  {
    if r < p {
      DivModUnique(q, p, r);
    }
  }

  /** Shifting a `v`-bit number right by `p` bits leaves fewer than `i` bits when `v <= p + i`. */
  lemma ShiftBelow(a: nat, v: nat, p: nat, i: nat)
    requires a < Pow2(v) && v <= p + i
    ensures a / Pow2(p) < Pow2(i)
  {
    var pp, pi := Pow2(p), Pow2(i);
    Pow2Monotone(v, p + i);
    Pow2Add(p, i);
    assert a < pp * pi;
    assert pp * pi == pi * pp;
    DivBelow(a, pp, pi);
  }
}

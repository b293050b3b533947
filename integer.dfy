/**
  Integer helpers used by the chunk planner: `min`/`max`, and the greatest
  common divisor and least common multiple on which block sizes are
  accumulated. The source takes `lcm` from an integer library; it is defined
  here by Euclid's algorithm and proved to be the least common multiple.
 */
module Integer {

  function Min(a: nat, b: nat): (r: nat)
    ensures r <= a && r <= b && (r == a || r == b)
  {
    if a <= b then a else b
  }

  function Max(a: nat, b: nat): (r: nat)
    ensures a <= r && b <= r && (r == a || r == b)
  {
    if a <= b then b else a
  }

  // ---------------------------------------------------------------------
  // Division facts the solver does not find on its own

  lemma MulSign(g: int, k: int)
    requires g > 0
    ensures k >= 1 ==> g * k >= g
    ensures k <= -1 ==> g * k <= -g
  {
  }

  /** An exact product divides back and leaves no remainder. */
  lemma DivMulExact(x: int, g: int, q: int)
    requires g > 0 && x == g * q
    ensures x / g == q && x % g == 0
  {
    var k := q - x / g;
    assert g * k == x % g;
    MulSign(g, k);
  }

  lemma ModSum(x: int, y: int, g: int)
    requires g > 0 && x % g == 0 && y % g == 0
    ensures (x + y) % g == 0
  {
    assert x + y == g * (x / g + y / g);
    DivMulExact(x + y, g, x / g + y / g);
  }

  lemma ModMul(x: int, k: int, g: int)
    requires g > 0 && x % g == 0
    ensures (x * k) % g == 0
  {
    assert x == g * (x / g);
    assert x * k == g * ((x / g) * k);
    DivMulExact(x * k, g, (x / g) * k);
  }

  /** Divisibility is transitive. */
  lemma ModTrans(n: int, m: int, d: int)
    requires d > 0 && m > 0 && m % d == 0 && n % m == 0
    ensures n % d == 0
  {
    assert n == m * (n / m);
    ModMul(m, n / m, d);
  }

  // ---------------------------------------------------------------------
  // Greatest common divisor

  /** Euclid's algorithm. */
  function Gcd(a: nat, b: nat): nat
    decreases b
  {
    if b == 0 then a else Gcd(b, a % b)
  }

  lemma {:induction false} GcdDividesBoth(a: nat, b: nat)
    requires a > 0
    ensures Gcd(a, b) > 0 && a % Gcd(a, b) == 0 && b % Gcd(a, b) == 0
    decreases b
  {
    if b == 0 {
      DivMulExact(a, a, 1);
      DivMulExact(0, a, 0);
    } else {
      GcdDividesBoth(b, a % b);
      var g := Gcd(b, a % b);
      assert a == b * (a / b) + a % b;
      ModMul(b, a / b, g);
      ModSum(b * (a / b), a % b, g);
    }
  }

  /** Bezout coefficients: `Gcd(a, b)` is an integer combination of `a` and `b`. */
  function Bezout(a: nat, b: nat): (c: (int, int))
    ensures a * c.0 + b * c.1 == Gcd(a, b)
    decreases b
  {
    if b == 0 then (1, 0)
    else
      var c' := Bezout(b, a % b);
      var q := a / b;
      assert a % b == a - q * b;
      assert a * c'.1 + b * (c'.0 - q * c'.1) == b * c'.0 + (a - q * b) * c'.1;
      (c'.1, c'.0 - q * c'.1)
  }

  // ---------------------------------------------------------------------
  // Least common multiple

  /** `lcm(a, b) = a * (b / gcd(a, b))`, a common multiple of both arguments. */
  function Lcm(a: nat, b: nat): (r: nat)
    requires a > 0 && b > 0
    ensures r > 0 && r % a == 0 && r % b == 0
  {
    GcdDividesBoth(a, b);
    var g := Gcd(a, b);
    assert b == g * (b / g);
    assert a == g * (a / g);
    MulSign(g, b / g);
    MulSign(a, b / g);
    DivMulExact(a * (b / g), a, b / g);
    assert a * (b / g) == b * (a / g);
    DivMulExact(a * (b / g), b, a / g);
    a * (b / g)
  }

  /** `Lcm(a, b)` divides every common multiple of `a` and `b`: it is the least one. */
  lemma LcmDividesCommonMultiples(a: nat, b: nat, m: int)
    requires a > 0 && b > 0
    requires m % a == 0 && m % b == 0
    ensures m % Lcm(a, b) == 0
  {
    GcdDividesBoth(a, b);
    var g := Gcd(a, b);
    var l := Lcm(a, b);
    var (x, y) := Bezout(a, b);
    var ka, kb := m / a, m / b;
    assert m == a * ka && m == b * kb;
    var k := kb * x + ka * y;
    BezoutScaled(a, b, x, y, m, ka, kb);
    assert m * g == (a * b) * k;
    LcmTimesGcd(a, b);
    CancelFactor(m, g, l, k);
    DivMulExact(m, l, k);
  }

  lemma LcmTimesGcd(a: nat, b: nat)
    requires a > 0 && b > 0
    ensures a * b == Lcm(a, b) * Gcd(a, b)
  {
    GcdDividesBoth(a, b);
    var g := Gcd(a, b);
    var bq := b / g;
    assert b == g * bq;
    assert Lcm(a, b) == a * bq;
  }

  lemma CancelFactor(m: int, g: int, l: int, k: int)
    requires g > 0 && m * g == (l * g) * k
    ensures m == l * k
  {
    assert (m - l * k) * g == 0;
    MulSign(g, m - l * k);
  }

  lemma BezoutScaled(a: int, b: int, x: int, y: int, m: int, ka: int, kb: int)
    requires m == a * ka && m == b * kb
    ensures m * (a * x + b * y) == (a * b) * (kb * x + ka * y)
  {
    assert m * (a * x) == (b * kb) * (a * x) == (a * b) * (kb * x);
    assert m * (b * y) == (a * ka) * (b * y) == (a * b) * (ka * y);
  }

  lemma LcmIsLeast(a: nat, b: nat, m: nat)
    requires a > 0 && b > 0 && m > 0
    requires m % a == 0 && m % b == 0
    ensures Lcm(a, b) <= m
  {
    LcmDividesCommonMultiples(a, b, m);
    var l := Lcm(a, b);
    assert m == l * (m / l);
    MulSign(l, m / l);
  }

  /** Adding a block size equal to the current one changes nothing. */
  lemma LcmSame(a: nat)
    requires a > 0
    ensures Lcm(a, a) == a
  {
    LcmIsLeast(a, a, a);
    var l := Lcm(a, a);
    assert l % a == 0;
    assert l == a * (l / a);
    MulSign(a, l / a);
  }

  /** A positive multiple of `m` is at least `m`. */
  lemma MultipleAtLeast(r: nat, m: nat)
    requires m > 0 && r > 0 && r % m == 0
    ensures r >= m
  {
  }

  /** The least common multiple of a whole list, accumulated left to right from 1. */
  function LcmOf(bs: seq<nat>): (r: nat)
    requires forall i :: 0 <= i < |bs| ==> bs[i] > 0
    ensures r > 0
  {
    if |bs| == 0 then 1 else Lcm(LcmOf(bs[..|bs| - 1]), bs[|bs| - 1])
  }

  /**
    `LcmOf(bs)` is a multiple of every element of `bs` and divides every
    common multiple of them, so it is their least common multiple.
   */
  lemma {:induction false} LcmOfIsLeastCommonMultiple(bs: seq<nat>, m: int)
    requires forall i :: 0 <= i < |bs| ==> bs[i] > 0
    ensures forall i :: 0 <= i < |bs| ==> LcmOf(bs) % bs[i] == 0
    ensures (forall i :: 0 <= i < |bs| ==> m % bs[i] == 0) ==> m % LcmOf(bs) == 0
  {
    if |bs| == 0 {
      DivMulExact(m, 1, m);
    } else {
      var init, last := bs[..|bs| - 1], bs[|bs| - 1];
      LcmOfIsLeastCommonMultiple(init, m);
      var l0 := LcmOf(init);
      var l := LcmOf(bs);
      assert l == Lcm(l0, last);
      forall i | 0 <= i < |bs|
        ensures l % bs[i] == 0
      {
        if i < |bs| - 1 {
          assert bs[i] == init[i];
          ModTrans(l, l0, bs[i]);
        }
      }
      if forall i :: 0 <= i < |bs| ==> m % bs[i] == 0 {
        assert forall i :: 0 <= i < |init| ==> m % init[i] == 0 by {
          forall i | 0 <= i < |init| ensures m % init[i] == 0 {
            assert init[i] == bs[i];
          }
        }
        LcmDividesCommonMultiples(l0, last, m);
      }
    }
  }
}

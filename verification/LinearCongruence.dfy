/** Arithmetic of linear congruential generators x := a*x + c. When a is 1
    modulo 4 and c is odd, every window of low-order bits has full period.
    Divisibility by 2^k is expressed by repeated halving. */
module LinearCongruence {

  // k halvings of n are all exact: 2^k divides n.
  predicate Halves(k: nat, n: nat) {
    k == 0 || (n % 2 == 0 && Halves(k - 1, n / 2))
  }

  // x and y agree in their k low bits.
  predicate Agree(k: nat, x: nat, y: nat) {
    k == 0 || (x % 2 == y % 2 && Agree(k - 1, x / 2, y / 2))
  }

  ghost predicate FullPeriodParameters(a: nat, c: nat) {
    a % 4 == 1 && c % 2 == 1
  }

  // n steps of the generator.
  function Steps(a: nat, c: nat, x: nat, n: nat): nat {
    if n == 0 then x else a * Steps(a, c, x, n - 1) + c
  }

  // 1 + a + a^2 + ... + a^(n-1)
  function GeometricSum(a: nat, n: nat): nat {
    if n == 0 then 0 else a * GeometricSum(a, n - 1) + 1
  }

  function Power(a: nat, n: nat): nat {
    if n == 0 then 1 else a * Power(a, n - 1)
  }

  function Pow2(k: nat): nat {
    if k == 0 then 1 else 2 * Pow2(k - 1)
  }

  // ---- Halving ----

  lemma {:induction false} AgreeIffDifferenceHalves(k: nat, x: nat, y: nat)
    requires x <= y
    ensures Agree(k, x, y) <==> Halves(k, y - x)
  {
    if k > 0 && x % 2 == y % 2 {
      AgreeIffDifferenceHalves(k - 1, x / 2, y / 2);
      assert (y - x) / 2 == y / 2 - x / 2;
    }
  }

  lemma {:induction false} AgreeSymmetric(k: nat, x: nat, y: nat)
    ensures Agree(k, x, y) == Agree(k, y, x)
  {
    if k > 0 {
      AgreeSymmetric(k - 1, x / 2, y / 2);
    }
  }

  lemma {:induction false} AgreeTransitive(k: nat, x: nat, y: nat, z: nat)
    requires Agree(k, x, y)
    ensures Agree(k, y, z) == Agree(k, x, z)
  {
    if k > 0 {
      AgreeTransitive(k - 1, x / 2, y / 2, z / 2);
    }
  }

  lemma {:induction false} AgreeNarrower(k: nat, m: nat, x: nat, y: nat)
    requires k <= m && Agree(m, x, y)
    ensures Agree(k, x, y)
  {
    if k > 0 {
      AgreeNarrower(k - 1, m - 1, x / 2, y / 2);
    }
  }

  lemma {:induction false} HalvesMultiple(k: nat, a: nat, n: nat)
    requires Halves(k, n)
    ensures Halves(k, a * n)
  {
    if k > 0 {
      assert a * n == 2 * (a * (n / 2));
      HalvesMultiple(k - 1, a, n / 2);
    }
  }

  lemma {:induction false} PowerHalves(k: nat, q: nat)
    ensures Halves(k, Pow2(k) * q)
  {
    if k > 0 {
      assert Pow2(k) * q == 2 * (Pow2(k - 1) * q);
      PowerHalves(k - 1, q);
    }
  }

  /** Agreement in k low bits is congruence modulo 2^k. */
  lemma {:induction false} AgreeIsCongruence(k: nat, x: nat, y: nat)
    ensures Pow2(k) > 0
    ensures Agree(k, x, y) <==> x % Pow2(k) == y % Pow2(k)
  {
    if k > 0 {
      AgreeIsCongruence(k - 1, x / 2, y / 2);
      DoubleModulus(x, Pow2(k - 1));
      DoubleModulus(y, Pow2(k - 1));
    }
  }

  lemma DoubleModulus(x: nat, p: nat)
    requires p > 0
    ensures x % (2 * p) == 2 * (x / 2 % p) + x % 2
  {
    var q, r := x / 2 / p, x / 2 % p;
    assert x / 2 == p * q + r;
    ModulusUnique(x, 2 * p, q, 2 * r + x % 2);
  }

  lemma ModulusUnique(x: nat, m: nat, q: nat, r: nat)
    requires r < m && x == m * q + r
    ensures x % m == r
  {
    var q', r' := x / m, x % m;
    assert x == m * q' + r';
    if q' > q {
      MultipleGap(m, q', q);
    } else if q > q' {
      MultipleGap(m, q, q');
    }
  }

  lemma MultipleGap(m: nat, hi: nat, lo: nat)
    requires hi > lo
    ensures m * hi >= m * lo + m
  {
    var d: nat := hi - lo - 1;
    assert m * (lo + 1 + d) == m * lo + m + m * d;
  }

  // An odd factor does not change divisibility by a power of two.
  lemma {:induction false} OddFactor(k: nat, odd: nat, n: nat)
    requires odd % 2 == 1
    ensures Halves(k, odd * n) <==> Halves(k, n)
  {
    if k > 0 {
      OddTimes(odd, n);
      if n % 2 == 0 {
        assert odd * n == 2 * (odd * (n / 2));
        OddFactor(k - 1, odd, n / 2);
      }
    }
  }

  lemma OddTimes(odd: nat, n: nat)
    requires odd % 2 == 1
    ensures (odd * n) % 2 == n % 2
  {
    var h := odd / 2;
    assert odd * n == 2 * (h * n) + n;
  }

  // ---- The generator ----

  lemma {:induction false} SumSplits(a: nat, h: nat, g: nat)
    ensures GeometricSum(a, h + g) == Power(a, g) * GeometricSum(a, h) + GeometricSum(a, g)
  {
    if g > 0 {
      SumSplits(a, h, g - 1);
      assert h + g - 1 == h + (g - 1);
      Distribute(a, Power(a, g - 1), GeometricSum(a, h), GeometricSum(a, g - 1));
    }
  }

  lemma Distribute(a: int, p: int, s: int, t: int)
    ensures a * (p * s + t) == (a * p) * s + a * t
  {
  }

  lemma {:induction false} PowerIsOneModFour(a: nat, n: nat)
    requires a % 4 == 1
    ensures Power(a, n) % 4 == 1
  {
    if n > 0 {
      PowerIsOneModFour(a, n - 1);
      OneModFourTimes(a, Power(a, n - 1));
    }
  }

  lemma OneModFourTimes(a: nat, p: nat)
    requires a % 4 == 1
    ensures (a * p) % 4 == p % 4
  {
    var q := a / 4;
    assert a * p == 4 * (q * p) + p;
  }

  lemma {:induction false} SumParity(a: nat, n: nat)
    requires a % 2 == 1
    ensures GeometricSum(a, n) % 2 == n % 2
  {
    if n > 0 {
      SumParity(a, n - 1);
      ParityStep(a, n - 1);
    }
  }

  lemma ParityStep(a: nat, n: nat)
    requires a % 2 == 1
    ensures GeometricSum(a, n + 1) % 2 != GeometricSum(a, n) % 2
  {
    var s := GeometricSum(a, n);
    OddTimes(a, s);
    assert GeometricSum(a, n + 1) == a * s + 1;
  }

  // The geometric sum and n are divisible by the same powers of two.
  lemma {:induction false} SumValuation(a: nat, k: nat, n: nat)
    requires a % 4 == 1
    ensures Halves(k, GeometricSum(a, n)) <==> Halves(k, n)
  {
    if k > 0 {
      SumParity(a, n);
      if n % 2 == 0 {
        var odd := SumOfTwice(a, n / 2);
        assert n / 2 + n / 2 == n;
        OddFactor(k - 1, odd, GeometricSum(a, n / 2));
        SumValuation(a, k - 1, n / 2);
      }
    }
  }

  lemma SumOfTwice(a: nat, h: nat) returns (odd: nat)
    requires a % 4 == 1
    ensures odd % 2 == 1
    ensures GeometricSum(a, h + h) == 2 * (odd * GeometricSum(a, h))
  {
    var p, s := Power(a, h), GeometricSum(a, h);
    assert p % 4 == 1 by { PowerIsOneModFour(a, h); }
    odd := 2 * (p / 4) + 1;
    assert GeometricSum(a, h + h) == 2 * (odd * s) by {
      SumSplits(a, h, h);
      OddPlusOne(p, odd, s);
    }
  }

  lemma OddPlusOne(p: nat, odd: nat, s: nat)
    requires p == 2 * odd - 1
    ensures p * s + s == 2 * (odd * s)
  {
  }

  function Factor(a: nat, c: nat, x: nat): nat
    requires a > 0
  {
    (a - 1) * x + c
  }

  // n steps move x by the geometric sum times a fixed factor.
  lemma {:induction false} Displacement(a: nat, c: nat, x: nat, n: nat)
    requires a > 0
    ensures Steps(a, c, x, n) == x + Factor(a, c, x) * GeometricSum(a, n)
  {
    if n > 0 {
      Displacement(a, c, x, n - 1);
      DisplacementStep(a, c, x, GeometricSum(a, n - 1));
    }
  }

  lemma DisplacementStep(a: nat, c: nat, x: nat, s: nat)
    requires a > 0
    ensures a * (x + Factor(a, c, x) * s) + c == x + Factor(a, c, x) * (a * s + 1)
  {
    var q := Factor(a, c, x);
    assert a * x + c == x + q;
    assert a * (x + q * s) == a * x + a * (q * s);
    assert q * (a * s + 1) == a * (q * s) + q;
  }

  lemma FactorIsOdd(a: nat, c: nat, x: nat)
    requires FullPeriodParameters(a, c)
    ensures Factor(a, c, x) % 2 == 1
  {
    var b := a - 1;
    EvenTimes(b, x);
  }

  lemma EvenTimes(b: nat, x: nat)
    requires b % 2 == 0
    ensures (b * x) % 2 == 0
  {
    var h := b / 2;
    assert b == 2 * h;
    assert b * x == 2 * (h * x);
  }

  lemma {:induction false} StepsCompose(a: nat, c: nat, x: nat, i: nat, d: nat)
    ensures Steps(a, c, x, i + d) == Steps(a, c, Steps(a, c, x, i), d)
  {
    if d > 0 {
      StepsCompose(a, c, x, i, d - 1);
      assert i + d - 1 == i + (d - 1);
    }
  }

  /** The values at positions i and j agree in their k low bits exactly when the
      positions do: every low-order window of the generator has full period. */
  lemma FullPeriod(a: nat, c: nat, x: nat, i: nat, j: nat, k: nat)
    requires FullPeriodParameters(a, c) && i <= j
    ensures Agree(k, Steps(a, c, x, i), Steps(a, c, x, j)) <==> Agree(k, i, j)
  {
    var u, d := Steps(a, c, x, i), j - i;
    StepsCompose(a, c, x, i, d);
    Displacement(a, c, u, d);
    FactorIsOdd(a, c, u);
    OddDisplacement(k, a, u, Steps(a, c, u, d), Factor(a, c, u), d);
    AgreeIffDifferenceHalves(k, i, j);
  }

  lemma OddDisplacement(k: nat, a: nat, u: nat, v: nat, odd: nat, d: nat)
    requires a % 4 == 1 && odd % 2 == 1 && v == u + odd * GeometricSum(a, d)
    ensures Agree(k, u, v) <==> Halves(k, d)
  {
    var g := GeometricSum(a, d);
    var moved := odd * g;
    assert v - u == moved;
    AgreeIffDifferenceHalves(k, u, v);
    assert Halves(k, moved) == Halves(k, g) by { OddFactor(k, odd, g); }
    assert Halves(k, g) == Halves(k, d) by { SumValuation(a, k, d); }
  }
}

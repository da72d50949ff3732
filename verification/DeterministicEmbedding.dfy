/** The deterministic embedding provider: a linear congruential generator
    masked to 31 bits, whose 1024 outputs are scaled to [-1, 1] and normalised.
    Coordinates are exact reals; the rounding of IEEE doubles is not modelled. */
module DeterministicEmbedding {
  import LCG = LinearCongruence

  const MULTIPLIER: nat := 1103515245
  const INCREMENT: nat := 12345
  const MASK: nat := 0x7FFF_FFFF
  const DIMENSIONS: nat := 1024

  // `x & MASK` on a non-negative integer keeps its low 31 bits.
  function Masked(x: nat): nat {
    x % (MASK + 1)
  }

  // The value of `seed` after n loop iterations.
  function SeedAfter(seed: nat, n: nat): nat {
    if n == 0 then seed else Masked(MULTIPLIER * SeedAfter(seed, n - 1) + INCREMENT)
  }

  function RawCoordinate(state: nat): real {
    (state as real / MASK as real) * 2.0 - 1.0
  }

  /** Coordinates go from -1 to 1 in equal steps, from the least state to the largest. */
  lemma CoordinateSteps(a: nat, b: nat)
    ensures RawCoordinate(0) == -1.0 && RawCoordinate(MASK) == 1.0
    ensures (RawCoordinate(a) - RawCoordinate(b)) * MASK as real == 2.0 * (a as real - b as real)
  {
  }

  function RawVector(seed: nat): (v: seq<real>)
    ensures |v| == DIMENSIONS
  {
    seq(DIMENSIONS, n requires 0 <= n < DIMENSIONS => RawCoordinate(SeedAfter(seed, n + 1)))
  }

  function Product(a: real, b: real): real {
    a * b
  }

  function Square(v: real): real {
    Product(v, v)
  }

  lemma ProductSign(a: real, b: real)
    requires (a > 0.0 && b > 0.0) || (a < 0.0 && b < 0.0)
    ensures Product(a, b) > 0.0
  {
  }

  lemma SquareSign(v: real)
    ensures Square(v) >= 0.0
    ensures v != 0.0 ==> Square(v) > 0.0
  {
    if v != 0.0 {
      ProductSign(v, v);
    }
  }

  function SumSquares(values: seq<real>): (q: real)
    ensures q >= 0.0
  {
    if values == [] then 0.0
    else
      var last := values[|values| - 1];
      SquareSign(last);
      SumSquares(values[..|values| - 1]) + Square(last)
  }

  /** The squares of all coordinates are summed. */
  lemma {:induction false} SumSquaresAppend(a: seq<real>, b: seq<real>)
    ensures SumSquares(a + b) == SumSquares(a) + SumSquares(b)
    ensures |b| == 1 ==> SumSquares(b) == b[0] * b[0]
  {
    if b == [] {
      assert a + b == a;
    } else {
      var n := |b| - 1;
      SumSquaresAppend(a, b[..n]);
      assert (a + b)[..|a + b| - 1] == a + b[..n] && (a + b)[|a + b| - 1] == b[n];
      if n == 0 { assert b[..n] == []; }
    }
  }

  // ---- States ----

  // The mask only drops high bits: the state agrees with the unmasked value.
  lemma {:induction false} MaskedAgrees(seed: nat, n: nat)
    ensures LCG.Agree(31, SeedAfter(seed, n), LCG.Steps(MULTIPLIER, INCREMENT, seed, n))
  {
    if n == 0 {
      LCG.AgreeIffDifferenceHalves(31, seed, seed);
      LCG.PowerHalves(31, 0);
    } else {
      MaskedAgrees(seed, n - 1);
      var x, y := SeedAfter(seed, n - 1), LCG.Steps(MULTIPLIER, INCREMENT, seed, n - 1);
      MaskAgrees(MULTIPLIER * x + INCREMENT);
      StepAgrees(x, y);
      LCG.AgreeTransitive(31, SeedAfter(seed, n), MULTIPLIER * x + INCREMENT, MULTIPLIER * y + INCREMENT);
    }
  }

  lemma MaskAgrees(v: nat)
    ensures LCG.Agree(31, Masked(v), v)
  {
    PowerValues();
    var q := v / (MASK + 1);
    LCG.PowerHalves(31, q);
    assert v - Masked(v) == (MASK + 1) * q;
    LCG.AgreeIffDifferenceHalves(31, Masked(v), v);
  }

  lemma StepAgrees(x: nat, y: nat)
    requires LCG.Agree(31, x, y)
    ensures LCG.Agree(31, MULTIPLIER * x + INCREMENT, MULTIPLIER * y + INCREMENT)
  {
    if x <= y {
      StepAgreesOrdered(x, y);
    } else {
      LCG.AgreeSymmetric(31, x, y);
      StepAgreesOrdered(y, x);
      LCG.AgreeSymmetric(31, MULTIPLIER * x + INCREMENT, MULTIPLIER * y + INCREMENT);
    }
  }

  lemma StepAgreesOrdered(x: nat, y: nat)
    requires x <= y && LCG.Agree(31, x, y)
    ensures LCG.Agree(31, MULTIPLIER * x + INCREMENT, MULTIPLIER * y + INCREMENT)
  {
    LCG.AgreeIffDifferenceHalves(31, x, y);
    LCG.HalvesMultiple(31, MULTIPLIER, y - x);
    LCG.AgreeIffDifferenceHalves(31, MULTIPLIER * x + INCREMENT, MULTIPLIER * y + INCREMENT);
  }

  lemma PowerValues()
    ensures LCG.Pow2(10) == DIMENSIONS && LCG.Pow2(31) == MASK + 1
  {
    assert LCG.Pow2(8) == 256;
    assert LCG.Pow2(10) == 1024;
    assert LCG.Pow2(16) == 0x1_0000;
    assert LCG.Pow2(24) == 0x100_0000;
  }

  /** The k low bits (k at most 31) of two states of one call are equal exactly
      when the k low bits of their positions are: no window repeats early. */
  lemma FullPeriod(seed: nat, i: nat, j: nat, k: nat)
    requires i <= j && k <= 31
    ensures LCG.Agree(k, SeedAfter(seed, i), SeedAfter(seed, j)) <==> LCG.Agree(k, i, j)
  {
    var x, y := SeedAfter(seed, i), SeedAfter(seed, j);
    var u, v := LCG.Steps(MULTIPLIER, INCREMENT, seed, i), LCG.Steps(MULTIPLIER, INCREMENT, seed, j);
    MaskedAgrees(seed, i);
    MaskedAgrees(seed, j);
    LCG.AgreeNarrower(k, 31, x, u);
    LCG.AgreeNarrower(k, 31, y, v);
    LCG.AgreeTransitive(k, x, u, y);
    LCG.AgreeSymmetric(k, x, u);
    LCG.AgreeSymmetric(k, u, y);
    LCG.AgreeTransitive(k, y, v, u);
    LCG.AgreeSymmetric(k, v, u);
    LCG.FullPeriod(MULTIPLIER, INCREMENT, seed, i, j, k);
  }

  /** Modulo 1024, two states agree exactly when their positions do. */
  lemma StatesAgreeModulo(seed: nat, i: nat, j: nat)
    requires i <= j
    ensures SeedAfter(seed, i) % DIMENSIONS == SeedAfter(seed, j) % DIMENSIONS <==> i % DIMENSIONS == j % DIMENSIONS
  {
    PowerValues();
    FullPeriod(seed, i, j, 10);
    LCG.AgreeIsCongruence(10, SeedAfter(seed, i), SeedAfter(seed, j));
    LCG.AgreeIsCongruence(10, i, j);
  }

  /** A state repeats exactly every 2^31 steps, never sooner. */
  lemma StateRepeats(seed: nat, i: nat, j: nat)
    requires 0 < i <= j
    ensures SeedAfter(seed, i) == SeedAfter(seed, j) <==> i % (MASK + 1) == j % (MASK + 1)
  {
    PowerValues();
    FullPeriod(seed, i, j, 31);
    var x, y := SeedAfter(seed, i), SeedAfter(seed, j);
    LCG.AgreeIsCongruence(31, x, y);
    LCG.AgreeIsCongruence(31, i, j);
    StateInRange(seed, i);
    StateInRange(seed, j);
  }

  lemma StateInRange(seed: nat, n: nat)
    requires n > 0
    ensures SeedAfter(seed, n) <= MASK && SeedAfter(seed, n) % (MASK + 1) == SeedAfter(seed, n)
  {
  }

  function Residue(seed: nat, i: nat): nat {
    SeedAfter(seed, i) % DIMENSIONS
  }

  lemma PositionsDiffer(i: nat, j: nat)
    requires 0 < i < j <= DIMENSIONS
    ensures i % DIMENSIONS != j % DIMENSIONS
  {
  }

  /** The 1024 states of one call are pairwise distinct, even modulo 1024. */
  lemma StatesDistinct(seed: nat, i: nat, j: nat)
    requires 0 < i < j <= DIMENSIONS
    ensures Residue(seed, i) != Residue(seed, j)
    ensures SeedAfter(seed, i) != SeedAfter(seed, j)
  {
    PositionsDiffer(i, j);
    var x, y := SeedAfter(seed, i), SeedAfter(seed, j);
    assert x % DIMENSIONS != y % DIMENSIONS by { StatesAgreeModulo(seed, i, j); }
  }

  /** Every residue modulo 1024 is taken by one of the 1024 states. */
  lemma EveryResidueTaken(seed: nat, r: nat) returns (i: nat)
    requires r < DIMENSIONS
    ensures 0 < i <= DIMENSIONS && Residue(seed, i) == r
  {
    var hit := ResiduesUpTo(seed, DIMENSIONS);
    if r !in hit {
      SubsetSize(hit, Below(DIMENSIONS) - {r});
    }
    i :| 0 < i <= DIMENSIONS && Residue(seed, i) == r;
  }

  lemma {:induction false} ResiduesUpTo(seed: nat, n: nat) returns (s: set<nat>)
    requires n <= DIMENSIONS
    ensures |s| == n
    ensures forall x :: x in s ==> x < DIMENSIONS && exists i :: 0 < i <= n && Residue(seed, i) == x
  {
    s := {};
    if n > 0 {
      var before := ResiduesUpTo(seed, n - 1);
      var x := Residue(seed, n);
      if x in before {
        var i :| 0 < i <= n - 1 && Residue(seed, i) == x;
        StatesDistinct(seed, i, n);
        assert false;
      }
      s := before + {x};
    }
  }

  ghost function Below(n: nat): (s: set<nat>)
    ensures |s| == n
    ensures forall x: nat :: x in s <==> x < n
  {
    if n == 0 then {} else Below(n - 1) + {n - 1}
  }

  lemma {:induction false} SubsetSize<T>(a: set<T>, b: set<T>)
    requires a <= b
    ensures |a| <= |b|
  {
    if x :| x in a {
      SubsetSize(a - {x}, b - {x});
    }
  }

  // ---- Coordinates ----

  /** A raw coordinate lies in [-1, 1] and is never zero: the mask is odd. */
  lemma CoordinateNonZero(state: nat)
    requires state <= MASK
    ensures RawCoordinate(state) != 0.0
    ensures -1.0 <= RawCoordinate(state) <= 1.0
  {
    var quotient := state as real / MASK as real;
    assert quotient * MASK as real == state as real;
    assert RawCoordinate(state) == 0.0 ==> 2 * state == MASK;
    assert 2 * state != MASK;
  }

  lemma {:induction false} ScaledSquares(values: seq<real>, scaled: seq<real>, norm: real)
    requires |values| == |scaled| && norm != 0.0
    requires forall n :: 0 <= n < |values| ==> scaled[n] == values[n] / norm
    ensures Square(norm) != 0.0 && SumSquares(scaled) == SumSquares(values) / Square(norm)
  {
    SquareSign(norm);
    if |values| > 0 {
      var last := |values| - 1;
      ScaledSquares(values[..last], scaled[..last], norm);
      ScaledTerm(SumSquares(values[..last]), values[last], norm);
    }
  }

  lemma ScaledTerm(q: real, v: real, norm: real)
    requires norm != 0.0
    ensures Square(norm) != 0.0
    ensures q / Square(norm) + Square(v / norm) == (q + Square(v)) / Square(norm)
  {
    var t := Square(norm);
    SquareSign(norm);
    SquareOfQuotient(v, norm);
    SumOverDivisor(q, Square(v), t);
  }

  lemma SquareOfQuotient(v: real, norm: real)
    requires norm != 0.0
    ensures Square(norm) != 0.0
    ensures Square(v / norm) == Square(v) / Square(norm)
  {
    var s := v / norm;
    SquareSign(norm);
    assert v == s * norm;
    ProductOfSquares(s, norm);
    CancelDivisor(Square(s), Square(norm));
  }

  lemma ProductOfSquares(s: real, n: real)
    ensures Square(s * n) == Square(s) * Square(n)
  {
    assert (s * n) * (s * n) == (s * s) * (n * n);
  }

  lemma CancelDivisor(x: real, t: real)
    requires t != 0.0
    ensures x * t / t == x
  {
  }

  lemma SumOverDivisor(a: real, b: real, t: real)
    requires t != 0.0
    ensures a / t + b / t == (a + b) / t
  {
  }

  /** Dividing by the norm gives a vector of length one. */
  lemma UnitLength(values: seq<real>, scaled: seq<real>, norm: real)
    requires |values| == |scaled|
    requires norm != 0.0 && Square(norm) == SumSquares(values)
    requires forall n :: 0 <= n < |values| ==> scaled[n] == values[n] / norm
    ensures SumSquares(scaled) == 1.0
  {
    SquareSign(norm);
    ScaledSquares(values, scaled, norm);
    DivideSelf(SumSquares(values));
  }

  lemma DivideSelf(t: real)
    requires t != 0.0
    ensures t / t == 1.0
  {
  }

  lemma QuotientNonZero(v: real, norm: real)
    requires norm != 0.0 && v != 0.0
    ensures v / norm != 0.0
  {
    assert v / norm * norm == v;
  }

  lemma RawNonZero(seed: nat, n: nat)
    requires n < DIMENSIONS
    ensures RawVector(seed)[n] != 0.0
  {
    StateInRange(seed, n + 1);
    CoordinateNonZero(SeedAfter(seed, n + 1));
  }

  /** The norm of the raw vector is positive, so normalisation is defined. */
  lemma RawIsPositive(seed: nat)
    ensures SumSquares(RawVector(seed)) > 0.0
  {
    RawNonZero(seed, DIMENSIONS - 1);
    var v := RawVector(seed);
    SquareSign(v[DIMENSIONS - 1]);
    assert SumSquares(v) >= Square(v[DIMENSIONS - 1]);
  }

  // The generator loop of embed().
  method RawValues(seed: nat) returns (values: seq<real>)
    ensures values == RawVector(seed)
  {
    values := [];
    var current := seed;
    while |values| < DIMENSIONS
      invariant |values| <= DIMENSIONS
      invariant current == SeedAfter(seed, |values|)
      invariant forall n :: 0 <= n < |values| ==> values[n] == RawVector(seed)[n]
    {
      current := Masked(MULTIPLIER * current + INCREMENT);
      values := values + [(current as real / MASK as real) * 2.0 - 1.0];
    }
  }

  // The list comprehension that divides every value by the norm.
  method DivideAll(values: seq<real>, norm: real) returns (scaled: seq<real>)
    requires norm != 0.0
    ensures |scaled| == |values|
    ensures forall n :: 0 <= n < |values| ==> scaled[n] == values[n] / norm
  {
    scaled := [];
    for n := 0 to |values|
      invariant |scaled| == n
      invariant forall m :: 0 <= m < n ==> scaled[m] == values[m] / norm
    {
      scaled := scaled + [values[n] / norm];
    }
  }

  /** embed() after hashing: `seed` is the first eight digest bytes, `sqrt` the
      library square root, of which only its value at the one argument matters. */
  method Embed(seed: nat, sqrt: real -> real) returns (vector: seq<real>)
    requires seed < 0x1_0000_0000_0000_0000
    requires Square(sqrt(SumSquares(RawVector(seed)))) == SumSquares(RawVector(seed))
    ensures |vector| == DIMENSIONS
    ensures SumSquares(vector) == 1.0
    ensures sqrt(SumSquares(RawVector(seed))) != 0.0
    ensures forall n :: 0 <= n < DIMENSIONS ==>
              vector[n] != 0.0 && vector[n] == RawVector(seed)[n] / sqrt(SumSquares(RawVector(seed)))
  {
    var values := RawValues(seed);
    RawIsPositive(seed);
    var norm := sqrt(SumSquares(values));
    vector := DivideAll(values, norm);
    UnitLength(values, vector, norm);
    forall n | 0 <= n < DIMENSIONS ensures vector[n] != 0.0 {
      RawNonZero(seed, n);
      QuotientNonZero(values[n], norm);
    }
  }
}

/**
 Elementary number theory over unbounded integers: divisibility, greatest common divisors,
 primes, powers and binomial coefficients, up to Euclid's lemma and Fermat's little theorem.
 */
module NumberTheory {

  // ---------- Divisibility ----------

  predicate Divides(d: int, n: int) {
    if d == 0 then n == 0 else n % d == 0
  }

  lemma Distribute(x: int, y: int, z: int)
    ensures x * (y + z) == x * y + x * z
    ensures x * (y - z) == x * y - x * z
  {
  }

  lemma SmallMultiple(d: int, k: int)
    requires 0 <= d * k < if d < 0 then -d else d
    ensures d * k == 0
  {
    assert k >= 1 && d > 0 ==> d * k >= d;
    assert k <= -1 && d < 0 ==> d * k >= -d;
    assert k >= 1 && d < 0 ==> d * k < 0;
    assert k <= -1 && d > 0 ==> d * k < 0;
  }

  lemma MultipleIsDivisible(d: int, k: int)
    ensures Divides(d, d * k)
  {
    if d != 0 {
      var n := d * k;
      Distribute(d, k, n / d);
      SmallMultiple(d, k - n / d);
    }
  }

  lemma Quotient(d: int, n: int) returns (k: int)
    requires Divides(d, n)
    ensures n == d * k
  {
    k := if d == 0 then 0 else n / d;
  }

  lemma DividesCombination(d: int, a: int, b: int, x: int, y: int)
    requires Divides(d, a) && Divides(d, b)
    ensures Divides(d, a * x + b * y)
  {
    var j := Quotient(d, a);
    var k := Quotient(d, b);
    assert a * x + b * y == d * (j * x + k * y);
    MultipleIsDivisible(d, j * x + k * y);
  }

  lemma DividesTransitive(c: int, d: int, n: int)
    requires Divides(c, d) && Divides(d, n)
    ensures Divides(c, n)
  {
    var k := Quotient(d, n);
    DividesCombination(c, d, d, k, 0);
  }

  lemma DivisorIsSmaller(d: int, n: int)
    requires d >= 0 && n > 0 && Divides(d, n)
    ensures 0 < d <= n
  {
    var k := Quotient(d, n);
    assert k <= 0 ==> d * k <= 0;
    assert k >= 1 ==> d * k >= d;
  }

  // ---------- Congruence ----------

  predicate Congruent(a: int, b: int, m: int) {
    Divides(m, a - b)
  }

  lemma CongruentTransitive(a: int, b: int, c: int, m: int)
    requires Congruent(a, b, m) && Congruent(b, c, m)
    ensures Congruent(a, c, m)
  {
    DividesCombination(m, a - b, b - c, 1, 1);
  }

  lemma CongruentSymmetric(a: int, b: int, m: int)
    requires Congruent(a, b, m)
    ensures Congruent(b, a, m)
  {
    DividesCombination(m, a - b, a - b, -1, 0);
  }

  lemma CongruentProduct(a: int, b: int, c: int, d: int, m: int)
    requires Congruent(a, b, m) && Congruent(c, d, m)
    ensures Congruent(a * c, b * d, m)
  {
    assert a * c - b * d == (a - b) * c + (c - d) * b;
    DividesCombination(m, a - b, c - d, c, b);
  }

  lemma RemainderIsCongruent(a: int, m: int)
    requires m != 0
    ensures Congruent(a % m, a, m)
  {
    assert a % m - a == m * -(a / m);
    MultipleIsDivisible(m, -(a / m));
  }

  // ---------- Greatest common divisor ----------

  function Gcd(a: nat, b: nat): nat
    decreases b
  {
    if b == 0 then a else Gcd(b, a % b)
  }

  // The divisors of Gcd(a, b) are exactly the common divisors of a and b.
  lemma {:induction false} GcdIsGreatest(a: nat, b: nat, d: int)
    ensures Divides(d, Gcd(a, b)) <==> Divides(d, a) && Divides(d, b)
    decreases b
  {
    if b != 0 {
      GcdIsGreatest(b, a % b, d);
      RemainderDivisors(a, b, d);
    } else if d != 0 {
      MultipleIsDivisible(d, 0);
    }
  }

  lemma RemainderDivisors(a: int, b: int, d: int)
    requires b != 0
    ensures Divides(d, a) && Divides(d, b) <==> Divides(d, b) && Divides(d, a % b)
  {
    assert a % b == a * 1 + b * -(a / b);
    assert a == b * (a / b) + (a % b) * 1;
    if Divides(d, b) {
      if Divides(d, a) {
        DividesCombination(d, a, b, 1, -(a / b));
      }
      if Divides(d, a % b) {
        DividesCombination(d, b, a % b, a / b, 1);
      }
    }
  }

  // Bezout's identity, with the coefficients as witnesses.
  lemma {:induction false} Bezout(a: nat, b: nat) returns (x: int, y: int)
    ensures a * x + b * y == Gcd(a, b)
    decreases b
  {
    if b == 0 {
      x, y := 1, 0;
    } else {
      var u, v := Bezout(b, a % b);
      x, y := v, u - (a / b) * v;
      assert a % b == a - b * (a / b);
      assert b * u + (a - b * (a / b)) * v == a * v + b * (u - (a / b) * v);
    }
  }

  predicate Coprime(a: nat, b: nat) {
    Gcd(a, b) == 1
  }

  // Nonnegative numbers that divide each other are equal.
  lemma MutualDivisorsAreEqual(a: nat, b: nat)
    requires Divides(a, b) && Divides(b, a)
    ensures a == b
  {
    if a > 0 && b > 0 {
      DivisorIsSmaller(a, b);
      DivisorIsSmaller(b, a);
    }
  }

  // The gcd is the only nonnegative number whose divisors are the common divisors.
  lemma GcdIsUnique(a: nat, b: nat, g: nat)
    requires forall d: int :: Divides(d, g) <==> Divides(d, a) && Divides(d, b)
    ensures g == Gcd(a, b)
  {
    GcdIsGreatest(a, b, g);
    GcdIsGreatest(a, b, Gcd(a, b));
    DividesItself(g);
    DividesItself(Gcd(a, b));
    MutualDivisorsAreEqual(g, Gcd(a, b));
  }

  lemma GcdSymmetric(a: nat, b: nat)
    ensures Gcd(a, b) == Gcd(b, a)
  {
    forall d: int
      ensures Divides(d, Gcd(a, b)) <==> Divides(d, b) && Divides(d, a)
    {
      GcdIsGreatest(a, b, d);
    }
    GcdIsUnique(b, a, Gcd(a, b));
  }

  lemma DividesItself(n: int)
    ensures Divides(n, n)
  {
    MultipleIsDivisible(n, 1);
  }

  lemma CommonDivisorOfCoprimes(a: nat, b: nat, d: nat)
    requires Coprime(a, b) && Divides(d, a) && Divides(d, b)
    ensures d == 1
  {
    GcdIsGreatest(a, b, d);
    DivisorIsSmaller(d, 1);
  }

  // ---------- Primes ----------

  ghost predicate Prime(n: int) {
    n > 1 && forall d :: 1 < d < n ==> !Divides(d, n)
  }

  lemma PrimeDivisor(p: int, d: int)
    requires Prime(p) && d >= 0 && Divides(d, p)
    ensures d == 1 || d == p
  {
    DivisorIsSmaller(d, p);
  }

  // A prime is coprime to everything that it does not divide.
  lemma PrimeIsCoprime(p: nat, a: nat)
    requires Prime(p)
    ensures Coprime(p, a) <==> !Divides(p, a)
  {
    var g := Gcd(p, a);
    GcdIsGreatest(p, a, g);
    DividesItself(g);
    DividesItself(p);
    PrimeDivisor(p, g);
    GcdIsGreatest(p, a, p);
  }

  // Euclid's lemma, in the form that needs only coprimality.
  lemma CoprimeDivisor(c: nat, a: nat, b: int)
    requires Coprime(c, a) && Divides(c, a * b)
    ensures Divides(c, b)
  {
    var x, y := Bezout(c, a);
    assert b == (c * x + a * y) * b == c * (x * b) + (a * b) * y;
    MultipleIsDivisible(c, x * b);
    DividesCombination(c, c * (x * b), a * b, 1, y);
  }

  lemma EuclidsLemma(p: nat, a: nat, b: int)
    requires Prime(p) && Divides(p, a * b)
    ensures Divides(p, a) || Divides(p, b)
  {
    if !Divides(p, a) {
      PrimeIsCoprime(p, a);
      CoprimeDivisor(p, a, b);
    }
  }

  lemma DistinctPrimesDoNotDivide(p: nat, q: nat)
    requires Prime(p) && Prime(q) && p != q
    ensures !Divides(q, p)
  {
    if Divides(q, p) {
      PrimeDivisor(p, q);
    }
  }

  lemma BothPrimesDivide(p: nat, q: nat, n: int)
    requires Prime(p) && Prime(q) && p != q && Divides(p, n) && Divides(q, n)
    ensures Divides(p * q, n)
  {
    var k := Quotient(p, n);
    DistinctPrimesDoNotDivide(p, q);
    EuclidsLemma(q, p, k);
    var j := Quotient(q, k);
    assert n == p * (q * j) == (p * q) * j;
    MultipleIsDivisible(p * q, j);
  }

  // The Chinese remainder argument: two distinct primes divide a number exactly when
  // their product does.
  lemma DistinctPrimesDivide(p: nat, q: nat, n: int)
    requires Prime(p) && Prime(q) && p != q
    ensures Divides(p * q, n) <==> Divides(p, n) && Divides(q, n)
  {
    if Divides(p * q, n) {
      MultipleIsDivisible(p, q);
      MultipleIsDivisible(q, p);
      DividesTransitive(p, p * q, n);
      DividesTransitive(q, p * q, n);
    } else if Divides(p, n) && Divides(q, n) {
      BothPrimesDivide(p, q, n);
    }
  }

  // ---------- Powers ----------

  function Pow(b: int, e: nat): int
    decreases e
  {
    if e == 0 then 1 else b * Pow(b, e - 1)
  }

  lemma {:induction false} PowAdd(b: int, d: nat, e: nat)
    ensures Pow(b, d + e) == Pow(b, d) * Pow(b, e)
    decreases d
  {
    if d > 0 {
      PowAdd(b, d - 1, e);
      assert Pow(b, d + e) == b * Pow(b, d - 1 + e) == b * (Pow(b, d - 1) * Pow(b, e));
      assert b * (Pow(b, d - 1) * Pow(b, e)) == (b * Pow(b, d - 1)) * Pow(b, e);
    }
  }

  lemma {:induction false} PowMul(b: int, d: nat, e: nat)
    ensures Pow(Pow(b, d), e) == Pow(b, d * e)
    decreases e
  {
    if e > 0 {
      PowMul(b, d, e - 1);
      PowAdd(b, d, d * (e - 1));
      assert d + d * (e - 1) == d * e;
    }
  }

  lemma {:induction false} PowNegative(b: int, e: nat)
    ensures Pow(-b, e) == if e % 2 == 0 then Pow(b, e) else -Pow(b, e)
    decreases e
  {
    if e > 0 {
      PowNegative(b, e - 1);
      assert Pow(-b, e) == -b * Pow(-b, e - 1);
      assert -b * Pow(b, e - 1) == -(b * Pow(b, e - 1));
      assert -b * -Pow(b, e - 1) == b * Pow(b, e - 1);
    }
  }

  lemma {:induction false} PowNonNegative(b: nat, e: nat)
    ensures Pow(b, e) >= 0
  {
    if e > 0 {
      PowNonNegative(b, e - 1);
    }
  }

  lemma {:induction false} PowCongruent(a: int, b: int, e: nat, m: int)
    requires Congruent(a, b, m)
    ensures Congruent(Pow(a, e), Pow(b, e), m)
    decreases e
  {
    if e == 0 {
      MultipleIsDivisible(m, 0);
    } else {
      PowCongruent(a, b, e - 1, m);
      CongruentProduct(a, b, Pow(a, e - 1), Pow(b, e - 1), m);
    }
  }

  // ---------- Binomial coefficients and Fermat's little theorem ----------

  function Binomial(n: nat, k: nat): nat {
    if k == 0 then 1
    else if n == 0 then 0
    else Binomial(n - 1, k - 1) + Binomial(n - 1, k)
  }

  lemma {:induction false} BinomialAboveRow(n: nat, k: nat)
    requires k > n
    ensures Binomial(n, k) == 0
  {
    if n > 0 {
      BinomialAboveRow(n - 1, k - 1);
      BinomialAboveRow(n - 1, k);
    }
  }

  lemma {:induction false} BinomialDiagonal(n: nat)
    ensures Binomial(n, n) == 1
  {
    if n > 0 {
      BinomialDiagonal(n - 1);
      BinomialAboveRow(n - 1, n);
    }
  }

  lemma AbsorptionArithmetic(n: int, k: int, c: int, u: int, v: int, w: int)
    requires k * w == (n - 1) * v && (k - 1) * c == (n - 1) * u && c == u + v
    ensures k * (c + w) == n * c
  {
    Distribute(k, c, w);
    Distribute(n - 1, u, v);
    Distribute(c, k, 1);
    Distribute(c, n, 1);
  }

  // k * C(n, k) == n * C(n - 1, k - 1)
  lemma {:induction false} BinomialAbsorption(n: nat, k: nat)
    requires n > 0 && k > 0
    ensures k * Binomial(n, k) == n * Binomial(n - 1, k - 1)
  {
    if n == 1 {
      if k > 1 {
        BinomialAboveRow(0, k - 1);
        BinomialAboveRow(1, k);
      }
    } else {
      BinomialAbsorption(n - 1, k);
      var u := 0;
      if k > 1 {
        BinomialAbsorption(n - 1, k - 1);
        u := Binomial(n - 2, k - 2);
      }
      AbsorptionArithmetic(n, k, Binomial(n - 1, k - 1), u, Binomial(n - 2, k - 1), Binomial(n - 1, k));
    }
  }

  lemma PrimeDividesBinomial(p: nat, k: nat)
    requires Prime(p) && 0 < k < p
    ensures Divides(p, Binomial(p, k))
  {
    BinomialAbsorption(p, k);
    MultipleIsDivisible(p, Binomial(p - 1, k - 1));
    EuclidsLemma(p, k, Binomial(p, k));
    if Divides(p, k) {
      DivisorIsSmaller(p, k);
    }
  }

  // The sum of C(n, k) * a^k over k <= m.
  function BinomialSum(n: nat, m: nat, a: int): int
    decreases m
  {
    Binomial(n, m) * Pow(a, m) + if m == 0 then 0 else BinomialSum(n, m - 1, a)
  }

  lemma BinomialSumArithmetic(x: int, y: int, a: int, w: int, t: int)
    ensures (x + y) * (a * w) + a * t == y * (a * w) + a * (x * w + t)
  {
    Distribute(a * w, x, y);
    Distribute(a, x * w, t);
    assert x * (a * w) == a * (x * w);
  }

  lemma {:induction false} BinomialSumStep(n: nat, m: nat, a: int)
    requires m > 0
    ensures BinomialSum(n + 1, m, a) == BinomialSum(n, m, a) + a * BinomialSum(n, m - 1, a)
    decreases m
  {
    var t := 0;
    if m > 1 {
      BinomialSumStep(n, m - 1, a);
      t := BinomialSum(n, m - 2, a);
    }
    BinomialSumArithmetic(Binomial(n, m - 1), Binomial(n, m), a, Pow(a, m - 1), t);
  }

  // (1 + a)^n is the sum of C(n, k) * a^k over k <= n.
  lemma {:induction false} BinomialTheorem(n: nat, a: int)
    ensures Pow(1 + a, n) == BinomialSum(n, n, a)
  {
    if n > 0 {
      var t := BinomialSum(n - 1, n - 1, a);
      BinomialTheorem(n - 1, a);
      BinomialSumStep(n - 1, n, a);
      BinomialAboveRow(n - 1, n);
      assert BinomialSum(n - 1, n, a) == t;
      assert Pow(1 + a, n) == t + a * t by {
        Distribute(t, 1, a);
      }
    }
  }

  // Below the last term, a prime row of the binomial sum is congruent to its first term.
  lemma {:induction false} PrimeRowSum(p: nat, m: nat, a: int)
    requires Prime(p) && m < p
    ensures Congruent(BinomialSum(p, m, a), 1, p)
    decreases m
  {
    if m == 0 {
      assert BinomialSum(p, 0, a) == 1;
      MultipleIsDivisible(p, 0);
    } else {
      PrimeRowSum(p, m - 1, a);
      PrimeDividesBinomial(p, m);
      DividesCombination(p, Binomial(p, m), BinomialSum(p, m - 1, a) - 1, Pow(a, m), 1);
    }
  }

  // Fermat's little theorem, for every nonnegative a.
  lemma {:induction false} Fermat(p: nat, a: nat)
    requires Prime(p)
    ensures Congruent(Pow(a, p), a, p)
    decreases a
  {
    if a == 0 {
      assert Pow(0, p) == 0;
      MultipleIsDivisible(p, 0);
    } else {
      Fermat(p, a - 1);
      BinomialTheorem(p, a - 1);
      BinomialDiagonal(p);
      PrimeRowSum(p, p - 1, a - 1);
      DividesCombination(p, BinomialSum(p, p - 1, a - 1) - 1, Pow(a - 1, p) - (a - 1), 1, 1);
    }
  }

  // With an exponent that is 1 modulo p - 1, a power is congruent to its base.
  lemma {:induction false} FermatExponent(p: nat, a: nat, k: nat)
    requires Prime(p)
    ensures Congruent(Pow(a, 1 + k * (p - 1)), a, p)
    decreases k
  {
    if k == 0 {
      assert Pow(a, 1) == a * Pow(a, 0);
      MultipleIsDivisible(p, 0);
    } else {
      FermatExponent(p, a, k - 1);
      Distribute(p - 1, k, 1);
      FermatStep(p, a, (k - 1) * (p - 1));
    }
  }

  lemma FermatStep(p: nat, a: nat, e: nat)
    requires Prime(p) && Congruent(Pow(a, 1 + e), a, p)
    ensures Congruent(Pow(a, e + p), a, p)
  {
    Fermat(p, a);
    PowAdd(a, e, p);
    MultipleIsDivisible(p, 0);
    CongruentProduct(Pow(a, e), Pow(a, e), Pow(a, p), a, p);
    CongruentTransitive(Pow(a, e + p), Pow(a, 1 + e), a, p);
  }
}

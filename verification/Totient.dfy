/**
 Euler's totient as a count: the program's p - 1 and (p - 1)(q - 1) are the numbers of integers in
 range that are coprime to p and to p * q.
 */
module Totient {
  import opened NumberTheory
  import opened Rsa

  // The integers of [1, bound] that are coprime to n.
  function CoprimesUpTo(bound: nat, n: nat): set<nat> {
    set x: nat | 1 <= x <= bound && Coprime(x, n)
  }

  lemma QuotientStep(x: nat, d: nat)
    requires d > 0
    ensures (x + 1) / d == x / d + (if Divides(d, x + 1) then 1 else 0)
  {
    var r := x % d;
    if r + 1 == d {
      MultipleIsDivisible(d, x / d + 1);
      Distribute(d, x / d, 1);
      QuotientIsUnique(x + 1, d, x / d + 1, 0);
    } else {
      QuotientIsUnique(x + 1, d, x / d, r + 1);
    }
  }

  lemma QuotientIsUnique(x: nat, d: nat, k: int, r: nat)
    requires d > 0 && r < d && x == d * k + r
    ensures x / d == k && x % d == r
  {
    var j := x / d - k;
    Distribute(d, x / d, k);
    assert d * j == r - x % d;
    assert j >= 1 ==> d * j >= d;
    assert j <= -1 ==> d * j + d <= 0;
  }

  // Below or at any bound, the numbers coprime to a prime are those it does not divide.
  lemma {:induction false} CountCoprimesToPrime(bound: nat, p: nat)
    requires Prime(p)
    ensures |CoprimesUpTo(bound, p)| == bound - bound / p
    decreases bound
  {
    if bound == 0 {
      assert CoprimesUpTo(0, p) == {};
      QuotientIsUnique(0, p, 0, 0);
    } else {
      CountCoprimesToPrime(bound - 1, p);
      CountStep(bound, p);
      QuotientStep(bound - 1, p);
      GcdSymmetric(bound, p);
      PrimeIsCoprime(p, bound);
    }
  }

  lemma CountStep(bound: nat, n: nat)
    requires bound > 0
    ensures |CoprimesUpTo(bound, n)| == |CoprimesUpTo(bound - 1, n)| + (if Coprime(bound, n) then 1 else 0)
  {
    var before := CoprimesUpTo(bound - 1, n);
    if Coprime(bound, n) {
      assert CoprimesUpTo(bound, n) == before + {bound};
    } else {
      assert CoprimesUpTo(bound, n) == before;
    }
  }

  lemma CoprimeToProduct(p: nat, q: nat, x: nat)
    requires Prime(p) && Prime(q) && x > 0
    ensures Coprime(x, p * q) <==> !Divides(p, x) && !Divides(q, x)
  {
    var g := Gcd(x, p * q);
    MultipleIsDivisible(p, q);
    MultipleIsDivisible(q, p);
    if Coprime(x, p * q) {
      if Divides(p, x) {
        CommonDivisorOfCoprimes(x, p * q, p);
      }
      if Divides(q, x) {
        CommonDivisorOfCoprimes(x, p * q, q);
      }
    } else if !Divides(p, x) && !Divides(q, x) {
      CoprimeToBothFactors(p, q, x);
    }
  }

  lemma CoprimeToBothFactors(p: nat, q: nat, x: nat)
    requires Prime(p) && Prime(q) && !Divides(p, x) && !Divides(q, x)
    ensures Coprime(x, p * q)
  {
    var g := Gcd(x, p * q);
    DividesItself(g);
    GcdIsGreatest(x, p * q, g);
    CoprimeWithDivisor(p, x, g);
    CoprimeDivisor(g, p, q);
    CoprimeWithDivisor(q, x, g);
    DividesItself(g);
    CommonDivisorOfCoprimes(g, q, g);
  }

  // A divisor of x is coprime to every prime that does not divide x.
  lemma CoprimeWithDivisor(p: nat, x: nat, g: nat)
    requires Prime(p) && !Divides(p, x) && Divides(g, x)
    ensures Coprime(g, p)
  {
    if Divides(p, g) {
      DividesTransitive(p, g, x);
    }
    PrimeIsCoprime(p, g);
    GcdSymmetric(g, p);
  }

  // Inclusion and exclusion at any bound.
  lemma {:induction false} CountCoprimesToProduct(bound: nat, p: nat, q: nat)
    requires Prime(p) && Prime(q) && p != q
    ensures p * q > 0
    ensures |CoprimesUpTo(bound, p * q)| == bound - bound / p - bound / q + bound / (p * q)
    decreases bound
  {
    MultiplesGrow(p, q);
    if bound == 0 {
      assert CoprimesUpTo(0, p * q) == {};
      QuotientIsUnique(0, p, 0, 0);
      QuotientIsUnique(0, q, 0, 0);
      QuotientIsUnique(0, p * q, 0, 0);
    } else {
      CountCoprimesToProduct(bound - 1, p, q);
      CountStep(bound, p * q);
      QuotientStep(bound - 1, p);
      QuotientStep(bound - 1, q);
      QuotientStep(bound - 1, p * q);
      CoprimeToProduct(p, q, bound);
      DistinctPrimesDivide(p, q, bound);
    }
  }

  // The doc comment of calculate_euler_totient: it counts the numbers in {1, ..., n - 1} coprime to
  // the prime n, and all of them are.
  lemma TotientOfPrime(p: nat)
    requires Prime(p)
    ensures EulerTotient(p) == |CoprimesUpTo(p - 1, p)|
    ensures forall x: nat :: 1 <= x < p ==> Coprime(x, p)
  {
    CountCoprimesToPrime(p - 1, p);
    QuotientIsUnique(p - 1, p, 0, p - 1);
    forall x: nat | 1 <= x < p
      ensures Coprime(x, p)
    {
      if Divides(p, x) {
        DivisorIsSmaller(p, x);
      }
      PrimeIsCoprime(p, x);
      GcdSymmetric(x, p);
    }
  }

  // The program's phi is Euler's totient of n.
  lemma TotientOfProduct(p: nat, q: nat)
    requires Prime(p) && Prime(q) && p != q
    ensures EulerTotient(p) * EulerTotient(q) == |CoprimesUpTo(p * q, p * q)|
  {
    CountCoprimesToProduct(p * q, p, q);
    QuotientIsUnique(p * q, p, q, 0);
    QuotientIsUnique(p * q, q, p, 0);
    QuotientIsUnique(p * q, p * q, 1, 0);
    Distribute(p - 1, q, 1);
  }
}

/**
 Textbook RSA over C's `long long`: the prime test, Euclid's algorithm, the modular inverse,
 square-and-multiply exponentiation, and the program that composes them.

 Arithmetic is over unbounded integers. Each looping method also reports, as a ghost result, the
 largest magnitude it ever computes, so that its contract can say when nothing overflows 64 bits.
 */
module Rsa {
  import opened NumberTheory
  import opened Wrappers

  const LL_MAX: int := 0x7FFF_FFFF_FFFF_FFFF

  // The largest number whose square is a `long long`.
  const LL_ROOT: int := 3037000499
  const LL_ROOT_SQUARE: int := 9223372030926249001

  function Abs(a: int): nat {
    if a < 0 then -a else a
  }

  function Max(a: int, b: int): int {
    if a < b then b else a
  }

  // ---------- C's truncating remainder ----------

  // The remainder takes the sign of the dividend.
  function CRem(a: int, m: int): int
    requires m != 0
  {
    if a >= 0 then a % m else -((-a) % m)
  }

  predicate SameSide(a: int, b: int) {
    (a >= 0 && b >= 0) || (a <= 0 && b <= 0)
  }

  lemma CRemFacts(a: int, m: int)
    requires m != 0
    ensures Abs(CRem(a, m)) < Abs(m) && SameSide(a, CRem(a, m))
    ensures Congruent(CRem(a, m), a, m)
    ensures Abs(a) < Abs(m) ==> CRem(a, m) == a
  {
    if a >= 0 {
      RemainderIsCongruent(a, m);
    } else {
      RemainderIsCongruent(-a, m);
      DividesCombination(m, (-a) % m - (-a), m, -1, 0);
    }
    if Abs(a) < Abs(m) {
      RemainderOfSmall(Abs(a), m);
    }
  }

  lemma RemainderOfSmall(a: nat, m: int)
    requires a < Abs(m)
    ensures a % m == a
  {
    RemainderIsCongruent(a, m);
    SmallDifference(a % m - a, m);
  }

  // Congruent numbers on the same side of zero have the same remainder.
  lemma CRemOfCongruent(a: int, b: int, m: int)
    requires m != 0 && Congruent(a, b, m) && SameSide(a, b)
    ensures CRem(a, m) == CRem(b, m)
  {
    var x, y := CRem(a, m), CRem(b, m);
    CRemFacts(a, m);
    CRemFacts(b, m);
    CongruentSymmetric(y, b, m);
    CongruentTransitive(x, a, b, m);
    CongruentTransitive(x, b, y, m);
    SmallDifference(x - y, m);
  }

  lemma SmallDifference(d: int, m: int)
    requires Divides(m, d) && Abs(d) < Abs(m)
    ensures d == 0
  {
    var k := Quotient(m, d);
    SmallMultiple(m, if d >= 0 then k else -k);
  }

  lemma ProductSides(a: int, b: int, c: int)
    requires SameSide(a, b)
    ensures SameSide(a * c, b * c)
  {
    assert a >= 0 && c >= 0 ==> a * c >= 0;
    assert a >= 0 && c <= 0 ==> a * c <= 0;
    assert a <= 0 && c >= 0 ==> a * c <= 0;
    assert a <= 0 && c <= 0 ==> a * c >= 0;
    assert b >= 0 && c >= 0 ==> b * c >= 0;
    assert b >= 0 && c <= 0 ==> b * c <= 0;
    assert b <= 0 && c >= 0 ==> b * c <= 0;
    assert b <= 0 && c <= 0 ==> b * c >= 0;
  }

  // Reducing one factor of a product first does not change the remainder.
  lemma CRemOfProduct(a: int, b: int, m: int)
    requires m != 0
    ensures CRem(CRem(a, m) * b, m) == CRem(a * b, m)
  {
    CRemFacts(a, m);
    MultipleIsDivisible(m, 0);
    CongruentProduct(CRem(a, m), a, b, b, m);
    ProductSides(CRem(a, m), a, b);
    CRemOfCongruent(CRem(a, m) * b, a * b, m);
  }

  lemma PowSides(a: int, b: int, e: nat)
    requires SameSide(a, b)
    ensures SameSide(Pow(a, e), Pow(b, e))
  {
    PowNonNegative(Abs(a), e);
    PowNonNegative(Abs(b), e);
    PowNegative(Abs(a), e);
    PowNegative(Abs(b), e);
    if (a > 0 && b <= 0) || (a <= 0 && b > 0) {
      PowOfZero(e);
    }
  }

  lemma PowOfZero(e: nat)
    ensures Pow(0, e) == if e == 0 then 1 else 0
  {
  }

  // Reducing the base first does not change the remainder of a power, nor of a multiple of it.
  lemma CRemOfPower(r: int, b: int, e: nat, m: int)
    requires m != 0
    ensures CRem(r * Pow(CRem(b, m), e), m) == CRem(r * Pow(b, e), m)
  {
    var c := CRem(b, m);
    CRemFacts(b, m);
    PowCongruent(c, b, e, m);
    MultipleIsDivisible(m, 0);
    CongruentProduct(r, r, Pow(c, e), Pow(b, e), m);
    PowSides(c, b, e);
    ProductSides(Pow(c, e), Pow(b, e), r);
    CRemOfCongruent(r * Pow(c, e), r * Pow(b, e), m);
  }

  // ---------- The prime test ----------

  lemma SmallerFactor(d: int, k: int, i: int)
    requires i > 0 && 1 < d < d * k < i * i
    ensures 1 < k && (d < i || k < i)
  {
    assert k <= 0 ==> d * k <= 0;
    if d >= i && k >= i {
      SquareMonotone(i, d, k);
    }
  }

  lemma SquareMonotone(i: int, d: int, k: int)
    requires 0 <= i <= d && i <= k
    ensures i * i <= d * k
  {
    assert i * i <= i * k <= d * k;
  }

  lemma NoSmallDivisorMeansPrime(n: int, i: int)
    requires n > 1 && i > 0 && i * i > n
    requires forall d :: 1 < d < i ==> !Divides(d, n)
    ensures Prime(n)
  {
    forall d | 1 < d < n
      ensures !Divides(d, n)
    {
      if Divides(d, n) {
        var k := Quotient(d, n);
        MultipleIsDivisible(k, d);
        SmallerFactor(d, k, i);
      }
    }
  }

  // Six consecutive candidates: only the first and the third can divide a number that is
  // a multiple of neither 2 nor 3.
  lemma NextSixCandidates(n: int, i: int, d: int)
    requires i % 6 == 5 && i <= d < i + 6
    requires !Divides(2, n) && !Divides(3, n) && !Divides(i, n) && !Divides(i + 2, n)
    ensures !Divides(d, n)
  {
    if Divides(d, n) {
      if d % 2 == 0 {
        DividesTransitive(2, d, n);
      } else {
        assert d == i + 4;
        DividesTransitive(3, d, n);
      }
    }
  }

  lemma CandidateIsSmall(n: int, i: int)
    requires i >= 5 && i * i <= n
    ensures i + 2 < n
  {
    SquareMonotone(5, 5, i);
    assert 5 * i <= i * i;
  }

  // The guard has let the candidate before i pass.
  ghost predicate Passed(n: int, i: int) {
    i == 5 || (i >= 11 && (i - 6) * (i - 6) <= n)
  }

  // How far the guard's square has grown when it first exceeds n.
  lemma FinalGuard(n: int, i: int)
    requires n <= LL_MAX && i >= 5 && i % 6 == 5 && i * i > n && Passed(n, i)
    ensures i * i > LL_MAX <==> n >= LL_ROOT_SQUARE
  {
    if n >= LL_ROOT_SQUARE {
      if i <= LL_ROOT {
        SquareMonotone(i, LL_ROOT, LL_ROOT);
      }
      SquareMonotone(LL_ROOT + 6, i, i);
    } else if i > 5 {
      if i - 6 >= LL_ROOT {
        SquareMonotone(LL_ROOT, i - 6, i - 6);
      }
      SquareMonotone(i, LL_ROOT, LL_ROOT);
    }
  }

  lemma HasProperDivisor(n: int, d: int)
    requires 1 < d < n && n % d == 0
    ensures !Prime(n)
  {
    assert Divides(d, n);
  }

  ghost predicate NoDivisorBelow(n: int, i: int) {
    forall d :: 1 < d < i ==> !Divides(d, n)
  }

  lemma SmallCases(n: int)
    requires n <= 3
    ensures Prime(n) <==> n > 1
  {
    assert !Divides(2, 3);
  }

  lemma FirstHit(n: int)
    requires n > 3 && (CRem(n, 2) == 0 || CRem(n, 3) == 0)
    ensures !Prime(n)
  {
    HasProperDivisor(n, if n % 2 == 0 then 2 else 3);
  }

  lemma NotEven(n: int)
    requires n % 2 != 0
    ensures !Divides(2, n) && !Divides(4, n)
  {
  }

  lemma FirstMiss(n: int)
    requires n > 3 && CRem(n, 2) != 0 && CRem(n, 3) != 0
    ensures NoDivisorBelow(n, 5)
  {
    NotEven(n);
    assert !Divides(3, n);
    forall d | 1 < d < 5
      ensures !Divides(d, n)
    {
      assert d == 2 || d == 3 || d == 4;
    }
  }

  lemma TrialHit(n: int, i: int)
    requires i >= 5 && i * i <= n && (CRem(n, i) == 0 || CRem(n, i + 2) == 0)
    ensures !Prime(n)
  {
    CandidateIsSmall(n, i);
    HasProperDivisor(n, if n % i == 0 then i else i + 2);
  }

  lemma TrialMiss(n: int, i: int)
    requires i >= 5 && i % 6 == 5 && i * i <= n && NoDivisorBelow(n, i) && CRem(n, i) != 0 && CRem(n, i + 2) != 0
    ensures NoDivisorBelow(n, i + 6) && Passed(n, i + 6) && i < n
  {
    CandidateIsSmall(n, i);
    assert !Divides(2, n) && !Divides(3, n);
    forall d | i <= d < i + 6
      ensures !Divides(d, n)
    {
      NextSixCandidates(n, i, d);
    }
  }

  // For n in the range of `long long`, a product leaves the range exactly when n is a prime of at
  // least LL_ROOT squared: the guard then squares the candidate after LL_ROOT.
  method IsPrime(n: int) returns (prime: bool, ghost peak: int)
    ensures prime <==> Prime(n)
    ensures n <= LL_MAX ==> (peak > LL_MAX <==> Prime(n) && n >= LL_ROOT_SQUARE)
  {
    peak := 0;
    if n <= 1 {
      SmallCases(n);
      return false, peak;
    }
    if n <= 3 {
      SmallCases(n);
      return true, peak;
    }
    if CRem(n, 2) == 0 || CRem(n, 3) == 0 {
      FirstHit(n);
      return false, peak;
    }
    FirstMiss(n);
    var i := 5;
    while i * i <= n
      invariant i >= 5 && i % 6 == 5
      invariant NoDivisorBelow(n, i) && Passed(n, i)
      decreases n - i
    {
      if CRem(n, i) == 0 || CRem(n, i + 2) == 0 {
        TrialHit(n, i);
        return false, i * i;
      }
      TrialMiss(n, i);
      i := i + 6;
    }
    NoSmallDivisorMeansPrime(n, i);
    if n <= LL_MAX {
      FinalGuard(n, i);
    }
    return true, i * i;
  }

  // ---------- The random prime ----------

  // The candidate that one call of the random number generator stands for.
  function Candidate(draw: nat, lower: int, upper: int): int
    requires lower <= upper
  {
    draw % (upper - lower + 1) + lower
  }

  // The generator's outputs are the list `draws`, of which the loop uses as many as it needs. None means
  // that the list ran out, where the program would go on drawing.
  method GenerateRandomPrime(draws: seq<nat>, lower: int, upper: int) returns (num: Option<int>, used: nat)
    requires lower <= upper
    ensures used <= |draws|
    ensures num.Some? ==> used > 0 && num.value == Candidate(draws[used - 1], lower, upper)
    ensures num.Some? ==> Prime(num.value) && lower <= num.value <= upper
    ensures num.Some? ==> Congruent(num.value - lower, draws[used - 1], upper - lower + 1)
    ensures forall i :: 0 <= i < used - 1 ==> !Prime(Candidate(draws[i], lower, upper))
    ensures num.None? ==> forall draw :: draw in draws ==> !Prime(Candidate(draw, lower, upper))
  {
    used := 0;
    while used < |draws|
      invariant used <= |draws|
      invariant forall i :: 0 <= i < used ==> !Prime(Candidate(draws[i], lower, upper))
    {
      var candidate := draws[used] % (upper - lower + 1) + lower;
      used := used + 1;
      var prime, _ := IsPrime(candidate);
      if prime {
        RemainderIsCongruent(draws[used - 1], upper - lower + 1);
        return Some(candidate), used;
      }
    }
    return None, used;
  }

  // ---------- The totient of a prime ----------

  function EulerTotient(n: int): int {
    n - 1
  }

  // ---------- The greatest common divisor ----------

  lemma DividesShifted(a: int, b: int, k: int, d: int)
    requires Divides(d, a) && Divides(d, b)
    ensures Divides(d, a + b * k)
  {
    DividesCombination(d, a, b, 1, k);
  }

  lemma CRemDivisors(a: int, b: int, d: int)
    requires b != 0 && Divides(d, b)
    ensures Divides(d, a) <==> Divides(d, CRem(a, b))
  {
    CRemFacts(a, b);
    var k := Quotient(b, CRem(a, b) - a);
    var c := a + b * k;
    assert c + b * -k == a;
    if Divides(d, a) {
      DividesShifted(a, b, k, d);
    }
    if Divides(d, c) {
      DividesShifted(c, b, -k, d);
    }
  }

  // For negative arguments the result is a gcd up to sign.
  method CalculateGcd(a0: int, b0: int) returns (g: int)
    ensures forall d: int :: Divides(d, g) <==> Divides(d, a0) && Divides(d, b0)
    ensures a0 >= 0 && b0 >= 0 ==> g == Gcd(a0, b0)
  {
    var a, b := a0, b0;
    while b != 0
      invariant forall d: int :: Divides(d, a) && Divides(d, b) <==> Divides(d, a0) && Divides(d, b0)
      invariant a0 >= 0 && b0 >= 0 ==> a >= 0 && b >= 0
      decreases Abs(b)
    {
      CRemFacts(a, b);
      forall d: int | Divides(d, b)
        ensures Divides(d, a) <==> Divides(d, CRem(a, b))
      {
        CRemDivisors(a, b, d);
      }
      var temp := b;
      b := CRem(a, b);
      a := temp;
    }
    forall d: int
      ensures Divides(d, 0)
    {
      MultipleIsDivisible(d, 0);
    }
    if a0 >= 0 && b0 >= 0 {
      GcdIsUnique(a0, b0, a);
    }
    return a;
  }

  // ---------- The modular inverse ----------

  ghost predicate IsInverse(d: int, e: int, phi: int) {
    Congruent(d * e, 1, phi)
  }

  // The extended Euclidean state: the coefficients are +-u and -+v, and u and v are the continued
  // fraction denominators, tied to the remainders by one exact equation.
  ghost predicate EuclidState(e: nat, phi: nat, coeffPhi: int, coeffE: int, current: nat, next: nat,
                              sign: int, u: nat, v: nat)
  {
    && (sign == 1 || sign == -1)
    && coeffE == sign * u
    && coeffPhi == -sign * v
    && u * current + v * next == phi
    && v <= phi
    && Congruent(coeffPhi * e, current, phi)
    && Congruent(coeffE * e, next, phi)
    && Gcd(current, next) == Gcd(phi, e)
  }

  lemma NegatedFactor(x: int, q: int)
    ensures x * -q == -(q * x) && x * 1 == x
  {
  }

  lemma CongruentDifference(a: int, b: int, c: int, d: int, q: int, m: int)
    requires Congruent(a, b, m) && Congruent(c, d, m)
    ensures Congruent(a - q * c, b - q * d, m)
  {
    Distribute(q, c, d);
    NegatedFactor(c - d, q);
    NegatedFactor(a - b, q);
    DividesCombination(m, a - b, c - d, 1, -q);
  }

  lemma EuclidStepCongruence(e: int, phi: int, coeffPhi: int, coeffE: int, current: int, next: int, q: int)
    requires Congruent(coeffPhi * e, current, phi) && Congruent(coeffE * e, next, phi)
    ensures Congruent((coeffPhi - q * coeffE) * e, current - q * next, phi)
  {
    CongruentDifference(coeffPhi * e, current, coeffE * e, next, q, phi);
    Distribute(e, coeffPhi, q * coeffE);
    assert q * (coeffE * e) == e * (q * coeffE);
  }

  lemma EuclidStepMagnitudes(phi: nat, current: nat, next: nat, u: nat, v: nat, q: nat)
    requires next > 0 && q * next <= current
    requires u * current + v * next == phi
    ensures (v + q * u) * next + u * (current - q * next) == phi
    ensures 0 <= q * u <= v + q * u <= phi
    ensures current > 0 ==> u <= phi
  {
    Distribute(u, current, q * next);
    Distribute(next, v, q * u);
    assert next * (q * u) == u * (q * next);
    MultiplesGrow(q * u, next);
    MultiplesGrow(v, next);
    MultiplesGrow(u, current);
    ProductIsNatural(q, u);
    ProductIsNatural(u, current - q * next);
    ProductIsNatural(v, next);
  }

  lemma ProductIsNatural(a: nat, b: nat)
    ensures a * b >= 0
  {
  }

  lemma MultiplesGrow(a: int, n: nat)
    ensures n > 0 && a >= 0 ==> a <= a * n
  {
  }

  lemma QuotientFacts(a: nat, b: nat)
    requires b > 0
    ensures a / b >= 0 && 0 <= a / b * b <= a && a - a / b * b == a % b
  {
    ProductIsNatural(a / b, b);
  }

  lemma EuclidStepSigns(sign: int, u: nat, v: nat, q: nat)
    ensures -sign * v - q * (sign * u) == -sign * (v + q * u)
  {
    Distribute(-sign, v, q * u);
    assert q * (sign * u) == sign * (q * u);
  }

  lemma EuclidStep(e: nat, phi: nat, coeffPhi: int, coeffE: int, current: nat, next: nat,
                   sign: int, u: nat, v: nat, q: nat)
    requires EuclidState(e, phi, coeffPhi, coeffE, current, next, sign, u, v)
    requires next > 0 && current > 0 && q * next <= current && current - q * next == current % next
    ensures 0 <= q * u <= v + q * u <= phi
    ensures EuclidState(e, phi, coeffE, coeffPhi - q * coeffE, next, current - q * next, -sign, v + q * u, u)
  {
    EuclidStepMagnitudes(phi, current, next, u, v, q);
    EuclidStepCongruence(e, phi, coeffPhi, coeffE, current, next, q);
    EuclidStepSigns(sign, u, v, q);
  }

  lemma InverseIsProper(d: int, e: int, phi: int)
    requires phi > 1 && IsInverse(d, e, phi)
    ensures d != 0 && d != phi && IsInverse(d + phi, e, phi)
  {
    if d == 0 || d == phi {
      MultipleIsDivisible(phi, d * e / phi);
      MultipleIsDivisible(phi, e);
      DividesCombination(phi, d * e, d * e - 1, 1, -1);
      DivisorIsSmaller(phi, 1);
    }
    MultipleIsDivisible(phi, e);
    DividesCombination(phi, d * e - 1, phi * e, 1, 1);
    assert (d + phi) * e == d * e + phi * e;
  }

  lemma InverseImpliesCoprime(e: nat, phi: nat, d: int)
    requires phi > 1 && IsInverse(d, e, phi)
    ensures Coprime(e, phi)
  {
    var g := Gcd(e, phi);
    DividesItself(g);
    GcdIsGreatest(e, phi, g);
    DividesTransitive(g, phi, d * e - 1);
    DividesCombination(g, e, d * e - 1, d, -1);
    DivisorIsSmaller(g, 1);
  }

  // C's quotient, which truncates toward zero.
  function CDiv(a: int, m: int): int
    requires m != 0
  {
    if a >= 0 then a / m else -((-a) / m)
  }

  lemma CDivFacts(a: int, m: int)
    requires m != 0
    ensures a - CDiv(a, m) * m == CRem(a, m) && Abs(CRem(a, m)) < Abs(m)
  {
    CRemFacts(a, m);
  }

  ghost predicate SameDivisors(a: int, b: int, c: int, d: int) {
    forall k: int :: Divides(k, a) && Divides(k, b) <==> Divides(k, c) && Divides(k, d)
  }

  lemma SameDivisorsStep(a: int, b: int, c: int, d: int)
    requires b != 0 && SameDivisors(a, b, c, d)
    ensures SameDivisors(b, CRem(a, b), c, d)
  {
    forall k: int
      ensures Divides(k, b) && Divides(k, CRem(a, b)) <==> Divides(k, c) && Divides(k, d)
    {
      if Divides(k, b) {
        CRemDivisors(a, b, k);
      }
    }
  }

  ghost predicate Ordinary(e: int, phi: int) {
    e >= 0 && phi > 1
  }

  // For an ordinary call, the state of the loop and a bound on everything computed so far.
  ghost predicate OrdinaryState(e: int, phi: int, coeffPhi: int, coeffE: int, current: int, next: int,
                                sign: int, u: nat, v: nat, peak: int)
    requires Ordinary(e, phi)
  {
    && 0 < current <= Max(e, phi) && 0 <= next && peak <= Max(e, phi)
    && EuclidState(e, phi, coeffPhi, coeffE, current, next, sign, u, v)
  }

  lemma OrdinaryStep(e: int, phi: int, coeffPhi: int, coeffE: int, current: int, next: int,
                     sign: int, u: nat, v: nat, peak: int, q: int)
    requires Ordinary(e, phi) && OrdinaryState(e, phi, coeffPhi, coeffE, current, next, sign, u, v, peak)
    requires next <= Max(e, phi) && next != 0 && q == CDiv(current, next)
    ensures q * u >= 0 && current - q * next <= Max(e, phi)
    ensures OrdinaryState(e, phi, coeffE, coeffPhi - q * coeffE, next, current - q * next, -sign, v + q * u, u,
                          Max(peak, Max(Max(q * u, q * next), Max(v + q * u, u))))
  {
    QuotientFacts(current, next);
    EuclidStep(e, phi, coeffPhi, coeffE, current, next, sign, u, v, q);
  }

  // For every pair of arguments, the result times e is congruent to the last remainder, which is a gcd up to
  // sign; a last remainder above 1 is reported as -1. For e of at least 0 and phi above 1 that is the inverse
  // of e modulo phi, or -1 when there is none, and no intermediate value exceeds both arguments.
  method CalculateModInverse(e: int, phi: int) returns (d: int, ghost last: int, ghost peak: int)
    ensures forall k: int :: Divides(k, last) <==> Divides(k, e) && Divides(k, phi)
    ensures if last > 1 then d == -1 else Congruent(d * e, last, phi)
    ensures Ordinary(e, phi) ==> (d == -1 <==> !Coprime(e, phi))
    ensures Ordinary(e, phi) && d != -1 ==> 0 < d < phi && IsInverse(d, e, phi)
    ensures Ordinary(e, phi) ==> peak <= Max(e, phi)
  {
    var coeffPhi, coeffE := 0, 1;
    var current, next := phi, e;
    ghost var sign, u: nat, v: nat := 1, 1, 0;
    peak := Max(e, phi);
    MultipleIsDivisible(phi, -1);
    MultipleIsDivisible(phi, 0);
    while next != 0
      invariant Congruent(coeffPhi * e, current, phi) && Congruent(coeffE * e, next, phi)
      invariant SameDivisors(current, next, phi, e)
      invariant Ordinary(e, phi) ==> next <= Max(e, phi)
      invariant Ordinary(e, phi) ==> OrdinaryState(e, phi, coeffPhi, coeffE, current, next, sign, u, v, peak)
      decreases Abs(next)
    {
      var quotient := CDiv(current, next);
      CDivFacts(current, next);
      EuclidStepCongruence(e, phi, coeffPhi, coeffE, current, next, quotient);
      SameDivisorsStep(current, next, phi, e);
      if Ordinary(e, phi) {
        OrdinaryStep(e, phi, coeffPhi, coeffE, current, next, sign, u, v, peak, quotient);
        peak := Max(peak, Max(Max(quotient * u, quotient * next), Max(v + quotient * u, u)));
        sign, u, v := -sign, v + quotient * u, u;
      }

      var temp := coeffE;
      coeffE := coeffPhi - quotient * coeffE;
      coeffPhi := temp;

      temp := next;
      next := current - quotient * next;
      current := temp;
    }
    last := current;
    LastRemainder(e, phi, current);
    if Ordinary(e, phi) {
      GcdSymmetric(phi, e);
      if current == 1 {
        InverseIsProper(coeffPhi, e, phi);
      }
    }
    if current > 1 {
      return -1, last, peak;
    }
    if coeffPhi < 0 {
      ShiftedByModulus(coeffPhi, e, last, phi);
      if Ordinary(e, phi) {
        InverseIsProper(coeffPhi + phi, e, phi);
      }
      coeffPhi := coeffPhi + phi;
    }
    return coeffPhi, last, peak;
  }

  lemma LastRemainder(e: int, phi: int, current: int)
    requires SameDivisors(current, 0, phi, e)
    ensures forall k: int :: Divides(k, current) <==> Divides(k, e) && Divides(k, phi)
  {
    forall k: int
      ensures Divides(k, 0)
    {
      MultipleIsDivisible(k, 0);
    }
  }

  lemma ShiftedByModulus(d: int, e: int, r: int, phi: int)
    requires Congruent(d * e, r, phi)
    ensures Congruent((d + phi) * e, r, phi)
  {
    MultipleIsDivisible(phi, e);
    DividesCombination(phi, d * e - r, phi * e, 1, 1);
    Distribute(e, d, phi);
  }

  // ---------- Modular exponentiation ----------

  lemma PowOfSquare(base: int, exp: nat)
    ensures Pow(base, exp) == (if exp % 2 == 1 then base else 1) * Pow(base * base, exp / 2)
  {
    assert Pow(base, 2) == base * Pow(base, 1) == base * base;
    PowMul(base, 2, exp / 2);
  }

  // The invariant of square-and-multiply, one iteration.
  lemma SquareAndMultiply(result: int, base: int, exp: int, m: int)
    requires m != 0 && exp > 0
    ensures var r := if exp % 2 == 1 then CRem(result * base, m) else result;
            CRem(r * Pow(CRem(base * base, m), exp / 2), m) == CRem(result * Pow(base, exp), m)
  {
    PowOfSquare(base, exp);
    var p := Pow(base * base, exp / 2);
    if exp % 2 == 1 {
      CRemOfPower(CRem(result * base, m), base * base, exp / 2, m);
      CRemOfProduct(result * base, p, m);
      Reassociate(result, base, p);
    } else {
      CRemOfPower(result, base * base, exp / 2, m);
    }
  }

  lemma Reassociate(a: int, b: int, c: int)
    ensures (a * b) * c == a * (b * c)
  {
  }

  lemma ProductBound(a: int, b: int, k: nat)
    requires Abs(a) <= k && Abs(b) <= k
    ensures Abs(a * b) <= k * k
  {
    SquareMonotone(0, Abs(a), Abs(b));
    BoundedProduct(Abs(a), Abs(b), k);
    assert a * b == Abs(a) * Abs(b) || a * b == -(Abs(a) * Abs(b));
  }

  lemma BoundedProduct(a: nat, b: nat, k: nat)
    requires a <= k && b <= k
    ensures a * b <= k * k
  {
    assert a * b <= k * b;
    assert k * b <= k * k;
  }

  // For any base and modulus; for a nonpositive exponent the loop does not run. Up to the modulus
  // LL_ROOT + 1 every product is a `long long`.
  method CalculateModPow(base0: int, exp0: int, mod: int) returns (result: int, ghost peak: int)
    requires mod != 0
    ensures exp0 > 0 ==> result == CRem(Pow(base0, exp0), mod)
    ensures exp0 <= 0 ==> result == 1
    ensures Abs(mod) <= LL_ROOT + 1 ==> peak <= LL_ROOT_SQUARE <= LL_MAX
  {
    var base, exp := base0, exp0;
    result, peak := 1, 0;
    ghost var k := Max(Abs(mod) - 1, 1);
    if exp0 > 0 {
      CRemOfPower(1, base0, exp0, mod);
    }
    CRemFacts(base, mod);
    base := CRem(base, mod);
    while exp > 0
      invariant exp0 <= 0 ==> exp == exp0 && result == 1
      invariant exp0 > 0 ==> exp >= 0 && CRem(result * Pow(base, exp), mod) == CRem(Pow(base0, exp0), mod)
      invariant exp0 > 0 && exp == 0 ==> Abs(result) < Abs(mod)
      invariant Abs(base) <= k && Abs(result) <= k
      invariant peak <= k * k
    {
      SquareAndMultiply(result, base, exp, mod);
      if exp % 2 == 1 {
        ProductBound(result, base, k);
        peak := Max(peak, Abs(result * base));
        CRemFacts(result * base, mod);
        result := CRem(result * base, mod);
      }
      ProductBound(base, base, k);
      peak := Max(peak, Abs(base * base));
      CRemFacts(base * base, mod);
      base := CRem(base * base, mod);
      exp := exp / 2;
    }
    CRemFacts(result, mod);
    if Abs(mod) <= LL_ROOT + 1 {
      SquareMonotone(k, LL_ROOT, LL_ROOT);
    }
  }
}

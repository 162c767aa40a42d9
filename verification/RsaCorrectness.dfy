/**
 What the RSA program promises as a whole: decryption undoes encryption for every message strictly
 between -n and n, encryption permutes the residues, and key generation never fails.
 */
module RsaCorrectness {
  import opened NumberTheory
  import opened Rsa
  import opened Wrappers

  // ---------- Encryption and decryption ----------

  ghost predicate KeyPair(p: int, q: int, e: int, d: int) {
    && Prime(p) && Prime(q) && p != q
    && e >= 0 && d >= 0
    && IsInverse(d, e, EulerTotient(p) * EulerTotient(q))
  }

  // calculate_mod_pow, as a function of a nonnegative exponent.
  function Cipher(m: int, exp: nat, n: int): int
    requires n != 0
  {
    CRem(Pow(m, exp), n)
  }

  lemma OddPrime(p: int)
    requires Prime(p) && p > 2
    ensures p % 2 == 1
  {
    assert !Divides(2, p);
  }

  lemma EvenFactor(a: int, b: int)
    requires a % 2 == 0 || b % 2 == 0
    ensures a * b % 2 == 0
  {
    if a % 2 == 0 {
      assert a * b == 2 * (a / 2 * b);
    } else {
      assert a * b == 2 * (a * (b / 2));
    }
  }

  // The totient of a product of two distinct primes is even and at least 2.
  lemma TotientIsEven(p: int, q: int)
    requires Prime(p) && Prime(q) && p != q
    ensures (p - 1) * (q - 1) >= 2 && (p - 1) * (q - 1) % 2 == 0
  {
    if p > 2 {
      OddPrime(p);
      MultiplesGrow(p - 1, q - 1);
    } else {
      OddPrime(q);
    }
    EvenFactor(p - 1, q - 1);
  }

  // The two exponents multiply to 1 plus a multiple of the totient, an odd number.
  lemma KeyExponents(p: int, q: int, e: int, d: int) returns (k: nat)
    requires KeyPair(p, q, e, d)
    ensures e * d == 1 + k * ((p - 1) * (q - 1)) && e * d % 2 == 1
  {
    var phi := (p - 1) * (q - 1);
    TotientIsEven(p, q);
    var j := Quotient(phi, d * e - 1);
    ProductIsNatural(d, e);
    assert j < 0 ==> phi * j <= -phi;
    k := j;
    EvenFactor(k, phi);
  }

  // One prime's share of the round trip.
  lemma PowerModPrime(p: nat, m: nat, k: nat, other: nat)
    requires Prime(p)
    ensures Congruent(Pow(m, 1 + k * ((p - 1) * other)), m, p)
  {
    ProductIsNatural(k, other);
    FermatExponent(p, m, k * other);
    assert k * other * (p - 1) == k * ((p - 1) * other);
  }

  lemma CongruentModProduct(p: nat, q: nat, m: nat, k: nat)
    requires Prime(p) && Prime(q) && p != q
    ensures var e := 1 + k * ((p - 1) * (q - 1)); e >= 0 && Congruent(Pow(m, e), m, p * q)
  {
    ProductIsNatural(p - 1, q - 1);
    ProductIsNatural(k, (p - 1) * (q - 1));
    PowerModPrime(p, m, k, q - 1);
    PowerModPrime(q, m, k, p - 1);
    assert (q - 1) * (p - 1) == (p - 1) * (q - 1);
    DistinctPrimesDivide(p, q, Pow(m, 1 + k * ((p - 1) * (q - 1))) - m);
  }

  // Applying one exponent after another is applying their product.
  lemma CipherComposes(m: int, e: nat, d: nat, n: int)
    requires n != 0
    ensures e * d >= 0 && Cipher(Cipher(m, e, n), d, n) == CRem(Pow(m, e * d), n)
  {
    ProductIsNatural(e, d);
    CRemOfPower(1, Pow(m, e), d, n);
    PowMul(m, e, d);
  }

  // For every key pair and every message strictly between -n and n, multiples of p or q included,
  // decryption returns the message.
  lemma DecryptEncrypt(p: int, q: int, e: int, d: int, m: int)
    requires KeyPair(p, q, e, d) && Abs(m) < p * q
    ensures Cipher(Cipher(m, e, p * q), d, p * q) == m
  {
    var n := p * q;
    var k := KeyExponents(p, q, e, d);
    CipherComposes(m, e, d, n);
    CongruentModProduct(p, q, Abs(m), k);
    var power := Pow(Abs(m), e * d);
    PowNonNegative(Abs(m), e * d);
    PowNegative(Abs(m), e * d);
    if m < 0 {
      DividesCombination(n, power - Abs(m), n, -1, 0);
    }
    CRemOfCongruent(Pow(m, e * d), m, n);
    CRemFacts(m, n);
  }

  // The other order: signing with d and checking with e.
  lemma EncryptDecrypt(p: int, q: int, e: int, d: int, c: int)
    requires KeyPair(p, q, e, d) && Abs(c) < p * q
    ensures Cipher(Cipher(c, d, p * q), e, p * q) == c
  {
    assert e * d == d * e;
    DecryptEncrypt(p, q, d, e, c);
  }

  lemma CipherRange(m: int, e: nat, n: int)
    requires n > 0
    ensures -n < Cipher(m, e, n) < n
    ensures m >= 0 ==> Cipher(m, e, n) >= 0
  {
    CRemFacts(Pow(m, e), n);
    if m >= 0 {
      PowNonNegative(m, e);
    }
  }

  predicate Residue(m: int, n: int) {
    0 <= m < n
  }

  // Encryption is a permutation of [0, n): it stays inside, no two messages collide, and every
  // residue is the ciphertext of some message.
  lemma EncryptionIsPermutation(p: int, q: int, e: int, d: int)
    requires KeyPair(p, q, e, d)
    ensures p * q > 0
    ensures forall m :: Residue(m, p * q) ==> Residue(Cipher(m, e, p * q), p * q)
    ensures forall a, b :: Residue(a, p * q) && Residue(b, p * q) && Cipher(a, e, p * q) == Cipher(b, e, p * q)
              ==> a == b
    ensures forall c :: Residue(c, p * q) ==> exists m :: Residue(m, p * q) && Cipher(m, e, p * q) == c
  {
    var n := p * q;
    MultiplesGrow(p, q);
    forall m | Residue(m, n)
      ensures Residue(Cipher(m, e, n), n) && Residue(Cipher(m, d, n), n)
      ensures Cipher(Cipher(m, e, n), d, n) == m == Cipher(Cipher(m, d, n), e, n)
    {
      CipherRange(m, e, n);
      CipherRange(m, d, n);
      DecryptEncrypt(p, q, e, d, m);
      EncryptDecrypt(p, q, e, d, m);
    }
    forall c | Residue(c, n)
      ensures exists m :: Residue(m, n) && Cipher(m, e, n) == c
    {
      assert Cipher(Cipher(c, d, n), e, n) == c;
    }
  }

  // ---------- Key generation ----------

  // A prime exponent that is at least as large as both primes is coprime to the totient.
  lemma LargeExponentIsCoprime(e: nat, p: nat, q: nat)
    requires Prime(e) && Prime(p) && Prime(q) && p <= e && q <= e
    ensures (p - 1) * (q - 1) > 0 && Coprime(e, (p - 1) * (q - 1))
  {
    MultiplesGrow(p - 1, q - 1);
    if Divides(e, (p - 1) * (q - 1)) {
      EuclidsLemma(e, p - 1, q - 1);
      DivisorIsSmaller(e, if Divides(e, p - 1) then p - 1 else q - 1);
    }
    PrimeIsCoprime(e, (p - 1) * (q - 1));
  }

  // The candidates i, i + 2, i + 6, i + 8, ... of the prime test, as a recursion that the verifier
  // can run on a constant.
  predicate NoCandidateDivides(n: int, i: int)
    decreases n - i
  {
    i < 5 || i * i > n || (n % i != 0 && n % (i + 2) != 0 && (n <= i || NoCandidateDivides(n, i + 6)))
  }

  lemma {:induction false} CandidatesDecidePrimality(n: int, i: int)
    requires n > 3 && i >= 5 && i % 6 == 5 && NoCandidateDivides(n, i)
    requires !Divides(2, n) && !Divides(3, n) && forall d :: 1 < d < i ==> !Divides(d, n)
    ensures Prime(n)
    decreases n - i
  {
    if i * i > n {
      NoSmallDivisorMeansPrime(n, i);
    } else {
      CandidateIsSmall(n, i);
      forall d | i <= d < i + 6
        ensures !Divides(d, n)
      {
        NextSixCandidates(n, i, d);
      }
      CandidatesDecidePrimality(n, i + 6);
    }
  }

  lemma NoCandidateDividesPublicExponent()
    ensures NoCandidateDivides(65537, 5)
  {
    assert NoCandidateDivides(65537, 197);
    assert NoCandidateDivides(65537, 137);
    assert NoCandidateDivides(65537, 77);
  }

  lemma PublicExponentIsPrime()
    ensures Prime(65537)
  {
    NoCandidateDividesPublicExponent();
    assert 65537 % 2 != 0 && 65537 % 3 != 0;
    CandidatesDecidePrimality(65537, 5);
  }

  // ---------- The program ----------

  datatype Outcome =
    | OutOfDraws
    | NotCoprime
    | NotInvertible
    | MessageTooLarge(p: int, q: int)
    | Finished(p: int, q: int, e: int, d: int, encrypted: int, decrypted: int)

  const LOWER: int := 100
  const UPPER: int := 500

  // The first prime other than `avoid` that the random numbers stand for.
  ghost function FirstPrime(draws: seq<nat>, avoid: int): (r: Option<int>)
    ensures r.Some? ==> Prime(r.value) && r.value != avoid && 100 <= r.value <= 500
  {
    if draws == [] then None
    else
      var c := Candidate(draws[0], LOWER, UPPER);
      if Prime(c) && c != avoid then Some(c) else FirstPrime(draws[1..], avoid)
  }

  // A draw that stands for a candidate: the candidate is in the range, and congruent to the draw after the lower end.
  ghost predicate StandsFor(draw: nat, c: int) {
    100 <= c <= 500 && Congruent(c - 100, draw, 401)
  }

  // The prime is the first of the candidates: every draw before it stands for no prime, or for the one to avoid.
  lemma {:induction false} FirstPrimeIsFirst(draws: seq<nat>, avoid: int) returns (k: nat)
    requires FirstPrime(draws, avoid).Some?
    ensures k < |draws| && StandsFor(draws[k], FirstPrime(draws, avoid).value)
    ensures forall i, c :: 0 <= i < k && StandsFor(draws[i], c) ==> !Prime(c) || c == avoid
  {
    CandidateStands(draws[0]);
    var c := Candidate(draws[0], LOWER, UPPER);
    if Prime(c) && c != avoid {
      k := 0;
    } else {
      var j := FirstPrimeIsFirst(draws[1..], avoid);
      k := j + 1;
      forall i, d | 0 <= i < k && StandsFor(draws[i], d)
        ensures !Prime(d) || d == avoid
      {
        if i == 0 {
          OneCandidate(draws[0], c, d);
        } else {
          assert draws[i] == draws[1..][i - 1];
        }
      }
    }
  }

  lemma CandidateStands(draw: nat)
    ensures StandsFor(draw, Candidate(draw, LOWER, UPPER))
  {
    RemainderIsCongruent(draw, 401);
  }

  lemma OneCandidate(draw: nat, c: int, d: int)
    requires StandsFor(draw, c) && StandsFor(draw, d)
    ensures c == d
  {
    CongruentSymmetric(d - 100, draw, 401);
    CongruentTransitive(c - 100, draw, d - 100, 401);
    SmallDifference(c - d, 401);
  }

  lemma {:induction false} SkipDraws(draws: seq<nat>, avoid: int, k: nat)
    requires k <= |draws|
    requires forall i :: 0 <= i < k ==>
               var c := Candidate(draws[i], LOWER, UPPER); !Prime(c) || c == avoid
    ensures FirstPrime(draws, avoid) == FirstPrime(draws[k..], avoid)
  {
    if k > 0 {
      SkipDraws(draws[1..], avoid, k - 1);
      assert draws[1..][k - 1..] == draws[k..];
    }
  }

  // What one call of the generator consumes from the random numbers.
  lemma NextPrimeDraw(draws: seq<nat>, avoid: int, num: Option<int>, used: nat)
    requires used <= |draws|
    requires num.Some? ==> used > 0 && num.value == Candidate(draws[used - 1], LOWER, UPPER) && Prime(num.value)
    requires forall i :: 0 <= i < used - 1 ==> !Prime(Candidate(draws[i], LOWER, UPPER))
    requires num.None? ==> forall draw :: draw in draws ==> !Prime(Candidate(draw, LOWER, UPPER))
    ensures FirstPrime(draws, avoid) ==
            if num.Some? && num.value == avoid then FirstPrime(draws[used..], avoid) else num
  {
    if num.None? {
      SkipDraws(draws, avoid, |draws|);
    } else if num.value == avoid {
      SkipDraws(draws, avoid, used);
    } else {
      SkipDraws(draws, avoid, used - 1);
    }
  }

  // The first two distinct primes that the random numbers stand for.
  method DrawPrimes(draws: seq<nat>) returns (primes: Option<(int, int)>)
    ensures var p := FirstPrime(draws, 0);
            if p.None? then primes.None?
            else
              var q := FirstPrime(draws, p.value);
              primes == if q.None? then None else Some((p.value, q.value))
  {
    var first, used := GenerateRandomPrime(draws, LOWER, UPPER);
    NextPrimeDraw(draws, 0, first, used);
    if first.None? {
      return None;
    }
    var p := first.value;
    var rest := draws[used..];
    var q := p;
    NextPrimeDraw(draws, p, first, used);
    while q == p
      invariant if q == p then FirstPrime(draws, p) == FirstPrime(rest, p) else FirstPrime(draws, p) == Some(q)
      decreases q == p, |rest|
    {
      var next;
      next, used := GenerateRandomPrime(rest, LOWER, UPPER);
      NextPrimeDraw(rest, p, next, used);
      if next.None? {
        return None;
      }
      q := next.value;
      rest := rest[used..];
    }
    return Some((p, q));
  }

  // The program runs on the outputs of the random number generator and the message typed in. Its
  // primes are the first two distinct primes drawn; it rejects exactly the messages of at least n; its
  // two retry branches are never taken; and the decrypted message is the one typed in if and only if
  // that was above -n.
  method RunProgram(draws: seq<nat>, message: int) returns (outcome: Outcome, ghost peak: int)
    ensures !outcome.NotCoprime? && !outcome.NotInvertible?
    ensures var p := FirstPrime(draws, 0);
            if p.None? then outcome == OutOfDraws
            else
              var q := FirstPrime(draws, p.value);
              if q.None? then outcome == OutOfDraws
              else if message >= p.value * q.value then outcome == MessageTooLarge(p.value, q.value)
              else outcome.Finished? && outcome.p == p.value && outcome.q == q.value
    ensures outcome.Finished? ==>
              var Finished(p, q, e, d, encrypted, decrypted) := outcome;
              && KeyPair(p, q, e, d) && e == 65537 && d < (p - 1) * (q - 1)
              && p * q != 0 && encrypted == Cipher(message, e, p * q)
              && (decrypted == message <==> -(p * q) < message)
    ensures peak <= LL_MAX
  {
    peak := 0;
    var primes := DrawPrimes(draws);
    if primes.None? {
      return OutOfDraws, peak;
    }
    var (p, q) := primes.value;
    var n := p * q;
    var phi := EulerTotient(p) * EulerTotient(q);
    var e := 65537;
    BoundedProduct(p, q, 500);
    BoundedProduct(p - 1, q - 1, 500);
    PublicExponentIsPrime();
    LargeExponentIsCoprime(e, p, q);
    TotientIsEven(p, q);

    var g := CalculateGcd(e, phi);
    if g != 1 {
      return NotCoprime, peak;
    }
    var d;
    ghost var last;
    d, last, peak := CalculateModInverse(e, phi);
    if d == -1 {
      return NotInvertible, peak;
    }
    if message >= n {
      return MessageTooLarge(p, q), peak;
    }
    ghost var peak1, peak2;
    MultiplesGrow(p, q);
    var encrypted, decrypted;
    encrypted, peak1 := CalculateModPow(message, e, n);
    decrypted, peak2 := CalculateModPow(encrypted, d, n);
    peak := Max(Max(peak, n), Max(peak1, peak2));
    CipherRange(encrypted, d, n);
    if -n < message {
      DecryptEncrypt(p, q, e, d, message);
    }
    return Finished(p, q, e, d, encrypted, decrypted), peak;
  }
}

/**
 Bytes as polynomials over GF(2) modulo x^8 + x^4 + x^3 + x + 1 (section 4.2 of FIPS 197).
 */
module Gf256 {
  import opened ShiftAndAdd

  type byte = bv8

  // ---------- Multiplication by x ----------

  // The step inside the decryptor's multiplication loop.
  function Xtime(x: byte): byte {
    if x & 0x80 != 0 then (x << 1) ^ 0x1b else x << 1
  }

  // The encryptor's xtime.
  function XtimeByTest(x: byte): byte {
    (x << 1) ^ (if x & 0x80 != 0 then 0x1b else 0x00)
  }

  // The decryptor's xtime.
  function XtimeByProduct(x: byte): byte {
    (x << 1) ^ ((x >> 7) * 0x1b)
  }

  lemma XtimesAgree(x: byte)
    ensures Xtime(x) == XtimeByTest(x) == XtimeByProduct(x)
  {
    if x & 0x80 != 0 {
      assert x >> 7 == 1;
    } else {
      assert x >> 7 == 0;
    }
  }

  lemma TopBit(a: byte, b: byte)
    ensures a & 0x80 == 0 || a & 0x80 == 0x80
    ensures (a ^ b) & 0x80 == (a & 0x80) ^ (b & 0x80)
    ensures (a ^ b) << 1 == (a << 1) ^ (b << 1)
  {
  }

  lemma XorLaws(a: byte, b: byte, c: byte, d: byte)
    ensures (a ^ b) ^ (c ^ d) == (a ^ c) ^ (b ^ d)
    ensures a ^ a == 0 && a ^ 0 == a == 0 ^ a
  {
  }

  lemma XtimeAdds(a: byte, b: byte)
    ensures Xtime(a ^ b) == Xtime(a) ^ Xtime(b)
  {
    TopBit(a, b);
    TopBit(b, a);
    if a & 0x80 != 0 {
      if b & 0x80 != 0 {
        XorLaws(a << 1, 0x1b, b << 1, 0x1b);
      } else {
        XorLaws(a << 1, 0x1b, b << 1, 0);
      }
    } else if b & 0x80 != 0 {
      XorLaws(a << 1, 0, b << 1, 0x1b);
    }
  }

  // ---------- The product that the decryptor's loop computes ----------

  const FIELD: Ops<byte> := Ops(0, (a: byte, b: byte) => a ^ b, (a: byte) => Xtime(a))

  // x^i, for i < 8.
  function Monomial(i: nat): byte {
    if i == 0 then 0x01 else if i == 1 then 0x02 else if i == 2 then 0x04 else if i == 3 then 0x08
    else if i == 4 then 0x10 else if i == 5 then 0x20 else if i == 6 then 0x40 else 0x80
  }

  // The coefficients of b, lowest first.
  function Bits(b: byte): (bits: seq<bool>)
    ensures |bits| == 8
  {
    seq(8, i requires 0 <= i < 8 => b & Monomial(i) != 0)
  }

  // The sum of x^i * a, reduced at every step, over the powers x^i in b.
  function Product(a: byte, b: byte): byte {
    Sum(FIELD, a, Bits(b), 8)
  }

  // The loop's b, before each iteration and after the last.
  ghost function Halves(b: byte): (h: seq<byte>)
    ensures |h| == 9
  {
    [b, b >> 1, b >> 2, b >> 3, b >> 4, b >> 5, b >> 6, b >> 7, 0]
  }

  lemma NextHalf(b: byte, i: nat)
    requires i < 8
    ensures Halves(b)[i + 1] == Halves(b)[i] >> 1
  {
  }

  lemma BitOfHalf(b: byte, i: nat)
    requires i < 8
    ensures (Halves(b)[i] & 1 != 0) == Bits(b)[i]
  {
  }

  lemma SumStep(a: byte, bits: seq<bool>, i: nat)
    requires i < |bits|
    ensures Sum(FIELD, a, bits, i + 1) ==
            if bits[i] then Sum(FIELD, a, bits, i) ^ Power(FIELD, a, i) else Sum(FIELD, a, bits, i)
    ensures Power(FIELD, a, i + 1) == Xtime(Power(FIELD, a, i))
  {
  }

  method Mul(a0: byte, b0: byte) returns (result: byte)
    ensures result == Product(a0, b0)
  {
    var a, b := a0, b0;
    result := 0;
    ghost var bits := Bits(b0);
    for i := 0 to 8
      invariant a == Power(FIELD, a0, i) && b == Halves(b0)[i] && result == Sum(FIELD, a0, bits, i)
    {
      NextHalf(b0, i);
      BitOfHalf(b0, i);
      SumStep(a0, bits, i);
      if b & 1 != 0 {
        result := result ^ a;
      }
      var hiBit := a & 0x80;
      a := a << 1;
      if hiBit != 0 {
        a := a ^ 0x1b;
      }
      b := b >> 1;
    }
  }

  // ---------- Field laws ----------

  lemma FieldLaws()
    ensures Laws(FIELD)
  {
    forall a: byte, b: byte, c: byte, d: byte
      ensures Interchange(FIELD, a, b, c, d)
    {
      FieldInterchange(a, b, c, d);
    }
    forall a: byte
      ensures SelfInverse(FIELD, a)
    {
      FieldSelfInverse(a);
    }
    forall a: byte, b: byte
      ensures DoubleAdds(FIELD, a, b)
    {
      FieldDoubleAdds(a, b);
    }
  }

  lemma FieldAdds(a: byte, b: byte)
    ensures FIELD.add(a, b) == a ^ b
  {
  }

  lemma FourBytes(a: byte, b: byte, c: byte, d: byte)
    ensures FIELD.add(FIELD.add(a, b), FIELD.add(c, d)) == (a ^ b) ^ (c ^ d)
  {
    FieldAdds(a, b);
    FieldAdds(c, d);
    FieldAdds(a ^ b, c ^ d);
  }

  lemma FieldInterchange(a: byte, b: byte, c: byte, d: byte)
    ensures Interchange(FIELD, a, b, c, d)
  {
    FourBytes(a, b, c, d);
    FourBytes(a, c, b, d);
  }

  lemma FieldSelfInverse(a: byte)
    ensures SelfInverse(FIELD, a)
  {
    XorLaws(a, 0, 0, 0);
  }

  lemma FieldDoubleAdds(a: byte, b: byte)
    ensures DoubleAdds(FIELD, a, b)
  {
    FieldAdds(a, b);
    FieldAdds(Xtime(a), Xtime(b));
    XtimeAdds(a, b);
  }

  lemma MaskedXor(b: byte, c: byte, m: byte)
    requires m == 0x01 || m == 0x02 || m == 0x04 || m == 0x08 || m == 0x10 || m == 0x20 || m == 0x40 || m == 0x80
    ensures ((b ^ c) & m != 0) == ((b & m != 0) != (c & m != 0))
  {
  }

  lemma BitsAdd(b: byte, c: byte, i: nat)
    requires i < 8
    ensures Bits(b ^ c)[i] == (Bits(b)[i] != Bits(c)[i])
  {
    MaskedXor(b, c, Monomial(i));
  }

  lemma ProductAddsLeft(a: byte, b: byte, c: byte)
    ensures Product(a ^ b, c) == Product(a, c) ^ Product(b, c)
  {
    FieldLaws();
    SumAddsLeft(FIELD, a, b, Bits(c), 8);
  }

  lemma ProductAddsRight(a: byte, b: byte, c: byte)
    ensures Product(a, b ^ c) == Product(a, b) ^ Product(a, c)
  {
    FieldLaws();
    forall i | 0 <= i < 8
      ensures Bits(b ^ c)[i] == (Bits(b)[i] != Bits(c)[i])
    {
      BitsAdd(b, c, i);
    }
    SumAddsRight(FIELD, a, Bits(b), Bits(c), Bits(b ^ c), 8);
  }

  lemma PowerOfOne(i: nat)
    requires i < 8
    ensures Power(FIELD, 1, i) == Monomial(i)
  {
    if i > 0 {
      PowerOfOne(i - 1);
    }
  }

  // The coefficients of b below x^i.
  function LowPart(b: byte, i: nat): byte {
    if i == 0 then 0 else if i == 1 then b & 0x01 else if i == 2 then b & 0x03 else if i == 3 then b & 0x07
    else if i == 4 then b & 0x0f else if i == 5 then b & 0x1f else if i == 6 then b & 0x3f
    else if i == 7 then b & 0x7f else b
  }

  lemma LowPartGrows(b: byte, i: nat)
    requires i < 8
    ensures b & Monomial(i) != 0 ==> LowPart(b, i + 1) == LowPart(b, i) ^ Monomial(i)
    ensures b & Monomial(i) == 0 ==> LowPart(b, i + 1) == LowPart(b, i)
  {
  }

  lemma SumOfOneStep(b: byte, i: nat)
    requires i < 8 && Sum(FIELD, 1, Bits(b), i) == LowPart(b, i)
    ensures Sum(FIELD, 1, Bits(b), i + 1) == LowPart(b, i + 1)
  {
    LowPartGrows(b, i);
    PowerOfOne(i);
    SumStep(1, Bits(b), i);
    assert Bits(b)[i] == (b & Monomial(i) != 0);
  }

  lemma {:induction false} SumOfOne(b: byte, i: nat)
    requires i <= 8
    ensures Sum(FIELD, 1, Bits(b), i) == LowPart(b, i)
    decreases i
  {
    if i > 0 {
      SumOfOne(b, i - 1);
      SumOfOneStep(b, i - 1);
    }
  }

  lemma ProductOfOne(b: byte)
    ensures Product(1, b) == b
  {
    SumOfOne(b, 8);
  }

  // ---------- The product, by definition ----------

  const POLYNOMIALS: Ops<bv16> := Ops(0, (a: bv16, b: bv16) => a ^ b, (a: bv16) => a << 1)

  // Schoolbook multiplication of two polynomials of degree below 8, without reduction.
  function CarrylessProduct(a: byte, b: byte): bv16 {
    Sum(POLYNOMIALS, a as bv16, Bits(b), 8)
  }

  function Plus(p: bv16, q: bv16): bv16 {
    POLYNOMIALS.add(p, q)
  }

  // The coefficients of x^8 + x^4 + x^3 + x + 1, lowest first.
  const MODULUS: seq<bool> := [true, true, false, true, true, false, false, false, true]

  function ModulusTimes(q: bv16): bv16 {
    Sum(POLYNOMIALS, q, MODULUS, 9)
  }

  function Recombined(q: bv16, r: byte): bv16 {
    Plus(ModulusTimes(q), r as bv16)
  }

  // Division by the modulus leaves the quotient q, small enough for its product with the modulus not to
  // be truncated, and the remainder r.
  predicate Divided(p: bv16, q: bv16, r: byte) {
    q < 0x80 && p == Recombined(q, r)
  }

  ghost predicate IsRemainder(p: bv16, r: byte) {
    exists q: bv16 :: Divided(p, q, r)
  }

  lemma PolynomialAdds(a: bv16, b: bv16)
    ensures POLYNOMIALS.add(a, b) == a ^ b
  {
  }

  lemma PolynomialDoubles(a: bv16)
    ensures POLYNOMIALS.double(a) == a << 1
  {
  }

  lemma FourPolynomials(a: bv16, b: bv16, c: bv16, d: bv16)
    ensures POLYNOMIALS.add(POLYNOMIALS.add(a, b), POLYNOMIALS.add(c, d)) == (a ^ b) ^ (c ^ d)
  {
    PolynomialAdds(a, b);
    PolynomialAdds(c, d);
    PolynomialAdds(a ^ b, c ^ d);
  }

  lemma PolynomialInterchange(a: bv16, b: bv16, c: bv16, d: bv16)
    ensures Interchange(POLYNOMIALS, a, b, c, d)
  {
    FourPolynomials(a, b, c, d);
    FourPolynomials(a, c, b, d);
  }

  lemma PolynomialSelfInverse(a: bv16)
    ensures SelfInverse(POLYNOMIALS, a)
  {
  }

  lemma DoubledSum(a: bv16, b: bv16)
    ensures POLYNOMIALS.double(POLYNOMIALS.add(a, b)) == (a << 1) ^ (b << 1)
  {
    PolynomialAdds(a, b);
  }

  lemma SumOfDoubles(a: bv16, b: bv16)
    ensures POLYNOMIALS.add(POLYNOMIALS.double(a), POLYNOMIALS.double(b)) == (a << 1) ^ (b << 1)
  {
    PolynomialDoubles(a);
    PolynomialDoubles(b);
    PolynomialAdds(a << 1, b << 1);
  }

  lemma PolynomialDoubleAdds(a: bv16, b: bv16)
    ensures DoubleAdds(POLYNOMIALS, a, b)
  {
    DoubledSum(a, b);
    SumOfDoubles(a, b);
  }

  lemma PolynomialLaws()
    ensures Laws(POLYNOMIALS)
  {
    forall a: bv16, b: bv16, c: bv16, d: bv16
      ensures Interchange(POLYNOMIALS, a, b, c, d)
    {
      PolynomialInterchange(a, b, c, d);
    }
    forall a: bv16
      ensures SelfInverse(POLYNOMIALS, a)
    {
      PolynomialSelfInverse(a);
    }
    forall a: bv16, b: bv16
      ensures DoubleAdds(POLYNOMIALS, a, b)
    {
      PolynomialDoubleAdds(a, b);
    }
  }

  lemma ModulusTimesSum(q: bv16, t: bv16)
    ensures ModulusTimes(Plus(q, t)) == Plus(ModulusTimes(q), ModulusTimes(t))
  {
    PolynomialLaws();
    SumAddsLeft(POLYNOMIALS, q, t, MODULUS, 9);
  }

  lemma ModulusTimesDouble(q: bv16)
    ensures ModulusTimes(POLYNOMIALS.double(q)) == POLYNOMIALS.double(ModulusTimes(q))
  {
    PolynomialLaws();
    SumOfDouble(POLYNOMIALS, q, MODULUS, 9);
  }

  lemma WideXor(r: byte, s: byte)
    ensures Plus(r as bv16, s as bv16) == (r ^ s) as bv16
  {
  }

  lemma RecombinedSum(q: bv16, r: byte, q': bv16, r': byte)
    ensures Plus(Recombined(q, r), Recombined(q', r')) == Recombined(Plus(q, q'), r ^ r')
  {
    ModulusTimesSum(q, q');
    WideXor(r, r');
    PolynomialInterchange(ModulusTimes(q), r as bv16, ModulusTimes(q'), r' as bv16);
  }

  // The bound on the quotient of x^i * a.
  function QuotientBound(i: nat): bv16 {
    if i == 0 then 0x01 else if i == 1 then 0x02 else if i == 2 then 0x04 else if i == 3 then 0x08
    else if i == 4 then 0x10 else if i == 5 then 0x20 else if i == 6 then 0x40 else 0x80
  }

  function DoubledQuotient(q: bv16, r: byte): bv16 {
    if r & 0x80 != 0 then Plus(q << 1, 1) else q << 1
  }

  lemma DoubledQuotientBound(q: bv16, r: byte, i: nat)
    requires i < 7 && q < QuotientBound(i)
    ensures DoubledQuotient(q, r) < QuotientBound(i + 1)
  {
    PolynomialAdds(q << 1, 1);
  }

  lemma WideDouble(r: byte)
    ensures r & 0x80 != 0 ==> (r as bv16) << 1 == Plus(0x11b, Xtime(r) as bv16)
    ensures r & 0x80 == 0 ==> (r as bv16) << 1 == Xtime(r) as bv16
  {
    PolynomialAdds(0x11b, Xtime(r) as bv16);
  }

  lemma ModulusTimesOne()
    ensures ModulusTimes(1) == 0x11b
  {
  }

  // Doubling keeps a division: a remainder of degree 8 gives one more to the quotient.
  lemma DoubleReduces(q: bv16, r: byte)
    ensures POLYNOMIALS.double(Recombined(q, r)) == Recombined(DoubledQuotient(q, r), Xtime(r))
  {
    var m, w, x := ModulusTimes(q), r as bv16, Xtime(r) as bv16;
    var m' := POLYNOMIALS.double(m);
    PolynomialDoubleAdds(m, w);
    ModulusTimesDouble(q);
    PolynomialDoubles(q);
    PolynomialDoubles(w);
    WideDouble(r);
    if r & 0x80 != 0 {
      ModulusTimesSum(q << 1, 1);
      ModulusTimesOne();
      PolynomialAssociates(m', 0x11b, x);
    }
  }

  lemma PolynomialAssociates(a: bv16, b: bv16, c: bv16)
    ensures Plus(a, Plus(b, c)) == Plus(Plus(a, b), c)
  {
    PolynomialInterchange(a, 0, b, c);
    PolynomialSelfInverse(a);
    PolynomialSelfInverse(c);
  }

  lemma ModulusTimesZero()
    ensures ModulusTimes(0) == 0
  {
    ModulusTimesSum(0, 0);
    PolynomialSelfInverse(0);
    PolynomialSelfInverse(ModulusTimes(0));
  }

  lemma RecombinedZero(r: byte)
    ensures Recombined(0, r) == r as bv16
  {
    ModulusTimesZero();
    PolynomialSelfInverse(r as bv16);
  }

  lemma SmallPlus(q: bv16, t: bv16)
    requires q < 0x80 && t < 0x80
    ensures Plus(q, t) < 0x80
  {
    PolynomialAdds(q, t);
  }

  predicate PowerDivided(a: byte, i: nat, q: bv16) {
    q < QuotientBound(i) && Power(POLYNOMIALS, a as bv16, i) == Recombined(q, Power(FIELD, a, i))
  }

  lemma PowerReducesStart(a: byte)
    ensures PowerDivided(a, 0, 0)
  {
    RecombinedZero(a);
  }

  lemma PowerReducesStep(a: byte, i: nat, q: bv16) returns (t: bv16)
    requires i < 7 && PowerDivided(a, i, q)
    ensures PowerDivided(a, i + 1, t)
  {
    t := DoubledQuotient(q, Power(FIELD, a, i));
    DoubledQuotientBound(q, Power(FIELD, a, i), i);
    DoubleReduces(q, Power(FIELD, a, i));
  }

  lemma {:induction false} PowerReduces(a: byte, i: nat) returns (q: bv16)
    requires i < 8
    ensures PowerDivided(a, i, q)
    decreases i
  {
    if i == 0 {
      PowerReducesStart(a);
      return 0;
    }
    var t := PowerReduces(a, i - 1);
    q := PowerReducesStep(a, i - 1, t);
  }

  lemma PowerIsDivided(a: byte, i: nat, q: bv16)
    requires i < 8 && PowerDivided(a, i, q)
    ensures Divided(Power(POLYNOMIALS, a as bv16, i), q, Power(FIELD, a, i))
  {
    QuotientBoundIsSmall(i, q);
  }

  lemma QuotientBoundIsSmall(i: nat, q: bv16)
    requires q < QuotientBound(i)
    ensures q < 0x80
  {
  }

  lemma SumReducesStep(a: byte, bits: seq<bool>, i: nat, q: bv16, t: bv16)
    requires i < 8 == |bits| && bits[i]
    requires Divided(Sum(POLYNOMIALS, a as bv16, bits, i), q, Sum(FIELD, a, bits, i))
    requires Divided(Power(POLYNOMIALS, a as bv16, i), t, Power(FIELD, a, i))
    ensures Divided(Sum(POLYNOMIALS, a as bv16, bits, i + 1), Plus(q, t), Sum(FIELD, a, bits, i + 1))
  {
    SmallPlus(q, t);
    RecombinedSum(q, Sum(FIELD, a, bits, i), t, Power(FIELD, a, i));
    SumStep(a, bits, i);
  }

  lemma {:induction false} SumReduces(a: byte, bits: seq<bool>, i: nat) returns (q: bv16)
    requires i <= 8 == |bits|
    ensures Divided(Sum(POLYNOMIALS, a as bv16, bits, i), q, Sum(FIELD, a, bits, i))
    decreases i
  {
    if i == 0 {
      q := 0;
      RecombinedZero(0);
    } else {
      q := SumReduces(a, bits, i - 1);
      if bits[i - 1] {
        var t := PowerReduces(a, i - 1);
        PowerIsDivided(a, i - 1, t);
        SumReducesStep(a, bits, i - 1, q, t);
        q := Plus(q, t);
      }
    }
  }

  // The loop computes the remainder of the carry-less product, that is, multiplication in GF(2^8).
  lemma ProductIsRemainder(a: byte, b: byte)
    ensures IsRemainder(CarrylessProduct(a, b), Product(a, b))
  {
    var q := SumReduces(a, Bits(b), 8);
  }

  lemma PolynomialPower(q: bv16, i: nat, p: bv16)
    requires Power(POLYNOMIALS, q, i) == p
    ensures Power(POLYNOMIALS, q, i + 1) == p << 1
  {
    PolynomialDoubles(p);
  }

  lemma PowersExplicitly(q: bv16)
    ensures Power(POLYNOMIALS, q, 1) == q << 1
    ensures Power(POLYNOMIALS, q, 3) == q << 3 && Power(POLYNOMIALS, q, 4) == q << 4
    ensures Power(POLYNOMIALS, q, 8) == q << 8
  {
    PolynomialPower(q, 0, q);
    PolynomialPower(q, 1, q << 1);
    PolynomialPower(q, 2, q << 2);
    PolynomialPower(q, 3, q << 3);
    PolynomialPower(q, 4, q << 4);
    PolynomialPower(q, 5, q << 5);
    PolynomialPower(q, 6, q << 6);
    PolynomialPower(q, 7, q << 7);
  }

  lemma FiveTerms<T>(o: Ops<T>, a: T)
    ensures Sum(o, a, MODULUS, 9)
         == o.add(o.add(o.add(o.add(o.add(o.zero, a), Power(o, a, 1)), Power(o, a, 3)), Power(o, a, 4)), Power(o, a, 8))
  {
    assert Sum(o, a, MODULUS, 2) == o.add(o.add(o.zero, a), Power(o, a, 1));
    assert Sum(o, a, MODULUS, 4) == o.add(Sum(o, a, MODULUS, 2), Power(o, a, 3));
    assert Sum(o, a, MODULUS, 7) == Sum(o, a, MODULUS, 5);
  }

  lemma ThreePolynomials(a: bv16, b: bv16, c: bv16)
    ensures Plus(Plus(a, b), c) == (a ^ b) ^ c
  {
    PolynomialAdds(a, b);
    PolynomialAdds(a ^ b, c);
  }

  lemma FivePolynomials(a: bv16, b: bv16, c: bv16, d: bv16, e: bv16)
    ensures Plus(Plus(Plus(Plus(Plus(0, a), b), c), d), e) == (((a ^ b) ^ c) ^ d) ^ e
  {
    PolynomialSelfInverse(a);
    ThreePolynomials(a, b, c);
    ThreePolynomials((a ^ b) ^ c, d, e);
  }

  lemma ModulusTimesExplicitly(q: bv16)
    ensures ModulusTimes(q) == (((q ^ (q << 1)) ^ (q << 3)) ^ (q << 4)) ^ (q << 8)
  {
    PowersExplicitly(q);
    FiveTerms(POLYNOMIALS, q);
    FivePolynomials(q, q << 1, q << 3, q << 4, q << 8);
  }

  lemma NoSmallMultiple(q: bv16, r: byte)
    requires q < 0x80 && ((((q ^ (q << 1)) ^ (q << 3)) ^ (q << 4)) ^ (q << 8)) ^ (r as bv16) == 0
    ensures r == 0
  {
  }

  // No multiple of the modulus has a degree below 8, except 0.
  lemma RecombinedToZero(q: bv16, r: byte)
    requires q < 0x80 && Recombined(q, r) == 0
    ensures r == 0
  {
    ModulusTimesExplicitly(q);
    PolynomialAdds(ModulusTimes(q), r as bv16);
    NoSmallMultiple(q, r);
  }

  lemma XorToZero(r: byte, s: byte)
    requires r ^ s == 0
    ensures r == s
  {
  }

  // A polynomial has at most one remainder.
  lemma RemainderIsUnique(p: bv16, r: byte, s: byte)
    requires IsRemainder(p, r) && IsRemainder(p, s)
    ensures r == s
  {
    var q: bv16 :| Divided(p, q, r);
    var t: bv16 :| Divided(p, t, s);
    RecombinedSum(q, r, t, s);
    PolynomialSelfInverse(p);
    SmallPlus(q, t);
    RecombinedToZero(Plus(q, t), r ^ s);
    XorToZero(r, s);
  }
}

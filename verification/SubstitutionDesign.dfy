/**
 How the substitution table is designed (section 5.1.1 of FIPS 197): the inverse in GF(2^8), then an affine
 transformation.
 */
module SubstitutionDesign {
  import opened ShiftAndAdd
  import opened Gf256
  import opened SubstitutionBoxes

  // The affine transformation, its linear part by rotations.
  function Affine(y: byte): byte {
    y ^ ((y << 1) | (y >> 7)) ^ ((y << 2) | (y >> 6)) ^ ((y << 3) | (y >> 5)) ^ ((y << 4) | (y >> 4)) ^ 0x63
  }

  function InvAffine(s: byte): byte {
    ((s << 1) | (s >> 7)) ^ ((s << 3) | (s >> 5)) ^ ((s << 6) | (s >> 2)) ^ 0x05
  }

  lemma AffineInverts(y: byte)
    ensures InvAffine(Affine(y)) == y && Affine(InvAffine(y)) == y
  {
  }

  // Four iterations of the multiplication loop, without its branches: the sum and the power they start from, and the
  // bits left.
  function FourTerms(sum: byte, a: byte, half: byte): byte {
    var a1 := XtimeByProduct(a);
    var a2 := XtimeByProduct(a1);
    var a3 := XtimeByProduct(a2);
    (((sum ^ (a * (half & 1))) ^ (a1 * ((half >> 1) & 1))) ^ (a2 * ((half >> 2) & 1))) ^ (a3 * ((half >> 3) & 1))
  }

  function FourDoublings(a: byte): byte {
    XtimeByProduct(XtimeByProduct(XtimeByProduct(XtimeByProduct(a))))
  }

  // The product without recursion and branches.
  function LongProduct(a: byte, b: byte): byte {
    FourTerms(FourTerms(0, a, b), FourDoublings(a), b >> 4)
  }

  lemma BitTimes(a: byte, h: byte)
    ensures a * (h & 1) == if h & 1 != 0 then a else 0
  {
    if h & 1 != 0 {
      assert h & 1 == 1;
    }
  }

  // The sum of the first i terms, and the power for the next one.
  ghost predicate Reached(a: byte, b: byte, i: nat, sum: byte, power: byte) {
    i <= 8 && sum == Sum(FIELD, a, Bits(b), i) && power == Power(FIELD, a, i)
  }

  lemma TermIsChosen(a: byte, b: byte, i: nat, power: byte, half: byte)
    requires i < 8 && power == Power(FIELD, a, i) && half == Halves(b)[i]
    ensures Chosen(FIELD, a, Bits(b), i) == power * (half & 1)
  {
    BitOfHalf(b, i);
    BitTimes(power, half);
  }

  lemma ThreeBytes(a: byte, b: byte, c: byte)
    ensures FIELD.add(FIELD.add(a, b), c) == (a ^ b) ^ c
  {
    FieldAdds(a, b);
    FieldAdds(a ^ b, c);
  }

  lemma FiveBytes(a: byte, b: byte, c: byte, d: byte, e: byte)
    ensures FIELD.add(FIELD.add(FIELD.add(FIELD.add(a, b), c), d), e) == (((a ^ b) ^ c) ^ d) ^ e
  {
    ThreeBytes(a, b, c);
    ThreeBytes((a ^ b) ^ c, d, e);
  }

  lemma FourTermsAre(sum: byte, a: byte, half: byte, c0: byte, c1: byte, c2: byte, c3: byte)
    requires c0 == a * (half & 1) && c1 == XtimeByProduct(a) * ((half >> 1) & 1)
    requires c2 == XtimeByProduct(XtimeByProduct(a)) * ((half >> 2) & 1)
    requires c3 == XtimeByProduct(XtimeByProduct(XtimeByProduct(a))) * ((half >> 3) & 1)
    ensures FourTerms(sum, a, half) == (((sum ^ c0) ^ c1) ^ c2) ^ c3
  {
  }

  lemma NextFourTerms(a: byte, b: byte, i: nat, sum: byte, power: byte, half: byte)
    requires i < 5 && Reached(a, b, i, sum, power)
    requires half == Halves(b)[i] && half >> 1 == Halves(b)[i + 1]
    requires half >> 2 == Halves(b)[i + 2] && half >> 3 == Halves(b)[i + 3]
    ensures FourTerms(sum, power, half) == Sum(FIELD, a, Bits(b), i + 4)
  {
    var a1 := XtimeByProduct(power);
    var a2 := XtimeByProduct(a1);
    var a3 := XtimeByProduct(a2);
    var bits := Bits(b);
    var c0, c1 := Chosen(FIELD, a, bits, i), Chosen(FIELD, a, bits, i + 1);
    var c2, c3 := Chosen(FIELD, a, bits, i + 2), Chosen(FIELD, a, bits, i + 3);
    FourPowers(a, i, power);
    TermIsChosen(a, b, i, power, half);
    TermIsChosen(a, b, i + 1, a1, half >> 1);
    TermIsChosen(a, b, i + 2, a2, half >> 2);
    TermIsChosen(a, b, i + 3, a3, half >> 3);
    FourTermsAre(sum, power, half, c0, c1, c2, c3);
    FieldLaws();
    FourMoreTerms(FIELD, a, bits, i);
    FiveBytes(sum, c0, c1, c2, c3);
  }

  lemma NextPower(a: byte, i: nat, power: byte)
    requires power == Power(FIELD, a, i)
    ensures XtimeByProduct(power) == Power(FIELD, a, i + 1)
  {
    XtimesAgree(power);
  }

  lemma FourPowers(a: byte, i: nat, power: byte)
    requires power == Power(FIELD, a, i)
    ensures XtimeByProduct(power) == Power(FIELD, a, i + 1)
    ensures XtimeByProduct(XtimeByProduct(power)) == Power(FIELD, a, i + 2)
    ensures XtimeByProduct(XtimeByProduct(XtimeByProduct(power))) == Power(FIELD, a, i + 3)
    ensures FourDoublings(power) == Power(FIELD, a, i + 4)
  {
    NextPower(a, i, power);
    NextPower(a, i + 1, Power(FIELD, a, i + 1));
    NextPower(a, i + 2, Power(FIELD, a, i + 2));
    NextPower(a, i + 3, Power(FIELD, a, i + 3));
  }

  lemma LongProductIs(a: byte, b: byte)
    ensures LongProduct(a, b) == Product(a, b)
  {
    FourPowers(a, 0, a);
    NextFourTerms(a, b, 0, 0, a, b);
    NextFourTerms(a, b, 4, FourTerms(0, a, b), FourDoublings(a), b >> 4);
  }

  lemma LowHalfInverse(x: byte)
    requires 0 < x < 0x80
    ensures LongProduct(x, InvAffine(Sbox(x))) == 1
  {
  }

  lemma HighHalfInverse(x: byte)
    requires x >= 0x80
    ensures LongProduct(x, InvAffine(Sbox(x))) == 1
  {
  }

  lemma LowHalfNoOther(x: byte, y: byte)
    requires 0 < x < 0x80 && LongProduct(x, y) == 1
    ensures Sbox(x) == Affine(y)
  {
  }

  lemma HighHalfNoOther(x: byte, y: byte)
    requires x >= 0x80 && LongProduct(x, y) == 1
    ensures Sbox(x) == Affine(y)
  {
  }

  lemma NonzeroDesign(x: byte, y: byte)
    requires x != 0
    ensures Sbox(x) == Affine(y) <==> LongProduct(x, y) == 1
  {
    if LongProduct(x, y) == 1 {
      if x < 0x80 {
        LowHalfNoOther(x, y);
      } else {
        HighHalfNoOther(x, y);
      }
    } else if Sbox(x) == Affine(y) {
      AffineInverts(y);
      if x < 0x80 {
        LowHalfInverse(x);
      } else {
        HighHalfInverse(x);
      }
    }
  }

  lemma ZeroDesign(y: byte)
    ensures Sbox(0) == Affine(y) <==> y == 0
  {
  }

  /**
   The table is the affine transformation of the multiplicative inverse in GF(2^8), where zero counts as its own
   inverse.
   */
  lemma SboxIsAffineOfInverse(x: byte, y: byte)
    ensures Sbox(x) == Affine(y) <==> if x == 0 then y == 0 else Product(x, y) == 1
  {
    if x != 0 {
      NonzeroDesign(x, y);
      LongProductIs(x, y);
    } else {
      ZeroDesign(y);
    }
  }
}

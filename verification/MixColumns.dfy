/**
 The rows of the MixColumns matrix and of its inverse, over any shift-and-add multiplication. That the two
 matrices are inverse to each other needs only the group laws, not the modulus.
 */
module CirculantInverse {
  import opened ShiftAndAdd

  function Four<T>(o: Ops<T>, a: T, b: T, c: T, d: T): T {
    o.add(o.add(a, b), o.add(c, d))
  }

  // ---------- Multiplication by a constant of degree at most 4 ----------

  function Times<T>(o: Ops<T>, bits: seq<bool>, a: T): T
    requires |bits| == 5
  {
    Sum(o, a, bits, 5)
  }

  const ZERO := [false, false, false, false, false]
  const ONE := [true, false, false, false, false]
  const TWO := [false, true, false, false, false]
  const THREE := [true, true, false, false, false]
  const NINE := [true, false, false, true, false]
  const ELEVEN := [true, true, false, true, false]
  const THIRTEEN := [true, false, true, true, false]
  const FOURTEEN := [false, true, true, true, false]

  function XorBits(b: seq<bool>, c: seq<bool>): (d: seq<bool>)
    requires |b| == |c|
    ensures |d| == |b| && forall k :: 0 <= k < |d| ==> d[k] == (b[k] != c[k])
  {
    seq(|b|, k requires 0 <= k < |b| => b[k] != c[k])
  }

  function Doubled(bits: seq<bool>): seq<bool>
    requires |bits| == 5
  {
    [false] + bits[..4]
  }

  lemma TimesAddsBits<T(!new)>(o: Ops<T>, b: seq<bool>, c: seq<bool>, a: T)
    requires Laws(o) && |b| == |c| == 5
    ensures Times(o, XorBits(b, c), a) == o.add(Times(o, b, a), Times(o, c, a))
  {
    SumAddsRight(o, a, b, c, XorBits(b, c), 5);
  }

  lemma {:induction false} SumOfDoubled<T(!new)>(o: Ops<T>, bits: seq<bool>, a: T, i: nat)
    requires Laws(o) && |bits| == 5 && i <= 4
    ensures Sum(o, o.double(a), bits, i) == Sum(o, a, Doubled(bits), i + 1)
    decreases i
  {
    if i > 0 {
      SumOfDoubled(o, bits, a, i - 1);
      PowerOfDouble(o, a, i - 1);
    }
  }

  lemma TimesDouble<T(!new)>(o: Ops<T>, bits: seq<bool>, a: T)
    requires Laws(o) && |bits| == 5 && !bits[4]
    ensures Times(o, bits, o.double(a)) == Times(o, Doubled(bits), a)
  {
    SumOfDoubled(o, bits, a, 4);
  }

  function Tripled(bits: seq<bool>): seq<bool>
    requires |bits| == 5
  {
    XorBits(Doubled(bits), bits)
  }

  lemma TimesTriple<T(!new)>(o: Ops<T>, bits: seq<bool>, a: T)
    requires Laws(o) && |bits| == 5 && !bits[4]
    ensures Times(o, bits, o.add(o.double(a), a)) == Times(o, Tripled(bits), a)
  {
    SumAddsLeft(o, o.double(a), a, bits, 5);
    TimesDouble(o, bits, a);
    TimesAddsBits(o, Doubled(bits), bits, a);
  }

  lemma DoubleTimes<T(!new)>(o: Ops<T>, bits: seq<bool>, a: T)
    requires Laws(o) && |bits| == 5 && !bits[4]
    ensures o.double(Times(o, bits, a)) == Times(o, Doubled(bits), a)
    ensures o.add(o.double(Times(o, bits, a)), Times(o, bits, a)) == Times(o, Tripled(bits), a)
  {
    SumOfDouble(o, a, bits, 5);
    TimesDouble(o, bits, a);
    TimesAddsBits(o, Doubled(bits), bits, a);
  }

  lemma TimesOne<T(!new)>(o: Ops<T>, a: T)
    requires Laws(o)
    ensures Times(o, ONE, a) == a && Times(o, ZERO, a) == o.zero
  {
    assert SelfInverse(o, a);
    assert Sum(o, a, ONE, 1) == a;
    assert Sum(o, a, ONE, 5) == Sum(o, a, ONE, 4) == Sum(o, a, ONE, 3) == Sum(o, a, ONE, 2) == a;
    assert Sum(o, a, ZERO, 5) == Sum(o, a, ZERO, 4) == Sum(o, a, ZERO, 3) == Sum(o, a, ZERO, 2) == Sum(o, a, ZERO, 1);
  }

  // ---------- The two matrix rows ----------

  // A row of four constants times a column.
  function Row<T>(o: Ops<T>, p: seq<bool>, q: seq<bool>, r: seq<bool>, s: seq<bool>, a: T, b: T, c: T, d: T): T
    requires |p| == |q| == |r| == |s| == 5
  {
    Four(o, Times(o, p, a), Times(o, q, b), Times(o, r, c), Times(o, s, d))
  }

  function Mix<T>(o: Ops<T>, a: T, b: T, c: T, d: T): T {
    Four(o, o.double(a), o.add(o.double(b), b), c, d)
  }

  function InvMix<T>(o: Ops<T>, a: T, b: T, c: T, d: T): T {
    Row(o, FOURTEEN, ELEVEN, THIRTEEN, NINE, a, b, c, d)
  }

  // A constant times a row distributes over the entries of the column.
  lemma TimesMix<T(!new)>(o: Ops<T>, bits: seq<bool>, a: T, b: T, c: T, d: T)
    requires Laws(o) && |bits| == 5 && !bits[4]
    ensures Times(o, bits, Mix(o, a, b, c, d)) == Row(o, Doubled(bits), Tripled(bits), bits, bits, a, b, c, d)
  {
    var x, y := o.double(a), o.add(o.double(b), b);
    SumAddsLeft(o, o.add(x, y), o.add(c, d), bits, 5);
    SumAddsLeft(o, x, y, bits, 5);
    SumAddsLeft(o, c, d, bits, 5);
    TimesDouble(o, bits, a);
    TimesTriple(o, bits, b);
  }

  // The doublings of the row are the products by 2, 3, 1 and 1.
  lemma MixByTimes<T(!new)>(o: Ops<T>, a: T, b: T, c: T, d: T)
    requires Laws(o)
    ensures Mix(o, a, b, c, d) == Row(o, TWO, THREE, ONE, ONE, a, b, c, d)
  {
    TimesMix(o, ONE, a, b, c, d);
    TimesOne(o, Mix(o, a, b, c, d));
    assert Doubled(ONE) == TWO && Tripled(ONE) == THREE;
  }

  lemma Commutes<T(!new)>(o: Ops<T>, a: T, b: T)
    requires Laws(o)
    ensures o.add(a, b) == o.add(b, a)
  {
    assert Interchange(o, o.zero, a, b, o.zero);
    assert SelfInverse(o, a) && SelfInverse(o, b);
  }

  // Rotating four summands does not change their sum.
  lemma FourRotates<T(!new)>(o: Ops<T>, a: T, b: T, c: T, d: T)
    requires Laws(o)
    ensures Four(o, b, c, d, a) == Four(o, a, b, c, d)
  {
    Commutes(o, d, a);
    assert Interchange(o, b, c, a, d);
    Commutes(o, b, a);
    Commutes(o, c, d);
    assert Interchange(o, a, b, d, c);
    assert Interchange(o, b, a, c, d);
  }

  // Adding four rows of four is adding the columns.
  lemma FourOfFours<T(!new)>(o: Ops<T>, a: seq<T>, b: seq<T>, c: seq<T>, d: seq<T>)
    requires Laws(o) && |a| == |b| == |c| == |d| == 4
    ensures Four(o, Four(o, a[0], b[0], c[0], d[0]), Four(o, a[1], b[1], c[1], d[1]),
                    Four(o, a[2], b[2], c[2], d[2]), Four(o, a[3], b[3], c[3], d[3]))
         == Four(o, Four(o, a[0], a[1], a[2], a[3]), Four(o, b[0], b[1], b[2], b[3]),
                    Four(o, c[0], c[1], c[2], c[3]), Four(o, d[0], d[1], d[2], d[3]))
  {
    FourAdds(o, a[0], b[0], c[0], d[0], a[1], b[1], c[1], d[1]);
    FourAdds(o, a[2], b[2], c[2], d[2], a[3], b[3], c[3], d[3]);
    FourAdds(o, o.add(a[0], a[1]), o.add(b[0], b[1]), o.add(c[0], c[1]), o.add(d[0], d[1]),
                o.add(a[2], a[3]), o.add(b[2], b[3]), o.add(c[2], c[3]), o.add(d[2], d[3]));
  }

  lemma FourAdds<T(!new)>(o: Ops<T>, a: T, b: T, c: T, d: T, a': T, b': T, c': T, d': T)
    requires Laws(o)
    ensures o.add(Four(o, a, b, c, d), Four(o, a', b', c', d'))
         == Four(o, o.add(a, a'), o.add(b, b'), o.add(c, c'), o.add(d, d'))
  {
    assert Interchange(o, o.add(a, b), o.add(c, d), o.add(a', b'), o.add(c', d'));
    assert Interchange(o, a, b, a', b');
    assert Interchange(o, c, d, c', d');
  }

  // The four constants that one entry of the column meets on its way through both matrices add up.
  lemma FourTimes<T(!new)>(o: Ops<T>, p: seq<bool>, q: seq<bool>, r: seq<bool>, s: seq<bool>, a: T)
    requires Laws(o) && |p| == |q| == |r| == |s| == 5
    ensures Four(o, Times(o, p, a), Times(o, q, a), Times(o, r, a), Times(o, s, a))
         == Times(o, XorBits(XorBits(p, q), XorBits(r, s)), a)
  {
    TimesAddsBits(o, p, q, a);
    TimesAddsBits(o, r, s, a);
    TimesAddsBits(o, XorBits(p, q), XorBits(r, s), a);
  }

  lemma RowRotates<T(!new)>(o: Ops<T>, p: seq<bool>, q: seq<bool>, r: seq<bool>, s: seq<bool>, a: T, b: T, c: T, d: T)
    requires Laws(o) && |p| == |q| == |r| == |s| == 5
    ensures Row(o, p, q, r, s, b, c, d, a) == Row(o, s, p, q, r, a, b, c, d)
  {
    FourRotates(o, Times(o, s, a), Times(o, p, b), Times(o, q, c), Times(o, r, d));
  }

  function XorFour(p: seq<seq<bool>>): (sum: seq<bool>)
    requires |p| == 4 && |p[0]| == |p[1]| == |p[2]| == |p[3]| == 5
  {
    XorBits(XorBits(p[0], p[1]), XorBits(p[2], p[3]))
  }

  // Four rows add up to the first entry of the column if their constants add up to one for that entry, and to zero for
  // the others.
  lemma RowsAddUp<T(!new)>(o: Ops<T>, p: seq<seq<bool>>, q: seq<seq<bool>>, r: seq<seq<bool>>, s: seq<seq<bool>>,
                           a: T, b: T, c: T, d: T)
    requires Laws(o) && |p| == |q| == |r| == |s| == 4
    requires forall k :: 0 <= k < 4 ==> |p[k]| == |q[k]| == |r[k]| == |s[k]| == 5
    requires XorFour(p) == ONE && XorFour(q) == XorFour(r) == XorFour(s) == ZERO
    ensures Four(o, Row(o, p[0], q[0], r[0], s[0], a, b, c, d), Row(o, p[1], q[1], r[1], s[1], a, b, c, d),
                    Row(o, p[2], q[2], r[2], s[2], a, b, c, d), Row(o, p[3], q[3], r[3], s[3], a, b, c, d)) == a
  {
    var ca := [Times(o, p[0], a), Times(o, p[1], a), Times(o, p[2], a), Times(o, p[3], a)];
    var cb := [Times(o, q[0], b), Times(o, q[1], b), Times(o, q[2], b), Times(o, q[3], b)];
    var cc := [Times(o, r[0], c), Times(o, r[1], c), Times(o, r[2], c), Times(o, r[3], c)];
    var cd := [Times(o, s[0], d), Times(o, s[1], d), Times(o, s[2], d), Times(o, s[3], d)];
    FourOfFours(o, ca, cb, cc, cd);
    FourTimes(o, p[0], p[1], p[2], p[3], a);
    FourTimes(o, q[0], q[1], q[2], q[3], b);
    FourTimes(o, r[0], r[1], r[2], r[3], c);
    FourTimes(o, s[0], s[1], s[2], s[3], d);
    TimesOne(o, a);
    TimesOne(o, b);
    TimesOne(o, c);
    TimesOne(o, d);
    assert SelfInverse(o, a) && SelfInverse(o, o.zero);
  }

  lemma ConstantsOfUnmixing()
    ensures XorFour([Doubled(FOURTEEN), ELEVEN, THIRTEEN, Tripled(NINE)]) == ONE
    ensures XorFour([Tripled(FOURTEEN), Doubled(ELEVEN), THIRTEEN, NINE]) == ZERO
    ensures XorFour([FOURTEEN, Tripled(ELEVEN), Doubled(THIRTEEN), NINE]) == ZERO
    ensures XorFour([FOURTEEN, ELEVEN, Tripled(THIRTEEN), Doubled(NINE)]) == ZERO
  {
  }

  // The inverse row applied to the mixed column gives back the first entry.
  lemma InvMixUndoesMix<T(!new)>(o: Ops<T>, a: T, b: T, c: T, d: T)
    requires Laws(o)
    ensures InvMix(o, Mix(o, a, b, c, d), Mix(o, b, c, d, a), Mix(o, c, d, a, b), Mix(o, d, a, b, c)) == a
  {
    TimesMix(o, FOURTEEN, a, b, c, d);
    TimesMix(o, ELEVEN, b, c, d, a);
    TimesMix(o, THIRTEEN, c, d, a, b);
    TimesMix(o, NINE, d, a, b, c);
    RowRotates(o, Doubled(ELEVEN), Tripled(ELEVEN), ELEVEN, ELEVEN, a, b, c, d);
    RowRotates(o, Doubled(THIRTEEN), Tripled(THIRTEEN), THIRTEEN, THIRTEEN, b, c, d, a);
    RowRotates(o, THIRTEEN, Doubled(THIRTEEN), Tripled(THIRTEEN), THIRTEEN, a, b, c, d);
    RowRotates(o, Tripled(NINE), NINE, NINE, Doubled(NINE), d, a, b, c);
    ConstantsOfUnmixing();
    RowsAddUp(o, [Doubled(FOURTEEN), ELEVEN, THIRTEEN, Tripled(NINE)],
                 [Tripled(FOURTEEN), Doubled(ELEVEN), THIRTEEN, NINE],
                 [FOURTEEN, Tripled(ELEVEN), Doubled(THIRTEEN), NINE],
                 [FOURTEEN, ELEVEN, Tripled(THIRTEEN), Doubled(NINE)], a, b, c, d);
  }

  lemma ConstantsOfMixing()
    ensures XorFour([Doubled(FOURTEEN), Tripled(NINE), THIRTEEN, ELEVEN]) == ONE
    ensures XorFour([Doubled(ELEVEN), Tripled(FOURTEEN), NINE, THIRTEEN]) == ZERO
    ensures XorFour([Doubled(THIRTEEN), Tripled(ELEVEN), FOURTEEN, NINE]) == ZERO
    ensures XorFour([Doubled(NINE), Tripled(THIRTEEN), ELEVEN, FOURTEEN]) == ZERO
  {
  }

  // Doubling and tripling a row is doubling and tripling its constants.
  lemma DoubleInvMix<T(!new)>(o: Ops<T>, a: T, b: T, c: T, d: T)
    requires Laws(o)
    ensures var n := InvMix(o, a, b, c, d);
            && o.double(n) == Row(o, Doubled(FOURTEEN), Doubled(ELEVEN), Doubled(THIRTEEN), Doubled(NINE), a, b, c, d)
            && o.add(o.double(n), n)
               == Row(o, Tripled(FOURTEEN), Tripled(ELEVEN), Tripled(THIRTEEN), Tripled(NINE), a, b, c, d)
  {
    var w, x, y, z := Times(o, FOURTEEN, a), Times(o, ELEVEN, b), Times(o, THIRTEEN, c), Times(o, NINE, d);
    assert DoubleAdds(o, o.add(w, x), o.add(y, z)) && DoubleAdds(o, w, x) && DoubleAdds(o, y, z);
    DoubleTimes(o, FOURTEEN, a);
    DoubleTimes(o, ELEVEN, b);
    DoubleTimes(o, THIRTEEN, c);
    DoubleTimes(o, NINE, d);
    FourAdds(o, o.double(w), o.double(x), o.double(y), o.double(z), w, x, y, z);
  }

  // The row applied to the unmixed column gives back the first entry.
  lemma MixUndoesInvMix<T(!new)>(o: Ops<T>, a: T, b: T, c: T, d: T)
    requires Laws(o)
    ensures Mix(o, InvMix(o, a, b, c, d), InvMix(o, b, c, d, a), InvMix(o, c, d, a, b), InvMix(o, d, a, b, c)) == a
  {
    DoubleInvMix(o, a, b, c, d);
    DoubleInvMix(o, b, c, d, a);
    RowRotates(o, Tripled(FOURTEEN), Tripled(ELEVEN), Tripled(THIRTEEN), Tripled(NINE), a, b, c, d);
    RowRotates(o, FOURTEEN, ELEVEN, THIRTEEN, NINE, b, c, d, a);
    RowRotates(o, NINE, FOURTEEN, ELEVEN, THIRTEEN, a, b, c, d);
    RowRotates(o, ELEVEN, THIRTEEN, NINE, FOURTEEN, d, a, b, c);
    ConstantsOfMixing();
    RowsAddUp(o, [Doubled(FOURTEEN), Tripled(NINE), THIRTEEN, ELEVEN],
                 [Doubled(ELEVEN), Tripled(FOURTEEN), NINE, THIRTEEN],
                 [Doubled(THIRTEEN), Tripled(ELEVEN), FOURTEEN, NINE],
                 [Doubled(NINE), Tripled(THIRTEEN), ELEVEN, FOURTEEN], a, b, c, d);
  }
}

/**
 MixColumns and its inverse (sections 5.1.3 and 5.3.3 of FIPS 197), one matrix row at a time: both matrices are
 circulant, so every row is the first one applied to a rotated column.
 */
module MixColumnsMatrix {
  import opened ShiftAndAdd
  import opened Gf256
  import C = CirculantInverse

  // The encryptor's row: 2a + 3b + c + d, by doublings.
  function MixEntry(a: byte, b: byte, c: byte, d: byte): byte {
    (Xtime(a) ^ (Xtime(b) ^ b)) ^ (c ^ d)
  }

  // The decryptor's row: 14a + 11b + 13c + 9d, by general multiplication.
  function InvMixEntry(a: byte, b: byte, c: byte, d: byte): byte {
    (Product(0x0e, a) ^ Product(0x0b, b)) ^ (Product(0x0d, c) ^ Product(0x09, d))
  }

  lemma ProductByConstant(k: seq<bool>, c: byte, b: byte)
    requires |k| == 5 && C.Times(FIELD, k, 1) == c
    ensures Product(c, b) == C.Times(FIELD, k, b)
  {
    FieldLaws();
    SumOfSum(FIELD, 1, Bits(b), 8, k, 5);
    ProductOfOne(b);
  }

  lemma ConstantsAsBytes()
    ensures C.Times(FIELD, C.ONE, 1) == 0x01 && C.Times(FIELD, C.TWO, 1) == 0x02 && C.Times(FIELD, C.THREE, 1) == 0x03
    ensures C.Times(FIELD, C.NINE, 1) == 0x09 && C.Times(FIELD, C.ELEVEN, 1) == 0x0b
    ensures C.Times(FIELD, C.THIRTEEN, 1) == 0x0d && C.Times(FIELD, C.FOURTEEN, 1) == 0x0e
  {
    PowerOfOne(1);
    PowerOfOne(2);
    PowerOfOne(3);
  }

  lemma InverseProducts(b: byte)
    ensures Product(0x0e, b) == C.Times(FIELD, C.FOURTEEN, b)
    ensures Product(0x0b, b) == C.Times(FIELD, C.ELEVEN, b)
    ensures Product(0x0d, b) == C.Times(FIELD, C.THIRTEEN, b)
    ensures Product(0x09, b) == C.Times(FIELD, C.NINE, b)
  {
    ConstantsAsBytes();
    ProductByConstant(C.FOURTEEN, 0x0e, b);
    ProductByConstant(C.ELEVEN, 0x0b, b);
    ProductByConstant(C.THIRTEEN, 0x0d, b);
    ProductByConstant(C.NINE, 0x09, b);
  }

  lemma ForwardProducts(b: byte)
    ensures Product(0x02, b) == C.Times(FIELD, C.TWO, b)
    ensures Product(0x03, b) == C.Times(FIELD, C.THREE, b)
    ensures Product(0x01, b) == C.Times(FIELD, C.ONE, b)
  {
    ConstantsAsBytes();
    ProductByConstant(C.TWO, 0x02, b);
    ProductByConstant(C.THREE, 0x03, b);
    ProductByConstant(C.ONE, 0x01, b);
  }

  lemma MixInField(a: byte, b: byte, c: byte, d: byte)
    ensures MixEntry(a, b, c, d) == C.Mix(FIELD, a, b, c, d)
  {
    FieldAdds(Xtime(b), b);
    FourBytes(Xtime(a), Xtime(b) ^ b, c, d);
  }

  lemma MatrixRowInField(a: byte, b: byte, c: byte, d: byte)
    ensures (Product(0x02, a) ^ Product(0x03, b)) ^ (Product(0x01, c) ^ Product(0x01, d))
         == C.Row(FIELD, C.TWO, C.THREE, C.ONE, C.ONE, a, b, c, d)
  {
    ForwardProducts(a);
    ForwardProducts(b);
    ForwardProducts(c);
    ForwardProducts(d);
    FourBytes(Product(0x02, a), Product(0x03, b), Product(0x01, c), Product(0x01, d));
  }

  // The encryptor's shortcut is the row of the matrix, with all of its products taken in the field.
  lemma MixIsMatrixProduct(a: byte, b: byte, c: byte, d: byte)
    ensures MixEntry(a, b, c, d) == (Product(0x02, a) ^ Product(0x03, b)) ^ (Product(0x01, c) ^ Product(0x01, d))
  {
    FieldLaws();
    MixInField(a, b, c, d);
    C.MixByTimes(FIELD, a, b, c, d);
    MatrixRowInField(a, b, c, d);
  }

  lemma InvMixInField(a: byte, b: byte, c: byte, d: byte)
    ensures InvMixEntry(a, b, c, d) == C.InvMix(FIELD, a, b, c, d)
  {
    InverseProducts(a);
    InverseProducts(b);
    InverseProducts(c);
    InverseProducts(d);
    FourBytes(Product(0x0e, a), Product(0x0b, b), Product(0x0d, c), Product(0x09, d));
  }

  // The inverse row applied to the mixed column gives back the first entry.
  lemma InvMixUndoesMix(a: byte, b: byte, c: byte, d: byte)
    ensures InvMixEntry(MixEntry(a, b, c, d), MixEntry(b, c, d, a), MixEntry(c, d, a, b), MixEntry(d, a, b, c)) == a
  {
    FieldLaws();
    MixInField(a, b, c, d);
    MixInField(b, c, d, a);
    MixInField(c, d, a, b);
    MixInField(d, a, b, c);
    InvMixInField(MixEntry(a, b, c, d), MixEntry(b, c, d, a), MixEntry(c, d, a, b), MixEntry(d, a, b, c));
    C.InvMixUndoesMix(FIELD, a, b, c, d);
  }

  // The mixing row applied to the unmixed column gives back the first entry.
  lemma MixUndoesInvMix(a: byte, b: byte, c: byte, d: byte)
    ensures MixEntry(InvMixEntry(a, b, c, d), InvMixEntry(b, c, d, a), InvMixEntry(c, d, a, b), InvMixEntry(d, a, b, c))
         == a
  {
    FieldLaws();
    InvMixInField(a, b, c, d);
    InvMixInField(b, c, d, a);
    InvMixInField(c, d, a, b);
    InvMixInField(d, a, b, c);
    MixInField(InvMixEntry(a, b, c, d), InvMixEntry(b, c, d, a), InvMixEntry(c, d, a, b), InvMixEntry(d, a, b, c));
    C.MixUndoesInvMix(FIELD, a, b, c, d);
  }
}

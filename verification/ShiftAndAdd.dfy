/**
 Shift-and-add multiplication over any group in which every element is its own inverse and which has
 an additive doubling. The two multiplications of AES, with and without reduction, are instances.
 */
module ShiftAndAdd {

  datatype Ops<!T> = Ops(zero: T, add: (T, T) -> T, double: T -> T)

  // ---------- The laws ----------

  ghost predicate Interchange<T>(o: Ops<T>, a: T, b: T, c: T, d: T) {
    o.add(o.add(a, b), o.add(c, d)) == o.add(o.add(a, c), o.add(b, d))
  }

  ghost predicate SelfInverse<T>(o: Ops<T>, a: T) {
    o.add(a, a) == o.zero && o.add(a, o.zero) == a && o.add(o.zero, a) == a
  }

  ghost predicate DoubleAdds<T>(o: Ops<T>, a: T, b: T) {
    o.double(o.add(a, b)) == o.add(o.double(a), o.double(b))
  }

  ghost predicate Laws<T(!new)>(o: Ops<T>) {
    && (forall a, b, c, d :: Interchange(o, a, b, c, d))
    && (forall a :: SelfInverse(o, a))
    && (forall a, b :: DoubleAdds(o, a, b))
  }

  // ---------- Multiplication ----------

  function Power<T>(o: Ops<T>, a: T, i: nat): T
    decreases i, a
  {
    if i == 0 then a else o.double(Power(o, a, i - 1))
  }

  // The sum of the doublings of a that the first i bits select.
  function Sum<T>(o: Ops<T>, a: T, bits: seq<bool>, i: nat): T
    requires i <= |bits|
    decreases i, bits
  {
    if i == 0 then o.zero
    else if bits[i - 1] then o.add(Sum(o, a, bits, i - 1), Power(o, a, i - 1))
    else Sum(o, a, bits, i - 1)
  }

  // What bit i contributes.
  function Chosen<T>(o: Ops<T>, a: T, bits: seq<bool>, i: nat): T
    requires i < |bits|
  {
    if bits[i] then Power(o, a, i) else o.zero
  }

  lemma SumIsSumOfChosen<T(!new)>(o: Ops<T>, a: T, bits: seq<bool>, i: nat)
    requires Laws(o) && i < |bits|
    ensures Sum(o, a, bits, i + 1) == o.add(Sum(o, a, bits, i), Chosen(o, a, bits, i))
  {
    assert SelfInverse(o, Sum(o, a, bits, i));
  }

  lemma FourMoreTerms<T(!new)>(o: Ops<T>, a: T, bits: seq<bool>, i: nat)
    requires Laws(o) && i + 4 <= |bits|
    ensures Sum(o, a, bits, i + 4) ==
            o.add(o.add(o.add(o.add(Sum(o, a, bits, i), Chosen(o, a, bits, i)), Chosen(o, a, bits, i + 1)),
                        Chosen(o, a, bits, i + 2)), Chosen(o, a, bits, i + 3))
  {
    SumIsSumOfChosen(o, a, bits, i);
    SumIsSumOfChosen(o, a, bits, i + 1);
    SumIsSumOfChosen(o, a, bits, i + 2);
    SumIsSumOfChosen(o, a, bits, i + 3);
  }

  lemma {:induction false} PowerAdds<T(!new)>(o: Ops<T>, a: T, b: T, i: nat)
    requires Laws(o)
    ensures Power(o, o.add(a, b), i) == o.add(Power(o, a, i), Power(o, b, i))
    decreases i
  {
    if i > 0 {
      PowerAdds(o, a, b, i - 1);
      assert DoubleAdds(o, Power(o, a, i - 1), Power(o, b, i - 1));
    }
  }

  lemma {:induction false} SumAddsLeft<T(!new)>(o: Ops<T>, a: T, b: T, bits: seq<bool>, i: nat)
    requires Laws(o) && i <= |bits|
    ensures Sum(o, o.add(a, b), bits, i) == o.add(Sum(o, a, bits, i), Sum(o, b, bits, i))
    decreases i
  {
    assert SelfInverse(o, o.zero);
    if i > 0 {
      SumAddsLeft(o, a, b, bits, i - 1);
      PowerAdds(o, a, b, i - 1);
      assert Interchange(o, Sum(o, a, bits, i - 1), Sum(o, b, bits, i - 1), Power(o, a, i - 1), Power(o, b, i - 1));
    }
  }

  lemma {:induction false} SumAddsRight<T(!new)>(o: Ops<T>, a: T, b: seq<bool>, c: seq<bool>, d: seq<bool>, i: nat)
    requires Laws(o) && i <= |b| == |c| == |d|
    requires forall k :: 0 <= k < |d| ==> d[k] == (b[k] != c[k])
    ensures Sum(o, a, d, i) == o.add(Sum(o, a, b, i), Sum(o, a, c, i))
    decreases i
  {
    assert SelfInverse(o, o.zero);
    if i > 0 {
      SumAddsRight(o, a, b, c, d, i - 1);
      var p, s, t := Power(o, a, i - 1), Sum(o, a, b, i - 1), Sum(o, a, c, i - 1);
      assert SelfInverse(o, p) && SelfInverse(o, s) && SelfInverse(o, t) && SelfInverse(o, o.add(s, t));
      assert Interchange(o, s, t, p, o.zero) && Interchange(o, s, t, o.zero, p) && Interchange(o, s, t, p, p);
    }
  }

  lemma {:induction false} PowerOfDouble<T>(o: Ops<T>, a: T, i: nat)
    ensures Power(o, o.double(a), i) == o.double(Power(o, a, i))
    decreases i
  {
    if i > 0 {
      PowerOfDouble(o, a, i - 1);
    }
  }

  lemma {:induction false} SumOfDouble<T(!new)>(o: Ops<T>, a: T, bits: seq<bool>, i: nat)
    requires Laws(o) && i <= |bits|
    ensures Sum(o, o.double(a), bits, i) == o.double(Sum(o, a, bits, i))
    decreases i
  {
    if i > 0 {
      SumOfDouble(o, a, bits, i - 1);
      PowerOfDouble(o, a, i - 1);
      assert DoubleAdds(o, Sum(o, a, bits, i - 1), Power(o, a, i - 1));
    } else {
      assert SelfInverse(o, o.zero) && DoubleAdds(o, o.zero, o.zero) && SelfInverse(o, o.double(o.zero));
    }
  }

  lemma {:induction false} SumOfPower<T(!new)>(o: Ops<T>, a: T, bits: seq<bool>, i: nat, k: nat)
    requires Laws(o) && i <= |bits|
    ensures Sum(o, Power(o, a, k), bits, i) == Power(o, Sum(o, a, bits, i), k)
    decreases k
  {
    if k > 0 {
      SumOfPower(o, a, bits, i, k - 1);
      SumOfDouble(o, Power(o, a, k - 1), bits, i);
    }
  }

  lemma {:induction false} SumOfZero<T(!new)>(o: Ops<T>, bits: seq<bool>, i: nat)
    requires Laws(o) && i <= |bits|
    ensures Sum(o, o.zero, bits, i) == o.zero
  {
    SumAddsLeft(o, o.zero, o.zero, bits, i);
    assert SelfInverse(o, o.zero) && SelfInverse(o, Sum(o, o.zero, bits, i));
  }

  // Two multiplications commute.
  lemma {:induction false} SumOfSum<T(!new)>(o: Ops<T>, a: T, b: seq<bool>, i: nat, c: seq<bool>, k: nat)
    requires Laws(o) && i <= |b| && k <= |c|
    ensures Sum(o, Sum(o, a, c, k), b, i) == Sum(o, Sum(o, a, b, i), c, k)
    decreases k
  {
    if k == 0 {
      SumOfZero(o, b, i);
    } else {
      SumOfSum(o, a, b, i, c, k - 1);
      SumOfPower(o, a, b, i, k - 1);
      SumAddsLeft(o, Sum(o, a, c, k - 1), Power(o, a, k - 1), b, i);
    }
  }
}

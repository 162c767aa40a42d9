/**
 Sequences in which every item from the fifth on is the sum of the item four places before and a function of the item
 just before: four consecutive items determine all others, in both directions.
 */
module Recurrences {

  ghost predicate Cancels<T(!new)>(add: (T, T) -> T) {
    forall a, b :: add(add(a, b), b) == a
  }

  ghost predicate Follows<T>(add: (T, T) -> T, next: (T, nat) -> T, w: seq<T>) {
    forall i :: 4 <= i < |w| ==> w[i] == add(w[i - 4], next(w[i - 1], i))
  }

  lemma FollowsAt<T>(add: (T, T) -> T, next: (T, nat) -> T, w: seq<T>, i: nat)
    requires Follows(add, next, w) && 4 <= i < |w|
    ensures w[i] == add(w[i - 4], next(w[i - 1], i))
  {
  }

  ghost predicate AgreeOn<T>(v: seq<T>, w: seq<T>, lo: nat, hi: nat) {
    hi <= |v| == |w| && forall i :: lo <= i < hi ==> v[i] == w[i]
  }

  lemma {:induction false} AgreeForwards<T>(add: (T, T) -> T, next: (T, nat) -> T, v: seq<T>, w: seq<T>,
                                            lo: nat, hi: nat)
    requires Follows(add, next, v) && Follows(add, next, w) && lo + 4 <= hi && AgreeOn(v, w, lo, hi)
    ensures AgreeOn(v, w, lo, |v|)
    decreases |v| - hi
  {
    if hi < |v| {
      assert v[hi] == add(v[hi - 4], next(v[hi - 1], hi)) && w[hi] == add(w[hi - 4], next(w[hi - 1], hi));
      AgreeForwards(add, next, v, w, lo, hi + 1);
    }
  }

  lemma {:induction false} AgreeBackwards<T(!new)>(add: (T, T) -> T, next: (T, nat) -> T, v: seq<T>, w: seq<T>,
                                                   lo: nat, hi: nat)
    requires Cancels(add)
    requires Follows(add, next, v) && Follows(add, next, w) && lo + 4 <= hi && AgreeOn(v, w, lo, hi)
    ensures AgreeOn(v, w, 0, hi)
    decreases lo
  {
    if lo > 0 {
      var i := lo + 3;
      assert v[i] == add(v[i - 4], next(v[i - 1], i)) && w[i] == add(w[i - 4], next(w[i - 1], i));
      assert add(v[i], next(v[i - 1], i)) == v[i - 4] && add(w[i], next(w[i - 1], i)) == w[i - 4];
      AgreeBackwards(add, next, v, w, lo - 1, hi);
    }
  }

  // The two loops that fill such a sequence: the first four items are given, the rest follow.
  method Fill<T>(w: array<T>, first: nat -> T, add: (T, T) -> T, next: (T, nat) -> T)
    requires w.Length >= 4
    modifies w
    ensures forall i :: 0 <= i < 4 ==> w[i] == first(i)
    ensures Follows(add, next, w[..])
  {
    for i := 0 to 4
      invariant forall k :: 0 <= k < i ==> w[k] == first(k)
    {
      w[i] := first(i);
    }
    for i := 4 to w.Length
      invariant forall k :: 0 <= k < 4 ==> w[k] == first(k)
      invariant forall k :: 4 <= k < i ==> w[k] == add(w[k - 4], next(w[k - 1], k))
    {
      var temp := next(w[i - 1], i);
      w[i] := add(w[i - 4], temp);
    }
  }

  // Agreement on any four consecutive items is agreement everywhere.
  lemma FourItemsDetermineAll<T(!new)>(add: (T, T) -> T, next: (T, nat) -> T, v: seq<T>, w: seq<T>, lo: nat)
    requires Cancels(add)
    requires Follows(add, next, v) && Follows(add, next, w) && AgreeOn(v, w, lo, lo + 4)
    ensures v == w
  {
    AgreeForwards(add, next, v, w, lo, lo + 4);
    AgreeBackwards(add, next, v, w, lo, |v|);
  }
}

/**
 The AES-128 key schedule (section 5.2 of FIPS 197).
 */
module KeySchedule {
  import opened ShiftAndAdd
  import opened Gf256
  import opened SubstitutionBoxes
  import opened AesCipher
  import opened Recurrences

  const KEY_BYTES: nat := 16
  const RCON: seq<word> := [
    0x00000000,
    0x01000000, 0x02000000, 0x04000000, 0x08000000,
    0x10000000, 0x20000000, 0x40000000, 0x80000000,
    0x1b000000, 0x36000000]

  type Key = k: seq<byte> | |k| == KEY_BYTES witness seq(KEY_BYTES, _ => 0)

  function RotWord(w: word): word {
    (w << 8) | (w >> 24)
  }

  // Four bytes as a word, the most significant first.
  function Packed(a: byte, b: byte, c: byte, d: byte): word {
    ((a as word) << 24) | ((b as word) << 16) | ((c as word) << 8) | (d as word)
  }

  function SubWord(w: word): word {
    Packed(Sbox(KeyByte(w, 0)), Sbox(KeyByte(w, 1)), Sbox(KeyByte(w, 2)), Sbox(KeyByte(w, 3)))
  }

  // The word that is added to the one four places before word i.
  function Temp(previous: word, i: nat): word {
    if i % 4 == 0 && i / 4 <= 10 then Substituted(previous, i / 4) else previous
  }

  function Substituted(previous: word, k: nat): word
    requires k <= 10
  {
    AddWords(SubWord(RotWord(previous)), RCON[k])
  }

  function AddWords(a: word, b: word): word {
    a ^ b
  }

  // Word i of the key, its bytes most significant first.
  function KeyWord(key: Key, i: nat): word {
    if i < 4 then Packed(key[4 * i], key[4 * i + 1], key[4 * i + 2], key[4 * i + 3]) else 0
  }

  // The recurrence, and the key in the first four words.
  ghost predicate Expands(words: Schedule, key: Key) {
    (forall i :: 0 <= i < 4 ==> words[i] == KeyWord(key, i)) && Follows(AddWords, Temp, words)
  }

  // ---------- The schedule, byte by byte ----------

  // A word is its bytes.
  lemma WordOfBytes(w: word)
    ensures w == Packed(KeyByte(w, 0), KeyByte(w, 1), KeyByte(w, 2), KeyByte(w, 3))
  {
  }

  lemma PackedBytes(a: byte, b: byte, c: byte, d: byte)
    ensures KeyByte(Packed(a, b, c, d), 0) == a && KeyByte(Packed(a, b, c, d), 1) == b
    ensures KeyByte(Packed(a, b, c, d), 2) == c && KeyByte(Packed(a, b, c, d), 3) == d
  {
  }

  lemma FirstByteOfSum(a: word, b: word)
    ensures KeyByte(a ^ b, 0) == KeyByte(a, 0) ^ KeyByte(b, 0)
  {
  }

  lemma SecondByteOfSum(a: word, b: word)
    ensures KeyByte(a ^ b, 1) == KeyByte(a, 1) ^ KeyByte(b, 1)
  {
  }

  lemma ThirdByteOfSum(a: word, b: word)
    ensures KeyByte(a ^ b, 2) == KeyByte(a, 2) ^ KeyByte(b, 2)
  {
  }

  lemma FourthByteOfSum(a: word, b: word)
    ensures KeyByte(a ^ b, 3) == KeyByte(a, 3) ^ KeyByte(b, 3)
  {
  }

  lemma ByteOfSum(a: word, b: word, j: nat)
    requires j < 4
    ensures KeyByte(a ^ b, j) == KeyByte(a, j) ^ KeyByte(b, j)
  {
    if j == 0 {
      FirstByteOfSum(a, b);
    } else if j == 1 {
      SecondByteOfSum(a, b);
    } else if j == 2 {
      ThirdByteOfSum(a, b);
    } else {
      FourthByteOfSum(a, b);
    }
  }

  // Byte j of a word is the sum of byte j of the word four places before and two further bytes.
  ghost predicate IsSum(w: word, before: word, j: nat, p: byte, q: byte)
    requires j < 4
  {
    KeyByte(w, j) == KeyByte(before, j) ^ (p ^ q)
  }

  lemma ByteOfTwo(w: word, a: word, b: word, j: nat, p: byte, q: byte)
    requires w == AddWords(a, b) && j < 4 && KeyByte(a, j) == p && KeyByte(b, j) == q
    ensures KeyByte(w, j) == p ^ q
  {
    ByteOfSum(a, b, j);
  }

  lemma ByteOfSums(w: word, a: word, b: word, c: word, j: nat, p: byte, q: byte)
    requires w == AddWords(a, AddWords(b, c)) && j < 4 && KeyByte(b, j) == p && KeyByte(c, j) == q
    ensures IsSum(w, a, j, p, q)
  {
    var d := AddWords(b, c);
    ByteOfTwo(d, b, c, j, p, q);
    ByteOfTwo(w, a, d, j, KeyByte(a, j), p ^ q);
  }

  lemma RotatedBytes(w: word)
    ensures KeyByte(RotWord(w), 0) == KeyByte(w, 1) && KeyByte(RotWord(w), 1) == KeyByte(w, 2)
    ensures KeyByte(RotWord(w), 2) == KeyByte(w, 3) && KeyByte(RotWord(w), 3) == KeyByte(w, 0)
  {
  }

  // The bytes of a word move up by one place, and the first becomes the last.
  lemma RotWordByte(w: word, j: nat)
    requires j < 4
    ensures KeyByte(RotWord(w), j) == KeyByte(w, (j + 1) % 4)
  {
    RotatedBytes(w);
  }

  lemma BytesOfSubWord(w: word)
    ensures KeyByte(SubWord(w), 0) == Sbox(KeyByte(w, 0)) && KeyByte(SubWord(w), 1) == Sbox(KeyByte(w, 1))
    ensures KeyByte(SubWord(w), 2) == Sbox(KeyByte(w, 2)) && KeyByte(SubWord(w), 3) == Sbox(KeyByte(w, 3))
  {
    PackedBytes(Sbox(KeyByte(w, 0)), Sbox(KeyByte(w, 1)), Sbox(KeyByte(w, 2)), Sbox(KeyByte(w, 3)));
  }

  // Every byte goes through the table.
  lemma SubWordByte(w: word, j: nat)
    requires j < 4
    ensures KeyByte(SubWord(w), j) == Sbox(KeyByte(w, j))
  {
    BytesOfSubWord(w);
    if j == 0 {
    } else if j == 1 {
    } else if j == 2 {
    } else {
    }
  }

  // Byte j of the constant of round i: x^(i - 1) in GF(2^8), and three zeros.
  function RoundConstant(i: nat, j: nat): byte
    requires 1 <= i <= 10
  {
    if j == 0 then Power(FIELD, 1, i - 1) else 0
  }

  lemma RoundConstantBytes(i: nat, j: nat)
    requires 1 <= i <= 10 && j < 4
    ensures KeyByte(RCON[i], j) == RoundConstant(i, j)
  {
    if i <= 8 {
      PowerOfOne(i - 1);
    } else {
      PowerOfOne(7);
      assert Power(FIELD, 1, 8) == Xtime(Power(FIELD, 1, 7)) == 0x1b;
      assert Power(FIELD, 1, 9) == Xtime(Power(FIELD, 1, 8)) == 0x36;
    }
  }

  // Byte j of another word: the sum of the bytes of the two words.
  ghost predicate IsOtherWord(w: word, before: word, previous: word, j: nat)
    requires j < 4
  {
    KeyByte(w, j) == KeyByte(before, j) ^ KeyByte(previous, j)
  }

  // Byte j of the first word of round k: the byte of the word four places before, the substituted next byte of the
  // word just before, and in byte 0 a power of x.
  ghost predicate FirstWordOfRound(words: Schedule, k: nat, j: nat)
    requires 1 <= k <= 10 && j < 4
  {
    IsSum(words[4 * k], words[4 * k - 4], j, Sbox(KeyByte(words[4 * k - 1], (j + 1) % 4)), RoundConstant(k, j))
  }

  ghost predicate OtherWord(words: Schedule, i: nat, j: nat)
    requires 4 < i < 44 && j < 4
  {
    IsOtherWord(words[i], words[i - 4], words[i - 1], j)
  }

  // The recurrence of section 5.2, said for the bytes: the key comes first, and every later byte is given.
  ghost predicate ExpandsBytes(words: Schedule, key: Key) {
    && (forall i, j :: 0 <= i < 4 && 0 <= j < 4 ==> KeyByte(words[i], j) == key[4 * i + j])
    && (forall k, j :: 1 <= k <= 10 && 0 <= j < 4 ==> FirstWordOfRound(words, k, j))
    && (forall i, j :: 4 < i < 44 && i % 4 != 0 && 0 <= j < 4 ==> OtherWord(words, i, j))
  }

  lemma FourthsAreWhole(k: nat)
    ensures (4 * k) % 4 == 0 && (4 * k) / 4 == k
  {
  }

  lemma SubstitutedByte(previous: word, j: nat)
    requires j < 4
    ensures KeyByte(SubWord(RotWord(previous)), j) == Sbox(KeyByte(previous, (j + 1) % 4))
  {
    SubWordByte(RotWord(previous), j);
    RotWordByte(previous, j);
  }

  lemma FirstWordByBytes(w: word, before: word, previous: word, k: nat, j: nat)
    requires 1 <= k <= ROUNDS && j < 4 && w == AddWords(before, Substituted(previous, k))
    ensures IsSum(w, before, j, Sbox(KeyByte(previous, (j + 1) % 4)), RoundConstant(k, j))
  {
    var substituted := SubWord(RotWord(previous));
    SubstitutedByte(previous, j);
    RoundConstantBytes(k, j);
    ByteOfSums(w, before, substituted, RCON[k], j, KeyByte(substituted, j), KeyByte(RCON[k], j));
  }

  lemma OtherWordByBytes(w: word, before: word, previous: word, i: nat, j: nat)
    requires i % 4 != 0 && j < 4 && w == AddWords(before, Temp(previous, i))
    ensures IsOtherWord(w, before, previous, j)
  {
    ByteOfSum(before, previous, j);
  }

  lemma ExpandedBytes(words: Schedule, key: Key)
    requires Expands(words, key)
    ensures ExpandsBytes(words, key)
  {
    forall i, j | 0 <= i < 4 && 0 <= j < 4
      ensures KeyByte(words[i], j) == key[4 * i + j]
    {
      KeyWordBytes(key, i);
    }
    forall k, j | 1 <= k <= 10 && 0 <= j < 4
      ensures FirstWordOfRound(words, k, j)
    {
      ExpandedFirstWord(words, k, j);
    }
    forall i, j | 4 < i < 44 && i % 4 != 0 && 0 <= j < 4
      ensures OtherWord(words, i, j)
    {
      FollowsAt(AddWords, Temp, words, i);
      OtherWordByBytes(words[i], words[i - 4], words[i - 1], i, j);
    }
  }

  lemma ExpandedFirstWord(words: Schedule, k: nat, j: nat)
    requires Follows(AddWords, Temp, words) && 1 <= k <= 10 && j < 4
    ensures FirstWordOfRound(words, k, j)
  {
    FourthsAreWhole(k);
    FollowsAt(AddWords, Temp, words, 4 * k);
    FirstWordByBytes(words[4 * k], words[4 * k - 4], words[4 * k - 1], k, j);
  }

  // The bytes of a key word, as the round keys take them out again.
  lemma KeyWordBytes(key: Key, i: nat)
    requires i < 4
    ensures KeyByte(KeyWord(key, i), 0) == key[4 * i] && KeyByte(KeyWord(key, i), 1) == key[4 * i + 1]
    ensures KeyByte(KeyWord(key, i), 2) == key[4 * i + 2] && KeyByte(KeyWord(key, i), 3) == key[4 * i + 3]
  {
    PackedBytes(key[4 * i], key[4 * i + 1], key[4 * i + 2], key[4 * i + 3]);
  }

  method KeyExpansion(words: array<word>, key: Key)
    requires words.Length == SCHEDULE_WORDS
    modifies words
    ensures Expands(words[..], key) && ExpandsBytes(words[..], key)
  {
    Fill(words, (i: nat) => KeyWord(key, i), AddWords, Temp);
    ExpandedBytes(words[..], key);
  }

  // ---------- Any round determines the key ----------

  lemma XorCancels(a: word, b: word)
    ensures AddWords(AddWords(a, b), b) == a
  {
  }

  lemma AddWordsCancels()
    ensures Cancels(AddWords)
  {
    forall a: word, b: word
      ensures AddWords(AddWords(a, b), b) == a
    {
      XorCancels(a, b);
    }
  }

  // The four words of any one round determine the whole schedule.
  lemma RoundDeterminesSchedule(v: Schedule, w: Schedule, round: nat)
    requires Follows(AddWords, Temp, v) && Follows(AddWords, Temp, w) && round <= ROUNDS
    requires AgreeOn(v, w, 4 * round, 4 * round + 4)
    ensures v == w
  {
    AddWordsCancels();
    FourItemsDetermineAll(AddWords, Temp, v, w, 4 * round);
  }

  lemma SameKeyWord(k: Key, l: Key, i: nat)
    requires i < 4 && KeyWord(k, i) == KeyWord(l, i)
    ensures k[4 * i] == l[4 * i] && k[4 * i + 1] == l[4 * i + 1]
    ensures k[4 * i + 2] == l[4 * i + 2] && k[4 * i + 3] == l[4 * i + 3]
  {
    KeyWordBytes(k, i);
    KeyWordBytes(l, i);
  }

  lemma SameKeyWords(k: Key, l: Key)
    requires forall i :: 0 <= i < 4 ==> KeyWord(k, i) == KeyWord(l, i)
    ensures k == l
  {
    SameKeyWord(k, l, 0);
    SameKeyWord(k, l, 1);
    SameKeyWord(k, l, 2);
    SameKeyWord(k, l, 3);
  }

  // Two keys whose schedules agree on one round are the same key, with the same schedule.
  lemma RoundDeterminesKey(v: Schedule, k: Key, w: Schedule, l: Key, round: nat)
    requires Expands(v, k) && Expands(w, l) && round <= ROUNDS && AgreeOn(v, w, 4 * round, 4 * round + 4)
    ensures v == w && k == l
  {
    RoundDeterminesSchedule(v, w, round);
    SameKeyWords(k, l);
  }
}

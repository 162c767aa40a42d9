/**
 Four rows of four, added entry by entry.
 */
module Grids {

  predicate IsGrid<T>(m: seq<seq<T>>) {
    |m| == 4 && forall r :: 0 <= r < 4 ==> |m[r]| == 4
  }

  ghost predicate IsCombined<T>(add: (T, T) -> T, n: seq<seq<T>>, m: seq<seq<T>>, k: seq<seq<T>>) {
    && IsGrid(n) && IsGrid(m) && IsGrid(k)
    && forall r, c :: 0 <= r < 4 && 0 <= c < 4 ==> n[r][c] == add(m[r][c], k[r][c])
  }

  ghost predicate LeftCancels<T(!new)>(add: (T, T) -> T) {
    forall x, a, b :: add(x, a) == add(x, b) ==> a == b
  }

  // Equal sums with the same first summand have the same second one.
  lemma SameSummand<T(!new)>(add: (T, T) -> T, n: seq<seq<T>>, m: seq<seq<T>>, k: seq<seq<T>>, l: seq<seq<T>>)
    requires LeftCancels(add) && IsCombined(add, n, m, k) && IsCombined(add, n, m, l)
    ensures k == l
  {
    forall r | 0 <= r < 4
      ensures k[r] == l[r]
    {
      forall c | 0 <= c < 4
        ensures k[r][c] == l[r][c]
      {
        assert add(m[r][c], k[r][c]) == add(m[r][c], l[r][c]);
      }
    }
  }
}

/**
 Two runs of steps over the same states: what agreement of their steps says about their states.
 */
module Runs {

  ghost predicate RunOf<S>(s: seq<S>, step: (S, nat) -> S) {
    forall k :: 1 <= k < |s| ==> s[k] == step(s[k - 1], k)
  }

  ghost predicate SameStep<S(!new)>(f: (S, nat) -> S, g: (S, nat) -> S, k: nat) {
    forall x :: f(x, k) == g(x, k)
  }

  ghost predicate Injective<S(!new)>(f: (S, nat) -> S, k: nat) {
    forall x, y :: f(x, k) == f(y, k) ==> x == y
  }

  // Equal steps lead from equal states to equal states.
  lemma {:induction false} SameUpTo<S(!new)>(s: seq<S>, t: seq<S>, f: (S, nat) -> S, g: (S, nat) -> S, n: nat)
    requires RunOf(s, f) && RunOf(t, g) && n < |s| == |t| && s[0] == t[0]
    requires forall k :: 1 <= k <= n ==> SameStep(f, g, k)
    ensures s[n] == t[n]
  {
    if n > 0 {
      SameUpTo(s, t, f, g, n - 1);
      assert SameStep(f, g, n) && f(s[n - 1], n) == g(t[n - 1], n);
    }
  }

  // Equal injective steps lead back from equal last states to equal states.
  lemma {:induction false} SameDownTo<S(!new)>(s: seq<S>, t: seq<S>, f: (S, nat) -> S, g: (S, nat) -> S, n: nat)
    requires RunOf(s, f) && RunOf(t, g) && n < |s| == |t| && s[|s| - 1] == t[|s| - 1]
    requires forall k :: n < k < |s| ==> SameStep(f, g, k) && Injective(f, k)
    ensures s[n] == t[n]
    decreases |s| - n
  {
    if n + 1 < |s| {
      SameDownTo(s, t, f, g, n + 1);
      assert SameStep(f, g, n + 1) && f(t[n], n + 1) == g(t[n], n + 1);
      assert Injective(f, n + 1) && f(s[n], n + 1) == f(t[n], n + 1);
    }
  }
}

/**
 The block cipher entry by entry, and what each round key does to the ciphertext.
 */
module AesEntries {
  import opened Gf256
  import opened SubstitutionBoxes
  import opened MixColumnsMatrix
  import opened AesCipher
  import opened Grids
  import opened Runs
  import KeySchedule

  // ---------- The cipher of section 5.1 of FIPS 197, one byte of the state at a time ----------

  // What the table and the row shift bring to row i of column c.
  function Moved(m: Matrix, i: nat, c: nat): byte
    requires i < 4 && c < 4
  {
    Sbox(m[i][(c + i) % 4])
  }

  ghost predicate FirstEntry(b: Block, words: Schedule, after: Matrix, r: nat, c: nat)
    requires r < 4 && c < 4
  {
    after[r][c] == b[r + 4 * c] ^ KeyByte(words[c], r)
  }

  // A row of the matrix times a column, and a key byte.
  ghost predicate IsKeyedRow(n: byte, key: byte, w: byte, x: byte, y: byte, z: byte) {
    n == ((Product(0x02, w) ^ Product(0x03, x)) ^ (Product(0x01, y) ^ Product(0x01, z))) ^ key
  }

  ghost predicate MixedEntry(before: Matrix, words: Schedule, after: Matrix, round: nat, r: nat, c: nat)
    requires 1 <= round <= 9 && r < 4 && c < 4
  {
    IsKeyedRow(after[r][c], KeyByte(words[4 * round + c], r), Moved(before, r, c), Moved(before, (r + 1) % 4, c),
               Moved(before, (r + 2) % 4, c), Moved(before, (r + 3) % 4, c))
  }

  ghost predicate LastEntry(before: Matrix, words: Schedule, after: Matrix, r: nat, c: nat)
    requires r < 4 && c < 4
  {
    after[r][c] == Moved(before, r, c) ^ KeyByte(words[40 + c], r)
  }

  ghost predicate MixedEntryOf(s: seq<Matrix>, words: Schedule, k: nat, r: nat, c: nat)
    requires |s| == 11 && 1 <= k <= 9 && r < 4 && c < 4
  {
    MixedEntry(s[k - 1], words, s[k], k, r, c)
  }

  ghost predicate OuterEntries(b: Block, words: Schedule, s: seq<Matrix>, r: nat, c: nat)
    requires |s| == 11 && r < 4 && c < 4
  {
    FirstEntry(b, words, s[0], r, c) && LastEntry(s[9], words, s[10], r, c)
  }

  // Eleven states: the block with the first round key, nine rounds that mix the columns, and one that does not.
  ghost predicate CipherStates(b: Block, words: Schedule, s: seq<Matrix>) {
    && |s| == 11
    && (forall r, c :: 0 <= r < 4 && 0 <= c < 4 ==> OuterEntries(b, words, s, r, c))
    && (forall k, r, c :: 1 <= k <= 9 && 0 <= r < 4 && 0 <= c < 4 ==> MixedEntryOf(s, words, k, r, c))
  }

  lemma KeyAdded(m: Matrix, words: Schedule, round: nat, r: nat, c: nat)
    requires round <= ROUNDS && r < 4 && c < 4
    ensures AddRoundKey(m, words, round)[r][c] == m[r][c] ^ KeyByte(words[4 * round + c], r)
  {
  }

  lemma SumAt(n: Matrix, m: Matrix, words: Schedule, round: nat, r: nat, c: nat) returns (key: byte)
    requires round <= ROUNDS && r < 4 && c < 4 && n == AddRoundKey(m, words, round)
    ensures key == KeyByte(words[4 * round + c], r) && n[r][c] == m[r][c] ^ key
  {
    key := KeyByte(words[4 * round + c], r);
    KeyAdded(m, words, round, r, c);
  }

  lemma ShiftedAndSubstituted(m: Matrix, r: nat, c: nat)
    requires r < 4 && c < 4
    ensures ShiftRows(SubBytes(m))[r][c] == Moved(m, r, c)
  {
    assert Right(c, r) == (c + r) % 4;
  }

  ghost predicate IsMatrixRow(t: byte, w: byte, x: byte, y: byte, z: byte) {
    t == (Product(0x02, w) ^ Product(0x03, x)) ^ (Product(0x01, y) ^ Product(0x01, z))
  }

  lemma FirstRow(w: byte, x: byte, y: byte, z: byte)
    ensures IsMatrixRow(MixEntry(w, x, y, z), w, x, y, z)
  {
    MixIsMatrixProduct(w, x, y, z);
  }

  ghost predicate IsMixed(t: byte, w: byte, x: byte, y: byte, z: byte) {
    t == MixEntry(w, x, y, z)
  }

  lemma EntriesOfColumn(w: byte, x: byte, y: byte, z: byte)
    ensures IsMixed(Mixed(0, w, x, y, z), w, x, y, z) && IsMixed(Mixed(1, w, x, y, z), x, y, z, w)
    ensures IsMixed(Mixed(2, w, x, y, z), y, z, w, x) && IsMixed(Mixed(3, w, x, y, z), z, w, x, y)
  {
  }

  // The rows after row r, going around.
  predicate AreNext(r: nat, i: nat, j: nat, k: nat) {
    && r < 4 && i == (if r < 3 then r + 1 else 0)
    && j == (if r < 2 then r + 2 else r - 2) && k == (if r > 0 then r - 1 else 3)
  }

  // Entry r of a mixed column is the row times the column that begins at r.
  lemma MixedFrom(m: Matrix, n: Matrix, r: nat, c: nat, i: nat, j: nat, k: nat)
    requires r < 4 && c < 4 && n == MixColumns(m)
    requires AreNext(r, i, j, k)
    ensures IsMixed(n[r][c], m[r][c], m[i][c], m[j][c], m[k][c])
  {
    MixedAt(m, r, c);
    EntriesOfColumn(m[0][c], m[1][c], m[2][c], m[3][c]);
    if r == 0 {
    } else if r == 1 {
    } else if r == 2 {
    } else {
    }
  }

  lemma KeyedRow(n: byte, t: byte, key: byte, w: byte, x: byte, y: byte, z: byte)
    requires n == t ^ key && IsMatrixRow(t, w, x, y, z)
    ensures IsKeyedRow(n, key, w, x, y, z)
  {
  }

  lemma RowOfMixed(m: Matrix, mixed: Matrix, r: nat, c: nat, i: nat, j: nat, k: nat)
    requires r < 4 && c < 4 && mixed == MixColumns(m)
    requires AreNext(r, i, j, k)
    ensures IsMatrixRow(mixed[r][c], m[r][c], m[i][c], m[j][c], m[k][c])
  {
    MixedFrom(m, mixed, r, c, i, j, k);
    FirstRow(m[r][c], m[i][c], m[j][c], m[k][c]);
  }

  lemma MixedAndKeyed(m: Matrix, e: byte, key: byte, r: nat, c: nat, i: nat, j: nat, k: nat)
    requires r < 4 && c < 4 && e == MixColumns(m)[r][c] ^ key
    requires AreNext(r, i, j, k)
    ensures IsKeyedRow(e, key, m[r][c], m[i][c], m[j][c], m[k][c])
  {
    var mixed := MixColumns(m);
    RowOfMixed(m, mixed, r, c, i, j, k);
    KeyedRow(e, mixed[r][c], key, m[r][c], m[i][c], m[j][c], m[k][c]);
  }

  lemma MixedEntryFrom(m: Matrix, e: byte, key: byte, r: nat, c: nat, w: byte, x: byte, y: byte, z: byte)
    requires r < 4 && c < 4 && e == MixColumns(m)[r][c] ^ key
    requires w == m[r][c] && x == m[(r + 1) % 4][c] && y == m[(r + 2) % 4][c] && z == m[(r + 3) % 4][c]
    ensures IsKeyedRow(e, key, w, x, y, z)
  {
    MixedAndKeyed(m, e, key, r, c, (r + 1) % 4, (r + 2) % 4, (r + 3) % 4);
  }

  lemma MixingRound(m: Matrix, words: Schedule, round: nat, r: nat, c: nat)
    requires 1 <= round <= 9 && r < 4 && c < 4
    ensures MixedEntry(m, words, Round(m, words, round), round, r, c)
  {
    var n, shifted := Round(m, words, round), ShiftRows(SubBytes(m));
    var key := SumAt(n, MixColumns(shifted), words, round, r, c);
    ShiftedAndSubstituted(m, r, c);
    ShiftedAndSubstituted(m, (r + 1) % 4, c);
    ShiftedAndSubstituted(m, (r + 2) % 4, c);
    ShiftedAndSubstituted(m, (r + 3) % 4, c);
    MixedEntryFrom(shifted, n[r][c], key, r, c, Moved(m, r, c), Moved(m, (r + 1) % 4, c), Moved(m, (r + 2) % 4, c),
                   Moved(m, (r + 3) % 4, c));
  }

  lemma FinalRound(m: Matrix, words: Schedule, r: nat, c: nat)
    requires r < 4 && c < 4
    ensures LastEntry(m, words, Round(m, words, 10), r, c)
  {
    KeyAdded(ShiftRows(SubBytes(m)), words, 10, r, c);
    ShiftedAndSubstituted(m, r, c);
  }

  lemma OuterRounds(b: Block, words: Schedule, s: seq<Matrix>, r: nat, c: nat)
    requires AreStates(s, words) && s[0] == AddRoundKey(ToMatrix(b), words, 0) && r < 4 && c < 4
    ensures OuterEntries(b, words, s, r, c)
  {
    KeyAdded(ToMatrix(b), words, 0, r, c);
    FinalRound(s[9], words, r, c);
  }

  lemma InnerRound(words: Schedule, s: seq<Matrix>, k: nat, r: nat, c: nat)
    requires AreStates(s, words) && 1 <= k <= 9 && r < 4 && c < 4
    ensures MixedEntryOf(s, words, k, r, c)
  {
    MixingRound(s[k - 1], words, k, r, c);
  }

  lemma EntriesOfText(m: Matrix, k: nat)
    requires k < 16
    ensures FromMatrix(m)[k] == m[k % 4][k / 4]
  {
  }

  /**
   The ciphertext is read column by column from the last of the eleven states.
   */
  lemma EncryptBlockByEntries(b: Block, words: Schedule) returns (s: seq<Matrix>)
    ensures CipherStates(b, words, s)
    ensures forall k :: 0 <= k < 16 ==> EncryptBlock(b, words)[k] == s[10][k % 4][k / 4]
  {
    s := EncryptorStates(ToMatrix(b), words);
    forall r, c | 0 <= r < 4 && 0 <= c < 4
      ensures OuterEntries(b, words, s, r, c)
    {
      OuterRounds(b, words, s, r, c);
    }
    forall k, r, c | 1 <= k <= 9 && 0 <= r < 4 && 0 <= c < 4
      ensures MixedEntryOf(s, words, k, r, c)
    {
      InnerRound(words, s, k, r, c);
    }
    forall k | 0 <= k < 16
      ensures EncryptBlock(b, words)[k] == s[10][k % 4][k / 4]
    {
      EntriesOfText(s[10], k);
    }
  }

  // ---------- The round keys ----------

  ghost predicate Agree(v: Schedule, w: Schedule, lo: nat, hi: nat) {
    hi <= SCHEDULE_WORDS && forall i :: lo <= i < hi ==> v[i] == w[i]
  }

  // The rounds under one schedule, as steps.
  function Step(words: Schedule): (Matrix, nat) -> Matrix {
    (m: Matrix, k: nat) => if 1 <= k <= ROUNDS then Round(m, words, k) else m
  }

  lemma StatesAreRun(states: seq<Matrix>, words: Schedule)
    requires AreStates(states, words)
    ensures RunOf(states, Step(words))
  {
  }

  lemma SameKeyAdded(m: Matrix, v: Schedule, w: Schedule, round: nat)
    requires round <= ROUNDS && Agree(v, w, 4 * round, 4 * round + 4)
    ensures AddRoundKey(m, v, round) == AddRoundKey(m, w, round)
  {
    SameEntries(AddRoundKey(m, v, round), AddRoundKey(m, w, round));
  }

  lemma SameRound(m: Matrix, v: Schedule, w: Schedule, round: nat)
    requires 1 <= round <= ROUNDS && Agree(v, w, 4 * round, 4 * round + 4)
    ensures Round(m, v, round) == Round(m, w, round)
  {
    var shifted := ShiftRows(SubBytes(m));
    SameKeyAdded(if round < ROUNDS then MixColumns(shifted) else shifted, v, w, round);
  }

  lemma SameKeysSameStep(v: Schedule, w: Schedule, round: nat)
    requires 1 <= round <= ROUNDS && Agree(v, w, 4 * round, 4 * round + 4)
    ensures SameStep(Step(v), Step(w), round)
  {
    forall m: Matrix
      ensures Step(v)(m, round) == Step(w)(m, round)
    {
      SameRound(m, v, w, round);
    }
  }

  lemma StepIsInjective(words: Schedule, round: nat)
    requires 1 <= round <= ROUNDS
    ensures Injective(Step(words), round)
  {
    forall m: Matrix, n: Matrix | Step(words)(m, round) == Step(words)(n, round)
      ensures m == n
    {
      InvRoundUndoes(m, words, round);
      InvRoundUndoes(n, words, round);
    }
  }

  lemma XorInjective(x: byte, a: byte, b: byte)
    requires x ^ a == x ^ b
    ensures a == b
  {
    XorTwice(a, x);
    XorTwice(b, x);
  }

  function Xor(a: byte, b: byte): byte {
    a ^ b
  }

  lemma XorLeftCancels()
    ensures LeftCancels(Xor)
  {
    forall x, a, b | Xor(x, a) == Xor(x, b)
      ensures a == b
    {
      XorInjective(x, a, b);
    }
  }

  function RoundKey(words: Schedule, round: nat): Matrix
    requires round <= ROUNDS
  {
    seq(4, r requires 0 <= r < 4 => seq(4, c requires 0 <= c < 4 => KeyByte(words[4 * round + c], r)))
  }

  lemma AddRoundKeyCombines(m: Matrix, words: Schedule, round: nat)
    requires round <= ROUNDS
    ensures IsCombined(Xor, AddRoundKey(m, words, round), m, RoundKey(words, round))
  {
  }

  // Equal round keys have equal words.
  lemma WordsFromRoundKey(v: Schedule, w: Schedule, round: nat, c: nat)
    requires round <= ROUNDS && RoundKey(v, round) == RoundKey(w, round) && c < 4
    ensures v[4 * round + c] == w[4 * round + c]
  {
    var k := RoundKey(v, round);
    assert k[0][c] == KeyByte(v[4 * round + c], 0) == KeyByte(w[4 * round + c], 0);
    assert k[1][c] == KeyByte(v[4 * round + c], 1) == KeyByte(w[4 * round + c], 1);
    assert k[2][c] == KeyByte(v[4 * round + c], 2) == KeyByte(w[4 * round + c], 2);
    assert k[3][c] == KeyByte(v[4 * round + c], 3) == KeyByte(w[4 * round + c], 3);
    KeySchedule.WordOfBytes(v[4 * round + c]);
    KeySchedule.WordOfBytes(w[4 * round + c]);
  }

  // Equal sums come from equal keys.
  lemma KeyFromSum(n: Matrix, m: Matrix, v: Schedule, w: Schedule, round: nat)
    requires round <= ROUNDS && n == AddRoundKey(m, v, round) && n == AddRoundKey(m, w, round)
    ensures Agree(v, w, 4 * round, 4 * round + 4)
  {
    XorLeftCancels();
    AddRoundKeyCombines(m, v, round);
    AddRoundKeyCombines(m, w, round);
    SameSummand(Xor, n, m, RoundKey(v, round), RoundKey(w, round));
    forall i | 4 * round <= i < 4 * round + 4
      ensures v[i] == w[i]
    {
      WordsFromRoundKey(v, w, round, i - 4 * round);
    }
  }

  lemma KeyFromRound(m: Matrix, v: Schedule, w: Schedule, round: nat)
    requires 1 <= round <= ROUNDS && Round(m, v, round) == Round(m, w, round)
    ensures Agree(v, w, 4 * round, 4 * round + 4)
  {
    var shifted := ShiftRows(SubBytes(m));
    KeyFromSum(Round(m, v, round), if round < ROUNDS then MixColumns(shifted) else shifted, v, w, round);
  }

  lemma KeyFromStates(s: seq<Matrix>, t: seq<Matrix>, m: Matrix, v: Schedule, w: Schedule, round: nat)
    requires AreStates(s, v) && AreStates(t, w) && s[0] == AddRoundKey(m, v, 0) && t[0] == AddRoundKey(m, w, 0)
    requires round <= ROUNDS && s[round] == t[round] && (round > 0 ==> s[round - 1] == t[round - 1])
    ensures Agree(v, w, 4 * round, 4 * round + 4)
  {
    if round == 0 {
      KeyFromSum(s[0], m, v, w, 0);
    } else {
      KeyFromRound(s[round - 1], v, w, round);
    }
  }

  // What the schedules agree on makes their states agree, from the first state up and from the last one down.
  lemma StatesAgree(s: seq<Matrix>, t: seq<Matrix>, m: Matrix, v: Schedule, w: Schedule, round: nat)
    requires AreStates(s, v) && AreStates(t, w) && s[0] == AddRoundKey(m, v, 0) && t[0] == AddRoundKey(m, w, 0)
    requires round <= ROUNDS && Agree(v, w, 0, 4 * round)
    ensures round > 0 ==> s[round - 1] == t[round - 1]
    ensures Agree(v, w, 4 * round + 4, SCHEDULE_WORDS) && s[ROUNDS] == t[ROUNDS] ==> s[round] == t[round]
  {
    StatesAreRun(s, v);
    StatesAreRun(t, w);
    if round > 0 {
      SameKeyAdded(m, v, w, 0);
      forall k | 1 <= k < round
        ensures SameStep(Step(v), Step(w), k)
      {
        SameKeysSameStep(v, w, k);
      }
      SameUpTo(s, t, Step(v), Step(w), round - 1);
    }
    if Agree(v, w, 4 * round + 4, SCHEDULE_WORDS) && s[ROUNDS] == t[ROUNDS] {
      forall k | round < k < |s|
        ensures SameStep(Step(v), Step(w), k) && Injective(Step(v), k)
      {
        SameKeysSameStep(v, w, k);
        StepIsInjective(v, k);
      }
      SameDownTo(s, t, Step(v), Step(w), round);
    }
  }

  /**
   Every round key counts: two schedules that differ in the four words of one round only, whichever it is, encrypt
   every block differently.
   */
  lemma EveryRoundKeyCounts(b: Block, v: Schedule, w: Schedule, round: nat)
    requires round <= ROUNDS && Agree(v, w, 0, 4 * round) && Agree(v, w, 4 * round + 4, SCHEDULE_WORDS)
    ensures EncryptBlock(b, v) == EncryptBlock(b, w) <==> v == w
  {
    if EncryptBlock(b, v) == EncryptBlock(b, w) {
      var m := ToMatrix(b);
      var s := EncryptorStates(m, v);
      var t := EncryptorStates(m, w);
      MatrixRoundTrip(b, s[ROUNDS]);
      MatrixRoundTrip(b, t[ROUNDS]);
      StatesAgree(s, t, m, v, w, round);
      KeyFromStates(s, t, m, v, w, round);
      SameWords(v, w, 4 * round);
    }
  }

  lemma SameWords(v: Schedule, w: Schedule, i: nat)
    requires Agree(v, w, 0, i) && Agree(v, w, i, i + 4) && Agree(v, w, i + 4, SCHEDULE_WORDS)
    ensures v == w
  {
  }

  // The same for decryption: different plaintexts, whichever round key differs.
  lemma EveryRoundKeyCountsBackwards(b: Block, v: Schedule, w: Schedule, round: nat)
    requires round <= ROUNDS && Agree(v, w, 0, 4 * round) && Agree(v, w, 4 * round + 4, SCHEDULE_WORDS)
    ensures DecryptBlock(b, v) == DecryptBlock(b, w) <==> v == w
  {
    if DecryptBlock(b, v) == DecryptBlock(b, w) {
      EncryptUndoesDecrypt(b, v);
      EncryptUndoesDecrypt(b, w);
      EveryRoundKeyCounts(DecryptBlock(b, v), v, w, round);
    }
  }

  lemma XorDifference(x: byte, a: byte, b: byte)
    ensures (x ^ a) ^ (x ^ b) == a ^ b
  {
  }

  // If only the last round key differs, the ciphertexts differ by exactly the difference of its bytes.
  lemma LastRoundKeyIsAdded(b: Block, v: Schedule, w: Schedule, k: nat)
    requires Agree(v, w, 0, 40) && k < 16
    ensures EncryptBlock(b, v)[k] ^ EncryptBlock(b, w)[k] ==
            KeyByte(v[40 + k / 4], k % 4) ^ KeyByte(w[40 + k / 4], k % 4)
  {
    var m := ToMatrix(b);
    var s := EncryptorStates(m, v);
    var t := EncryptorStates(m, w);
    StatesAgree(s, t, m, v, w, 10);
    FinalRound(s[9], v, k % 4, k / 4);
    FinalRound(t[9], w, k % 4, k / 4);
    XorDifference(Moved(s[9], k % 4, k / 4), KeyByte(v[40 + k / 4], k % 4), KeyByte(w[40 + k / 4], k % 4));
  }
}

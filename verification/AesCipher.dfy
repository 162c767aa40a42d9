/**
 The AES-128 block cipher and its inverse as functions on the state matrix (sections 5.1 and 5.3 of FIPS 197).
 */
module AesCipher {
  import opened Gf256
  import opened SubstitutionBoxes
  import opened MixColumnsMatrix

  type word = bv32

  const ROUNDS: nat := 10
  const SCHEDULE_WORDS: nat := 44

  type Schedule = w: seq<word> | |w| == SCHEDULE_WORDS witness seq(SCHEDULE_WORDS, _ => 0)

  // The state, as four rows of four bytes.
  predicate IsMatrix(m: seq<seq<byte>>) {
    |m| == 4 && forall r :: 0 <= r < 4 ==> |m[r]| == 4
  }

  type Matrix = m: seq<seq<byte>> | IsMatrix(m)
    witness [[0, 0, 0, 0], [0, 0, 0, 0], [0, 0, 0, 0], [0, 0, 0, 0]]

  lemma SameEntries(m: Matrix, n: Matrix)
    requires forall r, c :: 0 <= r < 4 && 0 <= c < 4 ==> m[r][c] == n[r][c]
    ensures m == n
  {
    forall r | 0 <= r < 4
      ensures m[r] == n[r]
    {
    }
  }

  // ---------- The steps of a round ----------

  // Byte j of a key word, most significant first: the word is shifted right by 8 * (3 - j).
  function KeyByte(w: word, j: nat): byte
    requires j < 4
  {
    if j == 0 then ((w >> 24) & 0xff) as byte
    else if j == 1 then ((w >> 16) & 0xff) as byte
    else if j == 2 then ((w >> 8) & 0xff) as byte
    else (w & 0xff) as byte
  }

  function AddRoundKey(m: Matrix, words: Schedule, round: nat): Matrix
    requires round <= ROUNDS
  {
    seq(4, r requires 0 <= r < 4 =>
      seq(4, c requires 0 <= c < 4 => m[r][c] ^ KeyByte(words[4 * round + c], r)))
  }

  function SubBytes(m: Matrix): Matrix {
    seq(4, r requires 0 <= r < 4 => seq(4, c requires 0 <= c < 4 => Sbox(m[r][c])))
  }

  function InvSubBytes(m: Matrix): Matrix {
    seq(4, r requires 0 <= r < 4 => seq(4, c requires 0 <= c < 4 => InvSbox(m[r][c])))
  }

  // Column c, moved k places to the right around the row.
  function Right(c: nat, k: nat): (d: nat)
    requires c < 4 && k < 4
    ensures d < 4
  {
    if c + k < 4 then c + k else c + k - 4
  }

  function Left(c: nat, k: nat): (d: nat)
    requires c < 4 && k < 4
    ensures d < 4 && Right(d, k) == c
  {
    if c >= k then c - k else c + 4 - k
  }

  function ShiftRows(m: Matrix): Matrix {
    seq(4, r requires 0 <= r < 4 => seq(4, c requires 0 <= c < 4 => m[r][Right(c, r)]))
  }

  function InvShiftRows(m: Matrix): Matrix {
    seq(4, r requires 0 <= r < 4 => seq(4, c requires 0 <= c < 4 => m[r][Left(c, r)]))
  }

  // Entry r of a mixed column: the matrix row is rotated by r places.
  function Mixed(r: nat, a: byte, b: byte, c: byte, d: byte): byte
    requires r < 4
  {
    if r == 0 then MixEntry(a, b, c, d) else if r == 1 then MixEntry(b, c, d, a)
    else if r == 2 then MixEntry(c, d, a, b) else MixEntry(d, a, b, c)
  }

  function Unmixed(r: nat, a: byte, b: byte, c: byte, d: byte): byte
    requires r < 4
  {
    if r == 0 then InvMixEntry(a, b, c, d) else if r == 1 then InvMixEntry(b, c, d, a)
    else if r == 2 then InvMixEntry(c, d, a, b) else InvMixEntry(d, a, b, c)
  }

  function MixColumns(m: Matrix): Matrix {
    seq(4, r requires 0 <= r < 4 => seq(4, c requires 0 <= c < 4 => Mixed(r, m[0][c], m[1][c], m[2][c], m[3][c])))
  }

  function InvMixColumns(m: Matrix): Matrix {
    seq(4, r requires 0 <= r < 4 => seq(4, c requires 0 <= c < 4 => Unmixed(r, m[0][c], m[1][c], m[2][c], m[3][c])))
  }

  // ---------- Each step is undone ----------

  lemma XorTwice(a: byte, k: byte)
    ensures (a ^ k) ^ k == a
  {
  }

  lemma AddRoundKeyUndoes(m: Matrix, words: Schedule, round: nat)
    requires round <= ROUNDS
    ensures AddRoundKey(AddRoundKey(m, words, round), words, round) == m
  {
    var n := AddRoundKey(m, words, round);
    forall r, c | 0 <= r < 4 && 0 <= c < 4
      ensures AddRoundKey(n, words, round)[r][c] == m[r][c]
    {
      XorTwice(m[r][c], KeyByte(words[4 * round + c], r));
    }
    SameEntries(AddRoundKey(n, words, round), m);
  }

  lemma InvSubBytesUndoes(m: Matrix)
    ensures InvSubBytes(SubBytes(m)) == m
  {
    forall r, c | 0 <= r < 4 && 0 <= c < 4
      ensures InvSubBytes(SubBytes(m))[r][c] == m[r][c]
    {
      SboxesInvert(m[r][c]);
    }
    SameEntries(InvSubBytes(SubBytes(m)), m);
  }

  lemma SubBytesUndoes(m: Matrix)
    ensures SubBytes(InvSubBytes(m)) == m
  {
    forall r, c | 0 <= r < 4 && 0 <= c < 4
      ensures SubBytes(InvSubBytes(m))[r][c] == m[r][c]
    {
      SboxesInvert(m[r][c]);
    }
    SameEntries(SubBytes(InvSubBytes(m)), m);
  }

  lemma InvShiftRowsUndoes(m: Matrix)
    ensures InvShiftRows(ShiftRows(m)) == m
  {
    forall r, c | 0 <= r < 4 && 0 <= c < 4
      ensures InvShiftRows(ShiftRows(m))[r][c] == m[r][c]
    {
      assert Right(Left(c, r), r) == c;
    }
    SameEntries(InvShiftRows(ShiftRows(m)), m);
  }

  lemma ShiftRowsUndoes(m: Matrix)
    ensures ShiftRows(InvShiftRows(m)) == m
  {
    forall r, c | 0 <= r < 4 && 0 <= c < 4
      ensures ShiftRows(InvShiftRows(m))[r][c] == m[r][c]
    {
      assert Left(Right(c, r), r) == c;
    }
    SameEntries(ShiftRows(InvShiftRows(m)), m);
  }

  lemma UnmixedUndoesMixed(r: nat, a: byte, b: byte, c: byte, d: byte)
    requires r < 4
    ensures Unmixed(r, Mixed(0, a, b, c, d), Mixed(1, a, b, c, d), Mixed(2, a, b, c, d), Mixed(3, a, b, c, d))
         == if r == 0 then a else if r == 1 then b else if r == 2 then c else d
  {
    if r == 0 {
      InvMixUndoesMix(a, b, c, d);
    } else if r == 1 {
      InvMixUndoesMix(b, c, d, a);
    } else if r == 2 {
      InvMixUndoesMix(c, d, a, b);
    } else {
      InvMixUndoesMix(d, a, b, c);
    }
  }

  lemma MixedAt(m: Matrix, r: nat, c: nat)
    requires r < 4 && c < 4
    ensures MixColumns(m)[r][c] == Mixed(r, m[0][c], m[1][c], m[2][c], m[3][c])
    ensures InvMixColumns(m)[r][c] == Unmixed(r, m[0][c], m[1][c], m[2][c], m[3][c])
  {
  }

  lemma InvMixColumnsUndoesAt(m: Matrix, n: Matrix, r: nat, c: nat)
    requires r < 4 && c < 4 && n == MixColumns(m)
    ensures InvMixColumns(n)[r][c] == m[r][c]
  {
    MixedAt(m, 0, c);
    MixedAt(m, 1, c);
    MixedAt(m, 2, c);
    MixedAt(m, 3, c);
    MixedAt(n, r, c);
    UnmixedUndoesMixed(r, m[0][c], m[1][c], m[2][c], m[3][c]);
  }

  lemma InvMixColumnsUndoes(m: Matrix)
    ensures InvMixColumns(MixColumns(m)) == m
  {
    forall r, c | 0 <= r < 4 && 0 <= c < 4
      ensures InvMixColumns(MixColumns(m))[r][c] == m[r][c]
    {
      InvMixColumnsUndoesAt(m, MixColumns(m), r, c);
    }
    SameEntries(InvMixColumns(MixColumns(m)), m);
  }

  lemma MixedUndoesUnmixed(r: nat, a: byte, b: byte, c: byte, d: byte)
    requires r < 4
    ensures Mixed(r, Unmixed(0, a, b, c, d), Unmixed(1, a, b, c, d), Unmixed(2, a, b, c, d), Unmixed(3, a, b, c, d))
         == if r == 0 then a else if r == 1 then b else if r == 2 then c else d
  {
    if r == 0 {
      MixUndoesInvMix(a, b, c, d);
    } else if r == 1 {
      MixUndoesInvMix(b, c, d, a);
    } else if r == 2 {
      MixUndoesInvMix(c, d, a, b);
    } else {
      MixUndoesInvMix(d, a, b, c);
    }
  }

  lemma MixColumnsUndoesAt(m: Matrix, n: Matrix, r: nat, c: nat)
    requires r < 4 && c < 4 && n == InvMixColumns(m)
    ensures MixColumns(n)[r][c] == m[r][c]
  {
    MixedAt(m, 0, c);
    MixedAt(m, 1, c);
    MixedAt(m, 2, c);
    MixedAt(m, 3, c);
    MixedAt(n, r, c);
    MixedUndoesUnmixed(r, m[0][c], m[1][c], m[2][c], m[3][c]);
  }

  lemma MixColumnsUndoes(m: Matrix)
    ensures MixColumns(InvMixColumns(m)) == m
  {
    forall r, c | 0 <= r < 4 && 0 <= c < 4
      ensures MixColumns(InvMixColumns(m))[r][c] == m[r][c]
    {
      MixColumnsUndoesAt(m, InvMixColumns(m), r, c);
    }
    SameEntries(MixColumns(InvMixColumns(m)), m);
  }

  // ---------- Rounds ----------

  // The encryptor's round; the last one leaves MixColumns out.
  function Round(m: Matrix, words: Schedule, round: nat): Matrix
    requires 1 <= round <= ROUNDS
  {
    var shifted := ShiftRows(SubBytes(m));
    AddRoundKey(if round < ROUNDS then MixColumns(shifted) else shifted, words, round)
  }

  // The decryptor's round.
  function InvRound(m: Matrix, words: Schedule, round: nat): Matrix
    requires 1 <= round <= ROUNDS
  {
    var added := AddRoundKey(m, words, round);
    InvSubBytes(InvShiftRows(if round < ROUNDS then InvMixColumns(added) else added))
  }

  lemma InvRoundUndoes(m: Matrix, words: Schedule, round: nat)
    requires 1 <= round <= ROUNDS
    ensures InvRound(Round(m, words, round), words, round) == m
  {
    var shifted := ShiftRows(SubBytes(m));
    InvSubBytesUndoes(m);
    InvShiftRowsUndoes(SubBytes(m));
    InvMixColumnsUndoes(shifted);
    AddRoundKeyUndoes(if round < ROUNDS then MixColumns(shifted) else shifted, words, round);
  }

  lemma RoundUndoes(m: Matrix, words: Schedule, round: nat)
    requires 1 <= round <= ROUNDS
    ensures Round(InvRound(m, words, round), words, round) == m
  {
    var added := AddRoundKey(m, words, round);
    var unmixed := if round < ROUNDS then InvMixColumns(added) else added;
    SubBytesUndoes(InvShiftRows(unmixed));
    ShiftRowsUndoes(unmixed);
    MixColumnsUndoes(added);
    AddRoundKeyUndoes(m, words, round);
  }

  // The encryptor's state after a round, counting up from the initial key addition.
  function Encrypted(m: Matrix, words: Schedule, round: nat): Matrix
    requires round <= ROUNDS
    decreases round, m, words
  {
    if round == 0 then AddRoundKey(m, words, 0)
    else Round(Encrypted(m, words, round - 1), words, round)
  }

  // The decryptor's state after a round, counting down from the last one.
  function Decrypted(m: Matrix, words: Schedule, round: nat): Matrix
    requires 1 <= round <= ROUNDS
    decreases ROUNDS - round, m, words
  {
    InvRound(if round == ROUNDS then m else Decrypted(m, words, round + 1), words, round)
  }

  lemma DecryptedStep(e: Matrix, words: Schedule, round: nat, before: Matrix)
    requires 1 <= round <= ROUNDS
    requires Round(before, words, round) == if round == ROUNDS then e else Decrypted(e, words, round + 1)
    ensures Decrypted(e, words, round) == before
  {
    InvRoundUndoes(before, words, round);
  }

  // Do the states follow each other by the encryptor's rounds?
  ghost predicate AreStates(states: seq<Matrix>, words: Schedule) {
    && |states| == ROUNDS + 1
    && forall r :: 1 <= r <= ROUNDS ==> states[r] == Round(states[r - 1], words, r)
  }

  // The decryptor walks back through the encryptor's states, round by round.
  lemma {:induction false} DecryptedRetraces(states: seq<Matrix>, words: Schedule, round: nat)
    requires AreStates(states, words) && 1 <= round <= ROUNDS
    ensures Decrypted(states[ROUNDS], words, round) == states[round - 1]
    decreases ROUNDS - round
  {
    if round < ROUNDS {
      DecryptedRetraces(states, words, round + 1);
    }
    DecryptedStep(states[ROUNDS], words, round, states[round - 1]);
  }

  lemma EncryptorStates(m: Matrix, words: Schedule) returns (states: seq<Matrix>)
    ensures AreStates(states, words)
    ensures states[0] == AddRoundKey(m, words, 0) && states[ROUNDS] == Encrypted(m, words, ROUNDS)
  {
    states := seq(ROUNDS + 1, r requires 0 <= r <= ROUNDS => Encrypted(m, words, r));
  }

  lemma DecryptorStates(m: Matrix, words: Schedule) returns (states: seq<Matrix>)
    ensures |states| == ROUNDS + 2 && states[ROUNDS + 1] == m && states[1] == Decrypted(m, words, 1)
    ensures forall r :: 1 <= r <= ROUNDS ==> states[r] == InvRound(states[r + 1], words, r)
  {
    states := [m] + seq(ROUNDS, r requires 0 <= r < ROUNDS => Decrypted(m, words, r + 1)) + [m];
  }

  // The encryptor walks up through the decryptor's states, round by round.
  lemma {:induction false} EncryptedRetraces(states: seq<Matrix>, words: Schedule, m: Matrix, round: nat)
    requires |states| == ROUNDS + 2 && m == AddRoundKey(states[1], words, 0) && round <= ROUNDS
    requires forall r :: 1 <= r <= ROUNDS ==> states[r] == InvRound(states[r + 1], words, r)
    ensures Encrypted(m, words, round) == states[round + 1]
    decreases round
  {
    if round == 0 {
      AddRoundKeyUndoes(states[1], words, 0);
    } else {
      EncryptedRetraces(states, words, m, round - 1);
      RoundUndoes(states[round + 1], words, round);
    }
  }

  // ---------- Blocks ----------

  type Block = b: seq<byte> | |b| == 16 witness [0, 0, 0, 0, 0, 0, 0, 0, 0, 0, 0, 0, 0, 0, 0, 0]

  // A block fills the state column by column.
  function ToMatrix(b: Block): Matrix {
    seq(4, r requires 0 <= r < 4 => seq(4, c requires 0 <= c < 4 => b[r + 4 * c]))
  }

  function FromMatrix(m: Matrix): Block {
    seq(16, k requires 0 <= k < 16 => m[k % 4][k / 4])
  }

  lemma MatrixRoundTrip(b: Block, m: Matrix)
    ensures FromMatrix(ToMatrix(b)) == b
    ensures ToMatrix(FromMatrix(m)) == m
  {
    SameEntries(ToMatrix(FromMatrix(m)), m);
  }

  function EncryptBlock(b: Block, words: Schedule): Block {
    FromMatrix(Encrypted(ToMatrix(b), words, ROUNDS))
  }

  function DecryptBlock(b: Block, words: Schedule): Block {
    FromMatrix(AddRoundKey(Decrypted(ToMatrix(b), words, 1), words, 0))
  }

  // Decryption undoes encryption, for every block and every schedule of 44 words.
  lemma DecryptUndoesEncrypt(b: Block, words: Schedule)
    ensures DecryptBlock(EncryptBlock(b, words), words) == b
  {
    var m := ToMatrix(b);
    MatrixRoundTrip(b, Encrypted(m, words, ROUNDS));
    var states := EncryptorStates(m, words);
    DecryptedRetraces(states, words, 1);
    AddRoundKeyUndoes(m, words, 0);
  }

  // The other order: encryption undoes decryption.
  lemma EncryptUndoesDecrypt(b: Block, words: Schedule)
    ensures EncryptBlock(DecryptBlock(b, words), words) == b
  {
    var e := ToMatrix(b);
    var states := DecryptorStates(e, words);
    var m := AddRoundKey(states[1], words, 0);
    MatrixRoundTrip(b, m);
    EncryptedRetraces(states, words, m, ROUNDS);
  }

  // Under every schedule, encryption is a permutation of the blocks: no two blocks collide, and every block is the
  // encryption of some block, namely of its decryption.
  lemma EncryptionPermutesBlocks(words: Schedule)
    ensures forall a: Block, b: Block :: EncryptBlock(a, words) == EncryptBlock(b, words) ==> a == b
    ensures forall c: Block :: EncryptBlock(DecryptBlock(c, words), words) == c
  {
    forall a: Block, b: Block | EncryptBlock(a, words) == EncryptBlock(b, words)
      ensures a == b
    {
      DecryptUndoesEncrypt(a, words);
      DecryptUndoesEncrypt(b, words);
    }
    forall c: Block
      ensures EncryptBlock(DecryptBlock(c, words), words) == c
    {
      EncryptUndoesDecrypt(c, words);
    }
  }
}

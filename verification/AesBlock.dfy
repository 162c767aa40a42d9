/**
 The two programs' block operations, which rewrite a 4x4 state in place, against the functions of AesCipher.
 */
module AesBlock {
  import opened Gf256
  import opened SubstitutionBoxes
  import opened MixColumnsMatrix
  import opened AesCipher

  ghost predicate IsState<T>(a: array2<T>) {
    a.Length0 == 4 && a.Length1 == 4
  }

  ghost function StateOf(a: array2<byte>): Matrix
    requires IsState(a)
    reads a
  {
    seq(4, r requires 0 <= r < 4 reads a => seq(4, c requires 0 <= c < 4 reads a => a[r, c]))
  }

  lemma StateIs(a: array2<byte>, m: Matrix)
    requires IsState(a) && forall r, c :: 0 <= r < 4 && 0 <= c < 4 ==> a[r, c] == m[r][c]
    ensures StateOf(a) == m
  {
    SameEntries(StateOf(a), m);
  }

  // ---------- The loops that the steps share ----------

  // Rewrite every entry on its own.
  method UpdateEntries<T>(state: array2<T>, f: (nat, nat, T) -> T)
    requires IsState(state)
    modifies state
    ensures forall r, c :: 0 <= r < 4 && 0 <= c < 4 ==> state[r, c] == f(r, c, old(state[r, c]))
  {
    for i := 0 to 4
      invariant forall r, c :: 0 <= r < 4 && 0 <= c < 4 ==>
        state[r, c] == if r < i then f(r, c, old(state[r, c])) else old(state[r, c])
    {
      for j := 0 to 4
        invariant forall r, c :: 0 <= r < 4 && 0 <= c < 4 ==>
          state[r, c] == if r < i || (r == i && c < j) then f(r, c, old(state[r, c])) else old(state[r, c])
      {
        state[i, j] := f(i, j, state[i, j]);
      }
    }
  }

  // Permute the entries through a temporary matrix, and copy it back.
  method PermuteRows<T(0)>(state: array2<T>, source: (nat, nat) -> nat)
    requires IsState(state) && forall r, c :: 0 <= r < 4 && 0 <= c < 4 ==> source(r, c) < 4
    modifies state
    ensures forall r, c :: 0 <= r < 4 && 0 <= c < 4 ==> state[r, c] == old(state[r, source(r, c)])
  {
    var temp := new T[4, 4];
    for i := 0 to 4
      invariant forall r, c :: 0 <= r < 4 && 0 <= c < 4 ==> state[r, c] == old(state[r, c])
      invariant forall r, c :: 0 <= r < i && 0 <= c < 4 ==> temp[r, c] == old(state[r, source(r, c)])
    {
      for j := 0 to 4
        invariant forall r, c :: 0 <= r < 4 && 0 <= c < 4 ==> state[r, c] == old(state[r, c])
        invariant forall r, c :: 0 <= r < 4 && 0 <= c < 4 && (r < i || (r == i && c < j)) ==>
          temp[r, c] == old(state[r, source(r, c)])
      {
        temp[i, j] := state[i, source(i, j)];
      }
    }
    CopyBack(state, temp);
  }

  method CopyBack<T>(state: array2<T>, temp: array2<T>)
    requires IsState(state) && IsState(temp) && state != temp
    modifies state
    ensures forall r, c :: 0 <= r < 4 && 0 <= c < 4 ==> state[r, c] == temp[r, c]
  {
    for i := 0 to 4
      invariant forall r, c :: 0 <= r < i && 0 <= c < 4 ==> state[r, c] == temp[r, c]
    {
      for j := 0 to 4
        invariant forall r, c :: 0 <= r < 4 && 0 <= c < 4 && (r < i || (r == i && c < j)) ==> state[r, c] == temp[r, c]
      {
        state[i, j] := temp[i, j];
      }
    }
  }

  // Rewrite every column as a whole.
  method UpdateColumns<T>(state: array2<T>, f: (nat, T, T, T, T) -> T)
    requires IsState(state)
    modifies state
    ensures forall r, c :: 0 <= r < 4 && 0 <= c < 4 ==>
              state[r, c] == f(r, old(state[0, c]), old(state[1, c]), old(state[2, c]), old(state[3, c]))
  {
    for j := 0 to 4
      invariant forall r, c :: 0 <= r < 4 && 0 <= c < 4 ==>
        state[r, c] == if c < j then f(r, old(state[0, c]), old(state[1, c]), old(state[2, c]), old(state[3, c]))
                       else old(state[r, c])
    {
      var s0 := state[0, j];
      var s1 := state[1, j];
      var s2 := state[2, j];
      var s3 := state[3, j];
      state[0, j] := f(0, s0, s1, s2, s3);
      state[1, j] := f(1, s0, s1, s2, s3);
      state[2, j] := f(2, s0, s1, s2, s3);
      state[3, j] := f(3, s0, s1, s2, s3);
    }
  }

  // ---------- Both programs ----------

  method AddStateRound(words: Schedule, state: array2<byte>, round: nat)
    requires IsState(state) && round <= ROUNDS
    modifies state
    ensures StateOf(state) == AddRoundKey(old(StateOf(state)), words, round)
  {
    UpdateEntries(state, (r: nat, c: nat, x: byte) =>
      if r < 4 && c < 4 then x ^ KeyByte(words[round * 4 + c], r) else x);
    StateIs(state, AddRoundKey(old(StateOf(state)), words, round));
  }

  // ---------- The encryptor ----------

  method SubBytesInPlace(state: array2<byte>)
    requires IsState(state)
    modifies state
    ensures StateOf(state) == SubBytes(old(StateOf(state)))
  {
    UpdateEntries(state, (r: nat, c: nat, x: byte) => Sbox(x));
    StateIs(state, SubBytes(old(StateOf(state))));
  }

  method ShiftRowsInPlace(state: array2<byte>)
    requires IsState(state)
    modifies state
    ensures StateOf(state) == ShiftRows(old(StateOf(state)))
  {
    PermuteRows(state, (i: nat, j: nat) => (j + i) % 4);
    StateIs(state, ShiftRows(old(StateOf(state))));
  }

  // Entry r of a column, as the loop body of mix_columns writes it.
  function MixedByDoubling(r: nat, s0: byte, s1: byte, s2: byte, s3: byte): byte {
    var s0x := XtimeByTest(s0);
    var s1x := XtimeByTest(s1);
    var s2x := XtimeByTest(s2);
    var s3x := XtimeByTest(s3);
    if r == 0 then s0x ^ (s1x ^ s1) ^ s2 ^ s3
    else if r == 1 then s0 ^ s1x ^ (s2x ^ s2) ^ s3
    else if r == 2 then s0 ^ s1 ^ s2x ^ (s3x ^ s3)
    else (s0x ^ s0) ^ s1 ^ s2 ^ s3x
  }

  lemma FirstByDoubling(a: byte, b: byte, c: byte, d: byte)
    ensures XtimeByTest(a) ^ (XtimeByTest(b) ^ b) ^ c ^ d == MixEntry(a, b, c, d)
  {
    XtimesAgree(a);
    XtimesAgree(b);
  }

  lemma DoublingIsMixed(r: nat, s0: byte, s1: byte, s2: byte, s3: byte)
    requires r < 4
    ensures MixedByDoubling(r, s0, s1, s2, s3) == Mixed(r, s0, s1, s2, s3)
  {
    FirstByDoubling(s0, s1, s2, s3);
    FirstByDoubling(s1, s2, s3, s0);
    FirstByDoubling(s2, s3, s0, s1);
    FirstByDoubling(s3, s0, s1, s2);
  }

  method MixColumnsInPlace(state: array2<byte>)
    requires IsState(state)
    modifies state
    ensures StateOf(state) == MixColumns(old(StateOf(state)))
  {
    ghost var before := StateOf(state);
    UpdateColumns(state, MixedByDoubling);
    forall r, c | 0 <= r < 4 && 0 <= c < 4
      ensures state[r, c] == MixColumns(before)[r][c]
    {
      DoublingIsMixed(r, before[0][c], before[1][c], before[2][c], before[3][c]);
      MixedAt(before, r, c);
    }
    StateIs(state, MixColumns(before));
  }

  // ---------- The decryptor ----------

  method InvSubBytesInPlace(state: array2<byte>)
    requires IsState(state)
    modifies state
    ensures StateOf(state) == InvSubBytes(old(StateOf(state)))
  {
    UpdateEntries(state, (r: nat, c: nat, x: byte) => InvSbox(x));
    StateIs(state, InvSubBytes(old(StateOf(state))));
  }

  method InvShiftRowsInPlace(state: array2<byte>)
    requires IsState(state)
    modifies state
    ensures StateOf(state) == InvShiftRows(old(StateOf(state)))
  {
    PermuteRows(state, (i: nat, j: nat) => if i < 4 then (j - i + 4) % 4 else j % 4);
    StateIs(state, InvShiftRows(old(StateOf(state))));
  }

  // The sum that the loop body of inv_mix_columns forms for one entry, with its four calls of mul.
  method UnmixedByProducts(a: byte, b: byte, c: byte, d: byte) returns (t: byte)
    ensures t == InvMixEntry(a, b, c, d)
  {
    var p := Mul(0x0e, a);
    var q := Mul(0x0b, b);
    var r := Mul(0x0d, c);
    var s := Mul(0x09, d);
    t := p ^ q ^ r ^ s;
  }

  method WriteColumn<T>(state: array2<T>, c: nat, temp: seq<T>)
    requires IsState(state) && c < 4 && |temp| == 4
    modifies state
    ensures forall r, d :: 0 <= r < 4 && 0 <= d < 4 ==> state[r, d] == if d == c then temp[r] else old(state[r, d])
  {
    for i := 0 to 4
      invariant forall r, d :: 0 <= r < 4 && 0 <= d < 4 ==>
        state[r, d] == if d == c && r < i then temp[r] else old(state[r, d])
    {
      state[i, c] := temp[i];
    }
  }

  // The sixteen products for one column, and the column they make.
  method UnmixColumn(state: array2<byte>, c: nat)
    requires IsState(state) && c < 4
    modifies state
    ensures forall r, d :: 0 <= r < 4 && 0 <= d < 4 && d != c ==> state[r, d] == old(state[r, d])
    ensures state[0, c] == InvMixEntry(old(state[0, c]), old(state[1, c]), old(state[2, c]), old(state[3, c]))
    ensures state[1, c] == InvMixEntry(old(state[1, c]), old(state[2, c]), old(state[3, c]), old(state[0, c]))
    ensures state[2, c] == InvMixEntry(old(state[2, c]), old(state[3, c]), old(state[0, c]), old(state[1, c]))
    ensures state[3, c] == InvMixEntry(old(state[3, c]), old(state[0, c]), old(state[1, c]), old(state[2, c]))
  {
    var s0, s1, s2, s3 := state[0, c], state[1, c], state[2, c], state[3, c];
    var t0 := UnmixedByProducts(s0, s1, s2, s3);
    var t1 := UnmixedByProducts(s1, s2, s3, s0);
    var t2 := UnmixedByProducts(s2, s3, s0, s1);
    var t3 := UnmixedByProducts(s3, s0, s1, s2);
    WriteColumn(state, c, [t0, t1, t2, t3]);
  }

  lemma UnmixedColumn(m: Matrix, c: nat)
    requires c < 4
    ensures var n := InvMixColumns(m);
            && n[0][c] == InvMixEntry(m[0][c], m[1][c], m[2][c], m[3][c])
            && n[1][c] == InvMixEntry(m[1][c], m[2][c], m[3][c], m[0][c])
            && n[2][c] == InvMixEntry(m[2][c], m[3][c], m[0][c], m[1][c])
            && n[3][c] == InvMixEntry(m[3][c], m[0][c], m[1][c], m[2][c])
  {
    MixedAt(m, 0, c);
    MixedAt(m, 1, c);
    MixedAt(m, 2, c);
    MixedAt(m, 3, c);
  }

  method InvMixColumnsInPlace(state: array2<byte>)
    requires IsState(state)
    modifies state
    ensures StateOf(state) == InvMixColumns(old(StateOf(state)))
  {
    ghost var before, after := StateOf(state), InvMixColumns(StateOf(state));
    for c := 0 to 4
      invariant forall r, d :: 0 <= r < 4 && 0 <= d < 4 ==> state[r, d] == if d < c then after[r][d] else before[r][d]
    {
      UnmixedColumn(before, c);
      UnmixColumn(state, c);
    }
    StateIs(state, after);
  }

  // ---------- Whole blocks ----------

  method LoadState<T(0)>(block: seq<T>) returns (state: array2<T>)
    requires |block| == 16
    ensures IsState(state) && fresh(state)
    ensures forall r, c :: 0 <= r < 4 && 0 <= c < 4 ==> state[r, c] == block[r + 4 * c]
  {
    state := new T[4, 4];
    for i := 0 to 4
      invariant forall r, c :: 0 <= r < i && 0 <= c < 4 ==> state[r, c] == block[r + 4 * c]
    {
      for j := 0 to 4
        invariant forall r, c :: 0 <= r < 4 && 0 <= c < 4 && (r < i || (r == i && c < j)) ==>
          state[r, c] == block[r + 4 * c]
      {
        state[i, j] := block[i + 4 * j];
      }
    }
  }

  // Write the state to sixteen places of a buffer, column by column.
  method StoreState<T>(state: array2<T>, buffer: array<T>, start: nat)
    requires IsState(state) && start + 16 <= buffer.Length
    modifies buffer
    ensures forall r, c :: 0 <= r < 4 && 0 <= c < 4 ==> buffer[start..start + 16][c * 4 + r] == state[r, c]
    ensures buffer[..start] == old(buffer[..start]) && buffer[start + 16..] == old(buffer[start + 16..])
  {
    for col := 0 to 4
      invariant forall r, c :: 0 <= r < 4 && 0 <= c < col ==> buffer[start + (c * 4 + r)] == state[r, c]
      invariant forall k :: 0 <= k < buffer.Length && (k < start || k >= start + 16) ==> buffer[k] == old(buffer[k])
    {
      for row := 0 to 4
        invariant forall r, c :: 0 <= r < 4 && 0 <= c < 4 && (c < col || (c == col && r < row)) ==>
          buffer[start + (c * 4 + r)] == state[r, c]
        invariant forall k :: 0 <= k < buffer.Length && (k < start || k >= start + 16) ==> buffer[k] == old(buffer[k])
      {
        buffer[start + (col * 4 + row)] := state[row, col];
      }
    }
  }

  lemma StoredBlock(m: Matrix, b: seq<byte>)
    requires |b| == 16 && forall r, c :: 0 <= r < 4 && 0 <= c < 4 ==> b[c * 4 + r] == m[r][c]
    ensures b == FromMatrix(m)
  {
    forall k | 0 <= k < 16
      ensures b[k] == FromMatrix(m)[k]
    {
      assert k == k / 4 * 4 + k % 4;
    }
  }

  // The body of the encryptor's round loop.
  method EncryptionRound(words: Schedule, state: array2<byte>, round: nat)
    requires IsState(state) && 1 <= round <= 10
    modifies state
    ensures StateOf(state) == Round(old(StateOf(state)), words, round)
  {
    SubBytesInPlace(state);
    ShiftRowsInPlace(state);
    if round < 10 {
      MixColumnsInPlace(state);
    }
    AddStateRound(words, state, round);
  }

  // The round that the decryptor does before its loop.
  method LastRoundFirst(words: Schedule, state: array2<byte>)
    requires IsState(state)
    modifies state
    ensures StateOf(state) == InvRound(old(StateOf(state)), words, 10)
  {
    AddStateRound(words, state, 10);
    InvShiftRowsInPlace(state);
    InvSubBytesInPlace(state);
  }

  // The body of the decryptor's round loop.
  method DecryptionRound(words: Schedule, state: array2<byte>, round: nat)
    requires IsState(state) && 1 <= round <= 9
    modifies state
    ensures StateOf(state) == InvRound(old(StateOf(state)), words, round)
  {
    AddStateRound(words, state, round);
    InvMixColumnsInPlace(state);
    InvShiftRowsInPlace(state);
    InvSubBytesInPlace(state);
  }

  method EncryptState(words: Schedule, state: array2<byte>)
    requires IsState(state)
    modifies state
    ensures StateOf(state) == Encrypted(old(StateOf(state)), words, ROUNDS)
  {
    ghost var states := EncryptorStates(StateOf(state), words);
    AddStateRound(words, state, 0);
    for round := 1 to 11
      invariant StateOf(state) == states[round - 1]
    {
      EncryptionRound(words, state, round);
    }
  }

  method AesEncrypt(block: Block, words: Schedule, ciphertext: array<byte>)
    requires ciphertext.Length == 16
    modifies ciphertext
    ensures ciphertext[..] == EncryptBlock(block, words)
  {
    var state := LoadState(block);
    StateIs(state, ToMatrix(block));
    EncryptState(words, state);
    StoreState(state, ciphertext, 0);
    StoredBlock(StateOf(state), ciphertext[0..16]);
    assert ciphertext[..] == ciphertext[0..16];
  }

  method DecryptState(words: Schedule, state: array2<byte>)
    requires IsState(state)
    modifies state
    ensures StateOf(state) == AddRoundKey(Decrypted(old(StateOf(state)), words, 1), words, 0)
  {
    ghost var states := DecryptorStates(StateOf(state), words);
    LastRoundFirst(words, state);
    for round := 10 downto 1
      invariant StateOf(state) == states[round]
    {
      DecryptionRound(words, state, round);
    }
    AddStateRound(words, state, 0);
  }

  // The block is written to its place in the buffer of all plaintext blocks.
  method AesDecrypt(block: Block, words: Schedule, plaintext: array<byte>, start: nat)
    requires start + 16 <= plaintext.Length
    modifies plaintext
    ensures plaintext[start..start + 16] == DecryptBlock(block, words)
    ensures plaintext[..start] == old(plaintext[..start]) && plaintext[start + 16..] == old(plaintext[start + 16..])
  {
    var state := LoadState(block);
    StateIs(state, ToMatrix(block));
    DecryptState(words, state);
    StoreState(state, plaintext, start);
    StoredBlock(StateOf(state), plaintext[start..start + 16]);
  }
}

/**
 Splitting a sequence into blocks of sixteen and treating each on its own.
 */
module Blocks {

  // Apply f to every whole block; what is left at the end is dropped.
  function MapBlocks<T>(f: seq<T> -> seq<T>, data: seq<T>): seq<T> {
    if |data| < 16 then [] else f(data[..16]) + MapBlocks(f, data[16..])
  }

  // f takes blocks to blocks, and g takes them back.
  ghost predicate UndoneAt<T>(f: seq<T> -> seq<T>, g: seq<T> -> seq<T>, block: seq<T>) {
    |block| == 16 ==> |f(block)| == 16 && g(f(block)) == block
  }

  ghost predicate Undone<T(!new)>(f: seq<T> -> seq<T>, g: seq<T> -> seq<T>) {
    forall block :: UndoneAt(f, g, block)
  }

  lemma MapBlocksCons<T>(f: seq<T> -> seq<T>, first: seq<T>, rest: seq<T>)
    requires |first| == 16
    ensures MapBlocks(f, first + rest) == f(first) + MapBlocks(f, rest)
  {
    assert (first + rest)[..16] == first && (first + rest)[16..] == rest;
  }

  // Treating the treated blocks gives the data back.
  lemma {:induction false} MapBlocksUndone<T(!new)>(f: seq<T> -> seq<T>, g: seq<T> -> seq<T>, data: seq<T>)
    requires Undone(f, g) && |data| % 16 == 0
    ensures |MapBlocks(f, data)| == |data| && MapBlocks(g, MapBlocks(f, data)) == data
  {
    if |data| >= 16 {
      var block, rest := data[..16], data[16..];
      assert UndoneAt(f, g, block);
      MapBlocksUndone(f, g, rest);
      MapBlocksCons(g, f(block), MapBlocks(f, rest));
      assert data == block + rest;
    }
  }

  // Block i of the result is block i of the data, treated.
  lemma {:induction false} MapBlocksAt<T(!new)>(f: seq<T> -> seq<T>, data: seq<T>, i: nat)
    requires forall block :: |block| == 16 ==> |f(block)| == 16
    requires |data| % 16 == 0 && 16 * i + 16 <= |data|
    ensures |MapBlocks(f, data)| == |data|
    ensures MapBlocks(f, data)[16 * i..16 * i + 16] == f(data[16 * i..16 * i + 16])
  {
    MapBlocksLength(f, data);
    if i > 0 {
      MapBlocksAt(f, data[16..], i - 1);
      assert data[16..][16 * (i - 1)..16 * (i - 1) + 16] == data[16 * i..16 * i + 16];
      var rest := MapBlocks(f, data[16..]);
      assert MapBlocks(f, data) == f(data[..16]) + rest;
      assert MapBlocks(f, data)[16 * i..16 * i + 16] == rest[16 * (i - 1)..16 * (i - 1) + 16];
    }
  }

  lemma {:induction false} MapBlocksLength<T(!new)>(f: seq<T> -> seq<T>, data: seq<T>)
    requires forall block :: |block| == 16 ==> |f(block)| == 16
    requires |data| % 16 == 0
    ensures |MapBlocks(f, data)| == |data|
  {
    if |data| >= 16 {
      MapBlocksLength(f, data[16..]);
    }
  }

  lemma {:induction false} MapBlocksAppend<T>(f: seq<T> -> seq<T>, data: seq<T>, block: seq<T>)
    requires |data| % 16 == 0 && |block| == 16
    ensures MapBlocks(f, data + block) == MapBlocks(f, data) + f(block)
  {
    if |data| == 0 {
      assert data + block == block + [];
      MapBlocksCons(f, block, []);
    } else {
      assert data + block == data[..16] + (data[16..] + block);
      MapBlocksAppend(f, data[16..], block);
      MapBlocksCons(f, data[..16], data[16..] + block);
    }
  }

  // One more treated block, behind the ones treated so far.
  lemma OneMoreBlock<T>(f: seq<T> -> seq<T>, data: seq<T>, i: nat, treated: seq<T>, next: seq<T>)
    requires 16 * i + 16 <= |data| && treated == MapBlocks(f, data[..16 * i]) && next == f(data[16 * i..16 * i + 16])
    ensures treated + next == MapBlocks(f, data[..16 * i + 16])
  {
    MapBlocksAppend(f, data[..16 * i], data[16 * i..16 * i + 16]);
    assert data[..16 * i + 16] == data[..16 * i] + data[16 * i..16 * i + 16];
  }

  method CopyBlock<T>(block: array<T>, buffer: array<T>, start: nat)
    requires block.Length == 16 && start + 16 <= buffer.Length && block != buffer
    modifies buffer
    ensures buffer[..start + 16] == old(buffer[..start]) + block[..]
  {
    for k := 0 to 16
      invariant buffer[..start + k] == old(buffer[..start]) + block[..k]
    {
      buffer[start + k] := block[k];
    }
  }

  // Writes one value to the given number of places from start on. An overrun is a place behind the buffer.
  method WriteRun<T>(buffer: array<T>, start: nat, count: nat, v: T) returns (overrun: bool)
    modifies buffer
    ensures forall k :: 0 <= k < buffer.Length ==>
              buffer[k] == if start <= k < start + count then v else old(buffer[k])
    ensures overrun <==> count > 0 && start + count > buffer.Length
  {
    overrun := false;
    for i := 0 to count
      invariant overrun <==> i > 0 && start + i > buffer.Length
      invariant forall k :: 0 <= k < buffer.Length ==>
        buffer[k] == if start <= k < start + i then v else old(buffer[k])
    {
      if start + i < buffer.Length {
        buffer[start + i] := v;
      } else {
        overrun := true;
      }
    }
  }
}

/**
 Text that spells every value with two characters.
 */
module PairCoding {

  function Spell<T>(digits: T -> (char, char), values: seq<T>): string {
    if values == [] then "" else [digits(values[0]).0, digits(values[0]).1] + Spell(digits, values[1..])
  }

  // An odd character at the end is dropped.
  function Read<T>(value: (char, char) -> T, text: string): seq<T> {
    if |text| < 2 then [] else [value(text[0], text[1])] + Read(value, text[2..])
  }

  lemma {:induction false} SpellAppend<T>(digits: T -> (char, char), values: seq<T>, v: T)
    ensures Spell(digits, values + [v]) == Spell(digits, values) + [digits(v).0, digits(v).1]
  {
    if values == [] {
      assert [v][1..] == [];
    } else {
      assert (values + [v])[1..] == values[1..] + [v];
      SpellAppend(digits, values[1..], v);
    }
  }

  lemma {:induction false} ReadAt<T>(value: (char, char) -> T, text: string, k: nat)
    requires 2 * k + 1 < |text|
    ensures k < |Read(value, text)| && Read(value, text)[k] == value(text[2 * k], text[2 * k + 1])
  {
    if k > 0 {
      ReadAt(value, text[2..], k - 1);
    }
  }

  lemma {:induction false} ReadLength<T>(value: (char, char) -> T, text: string)
    ensures |Read(value, text)| == |text| / 2
  {
    if |text| >= 2 {
      ReadLength(value, text[2..]);
    }
  }

  ghost predicate ReadsBackAt<T>(digits: T -> (char, char), value: (char, char) -> T, ok: char -> bool, v: T) {
    ok(digits(v).0) && ok(digits(v).1) && value(digits(v).0, digits(v).1) == v
  }

  ghost predicate ReadsBack<T(!new)>(digits: T -> (char, char), value: (char, char) -> T, ok: char -> bool) {
    forall v :: ReadsBackAt(digits, value, ok, v)
  }

  lemma {:induction false} SpellAt<T>(digits: T -> (char, char), values: seq<T>, i: nat)
    requires i < |values|
    ensures |Spell(digits, values)| == 2 * |values|
    ensures Spell(digits, values)[2 * i] == digits(values[i]).0
    ensures Spell(digits, values)[2 * i + 1] == digits(values[i]).1
  {
    SpellLength(digits, values[1..]);
    if i > 0 {
      SpellAt(digits, values[1..], i - 1);
    }
  }

  lemma {:induction false} SpellLength<T>(digits: T -> (char, char), values: seq<T>)
    ensures |Spell(digits, values)| == 2 * |values|
  {
    if values != [] {
      SpellLength(digits, values[1..]);
    }
  }

  // Reading back what was spelled.
  lemma {:induction false} SpellRead<T(!new)>(digits: T -> (char, char), value: (char, char) -> T, ok: char -> bool,
                                              values: seq<T>)
    requires ReadsBack(digits, value, ok)
    ensures var text := Spell(digits, values);
            |text| == 2 * |values| && (forall c :: c in text ==> ok(c)) && Read(value, text) == values
  {
    if values != [] {
      assert ReadsBackAt(digits, value, ok, values[0]);
      var rest := Spell(digits, values[1..]);
      assert Spell(digits, values)[2..] == rest;
      SpellRead(digits, value, ok, values[1..]);
    }
  }
}

/**
 Bytes as hexadecimal text.
 */
module Hexadecimal {
  import opened Gf256
  import opened PairCoding
  import opened Wrappers

  // The digit that %X prints for a value below 16.
  function Digit(n: byte): char {
    if n == 0 then '0' else if n == 1 then '1' else if n == 2 then '2' else if n == 3 then '3'
    else if n == 4 then '4' else if n == 5 then '5' else if n == 6 then '6' else if n == 7 then '7'
    else if n == 8 then '8' else if n == 9 then '9' else if n == 10 then 'A' else if n == 11 then 'B'
    else if n == 12 then 'C' else if n == 13 then 'D' else if n == 14 then 'E' else 'F'
  }

  predicate IsDigit(c: char) {
    '0' <= c <= '9' || 'A' <= c <= 'F' || 'a' <= c <= 'f'
  }

  // Any other character counts as 0.
  function CharToInt(c: char): (v: byte)
    ensures v < 16
  {
    if '0' <= c <= '9' then (c as int - '0' as int) as byte
    else if 'A' <= c <= 'F' then (c as int - 'A' as int + 10) as byte
    else if 'a' <= c <= 'f' then (c as int - 'a' as int + 10) as byte
    else 0
  }

  // Two digits for a byte, as %02X prints them.
  function Digits(b: byte): (char, char) {
    (Digit(b >> 4), Digit(b & 0x0f))
  }

  function HexByte(high: char, low: char): byte {
    (CharToInt(high) << 4) | CharToInt(low)
  }

  function ToHex(bytes: seq<byte>): string {
    Spell(Digits, bytes)
  }

  function FromHex(text: string): seq<byte> {
    Read(HexByte, text)
  }

  lemma DigitValue(n: byte)
    requires n < 16
    ensures IsDigit(Digit(n)) && CharToInt(Digit(n)) == n
  {
  }

  lemma Halves(b: byte)
    ensures b >> 4 < 16 && b & 0x0f < 16 && ((b >> 4) << 4) | (b & 0x0f) == b
  {
  }

  lemma ByteRoundTrip(b: byte)
    ensures ReadsBackAt(Digits, HexByte, IsDigit, b)
  {
    Halves(b);
    DigitValue(b >> 4);
    DigitValue(b & 0x0f);
  }

  // Reading back what was printed.
  lemma HexRoundTrip(bytes: seq<byte>)
    ensures |ToHex(bytes)| == 2 * |bytes| && forall c :: c in ToHex(bytes) ==> IsDigit(c)
    ensures FromHex(ToHex(bytes)) == bytes
  {
    forall b
      ensures ReadsBackAt(Digits, HexByte, IsDigit, b)
    {
      ByteRoundTrip(b);
    }
    SpellRead(Digits, HexByte, IsDigit, bytes);
  }

  lemma DigitIs(n: byte)
    requires n < 16
    ensures Digit(n) == "0123456789ABCDEF"[n as int]
  {
    if n == 0 || n == 1 || n == 2 || n == 3 || n == 4 || n == 5 || n == 6 || n == 7 {
    } else {
      assert n == 8 || n == 9 || n == 10 || n == 11 || n == 12 || n == 13 || n == 14 || n == 15;
    }
  }

  lemma HalvesByDivision(b: byte)
    ensures b >> 4 == b / 16 < 16 && b & 0x0f == b % 16 < 16
  {
  }

  // The two characters of byte i: its quotient by 16 comes first, then its remainder.
  lemma HexCharacters(bytes: seq<byte>, i: nat)
    requires i < |bytes|
    ensures |ToHex(bytes)| == 2 * |bytes| && bytes[i] / 16 < 16 && bytes[i] % 16 < 16
    ensures ToHex(bytes)[2 * i] == "0123456789ABCDEF"[(bytes[i] / 16) as int]
    ensures ToHex(bytes)[2 * i + 1] == "0123456789ABCDEF"[(bytes[i] % 16) as int]
  {
    SpellAt(Digits, bytes, i);
    HalvesByDivision(bytes[i]);
    DigitIs(bytes[i] / 16);
    DigitIs(bytes[i] % 16);
  }

  // Digits of either case have their value, and the first of two counts sixteenfold.
  lemma DigitsHaveValues(k: byte, high: char, low: char)
    requires k < 16
    ensures CharToInt("0123456789ABCDEF"[k as int]) == k == CharToInt("0123456789abcdef"[k as int])
    ensures HexByte(high, low) == 16 * CharToInt(high) + CharToInt(low)
  {
    if k == 0 || k == 1 || k == 2 || k == 3 || k == 4 || k == 5 || k == 6 || k == 7 {
    } else {
      assert k == 8 || k == 9 || k == 10 || k == 11 || k == 12 || k == 13 || k == 14 || k == 15;
    }
    CombinedHalves(CharToInt(high), CharToInt(low));
  }

  lemma CombinedHalves(h: byte, l: byte)
    requires h < 16 && l < 16
    ensures (h << 4) | l == 16 * h + l
  {
  }

  // The printing loop.
  method PrintHex(bytes: seq<byte>) returns (text: string)
    ensures text == ToHex(bytes)
  {
    text := "";
    for i := 0 to |bytes|
      invariant text == ToHex(bytes[..i])
    {
      SpellAppend(Digits, bytes[..i], bytes[i]);
      assert bytes[..i + 1] == bytes[..i] + [bytes[i]];
      text := text + [Digits(bytes[i]).0, Digits(bytes[i]).1];
    }
    assert bytes[..|bytes|] == bytes;
  }

  predicate IsPair(text: string, i: nat) {
    2 * i + 1 < |text| && IsDigit(text[2 * i]) && IsDigit(text[2 * i + 1])
  }

  // Every place whose two characters are digits holds the value of the pair.
  ghost predicate PairsAreRead(text: string, bytes: seq<byte>) {
    forall i :: 0 <= i < |bytes| && IsPair(text, i) ==> bytes[i] == HexByte(text[2 * i], text[2 * i + 1])
  }

  ghost predicate Scans(sscanf: string -> Option<byte>, rest: string) {
    IsPair(rest, 0) ==> sscanf(rest) == Some(HexByte(rest[0], rest[1]))
  }

  // What C says of sscanf with the format %2hhx, on a string that starts with two digits. On other strings it may read
  // a value or nothing.
  ghost predicate ScansPairs(sscanf: string -> Option<byte>) {
    forall rest :: Scans(sscanf, rest)
  }

  // If all characters are digits, the bytes are those of the text.
  lemma PairsAreAll(text: string, bytes: seq<byte>)
    requires PairsAreRead(text, bytes) && 2 * |bytes| <= |text| && forall c :: c in text ==> IsDigit(c)
    ensures bytes == FromHex(text[..2 * |bytes|])
  {
    var part := text[..2 * |bytes|];
    ReadLength(HexByte, part);
    forall i | 0 <= i < |bytes|
      ensures bytes[i] == FromHex(part)[i]
    {
      assert IsPair(text, i);
      ReadAt(HexByte, part, i);
    }
  }

  // Fills a buffer of the given size with what sscanf reads at every second character; a last character without a
  // partner is not read, and where sscanf reads nothing the byte stays as it was allocated. An overrun is a byte that
  // falls outside the buffer; the program writes it all the same.
  method HexStringToBytes(text: string, size: nat, sscanf: string -> Option<byte>)
    returns (bytes: array<byte>, overrun: bool)
    requires size <= |text| / 2 && ScansPairs(sscanf)
    ensures fresh(bytes) && bytes.Length == size && PairsAreRead(text, bytes[..])
    ensures (forall c :: c in text ==> IsDigit(c)) ==> bytes[..] == FromHex(text[..2 * size])
    ensures overrun <==> |text| / 2 > size
  {
    bytes := new byte[size];
    overrun := false;
    for i := 0 to |text| / 2
      invariant overrun <==> i > size
      invariant PairsAreRead(text, bytes[..Min(i, size)])
    {
      var scanned := sscanf(text[2 * i..]);
      assert Scans(sscanf, text[2 * i..]);
      if i >= size {
        overrun := true;
      } else if scanned.Some? {
        bytes[i] := scanned.value;
      }
    }
    assert bytes[..size] == bytes[..];
    if forall c :: c in text ==> IsDigit(c) {
      PairsAreAll(text, bytes[..]);
    }
  }
}

/**
 Whole messages: PKCS#7 padding (section 6.3 of RFC 5652), encryption to hexadecimal text, and back.
 */
module AesMessage {
  import opened Gf256
  import opened AesCipher
  import opened AesBlock
  import opened Blocks
  import opened Hexadecimal
  import opened Wrappers
  import CStrings

  const MAX_BLOCKS: nat := 1000

  // ---------- Padding ----------

  function Repeat(b: byte, n: nat): seq<byte> {
    seq(n, _ => b)
  }

  // The padding of RFC 5652: up to a whole block, and a whole block if the message already is one.
  function Pad(message: seq<byte>): (padded: seq<byte>)
    ensures |padded| == (|message| / 16 + 1) * 16
  {
    var n := 16 - |message| % 16;
    message + Repeat(n as byte, n)
  }

  // Every padding byte is the number of them.
  lemma PaddingBytes(message: seq<byte>, k: nat)
    requires k < |Pad(message)|
    ensures Pad(message)[..|message|] == message && 1 <= |Pad(message)| - |message| <= 16
    ensures k >= |message| ==> Pad(message)[k] as int == |Pad(message)| - |message|
  {
    CountAsByte(16 - |message| % 16);
  }

  // Dropping as many bytes as the last one says, if there are that many.
  function Unpad(data: seq<byte>): Option<seq<byte>>
    requires |data| > 0
  {
    var n := data[|data| - 1] as int;
    if n <= |data| then Some(data[..|data| - n]) else None
  }

  // The message ends where the last byte, the number of padding bytes, says; a negative length says that there are not
  // that many bytes.
  predicate EndsAt(data: seq<byte>, length: int) {
    && |data| > 0 && length <= |data|
    && length == |data| - data[|data| - 1] as int
    && Unpad(data) == (if length >= 0 then Some(data[..length]) else None)
  }

  lemma CountAsByte(n: nat)
    requires n <= 16
    ensures (n as byte) as int == n
  {
  }

  lemma AppendedPart<T>(message: seq<T>, filler: seq<T>)
    requires |filler| > 0
    ensures (message + filler)[..|message|] == message
    ensures (message + filler)[|message + filler| - 1] == filler[|filler| - 1]
  {
  }

  lemma UnpadUndoesPad(message: seq<byte>)
    ensures Unpad(Pad(message)) == Some(message)
  {
    var n := 16 - |message| % 16;
    CountAsByte(n);
    AppendedPart(message, Repeat(n as byte, n));
  }

  // The number of blocks that the encryptor's main allots.
  function BlocksAllotted(length: nat): nat {
    length / 16 + if length % 16 != 0 then 1 else 0
  }

  // The buffer that padding_function returns, when main asks for the given number of blocks: zeros after the message,
  // then the padding bytes, as far as they fit.
  function PaddedBuffer(message: seq<byte>, blocks: nat): (buffer: seq<byte>)
    requires |message| <= 16 * blocks
    ensures |buffer| == 16 * blocks
  {
    var last := |message| % 16;
    seq(16 * blocks, k requires 0 <= k < 16 * blocks =>
      if k < |message| then message[k]
      else if last == 0 then if k < |message| + 16 then 16 else 0
      else if k >= 16 * (blocks - 1) + last then (16 - last) as byte
      else 0)
  }

  // An overrun is a padding byte that falls outside the buffer; the program writes it all the same.
  method PaddingFunction(message: seq<byte>, blocks: nat) returns (padded: array<byte>, overrun: bool)
    requires |message| <= 16 * blocks
    ensures fresh(padded) && padded[..] == PaddedBuffer(message, blocks)
    ensures overrun <==> |message| % 16 == 0 && |message| == 16 * blocks
  {
    padded := new byte[16 * blocks](_ => 0);
    forall i | 0 <= i < |message| {
      padded[i] := message[i];
    }
    var lastBlockLen := |message| % 16;
    if lastBlockLen == 0 {
      overrun := WriteRun(padded, |message|, 16, 16);
    } else {
      var paddingLen := 16 - lastBlockLen;
      overrun := WriteRun(padded, (blocks - 1) * 16 + lastBlockLen, paddingLen, paddingLen as byte);
    }
    assert padded[..] == PaddedBuffer(message, blocks);
  }

  // With one block more than the whole blocks of the message, the buffer is the padded message.
  lemma EnoughBlocks(message: seq<byte>)
    ensures PaddedBuffer(message, |message| / 16 + 1) == Pad(message)
  {
  }

  // Main allots that many blocks exactly when the length is not a multiple of 16; otherwise the
  // padding is lost.
  lemma BufferAllotted(message: seq<byte>)
    ensures BlocksAllotted(|message|) == |message| / 16 + 1 <==> |message| % 16 != 0
    ensures PaddedBuffer(message, BlocksAllotted(|message|)) == if |message| % 16 != 0 then Pad(message) else message
  {
    if |message| % 16 != 0 {
      EnoughBlocks(message);
    }
  }

  // ---------- Encryption and decryption of blocks ----------

  function Encryptor(words: Schedule): seq<byte> -> seq<byte> {
    (b: seq<byte>) => if |b| == 16 then EncryptBlock(b, words) else b
  }

  function Decryptor(words: Schedule): seq<byte> -> seq<byte> {
    (b: seq<byte>) => if |b| == 16 then DecryptBlock(b, words) else b
  }

  lemma BlocksAreUndone(words: Schedule)
    ensures Undone(Encryptor(words), Decryptor(words))
  {
    forall b: seq<byte>
      ensures UndoneAt(Encryptor(words), Decryptor(words), b)
    {
      if |b| == 16 {
        DecryptUndoesEncrypt(b, words);
      }
    }
  }

  function EncryptToText(data: seq<byte>, words: Schedule): string {
    ToHex(MapBlocks(Encryptor(words), data))
  }

  function DecryptText(text: string, words: Schedule): seq<byte> {
    MapBlocks(Decryptor(words), FromHex(text))
  }

  lemma TextRoundTrip(data: seq<byte>, words: Schedule)
    requires |data| % 16 == 0
    ensures DecryptText(EncryptToText(data, words), words) == data
    ensures |EncryptToText(data, words)| == 2 * |data|
  {
    BlocksAreUndone(words);
    MapBlocksUndone(Encryptor(words), Decryptor(words), data);
    HexRoundTrip(MapBlocks(Encryptor(words), data));
  }

  // Padding, encrypting, printing, reading back, decrypting and dropping the padding returns the message, for every
  // message and every schedule.
  lemma MessageRoundTrip(message: seq<byte>, words: Schedule)
    ensures var plain := DecryptText(EncryptToText(Pad(message), words), words);
            |plain| > 0 && Unpad(plain) == Some(message)
  {
    TextRoundTrip(Pad(message), words);
    UnpadUndoesPad(message);
  }

  // ---------- The programs ----------

  lemma EncryptorIs(words: Schedule, block: Block)
    ensures Encryptor(words)(block) == EncryptBlock(block, words)
  {
  }

  lemma DecryptorIs(words: Schedule, block: Block)
    ensures Decryptor(words)(block) == DecryptBlock(block, words)
  {
  }

  method EncryptAt(words: Schedule, data: seq<byte>, i: nat, cipher: array<byte>, ghost f: seq<byte> -> seq<byte>)
    requires 16 * i + 16 <= |data| && 16 * i + 16 <= cipher.Length && f == Encryptor(words)
    modifies cipher
    ensures cipher[..16 * i + 16] == old(cipher[..16 * i]) + f(data[16 * i..16 * i + 16])
  {
    var ciphertext := new byte[16];
    AesEncrypt(data[16 * i..16 * i + 16], words, ciphertext);
    EncryptorIs(words, data[16 * i..16 * i + 16]);
    CopyBlock(ciphertext, cipher, 16 * i);
  }

  // Encrypt the blocks one by one into one buffer.
  method EncryptBlocks(words: Schedule, data: seq<byte>, blocks: nat) returns (cipher: array<byte>)
    requires |data| == 16 * blocks
    ensures fresh(cipher) && cipher[..] == MapBlocks(Encryptor(words), data)
  {
    cipher := new byte[16 * blocks];
    ghost var f := Encryptor(words);
    for i := 0 to blocks
      invariant cipher[..16 * i] == MapBlocks(f, data[..16 * i])
    {
      ghost var treated := cipher[..16 * i];
      EncryptAt(words, data, i, cipher, f);
      OneMoreBlock(f, data, i, treated, f(data[16 * i..16 * i + 16]));
    }
    assert data[..16 * blocks] == data && cipher[..16 * blocks] == cipher[..];
  }

  // None is the exit on a bad block count; otherwise the printed ciphertext.
  method EncryptionMain(words: Schedule, padded: seq<byte>, blocks: nat) returns (text: Option<string>)
    requires |padded| == 16 * blocks
    ensures text == if 0 < blocks <= MAX_BLOCKS then Some(EncryptToText(padded, words)) else None
  {
    if blocks <= 0 || blocks > MAX_BLOCKS {
      return None;
    }
    var cipher := EncryptBlocks(words, padded, blocks);
    var printed := PrintHex(cipher[..]);
    return Some(printed);
  }

  method DecryptAt(words: Schedule, block: Block, plaintext: array<byte>, start: nat)
    requires start + 16 <= plaintext.Length
    modifies plaintext
    ensures plaintext[..start + 16] == old(plaintext[..start]) + Decryptor(words)(block)
  {
    DecryptorIs(words, block);
    AesDecrypt(block, words, plaintext, start);
    JoinParts(plaintext, start, plaintext[..start], plaintext[start..start + 16]);
  }

  lemma JoinParts<T>(buffer: array<T>, start: nat, before: seq<T>, part: seq<T>)
    requires start + 16 <= buffer.Length && buffer[..start] == before && buffer[start..start + 16] == part
    ensures buffer[..start + 16] == before + part
  {
  }

  // Decrypt the blocks one by one, each to its place in the plaintext.
  method DecryptBlocks(words: Schedule, data: seq<byte>, blocks: nat) returns (plaintext: array<byte>)
    requires |data| == 16 * blocks
    ensures fresh(plaintext) && plaintext.Length == |data| && plaintext[..] == MapBlocks(Decryptor(words), data)
  {
    plaintext := new byte[16 * blocks];
    ghost var f := Decryptor(words);
    for i := 0 to blocks
      invariant plaintext[..16 * i] == MapBlocks(f, data[..16 * i])
    {
      ghost var treated := plaintext[..16 * i];
      DecryptAt(words, data[16 * i..16 * i + 16], plaintext, 16 * i);
      OneMoreBlock(f, data, i, treated, f(data[16 * i..16 * i + 16]));
    }
    assert data[..16 * blocks] == data && plaintext[..16 * blocks] == plaintext[..];
  }

  method FinalLength(plaintext: seq<byte>) returns (length: int)
    requires |plaintext| > 0
    ensures EndsAt(plaintext, length)
  {
    var padding := plaintext[|plaintext| - 1] as int;
    length := |plaintext| - padding;
  }

  lemma DigitsOfBlocks(length: nat, blocks: nat)
    requires blocks == length / 32
    ensures 2 * (16 * blocks) == 32 * blocks && 16 * blocks <= length / 2
    ensures length / 2 > 16 * blocks <==> length % 32 >= 2
  {
  }

  // The plaintext, the length that the program computes for it, and what it prints: the part of the plaintext before
  // the first zero byte. Without a zero byte the print loop leaves the plaintext behind its end.
  datatype Decryption = Decryption(plaintext: seq<byte>, finalLength: int, printed: seq<byte>, leaves: bool)

  ghost predicate PrintsString(d: Decryption) {
    d.printed == CStrings.Before(d.plaintext, 0) && (d.leaves <==> 0 !in d.plaintext)
  }

  // None is the exit on a bad block count. An overrun is a write behind the byte buffer.
  method DecryptionMain(words: Schedule, text: string, sscanf: string -> Option<byte>)
    returns (result: Option<Decryption>, overrun: bool, ghost bytes: seq<byte>)
    requires ScansPairs(sscanf)
    ensures result.Some? <==> 0 < |text| / 32 <= MAX_BLOCKS
    ensures |bytes| == 16 * (|text| / 32) && PairsAreRead(text, bytes)
    ensures result.Some? ==> result.value.plaintext == MapBlocks(Decryptor(words), bytes)
    ensures result.Some? && (forall c :: c in text ==> IsDigit(c)) ==>
              result.value.plaintext == DecryptText(text[..32 * (|text| / 32)], words)
    ensures result.Some? ==> EndsAt(result.value.plaintext, result.value.finalLength) && PrintsString(result.value)
    ensures overrun <==> |text| % 32 >= 2
  {
    var blocks := |text| / 32;
    DigitsOfBlocks(|text|, blocks);
    var cipherBytes;
    cipherBytes, overrun := HexStringToBytes(text, 16 * blocks, sscanf);
    bytes := cipherBytes[..];
    if blocks <= 0 || blocks > MAX_BLOCKS {
      return None, overrun, bytes;
    }
    var plaintext := DecryptBlocks(words, cipherBytes[..], blocks);
    var finalLength := FinalLength(plaintext[..]);
    var printed, leaves := CStrings.Print(plaintext, 0);
    return Some(Decryption(plaintext[..], finalLength, printed, leaves)), overrun, bytes;
  }

  // The encryptor's main after the key expansion: the blocks are counted, padded, encrypted and printed.
  method EncryptMessage(words: Schedule, message: seq<byte>) returns (text: Option<string>, overrun: bool)
    ensures var blocks := BlocksAllotted(|message|);
            text == if 0 < blocks <= MAX_BLOCKS then Some(EncryptToText(PaddedBuffer(message, blocks), words)) else None
    ensures overrun <==> |message| % 16 == 0
  {
    var blocks := |message| / 16;
    if |message| % 16 != 0 {
      blocks := blocks + 1;
    }
    var padded;
    padded, overrun := PaddingFunction(message, blocks);
    text := EncryptionMain(words, padded[..], blocks);
  }

  // ---------- What the two programs do to a message ----------

  // The plaintext that the decryptor obtains from a message, with the block count that the encryptor's main allots.
  function PlaintextOf(message: seq<byte>, words: Schedule): seq<byte> {
    DecryptText(EncryptToText(PaddedBuffer(message, BlocksAllotted(|message|)), words), words)
  }

  lemma AllottedBounds(length: nat)
    ensures 0 < BlocksAllotted(length) <= MAX_BLOCKS <==> 0 < length <= 16 * MAX_BLOCKS
  {
  }

  lemma PlaintextIsBuffer(message: seq<byte>, words: Schedule)
    ensures PlaintextOf(message, words) == PaddedBuffer(message, BlocksAllotted(|message|))
    ensures |message| > 0 ==> |PlaintextOf(message, words)| > 0
  {
    AllottedBounds(|message|);
    TextRoundTrip(PaddedBuffer(message, BlocksAllotted(|message|)), words);
  }

  // ---------- What the decryptor prints ----------

  lemma RepeatHasNoZero(b: byte, n: nat)
    requires b != 0
    ensures 0 !in Repeat(b, n)
  {
  }

  // The plaintext is the message and bytes behind it that are not zero.
  lemma PlaintextIsMessageAndMore(message: seq<byte>, words: Schedule) returns (more: seq<byte>)
    ensures PlaintextOf(message, words) == message + more && 0 !in more
    ensures |more| == if |message| % 16 == 0 then 0 else 16 - |message| % 16
  {
    var n := 16 - |message| % 16;
    PlaintextIsBuffer(message, words);
    BufferAllotted(message);
    CountAsByte(n);
    RepeatHasNoZero(n as byte, n);
    more := if |message| % 16 == 0 then [] else Repeat(n as byte, n);
  }

  /**
   The print loop stays inside the plaintext if and only if the message contains a zero byte, and then it prints
   exactly the part of the message before that, which is never the whole message. Otherwise it prints the message and
   all of the padding, and goes on behind the plaintext.
   */
  lemma PrintedIffZero(message: seq<byte>, words: Schedule)
    ensures 0 in PlaintextOf(message, words) <==> 0 in message
    ensures 0 in message ==>
              && CStrings.Before(PlaintextOf(message, words), 0) == CStrings.Before(message, 0)
              && |CStrings.Before(message, 0)| < |message|
    ensures 0 !in message ==>
              CStrings.Before(PlaintextOf(message, words), 0) == if |message| % 16 != 0 then Pad(message) else message
  {
    var more := PlaintextIsMessageAndMore(message, words);
    CStrings.BeforeOfAppended(message, more, 0);
    PlaintextIsBuffer(message, words);
    BufferAllotted(message);
  }

  // Whatever the message, the print loop does not print it and stop there.
  lemma NeverPrintedInside(message: seq<byte>, words: Schedule)
    ensures !(0 in PlaintextOf(message, words) && CStrings.Before(PlaintextOf(message, words), 0) == message)
  {
    PrintedIffZero(message, words);
  }

  // The padding that the comment intends does not change that: it has no zero byte either.
  lemma IntendedPaddingIsPrintedToo(message: seq<byte>, words: Schedule)
    ensures var plain := DecryptText(EncryptToText(Pad(message), words), words);
            && (0 in plain <==> 0 in message)
            && CStrings.Before(plain, 0) == if 0 in message then CStrings.Before(message, 0) else Pad(message)
  {
    var n := 16 - |message| % 16;
    TextRoundTrip(Pad(message), words);
    CountAsByte(n);
    RepeatHasNoZero(n as byte, n);
    CStrings.BeforeOfAppended(message, Repeat(n as byte, n), 0);
  }

  // Of five letters the loop prints the letters and eleven bytes of padding, and goes on behind the plaintext.
  lemma FiveLettersArePrintedWithPadding(words: Schedule)
    ensures 0 !in PlaintextOf(Repeat(0x41, 5), words)
    ensures CStrings.Before(PlaintextOf(Repeat(0x41, 5), words), 0) == Repeat(0x41, 5) + Repeat(0x0b, 11)
  {
    var message := Repeat(0x41, 5);
    RepeatHasNoZero(0x41, 5);
    PrintedIffZero(message, words);
    PaddedFive(message);
  }

  lemma PaddedFive(message: seq<byte>)
    requires |message| == 5
    ensures Pad(message) == message + Repeat(0x0b, 11)
  {
    assert 16 - |message| % 16 == 11;
  }

  // Of sixteen letters it prints just the letters, and goes on behind the plaintext too.
  lemma SixteenLettersArePrinted(words: Schedule)
    ensures 0 !in PlaintextOf(Repeat(0x41, 16), words)
    ensures CStrings.Before(PlaintextOf(Repeat(0x41, 16), words), 0) == Repeat(0x41, 16)
  {
    RepeatHasNoZero(0x41, 16);
    PrintedIffZero(Repeat(0x41, 16), words);
  }

  lemma EncryptedTextIsDigits(data: seq<byte>, words: Schedule)
    requires |data| % 16 == 0
    ensures |EncryptToText(data, words)| == 2 * |data|
    ensures forall c :: c in EncryptToText(data, words) ==> IsDigit(c)
  {
    TextRoundTrip(data, words);
    HexRoundTrip(MapBlocks(Encryptor(words), data));
  }

  lemma WholeBlocks(text: string, blocks: nat)
    requires |text| == 2 * (16 * blocks)
    ensures |text| / 32 == blocks && text[..32 * (|text| / 32)] == text
  {
  }

  // The text of a message goes through the decryptor as a whole.
  lemma TextIsWholeBlocks(text: string, message: seq<byte>, words: Schedule)
    requires text == EncryptToText(PaddedBuffer(message, BlocksAllotted(|message|)), words)
    ensures |text| / 32 == BlocksAllotted(|message|) && text[..32 * (|text| / 32)] == text
    ensures forall c :: c in text ==> IsDigit(c)
  {
    EncryptedTextIsDigits(PaddedBuffer(message, BlocksAllotted(|message|)), words);
    WholeBlocks(text, BlocksAllotted(|message|));
  }

  // What the decryptor does with the encryptor's output: both programs get through exactly for 1 to 16000 bytes.
  method EncryptThenDecrypt(words: Schedule, message: seq<byte>, sscanf: string -> Option<byte>)
    returns (result: Option<Decryption>)
    requires ScansPairs(sscanf)
    ensures result.Some? <==> 0 < |message| <= 16 * MAX_BLOCKS
    ensures result.Some? ==>
              var d := result.value;
              && d.plaintext == PlaintextOf(message, words)
              && (d.leaves <==> 0 !in message)
              && (0 in message ==> d.printed == CStrings.Before(message, 0))
              && (0 !in message ==> d.printed == if |message| % 16 != 0 then Pad(message) else message)
  {
    AllottedBounds(|message|);
    PrintedIffZero(message, words);
    var text, _ := EncryptMessage(words, message);
    if text.None? {
      return None;
    }
    TextIsWholeBlocks(text.value, message, words);
    var decrypted, _, _ := DecryptionMain(words, text.value, sscanf);
    return decrypted;
  }

  // ---------- What the computed length leaves of the message ----------

  // The plaintext up to the length that the decryptor computes, if both programs get that far.
  function Delivered(message: seq<byte>, words: Schedule): Option<seq<byte>> {
    if 0 < BlocksAllotted(|message|) <= MAX_BLOCKS then
      PlaintextIsBuffer(message, words);
      Unpad(PlaintextOf(message, words))
    else None
  }

  lemma DeliveredIsUnpadded(message: seq<byte>, words: Schedule)
    requires 0 < |message| <= 16 * MAX_BLOCKS
    ensures |PaddedBuffer(message, BlocksAllotted(|message|))| > 0
    ensures Delivered(message, words) == Unpad(PaddedBuffer(message, BlocksAllotted(|message|)))
  {
    AllottedBounds(|message|);
    PlaintextIsBuffer(message, words);
  }

  // With the code's block count, and with the computed length taken as the length of the plaintext: the message comes
  // back exactly when it is not empty, not too long, and its length is not a multiple of 16; or when it ends in a zero
  // byte, which then counts as no padding at all.
  lemma DeliveredIffPadded(message: seq<byte>, words: Schedule)
    ensures Delivered(message, words) == Some(message)
       <==> 0 < |message| <= 16 * MAX_BLOCKS && (|message| % 16 != 0 || message[|message| - 1] == 0)
  {
    AllottedBounds(|message|);
    if 0 < |message| <= 16 * MAX_BLOCKS {
      DeliveredIsUnpadded(message, words);
      BufferAllotted(message);
      if |message| % 16 != 0 {
        UnpadUndoesPad(message);
      } else {
        LastByteIsPositive(message);
      }
    }
  }

  lemma LastByteIsPositive(message: seq<byte>)
    requires |message| > 0
    ensures Unpad(message) == Some(message) <==> message[|message| - 1] == 0
  {
    var n := message[|message| - 1] as int;
    if n == 0 {
      assert message[..|message|] == message;
    }
  }

  // For a C string, which holds no zero byte, only the length counts.
  lemma StringDeliveredIffPadded(message: seq<byte>, words: Schedule)
    requires 0 !in message
    ensures Delivered(message, words) == Some(message) <==> 0 < |message| <= 16 * MAX_BLOCKS && |message| % 16 != 0
  {
    DeliveredIffPadded(message, words);
    if |message| > 0 {
      assert message[|message| - 1] in message;
    }
  }

  // Sixteen letters are an example: by the computed length, the last one is a count of 65 padding bytes, more than
  // there are.
  lemma SixteenLettersAreLost(words: Schedule)
    ensures Delivered(Repeat(0x41, 16), words) == None
  {
    var message := Repeat(0x41, 16);
    DeliveredIsUnpadded(message, words);
    BufferAllotted(message);
  }
}

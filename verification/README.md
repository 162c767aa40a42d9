# Verified models of the C programs

This project models four parts of a collection of small C programs in Dafny and proves what they promise.

- **Textbook RSA** (`NumberTheory.dfy`, `Rsa.dfy`, `RsaCorrectness.dfy`, `Totient.dfy`). The loops of `RSA.c` are
  methods over unbounded integers. The prime test, the inverse and the exponentiation also report, as a ghost result
  `peak`, the largest magnitude they compute, so that a contract can say when a 64-bit `long long` is enough. Division
  and remainder are C's, which truncate toward zero. The number theory (Bezout, Euclid's lemma, the binomial theorem,
  Fermat's little theorem, the two-prime case of the Chinese remainder theorem) is proved from the definitions of
  divisibility and primality.
- **AES-128** (`ShiftAndAdd.dfy`, `Gf256.dfy`, `MixColumns.dfy`, `SubstitutionBoxes.dfy`, `SubstitutionDesign.dfy`,
  `AesCipher.dfy`, `AesEntries.dfy`, `AesBlock.dfy`, `KeySchedule.dfy`, `CStrings.dfy`, `AesMessage.dfy`). Bytes are
  `bv8` and words `bv32`. The steps rewrite a 4x4 array in place and are proved against functions on matrices, which
  `AesEntries.dfy` spells out entry by entry; the algebra below them (shift-and-add products over any structure with
  the right laws) is generic and is instantiated with GF(2^8) and with polynomials over GF(2).
- **Text programs** (`Rewriting.dfy`, `EmailParser.dfy`, `NormalForms.dfy`, `Tokenizer.dfy`, `WordTable.dfy`,
  `Summarization.dfy`). The e-mail normalizer with its rescanning replacement and what it writes for each of its
  patterns, and the document summary: tokenizer, bounded word table, selection of the rarest words, extraction of the
  sentences that contain one.
- **Summing servers** (`BasicServer.dfy`, `MultiplexServer.dfy`). The server for one client at a time is the
  specification of the server that watches up to 30 clients with one table of descriptors. What the latter does is a
  trace of actions; a pass of its event loop takes the descriptors that `select` reports, the descriptor that `accept`
  would return, and the number that a read from each descriptor would deliver. End of input reads as zero.

Where the programs change state in place, so does the model: arrays and two-dimensional arrays for the AES state, the
padding and plaintext buffers, the token buffer, the word table and the server's tables; a class for the line that the
normalizer rewrites, for the word table, and for the server. Each such method is proved equal to a function of the old
state, and the theorems are about that function.

## What the code does where it differs from its comments

- Padding. The comment in `aes_encrypt.c` lines 180-183 wants a whole block of padding after a message whose length is
  a multiple of 16. The buffer (line 173) and the caller's block count (lines 493-503) have no room for it: the bytes
  are written past the end of the buffer and are not encrypted. `PaddingFunction` models the loop with its block count
  as a parameter and reports the overrun. `MessageRoundTrip` proves the round trip for the intended padding, for every
  message. With the code's block count, and with `final_length` taken as the plaintext length, `DeliveredIffPadded`
  says exactly which messages come back, and `SixteenLettersAreLost` is a concrete one that does not.
- Plaintext length. `aes_decrypt.c` computes `final_length` (lines 276-277), does not use it, and prints by `strlen`
  (lines 280-283) from a buffer that has no terminator. `PrintedIffZero` says what that prints, for every message: the
  loop stays inside the plaintext if and only if the message has a zero byte, and then it prints only the part before
  it; otherwise it prints the message with its padding and reads on behind the buffer. So it never prints the message
  and stops inside the buffer (`NeverPrintedInside`); five letters (`FiveLettersArePrintedWithPadding`) and sixteen
  (`SixteenLettersArePrinted`) are examples. The intended padding does not change this
  (`IntendedPaddingIsPrintedToo`).
- RSA message range. The prompt asks for a number below n, and the program tests only that side. The round trip is
  proved for all messages strictly between -n and n; `RunProgram` proves that it holds for exactly those.
- The `(attherate)` rule of `emailparser.c` line 107 never finds anything (`FifthRuleDoesNothing`). The rule that is
  commented out in line 127 would not end (`RestoringRuleNeverEnds`).

## Model

| member | source | states |
|---|---|---|
| Rsa.IsPrime | cryptography/RSA_Algo/RSA.c:38-51 | Trial division by 2, 3 and the pairs i, i + 2 decides primality for every integer; for a `long long` argument a product leaves 64 bits exactly when the argument is a prime of at least 3037000499 squared |
| Rsa.NextSixCandidates | cryptography/RSA_Algo/RSA.c:47-49 | Among six consecutive candidates, only the two divisions that the loop does can find a divisor of a number prime to 6 |
| Rsa.GenerateRandomPrime | cryptography/RSA_Algo/RSA.c:57-65 | For every list of random numbers, the first one that stands for a prime is used; the prime is in the range, and its distance from the lower end is congruent to the draw modulo the size of the range; every draw before it stands for a composite |
| Rsa.CalculateGcd | cryptography/RSA_Algo/RSA.c:84-93 | The result has exactly the common divisors of the arguments, for all integers; for non-negative ones it is their gcd |
| Rsa.EuclidStep | cryptography/RSA_Algo/RSA.c:111-118 | One iteration keeps the equation abs(coeff_e) * current + abs(coeff_phi) * next = phi, the alternating signs, the two congruences and the gcd, and no product or coefficient exceeds phi |
| Rsa.CalculateModInverse | cryptography/RSA_Algo/RSA.c:104-126 | For all integers, the result times e is congruent to the last remainder, a gcd up to sign, unless that is above 1 and reported as -1. For e of at least 0 and phi above 1 this is the inverse in (0, phi), or -1 exactly when e and phi are not coprime, and no intermediate value exceeds both arguments |
| Rsa.InverseImpliesCoprime | cryptography/RSA_Algo/RSA.c:121-122 | Numbers that are not coprime have no inverse, so -1 is never a wrong answer |
| Rsa.SquareAndMultiply | cryptography/RSA_Algo/RSA.c:140-147 | One iteration keeps the remainder of result times base to the exp, with C's remainder, for every sign of base and modulus |
| Rsa.CalculateModPow | cryptography/RSA_Algo/RSA.c:135-150 | The result is C's remainder of the power for every base and non-zero modulus; up to the modulus 3037000500 every product fits in 64 bits |
| NumberTheory.Fermat | cryptography/RSA_Algo/RSA.c:128-130 | Fermat's little theorem, which the comment's decryption equation rests on, by the binomial theorem |
| NumberTheory.EuclidsLemma | cryptography/RSA_Algo/RSA.c:170-176 | A prime that divides a product divides a factor; the reason why the exponent test cannot fail |
| RsaCorrectness.DecryptEncrypt | cryptography/RSA_Algo/RSA.c:178-200 | For all distinct primes and every exponent pair, decryption undoes encryption for every message strictly between -n and n, multiples of the primes included |
| RsaCorrectness.EncryptDecrypt | cryptography/RSA_Algo/RSA.c:178-200 | The other order of the two exponents also returns the message |
| RsaCorrectness.EncryptionIsPermutation | cryptography/RSA_Algo/RSA.c:199 | Encryption maps [0, n) into itself, one-to-one and onto |
| RsaCorrectness.LargeExponentIsCoprime | cryptography/RSA_Algo/RSA.c:170-176 | A prime exponent that is at least as large as both primes is coprime to phi |
| RsaCorrectness.PublicExponentIsPrime | cryptography/RSA_Algo/RSA.c:170 | 65537 is prime |
| RsaCorrectness.FirstPrimeIsFirst | cryptography/RSA_Algo/RSA.c:57-65 | The prime drawn lies in [100, 500] and is congruent to its draw, counted from 100, modulo 401; no draw before it stands for a prime other than the one to avoid |
| RsaCorrectness.DrawPrimes | cryptography/RSA_Algo/RSA.c:157-163 | The two primes are the first two distinct primes that the random numbers stand for |
| RsaCorrectness.RunProgram | cryptography/RSA_Algo/RSA.c:152-206 | The composed program never takes its two retry exits, rejects exactly the messages of at least n, and decrypts to the message typed in if and only if that was above -n; the products of the inverse and of the two exponentiations fit in 64 bits |
| Totient.TotientOfPrime | cryptography/RSA_Algo/RSA.c:67-76 | For a prime n, n - 1 is the number of integers below n that are coprime to n, and all of them are |
| Totient.TotientOfProduct | cryptography/RSA_Algo/RSA.c:169 | For distinct primes, phi is the number of integers in [1, n] that are coprime to n |
| Gf256.XtimesAgree | cryptography/AES_Algo/aes_encrypt.c:262-265 | The three forms of doubling in the two programs (test of the top bit, product with the top bit, and the step inside mul) are the same function |
| Gf256.Mul | cryptography/AES_Algo/aes_decrypt.c:124-138 | The loop over the bits computes the field product of its arguments |
| Gf256.ProductIsRemainder | cryptography/AES_Algo/aes_decrypt.c:115-138 | The product is a remainder of the carry-less product modulo x^8 + x^4 + x^3 + x + 1 |
| Gf256.RemainderIsUnique | cryptography/AES_Algo/aes_decrypt.c:115-138 | There is only one such remainder, so that the previous row determines the product |
| Gf256.ProductAddsLeft | cryptography/AES_Algo/aes_decrypt.c:124-138 | mul distributes over XOR in its first argument |
| Gf256.ProductAddsRight | cryptography/AES_Algo/aes_decrypt.c:124-138 | mul distributes over XOR in its second argument |
| MixColumnsMatrix.MixIsMatrixProduct | cryptography/AES_Algo/aes_encrypt.c:284-304 | The shortcut with xtime is the row (2, 3, 1, 1) of the matrix product built from mul |
| MixColumnsMatrix.InvMixUndoesMix | cryptography/AES_Algo/aes_decrypt.c:146-163 | The row (14, 11, 13, 9) applied to a mixed column gives the entry back, for all four bytes |
| MixColumnsMatrix.MixUndoesInvMix | cryptography/AES_Algo/aes_encrypt.c:284-304 | The other order: the mixing row applied to an unmixed column gives the entry back |
| SubstitutionBoxes.SboxesInvert | cryptography/AES_Algo/aes_decrypt.c:12-29 | The two tables are inverse permutations of the bytes, in both orders |
| SubstitutionDesign.SboxIsAffineOfInverse | cryptography/AES_Algo/aes_encrypt.c:8-33 | The encryptor's table is what its comment says: entry x is the affine transformation of y exactly when y is the inverse of x in GF(2^8), or both are zero |
| AesCipher.AddRoundKeyUndoes | cryptography/AES_Algo/aes_decrypt.c:37-55 | Adding the same round key twice changes nothing |
| AesCipher.InvSubBytesUndoes | cryptography/AES_Algo/aes_decrypt.c:95-105 | inv_sub_bytes undoes sub_bytes on every state |
| AesCipher.InvShiftRowsUndoes | cryptography/AES_Algo/aes_decrypt.c:71-89 | inv_shift_rows undoes shift_rows on every state |
| AesCipher.InvMixColumnsUndoes | cryptography/AES_Algo/aes_decrypt.c:146-163 | inv_mix_columns undoes mix_columns on every state |
| AesCipher.MixColumnsUndoes | cryptography/AES_Algo/aes_encrypt.c:284-304 | mix_columns undoes inv_mix_columns on every state |
| AesCipher.InvRoundUndoes | cryptography/AES_Algo/aes_decrypt.c:181-195 | The decryptor's round, the one peeled off included, undoes the encryptor's round of the same number |
| AesCipher.RoundUndoes | cryptography/AES_Algo/aes_encrypt.c:234-247 | The encryptor's round undoes the decryptor's round of the same number |
| AesCipher.DecryptedRetraces | cryptography/AES_Algo/aes_decrypt.c:181-195 | Counting down, the decryptor passes through the encryptor's states |
| AesCipher.MatrixRoundTrip | cryptography/AES_Algo/aes_decrypt.c:200-207 | Loading a block into the state and storing the state are inverse to each other |
| AesCipher.DecryptUndoesEncrypt | cryptography/AES_Algo/aes_decrypt.c:170-209 | Decryption undoes encryption for every block of 16 bytes and every array of 44 words |
| AesCipher.EncryptedRetraces | cryptography/AES_Algo/aes_encrypt.c:232-247 | Counting up, the encryptor passes through the decryptor's states |
| AesCipher.EncryptUndoesDecrypt | cryptography/AES_Algo/aes_encrypt.c:217-257 | Encryption undoes decryption for every block and every array of 44 words |
| AesCipher.EncryptionPermutesBlocks | cryptography/AES_Algo/aes_encrypt.c:217-257 | Under every array of 44 words, encryption is a permutation of the blocks: one-to-one and onto |
| AesEntries.EncryptBlockByEntries | cryptography/AES_Algo/aes_encrypt.c:217-257 | The eleven states entry by entry: entry (r, c) of the first is block byte r + 4c plus byte r of word c; in rounds 1 to 9 it is the row (2, 3, 1, 1), turned by r, times the column of substituted entries (i, (c + i) mod 4), plus byte r of word 4 * round + c; round 10 is without the row; the ciphertext reads the last state by columns |
| AesEntries.EveryRoundKeyCounts | cryptography/AES_Algo/aes_encrypt.c:362-380 | Two schedules that differ in one round key only, whichever of the eleven, encrypt every block differently |
| AesEntries.EveryRoundKeyCountsBackwards | cryptography/AES_Algo/aes_decrypt.c:37-55 | They also decrypt every block differently |
| AesEntries.LastRoundKeyIsAdded | cryptography/AES_Algo/aes_encrypt.c:362-380 | Where only the last round keys differ, byte k of the two ciphertexts differs by exactly the difference of the key bytes k mod 4 of word 40 + k / 4 |
| AesBlock.AddStateRound | cryptography/AES_Algo/aes_encrypt.c:362-380 | In place: the round key is added to the state, every byte of it to its own entry (EveryRoundKeyCounts, LastRoundKeyIsAdded) |
| AesBlock.SubBytesInPlace | cryptography/AES_Algo/aes_encrypt.c:344-354 | In place: every entry goes through the table |
| AesBlock.ShiftRowsInPlace | cryptography/AES_Algo/aes_encrypt.c:320-338 | In place through a temporary matrix: row i is rotated left by i |
| AesBlock.DoublingIsMixed | cryptography/AES_Algo/aes_encrypt.c:284-304 | The four expressions of the column loop are the four rotations of one row |
| AesBlock.MixColumnsInPlace | cryptography/AES_Algo/aes_encrypt.c:284-304 | In place: every column is mixed |
| AesBlock.InvSubBytesInPlace | cryptography/AES_Algo/aes_decrypt.c:95-105 | In place: every entry goes through the inverse table |
| AesBlock.InvShiftRowsInPlace | cryptography/AES_Algo/aes_decrypt.c:71-89 | In place through a temporary matrix: row i is rotated right by i |
| AesBlock.UnmixedByProducts | cryptography/AES_Algo/aes_decrypt.c:151-158 | Four calls of mul form one entry of an unmixed column |
| AesBlock.InvMixColumnsInPlace | cryptography/AES_Algo/aes_decrypt.c:146-163 | In place, column by column through a temporary: every column is unmixed |
| AesBlock.AesEncrypt | cryptography/AES_Algo/aes_encrypt.c:217-257 | The round loop with its special last round computes the encryption of the block, which EncryptBlockByEntries spells out and EveryRoundKeyCounts ties to each of the keys |
| AesBlock.AesDecrypt | cryptography/AES_Algo/aes_decrypt.c:170-209 | The peeled round and the countdown loop compute the decryption, which undoes that encryption and depends on each of the keys (EveryRoundKeyCountsBackwards), and the block is written to its place in the plaintext buffer and nowhere else |
| KeySchedule.KeyExpansion | cryptography/AES_Algo/key_expansion.c:134-166 | The 44 words satisfy the recurrence of section 5.2 of FIPS 197, byte by byte: the key first; byte j of word 4k is byte j of word 4k - 4 plus the table entry of byte (j + 1) mod 4 of the word before plus, for j = 0, x to the k - 1 in GF(2^8); byte j of every other word is the sum of that of the word before and of the word four before |
| KeySchedule.KeyWordBytes | cryptography/AES_Algo/key_expansion.c:138-141 | The bytes that a round key takes out of a key word are the key bytes packed into it |
| KeySchedule.WordOfBytes | cryptography/AES_Algo/key_expansion.c:138-141 | Every word is its four bytes, packed |
| KeySchedule.RotWordByte | cryptography/AES_Algo/key_expansion.c:95-102 | Byte j of the rotated word is byte (j + 1) mod 4 of the word |
| KeySchedule.SubWordByte | cryptography/AES_Algo/key_expansion.c:111-117 | Byte j of the substituted word is the table entry of byte j |
| KeySchedule.RoundConstantBytes | cryptography/AES_Algo/key_expansion.c:51-57 | Constant i has x to the i - 1 in GF(2^8) as its first byte and three zeros, as the comment says |
| KeySchedule.RoundDeterminesSchedule | cryptography/AES_Algo/key_expansion.c:151-159 | Two schedules that agree on the four words of any one round are equal, forwards and backwards |
| KeySchedule.RoundDeterminesKey | cryptography/AES_Algo/key_expansion.c:134-166 | Two keys whose schedules agree on one round are the same key |
| Hexadecimal.PrintHex | cryptography/AES_Algo/aes_encrypt.c:417-420 | The printing loop writes two upper-case digits for each byte |
| Hexadecimal.HexCharacters | cryptography/AES_Algo/aes_encrypt.c:417-420 | Characters 2i and 2i + 1 are the digits of byte i divided by 16 and of the remainder, from 0 to 9 and A to F |
| Hexadecimal.DigitsHaveValues | cryptography/AES_Algo/aes_encrypt.c:46-70 | Digits of either case have the values 0 to 15, and the first of two counts sixteenfold |
| Hexadecimal.HexStringToBytes | cryptography/AES_Algo/aes_decrypt.c:214-220 | On any text, every place of the buffer whose two characters are digits receives their value, and on digits alone the buffer is what the text stands for; the loop writes outside exactly when there are more pairs than places |
| Hexadecimal.HexRoundTrip | cryptography/AES_Algo/aes_decrypt.c:214-220 | Reading back what was printed returns the bytes |
| AesMessage.PaddingFunction | cryptography/AES_Algo/aes_encrypt.c:170-210 | The buffer holds the message, then zeros and the padding bytes as far as they fit; a byte is written outside exactly when the message fills all the blocks asked for |
| AesMessage.EnoughBlocks | cryptography/AES_Algo/aes_encrypt.c:180-183 | With one block more than the whole blocks of the message, the buffer is the padded message of section 6.3 of RFC 5652 |
| AesMessage.PaddingBytes | cryptography/AES_Algo/aes_encrypt.c:153-161 | After the message come 1 to 16 bytes, each of which is their number |
| AesMessage.BufferAllotted | cryptography/AES_Algo/aes_encrypt.c:493-503 | The caller's block count is that number exactly when the length is not a multiple of 16; otherwise the padding is lost |
| AesMessage.UnpadUndoesPad | cryptography/AES_Algo/aes_decrypt.c:275-277 | Dropping as many bytes as the last one says undoes the padding |
| AesMessage.TextRoundTrip | cryptography/AES_Algo/aes_decrypt.c:230-273 | Encrypting block by block, printing, reading back and decrypting block by block returns any whole number of blocks |
| AesMessage.MessageRoundTrip | cryptography/AES_Algo/aes_decrypt.c:230-277 | With the intended padding, the whole round trip returns every message of any length under every schedule |
| AesMessage.EncryptBlocks | cryptography/AES_Algo/aes_encrypt.c:398-414 | The block loop fills the ciphertext with the encrypted blocks in order |
| Blocks.MapBlocksAt | cryptography/AES_Algo/aes_encrypt.c:398-414 | Block i of the result is block i of the data, treated |
| AesMessage.EncryptionMain | cryptography/AES_Algo/aes_encrypt.c:390-422 | Block counts outside [1, 1000] exit; otherwise the printed text is the hexadecimal ciphertext |
| AesMessage.EncryptMessage | cryptography/AES_Algo/aes_encrypt.c:489-503 | The encryptor's main after the key expansion, with its own block count: what it prints, and that it overruns the buffer exactly for lengths that are multiples of 16 |
| AesMessage.DecryptBlocks | cryptography/AES_Algo/aes_decrypt.c:260-273 | The block loop fills the plaintext with the decrypted blocks in order |
| AesMessage.DecryptionMain | cryptography/AES_Algo/aes_decrypt.c:230-289 | On any text: block counts outside [1, 1000] exit; otherwise the decryption of the bytes read, the final_length that the last byte leaves of it, which may be negative, and what is printed: the bytes before the first zero, leaving the buffer exactly when there is none; two or more characters after the whole blocks overrun the byte buffer |
| CStrings.Length | cryptography/AES_Algo/aes_decrypt.c:280 | strlen counts the bytes before the first zero, and looks behind the buffer exactly when there is none |
| CStrings.Print | cryptography/AES_Algo/aes_decrypt.c:280-283 | The loop prints exactly the bytes before the first zero, and leaves the buffer exactly when there is none |
| AesMessage.PrintedIffZero | cryptography/AES_Algo/aes_decrypt.c:275-283 | For every message: the print loop stays inside the plaintext if and only if the message has a zero byte, and then prints exactly the part before it, never the whole message; otherwise it prints the message and the padding that was encrypted, and leaves the buffer |
| AesMessage.NeverPrintedInside | cryptography/AES_Algo/aes_decrypt.c:280-283 | For no message is the message printed without leaving the buffer |
| AesMessage.IntendedPaddingIsPrintedToo | cryptography/AES_Algo/aes_decrypt.c:280-283 | The same holds with the intended padding |
| AesMessage.FiveLettersArePrintedWithPadding | cryptography/AES_Algo/aes_decrypt.c:280-283 | Of five letters A the letters and eleven bytes of padding are printed, and the loop leaves the buffer |
| AesMessage.SixteenLettersArePrinted | cryptography/AES_Algo/aes_decrypt.c:280-283 | Of sixteen letters A just the letters are printed, and the loop leaves the buffer |
| AesMessage.EncryptThenDecrypt | cryptography/AES_Algo/aes_decrypt.c:230-289 | The decryptor on the encryptor's output: both get through exactly for 1 to 16000 bytes, with the plaintext, the printed bytes and the exit from the buffer as in PrintedIffZero |
| AesMessage.DeliveredIffPadded | cryptography/AES_Algo/aes_encrypt.c:489-503 | With the code's block count, and with final_length taken as the plaintext length: a message comes back if and only if it has 1 to 16000 bytes and its length is not a multiple of 16 or its last byte is zero |
| AesMessage.StringDeliveredIffPadded | cryptography/AES_Algo/aes_encrypt.c:489-503 | Under the same reading, for a C string only the length counts |
| AesMessage.SixteenLettersAreLost | cryptography/AES_Algo/aes_encrypt.c:178-189 | Under the same reading, sixteen letters A do not come back, under any schedule |
| Rewriting.Find | file-processing/email-parsing/emailparser.c:81 | strstr returns the first occurrence, or none when there is none |
| Rewriting.ReplacementLosesOccurrence | file-processing/email-parsing/emailparser.c:81-90 | A growing rule that inserts foreign letters into its own pattern leaves one occurrence less at every step, also when occurrences overlap |
| Rewriting.ReplacementDecreases | file-processing/email-parsing/emailparser.c:81-90 | Every step lowers the length (shrinking rules) or the number of occurrences (growing ones), so the loop ends |
| Rewriting.RestoringRuleNeverEnds | file-processing/email-parsing/emailparser.c:127 | A rule that puts its own pattern back always has another occurrence to replace |
| Rewriting.NoneLeft | file-processing/email-parsing/emailparser.c:76-91 | No occurrence of the pattern is left, on any string |
| Rewriting.NotCreated | file-processing/email-parsing/emailparser.c:76-91 | A rule whose replacement shares no letter with a pattern does not bring the pattern back |
| EmailParser.GmailRulesEnd | file-processing/email-parsing/emailparser.c:124-129 | The five mail rules end, the four growing ones by their number of occurrences |
| EmailParser.ShrinkingRulesEnd | file-processing/email-parsing/emailparser.c:103-134 | All other rules end, by the length |
| EmailParser.CleanupIsClean | file-processing/email-parsing/emailparser.c:132-134 | After the last three rules none of their three patterns is left, because none recreates another's |
| EmailParser.NormalizedHasNoUpper | file-processing/email-parsing/emailparser.c:98-135 | The normal form of any string has no ASCII upper-case letter |
| EmailParser.NormalizedIsClean | file-processing/email-parsing/emailparser.c:98-135 | The normal form of any string contains none of the three spaced symbols |
| EmailParser.FifthRuleDoesNothing | file-processing/email-parsing/emailparser.c:107 | The parenthesised rule changes nothing on any string, because the rule before has taken its letters out |
| EmailParser.Line.ConvertToLowercase | file-processing/email-parsing/emailparser.c:68-74 | In place: every ASCII letter becomes lower-case |
| EmailParser.Line.ReplaceAll | file-processing/email-parsing/emailparser.c:76-91 | In place: for every rule that ends by its measure, the loop ends with the repeated replacement of first occurrences and no occurrence left |
| EmailParser.Line.Normalize | file-processing/email-parsing/emailparser.c:98-135 | In place: the rules in their order give the normal form, which the next rows describe, clean and without upper-case letters |
| NormalForms.EveryPatternIsRewritten | file-processing/email-parsing/emailparser.c:98-135 | For each of the 26 pairs of pattern and replacement, written out: a line with that pattern between any two plain parts, its letters in any case, becomes the parts in small letters with the replacement between them. Plain is text without the characters by which patterns are recognised and without the four words that count without such a character before them |
| NormalForms.SpokenAddressIsWritten | file-processing/email-parsing/emailparser.c:98-135 | For all plain u, h and t: the line u + " at " + h + " dot " + t, its letters in any case, becomes u + "@" + h + "." + t in small letters |
| NormalForms.PlainLineStays | file-processing/email-parsing/emailparser.c:98-135 | A plain line becomes the same line in small letters |
| Tokenizer.SpansAreRuns | file-processing/doc-summary/summarization.c:39-58 | The scan finds exactly the maximal non-empty runs free of the delimiter, from left to right |
| Tokenizer.TokenizeBySpace | file-processing/doc-summary/summarization.c:29-61 | The first max_tokens_size runs are stored in order in a buffer one longer than the line, each readable at its place up to its terminating zero; nothing is written outside and no stored token is overwritten |
| Tokenizer.JoinRoundTrip | file-processing/doc-summary/summarization.c:29-61 | Joining words with one delimiter and cutting the result returns the words |
| Tokenizer.WordsAreWords | file-processing/doc-summary/summarization.c:41-46 | What the scan returns are words, so that the round trip applies to every line |
| WordTable.DistinctListsFirstAppearances | file-processing/doc-summary/summarization.c:70-94 | The list behind the table has each word once, has exactly the words seen, and is in order of first appearance |
| WordTable.CountedAgain | file-processing/doc-summary/summarization.c:76-84 | A word with an entry raises that entry's count by one and changes nothing else |
| WordTable.AdmittedNext | file-processing/doc-summary/summarization.c:86-92 | A word without an entry obtains the next one with count one, while there is room |
| WordTable.TurnedAway | file-processing/doc-summary/summarization.c:86-92 | A new word leaves no trace when the table is full |
| WordTable.Table.FillUpUniqueWords | file-processing/doc-summary/summarization.c:70-94 | In place: after any lines the table is the first at most 1000 distinct words in order of first appearance, each with its exact number of occurrences |
| WordTable.CountsAddUp | file-processing/doc-summary/summarization.c:70-94 | The counts add up to the words that obtained an entry; to all the words if and only if there are at most 1000 distinct ones |
| WordTable.TableHoldsFirstWords | file-processing/doc-summary/summarization.c:86-92 | The table holds the first at most 1000 distinct words, each with its number of occurrences |
| Summarization.StrCmpIsAntisymmetric | file-processing/doc-summary/summarization.c:108 | Exchanging the strings negates the comparison, and only equal strings compare as zero |
| Summarization.StrCmpIsAlphabetical | file-processing/doc-summary/summarization.c:108 | The comparison is negative exactly when the first string is a proper prefix of the second, or has the smaller character at the first place where they differ |
| Summarization.CompareIsStrictTotalOrder | file-processing/doc-summary/summarization.c:102-109 | The comparison is a strict total order on entries: negative exactly for fewer occurrences, or for as many and the alphabetically smaller word |
| Summarization.SortIsUnique | file-processing/doc-summary/summarization.c:192 | Every correct sort of a table returns the same sequence |
| Summarization.SortExists | file-processing/doc-summary/summarization.c:192 | A correct sort exists for every table |
| Summarization.RarestAreRarest | file-processing/doc-summary/summarization.c:192-202 | The selection does not depend on how the sort works, and every entry outside of it has more occurrences than each one in it, or as many and the alphabetically larger word |
| Summarization.LineWordsAreRuns | file-processing/doc-summary/summarization.c:129-141 | The words counted of a line are its first at most 1000 maximal runs without a blank, in order |
| Summarization.DocumentWordsOfLine | file-processing/doc-summary/summarization.c:129-141 | The words of a document of one line are those of the line |
| Summarization.DocumentWordsOfAppended | file-processing/doc-summary/summarization.c:129-141 | The words of two documents put together are those of the first and then those of the second |
| Summarization.ContainsRare | file-processing/doc-summary/summarization.c:215-223 | The inner loop decides whether the line contains one of the words |
| Summarization.Extract | file-processing/doc-summary/summarization.c:208-230 | The printed sentences are exactly the lines that contain one of the words, with their numbers, in order |
| Summarization.SelectedWordsArePrinted | file-processing/doc-summary/summarization.c:191-230 | Every selected word occurs in at least one printed sentence |
| Summarization.Summarize | file-processing/doc-summary/summarization.c:129-230 | The composed program, for every document and every correct sort: its table; its selection of the at most 5 entries with the fewest occurrences, alphabetically among equals, in that order; its sentences, with every selected word in one of them |
| BasicServer.Serve | basic-server/server.c:75-127 | Each client receives the sum of its numbers up to the first zero; nothing is carried over to the next client |
| BasicServer.SumOfAppended | basic-server/server.c:93-112 | What is sent is the sum: that of one number is the number, and sums add up |
| MultiplexServer.RoundKeepsInv | multiplex/server.c:143-220 | Every pass of the event loop, on any branch and any ready set, keeps the invariant: live descriptors differ and are open, each slot holds the sum of its own client's numbers, free slots hold zero, all replies so far are right |
| MultiplexServer.EveryRunRepliesLikeBasicServer | multiplex/server.c:143-220 | In every run and interleaving, the replies are those of the one-client server on the same conversations, and each zero is answered at once; what the conversations are is said by RoundServes and EveryClientReceivesSum |
| MultiplexServer.EveryRunKeepsTables | multiplex/server.c:143-220 | In every run live descriptors differ, console and master socket stay watched, everything watched is open, and free slots hold zero |
| MultiplexServer.SlotsServe | multiplex/server.c:176-218 | A data round reads one number from every ready client, adds it to that client's sum and no other, frees the slot exactly on zero, and leaves the others as they were |
| MultiplexServer.AcceptStartsConversation | multiplex/server.c:152-167 | A new client starts with no messages, whoever had the descriptor before, and is watched exactly when a slot is free |
| MultiplexServer.RoundAccepts | multiplex/server.c:152-167 | A pass with a new connection accepts it, hears nobody, and leaves the sums and the other slots as they are |
| MultiplexServer.RoundReadsConsole | multiplex/server.c:168-172 | A pass with console input ahead leaves the tables as they are, and hears nobody |
| MultiplexServer.RoundServes | multiplex/server.c:173-218 | Any other pass serves all 32 slots: one number is read from every ready client and added to its sum, a zero is answered with the sum and closes, and the others stay as they are |
| MultiplexServer.PassesKeepClient | multiplex/server.c:143-220 | Over any passes that deliver no zero from a client, its sum grows by the sum of what they deliver, and it receives no reply |
| MultiplexServer.ClientReceivesSum | multiplex/server.c:143-220 | A client that arrives while a slot is free, delivers numbers in any passes among other clients and then a zero receives the sum of those numbers, in that pass and not before, and is no longer watched |
| MultiplexServer.EveryClientReceivesSum | multiplex/server.c:143-220 | The same for every client of every run from the start of the server |
| MultiplexServer.Server.constructor | multiplex/server.c:101-141 | The tables start with the console in slot 0, the master socket in slot 1 and every other slot free |
| MultiplexServer.Server.AddMonitorFdSet | multiplex/server.c:36-46 | In place: the first free slot, if there is one, takes the descriptor |
| MultiplexServer.Server.RemoveMonitorFdSet | multiplex/server.c:52-62 | In place: the first slot with the descriptor, if there is one, becomes free |
| MultiplexServer.Server.RefreshFdSet | multiplex/server.c:67-74 | The set given to select is exactly the live descriptors |
| MultiplexServer.Server.GetMaxFd | multiplex/server.c:78-87 | The result is a live descriptor and no live descriptor is above it |
| MultiplexServer.Server.ServeSlot | multiplex/server.c:179-217 | In place: the body of the data loop for one slot |
| MultiplexServer.Server.Serve | multiplex/server.c:145-219 | In place: one pass of the event loop is the step of the state machine, which RoundAccepts, RoundReadsConsole and RoundServes describe, and keeps the invariant |
| MultiplexServer.Server.Run | multiplex/server.c:143-220 | In place: any number of passes is a run of the state machine |

## Left out

- Sockets, select, file reading, prompts and printing: they become parameters (lines, draws, ready sets, numbers read)
  and results (printed texts, traces).
- Random numbers and qsort: a list of draws, and any function that returns a sorted permutation.
- Memory: malloc, free and their failures. A write or a read outside a buffer is reported (`PaddingFunction`,
  `HexStringToBytes`, `CStrings.Print`), not carried out; what lies behind the buffer is not part of this model.
- Fixed line buffers: lines and documents have any length; splitting by fgets is not modelled.
- Integer overflow of word counts, running sums and lengths: these are unbounded. `long long` is bounded by `peak`.
- HexStringToBytes: sscanf is a parameter that reads two digits as C says; on other characters it may read a value or
  nothing, and then the byte is any byte.
- ReplaceAll: rules that do not end by one of the two measures; a rule that puts its pattern back would run forever
  (`RestoringRuleNeverEnds`), and the program passes none.
- EveryPatternIsRewritten: a line has one pattern; of lines with several only the address in words is stated, because
  patterns overlap and an earlier rule can take letters from a later one.
- KeyExpansion: `aes_encrypt.c` and `key_expansion.c` hold the same key schedule; it is modelled once.
- Sbox: a table is a function with the same sixteen rows, since an array of 256 bytes would say no more.
- UpdateEntries: the nested loops that sub_bytes, inv_sub_bytes and add_state_round share are written once and take
  the update of an entry as a parameter; likewise PermuteRows for the two row shifts. add_state_round goes through the
  same entries column by column. UpdateColumns does the same for mix_columns, whose four expressions are a function.
- Fill: the two loops of KeyExpansion take the words of the key, the sum of two words and the word to add as
  parameters.
- WriteRun: the two padding loops, in padding_function and in apply_pkcs7_padding, are written once.
- StrCmp: the value is the difference of the first characters that differ; C fixes only its sign.
- Tokenizer: places in the buffer stand for addresses.
- RunProgram: a message is one integer; parsing it is left out.
- EveryRunRepliesLikeBasicServer: says nothing of clients that find no free slot, which the program accepts but never
  watches, nor of fairness: new connections and console input go before client data. Failures of system calls end the
  program and are not steps.
- The commands that print tables and CSV files, the regular expression and the prefix scan of `emailparser.c`, and
  idempotence of the normal form, which does not hold.
- The programs in `http-setup`, `FTP`, `multiplex-routinginfo`, `system-info`, sentence generation and the other small
  files: their properties would be easy additions.

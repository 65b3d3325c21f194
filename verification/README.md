# Software cryptography: model and proofs

The library computes authenticated encryption, block-cipher modes, hashes, HMAC and HKDF in software.
This project models that code in Dafny, in the form it has (arrays rewritten in place, hasher objects,
loops), and proves each routine against a definition taken from the standard it implements:

- RFC 8439: Poly1305 on 26-bit limbs, ChaCha20, the authenticated cipher (`Poly1305`, `ChaCha20`, `SoftChaChaPoly`)
- FIPS 197: AES-128 (`Gf256`, `AesSbox`, `Aes128` for the definitions, `SoftAes128` for the code)
- NIST SP 800-38D: GCM (`Gcm`, `SoftAesGcm`, with the field arithmetic of `Gf2`)
- FIPS 180-4: SHA-256, SHA-384, SHA-512 (`Padding`, `Sha256`, `Sha512`, `SoftSha256`, `SoftSha512`)
- RFC 2104 and RFC 5869: HMAC and HKDF (`Hmac`, `SoftHkdf`)
- NIST SP 800-38A: CBC and CTR as the on-chip back end runs them (`Modes`, `OnChip`)
- the streaming hash contexts of the engine, over whole runs of calls (`Session`, `Engine`)

`Bits`, `Bytes`, `Word32`, `Word64`, `Counter`, `Aead` and `Status` are shared.  `dafny verify dfyconfig.toml` checks everything.

The words of ChaCha20 and of the hash functions are bit vectors, on which addition wraps as in C.  Everywhere
else machine words are integers with explicit bounds: a left shift is a multiplication reduced modulo the
word width, a right shift a division, and `&`, `|` and `^` are defined bit by bit on natural numbers (`Gf256`
has them on bit vectors too, and proves that to be the same).  Where the source relies on nothing being lost,
that is proved; where it relies on wrap-around, that is in the model.

What a routine is proved against is fixed in turn, by laws that do not mention how it is defined: bit by bit
for the functions on words, column by column for a round of AES, field by field for what is authenticated, and
by the roots of primes for the constants of the hash functions.  `Poly1305Vectors`, `ChaCha20Vectors`,
`Aes128Vectors`, `Sha256Vectors` and `Sha512Vectors` derive examples of the standards from the definitions.

A pointer that is only read is a sequence, or an `Input` where null is a case of its own; a buffer that the
source allows to be both input and output is a pair of arrays that may be the same.  The static inverse S-box
of the AES code is the field of a `BlockCipher` object.  Memory the source leaves uninitialised is a parameter
(`stack` in `SoftChaChaPoly.SoftDecrypt`), and so is the outcome of each call to the ECB peripheral.

## Where the code does not do what its interface suggests

- `docs/API_REFERENCE.md:599` gives RFC 8439 without a length limit.  The code writes no tag, and still reports
  success, when the padded data exceed 512 bytes (src/backends/SoftChaChaPoly.cpp:280-283).
  `SoftChaChaPoly.TagNeedsFit` gives the exact condition.  Decryption of such data compares the given tag with
  16 bytes of the stack that nothing has written, so it accepts any ciphertext whose tag equals them;
  `SoftChaChaPoly.SoftDecrypt` and `SoftChaChaPoly.SealAndOpenInPlace` cover that case too.
- CBC decryption reads its input after it has written its output (src/backends/OnChipBackend.cpp:117-118);
  `docs/API_REFERENCE.md:560` recommends separate buffers.  `OnChip.InPlaceExact` and
  `OnChip.InPlaceNeedsOneBlock` say exactly when one buffer will do.
- HKDF has no check of the output length, so the counter octet wraps after 255 blocks
  (src/backends/SoftHkdf.cpp:60).  `Hmac.CountersFit` says exactly for which lengths it does not,
  `Hmac.CounterWraps` what the first blocks beyond are, and `Hmac.OutputIsRfc` that the standard is met up to there.
- SHA-512 counts bits in 64 bits where the standard has 128.  `SoftSha512.PaddedIsFips` gives the exact bound.
  SHA-256 has a 64-bit field in the standard too, so the wrap of the counter does not show
  (`SoftSha256.LengthField`); FIPS 180-4 itself defines SHA-256 only below 2^61 bytes.

## Model

| member | source | states |
|---|---|---|
| Poly1305.Poly1305Auth | src/backends/SoftChaChaPoly.cpp:252-266 | For every message and every 32-byte key the tag is ((c1 r^q + ... + cq r) mod (2^130 - 5) + s) mod 2^128 in little-endian order, with clamped r and an appended 1 bit in each block, the short last one included (section 2.5 of RFC 8439). |
| Poly1305.HornerIsPowerSum | src/backends/SoftChaChaPoly.cpp:101-162 | Accumulating block by block, as the loop does, gives the polynomial in r of the standard. |
| Poly1305.ClampBit | src/backends/SoftChaChaPoly.cpp:87-97 | Bit i of r is bit i of the first half of the key, except that the bits 28-33, 60-65, 92-97 and all from 124 on are zero (section 2.5 of RFC 8439). |
| Poly1305.EmptyTag | src/backends/SoftChaChaPoly.cpp:216-250 | The tag of the empty message is the second half of the key, for every key. |
| Poly1305.TagDifference | src/backends/SoftChaChaPoly.cpp:216-250 | Without its second half, which is added modulo 2^128, the key enters the tag by its first half only: two keys with the same first half give the same difference of tag and second half, for every message. |
| Poly1305Vectors.TagAnswer | src/backends/SoftChaChaPoly.cpp:252-266 | The tag of the example in section 2.5.2 of RFC 8439, three blocks long with a short last one, derived from the definitions. |
| Poly1305.Poly1305Init | src/backends/SoftChaChaPoly.cpp:87-99 | The five masked limbs are the clamped first half of the key, and h is zero. |
| Poly1305.AddBlock | src/backends/SoftChaChaPoly.cpp:109-122 | The limbs grow by exactly the block with its 1 bit; no 32-bit sum overflows and the bounds that the products need hold. |
| Poly1305.MulReduce | src/backends/SoftChaChaPoly.cpp:124-157 | The value becomes h * r modulo 2^130 - 5; no 64-bit column and no carry narrowed to 32 bits loses a bit; afterwards h[0], h[2], h[3], h[4] < 2^26 and h[1] < 2^26 + 64. |
| Poly1305.Poly1305Blocks | src/backends/SoftChaChaPoly.cpp:101-162 | The bounds are kept over any number of blocks and the value is the Horner form of the blocks modulo 2^130 - 5. |
| Poly1305.CarryFully | src/backends/SoftChaChaPoly.cpp:168-182 | From every state within the bounds one pass carries completely: the last carry into h[1] stays within 26 bits; the residue is unchanged. |
| Poly1305.SubtractOnce | src/backends/SoftChaChaPoly.cpp:184-209 | One masked subtraction reaches the unique residue below 2^130 - 5. |
| Poly1305.Poly1305Finish | src/backends/SoftChaChaPoly.cpp:164-250 | Repacking into four words and adding s is exact modulo 2^128, from every state the block loop can leave. |
| ChaCha20.QuarterBack | src/backends/SoftChaChaPoly.cpp:11-28 | The quarter round has a two-sided inverse. |
| ChaCha20.RoundsBijective | src/backends/SoftChaChaPoly.cpp:51-64 | Any number of double rounds, ten in particular, is a bijection on the 16-word states. |
| ChaCha20.ColumnRoundAt | src/backends/SoftChaChaPoly.cpp:53-58 | The first four quarter rounds work on the four columns independently. |
| ChaCha20.DiagonalsAreColumns | src/backends/SoftChaChaPoly.cpp:59-63 | The other four quarter rounds are the column round seen through turned rows. |
| ChaCha20.QuarterSteps | src/backends/SoftChaChaPoly.cpp:15-28 | For all words, the quarter round is four additions, each followed by an exclusive or and a turn to the left by 16, 12, 8 and 7: bit (i + n) mod 32 of the new word is the exclusive or of the bits i of the old word and of the sum. |
| ChaCha20Vectors.QuarterAnswer | src/backends/SoftChaChaPoly.cpp:15-28 | The example of section 2.1.1 of RFC 8439, derived from the definitions. |
| ChaCha20Vectors.BlockAnswer | src/backends/SoftChaChaPoly.cpp:30-71 | The key block of section 2.3.2 of RFC 8439, derived from the definitions: it fixes the ten double rounds, the constants, the order of key, counter and nonce, and the byte order. |
| SoftChaChaPoly.QuarterRound | src/backends/SoftChaChaPoly.cpp:15-28 | In place, at any four different words, exactly those four change, to the quarter round of section 2.1 of RFC 8439. |
| SoftChaChaPoly.ChachaBlock | src/backends/SoftChaChaPoly.cpp:30-71 | The 64 bytes are the block function of section 2.3, with the words in little-endian order. |
| SoftChaChaPoly.ChachaXor | src/backends/SoftChaChaPoly.cpp:73-85 | For every length, input and output distinct or the same array: the output is the input XORed with the key stream whose counter advances modulo 2^32; nothing behind it changes. |
| ChaCha20.CryptTwice | src/backends/SoftChaChaPoly.cpp:73-85 | Encrypting twice restores the data, at every length. |
| ChaCha20.CryptSplits | src/backends/SoftChaChaPoly.cpp:73-85 | Data may be split at any 64-byte boundary by advancing the counter modulo 2^32. |
| SoftChaChaPoly.Layout | src/backends/SoftChaChaPoly.cpp:286-311 | The buffer holds the AAD and the ciphertext, each filled up with zeros to 16 bytes, and the two 64-bit little-endian lengths (section 2.8). |
| ChaCha20.MacDataInjective | src/backends/SoftChaChaPoly.cpp:286-311 | The authenticated bytes determine both the AAD and the ciphertext. |
| ChaCha20.TagFrom | src/backends/SoftChaChaPoly.cpp:268-313 | The tag authenticates the AAD and the ciphertext, each filled up with zeros, and then the length of the AAD and that of the ciphertext, under the first half of the key block with counter 0 (sections 2.6 and 2.8). |
| ChaCha20.SealedByte | src/backends/SoftChaChaPoly.cpp:324-335 | Byte i of the ciphertext is byte i of the plaintext XORed with byte i mod 64 of the key block with counter i/64 + 1. |
| SoftChaChaPoly.AeadPoly1305 | src/backends/SoftChaChaPoly.cpp:268-313 | Writes the tag of section 2.8 when the bytes fit 512, and otherwise leaves the tag memory as it was. |
| SoftChaChaPoly.TagNeedsFit | src/backends/SoftChaChaPoly.cpp:280-283 | The tag is that of RFC 8439 whatever the memory held before if and only if the padded data fit 512 bytes. |
| SoftChaChaPoly.SoftEncrypt | src/backends/SoftChaChaPoly.cpp:324-335 | Ciphertext and tag of section 2.8; reports success even where no tag was written. |
| SoftChaChaPoly.SoftDecrypt | src/backends/SoftChaChaPoly.cpp:337-351 | Accepts exactly when the tag equals the expected one (or, when the data do not fit, what the stack held); a rejected message leaves the output untouched. |
| SoftChaChaPoly.SealAndOpenInPlace | src/backends/SoftChaChaPoly.cpp:324-351 | Encrypt and then decrypt in the same buffer succeeds if and only if the data fit or the tag memory happens to equal the stack bytes; success restores the plaintext, failure leaves the ciphertext, and when the data fit the tag is that of RFC 8439. |
| ChaCha20.DecryptEncrypt | src/backends/SoftChaChaPoly.cpp:324-351 | Decryption accepts a ciphertext and tag with a given plaintext if and only if encryption of that plaintext produces them. |
| Word32.RotlBack | src/backends/SoftChaChaPoly.cpp:11-13 | Rotating by n and then by 32 - n restores every word. |
| Word32.BitOfRotr | src/backends/SoftSha256.cpp:9-11 | A turn to the right by n puts bit i + n, modulo 32, at place i, for all n and i. |
| Word32.BitOfRotl | src/backends/SoftChaChaPoly.cpp:11-13 | A turn to the left by n puts bit i at place i + n, modulo 32, for all n and i. |
| Word32.BitOfShr | src/backends/SoftSha256.cpp:47-51 | A shift to the right by n puts bit i + n at place i and zeros above. |
| Word32.BitOfAnd | src/backends/SoftSha256.cpp:58-61 | On words too, & is conjunction bit by bit. |
| Word32.BitOfXor | src/backends/SoftSha256.cpp:48-61 | On words too, ^ is exclusive or bit by bit. |
| Word32.BitOfNot | src/backends/SoftSha256.cpp:58-58 | ~ negates every bit. |
| Bits.AndBit | src/backends/SoftChaChaPoly.cpp:88-97 | Bit by bit, & is conjunction. |
| Bits.OrBit | src/backends/SoftChaChaPoly.cpp:88-97 | Bit by bit, | is disjunction. |
| Bits.XorBit | src/backends/SoftChaChaPoly.cpp:15-28 | Bit by bit, ^ is exclusive or. |
| Bits.SameBits | src/backends/SoftChaChaPoly.cpp:15-28 | A number is determined by its bits, so nothing else has the bits of a result. |
| Gf256.MulLoop | src/backends/SoftAes128.cpp:102-112 | The shift-and-add loop computes the product in GF(2^8) modulo x^8 + x^4 + x^3 + x + 1, for all bytes. |
| Gf256.MulByteVal | src/backends/SoftAes128.cpp:102-112 | Doubling one factor for every bit of the other and adding up the doublings is the product in the field, for all bytes. |
| Gf256.XtimeIsStep | src/backends/SoftAes128.cpp:35-35 | xtime is multiplication by x in that field. |
| AesSbox.InvSubSub | src/backends/SoftAes128.cpp:37-42 | The inverse table undoes the S-box on every byte. |
| AesSbox.SubInvSub | src/backends/SoftAes128.cpp:37-42 | The S-box undoes the inverse table, so it is a permutation of the bytes. |
| AesSbox.SubIsAffineOfInverse | src/backends/SoftAes128.cpp:9-31 | Every entry of the table but that of zero is the affine image of the inverse in GF(2^8), as section 5.1.1 of FIPS 197 defines it. |
| AesSbox.SubOfZero | src/backends/SoftAes128.cpp:9-31 | The entry of zero is the affine image of zero. |
| Aes128.ShiftRowsInverse | src/backends/SoftAes128.cpp:75-89 | The two row permutations are inverse to each other. |
| Aes128.MixColumnsInverse | src/backends/SoftAes128.cpp:91-123 | The column mixing built on mul and the one built on xtime are inverse to each other on every state. |
| SoftAes128.KeyExpansion | src/backends/SoftAes128.cpp:44-61 | The 176 bytes are the eleven round keys of section 5.2 of FIPS 197. |
| SoftAes128.AddRoundKey | src/backends/SoftAes128.cpp:63-65 | In place, the state is XORed with the round key. |
| SoftAes128.SubBytes | src/backends/SoftAes128.cpp:67-69 | In place, the S-box on every byte. |
| SoftAes128.BlockCipher.InvSubBytes | src/backends/SoftAes128.cpp:71-73 | In place, the inverse S-box on every byte, once the table is built. |
| SoftAes128.ShiftRows | src/backends/SoftAes128.cpp:75-81 | The in-place moves are the row rotations. |
| SoftAes128.InvShiftRows | src/backends/SoftAes128.cpp:83-89 | The in-place moves are the inverse row rotations. |
| SoftAes128.MixColumns | src/backends/SoftAes128.cpp:91-100 | In place, every column is multiplied by the matrix of section 5.1.3. |
| SoftAes128.InvMixColumns | src/backends/SoftAes128.cpp:114-123 | In place, every column is multiplied by the inverse matrix of section 5.3.3. |
| SoftAes128.BlockCipher.InitRsbox | src/backends/SoftAes128.cpp:33-42 | Built once behind a flag, the table is the inverse of the S-box at every index. |
| SoftAes128.BlockCipher.Cipher | src/backends/SoftAes128.cpp:125-149 | In place, the cipher or the inverse cipher of FIPS 197 under the same schedule. |
| SoftAes128.BlockCipher.EncryptBlock | src/backends/SoftAes128.cpp:153-163 | The cipher of section 5.1 of FIPS 197. |
| SoftAes128.BlockCipher.DecryptBlock | src/backends/SoftAes128.cpp:165-175 | The inverse cipher of section 5.3, also on the first call. |
| Aes128.DecryptUndoesEncrypt | src/backends/SoftAes128.cpp:125-175 | Decryption restores every block under every key. |
| Aes128.EncryptUndoesDecrypt | src/backends/SoftAes128.cpp:125-175 | Encryption restores every decrypted block under every key. |
| Aes128.FirstState | src/backends/SoftAes128.cpp:125-138 | Byte i before the first round is byte i of the block XORed with byte i of round key 0; for decryption, of round key 10. |
| Aes128.RoundColumn | src/backends/SoftAes128.cpp:138-144 | Round n, column by column: the S-box values of the bytes 4c, 4c + 5, 4c + 10 and 4c + 15 (modulo 16) are multiplied by the rows (2, 3, 1, 1), (1, 2, 3, 1), (1, 1, 2, 3), (3, 1, 1, 2) and XORed with round key n. |
| Aes128.LastColumn | src/backends/SoftAes128.cpp:145-147 | The last round does the same without the matrix, with round key 10. |
| Aes128.InvRoundColumn | src/backends/SoftAes128.cpp:127-133 | Round n of decryption: the inverse S-box values of the bytes 4c, 4c + 13, 4c + 10 and 4c + 7 (modulo 16) are XORed with round key 10 - n and then multiplied by the rows of the inverse matrix. |
| Aes128.InvLastColumn | src/backends/SoftAes128.cpp:134-136 | The last round of decryption has no matrix and takes round key 0. |
| Aes128Vectors.CipherAnswer | src/backends/SoftAes128.cpp:153-175 | The example of FIPS 197, appendix C.1, both ways, derived from the definitions: it fixes the key schedule and the number of rounds. |
| SoftAesGcm.Gf128Mul | src/backends/SoftAesGcm.cpp:23-39 | The shift-and-xor loop is multiplication modulo x^128 + x^7 + x^2 + x + 1 in the reflected bit order of GCM (section 6.3 of NIST SP 800-38D). |
| Gcm.BlockTimesLaws | src/backends/SoftAesGcm.cpp:23-39 | That product is commutative, associative and distributive over XOR for all 128-bit blocks. |
| Gcm.BlockTimesIsProduct | src/backends/SoftAesGcm.cpp:23-39 | Read as polynomials, the product is the one block that differs from the product of its factors by a multiple of x^128 + x^7 + x^2 + x + 1, and no other block does. |
| Gcm.PolyBit | src/backends/SoftAesGcm.cpp:23-39 | In that reading, bit j of byte i, counted from the left, is the coefficient of x^(8i + j). |
| Gcm.ModulusBits | src/backends/SoftAesGcm.cpp:32-35 | The modulus has exactly the terms x^128, x^7, x^2, x and 1. |
| Gf2.MulIsProductModulo | src/backends/SoftAesGcm.cpp:23-39 | For every modulus: c is the product exactly when it is reduced and differs from the product of polynomials by a multiple of the modulus. |
| Gcm.GhashIsPowerSum | src/backends/SoftAesGcm.cpp:41-46 | Chaining blocks from zero gives X1 H^m + ... + Xm H (section 6.4). |
| SoftAesGcm.GhashBlock | src/backends/SoftAesGcm.cpp:41-46 | One step of the chaining: XOR the block in, multiply by H. |
| SoftAesGcm.GhashPadded | src/backends/SoftAesGcm.cpp:48-60 | For every length, the data are absorbed in blocks, the last one filled up with zeros. |
| SoftAesGcm.IncCounter | src/backends/SoftAesGcm.cpp:17-21 | The last four bytes count +1 modulo 2^32 and the first twelve stay. |
| Gcm.CounterBlocksDiffer | src/backends/SoftAesGcm.cpp:62-107 | All 2^32 successive counter blocks are different, the block that masks the tag among them. |
| Gcm.HashedInjective | src/backends/SoftAesGcm.cpp:84-101 | The hashed blocks determine both the AAD and the ciphertext, each below 2^64 bits. |
| Gcm.LengthFields | src/backends/SoftAesGcm.cpp:94-101 | Below 2^64 bits, the last hashed block holds the bit length of the AAD and then that of the ciphertext, both big-endian. |
| Gcm.HashedFields | src/backends/SoftAesGcm.cpp:91-92 | The first blocks put together are the AAD, the next ones the ciphertext, each filled up with zeros to whole blocks, and one block follows. |
| Gcm.ShortTags | src/backends/SoftAesGcm.cpp:84-108 | The hash key is the encrypted zero block, every block is XORed in before the multiplication by it, and the sum is masked with the encryption of the IV followed by 1: in closed form for no data and for one block of AAD. |
| Gcm.FirstCounter | src/backends/SoftAesGcm.cpp:62-68 | The initial counter block is the IV followed by the number 1. |
| Gcm.SealedByte | src/backends/SoftAesGcm.cpp:70-82 | Byte i of the ciphertext is byte i of the plaintext XORed with byte i mod 16 of the encryption of the IV followed by i/16 + 2. |
| SoftAesGcm.MakeJ0 | src/backends/SoftAesGcm.cpp:62-68 | The initial counter block of section 7.1 for a 96-bit IV. |
| SoftAesGcm.Gctr | src/backends/SoftAesGcm.cpp:70-82 | For every length, in place or not, the output is the input XORed with the encrypted counter blocks (section 6.5). |
| SoftAesGcm.ComputeTag | src/backends/SoftAesGcm.cpp:84-108 | The tag is the GHASH power sum over AAD, ciphertext and bit lengths, masked (sections 6.4 and 7.1). |
| SoftAesGcm.SoftEncrypt | src/backends/SoftAesGcm.cpp:112-131 | Authenticated encryption of section 7.1, in place or not; reports success. |
| SoftAesGcm.SoftDecrypt | src/backends/SoftAesGcm.cpp:133-151 | Accepts exactly when all 16 tag bytes match the recomputed tag and otherwise leaves the output untouched. |
| SoftAesGcm.SealAndOpenInPlace | src/backends/SoftAesGcm.cpp:112-151 | Decrypting what encrypt produced, in the same buffer, succeeds and restores the plaintext at every length. |
| Gcm.DecryptEncrypt | src/backends/SoftAesGcm.cpp:112-151 | Decryption accepts a ciphertext and tag with a given plaintext if and only if encryption of that plaintext produces them. |
| Aead.TagsEqual | src/backends/SoftAesGcm.cpp:143-145 | The accumulated difference is zero if and only if all 16 bytes agree. |
| Aead.XorRun | src/backends/SoftAesGcm.cpp:79-79 | The XOR loop is right for a shared buffer too: bytes not yet reached keep their values. |
| SoftSha256.Hasher.Reset | src/backends/SoftSha256.cpp:28-39 | Forgets the message and starts from the initial hash value. |
| SoftSha256.Hasher.ProcessBlock | src/backends/SoftSha256.cpp:41-69 | The expanded schedule and the rolling variables compute the recurrences of section 6.2.2 of FIPS 180-4 modulo 2^32 for every block and chaining value. |
| SoftSha256.ExpandBlock | src/backends/SoftSha256.cpp:41-51 | The array filled in place is the message schedule. |
| SoftSha256.Hasher.Update | src/backends/SoftSha256.cpp:71-86 | Keeps the invariant (state_ = fold over the completed blocks, buffer_ = the rest, bufferLen_ < 64) and appends exactly the given bytes to the message; a null pointer changes nothing. |
| SoftSha256.Hasher.Finish | src/backends/SoftSha256.cpp:88-112 | The digest of everything appended since the last reset, however it was split; the hasher is then as after reset. |
| SoftSha256.Hasher.AppendZeros | src/backends/SoftSha256.cpp:89-94 | The padding loop terminates and appends the least number of zeros. |
| SoftSha256.Hasher.EmptyIsFresh | src/backends/SoftSha256.cpp:111-111 | A hasher with an empty message has the state of a new one. |
| SoftSha512.Hasher.EmptyIsFresh | src/backends/SoftSha512.cpp:159-159 | A hasher with an empty message has the state of a new one of its variant. |
| SoftSha256.StoreDigest | src/backends/SoftSha256.cpp:105-110 | The eight words in big-endian order; nothing behind them changes. |
| SoftSha256.LengthField | src/backends/SoftSha256.cpp:89-101 | The wrap-around of the bit counter cannot be seen in the length field. |
| Padding.ZeroCountIsLeast | src/backends/SoftSha256.cpp:94-94 | The first count of zeros that makes the length field end a block is the one of section 5.1.1. |
| Padding.PadInjective | src/backends/SoftSha256.cpp:88-104 | Padding loses nothing: it determines the message. |
| Bytes.Load32BE | src/backends/SoftSha256.cpp:43-46 | The shifted and ORed bytes are the big-endian word. |
| SoftSha256.HashOnce | src/backends/SoftSha256.cpp:114-118 | The SHA-256 digest of the input. |
| Sha256.ChBit | src/backends/SoftSha256.cpp:58-58 | For all words and every i: bit i of the choice is bit i of the second word where the first has a 1, and bit i of the third where it has a 0 (section 4.1.2 of FIPS 180-4). |
| Sha256.MajBit | src/backends/SoftSha256.cpp:61-61 | Bit i of the majority is what at least two of the three bits are. |
| Sha256.BigSigma0Bit | src/backends/SoftSha256.cpp:60-60 | Bit i is the parity of the bits i + 2, i + 13 and i + 22, modulo 32. |
| Sha256.BigSigma1Bit | src/backends/SoftSha256.cpp:57-57 | Bit i is the parity of the bits i + 6, i + 11 and i + 25, modulo 32. |
| Sha256.SmallSigma0Bit | src/backends/SoftSha256.cpp:48-48 | Bit i is the parity of the bits i + 7 and i + 18, modulo 32, and of bit i + 3 if there is one. |
| Sha256.SmallSigma1Bit | src/backends/SoftSha256.cpp:49-49 | Bit i is the parity of the bits i + 17 and i + 19, modulo 32, and of bit i + 10 if there is one. |
| Sha256Vectors.FirstConstantsAreRoots | src/backends/SoftSha256.cpp:13-18 | The constants K[0] to K[31] are, in order, the first 32 bits behind the binary point of the cube roots of the primes from 2 to 131 (section 4.2.2). |
| Sha256Vectors.LastConstantsAreRoots | src/backends/SoftSha256.cpp:18-24 | The constants K[32] to K[63] are those of the primes from 137 to 311. |
| Sha256Vectors.INITIALIsRoots | src/backends/SoftSha256.cpp:28-36 | The initial hash value is made of the square roots of the first eight primes in the same way (section 5.3.3). |
| Sha256Vectors.AbcDigest | src/backends/SoftSha256.cpp:114-118 | The digest of "abc", derived from the definitions: it fixes the order of a round, the padding and the byte order. |
| SoftSha256.HmacSha256 | src/backends/SoftSha256.cpp:120-144 | HMAC of section 2 of RFC 2104 for every key and message length, with one hasher used for both passes. |
| Hmac.KeyPadding | src/backends/SoftSha256.cpp:122-127 | Zeros behind a short key change nothing; a long key acts as its hash. |
| Hmac.MacFromPads | src/backends/SoftSha256.cpp:128-143 | For a key of 64 bytes: the outer hash starts with the key XORed with 0x5C, the inner one, which has the text, with the key XORed with 0x36. |
| SoftSha512.Hasher.Reset | src/backends/SoftSha512.cpp:44-56 | Starts from the initial value of SHA-512. |
| SoftSha512.ExpandBlock | src/backends/SoftSha512.cpp:72-84 | The array filled in place is the message schedule of 80 words. |
| SoftSha512.Hasher.Reset384 | src/backends/SoftSha512.cpp:58-70 | Starts from the initial value of SHA-384. |
| SoftSha512.Hasher.ProcessBlock | src/backends/SoftSha512.cpp:72-114 | The recurrences of section 6.4.2 modulo 2^64, 80 rounds, for every block and chaining value. |
| SoftSha512.Hasher.Update | src/backends/SoftSha512.cpp:116-131 | Keeps the invariant with 128-byte blocks and appends exactly the given bytes. |
| SoftSha512.Hasher.AppendZeros | src/backends/SoftSha512.cpp:134-137 | The padding loop terminates and appends the least number of zeros that leaves 16 bytes. |
| SoftSha512.StoreDigest | src/backends/SoftSha512.cpp:148-158 | Six or eight words in big-endian order; nothing behind them changes. |
| SoftSha512.Hasher.Finish | src/backends/SoftSha512.cpp:133-160 | The digest of the selected variant for every split; the hasher is left reset for SHA-512. |
| SoftSha512.PaddedIsFips | src/backends/SoftSha512.cpp:135-146 | Among the messages FIPS 180-4 admits, the padding with a length field built from the 64-bit counter is that of section 5.1.2 if and only if the message is below 2^61 bytes. |
| SoftSha512.DigestIsFips | src/backends/SoftSha512.cpp:133-160 | Below 2^61 bytes the digests are SHA-512 and SHA-384. |
| SoftSha512.Hash384Once | src/backends/SoftSha512.cpp:166-171 | The one-shot SHA-384. |
| SoftSha512.Hash512Once | src/backends/SoftSha512.cpp:173-177 | The one-shot SHA-512. |
| Sha512.ChSelects | src/backends/SoftSha512.cpp:91-91 | Where the first word has ones, the bits of the choice are those of the second; where it has zeros, those of the third. |
| Sha512.MajSelects | src/backends/SoftSha512.cpp:94-94 | Where two words agree, the bits of the majority are theirs; where they differ, the third decides. |
| Sha512.BigSigma0Turns | src/backends/SoftSha512.cpp:93-93 | The exclusive or of the word turned right by 28, 34 and 39 (section 4.1.3). |
| Sha512.BigSigma1Turns | src/backends/SoftSha512.cpp:90-90 | The exclusive or of the word turned right by 14, 18 and 41. |
| Sha512.SmallSigma0Turns | src/backends/SoftSha512.cpp:81-81 | The exclusive or of the word turned right by 1 and 8 and shifted right by 7. |
| Sha512.SmallSigma1Turns | src/backends/SoftSha512.cpp:82-82 | The exclusive or of the word turned right by 19 and 61 and shifted right by 6. |
| Sha512Vectors.FirstConstantsAreRoots | src/backends/SoftSha512.cpp:13-24 | The constants K[0] to K[31] are, in order, the first 64 bits behind the binary point of the cube roots of the primes from 2 to 131 (section 4.2.3). |
| Sha512Vectors.MiddleConstantsAreRoots | src/backends/SoftSha512.cpp:24-32 | The constants K[32] to K[55] are those of the primes from 137 to 263. |
| Sha512Vectors.LastConstantsAreRoots | src/backends/SoftSha512.cpp:32-40 | The constants K[56] to K[79] are those of the primes from 269 to 409. |
| Sha512Vectors.INITIAL512IsRoots | src/backends/SoftSha512.cpp:44-52 | The initial hash value is made of the square roots of the first eight primes (section 5.3.5). |
| Sha512Vectors.INITIAL384IsRoots | src/backends/SoftSha512.cpp:58-66 | That of SHA-384 is made of the square roots of the ninth to the sixteenth prime (section 5.3.4). |
| Sha512Vectors.AbcDigest | src/backends/SoftSha512.cpp:173-177 | The SHA-512 digest of "abc", derived from the definitions. |
| Sha512.Hash384Words | src/backends/SoftSha512.cpp:148-158 | A SHA-384 digest is made of the first six words. |
| Bytes.Load64BE | src/backends/SoftSha512.cpp:74-79 | The shifted and ORed bytes are the big-endian word. |
| SoftHkdf.HmacSha256Parts | src/backends/SoftHkdf.cpp:9-31 | HMAC of the parts one after the other, also when the output array is the one that holds the first part. |
| SoftHkdf.HkdfSha256 | src/backends/SoftHkdf.cpp:35-62 | Extract and expand: the first okmLen bytes of T(1) | T(2) | ... for every length; nothing behind them changes. |
| Hmac.OutputIsRfc | src/backends/SoftHkdf.cpp:44-61 | Up to 255 blocks the output is that of section 2.3 of RFC 5869. |
| Hmac.CountersFit | src/backends/SoftHkdf.cpp:42-60 | Every block is computed with its own number as the counter octet if and only if the length is at most 255 * 32. |
| Hmac.CounterWraps | src/backends/SoftHkdf.cpp:60-60 | Block 256 is computed with the octet 0 and block 257 with the octet 1. |
| Hmac.OutputPrefix | src/backends/SoftHkdf.cpp:44-61 | A shorter output is a prefix of a longer one. |
| Hmac.DefaultSalt | src/backends/SoftHkdf.cpp:39-41 | The default salt of 32 zeros is the same as an empty HMAC key. |
| Hmac.ExtractFromPads | src/backends/SoftHkdf.cpp:35-42 | For a salt of 64 bytes: the salt is the key of the extracting MAC and the input keying material its text. |
| Counter.Increment | src/backends/OnChipBackend.cpp:23-27 | Adds one to the big-endian number modulo its size, with full byte carry. |
| OnChip.AesCbcEncrypt | src/backends/OnChipBackend.cpp:91-105 | CBC of section 6.2 of NIST SP 800-38A, in place or not, up to the first failing ECB call, which is reported. |
| OnChip.AesCbcDecrypt | src/backends/OnChipBackend.cpp:107-121 | CBC decryption when the arrays are distinct; in one array, a chaining to the output written before. |
| Modes.CbcRoundTrip | src/backends/OnChipBackend.cpp:91-121 | Every whole-block message is restored, and the converse. |
| Modes.CbcEquation | src/backends/OnChipBackend.cpp:91-105 | Every ciphertext block is the encryption of the plaintext block XORed with the ciphertext block before it, and the first with the IV (section 6.2). |
| OnChip.XorBlock | src/backends/OnChipBackend.cpp:19-21 | Sixteen bytes of the destination become the XOR; the others stay. |
| OnChip.InPlaceExact | src/backends/OnChipBackend.cpp:114-118 | For every key, IV and ciphertext: decryption in one array is right if and only if every block but the last decrypts to itself. |
| OnChip.InPlaceNeedsOneBlock | src/backends/OnChipBackend.cpp:114-118 | One array does for all IVs and ciphertexts, whatever the key, if and only if there is at most one block. |
| OnChip.AesCtr | src/backends/OnChipBackend.cpp:123-141 | CTR of section 6.5 at every length, in place or not, up to the first failing ECB call, which is reported. |
| Modes.CtrTwice | src/backends/OnChipBackend.cpp:123-141 | CTR is its own inverse at every length. |
| Modes.CtrSplits | src/backends/OnChipBackend.cpp:123-141 | Data may be split at block boundaries by adding the block count to the 128-bit counter. |
| Modes.CtrByte | src/backends/OnChipBackend.cpp:123-141 | Byte i is XORed with byte i mod 16 of the encryption of the block whose number is that of the first counter block plus i/16, modulo 2^128. |
| Modes.CounterBlocksDiffer | src/backends/OnChipBackend.cpp:23-27 | Up to 2^128 successive counter blocks are all different. |
| Engine.Sha256Context.ResetContext | src/crypto/CryptoHash.h:16-23 | Closes the context. |
| Engine.Sha384Context.ResetContext | src/crypto/CryptoHash.h:25-32 | Closes the context. |
| Engine.Sha512Context.ResetContext | src/crypto/CryptoHash.h:34-41 | Closes the context. |
| Engine.Sha256Begin | src/crypto/CryptoEngine.cpp:143-147 | Opens the context on an empty message, whatever came before. |
| Engine.Sha256Update | src/crypto/CryptoEngine.cpp:149-154 | Ok exactly when a Begin is open. |
| Engine.Sha256Finish | src/crypto/CryptoEngine.cpp:156-162 | After any run of calls: with an output, Ok exactly when a Begin is open, and the digest covers exactly the bytes since the latest Begin; otherwise the output is untouched and an open context stays open. |
| Engine.Sha384Begin | src/crypto/CryptoEngine.cpp:164-168 | Opens the context in the SHA-384 variant, whatever variant the hasher was left in. |
| Engine.Sha384Update | src/crypto/CryptoEngine.cpp:170-175 | Ok exactly when a Begin is open. |
| Engine.Sha384Finish | src/crypto/CryptoEngine.cpp:177-183 | As for SHA-256; the digest never starts from the SHA-512 initial value. |
| Engine.Sha512Begin | src/crypto/CryptoEngine.cpp:185-189 | Opens the context on an empty message. |
| Engine.Sha512Update | src/crypto/CryptoEngine.cpp:191-196 | Ok exactly when a Begin is open. |
| Engine.Sha512Finish | src/crypto/CryptoEngine.cpp:198-204 | As for SHA-256, with SHA-512. |
| Session.OpenIff | src/crypto/CryptoEngine.cpp:143-204 | Over every sequence of calls, a context is open if and only if some Begin has not been followed by a reset or a Finish with an output. |
| Session.OpenHolds | src/crypto/CryptoEngine.cpp:143-204 | Over every sequence of calls, an open context holds the bytes of the updates since the latest Begin. |
| Session.HasLatest | src/crypto/CryptoEngine.cpp:143-204 | After any run, an open context has a latest Begin, so the bytes it digests are determined. |

## Left out

- CC310Backend.cpp: nearly every result comes from binary libraries whose code is not in the repository.
- NrfEcb and NrfRng: hardware. A successful ECB call is assumed to compute AES-128; nothing is assumed of the output block of a failed one. Randomness is not modelled.
- ECDSA, ECDH, X25519, Ed25519 and RSA: the repository only forwards to other code.
- Engine forwarding, capability tables, packet structures, status names and null-pointer guards of the ciphers: one branch each.
- CryptoUtil (PKCS#7 padding, constant-time comparison, wiping): easy members beside the above.
- Self-tests, known-answer programs, examples and scripts: input, output and finite tests.
- Partly overlapping buffers: two arrays of the model are the same or disjoint. A key, AAD or info that overlaps the output is not modelled either.
- CBC lengths that are not whole blocks: the engine rejects them before it calls the back end (src/crypto/CryptoEngine.cpp:233 and 243), so the loops are modelled for whole blocks.
- Sizes: `size_t` is unbounded, so sums of lengths do not wrap. Bit and byte counts in 64-bit fields do.
- Reads outside a buffer: an argument's length is the length of its sequence, so a wrong length cannot be passed.
- That the numbers whose roots give the constants of SHA-2 are the first primes is not proved: they are listed in order.
- Timing, wiping of memory, uniqueness of nonces and cryptographic strength.

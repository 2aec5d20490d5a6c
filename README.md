# sqleet and the GDSQLite statement builders, in Dafny

This project models three parts of the godot-sqlite extension.

- **crypto.c**, the primitives of the sqleet encryption layer:
  - ChaCha20 (`chacha20_block`, `chacha20_xor`);
  - Poly1305 (`poly1305`, `poly1305_tagcmp`), both its 26-bit limb arithmetic and the number-theoretic definition the limbs compute;
  - SHA-256 (`sha256_init`, `sha256_update`, `sha256_final`, `sha256_block`);
  - PBKDF2-HMAC-SHA256 (`pbkdf2_hmac_sha256`), with its reuse of the inner and outer pad states;
  - the ChaCha20 random generator `chacha20_rng`.
- **sqleet.c**, the page codec SQLite calls on every page read and write:
  - the `Codec` record and its life cycle (`codec_new`, `codec_free`, `codec_kdf`);
  - the URI parameters (`codec_uri_parameter`, `codec_parse_uri_config`);
  - the page transform `codec_handle`, which encrypts and authenticates each page, and `size_hook`;
  - the page-1 test of `codec_set_to`;
  - `db_index_of`, `sqlite3CodecGetKey` and the branch choice of `sqlite3CodecAttach`;
  - the page loop of `sqlite3_rekey_v2`.
- **sqlite_connection.cpp**, the SQL the `SQLiteConnection` class builds from Godot values:
  - `create_table` with `validate_table_dict`;
  - `insert_row`, `insert_rows`, `select_rows`, `update_rows`, `delete_rows` and `drop_table`;
  - the two data-only steps of a JSON import, `validate_json` and `remove_shadow_tables`.

Code that works in place is imperative Dafny:
- the ChaCha20 state arrays and the buffer `chacha20_xor` encrypts;
- the SHA-256 context (class `Hasher`), the PBKDF2 output array and the generator's static state (class `Rng`);
- the `Codec` record (class `Codec`) and the page buffers of `codec_handle`.

Each method is proved against a pure specification: the RFC 8439 block function and keystream, FIPS 180-4, RFC 8018, or a function of the old state. The properties that make the codec work are lemmas about those specifications:
- decrypting an encrypted page authenticates it and gives the data back;
- ChaCha20 is an involution;
- the limb arithmetic never overflows and yields the RFC tag;
- the streaming hasher yields the one-shot digest;
- the PBKDF2 shortcut yields RFC 8018's key;
- the generator's output does not depend on how a request is split.

Three behaviours of the source are kept as written:
- **The skip bound.** `codec_parse_uri_config` checks `skip` only against a `page_size` given in the same URI. A skip larger than the codec's own page size is accepted (`SkipBeyondCodecPageSize`).
- **Re-key failure.** The re-key branch does not free the new codec when the transaction fails (`ChangeKey`).
- **The random generator's refill.** `chacha20_rng` exclusive-ors each new keystream block into the old buffer rather than replacing it (`RefillKeystream`).

The files are:
- `bytes.dfy`: bytes, words and their little- and big-endian forms;
- `chacha20.dfy`, `poly1305.dfy`, `poly1305_limbs.dfy`, `sha256.dfy`, `pbkdf2.dfy`, `rng.dfy`: crypto.c;
- `sqlite.dfy`: the parts of SQLite's API the codec relies on;
- `codec.dfy`, `uri_parameter.dfy`, `config.dfy`, `page.dfy`, `attach.dfy`: sqleet.c;
- `variant.dfy`, `statements.dfy`, `import.dfy`: sqlite_connection.cpp.

## Model

| member | source | states |
|---|---|---|
| Bytes.Load32LeStore32Le | src/sqlite/crypto.c:9-26 | LOAD32_LE reads back the word STORE32_LE wrote |
| Bytes.Store32LeLoad32Le | src/sqlite/crypto.c:9-26 | STORE32_LE of a loaded word writes back the same four bytes |
| Bytes.Load32BeStore32Be | src/sqlite/crypto.c:15-31 | LOAD32_BE reads back the word STORE32_BE wrote |
| Bytes.Add32 | src/sqlite/crypto.c:49-52 | the `uint32_t` `+=` of the quarter round and of the block additions (lines 103, 116); Add32Wraps states that it wraps modulo 2^32 |
| Bytes.Add32Wraps | src/sqlite/crypto.c:103 | the 32-bit sum is the low 32 bits of the sum taken without overflow |
| Bytes.Rol32 | src/sqlite/crypto.c:6 | ROL32(x, c) for 0 < c < 32; ChaCha20.Rol32IsRotation states it is a left rotation for the four counts the cipher uses |
| Bytes.Load32Le | src/sqlite/crypto.c:9-14 | LOAD32_LE: the word whose bytes, lowest first, are the four bytes at i; its partners are the round-trip lemmas with Store32Le |
| Bytes.Load32Be | src/sqlite/crypto.c:15-20 | LOAD32_BE: the word whose bytes, highest first, are the four bytes at i; Load32BeStore32Be and Load32BeReversesLe are its partners |
| Bytes.Load32BeReversesLe | src/sqlite/crypto.c:9-20 | LOAD32_BE reads the same bytes as LOAD32_LE in the opposite order |
| Bytes.Store32Le | src/sqlite/crypto.c:22-26 | STORE32_LE writes exactly four bytes; Load32LeStore32Le and Store32LeLoad32Le make it the inverse of LOAD32_LE |
| Bytes.Store32Be | src/sqlite/crypto.c:27-31 | STORE32_BE writes exactly four bytes; Load32BeStore32Be makes LOAD32_BE its inverse |
| Bytes.Store32BeReversesLe | src/sqlite/crypto.c:22-31 | STORE32_BE writes the bytes of STORE32_LE in the opposite order |
| Bytes.Store64Be | src/sqlite/crypto.c:32-40 | STORE64_BE writes exactly eight bytes |
| Bytes.Store64BeWords | src/sqlite/crypto.c:32-40 | STORE64_BE writes the high word big-endian, then the low word big-endian |
| ChaCha20.Rol32IsRotation | src/sqlite/crypto.c:6 | ROL32 by 16, 12, 8 and 7 is a 32-bit left rotation |
| ChaCha20.QuarterRoundTestVector | src/sqlite/crypto.c:48-52 | the quarter round maps the test vector of section 2.1.1 of RFC 8439 to its published result |
| ChaCha20.QuarterRound | src/sqlite/crypto.c:48-52 | a quarter round changes only its four lanes and keeps 16 words |
| ChaCha20.QR | src/sqlite/crypto.c:48-52 | the in-place macro QR on the array computes the quarter round of the old state |
| ChaCha20.QuarterRoundIs | src/sqlite/crypto.c:48-52 | the four lane updates of QR, written out step by step, are the quarter round |
| ChaCha20.ColumnRound | src/sqlite/crypto.c:54-58 | the four column quarter rounds of the state array |
| ChaCha20.DiagonalRound | src/sqlite/crypto.c:59-63 | after the column round, the diagonal quarter rounds complete one double round |
| ChaCha20.DoubleRound | src/sqlite/crypto.c:54-63 | a double round, the column round followed by the diagonal round, maps 16 words to 16 words |
| ChaCha20.Rounds | src/sqlite/crypto.c:53-64 | k double rounds map 16 words to 16 words |
| ChaCha20.Block | src/sqlite/crypto.c:45-66 | `chacha20_block` leaves the array holding ten double rounds (20 rounds) of its old contents |
| ChaCha20.SigmaIsExpand32ByteK | src/sqlite/crypto.c:79-82 | the four constant words are "expand 32-byte k" read little-endian |
| ChaCha20.CounterAtShift | src/sqlite/crypto.c:108 | starting one block later is the same as starting at counter + 1, with 32-bit wrap-around |
| ChaCha20.XorIsKeystreamXor | src/sqlite/crypto.c:68-121 | byte j of the output is byte j of the data xor byte j of the keystream that starts at `counter` |
| ChaCha20.XorBlockByte | src/sqlite/crypto.c:98-120 | byte t of block b of the output is the data byte xor byte t of the keystream block with counter + b |
| ChaCha20.XorInvolution | src/sqlite/crypto.c:68-121 | applying `chacha20_xor` twice with the same key, nonce and counter gives the data back |
| ChaCha20.XorPrefix | src/sqlite/crypto.c:68-121 | encrypting a prefix gives the prefix of the encryption |
| ChaCha20.InitStateNext | src/sqlite/crypto.c:93-108 | `state[12]++` turns the state for counter c into the state for counter c + 1 |
| ChaCha20.InitState | src/sqlite/crypto.c:79-96 | the initial state of a key, nonce and counter is 16 words |
| ChaCha20.WordsLe | src/sqlite/crypto.c:115-118 | STORE32_LE of each word, one after the other, gives four bytes per word |
| ChaCha20.KeystreamBlock | src/sqlite/crypto.c:98-118 | the keystream block of one counter value is 64 bytes |
| ChaCha20.Xor | src/sqlite/crypto.c:68-121 | `chacha20_xor` keeps the length of the data |
| ChaCha20.CopyWords | src/sqlite/crypto.c:99-100 | the copy loop makes the block a copy of the state |
| ChaCha20.XorWord | src/sqlite/crypto.c:104-105 | `STORE32_LE(buf, w ^ LOAD32_LE(buf))` xors the four little-endian bytes of w into buf and nothing else |
| ChaCha20.XorFullBlock | src/sqlite/crypto.c:102-107 | the 16 word updates xor the serialised keystream words into 64 bytes of the buffer and leave the rest alone |
| ChaCha20.FullBlock | src/sqlite/crypto.c:98-110 | one pass of the full-block loop xors the keystream block of the current counter into the next 64 bytes |
| ChaCha20.AddAndStore | src/sqlite/crypto.c:112-118 | the feed-forward addition and the STORE32_LE serialisation of the final block |
| ChaCha20.StoreWord | src/sqlite/crypto.c:117 | STORE32_LE writes the four little-endian bytes of the word and nothing else |
| ChaCha20.XorTail | src/sqlite/crypto.c:119-120 | the tail loop xors the first m bytes of the block into the buffer |
| ChaCha20.LastBlock | src/sqlite/crypto.c:112-120 | the last (possibly partial) block xors a prefix of the keystream block of the current counter |
| ChaCha20.NewState | src/sqlite/crypto.c:79-96 | the initial state holds the constants, key, counter and nonce of section 2.3 of RFC 8439 |
| ChaCha20.XorInPlace | src/sqlite/crypto.c:68-121 | `chacha20_xor` on buf[off..off+n) replaces that range by its ChaCha20 encryption and leaves the rest of the buffer unchanged |
| Poly1305.PIsTwo130Minus5 | src/sqlite/crypto.c:126-197 | the prime of the authenticator is 2^130 - 5 |
| Poly1305.Clamp | src/sqlite/crypto.c:135-139 | the clamp clears the top four bits of bytes 3, 7, 11, 15 and the low two bits of bytes 4, 8, 12 |
| Poly1305.ClampByte | src/sqlite/crypto.c:135-139 | the clamp keeps every other byte and only clears bits |
| Poly1305.AccumulateFull | src/sqlite/crypto.c:140-166 | a full 16-byte block adds its value plus 2^128 to the accumulator, then multiplies by r modulo P |
| Poly1305.AccumulateLast | src/sqlite/crypto.c:167-174 | the last short block is padded with 1 and zeros to 16 bytes, without the 2^128 bit |
| Poly1305.ChunkLen | src/sqlite/crypto.c:140-174 | each step of the loop consumes from 1 to 16 bytes of a non-empty message |
| Poly1305.Absorb | src/sqlite/crypto.c:140-166 | one accumulator step leaves a value below P |
| Poly1305.Mac | src/sqlite/crypto.c:126-197 | the tag is 16 bytes whose value is the accumulator plus s, modulo 2^128, as section 2.5 of RFC 8439 defines |
| Poly1305.LeBytesLeValue | src/sqlite/crypto.c:9-14 | the little-endian value of a byte string determines it |
| Poly1305.DiffZero | src/sqlite/crypto.c:199-219 | the or of the byte differences is zero exactly when the prefixes are equal |
| Poly1305.TagCmp | src/sqlite/crypto.c:199-219 | `poly1305_tagcmp` returns a byte that is 0 exactly when the two tags are equal |
| Poly1305Limbs.AndLow | src/sqlite/crypto.c:135 | C's `&` with 2^k - 1 keeps the low k bits |
| Poly1305Limbs.MaskLimb | src/sqlite/crypto.c:144-147 | `& 0x03FFFFFF` is the value modulo 2^26 |
| Poly1305Limbs.MaskR1 | src/sqlite/crypto.c:136 | the mask 0x03FFFF03 keeps the bits the clamp leaves in r1 |
| Poly1305Limbs.MaskR2 | src/sqlite/crypto.c:137 | the mask 0x03FFC0FF keeps the bits the clamp leaves in r2 |
| Poly1305Limbs.MaskR3 | src/sqlite/crypto.c:138 | the mask 0x03F03FFF keeps the bits the clamp leaves in r3 |
| Poly1305Limbs.MaskR4 | src/sqlite/crypto.c:139 | the mask 0x000FFFFF keeps the low 20 bits of r4 |
| Poly1305Limbs.BlockLimbsValue | src/sqlite/crypto.c:144-148 | the five limbs read from a block add up to its little-endian value, four below 2^26 and the top one below 2^24 |
| Poly1305Limbs.RLimbsClamp | src/sqlite/crypto.c:135-139 | the key limbs r0..r4 are the clamped r in limb form, and s_i = 5 r_i |
| Poly1305Limbs.AddBlockValue | src/sqlite/crypto.c:141-148 | adding a block to the limbs adds its value, and 2^128 for a full block |
| Poly1305Limbs.MultiplyFits | src/sqlite/crypto.c:150-155 | each 64-bit product sum d0..d4 fits in 64 bits under the limb bounds |
| Poly1305Limbs.MultiplyValue | src/sqlite/crypto.c:150-155 | the products d0..d4, with 2^130 folded back as 5, are h r modulo P |
| Poly1305Limbs.CarryFits | src/sqlite/crypto.c:158-162 | after the carry chain the limbs are again within their bounds |
| Poly1305Limbs.CarryValue | src/sqlite/crypto.c:158-162 | the carry chain keeps the value up to a multiple of P |
| Poly1305Limbs.CarryOutFits | src/sqlite/crypto.c:162 | the `(uint32_t)(d4 >> 26)` cast loses nothing |
| Poly1305Limbs.PolyBlockFits | src/sqlite/crypto.c:140-166 | no intermediate of one block pass overflows its C type, and the limbs stay bounded |
| Poly1305Limbs.PolyBlockAbsorbs | src/sqlite/crypto.c:140-166 | one pass through `process_block` computes (h + block) r modulo P |
| Poly1305Limbs.FullBlockStep | src/sqlite/crypto.c:140-166 | a full block through the limb loop takes one step of the accumulator definition |
| Poly1305Limbs.LastBlockStep | src/sqlite/crypto.c:167-174 | the padded last block through the limb loop finishes the accumulator definition |
| Poly1305Limbs.AbsorbAll | src/sqlite/crypto.c:140-174 | the block loop leaves bounded limbs whose value modulo P is the accumulator of the whole message |
| Poly1305Limbs.ReduceFits | src/sqlite/crypto.c:176-181 | the sums of the final reduction fit in 32 bits |
| Poly1305Limbs.ReduceValue | src/sqlite/crypto.c:176-181 | after the final reduction the low 128 bits are those of h mod P |
| Poly1305Limbs.RepackValue | src/sqlite/crypto.c:183-186 | the 32-bit words packed from the limbs carry their value below 2^128 |
| Poly1305Limbs.PackFits | src/sqlite/crypto.c:183-186 | the 64-bit sums of the packing and the addition of s do not overflow |
| Poly1305Limbs.StoreValue | src/sqlite/crypto.c:188-191 | the stored tag has the value of the low 32 bits of each sum |
| Poly1305Limbs.FinishTag | src/sqlite/crypto.c:176-191 | the tag is (h mod P + s) mod 2^128 |
| Poly1305Limbs.FinishIsMac | src/sqlite/crypto.c:176-191 | once the limbs hold the accumulator of the message, the tag is the RFC 8439 tag |
| Poly1305Limbs.Poly1305Tag | src/sqlite/crypto.c:126-197 | `poly1305` on limbs returns exactly the RFC 8439 tag Poly1305.Mac |
| Sha256.Compress | src/sqlite/crypto.c:245-307 | one block compression keeps eight words |
| Sha256.HashBlocksAppend | src/sqlite/crypto.c:309-340 | hashing a + b block by block is hashing b from where a left off |
| Sha256.HashBlocksSnoc | src/sqlite/crypto.c:325-330 | one more block is one more compression |
| Sha256.HashBlocksAgree | src/sqlite/crypto.c:245-307 | any compression value that agrees with Compress gives the same hash |
| Sha256.PadZeros | src/sqlite/crypto.c:359 | the number of zero bytes is below 64 and brings the message, 0x80 and the length to a block boundary |
| Sha256.PadZerosLeast | src/sqlite/crypto.c:359 | it is the least such number, as FIPS 180-4 section 5.1.1 requires |
| Sha256.Pad | src/sqlite/crypto.c:354-363 | the padded message is a whole number of blocks, 9 to 72 bytes longer |
| Sha256.PadShape | src/sqlite/crypto.c:358-360 | the padded message is m, 0x80, zeros, then the 64-bit big-endian bit length |
| Sha256.WordsBeByte | src/sqlite/crypto.c:342-352 | byte 4i+k of the serialisation is byte k of word i, big-endian |
| Sha256.Digest | src/sqlite/crypto.c:354-363 | the digest is 32 bytes |
| Sha256.Round | src/sqlite/crypto.c:271-277 | a round moves a, b, c into b, c, d and e, f, g into f, g, h |
| Sha256.WordsBe | src/sqlite/crypto.c:342-352 | the serialisation has four bytes per word |
| Sha256.DigestWith | src/sqlite/crypto.c:354-363 | a digest computed with any value that agrees with Compress is 32 bytes |
| Sha256.DigestAgree | src/sqlite/crypto.c:354-363 | two compression values that agree with Compress give the same digest |
| Sha256.DigestOf | src/sqlite/crypto.c:354-363 | the serialised state after the blocks of the padded message is the digest |
| Sha256.PadIs | src/sqlite/crypto.c:358-361 | the bytes `sha256_final` feeds to `sha256_update` turn the message into the padded message |
| Sha256.ScheduleWord | src/sqlite/crypto.c:279-289 | word t of the schedule array is W_t of FIPS 180-4, and the earlier words are kept |
| Sha256.RoundCore | src/sqlite/crypto.c:271-277 | ROUND_CORE performs one compression round |
| Sha256.ScheduledRound | src/sqlite/crypto.c:279-289 | ROUND_0_15 and ROUND_16_19 schedule word i and then run round i |
| Sha256.AllRounds | src/sqlite/crypto.c:268-302 | the 64 rounds of one block |
| Sha256.Block | src/sqlite/crypto.c:245-307 | `sha256_block` replaces the state by the compression of the old state with the block |
| Sha256.BlockWith | src/sqlite/crypto.c:245-307 | `sha256_block` applies any compression value that agrees with Compress |
| Sha256.Hasher.constructor | src/sqlite/crypto.c:231-243 | `sha256_init` gives an empty context with the initial hash value |
| Sha256.Hasher.Copy | src/sqlite/crypto.c:410 | a copy of a context has the same state, buffer and counts |
| Sha256.Hasher.Update | src/sqlite/crypto.c:309-340 | `sha256_update` appends the data to what the context has absorbed and keeps its invariant |
| Sha256.Hasher.FillBuffer | src/sqlite/crypto.c:312-317 | the first branch tops up the buffer with a prefix of the data |
| Sha256.Hasher.CompressBlocks | src/sqlite/crypto.c:325-330 | the block loop absorbs every whole block of the remaining data |
| Sha256.Hasher.StoreTail | src/sqlite/crypto.c:332-339 | the remaining bytes go to the buffer |
| Sha256.Hasher.CopyIn | src/sqlite/crypto.c:313-316 | copying len bytes into the buffer adds them to what the context has absorbed |
| Sha256.Hasher.CompressBuffer | src/sqlite/crypto.c:318-320 | a full buffer is compressed and emptied, and what was absorbed is unchanged |
| Sha256.Hasher.CompressInput | src/sqlite/crypto.c:325-330 | a whole block of input is compressed straight from the input and counts as absorbed |
| Sha256.Hasher.Final | src/sqlite/crypto.c:354-363 | `sha256_final` returns the SHA-256 digest of everything absorbed |
| Sha256.Hash | src/sqlite/crypto.c:231-363 | init, update and final in a row give the digest of the message |
| Sha256.Determined | src/sqlite/crypto.c:224-229 | the counts n and n64 are determined by the length absorbed |
| Sha256.SameInputSameState | src/sqlite/crypto.c:224-229 | two valid contexts that absorbed the same bytes are in the same state |
| Sha256.PadBytes | src/sqlite/crypto.c:359 | the padding loop writes 0x80 followed by the least number of zeros |
| Sha256.PadZerosShift | src/sqlite/crypto.c:358-359 | the padding depends only on the length modulo 64 |
| Sha256.Serialize | src/sqlite/crypto.c:342-352 | `sha256_serialize` writes the eight words big-endian |
| Pbkdf2.KeyBlock | src/sqlite/crypto.c:377-386 | the HMAC key block is 64 bytes |
| Pbkdf2.HmacOf | src/sqlite/crypto.c:388-402 | HMAC is 32 bytes |
| Pbkdf2.Hmac | src/sqlite/crypto.c:377-402 | HMAC-SHA256 is 32 bytes |
| Pbkdf2.HmacOuter | src/sqlite/crypto.c:421-426 | the outer hash of HMAC is one compression of the inner digest from the saved outer state |
| Pbkdf2.HmacPrf | src/sqlite/crypto.c:388-402 | HMAC as a function value gives 32-byte outputs and computes HMAC with the hash |
| Pbkdf2.U | src/sqlite/crypto.c:405-429 | each U_j of RFC 8018 is 32 bytes |
| Pbkdf2.F | src/sqlite/crypto.c:405-429 | each F(P, S, c, i) of RFC 8018 is 32 bytes |
| Pbkdf2.Concat | src/sqlite/crypto.c:405-432 | the concatenated blocks, cut to len bytes, have len bytes |
| Pbkdf2.Ts | src/sqlite/crypto.c:405-432 | the blocks T_i are F(P, S, c, i), each 32 bytes |
| Pbkdf2.Derive | src/sqlite/crypto.c:369-439 | the derived key has dkLen bytes |
| Pbkdf2.Pbkdf2Sha256 | src/sqlite/crypto.c:369-439 | PBKDF2 with HMAC-SHA256 gives dkLen bytes |
| Pbkdf2.ConcatByte | src/sqlite/crypto.c:405-432 | byte 32q + k of the concatenation is byte k of block T_{i+q} |
| Pbkdf2.DeriveByte | src/sqlite/crypto.c:405-432 | the derived key is T_1, T_2, ... in order |
| Pbkdf2.DeriveChunk | src/sqlite/crypto.c:419-431 | the len bytes written for block i are the first len bytes of T_i |
| Pbkdf2.DerivePrefix | src/sqlite/crypto.c:405-432 | a shorter key is a prefix of a longer one |
| Pbkdf2.FStep | src/sqlite/crypto.c:420-429 | one more iteration xors the next U into F |
| Pbkdf2.Tail96IsPad | src/sqlite/crypto.c:398-402 | the 32 bytes set up after U are the SHA-256 padding of a 96-byte message |
| Pbkdf2.ShortDigest | src/sqlite/crypto.c:398-402 | hashing a 64-byte key block plus a 32-byte U is one compression from the saved state |
| Pbkdf2.HmacShortcut | src/sqlite/crypto.c:421-426 | two compressions from the saved inner and outer states compute HMAC |
| Pbkdf2.KeyBlockOf | src/sqlite/crypto.c:377-386 | the key block step computes the RFC 2104 key block |
| Pbkdf2.Prepare | src/sqlite/crypto.c:388-397 | the two contexts have absorbed the key block xor 0x36 and xor 0x5C |
| Pbkdf2.KeyedState | src/sqlite/crypto.c:396-397 | a context after one 64-byte block has nothing buffered |
| Pbkdf2.CopyState | src/sqlite/crypto.c:415 | `memcpy(O, octx.state, 32)` copies the state |
| Pbkdf2.ResumeBlock | src/sqlite/crypto.c:415-417 | one compression from a saved state, serialised |
| Pbkdf2.InnerDigest | src/sqlite/crypto.c:410-413 | the inner hash of S and INT(i) |
| Pbkdf2.FirstU | src/sqlite/crypto.c:409-417 | U_1 = HMAC(P, S, INT(i)) |
| Pbkdf2.SavedStates | src/sqlite/crypto.c:421-422 | the states of the keyed contexts are those HMAC resumes from |
| Pbkdf2.ResumeState | src/sqlite/crypto.c:421-426 | one compression from a saved state of a 32-byte value with the 96-byte padding |
| Pbkdf2.NextU | src/sqlite/crypto.c:421-426 | U_{j+1} = HMAC(P, U_j) |
| Pbkdf2.CopyOut | src/sqlite/crypto.c:419 | `memcpy(dk, iblock, len)` copies len bytes and nothing else |
| Pbkdf2.XorInto | src/sqlite/crypto.c:427-428 | the xor loop xors len bytes into dk and leaves the rest |
| Pbkdf2.Iterate | src/sqlite/crypto.c:420-429 | one iteration computes the next U and turns dk into F for one more iteration |
| Pbkdf2.IterateAll | src/sqlite/crypto.c:420-429 | the inner loop leaves F(P, S, iter, i) in dk's chunk |
| Pbkdf2.FirstCount | src/sqlite/crypto.c:420 | with iter 0 or 1 the loop ends at once, and F is the same |
| Pbkdf2.BlockF | src/sqlite/crypto.c:405-429 | one pass of the main loop writes the first len bytes of T_i |
| Pbkdf2.DeriveBlock | src/sqlite/crypto.c:405-431 | the chunk for block i holds the matching bytes of the derived key |
| Pbkdf2.DeriveKey | src/sqlite/crypto.c:405-432 | the main loop fills dk[0..dkLen) with the derived key and leaves the rest |
| Pbkdf2.Pbkdf2HmacWith | src/sqlite/crypto.c:369-439 | with any hash that is SHA-256 on the blocks it compresses, dk[0..dkLen) is the RFC 8018 key and the rest is unchanged |
| Pbkdf2.Pbkdf2HmacSha256 | src/sqlite/crypto.c:369-439 | `pbkdf2_hmac_sha256` writes PBKDF2-HMAC-SHA256 as RFC 8018 defines it |
| ChaChaRng.Initial | src/sqlite/crypto.c:544-546 | the static initialisers are a good state with nothing available |
| ChaChaRng.ChaChaXor | src/sqlite/crypto.c:562 | the generator encrypts with `chacha20_xor` itself |
| ChaChaRng.NewBlock | src/sqlite/crypto.c:562-563 | a refill leaves 64 bytes available |
| ChaChaRng.Refill | src/sqlite/crypto.c:555-564 | a successful refill draws entropy only at counter 0 and leaves 64 bytes available |
| ChaChaRng.Take | src/sqlite/crypto.c:565-568 | the copy serves the smaller of available and n, from the unread tail |
| ChaChaRng.TakeSplit | src/sqlite/crypto.c:565-568 | two copies from the buffer are one larger copy |
| ChaChaRng.Generate | src/sqlite/crypto.c:541-575 | a successful request serves exactly n bytes and leaves a good state |
| ChaChaRng.GenerateSplit | src/sqlite/crypto.c:541-575 | asking for n1 + n2 bytes gives what asking for n1 and then n2 gives |
| ChaChaRng.ServeFromBuffer | src/sqlite/crypto.c:565-568 | a request the buffer covers draws no entropy and serves the unread bytes in order |
| ChaChaRng.XorOneBlock | src/sqlite/crypto.c:562 | `chacha20_xor` of 64 bytes xors in one keystream block |
| ChaChaRng.RefillKeystream | src/sqlite/crypto.c:555-563 | a refill xors the keystream block of the old counter into the buffer and increments the counter |
| ChaChaRng.FirstBytes | src/sqlite/crypto.c:541-575 | from the initial state, the first bytes are the keystream block of counter 0 under the drawn key and nonce |
| ChaChaRng.Entropy.Draw | src/sqlite/crypto.c:444-537 | one call of `entropy()` takes the next draw |
| ChaChaRng.Entropy.constructor | src/sqlite/crypto.c:444-537 | the entropy source starts with the draws it will give |
| ChaChaRng.Rng.constructor | src/sqlite/crypto.c:544-546 | the generator starts in the initial state |
| ChaChaRng.Rng.RefillBuffer | src/sqlite/crypto.c:555-564 | the refill branch changes the state as Refill says, or fails where the source aborts |
| ChaChaRng.Rng.NextBlock | src/sqlite/crypto.c:562-563 | `chacha20_xor(buffer, ..., counter++)` with 64 bytes available |
| ChaChaRng.Rng.Serve | src/sqlite/crypto.c:566-567 | the memcpy appends the next m unread bytes to the output |
| ChaChaRng.Rng.ServeChunk | src/sqlite/crypto.c:565-568 | one copy serves what Take says |
| ChaChaRng.Rng.Step | src/sqlite/crypto.c:553-570 | one pass of the loop makes progress and keeps the rest of the stream |
| ChaChaRng.Rng.Read | src/sqlite/crypto.c:541-575 | `chacha20_rng(out, n)` succeeds exactly when Generate does, and then writes its n bytes and takes its state |
| ChaChaRng.RefillStep | src/sqlite/crypto.c:555-564 | the stream continues from the refilled state, or fails |
| ChaChaRng.ServeStep | src/sqlite/crypto.c:565-568 | the bytes copied out join the bytes served |
| ChaChaRng.LoopStep | src/sqlite/crypto.c:553-570 | one pass of the loop, refilled or not, serves what Take says and keeps the rest of the stream |
| Sqlite.Parameter | src/sqlite/sqleet.c:94 | `sqlite3_uri_parameter` finds a parameter exactly when it is in the URI |
| Sqlite.Leading | src/sqlite/sqleet.c:153 | the longest prefix of bytes with a property |
| Sqlite.Signed64 | src/sqlite/sqleet.c:153 | reading an unsigned 64-bit value as signed keeps it modulo 2^64 |
| Sqlite.Atoi64 | src/sqlite/sqleet.c:153 | a decimal that SQLite reads is a signed 64-bit value |
| Sqlite.HexToI64 | src/sqlite/sqleet.c:153 | a hex value that SQLite reads is a signed 64-bit value |
| Sqlite.DecOrHexToI64 | src/sqlite/sqleet.c:153 | `sqlite3DecOrHexToI64` gives a signed 64-bit value or fails |
| Sqlite.AtoiDigits | src/sqlite/sqleet.c:153 | a plain decimal reads as its value when it fits in 64 bits |
| Sqlite.DecimalParses | src/sqlite/sqleet.c:153 | a decimal in range reads as its value |
| Sqlite.HexParses | src/sqlite/sqleet.c:153 | "0x" and hex digits read as their value modulo 2^64, as signed |
| Sqlite.HexDigitsValue | src/sqlite/sqleet.c:153 | the hex reader's leading zeros and at most 16 significant digits give the value |
| Sqlite.DecimalZeros | src/sqlite/sqleet.c:153 | leading zeros do not change a decimal |
| Sqlite.HexZeros | src/sqlite/sqleet.c:153 | leading zeros do not change a hex value |
| Sqlite.UriInt64 | src/sqlite/sqleet.c:153 | `sqlite3_uri_int64` gives the default when the parameter is missing or unreadable, else its value |
| Sqlite.Int32 | src/sqlite/sqleet.c:153 | the `(int)` cast wraps modulo 2^32 into the 32-bit range and keeps values already in it |
| SqleetUri.Nibble | src/sqlite/sqleet.c:111-136 | a hex digit has a value below 16 |
| SqleetUri.Unhex | src/sqlite/sqleet.c:111-136 | n hex digits decode to (n + 1) / 2 bytes |
| SqleetUri.HexDigits | src/sqlite/sqleet.c:111-136 | the scan stops at the limit, the end, or the first non-hex byte |
| SqleetUri.HexScan | src/sqlite/sqleet.c:114-126 | the scan stops between i and the limit and keeps the output length |
| SqleetUri.ZeroFill | src/sqlite/sqleet.c:127-130 | the zero fill keeps the output length |
| SqleetUri.HexFinish | src/sqlite/sqleet.c:127-134 | finishing a hex value keeps the output length |
| SqleetUri.UriParameter | src/sqlite/sqleet.c:75-143 | `codec_uri_parameter` keeps the output length, returns one of four codes, and NOTFOUND exactly when neither form is given |
| SqleetUri.DecodeHex | src/sqlite/sqleet.c:111-136 | the decoding loop computes the hex scan |
| SqleetUri.CodecUriParameter | src/sqlite/sqleet.c:75-143 | the imperative function returns what UriParameter says |
| SqleetUri.UriConflict | src/sqlite/sqleet.c:97-98 | giving both the plain and the hex parameter is MISUSE and writes nothing |
| SqleetUri.UriRawValue | src/sqlite/sqleet.c:99-110 | a plain value within bounds is copied and zero-padded, an empty one is EMPTY, others MISUSE |
| SqleetUri.UriHexValue | src/sqlite/sqleet.c:111-136 | a hex value within bounds decodes its digits and zero-pads, else EMPTY or MISUSE |
| SqleetUri.UnhexAt | src/sqlite/sqleet.c:111-136 | byte k of the decoding is the pair of digits 2k, 2k+1, or the last digit shifted up |
| SqleetUri.ScanDecodes | src/sqlite/sqleet.c:111-136 | the scan decodes exactly the hex digits it stops at |
| SqleetUri.ZeroFillIs | src/sqlite/sqleet.c:127-130 | the fill loop zeroes the bytes from k to lenMax |
| SqleetUri.FinishDecoded | src/sqlite/sqleet.c:111-136 | the output is the decoded digits, zeros up to lenMax, then the old bytes |
| SqleetCodec.Blank | src/sqlite/sqleet.c:50-55 | a fresh codec has zero key, salt and header, no flags and the given passphrase |
| SqleetCodec.MasterKey | src/sqlite/sqleet.c:248-262 | the master key is 32 bytes |
| SqleetCodec.Keyed | src/sqlite/sqleet.c:248-262 | `codec_kdf` sets HasKey, forgets the passphrase and changes nothing else |
| SqleetCodec.ZeroPrefix | src/sqlite/sqleet.c:67 | the zeroing loop zeroes the first n bytes and nothing else |
| SqleetCodec.Codec.constructor | src/sqlite/sqleet.c:38-58 | `codec_new` makes a blank codec, or a copy of `from` whose self-links point at the copy |
| SqleetCodec.Codec.Free | src/sqlite/sqleet.c:60-73 | `codec_free` zeroes the page buffer and every field |
| SqleetCodec.Codec.Clear | src/sqlite/sqleet.c:70 | the memset leaves a blank codec with no links |
| SqleetCodec.Codec.ClearLinks | src/sqlite/sqleet.c:70 | the memset zeroes the reader, writer, page buffer and btree |
| SqleetCodec.Codec.ClearKeys | src/sqlite/sqleet.c:70 | the memset zeroes the key, salt and header |
| SqleetCodec.Codec.ClearSettings | src/sqlite/sqleet.c:70 | the memset zeroes the flags, page size, skip, kdf, error and passphrase |
| SqleetCodec.Codec.Kdf | src/sqlite/sqleet.c:248-262 | the codec's settings become Keyed of the old ones, links unchanged |
| SqleetConfig.PageSizeStep | src/sqlite/sqleet.c:152-164 | the page_size step returns OK or MISUSE and changes only the page size and its flag |
| SqleetConfig.SkipStep | src/sqlite/sqleet.c:166-178 | the skip step returns OK or MISUSE and changes only skip and its flag |
| SqleetConfig.KdfStep | src/sqlite/sqleet.c:180-193 | the kdf step returns OK or MISUSE and changes only the kdf and its flag |
| SqleetConfig.SaltStep | src/sqlite/sqleet.c:195-211 | the salt step returns OK or MISUSE and changes only the salt and its flag |
| SqleetConfig.DefaultHeader | src/sqlite/sqleet.c:226-237 | a generated header is 16 bytes |
| SqleetConfig.HeaderStep | src/sqlite/sqleet.c:213-240 | the header step returns OK or MISUSE and changes only the header and its flag |
| SqleetConfig.AbsentSaltHeader | src/sqlite/sqleet.c:195-240 | with neither salt nor header given and no salt inherited, the last two steps succeed |
| SqleetConfig.ParseUriConfig | src/sqlite/sqleet.c:145-243 | `codec_parse_uri_config` returns OK or MISUSE and keeps the key and passphrase |
| SqleetConfig.ParseConfig | src/sqlite/sqleet.c:145-243 | the method changes the codec's settings as ParseUriConfig says and nothing else |
| SqleetConfig.PageSizeOverride | src/sqlite/sqleet.c:152-164 | the page_size step on the codec |
| SqleetConfig.SkipOverride | src/sqlite/sqleet.c:166-178 | the skip step on the codec |
| SqleetConfig.KdfOverride | src/sqlite/sqleet.c:180-193 | the kdf step on the codec |
| SqleetConfig.SaltParameter | src/sqlite/sqleet.c:195-211 | the salt step on the codec |
| SqleetConfig.HeaderParameter | src/sqlite/sqleet.c:213-240 | the header step on the codec |
| SqleetConfig.ParsePageSize | src/sqlite/sqleet.c:152-164 | a page_size p > 0 that differs from the current page size and is not a power of two from 512 to 65536 is MISUSE; any other p > 0 becomes the page size and sets its flag; p == 0 clears the page size and its flag; p < 0 changes neither |
| SqleetConfig.ParseSkip | src/sqlite/sqleet.c:166-178 | a negative skip, or one beyond the URI's page_size, is MISUSE |
| SqleetConfig.ParseKdf | src/sqlite/sqleet.c:180-193 | a kdf other than "none" is MISUSE, and "none" without a salt selects no KDF |
| SqleetConfig.ParseSalt | src/sqlite/sqleet.c:195-211 | a salt that is too long or malformed is MISUSE |
| SqleetConfig.ParseHeader | src/sqlite/sqleet.c:213-240 | a header that is too long or malformed is MISUSE |
| SqleetConfig.SkipUnboundedByCodecPageSize | src/sqlite/sqleet.c:166-178 | without a page_size in the URI, any non-negative skip is accepted, whatever the codec's page size |
| SqleetConfig.SkipBeyondCodecPageSize | src/sqlite/sqleet.c:177 | a skip of 2000 is accepted for a codec with 1024-byte pages |
| SqleetPage.OneTimeKeys | src/sqlite/sqleet.c:327-330 | the one-time keys are one 64-byte ChaCha20 block |
| SqleetPage.MasterKeys | src/sqlite/sqleet.c:327-330 | the master key, nonce and page number give usable page keys |
| SqleetPage.NonceOf | src/sqlite/sqleet.c:264-304 | the nonce of a page is the 16 bytes after its data |
| SqleetPage.Masked | src/sqlite/sqleet.c:334 | masking keeps the length of the data |
| SqleetPage.MaskedIsXor | src/sqlite/sqleet.c:334 | masking with the page keys is `chacha20_xor` under the one-time key, the first 12 nonce bytes and counter + 1 |
| SqleetPage.Sealed | src/sqlite/sqleet.c:352-360 | the body of a sealed page is the page without its tag |
| SqleetPage.Seal | src/sqlite/sqleet.c:352-361 | a sealed page has the length of the plain page |
| SqleetPage.EncryptPage | src/sqlite/sqleet.c:343-363 | an encrypted page has the length of the plain page |
| SqleetPage.Unmasked | src/sqlite/sqleet.c:334 | unmasking keeps the length of the page |
| SqleetPage.Open | src/sqlite/sqleet.c:327-339 | opening keeps the length of the page |
| SqleetPage.DecryptPage | src/sqlite/sqleet.c:313-341 | decrypting keeps the length of the page |
| SqleetPage.UnmaskedTag | src/sqlite/sqleet.c:334-335 | unmasking leaves the stored tag in place |
| SqleetPage.OpenIs | src/sqlite/sqleet.c:333-335 | opening is the authenticity of the page together with its unmasked bytes |
| SqleetPage.CipherStart | src/sqlite/sqleet.c:349-360 | the masked bytes start after the plain bytes, and on page 1 after the header |
| SqleetPage.MakeOneTimeKeys | src/sqlite/sqleet.c:327-330 | xoring 64 zero bytes in place gives the one-time keys |
| SqleetPage.Keys | src/sqlite/sqleet.c:327-334 | the one-time keys give a usable tag and keystream |
| SqleetPage.ReaderKeyed | src/sqlite/sqleet.c:319-325 | reading page 1 without a key takes the salt and header from the page and derives the key; otherwise nothing changes |
| SqleetPage.CommitReaderKey | src/sqlite/sqleet.c:319-325 | the reader's settings become ReaderKeyed of the old ones |
| SqleetPage.UnmaskInPlace | src/sqlite/sqleet.c:334 | the in-place decryption computes Unmasked |
| SqleetPage.Authenticate | src/sqlite/sqleet.c:333-335 | the page is authentic exactly when the stored tag matches, and the data is unmasked |
| SqleetPage.AuthenticIs | src/sqlite/sqleet.c:335 | authentic exactly when the computed tag is the stored one |
| SqleetPage.OpenInPlace | src/sqlite/sqleet.c:327-338 | decryption in place computes Open |
| SqleetPage.DecryptInPlace | src/sqlite/sqleet.c:313-341 | decryption with the master key computes DecryptPage |
| SqleetPage.Decrypt | src/sqlite/sqleet.c:313-341 | modes 0, 2 and 3 key the reader if needed, decrypt, and record AUTH on failure |
| SqleetPage.DecryptWithKey | src/sqlite/sqleet.c:327-338 | decryption with the reader's key, and AUTH when the tag is wrong |
| SqleetPage.Encrypt | src/sqlite/sqleet.c:343-363 | modes 6 and 7 write the encrypted page into the writer's buffer |
| SqleetPage.EncryptInPlace | src/sqlite/sqleet.c:348-361 | the buffer becomes EncryptPage of its old contents |
| SqleetPage.SealInPlace | src/sqlite/sqleet.c:352-361 | the buffer becomes the sealed page under the one-time keys |
| SqleetPage.SealBody | src/sqlite/sqleet.c:354-360 | the nonce, header and encrypted data are laid out as the page format says |
| SqleetPage.StampHeader | src/sqlite/sqleet.c:360 | page 1 carries the codec header in its first 16 bytes |
| SqleetPage.MaskPage | src/sqlite/sqleet.c:359 | the data from skip to the nonce is xored with the keystream from counter + 1 |
| SqleetPage.CopyInto | src/sqlite/sqleet.c:350 | the memcpy into the page buffer copies len bytes |
| SqleetPage.Overwrite | src/sqlite/sqleet.c:354 | writing bytes at an offset changes only that range |
| SqleetPage.BodyLayout | src/sqlite/sqleet.c:264-304 | the sealed body keeps the plain bytes, carries the header on page 1 and the encrypted data after |
| SqleetPage.SealLayout | src/sqlite/sqleet.c:264-304 | the sealed page ends with the nonce and the tag of the body and nonce |
| SqleetPage.UnmaskRestores | src/sqlite/sqleet.c:334 | unmasking a masked range gives back the plain bytes |
| SqleetPage.OpenSealed | src/sqlite/sqleet.c:305-367 | opening a sealed page authenticates and gives back the data; page 1 starts with the SQLite magic |
| SqleetPage.DecryptEncrypted | src/sqlite/sqleet.c:305-367 | decrypting what the writer encrypted, with the same key and skip, authenticates and gives back the data |
| SqleetPage.CodecHandle | src/sqlite/sqleet.c:305-367 | read modes decrypt in place and give NULL when the page is not authentic; write modes encrypt into the writer's buffer; other modes return the data untouched |
| SqleetPage.SizeHook | src/sqlite/sqleet.c:373-390 | a page-size change with too few reserved bytes detaches reader and writer and records MISUSE; with enough it leaves the codec unchanged and asks for the pager's page size to be set; no change of size does nothing |
| SqleetAttach.Page1Rc | src/sqlite/sqleet.c:433-455 | the page-1 test returns OK or NOTADB |
| SqleetAttach.Page1RcOfHeader | src/sqlite/sqleet.c:433-455 | as written, a header is accepted exactly when its page size is at most 32768 and its version is 3.x |
| SqleetAttach.Page1RcRefuses65536 | src/sqlite/sqleet.c:444-445 | as written, a 65536-byte-page database of SQLite 3.31.0 is refused as NOTADB |
| SqleetAttach.Page1RcCorrected | src/sqlite/sqleet.c:433-455 | the corrected page-1 test returns OK or NOTADB |
| SqleetAttach.Page1RcCorrectedOfHeader | src/sqlite/sqleet.c:433-455 | corrected, a well-formed header with a valid page size is accepted exactly when its version is 3.x |
| SqleetAttach.Page1RcCorrectedAccepts | src/sqlite/sqleet.c:433-455 | a page the corrected test accepts has a valid page size and a 3.x version |
| SqleetAttach.Page1RcCorrectedWeakens | src/sqlite/sqleet.c:433-455 | the corrected test accepts every page the written one accepts |
| SqleetAttach.StoredPageSizeField | src/sqlite/sqleet.c:444 | the 16-bit page-size field stores every valid page size, 65536 as 1, and reads back |
| SqleetAttach.Be16Split | src/sqlite/sqleet.c:444 | `(data[i] << 8) \| data[i+1]` reads the two bytes big-endian |
| SqleetAttach.Be32Split | src/sqlite/sqleet.c:447-450 | the version bytes are read big-endian |
| SqleetAttach.Be16 | src/sqlite/sqleet.c:444 | the page-size field as the `uint16_t` the source computes; Be16Split states which bytes it reads |
| SqleetAttach.Be32 | src/sqlite/sqleet.c:447-450 | the version field shifted in one byte at a time; Be32Split states it is the big-endian reading of bytes 96 to 99 |
| SqleetAttach.WithHeaderFields | src/sqlite/sqleet.c:444-450 | a page written with a header carries its page size and version where the page-1 test reads them |
| SqleetAttach.HeaderOf | src/sqlite/sqleet.c:444-450 | the header read from a page has the version of bytes 96-99 |
| SqleetAttach.DbIndexOf | src/sqlite/sqleet.c:543-554 | `db_index_of` returns the first index with the name, or 0 (main) when none has it or the name is NULL |
| SqleetAttach.CodecGetKey | src/sqlite/sqleet.c:482-492 | no key bytes; the key length is 0 exactly when there is no codec, and otherwise names the database |
| SqleetAttach.PlanAttach | src/sqlite/sqleet.c:494-540 | `sqlite3CodecAttach` attaches unencrypted exactly when nKey is 0, derives a codec exactly when a key is given, and otherwise copies the codec of database nKey (0 for -1) |
| SqleetAttach.ReuseIndex | src/sqlite/sqleet.c:523 | a non-negative nKey names the database whose codec is copied |
| SqleetAttach.AttachLikeDatabase | src/sqlite/sqleet.c:482-540 | attaching with what GetKey reports copies the other database's codec when it has one |
| SqleetAttach.PendingBytePage | src/sqlite/sqleet.c:637 | the pending-byte page is the page that holds byte 2^30 |
| SqleetAttach.PagesFromExactly | src/sqlite/sqleet.c:635-638 | the loop visits exactly the pages 1 to dbSize other than the pending-byte page |
| SqleetAttach.PagesFromIncreasing | src/sqlite/sqleet.c:635-638 | it visits them in strictly ascending order |
| SqleetAttach.RekeyPages | src/sqlite/sqleet.c:635-643 | every page but the pending-byte page is rewritten once, in order |
| SqleetAttach.PagesFrom | src/sqlite/sqleet.c:635-638 | every page the loop visits from pgno on lies between pgno and dbSize and is not the pending-byte page |
| SqleetAttach.RekeyLoop | src/sqlite/sqleet.c:639-643 | the pages marked writable are a prefix of the pages visited, a proper prefix whenever the loop fails |
| SqleetAttach.RekeyLoopOutcome | src/sqlite/sqleet.c:634-643 | the loop succeeds exactly when every page can be got and written; on failure it has marked a prefix and returns the failing call's code |
| SqleetAttach.RekeyLoopStep | src/sqlite/sqleet.c:635-643 | a visited page is got, then marked, and then the loop goes on |
| SqleetAttach.RewritePages | src/sqlite/sqleet.c:634-643 | the imperative loop computes RekeyLoop when the transaction began |
| SqleetAttach.ChangeKey | src/sqlite/sqleet.c:631-650 | the change-key branch rewrites the pages through the new codec; on commit the reader hands over, otherwise it writes through itself again |
| GodotVariant.Get | src/sqlite_connection.cpp:318 | `Dictionary::get` gives the default when the key is missing, else a value stored under the key |
| GodotVariant.TypeOf | src/sqlite_connection.cpp:403 | `get_type()` is STRING, DICTIONARY or ARRAY exactly for those variants |
| GodotVariant.Keys | src/sqlite_connection.cpp:496 | `keys()` lists the keys in insertion order |
| GodotVariant.Values | src/sqlite_connection.cpp:497 | `values()` lists the values in insertion order |
| GodotVariant.Stringify | src/sqlite_connection.cpp:552 | converting a String gives the string itself |
| GodotVariant.Split | src/sqlite_connection.cpp:364 | `split` gives at least one part |
| GodotVariant.GetEntry | src/sqlite_connection.cpp:318 | with distinct keys, the value of an entry is found under its key |
| GodotVariant.Lower | src/sqlite_connection.cpp:326 | `to_lower` keeps the length and lowers each character |
| GodotVariant.CountAppend | src/sqlite_connection.cpp:364 | counting a character distributes over concatenation |
| GodotVariant.SplitParts | src/sqlite_connection.cpp:364 | `split` gives one more part than separators, none containing the separator |
| GodotVariant.JoinedSplit | src/sqlite_connection.cpp:364 | joining the parts of a split with the separator gives the string back |
| GodotVariant.SplitJoined | src/sqlite_connection.cpp:364 | splitting parts joined by a separator they do not contain gives them back |
| GodotVariant.CountJoined | src/sqlite_connection.cpp:503-510 | the count of a character in a join is the sum over the parts, when the separator lacks it |
| GodotVariant.MarkedExactly | src/sqlite_connection.cpp:1039-1052 | the marked indices are exactly those whose flag is set |
| GodotVariant.PickedAt | src/sqlite_connection.cpp:1039-1052 | the kept elements are the flagged ones in order |
| GdSqliteStatements.InsertRow | src/sqlite_connection.cpp:494-514 | `insert_row` issues its SQL with the row's values as bindings, in key order |
| GdSqliteStatements.InsertSql | src/sqlite_connection.cpp:500-511 | the INSERT text; InsertPlaceholders and InsertColumns state that it has one placeholder per key and that its column list gives back the keys |
| GdSqliteStatements.Placeholders | src/sqlite_connection.cpp:503-511 | n placeholders, each "?" |
| GdSqliteStatements.Inserts | src/sqlite_connection.cpp:516-539 | one insert statement per row, in order |
| GdSqliteStatements.InsertPlaceholders | src/sqlite_connection.cpp:494-514 | the insert statement has exactly one placeholder per key |
| GdSqliteStatements.InsertColumns | src/sqlite_connection.cpp:503-510 | the column list splits back into the keys |
| GdSqliteStatements.FirstStop | src/sqlite_connection.cpp:519-536 | the row where insert_rows stops is the first that is not a Dictionary or whose insert fails |
| GdSqliteStatements.InsertsNext | src/sqlite_connection.cpp:519-532 | each row the loop inserts adds its insert statement at the end |
| GdSqliteStatements.InsertRows | src/sqlite_connection.cpp:516-539 | `insert_rows` issues BEGIN, one insert per row up to the stopping row, then END, and reports how it stopped |
| GdSqliteStatements.SelectRows | src/sqlite_connection.cpp:541-565 | `select_rows` is rejected exactly when a column is not a String, and otherwise issues its SQL |
| GdSqliteStatements.SelectSql | src/sqlite_connection.cpp:544-562 | the SELECT text; SelectWithoutWhere states that empty conditions leave out the WHERE clause |
| GdSqliteStatements.Texts | src/sqlite_connection.cpp:547-556 | the selected columns as Strings, in order |
| GdSqliteStatements.SelectWithoutWhere | src/sqlite_connection.cpp:560-562 | empty conditions give no WHERE clause |
| GdSqliteStatements.UpdateRows | src/sqlite_connection.cpp:567-595 | `update_rows` issues "k=?" per key with the values bound in key order |
| GdSqliteStatements.UpdateSql | src/sqlite_connection.cpp:578-587 | the UPDATE text, always with a WHERE clause; UpdatePlaceholders states that it has one placeholder per key |
| GdSqliteStatements.Assignments | src/sqlite_connection.cpp:578-586 | one "k=?" per key, in key order |
| GdSqliteStatements.UpdatePlaceholders | src/sqlite_connection.cpp:578-586 | the update statement has exactly one placeholder per key |
| GdSqliteStatements.DeleteSql | src/sqlite_connection.cpp:597-616 | `delete_rows` has no WHERE clause exactly when the conditions are empty or "*" |
| GdSqliteStatements.DropTableSql | src/sqlite_connection.cpp:446-452 | `drop_table` puts the table name between "DROP TABLE " and ";" |
| GdSqliteStatements.ValidColumnIs | src/sqlite_connection.cpp:398-444 | a column is valid exactly when it is a Dictionary with a String data_type and a default of the matching type |
| GdSqliteStatements.ValidateTableDict | src/sqlite_connection.cpp:398-444 | `validate_table_dict` accepts exactly when every column is valid |
| GdSqliteStatements.CreateTable | src/sqlite_connection.cpp:300-396 | `create_table` is rejected exactly when the dictionary is invalid, and otherwise issues its SQL |
| GdSqliteStatements.CreateTableSql | src/sqlite_connection.cpp:308-393 | the CREATE TABLE text; PrimaryKeyPlacement and ForeignKeyClause state where its primary and foreign keys go |
| GdSqliteStatements.TypeSql | src/sqlite_connection.cpp:325-330 | a data type whose lower-case form begins with "int" is written INTEGER, any other is written as given |
| GdSqliteStatements.PrimaryKeySql | src/sqlite_connection.cpp:333-340 | the inline PRIMARY KEY, with AUTOINCREMENT when flagged, only for the one primary column of a table; PrimaryKeyPlacement states when it is present |
| GdSqliteStatements.CountPrimary | src/sqlite_connection.cpp:316-321 | the first loop counts the primary-key columns |
| GdSqliteStatements.ColumnClause | src/sqlite_connection.cpp:323-359 | one column's definition: name, type, PRIMARY KEY, NOT NULL, UNIQUE, DEFAULT |
| GdSqliteStatements.ColumnsSql | src/sqlite_connection.cpp:322-387 | the column definitions joined by commas |
| GdSqliteStatements.PrimaryString | src/sqlite_connection.cpp:341-345 | the composite key lists the primary columns separated by ", " |
| GdSqliteStatements.PrimaryList | src/sqlite_connection.cpp:341-345 | the composite key list as the loop accumulates it; PrimaryListJoined states it is the names joined by ", " |
| GdSqliteStatements.ForeignKeyOf | src/sqlite_connection.cpp:361-382 | one column's FOREIGN KEY clause |
| GdSqliteStatements.ForeignKeysSql | src/sqlite_connection.cpp:361-382 | all FOREIGN KEY clauses in column order |
| GdSqliteStatements.PrimaryIndicesExactly | src/sqlite_connection.cpp:316-321 | the primary columns are exactly those flagged, in order |
| GdSqliteStatements.PrimaryKeyPlacement | src/sqlite_connection.cpp:333-391 | a single primary key is inline; two or more get a composite PRIMARY KEY clause |
| GdSqliteStatements.PrimaryListJoined | src/sqlite_connection.cpp:341-345 | the composite key is the names joined by ", " |
| GdSqliteStatements.ForeignKeyClause | src/sqlite_connection.cpp:361-382 | a clause is written exactly when foreign keys are on and the definition has two parts |
| GdSqliteImport.ObjectOf | src/sqlite_connection.cpp:961-1013 | an object has a name, an sql and a type; views become triggers; only tables carry rows |
| GdSqliteImport.Objects | src/sqlite_connection.cpp:956-1016 | the objects of readings that all succeed, one per reading and in order |
| GdSqliteImport.Parsed | src/sqlite_connection.cpp:961-1013 | each element is checked on its own |
| GdSqliteImport.FirstRefused | src/sqlite_connection.cpp:956-1016 | the first element that `validate_json` refuses |
| GdSqliteImport.ValidateJson | src/sqlite_connection.cpp:956-1016 | `validate_json` accepts exactly when every element can be imported, and appends the objects it accepted |
| GdSqliteImport.ImportableIs | src/sqlite_connection.cpp:963-1010 | an element can be imported exactly when it has the required keys and a known type |
| GdSqliteImport.ViewIsTrigger | src/sqlite_connection.cpp:1002-1003 | a view is imported as a trigger, without rows |
| GdSqliteImport.TableRows | src/sqlite_connection.cpp:988-999 | a table keeps its row array, and no base64 columns unless given |
| GdSqliteImport.TableNames | src/sqlite_connection.cpp:1026-1028 | one name per virtual table |
| GdSqliteImport.ShadowNames | src/sqlite_connection.cpp:1026-1038 | five shadow names per virtual table |
| GdSqliteImport.ShadowsOf | src/sqlite_connection.cpp:1033-1037 | one name per FTS5 shadow suffix |
| GdSqliteImport.KeptFlags | src/sqlite_connection.cpp:1042-1051 | each entry is flagged exactly when it is kept |
| GdSqliteImport.Rows | src/sqlite_connection.cpp:1043 | each entry read as a Dictionary |
| GdSqliteImport.ShadowTableNames | src/sqlite_connection.cpp:1025-1038 | the first loop builds the shadow names |
| GdSqliteImport.ShadowNamesExactly | src/sqlite_connection.cpp:1026-1038 | a name is a shadow name exactly when it is a virtual table name plus one of the five FTS5 suffixes |
| GdSqliteImport.RemoveShadowTables | src/sqlite_connection.cpp:1018-1055 | `remove_shadow_tables` keeps exactly the objects Clean keeps |
| GdSqliteImport.CleanExactly | src/sqlite_connection.cpp:1039-1052 | kept: tables that are not shadow tables and triggers, in their order, each once |
| GdSqliteImport.DropsIndexAndView | src/sqlite_connection.cpp:1039-1052 | indexes and views are dropped |

## Left out

- SQLite itself is not part of this model: the pager, the B-tree, page cache, locks, `sqlite3RekeyVacuum` and the transaction calls. The re-key loop takes the result codes of its pager calls as the parameter `io`.
- codec_set_to, sqlite3CodecAttach, sqlite3_key_v2, sqlite3_rekey_v2: only the parts that do not go through SQLite are modelled:
  - the page-1 test;
  - the branch choice of the attach;
  - `db_index_of` and `sqlite3CodecGetKey`;
  - the change-key page loop.

  Not modelled: the decrypt and encrypt branches of re-keying (each is one call of SQLite's vacuum), the page size and secure-delete calls, and the mutexes.
- Sqlite.DecOrHexToI64: SQLite's `sqlite3_uri_int64` is not part of this model. The reader follows SQLite's documented `sqlite3DecOrHexToI64`:
  - "0x" or "0X", then up to 16 significant hex digits that end the string, read as a 64-bit pattern;
  - otherwise the bytes up to the end of the run of `"+- \n\t0123456789"`, plus one byte more, go to `sqlite3Atoi64` (`Atoi64`);
  - `Atoi64` accepts ASCII white space (space and 0x09 to 0x0D) before an optional sign and after the digits, and nothing else after them.

  White space outside ASCII is not modelled.
- ChaChaRng.Rng.Read: the `SQLITE_THREADSAFE` mutex is dropped, and the operating system's entropy source is an oracle (`Entropy`). A short read, where the source calls `abort()`, is reported as a failure.
- SqleetPage.CodecHandle: the nonce `chacha20_rng` would draw for an encrypted page is the parameter `nonce`.
- SqleetConfig.ParseUriConfig: the random salt and header bytes are the parameters `saltRandom` and `headerRandom`.
- Poly1305Limbs.Poly1305Tag: the `volatile` wipes of the limbs after use are not modelled. Neither are the key-burning loops of pbkdf2_hmac_sha256 or the zeroing in codec_free beyond the fields of `Codec`.
- SqleetPage.SizeHook: the `sqlite3PagerSetPagesize` call and the btree page-size update are not modelled. The method returns whether they would run.
- SqleetCodec.Codec.Free: the memory release (`sqlite3_free`) has no counterpart. A codec the source leaks is simply left as it is; for `ChangeKey` that is the new codec on a failed transaction.
- GodotVariant.Variant: Dictionary keys are Strings only. Floats keep only whether they are zero and their printed form.
- GodotVariant.Lower: `to_lower` is modelled for ASCII letters only.
- GodotVariant.Stringify: nested Arrays and Dictionaries are printed with their Strings unquoted. Only the `String` conversion of a String matters to the builders.
- GdSqliteStatements.UpdateRows: the BEGIN/END TRANSACTION around `update_rows` and `delete_rows` and the saved error message are not modelled. The model stops at the statement they issue.
- GdSqliteStatements.InsertRows: the result code of each insert is a parameter. `query` and `query_with_bindings` (statement preparation, binding and stepping) are not part of this model.
- GdSqliteImport.ValidateJson: the JSON parsing, file I/O and base64 decoding of `import_from_buffer`/`export_to_buffer` are not modelled. Only the validation of the parsed array is.
- GdSqliteImport.RemoveShadowTables: the `sqlite_master` query is replaced by its result, the list of virtual tables.

## Findings

| source | as written | input that shows it | evidently intended | confidence | as-written member | corrected member |
|---|---|---|---|---|---|---|
| src/sqlite/sqleet.c:444-445 | the page size of page 1 is read into a `uint16_t` and must be a power of two of at least 512 | a valid SQLite 3.31.0 database with 65536-byte pages: the file format stores 65536 as the field value 1, which fails the test, so the codec reports SQLITE_NOTADB | read the field as the file format defines it (1 means 65536) and accept every valid page size | not executed | SqleetAttach.Page1RcRefuses65536 | SqleetAttach.Page1RcCorrectedOfHeader |


# MD5 digest engine of rust-md5sum, modelled in Dafny

`rust-md5sum` prints the MD5 digest of files or standard input. Its engine has two functions in `src/main.rs`:

- **`md5`** drives the digest.
  - It starts from the four-word state of RFC 1321 section 3.3.
  - It reads and compresses every whole 64-byte block.
  - It copies the remaining `R = length % 64` bytes into a zeroed 128-byte buffer, followed by `0x80`.
  - It writes the little-endian 64-bit bit length at offset 56, compressing one final block, when `R <= 55`. Otherwise it writes it at offset 120 and compresses two final blocks.
  - It prints the four state words, byte-swapped, as 32 lower-case hex digits.
- **`md5_chunked`** is the compression function of RFC 1321 section 3.4.
  - It decodes sixteen little-endian words.
  - It runs 64 rounds with the `S` and `K` tables. Each round selects its nonlinear function and word index through a `match` whose catch-all arm panics.
  - It adds the result back into the state modulo 2^32.

The model is split into six modules:

- `Words` (`words.dfy`): bytes (`bv8`) and words (`bv32`).
  - Little-endian word decoding and encoding.
  - `swap_bytes` and `rotate_left`.
  - The 8-byte little-endian bit-length field, taken modulo 2^64.
- `Hex` (`hex.dfy`): the `{:08x}` formatting of a word, and a parser that undoes it.
- `Compression` (`compress.dfy`): `md5_chunked` written twice.
  - As pure functions: `SelectRound`, `Step`, `Rounds` and `Compress`.
  - As the imperative method `ChunkedCompress`, whose loops are proved to compute `Compress`.
- `RfcReference` (`rfc_reference.dfy`): a second statement of section 3.4 of RFC 1321.
  - It has the auxiliary functions F, G, H and I, and the tables of word indices and shifts as listed there.
  - It has sixteen groups of four operations `[abcd k s i]` on fixed word names.
  - A proof shows that it computes the same transform as the rotating-variable rounds of `md5_chunked`.
  - It shares word decoding, the word-wise sum, the `K` table and the rotation `Words.RotL` with the model. `RotLAtShift` ties that rotation, at every round's shift, to a circular shift written with Dafny's built-in bit-vector rotation.
- `Padding` (`padding.dfy`): the padded message of RFC 1321 sections 3.1 and 3.2.
  - `FinalBlocks` gives the final one or two blocks `md5` builds in its 128-byte buffer.
  - A proof shows that the whole blocks followed by the final blocks are exactly the padded message.
- `Md5` (`md5.dfy`): the fold over blocks, the output format and its inverse, and the digest.
  - The digest is the fold of the compression function over the padded message, formatted as hex.
  - `Md5` is the imperative `md5`: the bulk loop (`BulkCompress`), then the final blocks (`FinalCompress`). It is proved to return that digest.

The byte reader is modelled as the sequence of the message's bytes, whose length is the `length` argument.

## Model

| member | source | states |
|---|---|---|
| Md5.InitBytes | src/main.rs:46-51 | The constant `Md5.Init` holds the initial words. The initial words A, B, C, D are the ones section 3.3 of RFC 1321 lists low-order byte first: 01 23 45 67, 89 ab cd ef, fe dc ba 98, 76 54 32 10. |
| Md5.BulkCompress | src/main.rs:53-59 | The bulk loop compresses exactly length / 64 blocks, in input order. It leaves length % 64 bytes, and its state is the fold of the compression function over the whole blocks read. |
| Md5.Fold | src/main.rs:55-59 | The state after compressing whole blocks in order, starting from a given state. Its meaning is given by `FoldOne` and `FoldAppend`, and `BulkCompress` shows the loop computes it. |
| Md5.FoldOne | src/main.rs:57-58 | Folding over a single block is one call of the compression function. |
| Md5.FoldAppend | src/main.rs:55-59 | Compressing blocks one at a time as they are read is the fold over their concatenation: the fold over x + y continues the fold over x with y. |
| Md5.FinalCompress | src/main.rs:61-73 | The one or two blocks compressed from the 128-byte buffer (tail, 0x80, zeros, bit length at 56 or at 120) continue the fold exactly as the final blocks of the padded message do. |
| Padding.TailBuffer | src/main.rs:61-63 | The 128-byte buffer holds the unread tail at its front, 0x80 right after it, and zeros everywhere else. |
| Padding.Splice | src/main.rs:67 | Copying the length field into a sub-slice changes exactly those positions and keeps the bytes before and after them. |
| Padding.FinalBlocks | src/main.rs:66-73 | One final block (64 bytes) is compressed when the tail has at most 64 - 9 bytes, and two (128 bytes) otherwise. |
| Padding.FinalByte | src/main.rs:61-73 | Byte by byte, the final blocks hold the tail, then 0x80, then zeros, then in their last 8 bytes the little-endian bit length. For a second block this puts the length at bytes 56..64 of that block. |
| Padding.ZeroCount | src/main.rs:61-73 | Fewer than 64 zero bytes are put between 0x80 and the length field, and they bring the padded length to a multiple of 64. |
| Padding.PadLayout | src/main.rs:61-73 | The padded message of RFC 1321 is a whole number of blocks, 9 to 72 bytes longer than the message. It holds the message, a single 0x80 byte, zeros, and the bit length modulo 2^64 in its last 8 bytes. |
| Padding.PadBlockCount | src/main.rs:66-73 | The padded message has length / 64 + 1 blocks when length % 64 <= 55, and length / 64 + 2 otherwise. This is the number of compressions `md5` performs. |
| Padding.BlocksArePad | src/main.rs:53-73 | The whole blocks read by the bulk loop followed by the final blocks from the buffer are exactly the padded message of RFC 1321. |
| Padding.BlocksArePadAt | src/main.rs:53-73 | Each single byte of the compressed blocks equals the byte of the padded message at the same position. |
| Md5.FinalStateOfBlocks | src/main.rs:53-73 | The fold over the whole blocks, continued over the final blocks, is the fold over the padded message from the initial state. |
| Md5.Md5 | src/main.rs:45-82 | `md5` returns the RFC 1321 digest of the message, the fold over the padded message formatted as hex, and the result is 32 lower-case hex digits. |
| Md5.Format | src/main.rs:75-81 | The output has exactly 32 characters, all lower-case hex digits. |
| Md5.FormatIsDigestBytes | src/main.rs:75-81 | Printing each word byte-swapped as `{:08x}` prints the 16 state bytes A, B, C, D in memory order, low byte first, two digits each: the digest order of section 3.5 of RFC 1321. |
| Md5.SwappedWordHex | src/main.rs:77-80 | The eight digits of a byte-swapped word are the digits of its four little-endian bytes, in order. |
| Md5.ParseFormat | src/main.rs:75-81 | Formatting loses nothing: reading the 32 digits back gives the state. |
| Md5.FormatParse | src/main.rs:75-81 | Every 32-digit lower-case hex string is the output for some state. |
| Hex.Hex32 | src/main.rs:76 | `{:08x}` prints exactly eight lower-case hex digits. |
| Hex.Parse32OfHex32 | src/main.rs:76 | The eight digits read back as the word printed. |
| Hex.Hex32OfParse32 | src/main.rs:76 | Every eight-digit lower-case hex string is the printing of the word it denotes. |
| Words.SwapBytes | src/main.rs:77-80 | `swap_bytes` reverses the four little-endian bytes of a word. |
| Words.SwapBytesInvolution | src/main.rs:77-80 | Swapping the bytes twice restores the word. |
| Words.Le64 | src/main.rs:65 | `u64::to_le_bytes((length * 8) as u64)` gives 8 bytes whose little-endian value is 8 * length modulo 2^64. |
| Words.FromLeOfLeBytes | src/main.rs:65 | Encoding a number in k little-endian bytes and decoding it gives the number modulo 256^k. |
| Words.LeBytesInjective | src/main.rs:65 | A number below 256^k is determined by its k little-endian bytes. |
| Words.LeWord | src/main.rs:106 | `u32::from_le_bytes`. Its meaning is given by `WordBytesOfLeWord` and by the contract of `WordBytes`. |
| Words.WordBytesOfLeWord | src/main.rs:106 | The word read from four little-endian bytes has exactly those bytes as its little-endian image. |
| Words.RotL | src/main.rs:129 | `u32::rotate_left`, amount taken modulo 32. Its meaning is given by `RfcReference.RotLAtShift`. |
| RfcReference.RotLAtShift | src/main.rs:129 | For every round i and every word, rotating left by `S[i]` is the circular shift `<<<` by the shift RFC 1321 lists for operation i, as Dafny's built-in bit-vector rotation computes it. |
| Compression.DecodeWords | src/main.rs:104-107 | Word i of a block is the little-endian reading of bytes 4i..4i+4. |
| Compression.DecodedWordsUnique | src/main.rs:104-107 | Only one sequence of sixteen words has the block's four-byte groups as its byte images. |
| Compression.EncodeDecodeWords | src/main.rs:104-107 | Encoding the decoded words again gives back the block. |
| Compression.SelectRound | src/main.rs:114-121 | The match picks a real arm exactly for rounds 0..=63. Each such round gets the function of its quarter (F, G, H, I) and a word index below 16, so the panicking arm is unreachable and `m[g]` is in bounds. |
| Compression.EveryWordReadEachQuarter | src/main.rs:114-121 | Within each quarter of the rounds, every one of the sixteen words is read by some round, so each quarter's index map is a permutation. |
| Compression.Mix | src/main.rs:115-118 | The four nonlinear functions of the round match. Their meaning is given by `RfcReference.MixIsAux`. |
| Compression.Step | src/main.rs:114-129 | One round: the match, the three wrapping additions, the word moves and the rotated update of b. Its meaning is given by `RfcReference.StepIsOp`. |
| Compression.Rounds | src/main.rs:114-130 | The working words after the first n rounds. Its meaning is given by `RfcReference.RoundsAreGroups` and by the loop invariant of `ChunkedCompress`. |
| Compression.Add | src/main.rs:132-137 | The word-wise wrapping feed-forward. It is used as written by both `Compress` and the RFC transform. |
| Compression.Compress | src/main.rs:84-138 | The compression function as pure functions. Its meaning is given by `ChunkedCompress` and `RfcReference.CompressIsRfc`. |
| Compression.ChunkedCompress | src/main.rs:84-138 | The decode loop, the 64 rounds on working copies of a, b, c, d, and the word-wise wrapping feed-forward compute the compression function. |
| RfcReference.TablesAgree | src/main.rs:85-119 | The word index each round selects and its `S` shift agree with the word-index and shift listing of section 3.4 of RFC 1321. |
| RfcReference.IndexInRange | src/main.rs:114-121 | Every listed word index is below 16. |
| RfcReference.MixIsAux | src/main.rs:115-119 | The function computed in each round is the auxiliary function F, G, H or I of its quarter. |
| RfcReference.StepIsOp | src/main.rs:123-129 | A round moves the words one place (a := d, d := c, c := b) and sets b to the RFC operation b + ((a + f + X[k] + T[i]) <<< s), all modulo 2^32. |
| RfcReference.StepAsOp | src/main.rs:123-129 | The round's wrapping sum, taken in the source's order f + a + K[i] + m[g], is the RFC operation on the selected function value, word and shift. |
| RfcReference.OpAtAsStep | src/main.rs:114-129 | Operation i of the RFC listing uses the same function value, word and shift as round i. |
| RfcReference.RoundSumIsOp | src/main.rs:123-129 | The order of the wrapping additions does not matter. |
| RfcReference.FourStepsAreGroup | src/main.rs:114-130 | Four consecutive rounds equal one RFC group [ABCD] [DABC] [CDAB] [BCDA] on fixed word names. |
| RfcReference.RoundsAreGroups | src/main.rs:114-130 | After 4n rounds, the working words equal the state after n RFC groups. |
| RfcReference.CompressIsRfc | src/main.rs:84-138 | `md5_chunked` computes the RFC 1321 transform: the 16 groups followed by the word-wise feed-forward. |

## Left out

- `main` (src/main.rs:5-35): argument handling, standard input, file opening and its error message, and reading the file length. These are I/O.
- The reader: `read_exact` and its `unwrap` panics are replaced by the sequence of message bytes. The requirement that the message has `length` bytes is a precondition, not a behaviour.
- The test vectors of the `rfc1321` test (src/main.rs:146-167) are not proved. Evaluating 64 rounds on concrete data symbolically is beyond what the verifier does cheaply.
- `format!` internals: `{:08x}` is modelled as `Hex.Hex32`, eight digits, most significant nibble first.
- Md5.Md5: `(length * 8) as u64` is modelled as 8 * length modulo 2^64. That is what a release build on a 64-bit target computes. A debug build panics when `length * 8` overflows `usize` (length of 2^61 bytes or more). On a 32-bit target the product wraps modulo 2^32 before the widening cast. Neither case is modelled.
- RfcReference.CompressIsRfc: the RFC transform shares `DecodeWords`, `Add`, the `K` table and `RotL` with the model, so it does not check these independently. `DecodeWords` has its own partners (`EncodeDecodeWords`, `DecodedWordsUnique`), and `RotL` is tied to the built-in rotation by `RotLAtShift`.
- The `K` table is taken as written, and `RfcReference` uses it as the table T. Its derivation from the sine function in section 3.4 of RFC 1321 is floating point and is not modelled.
- The `panic!()` arm of the round match is modelled as the `Panic` selection. Its effect (aborting the program) is not modelled, because `Compression.SelectRound` proves no round reaches it.

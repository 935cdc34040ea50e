# Verified model of the c2simd cores

Dafny models of the parts of this repository where a fast form must agree with a simple one, or
where a state machine must stay within its bounds for every input:

- **Poly1305.** Four implementations of one MAC: the 3x44-bit chain with 16-, 8-, 4- and 1-block
  tiers (`Poly44`), the four-lane SIMD engine with stride r^4 (`PolyLanes`, on the limb arithmetic of
  `Poly26`), the serial 26-bit engine (`PolySerial`) and Monocypher's 32-bit limbs (`Poly32`). Each
  is a class whose `Finish` writes the tag that `Poly1305Spec` defines as a Horner sum (section 2.5
  of RFC 8439), after any sequence of updates of any lengths. Machine words wrap in the model, and
  the limb bounds that make the wrapping harmless are part of the proofs.
- **ChaCha20 and the AEAD.** `ChaCha20` is the specification (RFC 8439, sections 2.1 to 2.4),
  `ChaChaSimd` and `ChaChaStream` the two-block vectors and the tiered stream, `MonoChaCha` the
  scalar version with a 64-bit counter, `Aead` the fused lock and unlock, `MonoAead` Monocypher's
  incremental AEAD. Fusion in 4096-byte chunks equals encrypt-then-MAC on the whole message; both
  constructions seal and open alike; a context's reads accept exactly what another one wrote.
- **Scalars, field, BLAKE2b, Argon2.** `ScalarWords` (Barrett and Montgomery reduction),
  `ScalarInverse` (the ladder and cofactor clearing), `SlidingWindow` (the signed recoder and the
  double-scalar loop), `Field25519` (multiplication, squaring, canonical encoding), `FieldPower`
  (inverse square root and inverse by chains of products), `Blake2b` (streaming), `Argon2` (block indexing and the claim that segments may run in parallel).
- **Terminal parser.** `VtGrid` (cursor, wrap, scroll region), `Utf8`, `VtParser` (the automaton as
  a function on values), `VtFeed` (the parser as it runs, with the eight-byte scan of `WordScan`,
  the run writer and the tight CSI loop), `VtScan` and `VtSplit` (what cutting a stream into
  calls changes).
- **Grid diff.** `GridDiff`: the bounded kernel with retry and the two vector variants produce the
  same canonical list of maximal runs.

What the specification functions themselves mean is proved apart from the code that refines them:
`Poly1305Meaning` (the tag as a polynomial), `ChaCha20Layout` and `AeadLayout` (constants, rounds, key
stream and authenticated string byte by byte), `Blake2bParameters` (parameter block, initialisation
vector, counters), `Argon2Indexing` (which block a step reads and what it writes), `VtDisplay` (grid
operations cell by cell, and what a run of text shows), `VtEffects`, `VtPen` and `VtControls` (what every
control sequence, colour selection, escape, control byte, string and text does when fed as bytes), and
in `Utf8` an encoder that decoding inverts.

Support modules: `Words` (powers, congruence, numbers written in digits), `Bits` (bitwise
operations on words), `WordBytes` (little-endian loads and stores), `Buffers`, `Simd` (meaning of
the vector instructions used, as operations on sequences of lanes), `MonoUtil` (alignment and
constant-time comparison).

Code that updates buffers and fields in place is a class with methods proved against specification
functions; those functions' own properties are lemmas. A name such as `absorbed` is a ghost
field: the message given so far. BLAKE2b's compression function and Argon2's rounds are
parameters.

One promise holds under a condition only. The comments of `Parser.Feed` suggest that a character cut
by the end of a buffer is simply completed by the next call. A malformed character is not: the kept
bytes go on absorbing input, up to four bytes, and are then replaced as one. So the bytes E2 41 give
one result in one call and another when cut (`VtSplit.LeadThenLetter`). With nothing pending, all
cuts of all prefixes of a stream are harmless if and only if no multi-byte character that has begun in
the ground text is broken off; the last one may be unfinished (`VtSplit.CutsAgreeIffUnbroken`). The
condition is a scan over automaton states and kept bytes alone (`VtScan.UnbrokenText`), without the
grid. Every stream whose ground text is well-formed UTF-8 meets it (`VtScan.WellFormedIsUnbroken`),
and so do streams with stray bytes, which are replaced one by one however they are cut.

Where a comment and the code differ, the code is modelled: the weights of the horizontal fold are
r^4, r^3, r^2, r and not r^3, r^2, r, 1 as the comment says (`simd_poly1305_v2.go:336-340`); ESC E
and restoring the cursor leave a pending wrap pending; a newline below the scroll region
moves the cursor to the bottom of the region and scrolls it; a region of one row never
scrolls; `invsqrt` multiplies by sqrt(-1) when the quartic is -1 or -sqrt(-1), and the power it
multiplies is x^((p-5)/8), not -1 or sqrt(-1) and x^((p-1)/4) as the comment beside it says
(`internal/monocypher/a_linux_amd64.go:4073-4079`).

Check everything with `dafny verify dfyconfig.toml` and the options `--resource-limit 2000000
--verification-time-limit 0`.

## Model

| member | source | states |
|---|---|---|
| Poly1305Spec.HornerAppend | simd_poly1305_parallel.go:173-471 | the Horner sum of section 2.5 of RFC 8439 over a + b is the sum over b started from the sum over a, for every a of whole blocks: why a message may arrive in pieces |
| Poly1305Spec.PaddedBlock | internal/monocypher/a_linux_amd64.go:1132-1149 | a short block padded with a one byte and zeros is the number the specification gives it |
| Poly1305Spec.TagFromWords | simd_poly1305_parallel.go:522-529 | adding the second key half to the two low words of the residue, with a carry between them, is the tag |
| Poly44.KeyPowersArePowers | simd_poly1305_parallel.go:102-147 | the sixteen precomputed keys are reduced and congruent to r^1 … r^16 modulo 2^130 - 5, however the products are grouped |
| Poly44.Mul44Correct | simd_poly1305_parallel.go:25-80 | for every loaded accumulator and key: no 64- or 128-bit overflow, limbs back within bounds, product congruent modulo 2^130 - 5 |
| Poly44.PropagateReduces | simd_poly1305_parallel.go:47-79 | the lazy carries of 128-bit columns below 2^96 give reduced limbs of the same residue |
| Poly44.NormalizeReduces | simd_poly1305_parallel.go:304-320 | a sum of seventeen reduced products is brought back to reduced limbs of the same residue by one pass |
| Poly44.TierSumCorrect | simd_poly1305_parallel.go:186-306 | by induction over the blocks of a tier: the partial sum is r^(n-i) times the Horner value of the first i blocks, with limb bounds that grow by one product a block |
| Poly44.TierStepCorrect | simd_poly1305_parallel.go:185-461 | for every tier size n up to 16, n blocks weighted with r^n … r^1 and normalised once are n Horner steps |
| Poly44.BlockStepCorrect | simd_poly1305_parallel.go:473-482 | the one-block step with high bit 0 or 1 is one Horner step |
| Poly44.OnePassCanonical | simd_poly1305_parallel.go:492-505 | from every reduced accumulator a single carry pass gives limbs below their radix: a second pass is never needed |
| Poly44.SubtractReduces | simd_poly1305_parallel.go:507-520 | one conditional subtraction then gives exactly the residue modulo 2^130 - 5 |
| Poly44.FinishIsTag | simd_poly1305_parallel.go:484-530 | the bytes written at the end are the tag, whenever the accumulator is congruent to the Horner value |
| Poly44.QuadChain.constructor | simd_poly1305_parallel.go:94-171 | clamping, limbs and powers of the key; nothing absorbed |
| Poly44.QuadChain.Update | simd_poly1305_parallel.go:173-471 | for messages of any length in any state: the absorbed message grows by exactly the argument, whichever tiers and buffered bytes were used |
| Poly44.QuadChain.Finish | simd_poly1305_parallel.go:484-530 | after any sequence of updates the output is the Poly1305 tag of their concatenation |
| Poly26.CarryReduces | simd_poly1305_v2.go:86-106 | the carry chain with wrap-around brings sums below 2^60 to reduced limbs of the same residue, without overflow |
| Poly26.Mul26Correct | simd_poly1305_v2.go:61-84 | five-limb multiplication: no overflow, reduced, congruent to the product |
| Poly26.BlockStepCorrect | simd_poly1305_vector.go:146-204 | one block with or without the high bit is one Horner step |
| Poly26.KeyLimbsIsKey | simd_poly1305_v2.go:29-48 | the five limbs read from the clamped key are reduced and have its value |
| Poly26.OnePassCanonical | simd_poly1305_v2.go:377 | one carry pass makes every reduced accumulator canonical limb by limb |
| Poly26.SubtractReduces | simd_poly1305_v2.go:379-398 | the masked choice between h and h - p is h modulo p |
| Poly26.FinishIsTag | simd_poly1305_v2.go:332-406 | canonicalising, packing and adding the pad gives the tag |
| PolyLanes.VectorDotLane | simd_poly1305_v2.go:155-165 | for reduced limbs the widening products of even 32-bit lanes truncate nothing: each lane is the scalar column |
| PolyLanes.LoadBlocksLane | simd_poly1305_v2.go:138-153 | the interleaves, shifts and masks put block l into lane l, with its high bit |
| PolyLanes.BlockStep64Lane | simd_poly1305_v2.go:117-197 | a vector step is the scalar step in each lane |
| PolyLanes.LaneStepCorrect | simd_poly1305_v2.go:117-197 | a lane becomes lane * r^4 + block, reduced again, with no 64-bit sum overflowing |
| PolyLanes.FourBlocks | simd_poly1305_v2.go:336-340 | four Horner steps are h * r^4 plus four blocks weighted r^4, r^3, r^2, r |
| PolyLanes.FoldStep | simd_poly1305_v2.go:201-307 | after every 64 bytes the weighted sum of the lanes is the Horner value of the prefix |
| PolyLanes.FoldLanesCorrect | simd_poly1305_v2.go:336-348 | the horizontal fold with r^4 … r^1, cut to 32 bits in between, is the weighted sum of the lanes |
| PolyLanes.PowersArePowers | simd_poly1305_v2.go:29-59 | r^1 … r^4 by repeated multiplication, reduced |
| PolyLanes.FourLaneEngine.UpdateBlocks64 | simd_poly1305_v2.go:201-307 | whole 64-byte blocks advance the engine by exactly those blocks |
| PolyLanes.FourLaneEngine.UpdateStream | simd_poly1305_v2.go:309-330 | messages of any length, buffered by 64 bytes: the absorbed message grows by exactly the argument |
| PolyLanes.FourLaneEngine.Finish | simd_poly1305_v2.go:332-406 | after any sequence of updates the output is the Poly1305 tag of their concatenation |
| PolySerial.CompareCarry | simd_poly1305_vector.go:272-283 | detecting the carry of the pad addition by comparison gives the same bytes as a wide addition |
| PolySerial.SerialEngine.Update | simd_poly1305_vector.go:105-125 | messages of any length: the absorbed message grows by exactly the argument |
| PolySerial.SerialEngine.Finish | simd_poly1305_vector.go:207-284 | after any sequence of updates the output is the Poly1305 tag of their concatenation |
| Poly32.FoldCorrect | internal/monocypher/a_linux_amd64.go:1007-1019 | partial reduction of columns below 0x98000001_00000000: five words at most 4_ffffffff_ffffffff_ffffffff_ffffffff, same residue |
| Poly32.StepCorrect | internal/monocypher/a_linux_amd64.go:966-1030 | the documented invariant on h is kept by every block, and the block is one Horner step, without overflow of any 64-bit column |
| Poly32.KeyMultClamped | internal/monocypher/a_linux_amd64.go:1032-1072 | the masked key words are clamped and have the value of the clamped key |
| Poly32.SubtractCount | internal/monocypher/a_linux_amd64.go:1150-1167 | the quotient computed from (5 + h) >> 130 decides h >= p, so one conditional subtraction is enough |
| Poly32.PolyContext.Update | internal/monocypher/a_linux_amd64.go:1074-1126 | alignment, whole blocks and remainder: the absorbed message grows by exactly the argument |
| Poly32.PolyContext.Final | internal/monocypher/a_linux_amd64.go:1128-1182 | after any sequence of updates the output is the same Poly1305 tag |
| Poly1305Meaning.MultiplierIsClamped | simd_poly1305_parallel.go:94-100 | the multiplier r is the first key half, little-endian, with the top four bits of bytes 3, 7, 11, 15 and the bottom two of bytes 4, 8, 12 cleared (section 2.5 of RFC 8439) |
| Poly1305Meaning.HornerIsPolynomial | simd_poly1305_parallel.go:173-471 | the Horner sum is, modulo 2^130 - 5, the polynomial in r whose coefficients are the blocks, the first with the highest power |
| Poly1305Meaning.TagIsPolynomial | simd_poly1305_parallel.go:484-530 | the tag, little-endian, is the residue of that polynomial plus the second key half, modulo 2^128 |
| ChaCha20.EncryptTwice | simd_stream.go:19-174 | encryption is its own inverse for every key, nonce, counter and text |
| ChaCha20.EncryptAppend | simd_fused.go:169-187 | a text may be cut after whole blocks if the 32-bit counter advances by the blocks used, modulo 2^32 |
| ChaCha20Layout.ConstantsAreAscii | simd_stream.go:24-27 | the four constant words store as the ASCII bytes of "expand 32-byte k" |
| ChaCha20Layout.InitialLayout | simd_stream.go:24-54 | the initial state, written out, is constants, key, little-endian counter, nonce, in this order |
| ChaCha20Layout.RoundsAlternate | internal/monocypher/a_linux_amd64.go:710-821 | n double rounds are 2n rounds, column rounds and diagonal rounds in turn, columns first |
| ChaCha20Layout.BlockIsTwentyRounds | internal/monocypher/a_linux_amd64.go:710-821 | word i of a block is word i after twenty rounds plus word i of the initial state modulo 2^32, little-endian |
| ChaCha20Layout.SubkeyIsOuterRows | simd_fused.go:28-108 | HChaCha20 gives words 0 to 3 and 12 to 15 after twenty rounds, without the addition, the sixteen input bytes standing for counter and nonce |
| ChaCha20Layout.QuarterIsInvertible | simd_chacha20.go:12-23 | the quarter round is undone by rotations to the right by 7, 8, 12 and 16 and subtractions, in reverse order |
| ChaCha20Layout.OneBitThrough | simd_chacha20.go:12-23 | the quarter round of the words 0, 0, 0, 1, in numbers |
| AeadLayout.CipherStretch | simd_stream.go:47-174 | bytes 64k and on of a ciphertext are the text there XORed with the block of counter + k modulo 2^32 |
| ChaChaSimd.QuarterRowsLane | simd_chacha20.go:12-23 | the vector quarter round is the quarter round of section 2.1 of RFC 8439 in every lane |
| ChaChaSimd.DiagonalsMatch | simd_chacha20.go:38-54 | permuting rows, rounding and permuting back is the diagonal round |
| ChaChaSimd.DoubleBlockIsTwoRounds | simd_chacha20.go:26-57 | one vector double round is a column round and a diagonal round of each half |
| ChaChaSimd.DoubleBlocksAreRounds | simd_stream.go:66-69 | any number of vector double rounds |
| ChaChaSimd.PairIsTwoBlocks | simd_stream.go:42-69 | a register holds the key stream blocks of two consecutive counters |
| ChaChaSimd.CounterRowAdvances | simd_stream.go:106-112 | adding n in lanes 0 and 4 advances both counters by n modulo 2^32 and leaves the nonce alone |
| ChaChaSimd.HChaCha20 | simd_fused.go:28-108 | HChaCha20 of draft-irtf-cfrg-xchacha section 2.2: rows 0 and 3 after twenty rounds, nothing else written |
| ChaChaStream.EncryptPair | simd_stream.go:114-145 | 128 bytes XORed with a register are encrypted under its counter |
| ChaChaStream.EncryptChaCha20 | simd_stream.go:19-174 | for every key, nonce, starting counter and length, in place or not: exactly the n bytes of dst become the encryption of section 2.4 of RFC 8439, through the 256-byte, 128-byte and tail tiers and counter wrap |
| MonoChaCha.ScalarRounds | internal/monocypher/a_linux_amd64.go:710-821 | the unrolled rounds on sixteen local words are ten column and diagonal rounds |
| MonoChaCha.SameBlock | internal/monocypher/a_linux_amd64.go:839-934 | a block under a 64-bit counter and 8-byte nonce is the IETF block whose nonce starts with the high counter word |
| MonoChaCha.SameStream | internal/monocypher/a_linux_amd64.go:936-942 | the two streams agree for every text that does not carry the low counter word over 2^32 |
| MonoChaCha.XorWord | internal/monocypher/a_linux_amd64.go:866-867 | XORing little-endian words is XORing their bytes |
| MonoChaCha.Encrypt64Append | internal/monocypher/a_linux_amd64.go:839-934 | cutting a text after whole blocks, with the 64-bit counter carried on |
| MonoChaCha.ChaCha20Djb | internal/monocypher/a_linux_amd64.go:839-934 | for every text, null or in place, and every counter: the encrypted bytes in place, nothing else written, and the counter of the next block returned |
| MonoChaCha.ChaCha20H | internal/monocypher/a_linux_amd64.go:825-837 | the same HChaCha20 |
| Aead.MacDataAligned | simd_fused.go:143-198 | the authenticated string is always a whole number of 16-byte blocks |
| Aead.MacDataInjective | simd_fused.go:143-198 | equal authenticated strings come from equal associated data and ciphertexts, for lengths below 2^64 |
| AeadLayout.MacDataLayout | simd_fused.go:143-198 | where everything stands in the authenticated string: associated data, zeros to a multiple of 16, ciphertext, zeros to a multiple of 16, then the length of the data and the length of the ciphertext as 64-bit little-endian numbers (section 2.8 of RFC 8439) |
| AeadLayout.SealFollowsKeyBlock | simd_fused.go:136-187 | one key stream from block 0 on: bytes 0 to 31 are the one-time key, the text is encrypted from byte 64 on |
| AeadLayout.ShortNonceLayout | simd_fused.go:128-141 | after deriving the subkey the nonce is four zero bytes and the last eight of the 24 |
| Aead.OpenSealed | simd_fused.go:220-300 | opening a sealed message gives the text back |
| Aead.OpenIsExact | simd_fused.go:220-300 | a message opens to a text if and only if it is that text sealed: exactly the recomputed tag is accepted |
| Aead.NewPolyMac | simd_poly1305_v2.go:422-429 | whichever engine is chosen it is keyed and empty |
| Aead.Update | simd_poly1305_v2.go:411-414 | through the interface either engine absorbs exactly its argument |
| Aead.Finish | simd_poly1305_v2.go:411-414 | and writes the same tag, so the choice cannot be observed |
| Aead.CiphertextPadding | simd_fused.go:206-212 | bytes to the next multiple of 16 |
| Aead.FusedStep | simd_fused.go:169-187 | one 4096-byte chunk: text encrypted so far, counter and MAC input stay those of the whole message |
| Aead.LockBody | simd_fused.go:120-204 | encryption interleaved with authentication equals encrypt-then-MAC of section 2.8 of RFC 8439 on the whole message, in place or not, nothing written behind it |
| Aead.UnlockBody | simd_fused.go:220-300 | the text if the tag is the recomputed one; otherwise an error and the buffer unchanged |
| Aead.SubkeyLock | aead_subkey.go:18-86 | sealing under a derived subkey, with the two length errors |
| Aead.SubkeyUnlock | aead_subkey.go:91-165 | opening under a derived subkey, with the three length errors and no write on failure |
| Aead.FusedLock | simd_fused.go:120-204 | the 24-byte-nonce entry point: the same as the subkey entry point with HChaCha20(key, nonce[:16]) and 0000 || nonce[16:] |
| Aead.FusedUnlock | simd_fused.go:220-300 | likewise for opening, with the length errors in order |
| Aead.LockThenUnlock | simd_fused.go:120-300 | a caller that locks and unlocks, each through the 24-byte-nonce or the subkey entry point, gets its plaintext back |
| MonoUtil.Neq0 | internal/monocypher/a_linux_amd64.go:654-662 | 0 for 0 and -1 for every other 64-bit word, by shifts alone |
| MonoUtil.Verify16 | internal/monocypher/a_linux_amd64.go:664-678 | 0 exactly for equal tags, otherwise -1 |
| MonoUtil.Verify32 | internal/monocypher/a_linux_amd64.go:668-682 | 0 exactly for equal strings of 32 bytes, otherwise -1 |
| MonoAead.LockAuth | internal/monocypher/a_linux_amd64.go:6809-6823 | authenticates the same padded string as the fused lock |
| MonoAead.AeadContext.InitX | internal/monocypher/a_linux_amd64.go:6825-6841 | subkey and rest of the nonce, counter 0 |
| MonoAead.AeadContext.InitDjb | internal/monocypher/a_linux_amd64.go:6843-6869 | the given key and 8-byte nonce, counter 0 |
| MonoAead.AeadContext.InitIetf | internal/monocypher/a_linux_amd64.go:6871-6897 | counter and nonce that stand for the 12-byte nonce |
| MonoAead.AeadContext.Write | internal/monocypher/a_linux_amd64.go:6899-6920 | one message sealed under the current key, then the next key |
| AeadLayout.MessageFollowsKeyBlock | internal/monocypher/a_linux_amd64.go:6899-6920 | one key stream for a message: the one-time key, the key of the next message, and the text encrypted from the next block on |
| MonoAead.AeadContext.Read | internal/monocypher/a_linux_amd64.go:6922-6950 | 0 and the text exactly for a message that opens; otherwise text buffer and key unchanged |
| MonoAead.WriteAll | internal/monocypher/a_linux_amd64.go:6899-6920 | writing any number of messages on one context seals each under its own key, derived from the one before |
| AeadLayout.StreamAt | internal/monocypher/a_linux_amd64.go:6899-6920 | message k written on a context is sealed under the key of message k, which is bytes 32 to 63 of the block under the key of message k - 1; nonce and counter stay |
| MonoAead.ReadAll | internal/monocypher/a_linux_amd64.go:6922-6950 | reading them one after the other gives all of them, or nothing when one is refused |
| MonoAead.OpenStreamIsExact | internal/monocypher/a_linux_amd64.go:6899-6950 | for every sequence of messages: what is read is exactly what was written, in order, and no other sequence of sealed messages is accepted |
| MonoAead.Conversation | internal/monocypher/a_linux_amd64.go:6843-6950 | a reader with the writer's key and nonce gets the messages written |
| MonoAead.SealsAgree | internal/monocypher/a_linux_amd64.go:6899-6920 | for every text of at most 2^32 - 1 blocks Monocypher and the SIMD construction give the same ciphertext and tag |
| MonoAead.OpensAgree | internal/monocypher/a_linux_amd64.go:6922-6950 | and accept the same messages |
| MonoAead.Lock | internal/monocypher/a_linux_amd64.go:6952-6959 | the one-call form, equal to the fused lock up to that length |
| MonoAead.Unlock | internal/monocypher/a_linux_amd64.go:6961-6972 | 0 and the plaintext exactly for what that lock produces |
| ScalarWords.Multiply | internal/monocypher/a_linux_amd64.go:4255-4284 | the 512-bit product is added exactly, no carry lost |
| ScalarWords.MultiplyLow | internal/monocypher/a_linux_amd64.go:4388-4411 | the triangular product is the product modulo 2^256 |
| ScalarWords.IsAboveL | internal/monocypher/a_linux_amd64.go:4286-4306 | 1 if and only if the number is at least L |
| ScalarWords.RemoveL | internal/monocypher/a_linux_amd64.go:4308-4334 | L removed once when possible, without a branch, also in place |
| ScalarWords.Barrett | internal/monocypher/a_linux_amd64.go:4346-4376 | with the reciprocal floor(2^512 / L) the quotient estimate is at most one too small for every 512-bit number |
| ScalarWords.SubtractExact | internal/monocypher/a_linux_amd64.go:4373-4426 | the difference is exact although only 256 bits of the quotient product are computed |
| ScalarWords.ModL | internal/monocypher/a_linux_amd64.go:4339-4443 | for every 512-bit input the result is the input modulo L |
| ScalarWords.Redc | internal/monocypher/a_linux_amd64.go:6595-6664 | for every input below L * 2^256 the result is x / 2^256 modulo L |
| ScalarWords.RedcUnique | internal/monocypher/a_linux_amd64.go:6595-6664 | and is the only u below L with u * 2^256 congruent to x |
| ScalarInverse.TrimMeaning | internal/monocypher/a_linux_amd64.go:4110-4131 | the trimmed scalar is the input with bits 0-2 and 255 cleared and bit 254 set: a multiple of 8 in [2^254, 2^255) |
| ScalarInverse.ScalarBitMeaning | internal/monocypher/a_linux_amd64.go:4136-4141 | bit i of the number written by the bytes |
| ScalarInverse.MontgomeryProduct | internal/monocypher/a_linux_amd64.go:6720-6721 | multiplying and reducing keeps Montgomery form |
| ScalarInverse.Ladder | internal/monocypher/a_linux_amd64.go:6704-6741 | 253 squarings and conditional products on the bits of L - 2 give s^(L-2) in Montgomery form |
| ScalarInverse.AddXL | internal/monocypher/a_linux_amd64.go:6169-6188 | adds (x mod 8) * L |
| ScalarInverse.ClearCofactor | internal/monocypher/a_linux_amd64.go:6768-6773 | a multiple of 8 below 8 * L, in the same class modulo L |
| ScalarInverse.ClearedInverse | internal/monocypher/a_linux_amd64.go:6688-6773 | the scalar handed to the ladder is a multiple of 8, congruent to s^(L-2) modulo L and below 2^256 |
| ScalarInverse.ClearedInverseUnique | internal/monocypher/a_linux_amd64.go:6768-6773 | only one number satisfies that |
| SlidingWindow.TrailingZerosMeaning | internal/monocypher/a_linux_amd64.go:5060-5063 | three masks on the lowest set bit give the number of trailing zeros, for negative windows too |
| SlidingWindow.RemainingTakesWindow | internal/monocypher/a_linux_amd64.go:5032-5074 | a signed window of w bits removes exactly its value from what is left of the scalar |
| SlidingWindow.WindowDigit | internal/monocypher/a_linux_amd64.go:5040-5063 | a window that starts at a bit change has an odd part below 2^(width-1), which is the digit |
| SlidingWindow.SlideContext.constructor | internal/monocypher/a_linux_amd64.go:5010-5030 | the countdown may start at next_check: nothing of the scalar lies above it |
| SlidingWindow.SlideContext.Step | internal/monocypher/a_linux_amd64.go:5032-5074 | each step returns zero or an odd digit below 2^(width-1) in size, and digit * 2^i plus what is left equals what was left |
| SlidingWindow.DoubleScalarMultiply | internal/monocypher/a_linux_amd64.go:5104-5145 | for all scalars below 2^253, widths 3 and 5: the loop over both digit strings yields exactly h and s, and every table index is in range |
| SlidingWindow.OddMultiples | internal/monocypher/a_linux_amd64.go:5104-5117 | the table holds the odd multiples |
| Field25519.MulColumnsValue | internal/monocypher/a_linux_amd64.go:3649-3737 | the ten columns add up to the product modulo 2^255 - 19 |
| Field25519.Row | internal/monocypher/a_linux_amd64.go:3649-3737 | a column is the exact sum of its ten products of int32 limbs and stays below 2^62 |
| Field25519.SqColumnsAreMulColumns | internal/monocypher/a_linux_amd64.go:3758-3834 | the squaring columns, with doubled and pre-multiplied limbs, are those of f times f, no int32 overflow |
| Field25519.CarryChain | internal/monocypher/a_linux_amd64.go:3302-3408 | the twelve signed carries keep the residue and end within 1.1 * 2^25 and 1.1 * 2^24 |
| Field25519.CarriedIsFactor | internal/monocypher/a_linux_amd64.go:3350-3409 | what a carry pass leaves may be multiplied again |
| Field25519.FeMul | internal/monocypher/a_linux_amd64.go:3649-3743 | for factors within 1.65 * 2^26 and 1.65 * 2^25, possibly the same array as the result: bounded limbs congruent to the product modulo 2^255 - 19 |
| Field25519.FeSq | internal/monocypher/a_linux_amd64.go:3758-3844 | the same for the square |
| Field25519.Sign | internal/monocypher/a_linux_amd64.go:3517-3540 | the carry estimate through all limbs is 0 for numbers at least 0 and -1 below |
| Field25519.Propagate | internal/monocypher/a_linux_amd64.go:3541-3558 | exact carries: limbs in range and one quotient |
| Field25519.CanonicalResult | internal/monocypher/a_linux_amd64.go:3517-3558 | subtracting 19 times the sign and dropping the top quotient is reduction modulo 2^255 - 19, negative values included |
| Field25519.PackedValue | internal/monocypher/a_linux_amd64.go:3559-3566 | the eight packed words write the same number |
| Field25519.FeToBytes | internal/monocypher/a_linux_amd64.go:3499-3568 | the 32 bytes are the canonical little-endian residue |
| FieldPower.OnesShifted | internal/monocypher/a_linux_amd64.go:3959-4061 | squaring n times and multiplying joins two runs of ones in the exponent |
| FieldPower.PowerE8 | internal/monocypher/a_linux_amd64.go:3948-4061 | the chain of products yields x^((p-5)/8), with limbs fit for the next product at every step |
| FieldPower.FeIsEqual | internal/monocypher/a_linux_amd64.go:3864-3877 | 1 exactly for limbs of the same residue |
| FieldPower.SqrtM1 | internal/monocypher/a_linux_amd64.go:3045-3056 | the constant squares to -1 modulo 2^255 - 19 |
| FieldPower.RootChosen | internal/monocypher/a_linux_amd64.go:4062-4083 | in each of the four cases of the quartic the chosen candidate squares to 1/x, or to sqrt(-1)/x |
| FieldPower.InvSqrt | internal/monocypher/a_linux_amd64.go:3938-4084 | for every x: 1 is returned if and only if x^((p-1)/4) is 1 or -1 or x is 0; in the first two cases isr^2 * x is 1, when it is sqrt(-1) or -sqrt(-1) it is sqrt(-1), and 0 gives 0; isr may be x itself |
| FieldPower.FeInvert | internal/monocypher/a_linux_amd64.go:4096-4105 | out * x is 1 whenever x^((p-1)/2) is 1 or -1, and 0 gives 0 |
| Blake2b.CounterStep | internal/monocypher/a_linux_amd64.go:1209-1222 | the two-word counter addition with carry by comparison counts modulo 2^128 |
| Blake2b.HoldsOr | internal/monocypher/a_linux_amd64.go:2303-2313 | ORing a shifted byte into the lazily cleared buffer appends it |
| Blake2b.ChainAppend | internal/monocypher/a_linux_amd64.go:2285-2391 | compressing a + b is compressing a, then b |
| Blake2b.Context.constructor | internal/monocypher/a_linux_amd64.go:2226-2283 | plain or keyed start: the key block is absorbed, zero-filled |
| Blake2b.Context.OrBytes | internal/monocypher/a_linux_amd64.go:2293-2317 | byte-wise fill appends exactly those bytes |
| Blake2b.Context.FillWords | internal/monocypher/a_linux_amd64.go:2318-2330 | word-wise fill appends exactly those bytes |
| Blake2b.Context.WholeBlocks | internal/monocypher/a_linux_amd64.go:2331-2349 | the whole-block loop keeps the last full block back and loses none |
| Blake2b.Context.Update | internal/monocypher/a_linux_amd64.go:2285-2391 | for messages of any length in any state: the absorbed message grows by exactly the argument, and the buffer keeps its last 1 to 128 bytes above zeros |
| Blake2b.Context.Final | internal/monocypher/a_linux_amd64.go:2393-2418 | the digest is the one of a single call on everything absorbed, as in section 3.3 of RFC 7693: chain of compressions, byte counter, zero-filled last block |
| Blake2bParameters.StartIsParameterBlock | internal/monocypher/a_linux_amd64.go:2226-2248 | the initial state XORed with the initialisation vector is the parameter block of section 2.5 of RFC 7693, word by word: digest length, key length, fanout 1, depth 1, zeros |
| Blake2bParameters.VectorIsRoots | internal/monocypher/a_linux_amd64.go:1198-1208 | the initialisation vector holds the first 64 fractional bits of the square roots of the first eight primes |
| Blake2bParameters.CounterWords | internal/monocypher/a_linux_amd64.go:1209-1222 | low and high counter word together are the number of bytes, below 2^128 |
| Blake2bParameters.LastBlockHolds | internal/monocypher/a_linux_amd64.go:2285-2391 | the block kept back for the end is empty for the empty message only |
| Blake2bParameters.BlockWordAt | internal/monocypher/a_linux_amd64.go:2285-2391 | word j of block k is the little-endian number in bytes 128k + 8j to 128k + 8j + 7 |
| Blake2bParameters.DigestOfPadded | internal/monocypher/a_linux_amd64.go:2285-2418 | the digest by the blocks of the zero-padded message, as section 3.3 of RFC 7693 writes it: at least one block, all but the last with the bytes so far as counter, the last one marked and with the length, the words cut to the digest length |
| Argon2.Slice.WindowSize | internal/monocypher/a_linux_amd64.go:2904-2933 | the 32-bit window size, computed with wrapping subtraction, is the intended number and between 1 and the lane length |
| Argon2.ReadsAreSafe | internal/monocypher/a_linux_amd64.go:2901-2941 | for nb_blocks >= 8 * lanes the reference is an initialised block, never the current one, and in another lane never in the current slice |
| Argon2.StepAgrees | internal/monocypher/a_linux_amd64.go:2852-2957 | a step depends only on its own segment and on blocks outside the slice |
| Argon2.SegmentsAreIndependent | internal/monocypher/a_linux_amd64.go:2842-2962 | after any interleaving of block steps every lane holds what its own steps alone produce |
| Argon2.AnyOrder | internal/monocypher/a_linux_amd64.go:2842-2844 | two complete interleavings of a slice give the same memory: the segments may run in separate threads |
| Argon2.AnyOrderThroughout | internal/monocypher/a_linux_amd64.go:2818-2970 | the same over all passes and slices |
| Argon2.InOrderComplete | internal/monocypher/a_linux_amd64.go:2845-2962 | segment after segment is one such interleaving |
| Argon2.Refresh | internal/monocypher/a_linux_amd64.go:2866-2897 | the index block is refreshed every 128 blocks with the counter it should have |
| Argon2.FillBlock | internal/monocypher/a_linux_amd64.go:2856-2952 | one block, in place: previous, reference, rounds, and XOR with the old block in later passes |
| Argon2.FillSegment | internal/monocypher/a_linux_amd64.go:2850-2957 | the loop over a segment is its steps in order |
| Argon2.Fill | internal/monocypher/a_linux_amd64.go:2817-2970 | the whole filling equals every complete schedule of every slice |
| Argon2Indexing.ReferenceSelected | internal/monocypher/a_linux_amd64.go:2934-2941 | how far the chosen block lies before the end of its window: size * floor(j1^2 / 2^32) / 2^32 rounded down, for the low half j1 of the seed (section 3.4 of RFC 9106) |
| Argon2Indexing.WindowSpans | internal/monocypher/a_linux_amd64.go:2901-2933 | where the window begins and ends: from the block after the current slice, or from block 0 in the first pass, to the block before the previous one in the own lane, or up to the current slice in another lane, one block less for a first block |
| Argon2Indexing.LaneSelected | internal/monocypher/a_linux_amd64.go:2901-2933 | the high half of the seed modulo the number of lanes picks the lane, except in the first slice of the first pass |
| Argon2Indexing.PreviousIsBefore | internal/monocypher/a_linux_amd64.go:2856-2865 | the previous block is one step back in the lane, cyclically |
| Argon2Indexing.IndexingMode | internal/monocypher/a_linux_amd64.go:2816-2841 | Argon2i never indexes by data, Argon2d always, Argon2id from the third slice of the first pass on |
| Argon2Indexing.IndexInputWords | internal/monocypher/a_linux_amd64.go:2866-2899 | the seven numbers at the front of the input of an index block, in order, and zeros behind them |
| Argon2Indexing.IndexSeedAt | internal/monocypher/a_linux_amd64.go:2866-2899 | the seed of block 128k + w of a segment is word w of index block k + 1 |
| Argon2Indexing.IndexBlockIsTwoCompressions | internal/monocypher/a_linux_amd64.go:2866-2899 | an index block is G(0, G(0, input)), with G the rounds and the feed-forward of section 3.5 of RFC 9106 |
| Argon2Indexing.FirstPassBlock | internal/monocypher/a_linux_amd64.go:2942-2952 | in the first pass the block written is G of the previous and the reference block and does not depend on what was there |
| Argon2Indexing.LaterPassBlock | internal/monocypher/a_linux_amd64.go:2942-2952 | in later passes the block written, XORed with the old one, is the block the first pass would write |
| Argon2Indexing.EveryBlockOnce | internal/monocypher/a_linux_amd64.go:2845-2865 | every block of the work area is the current one of exactly one lane, slice and position |
| GridDiff.RunsAreMaximal | internal/tuidiff/diff.go:32-44 | the span list of a row: every span a maximal run of differing cells, in order, never adjacent |
| GridDiff.MaximalRunListed | internal/tuidiff/diff.go:32-44 | and every maximal run is in it |
| GridDiff.RunsCover | internal/tuidiff/diff.go:32-44 | every differing cell lies in a span |
| GridDiff.GridTotal | internal/tuidiff/diff_generic.go:67-71 | span lengths add up to the number of differing cells, and there are at most height * width spans |
| GridDiff.Kernel | internal/tuidiff/diff_gen.go:65-225 | for every capacity and width, a width of 0 or less standing for the whole row: the canonical list if it fits, -1 if not, never a write before the slot |
| GridDiff.Emit | internal/tuidiff/diff_gen.go:107-119 | bounded output: stored while there is room, overflow remembered |
| GridDiff.FillSpans | internal/tuidiff/diff_generic.go:27-65 | the retry with max(height * width, 2 * max) always suffices, so the second kernel call never overflows |
| GridDiff.DiffScalar | internal/tuidiff/diff_generic.go:19-72 | appends the canonical list and returns the number of differing cells; refuses bad sizes |
| GridDiff.FirstDirtyOfFour | internal/tuidiff/diff_simd_amd64.go:72-80 | the complemented equality mask of four 64-bit lanes and its trailing zeros find the first differing cell |
| GridDiff.FirstDirtyOfTwo | internal/tuidiff/diff_simd_arm64.go:68-86 | the mask of two 64-bit lanes likewise |
| GridDiff.SameWord | internal/tuidiff/diff_generic.go:74-78 | two cells are equal if and only if their 64-bit words are |
| GridDiff.ScanRow4 | internal/tuidiff/diff_simd_amd64.go:36-64 | a row in chunks of four appends the runs of the row |
| GridDiff.ScanRow2 | internal/tuidiff/diff_simd_arm64.go:33-62 | a row in chunks of two appends the runs of the row |
| GridDiff.DiffAVX2 | internal/tuidiff/diff_simd_amd64.go:23-66 | same list and count as the scalar function |
| GridDiff.DiffNEON | internal/tuidiff/diff_simd_arm64.go:20-64 | same list and count as the scalar function |
| GridDiff.ApplyEqualises | internal/tuidiff/diff.go:32-44 | copying back over front on the spans makes the visible zone equal and changes nothing else |
| GridDiff.TouchedIsDirty | internal/tuidiff/diff.go:32-44 | the spans touch differing visible cells only |
| VtGrid.OperationsStayInRange | internal/vtparser/parser.go:573-845 | every grid operation keeps cursor, saved cursor and scroll region in range and len(Cells) = Width * Height |
| VtGrid.PutAllInRange | internal/vtparser/parser.go:606-670 | runs of text keep it too and count every cell |
| VtGrid.ScrollKeepsOutside | internal/vtparser/parser.go:802-845 | scrolling changes only rows of the region |
| VtGrid.ScrollUpAdds | internal/vtparser/parser.go:802-825 | scrolling up by a and then by b is scrolling up by a + b |
| VtGrid.ScrollDownAdds | internal/vtparser/parser.go:829-845 | scrolling down by a and then by b is scrolling down by a + b |
| VtGrid.ScrollAllBlanks | internal/vtparser/parser.go:802-845 | scrolling by more than the region leaves it blank |
| VtGrid.PutLine | internal/vtparser/parser.go:622-665 | cells that fit in the rest of a line, put one by one with wrap and scroll, are one stretch of stores |
| VtGrid.PackedCell | internal/vtparser/parser.go:617-658 | the 64-bit word stored by the unrolled loop is the cell |
| VtGrid.CursorGrid.Reset | internal/vtparser/parser.go:57-79 | a blank grid, reusing memory when it suffices, or an empty one for impossible sizes; cursor, colours, flags and counts cleared |
| VtGrid.CursorGrid.ScrollUp | internal/vtparser/parser.go:802-825 | copy and clear of rows is the scroll of the region |
| VtGrid.CursorGrid.ScrollDown | internal/vtparser/parser.go:829-845 | copy and clear of rows is the scroll of the region |
| VtGrid.CursorGrid.ClearRowPart | internal/vtparser/parser.go:770-788 | clips and clears a part of a row |
| VtGrid.CursorGrid.ClearScreen | internal/vtparser/parser.go:738-755 | below, above or all, from the cursor |
| VtGrid.CursorGrid.Put | internal/vtparser/parser.go:578-597 | one cell with deferred wrap and scroll |
| VtGrid.CursorGrid.PutRun | internal/vtparser/parser.go:606-670 | the line-at-a-time writer leaves exactly the grid that putting the bytes one by one leaves, and writes them all |
| VtDisplay.ScrollUpShows | internal/vtparser/parser.go:802-825 | cell (x, y) of the region after scrolling up by n is cell (x, y + n), or blank when that is below the region; everything else stays |
| VtDisplay.ScrollDownShows | internal/vtparser/parser.go:829-845 | cell (x, y) of the region after scrolling down by n is cell (x, y - n), or blank; everything else stays |
| VtDisplay.NewlineShows | internal/vtparser/parser.go:673-679 | for every region: from its last row on, each row of the region shows the row below and its last row is blank; above it no cell changes and the cursor moves down |
| VtDisplay.ReverseIndexShows | internal/vtparser/parser.go:682-688 | in the first row of the region each of its rows shows the row above and the first is blank; elsewhere the cursor moves up if it can |
| VtDisplay.TabStop | internal/vtparser/parser.go:691-698 | the cursor is at the next multiple of eight, with none passed over, or in the last column |
| VtDisplay.ClearScreenShows | internal/vtparser/parser.go:738-755 | which cells are blank after clearing, in reading order from the cursor, and that all others stay |
| VtDisplay.ClearLineShows | internal/vtparser/parser.go:758-767 | which cells of the line are blank after clearing, and that all others stay |
| VtDisplay.PutShows | internal/vtparser/parser.go:578-597 | after a pending wrap the cell at the cursor is the new one and no other changes; the cursor is in the next column, or the wrap is pending in the last |
| VtDisplay.RunShows | internal/vtparser/parser.go:606-670 | a run of n cells on a blank w by h screen, h > 1: cell (x, y) is number (first + y) * w + x of the run, or blank behind its end, with first = max(0, ceil(n / w) - h) lines scrolled off; and where the cursor is |
| VtParser.ControlKeeps | internal/vtparser/parser.go:226-428 | every byte in each of the thirteen states keeps the invariant (at most 16 parameters, each at most 65535, cursor and region in range) and writes at most one cell |
| VtParser.DispatchKeeps | internal/vtparser/parser.go:463-510 | every CSI sequence keeps it and writes none |
| WordScan.TextTestIsExact | internal/vtparser/parser.go:173-185 | the eight-byte test is zero if and only if all eight bytes are printable ASCII, although the subtraction borrows across bytes |
| Utf8.DecodeStable | internal/vtparser/parser.go:250-260 | a complete character decodes the same whatever follows |
| Utf8.PartialNext | internal/vtparser/parser.go:147-166 | one more byte after an unfinished character: unfinished, complete, or an error |
| Utf8.DecodeEncoded | internal/vtparser/parser.go:250-260 | every scalar value, encoded by the ranges of section 3 of RFC 3629, decodes to itself whatever follows |
| Utf8.EncodeDecoded | internal/vtparser/parser.go:250-260 | what decodes without an error is the encoding of a scalar value, and of the one it decodes to |
| Utf8.PartialIsBeginning | internal/vtparser/parser.go:250-256 | bytes are kept for the next call exactly if they are a proper beginning of some encoding |
| VtFeed.Parser.Reset | internal/vtparser/parser.go:121-131 | ground state on the grid, if there is one, nothing pending |
| VtFeed.Parser.AddParam | internal/vtparser/parser.go:434-443 | records a parameter, at most sixteen |
| VtFeed.Parser.ApplySGR | internal/vtparser/parser.go:513-569 | the loop over colours and attributes, including 38 and 48 with their extra parameters |
| VtFeed.Parser.Dispatch | internal/vtparser/parser.go:463-510 | a complete CSI sequence acts as in the value machine |
| VtFeed.Parser.CompletePending | internal/vtparser/parser.go:147-166 | bytes kept from the previous call are completed one at a time |
| VtFeed.Parser.TextEnd | internal/vtparser/parser.go:173-188 | the two scans stop exactly at the first byte that is not printable ASCII |
| VtFeed.Parser.Parameters | internal/vtparser/parser.go:194-224 | the tight loop does what the automaton does byte by byte |
| VtFeed.Parser.ControlByte | internal/vtparser/parser.go:225-428 | the slow path is the automaton |
| VtFeed.TextRun | internal/vtparser/parser.go:171-193 | a run of text in one pass is the same bytes one at a time |
| VtFeed.Parser.Feed | internal/vtparser/parser.go:135-431 | for every reachable state and every buffer: the resulting parser and grid are those of the scan without fast paths, the count is the growth of Writes, and nothing happens without a grid |
| VtEffects.SequenceRead | internal/vtparser/parser.go:308-340 | for all decimal parameters: ESC [ list final dispatches with each parameter the number written, at most 65535, empty ones 0 and an empty last one dropped, at most sixteen |
| VtEffects.CursorUp | internal/vtparser/parser.go:473-474 | feeding ESC [ n A from rest: row max(0, y - max(1, n)), wrap cleared, cells, column, pen and the rest unchanged |
| VtEffects.CursorDown | internal/vtparser/parser.go:475-476 | ESC [ n B: row min(height - 1, y + max(1, n)), the rest unchanged |
| VtEffects.CursorForward | internal/vtparser/parser.go:477-478 | ESC [ n C: column min(width - 1, x + max(1, n)), the rest unchanged |
| VtEffects.CursorBack | internal/vtparser/parser.go:479-480 | ESC [ n D: column max(0, x - max(1, n)), the rest unchanged |
| VtEffects.CursorPosition | internal/vtparser/parser.go:471-472 | ESC [ r ; c H and f: row r, column c, counted from 1 and kept on the screen; without c the first column |
| VtEffects.CursorColumn | internal/vtparser/parser.go:481-482 | ESC [ c G, or a backquote as final byte: column c, same row |
| VtEffects.CursorRow | internal/vtparser/parser.go:483-484 | ESC [ r d: row r, same column |
| VtEffects.EraseScreen | internal/vtparser/parser.go:485-486 | ESC [ n J, cell by cell: what is blank afterwards and that all else stays, for every n |
| VtEffects.EraseLine | internal/vtparser/parser.go:487-488 | ESC [ n K, cell by cell, for every n |
| VtEffects.CursorSaved | internal/vtparser/parser.go:489-492 | ESC [ s and u: the cursor is saved, or is the saved one |
| VtEffects.ScrollRegion | internal/vtparser/parser.go:493-499 | ESC [ t ; b r: the region if 1 <= t <= b <= height, nothing otherwise or with one parameter |
| VtEffects.ScrolledRows | internal/vtparser/parser.go:500-503 | ESC [ n S and T, cell by cell: rows of the region move by max(1, n) |
| VtEffects.OthersIgnored | internal/vtparser/parser.go:463-510 | every other final byte leaves grid and pen alone, whatever the parameters |
| VtPen.OneSelection | internal/vtparser/parser.go:513-569 | ESC [ p m for every p: both colours and each attribute bit afterwards, and that nothing else changes |
| VtPen.ExtendedSelection | internal/vtparser/parser.go:513-569 | 38 and 48 with 5;n or 2;r;g;b set the one colour and nothing else |
| VtPen.SelectionsCompose | internal/vtparser/parser.go:513-569 | one sequence with several selections is several sequences, up to sixteen parameters |
| VtControls.CarriageReturn | internal/vtparser/parser.go:231-233 | CR: first column, wrap cleared |
| VtControls.LineFeed | internal/vtparser/parser.go:234-235 | LF, VT and FF: a line down, or the region up by one row, cell by cell |
| VtControls.Backspace | internal/vtparser/parser.go:236-240 | BS: one column back if there is one, wrap cleared |
| VtControls.HorizontalTab | internal/vtparser/parser.go:241-242 | HT: the next multiple of eight, or the last column |
| VtControls.SilentByte | internal/vtparser/parser.go:243-248 | every other control byte but ESC changes nothing at all |
| VtControls.SaveAndRestore | internal/vtparser/parser.go:283-288 | ESC 7 and ESC 8: the cursor is saved, or is the saved one |
| VtControls.IndexDown | internal/vtparser/parser.go:289-298 | ESC D and ESC E, cell by cell: a line down, ESC E from the first column |
| VtControls.IndexUp | internal/vtparser/parser.go:292-294 | ESC M, cell by cell: a line up, or the region down by one row |
| VtControls.PenReset | internal/vtparser/parser.go:299-301 | ESC c: colours and attributes are 0, the grid stays |
| VtControls.EscapeDropped | internal/vtparser/parser.go:302-306 | ESC with any other byte that opens no sequence or string changes nothing |
| VtControls.StringSwallowed | internal/vtparser/parser.go:345-428 | OSC, DCS, APC, PM and SOS with any payload: no byte reaches grid or pen, and the string ends at exactly its first closing byte: BEL, a backslash after ESC, CAN or SUB not after ESC |
| VtControls.TextPuts | internal/vtparser/parser.go:250-260 | the UTF-8 bytes of any text, in one buffer, put one cell for each character, in order, with the pen of the moment |
| VtControls.CharacterShows | internal/vtparser/parser.go:250-260 | one character: the cell at the cursor after a pending wrap, no other cell, and the cursor behind it |
| VtControls.TextShows | internal/vtparser/parser.go:135-431 | a text fed on a blank screen of more than one row: the character in every cell, the last lines that fit, blanks behind the end |
| VtControls.StrayByte | internal/vtparser/parser.go:250-260 | a byte that begins no character is shown as the replacement character |
| VtSplit.FedIsFold | internal/vtparser/parser.go:135-431 | for every stream that breaks off no character in its ground text, bytes pending included, one call equals the byte-at-a-time machine |
| VtSplit.SplitIsWhole | internal/vtparser/parser.go:135-431 | cutting such a stream into two calls anywhere gives the same parser, grid and number of written cells |
| VtSplit.CutsAgreeIffUnbroken | internal/vtparser/parser.go:147-166 | with nothing pending, every cut of every prefix is harmless if and only if no character that has begun is broken off |
| VtSplit.LeadThenLetter | internal/vtparser/parser.go:147-166 | the bytes E2 41: cut after the first one, the kept byte absorbs the letter |
| VtScan.UnbrokenByState | internal/vtparser/parser.go:226-428 | whether a stream breaks off a character is decided by states and kept bytes alone, without the grid |
| VtScan.ControlState | internal/vtparser/parser.go:226-428 | the next state of each of the thirteen states is a function of state and byte |
| VtScan.WellFormedIsUnbroken | internal/vtparser/parser.go:250-260 | well-formed UTF-8 in the ground text suffices |
| VtScan.AsciiIsWellFormed | internal/vtparser/parser.go:135-431 | every 7-bit stream qualifies |

## Left out

- Wrappers, fallbacks and generated twins: `c2simd.go`, `simd_fused_fallback.go`, `internal/transformed`, `pkg/c2tui` and `pkg/c2grid` add calls or copies of functions modelled here.
- `internal/astmatch`: whether a matched rotation preserves meaning is not decided by its code.
- The reduced `C2_vt_*` parser: not on the production path. The scroll hook that calls C code is off by default and is not part of this model.
- `nearestColor` and `cubeIndex`: a parameter of the parser (a function of three channels), so `38;2;r;g;b` is modelled up to that choice.
- The `busy` guard of `Feed`, concurrency of callers, `defer`: a call runs alone.
- Displays, windows, sockets, benchmarks and command-line programs.
- Timing: masks and branch-free selections are modelled by their values; nothing is said about constant time, wiping or allocation counts.
- Memory: read-only slices are sequences, so input buffers that partly overlap the output are not modelled; identical and disjoint buffers are. Writable buffers are arrays.
- Go's `int` is unbounded where sizes are multiplied in `DiffGrid` (`height*stride`); the grid's own size check against overflow is modelled. Slice growth is one concrete policy, since only the contents matter.
- SIMD instructions: each has its documented meaning on lanes (`Simd`); register layout, loads and stores are sequences. `HChaCha20` stores and reloads its rows to permute them; the model permutes.
- The serial engine's unused precomputed fields, and the equal-by-construction variants of tiers: the tiers of 16, 8 and 4 blocks are one function of the number of blocks, instantiated three times.
- AND with a mask of low bits is written as a remainder, shifts as division or multiplication; OR of disjoint fields as a sum guarded by a precondition. Other bitwise operations go through `Bits`.
- `Finish` and `Final` are called once; what an engine holds afterwards is not stated.
- MonoAead.SealsAgree: texts of more than 2^32 - 1 blocks are excluded because the 64-bit counter then carries into the word that the IETF form keeps as nonce; `MonoAead.Lock` and `Write` are stated for them too, in terms of the 64-bit counter.
- ScalarInverse.ClearedInverse: stated as the power L - 2; that L is prime, hence that this power is the inverse, is number theory outside the code. The scalar multiplication that follows is not modelled.
- SlidingWindow.DoubleScalarMultiply: points are formal combinations of the two base points; group laws and the affine table formats are not modelled. Scalars are below 2^253 as its callers guarantee.
- Field25519.FeMul: the bounds required of its operands are the documented ones; addition, subtraction, `fe_frombytes`, `fe_mul_small` and the curve formulas are not modelled.
- Field25519.FeToBytes: required of its operand is what multiplication and squaring ensure.
- FieldPower.FeInvert: that x^((p-1)/2) is 1 or -1 for every x other than 0 is number theory outside the code; the condition is stated instead. `fe_ccopy` is modelled by the value it selects.
- Blake2b.Context.Final: the compression function is a parameter, keyed by state, input words, counter and last-block flag; its sigma schedule and mixing are not modelled.
- Argon2.Fill: the rounds are a parameter; the initial hash, the first two blocks of a lane, the final XOR and `extended_hash` are not modelled.
- Argon2.ReadsAreSafe: for nb_blocks at least 8 * lanes, as `crypto_argon2` demands.
- Impossible branches: the test after the second kernel call of the scalar diff, the bounds checks of `put` and `putRun`, and the retry's clamp are proved unreachable and dropped.
- `unicode/utf8` and `subtle.ConstantTimeCompare` are modelled as documented.
- VtFeed.Parser.Feed: bits of the attribute byte are set and cleared by arithmetic on single bits instead of masks.

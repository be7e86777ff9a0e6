# SplitCommit in Dafny

A model of the local, deterministic part of SplitCommit, a two-party
commitment scheme built on oblivious transfer. For each commitment l the
Sender holds two XOR-shares `s0[l]`, `s1[l]` of a codeword. The Receiver holds
one share `r[l]`, and its OT choice bits `c` decide it bit by bit: bit j of
`r[l]` is bit j of `s1[l]` when bit j of `c` is set, and of `s0[l]` otherwise.
The committed value is the message part of `s0[l] XOR s1[l]`, which must be a
codeword of the linear code. For 1-bit commitments the code is the 5-byte
repetition code.

The project has eight modules:

- `Util` covers the macros and inline helpers of `util.h`:
  - bit get/set/xor, LSB-first and MSB-first;
  - the fixed-length XOR loops;
  - `GetLSB` and `compare128`;
  - the bit tables.
- `GlobalConstants` holds the sizing constants and their relations.
- `ByteArrayVec` models `BYTEArrayVector`: a class over an `array<bv8>` of
  `numEntries` entries of `entrySize` bytes. `Entries()` gives its contents
  as a sequence of entries.
- `Errors` holds the exceptions the code throws, as an `Error` datatype
  inside a `Result`.
- `SplitCommit` covers the code parameters, the repetition encoder and the
  value-level algebra both parties rely on:
  - commit-type shaping, the LSB flip, and checkbit correction and its
    application;
  - opening a commitment;
  - the bit transpose.
- `SplitCommitSnd` and `SplitCommitRec` hold the `Sender` and `Receiver`
  classes. Each protocol step is a method that works in place on
  `ByteArrayVector`s. Each method is proved against a specification
  function, such as `SenderCommitted`, `ReceiverCommitted`, `OkPrefix` or
  `TransposedCheck`.
- `Protocol` proves the scheme's central facts. After an honest commit,
  bit j of the Receiver's share equals bit j of `s[c_j]` for every
  commitment, which is the agreement the tests assert. An honest opening
  is accepted and yields the committed message.

Parts outside the model are passed in as parameters:

- Messages from the channel are method parameters, and messages to the
  channel are results.
- PRNG and OT output is arbitrary bytes passed in:
  - the seeds;
  - the rows that `ComputeShares` would produce;
  - the clone seeds.
- The linear code's `encode` is an uninterpreted parameter `enc`, of type
  `seq<bv8> -> CheckBlock`.
- `osuCrypto::sse_transpose` is a specification function, `Transpose`.
  Bit i of column k equals bit k of row i.

Where the code and its header comments disagree, the model follows the code.

## Model

| member | source | states |
|---|---|---|
| Util.CeilDivide | src/util/util.h:11 | For y > 0 the result is the least q with q*y >= x |
| Util.BitsToBytes | src/util/util.h:12 | The byte count n is the least with 8n >= bits, i.e. ceil(bits/8) |
| Util.BytesToBits | src/util/util.h:13 | The bit count is a multiple of 8 and BitsToBytes maps it back to the byte count |
| Util.PadToMultiple | src/util/util.h:14 | The result is a multiple of y with x <= r < x + y |
| Util.BitTables | src/util/util.h:24-29 | BIT[k] == 1<<k, MASK_BIT[k] == BIT[7-k], C_BIT and CMASK_BIT are the complements, SET_BIT_C / MASK_SET_BIT_C select a bit or 0 |
| Util.ReverseByteOrderSpec | src/util/util.h:30-40 | REVERSE_BYTE_ORDER[b] is the bit reversal of b for all 256 bytes; REVERSE_BYTE_ORDER[1] == 0x80 |
| Util.GetBit | src/util/util.h:119-122 | A bit is always 0 or 1 |
| Util.GetBitTable | src/util/util.h:119-122 | GetBit(idx, a) is 1 iff byte a[idx/8] has BIT[idx%8] set (LSB-first) |
| Util.GetBitReversed | src/util/util.h:115-117 | MSB-first read equals GetBit at 8*(idx/8)+7-idx%8 |
| Util.SetBitSpec | src/util/util.h:136-138 | After SetBit, bit idx is b & 1 and every other bit is unchanged |
| Util.SetBit | src/util/util.h:136-138 | The caller array becomes WithBit of its old contents at bit 8*off+idx; nothing else is written |
| Util.XorBitSpec | src/util/util.h:128-130 | XORBit flips bit idx iff b & 1 and leaves every other bit unchanged |
| Util.XorBit | src/util/util.h:128-130 | The caller array becomes WithXorBit of its old contents; nothing else is written |
| Util.XorBitPairSpec | src/util/util.h:140-143 | The four-argument XORBit sets bit idx to (x ^ y) & 1, every other bit unchanged |
| Util.XorBitPair | src/util/util.h:140-143 | The caller array is the old one with bit idx set to x, then xored with y |
| Util.SetBitReversedSpec | src/util/util.h:132-134 | MSB-first set equals the LSB-first set at the mirrored bit of the same byte |
| Util.SetBitReversed | src/util/util.h:132-134 | The caller array becomes WithBitReversed of its old contents |
| Util.XorBitReversedSpec | src/util/util.h:124-126 | MSB-first xor equals the LSB-first xor at the mirrored bit of the same byte |
| Util.XorBitReversed | src/util/util.h:124-126 | The caller array becomes WithXorBitReversed of its old contents |
| Util.XorUint8 | src/util/util.h:53-57 | dest[i] ^= src[i] for exactly `size` bytes at the offsets; no other byte of dest changes |
| Util.XorUint8Pair | src/util/util.h:59-63 | dest[i] = src0[i] ^ src1[i] for exactly `size` bytes; no other byte of dest changes |
| Util.Xor128 | src/util/util.h:65-69 | dest ^= src over exactly 16 bytes, nothing else written |
| Util.Xor128Pair | src/util/util.h:71-75 | dest = src0 ^ src1 over exactly 16 bytes, nothing else written |
| Util.XorCheckBits | src/util/util.h:78-82 | dest ^= src over exactly the 17 check-bit bytes, nothing else written |
| Util.XorCheckBitsPair | src/util/util.h:84-88 | dest = src0 ^ src1 over exactly 17 bytes, nothing else written |
| Util.XorCodeWords | src/util/util.h:91-95 | dest ^= src over exactly 33 bytes, nothing else written |
| Util.XorCodeWordsPair | src/util/util.h:103-107 | dest = src0 ^ src1 over exactly 33 bytes, nothing else written |
| Util.XorBitCodeWords | src/util/util.h:97-101 | dest ^= src over exactly 5 bytes, nothing else written |
| Util.XorBitCodeWordsPair | src/util/util.h:109-113 | dest = src0 ^ src1 over exactly 5 bytes, nothing else written |
| Util.MoveMaskPd | src/util/util.h:145-148 | Bit 0 of the mask is the top bit of byte 7, bit 1 the top bit of byte 15 |
| Util.GetLSB | src/util/util.h:145-154 | GetLSB(a) is bit 127 of a (movemask result 2 or 3) |
| Util.Compare128 | src/util/util.h:156-159 | True iff the first 16 bytes of both arguments are equal |
| Util.Copy | src/split-commit/split-commit-rec.cpp:227-229 | Copying into a buffer replaces exactly the target range and nothing else |
| Util.Fill | src/split-commit/split-commit.cpp:40-42 | std::fill writes n copies of v at the offset and nothing else |
| GlobalConstants.ConstantRelations | src/util/global-constants.h:42-62 | Each *_BITS is 8x its *_BYTES twin; CODEWORD_BYTES == CSEC_BYTES + BCH_BYTES; CONSISTENCY == 2*BATCH_DECOMMIT == 2*SSEC_BYTES; NUM_PAR_CHECKS == CSEC == 8*NUM_PAR_CHECKS_BYTES and both check lengths fit in it |
| GlobalConstants.NumChecks | src/util/global-constants.h:55-58 | The number of check bytes is CONSISTENCY or BATCH_DECOMMIT, and CONSISTENCY exactly for the consistency check |
| ByteArrayVec.EntriesReplace | src/util/byte-array-vec.cpp:14-16 | Writing entry j's bytes replaces entry j and leaves every other entry unchanged |
| ByteArrayVec.EntriesApart | src/util/byte-array-vec.cpp:14-16 | Entry i ends at or before entry j starts when i < j, so entries are disjoint |
| ByteArrayVec.EntriesOfInjective | src/util/byte-array-vec.cpp:14-16 | A buffer is determined by its entries |
| ByteArrayVec.EntriesOfZeros | src/util/byte-array-vec.cpp:8-12 | A zero-filled buffer has all-zero entries |
| ByteArrayVec.ByteArrayVector.Default | src/util/byte-array-vec.cpp:4-6 | The default buffer is empty |
| ByteArrayVec.ByteArrayVector.constructor | src/util/byte-array-vec.cpp:8-12 | size == n*e, num_entries == n, entry_size == e, every byte 0 |
| ByteArrayVec.ByteArrayVector.Index | src/util/byte-array-vec.cpp:14-16 | operator[](idx) points at data + idx*entry_size, where the entry's bytes are entry idx |
| ByteArrayVec.ByteArrayVector.Data | src/util/byte-array-vec.cpp:18-20 | data() is the first byte of the backing store |
| ByteArrayVec.ByteArrayVector.FreeMem | src/util/byte-array-vec.cpp:22-25 | The store becomes empty; num_entries and entry_size keep their values |
| ByteArrayVec.ByteArrayVector.Size | src/util/byte-array-vec.cpp:27-29 | size() is the length of the store, num_entries*entry_size for a valid buffer |
| ByteArrayVec.ByteArrayVector.NumEntries | src/util/byte-array-vec.cpp:31-33 | num_entries() times entry_size() is size() |
| ByteArrayVec.ByteArrayVector.EntrySize | src/util/byte-array-vec.cpp:35-37 | num_entries() times entry_size() is size() |
| ByteArrayVec.ByteArrayVector.ChannelBufferData | src/util/byte-array-vec.h:83-85 | The channel buffer starts at the same byte as data() |
| ByteArrayVec.ByteArrayVector.ChannelBufferSize | src/util/byte-array-vec.h:86-88 | The channel buffer size is size() |
| ByteArrayVec.ByteArrayVector.ChannelBufferResize | src/util/byte-array-vec.h:89-92 | Succeeds iff len == size(), else invalid_argument; never changes the buffer |
| SplitCommit.DeriveParams | src/split-commit/split-commit.cpp:3-25 | Ok iff msg_bits is 1 or 128, otherwise the unsupported-size error; msg_bytes = ceil(msg_bits/8), cword_bits = 8*cword_bytes, parity_bits = 8*parity_bytes, offset + parity_bytes == cword_bytes |
| SplitCommit.DeriveParamsValues | src/split-commit/split-commit.cpp:5-16 | 1 bit gives parity = codeword = 5 bytes at offset 0; 128 bits gives offset 16, 17 parity bytes, a 33-byte codeword |
| SplitCommit.BitEncode | src/split-commit/split-commit.cpp:40-42 | Writes cword_bytes bytes of 0x00 (d = 0) or 0xFF (d = 1) and nothing else |
| SplitCommit.BitEncodedDecodes | src/split-commit/split-commit.cpp:40-42 | Bit 0 of the repetition encoding of d is d |
| SplitCommit.BitCodewords | src/split-commit/split-commit-rec.cpp:176-185 | A 5-byte word is a 1-bit codeword iff it is the repetition encoding of its bit 0 |
| SplitCommit.AgreeIffBits | test/test-split-commit.cpp:129-139 | Byte-wise selection r == (s1 & c) ^ (s0 & ~c) holds iff every bit of r equals that bit of s[c_j] |
| SplitCommit.ShapeBits | src/split-commit/split-commit-snd.cpp:123-139 | ALL_ZERO_LSB_RND zeroes bits 0..126 and keeps bit 127; ALL_RND_LSB_ZERO clears bit 127 only; every other bit is unchanged |
| SplitCommit.ShapeAgrees | src/split-commit/split-commit-rec.cpp:107-119 | Shaping the Receiver's share and both Sender shares alike keeps them in agreement |
| SplitCommit.ShapeEntry | src/split-commit/split-commit-snd.cpp:125-138 | The entry's bytes are replaced by their shaped form; nothing else is written |
| SplitCommit.FlipTableIsReversedOne | src/split-commit/split-commit-snd.cpp:307-309 | The LSB flip table is {REVERSE_BYTE_ORDER[1], 0} = {0x80, 0} |
| SplitCommit.LsbCorrection | src/split-commit/split-commit-snd.cpp:312-314 | The recorded correction is bit 127 of s0 ^ s1, a single bit |
| SplitCommit.SenderLsbFlip | src/split-commit/split-commit-snd.cpp:311-316 | The flipped s1 is s1 with bit 127 set to ~LSB(s0), so LSB(s0 ^ s1') == 1 |
| SplitCommit.LsbFlipEntry | src/split-commit/split-commit-snd.cpp:311-316 | Returns the prior XOR LSB and rewrites only the entry of s1 with the flip |
| SplitCommit.ReceiverLsbFlipAgrees | src/split-commit/split-commit-rec.cpp:341-358 | With c's bit 127 set the Receiver flips like the Sender and stays in agreement; otherwise agreement holds without the flip |
| SplitCommit.FlipEntry | src/split-commit/split-commit-rec.cpp:352-356 | Xors the flip-table byte into byte msg_bytes-1 of the entry, nothing else |
| SplitCommit.LsbCorrectionsAt | src/split-commit/split-commit-snd.cpp:311-316 | lsb_corrections[i-start] is the correction computed for index i |
| SplitCommit.ThresholdFlippedAt | src/split-commit/split-commit-snd.cpp:302-319 | From start on (when start < n and start != UINT32_MAX) s1[j] is LSB-flipped; below start, or with no threshold, s1[j] is untouched |
| SplitCommit.CorrectionMakesCodeword | src/split-commit/split-commit-snd.cpp:325-360 | After correction s0 ^ s1' is a codeword, its message bytes unchanged (for 1 bit: the repetition encoding of the old bit 0) |
| SplitCommit.CorrectionIsDelta | src/split-commit/split-commit-snd.cpp:349-350 | The corrected share is s1 with the emitted correction xored into its parity bytes |
| SplitCommit.CorrectEntry | src/split-commit/split-commit-snd.cpp:325-351 | Rewrites the entry of s1 to the corrected share and stores the correction; nothing else is written |
| SplitCommit.CorrectBitEntry | src/split-commit/split-commit-snd.cpp:327-343 | The 1-bit case of CorrectEntry |
| SplitCommit.CorrectBlockEntry | src/split-commit/split-commit-snd.cpp:344-351 | The 128-bit case of CorrectEntry |
| SplitCommit.ApplyCorrectionAgrees | src/split-commit/split-commit-rec.cpp:365-375 | share ^= corr & choicebyte maps a share agreeing with (s0, s1) to one agreeing with (s0, s1 ^ corr) |
| SplitCommit.CorrectionAgrees | src/split-commit/split-commit-rec.cpp:365-375 | Applying the Sender's correction keeps the Receiver in agreement with the corrected Sender shares |
| SplitCommit.ApplyCorrectionEntry | src/split-commit/split-commit-rec.cpp:366-369 | Rewrites the entry with the masked correction, nothing else |
| SplitCommit.ByteOpensIff | src/split-commit/split-commit-rec.cpp:168-172 | A byte opens iff it equals (d1 & c) ^ (d0 & ~c) |
| SplitCommit.DecommitOkBytes | src/split-commit/split-commit-rec.cpp:167-197 | An opening is accepted iff every checked byte opens and the parity bytes of d0 ^ d1 are the encoding of its message |
| SplitCommit.DecommitOkIff | src/split-commit/split-commit-rec.cpp:167-197 | An opening is accepted iff the shares agree with the Receiver's share and their XOR is a codeword |
| SplitCommit.ColumnBits | src/split-commit/split-commit-rec.cpp:412 | Bit i of the k-th transposed column is bit k of row i |
| SplitCommit.TransposeBits | src/split-commit/split-commit-rec.cpp:412 | Bit i of entry k of the transpose is bit k of row i |
| SplitCommit.BlindRows | src/split-commit/split-commit-rec.cpp:409-418 | Each result row is xored with its transposed blinding row over the check bytes |
| SplitCommit.XorInto | src/split-commit/split-commit-snd.cpp:387-392 | Xors a slice into the array, nothing else written |
| SplitCommitSnd.CommitCheck | src/split-commit/split-commit-snd.cpp:90-111 | Commit proceeds iff OTs are set, a 1-bit commit has no threshold, both entry sizes are cword_bytes, the counts match and non-NORMAL types are 128-bit; each failure has its own error |
| SplitCommitSnd.SharesCheck | src/split-commit/split-commit-snd.cpp:147-155 | Decommit proceeds iff both entry sizes are cword_bytes and the counts match; each failure has its own error |
| SplitCommitSnd.SenderCommittedCodewords | src/split-commit/split-commit-snd.cpp:297-363 | After Commit, s0 is its shaped input and every s0[j] ^ s1[j] is a codeword; s1[j] is the flipped share with the emitted correction applied |
| SplitCommitSnd.SenderThresholdLsb | src/split-commit/split-commit-snd.cpp:302-319 | From start on, LSB(s0 ^ s1) is 1 and each recorded bit is the prior XOR LSB |
| SplitCommitSnd.ThresholdLsbAt | src/split-commit/split-commit-snd.cpp:311-316 | The same at one index j >= start |
| SplitCommitSnd.SenderCommitTypeBits | src/split-commit/split-commit-snd.cpp:123-139 | The committed value has bits 0..126 zero (ALL_ZERO_LSB_RND) or bit 127 zero (ALL_RND_LSB_ZERO, below the threshold) |
| SplitCommitSnd.SenderCommittedValue | src/split-commit/split-commit-snd.cpp:325-351 | For a NORMAL commit the committed message is the message of e0 ^ e1 (for 1 bit, its repetition encoding) |
| SplitCommitSnd.SenderThresholdValue | src/split-commit/split-commit-snd.cpp:302-319 | A NORMAL 128-bit commitment at or past the threshold carries the message of e0 ^ e1 with bit 127 set to 1 |
| SplitCommitSnd.PostulatedValues | src/split-commit/split-commit-snd.cpp:173-195 | 1 bit: bit l is bit0(s0[l]) ^ bit0(s1[l]) in ceil(n/8) bytes, padding 0; 128 bits: entry l is the first 16 bytes of s0[l] ^ s1[l]; other sizes fail |
| SplitCommitSnd.PackedBitValues | src/split-commit/split-commit-snd.cpp:177-185 | The 1-bit values vector as above |
| SplitCommitSnd.XoredBlockValues | src/split-commit/split-commit-snd.cpp:186-192 | The 128-bit values as above |
| SplitCommitSnd.LsbValues | src/split-commit/split-commit-snd.cpp:214-219 | Bit l is GetLSB(s0[l]) ^ GetLSB(s1[l]), padding 0 |
| SplitCommitSnd.CorrectShares | src/split-commit/split-commit-snd.cpp:322-360 | The n shares become their corrected forms and the corrections are stored from index `base` |
| SplitCommitSnd.Sender.Init | src/split-commit/split-commit-snd.cpp:3-7 | A fresh Sender has the given parameters and cword_bits unseeded PRNG pairs; otsSet starts false (a model choice, see Left out) |
| SplitCommitSnd.Sender.Create | src/split-commit/split-commit.cpp:3-19 | Construction succeeds iff msg_bits is 1 or 128, with the derived parameters |
| SplitCommitSnd.Sender.Move | src/split-commit/split-commit.cpp:27-38 | Every field is carried over |
| SplitCommitSnd.Sender.SetSeedOTs | src/split-commit/split-commit-snd.cpp:37-45 | ots_set becomes true and the first seeds are replaced |
| SplitCommitSnd.Sender.GetCloneSenders | src/split-commit/split-commit-snd.cpp:47-86 | Fails iff OTs are not set; otherwise exactly num_execs fresh senders with the same parameters, OTs set |
| SplitCommitSnd.Sender.ShapeShares | src/split-commit/split-commit-snd.cpp:123-139 | Both share buffers become their shaped forms |
| SplitCommitSnd.Sender.LsbThreshold | src/split-commit/split-commit-snd.cpp:302-319 | Returns the recorded LSBs and rewrites s1 to its threshold-flipped form |
| SplitCommitSnd.Sender.CheckbitCorrection | src/split-commit/split-commit-snd.cpp:297-363 | s1 and the blinding shares become corrected; the n+128 corrections are emitted; the LSB bits are returned |
| SplitCommitSnd.Sender.BlindResults | src/split-commit/split-commit-snd.cpp:374-392 | Both result buffers are xored with the transposed blinding shares |
| SplitCommitSnd.Sender.Commit | src/split-commit/split-commit-snd.cpp:88-143 | Fails exactly as CommitCheck, changing nothing; otherwise the shares are shaped, flipped and corrected as SenderCommitted |
| SplitCommitSnd.Sender.Decommit | src/split-commit/split-commit-snd.cpp:145-159 | Fails exactly as SharesCheck; otherwise sends both share buffers verbatim |
| SplitCommitSnd.Sender.BatchDecommit | src/split-commit/split-commit-snd.cpp:161-210 | Fails as SharesCheck; otherwise sends the postulated values unless already sent |
| SplitCommitSnd.Sender.BatchDecommitLSB | src/split-commit/split-commit-snd.cpp:212-253 | Sends the LSB values unless already sent and blinds both result buffers |
| SplitCommitRec.CommitCheck | src/split-commit/split-commit-rec.cpp:86-101 | Commit proceeds iff OTs are set, a 1-bit commit has no threshold, the entry size is cword_bytes and non-NORMAL types are 128-bit; each failure has its own error |
| SplitCommitRec.ResultCount | src/split-commit/split-commit-rec.cpp:140-146 | The expected result count is ceil(n/8) for 1-bit and n for 128-bit commitments |
| SplitCommitRec.DecommitCheck | src/split-commit/split-commit-rec.cpp:132-146 | Decommit proceeds iff the entry sizes are cword_bytes and msg_bytes and the result count is right; each failure has its own error |
| SplitCommitRec.ApplyCorrections | src/split-commit/split-commit-rec.cpp:365-375 | Every share gets the masked correction of its index |
| SplitCommitRec.ReceiverLsbThreshold | src/split-commit/split-commit-rec.cpp:341-358 | The shares become their flipped forms from start on, as ReceiverFlipped |
| SplitCommitRec.OkPrefix | src/split-commit/split-commit-rec.cpp:160-206 | The openings before the returned index are accepted and the one at it, if any, is not |
| SplitCommitRec.OpenEntry | src/split-commit/split-commit-rec.cpp:165-197 | Returns true iff the opening is accepted, and then the XOR of the shares |
| SplitCommitRec.MsgBytesOpen | src/split-commit/split-commit-rec.cpp:167-175 | True iff every message byte opens |
| SplitCommitRec.OpenedCode | src/split-commit/split-commit-rec.cpp:176-185 | Computes d0 ^ d1 and the encoding of its message |
| SplitCommitRec.ParityOpen | src/split-commit/split-commit-rec.cpp:186-197 | True iff the whole opening is accepted |
| SplitCommitRec.TransposedCheck | src/split-commit/split-commit-rec.cpp:576-583 | Fails with the unsupported-count error iff 8*NUM_CHECKS > 128 |
| SplitCommitRec.TransposedCheckIff | src/split-commit/split-commit-rec.cpp:576-645 | Accepts iff every received row matches the choice-selected row on the check bytes and every transposed XOR column is a codeword |
| SplitCommitRec.CombinationIsXor | src/split-commit/split-commit-rec.cpp:605-623 | Column i of the decommit matrix is the XOR of the transposed columns of both rows |
| SplitCommitRec.TransposeSelects | src/split-commit/split-commit-rec.cpp:409-418 | The transpose of agreeing blinding shares selects between the transposed Sender rows |
| SplitCommitRec.TypeRowsHonest | src/split-commit/split-commit-rec.cpp:429-451 | Honest rows pass the commit-type check: rows 0..126 (ALL_ZERO_LSB_RND) or row 127 (ALL_RND_LSB_ZERO) |
| SplitCommitRec.EncodeInto | src/split-commit/split-commit-rec.cpp:629-635 | The check bits are the encoding of the word |
| SplitCommitRec.MaskedRowsEqual | src/split-commit/split-commit-rec.cpp:596-603 | Masked rows compare equal iff the check bytes are equal |
| SplitCommitRec.ValuesInBytes | src/split-commit/split-commit-rec.cpp:233-239 | Byte i is bit i of the packed values |
| SplitCommitRec.ReceiveVector | src/split-commit/split-commit-rec.cpp:148-155 | A fresh buffer holding exactly the received bytes |
| SplitCommitRec.CompareBits | src/split-commit/split-commit-rec.cpp:262-267 | True iff the bytes are equal |
| SplitCommitRec.Receiver.Init | src/split-commit/split-commit-rec.cpp:3-8 | A fresh Receiver has the given parameters, no seeds and zero choices; otsSet starts false (a model choice, see Left out) |
| SplitCommitRec.Receiver.Create | src/split-commit/split-commit.cpp:3-19 | Construction succeeds iff msg_bits is 1 or 128, with the derived parameters |
| SplitCommitRec.Receiver.Move | src/split-commit/split-commit-rec.cpp:10-15 | Every field is carried over |
| SplitCommitRec.Receiver.SetSeedOTs | src/split-commit/split-commit-rec.cpp:38-46 | ots_set becomes true; the choices and first seeds are replaced |
| SplitCommitRec.Receiver.GetCloneReceivers | src/split-commit/split-commit-rec.cpp:48-82 | Fails iff OTs are not set; otherwise num_execs fresh receivers with the same parameters and choices, OTs set |
| SplitCommitRec.Receiver.ShapeShares | src/split-commit/split-commit-rec.cpp:107-119 | The share buffer becomes its shaped form |
| SplitCommitRec.Receiver.CheckbitCorrection | src/split-commit/split-commit-rec.cpp:336-376 | Shares are LSB-flipped then corrected; blinding shares are corrected with the last 128 corrections |
| SplitCommitRec.Receiver.ConsistencyCheck | src/split-commit/split-commit-rec.cpp:402-459 | Results are blinded; returns true iff the transposed check and the commit-type checks pass |
| SplitCommitRec.Receiver.VerifyTransposedDecommits | src/split-commit/split-commit-rec.cpp:576-645 | Returns exactly TransposedCheck |
| SplitCommitRec.Receiver.CompareRows | src/split-commit/split-commit-rec.cpp:593-618 | True iff every row matches, then the decommit matrix |
| SplitCommitRec.Receiver.CheckColumns | src/split-commit/split-commit-rec.cpp:622-644 | True iff every column is a codeword |
| SplitCommitRec.Receiver.Commit | src/split-commit/split-commit-rec.cpp:84-128 | Fails exactly as CommitCheck, changing nothing; otherwise shares become ReceiverCommitted and the result is the consistency check |
| SplitCommitRec.Receiver.VerifyDecommits | src/split-commit/split-commit-rec.cpp:160-206 | True iff every opening is accepted; the accepted prefix's messages (or bits) are written, the rest untouched |
| SplitCommitRec.Receiver.OpenAt | src/split-commit/split-commit-rec.cpp:165-197 | True iff opening j is accepted, then the XOR of its shares |
| SplitCommitRec.Receiver.StoreOpened | src/split-commit/split-commit-rec.cpp:198-202 | Stores opening j as a message or a bit |
| SplitCommitRec.Receiver.StoreBit | src/split-commit/split-commit-rec.cpp:198-199 | Sets bit j to bit 0 of the opened word |
| SplitCommitRec.Receiver.StoreBlock | src/split-commit/split-commit-rec.cpp:200-202 | Copies the message bytes into entry j |
| SplitCommitRec.Receiver.Decommit | src/split-commit/split-commit-rec.cpp:130-158 | Fails exactly as DecommitCheck, changing nothing; otherwise true iff every received opening is accepted |
| SplitCommitRec.Receiver.BatchDecommit | src/split-commit/split-commit-rec.cpp:208-280 | Fails as DecommitCheck; otherwise true iff the transposed check passes and the value rows match |
| SplitCommitRec.Receiver.MessageRowsMatch | src/split-commit/split-commit-rec.cpp:259-277 | True iff the XOR of the proof rows equals the value rows |
| SplitCommitRec.Receiver.BatchDecommitLSB | src/split-commit/split-commit-rec.cpp:282-334 | Blinds the results; true iff the transposed check passes and row 127's XOR is the LSB values |
| Protocol.ReceiverCommitAgreesAt | test/test-split-commit.cpp:129-139 | After an honest commit, commitment j's Receiver share agrees with the Sender shares |
| Protocol.ReceiverCommitAgrees | test/test-split-commit.cpp:129-160 | The same for every commitment |
| Protocol.HonestOpeningAccepted | src/split-commit/split-commit-rec.cpp:160-206 | Every honest opening is accepted |
| Protocol.HonestValuesOutput | src/split-commit/split-commit-rec.cpp:198-202 | The values output from an honest NORMAL commitment are the messages of e0 ^ e1 (bit 0 for bit commitments); from the LSB threshold on, with bit 127 set to 1 |

## Left out

- Oblivious transfer and the PRNG are out. This covers
  `ComputeAndSetSeedOTs` (base OT and KOS extension), `ExpandAndTranspose`
  and the PRNG draws in `GetClone*`. They are library code: seeds, choices
  and expanded rows are inputs.
- The channel (`send`, `recv`, `asyncSendCopy`) is network I/O. Received
  messages are parameters and sent messages are results.
- `ComputeShares`, the GF(2^128) accumulation with `gfred128_no_refl` and
  `gfmul128_no_refl`, is out. It is SIMD arithmetic around a foreign
  multiply. The rows it writes are parameters.
- `LinearCode::encode` and `loadTxtFile` are library code. `encode` is an
  uninterpreted parameter, and no linearity is assumed.
- `osuCrypto::sse_transpose` is library code. It is replaced by the bit
  transpose `Transpose`.
- The 16-byte `_mm_lddqu_si128` loads read past 5- or 10-byte rows. Only the
  masked first NUM_CHECKS bytes are modelled.
- Printing and timing helpers are out, along with the `cout` in the
  column check and the executables and tests. None of them affects the
  protocol's state.
- Concurrency (`std::async`, thread pools) is out.
- ByteArrayVec.ByteArrayVector.Default: the source leaves num_entries and
  entry_size uninitialised. The model sets them to 0.
- `SplitCommitRec.Receiver.BatchDecommitLSB` is modelled for 128-bit
  parameters only. It reads transposed row 127, which exists only for
  128-bit messages.
- The osuCrypto `BitVector` of LSB values is modelled as its packed bytes,
  a `seq<bv8>` with bit l at `GetBit(l, ..)`.
- Indices below the threshold are not claimed to have LSB 0. A header
  comment and a test claim it, but `CheckbitCorrection` never touches
  those indices.
- Fixed lengths are assumed for 128-bit messages: `cword_bytes` is 33,
  matching the fixed 33- and 17-byte XOR helpers.
- Several step methods require 128-bit parameters for non-NORMAL types or
  a threshold:
  - `SplitCommitSnd.Sender.ShapeShares`,
  - `SplitCommitSnd.Sender.LsbThreshold`,
  - `SplitCommitSnd.Sender.CheckbitCorrection`,
  - `SplitCommitRec.Receiver.ShapeShares`,
  - `SplitCommitRec.Receiver.CheckbitCorrection`,
  - `SplitCommitRec.Receiver.ConsistencyCheck`.

  `Commit` establishes this requirement through its argument check before
  calling them.
- `SetMsgBitSize` and the header-declared signatures that differ from the
  `.cpp` files are out. The model follows the `.cpp` files.
- SplitCommitSnd.Sender.Init and SplitCommitRec.Receiver.Init: the source
  declares `ots_set` once, on the base class, and no constructor
  initialises it. Only `SetSeedOTs`, `ComputeAndSetSeedOTs` and the move
  constructor assign it. The model gives each class an `otsSet` field that
  starts false. So the `OtsNotSet` error before `SetSeedOTs` is the model's
  choice; in the source that call reads an uninitialised bool.
- Util.XorUint8, Util.XorUint8Pair, Util.Xor128, Util.Xor128Pair,
  Util.XorCheckBits, Util.XorCheckBitsPair, Util.XorCodeWords,
  Util.XorCodeWordsPair, Util.XorBitCodeWords and Util.XorBitCodeWordsPair
  require the source and destination arrays to be distinct arrays, not only
  disjoint ranges. The `util.h` loops would also XOR between two disjoint
  ranges of one buffer. Every call in the core passes distinct buffers.
- Integers are unbounded in the model. `start` is compared to UINT32_MAX
  as in the source, but no 32-bit counter wrap-around is modelled.

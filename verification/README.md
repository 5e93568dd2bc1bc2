# A verified model of the VerusHash 2.2 miner

This project models the parts of the miner where a fast form has to agree with a simple
one, and proves the agreement for all inputs.

- **The scan kernel** (`Simd`, `Layout`, `Selector`, `Haraka`, `Clhash`, `ClhashLane`, `KeyRestore`, `KeyReach`,
  `VerusHash`, `Fills`, `Candidate`, `Lanes`, `Scan`, `ScanHash`). A 1487-byte message is hashed in
  46 absorbed blocks and 15 bytes of nonce space. `VerusHash.Hash` is the simple form: the
  whole message from scratch, with a fresh key. Everything `scanhash_verus` does to be
  faster is modelled in place, on arrays: the precomputed prefix, the fill built once, the
  eight mutating cases of the CLHash step, two interleaved lanes, both ways of restoring
  the key, the one-word filter before the full comparison. The main results are
  `ScanHash.ScanHashDual` and `ScanHash.ScanHashSaved`: what either build records is the
  smallest winning nonce, with the hash the simple form gives.
- **What the simple form means** (`HarakaLaws`, `CaseLaws`, `LoopLaws`, `RemainderLaws`, `AccumulatorLaws`,
  `HashLaws`, `SelectorLaws`, `LayoutLaws`, over `WordSums`). Laws stated without the formulas they are
  about: which operand each case of the step adds as it is and which it multiplies, which key
  entry goes where, what is swapped and what is kept, what the fields of a selector are as
  numbers, and, through instruction sets simple enough to see through, how the bytes of a
  message travel through the whole hash.
- **The instructions** (`Registers`, `RegisterLaws`, `XorLaws`, `Gf2`, `Mulhrs`, `Builds`, `BuildLaws`, `CrossBuild`).
  Bit by bit and lane by lane, the carry-less product is the product of polynomials, the
  table-based reduction the unique remainder modulo x^64 + x^4 + x^3 + x + 1, and the NEON
  rounded multiply PMULHRSW; hence both builds compute the same hash of every message, and
  `CrossBuild.ScansAgree` shows that they leave the same share.
- **The share path** (`Hex`, `HexPairs`, `Target`, `ShareText`, `Stratum`). What the pool sends as a target and what it gets
  back as a share.
- **Concurrency** (`Barrier`, `RingList`, `ThreadQueue`). The macOS barrier as a transition system with
  one step per statement and spurious wakeups; the thread queue on the intrusive circular
  list, on the heap.
- **Arithmetic and codecs** (`Limbs`, `Octets`, `BitNumbers`, `BitTests`, `Uint256`, `VarInt`). `base_uint` for every number of
  limbs, and the variable-length integers for every width.

## How the model is built

- The AES round of FIPS 197, the 32-bit xor, the carry-less multiply, the rounded multiply
  and the final reduction are the fields of `Simd.Isa`, so everything about the kernel holds
  for every choice of them. `Builds.X86` and `Builds.Arm` put the actual carry-less multiply,
  rounded multiply and reduction there, over any AES round.
- The Haraka round constants (`rc`) are a parameter. So are the values the C code does not
  determine: `garbage` is the uninitialised second buffer of `VerusHashHalf` or the
  uninitialised `target_bin` or what `malloc` returns, `stop(k)` is what the restart and abort flags read as after
  `k` hashes, `haveKeys` and `memory` say whether an allocation succeeded. `arm` selects
  the form in which a build computes a byte rotation, a shift or a log.
- `Clhash.Rule`, `VerusHash.Algo` and `Uint256.LeftRule` hold functions by name, so that proofs
  about whole runs do not look inside one step; `Follows`, `Implements` and `LeftFollows` tie
  them to the definitions, and `VerusRuleFollows`, `VerusImplements` and `LeftRuleFollows`
  show that the definitions qualify.
- Laws of single steps ask of the exclusive or only what `WordSums.Sums` says (commutative,
  associative, 0 as identity), some also that equal summands cancel; `BuildLaws.BuildsAreLawful`
  shows that the real one qualifies. Other laws choose instructions that make an operand
  visible, such as an AES round that returns its key.
- A 128-bit register is four `bv32` words. Polynomials are bit sequences of any length, so
  that quotient and remainder are defined without reference to the algorithm.
- C strings are their characters without the terminating NUL.
- Integers wrap only where the code's do, and the wrap is written out.

## Results that differ from what one might expect

- `VerusHash.HalfIsDeterminate`: the 64 bytes of `VerusHashHalf` depend on the data alone
  for every length except 32 to 46, where the uninitialised second buffer shows through.
  The miner only uses 1487.
- `Hex.HexUnhex`: `hex2bin` also accepts a blank or a sign before a single digit, because
  `strtol` does; printing gives the string back exactly when it is lower-case digits.
- `VarInt.ReadVarInt`: a W-bit reader silently yields the value modulo 2^W; by
  `VarInt.LowExact` it is the encoded integer exactly when that has at most W bits.
- `ShareText.NonceIsString`: the nonce string of a share is one exactly when the pool's prefix
  has fewer than 32 bytes. At 32 `bin2hex` allocates one character and writes nothing into
  it, not even the NUL (util.cpp:711-729), and nothing bounds the prefix when the pool names
  the size of its second part (util.cpp:1191-1201). Beyond 32 the length wraps around and
  the allocation fails.
- `Target.CoefficientDefinedIff`: the difficulty computation of `verus_stratum_set_target`
  stays inside `target_be` exactly for targets from 65536 on; below that it reads before the
  array, and for zero it subtracts from a null pointer. The stored target is not affected.
- `VarInt.SignedReader`: for a signed type with V value bits no assignment in `ReadVarInt`
  overflows exactly when the encoded integer has at most V bits.
- `Target.StoredExactly`: the stored target is the pool's exactly when that has at most
  eight nonzero bytes.
- `Target.BitsUndetermined`: the top byte of `target_bits` is never initialised before the
  exponent is or-ed into it, so no target determines the difficulty; it is the compact form
  exactly when that byte adds nothing to the exponent.
- `Layout.RescanRepeats`: when a scan has found nothing, scanning the work it leaves tries
  exactly the same messages again if merged mining is on, and none of them if it is off.
- `VarInt.SignedRoundTrip`: a negative integer is written as its low seven bits, so reading
  back gives the integer exactly when it is not negative.

## Model

| member | source | states |
|---|---|---|
| `Haraka.Aes4` | verus/haraka.h:175-183 | the macro's interleaved assignments are two AES rounds on each block with the keys in order |
| `Haraka.Mix4` | verus/haraka.h:215-223 | the eight unpacks are the column permutation of the state |
| `Haraka.Mix4Last` | verus/haraka.h:225-228 | the trimmed mix gives block 2 of the full mix |
| `Haraka.TruncStore` | verus/haraka.h:230-235 | the two stores keep the high halves of blocks 0 and 1 and the low halves of blocks 2 and 3 |
| `Haraka.Haraka512Keyed` | verus/haraka.c:414-443 | five rounds, feed-forward and truncation give the reference digest under the 40 keys from the given entry |
| `Haraka.LastShuffle` | verus/haraka.c:380-412 | word 7 of the truncated, fed-forward state needs one word of the last substitution only |
| `Haraka.HighWord` | verus/haraka.c:380-412 | word 7 of the full digest in terms of the state before the last mix, for every AES round |
| `Haraka.Haraka512KeyedHighword` | verus/haraka.c:380-412 | the trimmed computation returns word 7 of the full keyed Haraka-512 |
| `Haraka.AesMix2` | verus/haraka.h:159-213 | one Haraka-256 round |
| `Haraka.Haraka256` | verus/haraka.c:116-142 | the reference Haraka-256 with feed-forward |
| `HarakaLaws.RoundEnds` | verus/haraka.h:159-213 | under an AES round that returns its key a Haraka-256 round leaves its third and fourth constant, columns dealt alternately |
| `HarakaLaws.DigestEnds` | verus/haraka.c:116-142 | under that round, and an exclusive or that returns its first operand, the digest is dealt from constants 18 and 19 |
| `HarakaLaws.RoundsAdd` | verus/haraka.h:159-213 | under an AES round that adds its key, n rounds are the input dealt n times plus each round's four constants in their places, dealt as often as rounds end after it |
| `HarakaLaws.DigestAdds` | verus/haraka.c:116-142 | the same of the digest: all 20 constants, the input and the feed-forward |
| `HarakaLaws.DigestEndsAt` | verus/haraka.c:414-443 | under the key-returning round the keyed Haraka-512 digest is eight columns of keys 36 to 39 |
| `HarakaLaws.RoundsAddTo` | verus/haraka.h:175-223 | under the adding round, n Haraka-512 rounds are the shuffled input plus each round's eight keys, shuffled |
| `HarakaLaws.DigestAddsTo` | verus/haraka.c:414-443 | the same of the digest: all 40 keys, the input and the feed-forward |
| `Selector.IndexInRange` | verus/verus_clhash.cpp:164-170 | both selected entries lie below 512 for every selector |
| `Selector.NeighbourIndex` | verus/verus_clhash.cpp:183-442 | the neighbour `pbuf[(selector & 1) ? -1 : 1]` stays within the four buffer entries and is the other one of the same pair |
| `SelectorLaws.SelectorFields` | verus/verus_clhash.cpp:164-183 | prand, prandex, tag, buffer word and rounds are bits 5 to 13, 32 to 40, 2 to 4, 0 to 1 and 61 to 63, as quotients and remainders |
| `SelectorLaws.NeighbourIs` | verus/verus_clhash.cpp:183-442 | the neighbour of buffer word 0 is 1, of 1 it is 0, of 2 it is 3, of 3 it is 2 |
| `SelectorLaws.RoundBitIs` | verus/verus_clhash.cpp:344-411 | round r of the loops branches on bit 28 + r, for every r |
| `SelectorLaws.Low64Value` | verus/verus_clhash.cpp:164-164 | the selector is the number in the two low words of the accumulator |
| `SelectorLaws.KeyOffsetIs` | verus/verusscan.cpp:181-182 | the final keys start at the lane's hash modulo 512 |
| `SelectorLaws.Bytes64Value` | verus/verusscan.cpp:170-180 | the bytes the fill repeats are those of the lane's hash, least significant first |
| `Clhash.RemainderIsSafe` | verus/verus_clhash.cpp:265-271 | in cases 3 and 6 the divisor is neither 0 nor -1, the 64-bit division is defined and the remainder fits in 32 bits |
| `RemainderLaws.DivisorIs` | verus/verus_clhash.cpp:265-265 | the divisor is the low word of the selector in two's complement |
| `RemainderLaws.ModuloMeaning` | verus/verus_clhash.cpp:265-271 | the register added holds, in two's complement in its low word, a remainder of the low half that is smaller than the divisor and has the sign of the dividend |
| `RemainderLaws.RemainderUnique` | verus/verus_clhash.cpp:265-271 | there is only one |
| `RemainderLaws.Signed64Is` | verus/verus_clhash.cpp:269-269 | the dividend is the low half in two's complement |
| `CaseLaws.StirTakes` | verus/verus_clhash.cpp:193-194 | what is added to an entry is the multiply of the accumulator with it |
| `CaseLaws.Case0Pairs` | verus/verus_clhash.cpp:185-208 | prand's entry and the selected word, and prandex's entry and the neighbour, count only through their sums; the accumulator is added |
| `CaseLaws.Case0Products` | verus/verus_clhash.cpp:185-208 | each pair adds its product |
| `CaseLaws.Case0Stores` | verus/verus_clhash.cpp:185-208 | the accumulator with the first pair stirs prandex's entry into prand, the final one prand's into prandex |
| `CaseLaws.Case1Sum` | verus/verus_clhash.cpp:209-233 | neighbour, prandex's entry and accumulator enter linearly, for every product |
| `CaseLaws.Case1Product` | verus/verus_clhash.cpp:209-233 | what the selected word and prand's entry add, determined by its values without either and by how it splits over sums of entries |
| `CaseLaws.Case1Stores` | verus/verus_clhash.cpp:209-233 | which accumulator stirs which entry, and where it is stored |
| `CaseLaws.Case2Sum` | verus/verus_clhash.cpp:234-258 | selected word, prandex's entry and accumulator enter linearly, for every product |
| `CaseLaws.Case2Product` | verus/verus_clhash.cpp:234-258 | what the neighbour and prand's entry add, determined likewise |
| `CaseLaws.Case2Stores` | verus/verus_clhash.cpp:234-258 | which accumulator stirs which entry, and where it is stored |
| `CaseLaws.Case3Mixed` | verus/verus_clhash.cpp:259-300 | accumulator, prand's entry and neighbour count only through their sum |
| `CaseLaws.Case3Even` | verus/verus_clhash.cpp:265-299 | an even sum gains its remainder and the selected word, and prandex's entry moves unchanged |
| `CaseLaws.Case3Odd` | verus/verus_clhash.cpp:265-292 | an odd sum gains its remainder and the product of case 1, of the selected word and prandex's entry, which is stirred |
| `CaseLaws.Case7Sum` | verus/verus_clhash.cpp:420-441 | neighbour, prand's entry and accumulator enter linearly, for every product |
| `CaseLaws.Case7Product` | verus/verus_clhash.cpp:420-441 | selected word and prandex's entry add the product of their sum |
| `CaseLaws.Case7Stores` | verus/verus_clhash.cpp:420-441 | which accumulator stirs which entry, and where it is stored |
| `CaseLaws.CasesSwap` | verus/verus_clhash.cpp:183-442 | with a multiply that adds nothing every case but 6 swaps the two entries |
| `CaseLaws.StoreOrder` | verus/verus_clhash.cpp:183-442 | prand is stored last exactly in cases 1, 5, 6 and the odd branch of 3 |
| `CaseLaws.StepSwaps` | verus/verus_clhash.cpp:148-443 | a step of such a run exchanges two entries of the key and keeps the multiset of its entries |
| `LoopLaws.Case4Sum` | verus/verus_clhash.cpp:301-337 | what the mixes leave is added to the accumulator; prandex's entry moves unchanged, prand's is stirred |
| `LoopLaws.Case4Keys` | verus/verus_clhash.cpp:301-337 | under an adding AES round the twelve entries from prand on are all added, in their places |
| `LoopLaws.Case4Ends` | verus/verus_clhash.cpp:301-337 | under a key-returning one the eleventh and twelfth are left |
| `LoopLaws.Case4Neighbour` | verus/verus_clhash.cpp:311-322 | the first of them acts on the neighbour |
| `LoopLaws.Case4Selected` | verus/verus_clhash.cpp:311-322 | the second on the selected word |
| `LoopLaws.Case5Sum` | verus/verus_clhash.cpp:338-379 | the loop adds one term per round, with the entry, the buffer word and the four AES keys of every round in closed form |
| `LoopLaws.Case6Sum` | verus/verus_clhash.cpp:380-411 | the same for the loop of case 6, for a multiply that ignores the accumulator |
| `LoopLaws.Case6Stores` | verus/verus_clhash.cpp:385-419 | the last round's value is stored to prandex, prandex's entry plus the accumulator to prand |
| `AccumulatorLaws.SwitchKeeps` | verus/verus_clhash.cpp:183-442 | in every case the accumulator is only added to: an exclusive or that returns its second operand leaves it |
| `AccumulatorLaws.FinishKeeps` | verus/verus_clhash.cpp:445-469 | so do all 32 steps, from entry 513 on, and the length hash is added at the end |
| `ClhashLane.Store0` | verus/verus_clhash.cpp:185-208 | accumulator and both written entries of case 0, also when the two entries coincide |
| `ClhashLane.Store1` | verus/verus_clhash.cpp:209-233 | the same for case 1, whose writes come in the other order |
| `ClhashLane.Store2` | verus/verus_clhash.cpp:234-258 | the same for case 2 |
| `ClhashLane.Store3` | verus/verus_clhash.cpp:259-300 | the same for case 3 with its signed remainder and the two branches that swap |
| `ClhashLane.Store4` | verus/verus_clhash.cpp:301-337 | the same for case 4, with the AES keys read from the entries after the first one |
| `ClhashLane.MonkinsLoop` | verus/verus_clhash.cpp:344-369 | the variable-round loop with its advancing key pointer and offset computes the recursive reference, within the key |
| `ClhashLane.Store5` | verus/verus_clhash.cpp:338-379 | accumulator and both written entries of case 5 |
| `ClhashLane.DivideLoop` | verus/verus_clhash.cpp:385-411 | the loop of case 6 with its two branches computes the recursive reference, within the key |
| `ClhashLane.Store6` | verus/verus_clhash.cpp:380-419 | accumulator and both written entries of case 6 |
| `ClhashLane.Store7` | verus/verus_clhash.cpp:420-441 | accumulator and both written entries of case 7 |
| `ClhashLane.VerusRuleFollows` | verus/verus_clhash.cpp:148-443 | the rule that runs are stated for is the selector, index and case logic of the step |
| `ClhashLane.KernelLane.constructor` | verus/verus_clhash.cpp:122-145 | a new lane is the start state: the four derived buffer entries, the accumulator from entry 513, empty log |
| `ClhashLane.KernelLane.WriteLog` | verus/verus_clhash.cpp:164-181 | the packed log, or the four saved-value arrays, gain exactly this step's indices and old values |
| `ClhashLane.KernelLane.Dispatch` | verus/verus_clhash.cpp:183-442 | the switch changes the accumulator and the two selected entries as the rule says, and no other entry |
| `ClhashLane.KernelLane.Advance` | verus/verus_clhash.cpp:148-443 | one step in place is one step of the reference, log included |
| `ClhashLane.RunLane` | verus/verus_clhash.cpp:445-456 | the scalar loop is the 32-step reference run |
| `ClhashLane.RunDual` | verus/verus_clhash.cpp:472-495 | the interleaved loop leaves both lanes, keys and logs as two independent 32-step runs |
| `KeyReach.RunReach` | verus/verus_clhash.cpp:301-419 | a run on a key cut off after entry 550 is the run on the whole key, so no step ever depends on a later entry |
| `KeyReach.BufferHashReach` | verus/verusscan.cpp:166-216 | the same for a candidate's whole hash, final keyed Haraka-512 included |
| `KeyReach.LastEntryReached` | verus/verusscan.cpp:181-187 | entry 550 does show in the hash for some AES round, so the bound is exact |
| `KeyReach.Loop5Reach` | verus/verus_clhash.cpp:344-369 | the same for the loop of case 5 from every admissible position and offset |
| `KeyRestore.PackRoundTrip` | verus/verus_clhash.cpp:175-175 | packing two 9-bit indices into one word loses nothing |
| `KeyRestore.UndoApply` | verus/verusscan.cpp:83-93 | writing back the two old values in reverse order undoes a step, also when the indices are equal |
| `KeyRestore.UndoRun` | verus/verusscan.cpp:83-93 | replaying the saved old values backwards gives the starting key, for every rule, run length and repetition of indices |
| `KeyRestore.RunFrame` | verus/verus_clhash.cpp:164-181 | an entry that no log record names is unchanged by the run |
| `KeyRestore.UpperKeyIsConstant` | verus/verus_clhash.cpp:183-442 | entries 512 and up are never written |
| `KeyRestore.RestoreIsPristine` | verus/verusscan.cpp:96-107 | copying back the logged entries restores the pristine key whenever they cover every difference |
| `KeyRestore.RestoreRun` | verus/verusscan.cpp:96-107 | the packed log of any run does cover them: forward restore gives the starting key |
| `KeyRestore.RestoreKey` | verus/verusscan.cpp:96-107 | the restore loop computes the forward restore |
| `KeyRestore.FixKey` | verus/verusscan.cpp:83-93 | the reverse loop computes the undo of the log |
| `VerusHash.AbsorbPrefix` | verus/verusscan.cpp:111-153 | the absorbed state depends on the absorbed blocks only |
| `VerusHash.VerusHashHalf` | verus/verusscan.cpp:111-153 | for every length, the swapped buffers end as the left fold of Haraka-512 over the whole blocks, then tail, stale bytes and fill |
| `VerusHash.HalfIsDeterminate` | verus/verusscan.cpp:111-153 | the result is independent of the uninitialised buffer if and only if the length is not between 32 and 46 |
| `VerusHash.HalfIsBuffer` | verus/verusscan.cpp:111-153 | when the length is 15 modulo 32 the result is folded state, 15 tail bytes and 17 bytes of fill |
| `VerusHash.VerusImplements` | verus/verusscan.cpp:111-216 | the algorithm that scans are stated for is built from this Haraka, this key chain, this run and this final hash |
| `HashLaws.Digest512Keeps` | verus/haraka.c:414-443 | with an exclusive or that returns its second operand the digest is words 2, 3, 6, 7, 8, 9, 12 and 13 of the input |
| `HashLaws.AbsorbKeeps` | verus/verusscan.cpp:111-153 | which bytes of the last three blocks the state then holds after 46 |
| `HashLaws.BufferHashKeeps` | verus/verusscan.cpp:166-216 | which words of the buffer and of the fill the final hash then keeps |
| `HashLaws.HashKeeps` | verus/verusscan.cpp:111-216 | the hash of every message then, word by word |
| `HashLaws.KeyChain` | verus/verusscan.cpp:61-81 | each pair of key entries is the Haraka-256 digest of the pair before, the first that of the seed |
| `HashLaws.SeedReached` | verus/verusscan.cpp:61-81 | the state seeds the key: with that exclusive or the run starts and ends with its upper half |
| `HashLaws.PbufHoldsBuffer` | verus/verus_clhash.cpp:140-143 | the four buffer words are the second half, and the first half with the second added |
| `Candidate.GenNewCLKey` | verus/verusscan.cpp:61-81 | the 552 entries are the chain of Haraka-256 outputs from the 32-byte seed |
| `Candidate.FullTest` | util.cpp:786-803 | true exactly when the hash as a 256-bit integer is at most the target |
| `Candidate.HighWordFilter` | verus/verusscan.cpp:166-191 | a hash at most the target has its top word at most the target's |
| `Candidate.PrepareHashInput` | verus/verusscan.cpp:158-164 | whatever the previous candidate left behind byte 43, the buffer becomes state, nonce space, nonce and the 17-byte fill |
| `Fills.Fill1Forms` | verus/verusscan.cpp:304-314 | `vext` on ARM and `pshufb` on x86 both rotate the first block by one byte |
| `Fills.Fill2Forms` | verus/verusscan.cpp:170-178 | duplicate and `vext` on ARM, zero-extended load and `pshufb` on x86, both give the eight bytes repeated and rotated by one |
| `Candidate.FinalizeHash` | verus/verusscan.cpp:166-191 | true exactly when the full final hash meets the target, and then that hash is stored: the one-word filter drops no winner |
| `Candidate.ClhashPacked` | verus/verus_clhash.cpp:462-469 | result, mutated key and packed log of one call are those of the reference run |
| `Candidate.ClhashSaved` | verus/verus_clhash.cpp:445-469 | the same with the four saved-value arrays |
| `Candidate.ClhashDual` | verus/verus_clhash.cpp:472-495 | both results, both keys and both logs are those of two separate reference runs |
| `Candidate.PackedLogRestores` | verus/verusscan.cpp:96-107 | after any CLHash call the packed log restores the exact starting key |
| `Candidate.SavedLogRestores` | verus/verusscan.cpp:83-93 | after any CLHash call the saved values restore the exact starting key |
| `Candidate.Verus2HashPacked` | verus/verusscan.cpp:193-216 | one candidate on ARM: verdict and hash are those of the simple form, and the key is pristine again |
| `Candidate.Verus2HashSaved` | verus/verusscan.cpp:193-216 | the same on the other builds |
| `Lanes.DualScratch.TestOne` | verus/verusscan.cpp:374-384 | the tail's candidate test is exact and leaves the scratch ready for the next nonce |
| `Lanes.DualScratch.TestPair` | verus/verusscan.cpp:332-357 | a pair of candidates: found exactly when one wins, the lower one preferred, its hash kept, both keys and buffers ready again |
| `Lanes.SavedScratch.TestOne` | verus/verusscan.cpp:374-384 | the same as the tail's test, on the other builds |
| `Scan.OneByOneIsExact` | verus/verusscan.cpp:372-397 | the one-at-a-time scan finds the smallest winner, or shows that no nonce below its count wins and that it stopped at the limit or at its first halt |
| `Scan.TwoSteps` | verus/verusscan.cpp:330-369 | one pair is two steps of the one-at-a-time scan: a stop cannot fall on the odd count between them |
| `Scan.PairLoop` | verus/verusscan.cpp:330-369 | the dual loop is a prefix of the one-at-a-time scan from nonce 0, and a winner's whole pair is counted |
| `Scan.TailLoop` | verus/verusscan.cpp:372-397 | the scalar loop finishes the one-at-a-time scan from where it starts |
| `Scan.ScanDual` | verus/verusscan.cpp:329-401 | dual loop plus tail refine the one-at-a-time scan from 0, for every limit and every stopping behaviour, with the exact count for a winner |
| `Scan.CountedToIs` | verus/verusscan.cpp:359-401 | that count: the end of the winner's pair if the pair is below the limit, otherwise the winner plus one |
| `Scan.ScanSingle` | verus/verusscan.cpp:372-401 | so does the scalar loop alone |
| `ScanHash.BuildMessage` | verus/verusscan.cpp:261-281 | the copied and, for merged mining, cleared message and the first 11 bytes of nonce space |
| `ScanHash.CandidateIsMessage` | verus/verusscan.cpp:285-315 | a candidate's hash from the shared prefix, key and fill is the hash of its whole message from scratch |
| `ScanHash.RecordSolution` | verus/verusscan.cpp:318-327 | which header, solution, nonce-space and nonce-word bytes end up in the work |
| `LayoutLaws.NonceBytesValue` | verus/verusscan.cpp:163-163 | the nonce is stored least significant byte first |
| `LayoutLaws.NonceDecidesMessage` | verus/verusscan.cpp:158-164 | two nonces give one message if and only if they are equal, and differ in the last four bytes only, which hold the nonce |
| `LayoutLaws.PrefixIsLength` | verus/verusscan.cpp:261-261 | the three bytes before the solution are its length as a compact size |
| `LayoutLaws.LoadKeepsBytes` | verus/haraka.h:156-156 | a register holds its 16 bytes in order |
| `Layout.RescanRepeats` | verus/verusscan.cpp:271-281 | a second scan of the work tries the same messages if and only if merged mining cleared the nonce word; otherwise no message is tried twice |
| `Layout.MergedNextWord` | verus/verusscan.cpp:402-402 | under merged mining the nonce word left in the header is 1 |
| `ScanHash.SubmittedIsMessage` | verus/stratum.cpp:209-209 | header with the recorded nonce word put back, then `extra`, is exactly the winning message |
| `ScanHash.ScanMeaning` | verus/verusscan.cpp:316-406 | what the outcome of the one-at-a-time scan says about the messages |
| `ScanHash.ScanHashDual` | verus/verusscan.cpp:219-406 | ARM build: a recorded share is the smallest winning nonce, its message hashes from scratch to `vhash` and meets the target; `hashes_done` is then the end of its pair, or just behind it in the tail; otherwise no nonce below `hashes_done` wins and an early end was told at a multiple of 512; `hashes_done` never exceeds the limit; every byte of the work afterwards, the advanced nonce word included; without keys 0 is returned and nothing touched |
| `ScanHash.ScanHashSaved` | verus/verusscan.cpp:219-406 | the same for the other builds |
| `ScanHash.BuildsAgree` | verus/verusscan.cpp:219-406 | the promise determines the outcome: two scans of the same work under the same flags that keep it record the same nonce and hash, or both find nothing after equally many hashes, and leave the same work |
| `CrossBuild.RecordedAlike` | verus/verusscan.cpp:219-406 | a share recorded under one algorithm is recorded under every other with equal primitives |
| `CrossBuild.NothingFoundAlike` | verus/verusscan.cpp:219-406 | likewise for a scan that found nothing |
| `CrossBuild.ScansAgree` | verus/verusscan.cpp:219-406 | the ARM and the x86 scan of the same work find the same nonce with the same hash, or nothing after equally many hashes, and leave the same work, for every AES round |
| `CrossBuild.ScanBoth` | verus/verusscan.cpp:219-406 | both methods run on two copies of a work leave equal copies, and one outcome that both algorithms promise |
| `Gf2.OverflowFitsFourBits` | verus/verus_clhash.cpp:56-76 | the high half of the first product has no bit above the fourth |
| `Gf2.TableIsProduct` | verus/verus_clhash.cpp:56-76 | the 16-byte table is multiplication of a 4-bit polynomial by x^4 + x^3 + x + 1 |
| `Gf2.ReductionHasQuotient` | verus/verus_clhash.cpp:56-76 | the result is a remainder: the input is an explicit quotient times the modulus plus it |
| `Gf2.RemainderUnique` | verus/verus_clhash.cpp:56-76 | two remainders of degree below 64 are equal |
| `Gf2.HighHalfIs` | verus/verus_clhash.cpp:62-67 | ARM's `vext` with zeros and x86's byte shift move the high half down alike |
| `Gf2.ReductionsAgree` | verus/verus_clhash.cpp:56-76 | hence both builds reduce every register alike |
| `Gf2.ReductionIsRemainder` | verus/verus_clhash.cpp:56-76 | for every 128-bit input, and either build, r is a remainder modulo x^64 + x^4 + x^3 + x + 1 if and only if r is what the table reduction returns |
| `Mulhrs.RoundingIdentity` | verus/verus_clhash.cpp:80-97 | the two rounding formulas agree for all integers |
| `Mulhrs.NativeIsPmulhrsw` | verus/verus_clhash.cpp:80-97 | saturating doubling multiply with the both-minimum correction is PMULHRSW on every pair of 16-bit integers |
| `Mulhrs.NativeVectorIsPmulhrsw` | verus/verus_clhash.cpp:80-97 | the same for every pair of 8-lane vectors |
| `RegisterLaws.BitAt` | verus/verus_clhash.cpp:49-76 | bit k of a register is bit k modulo 32 of its word k / 32, as quotient and remainder |
| `RegisterLaws.ClmulIsProduct` | verus/verus_clhash.cpp:51-51 | bit k of the instruction is coefficient k of the product of low and high half |
| `RegisterLaws.ClmulByOne` | verus/verus_clhash.cpp:51-51 | a low half of 1 moves the high half down |
| `RegisterLaws.LazyLengthHash` | verus/verus_clhash.cpp:49-53 | the length hash of 64 bytes under a 1024-byte key is 0x10000 |
| `RegisterLaws.Reduce64IsRemainder` | verus/verus_clhash.cpp:56-76 | the bits of the reduced register are the one remainder of its bits, on both builds |
| `RegisterLaws.MulhrsLane` | verus/verus_clhash.cpp:80-97 | each of the eight lanes is the rounded product of the lanes, on both builds |
| `XorLaws.XorBit` | verus/verus_clhash.cpp:140-141 | every bit of the exclusive or of words is that of the bits |
| `BuildLaws.BuildsAreLawful` | verus/verus_clhash.cpp:49-97 | both builds meet the conditions of the laws above: sums that cancel, no product of nothing, and the length hash that is added |
| `Builds.ArmAgreesWithX86` | verus/verus_clhash.cpp:80-97 | the two instruction sets agree on every operand |
| `Builds.SameFinish` | verus/verus_clhash.cpp:445-469 | instruction sets that agree give the same 32-step run |
| `Builds.BuildsHashAlike` | verus/verusscan.cpp:111-216 | both builds give every 1487-byte message the same hash, for every AES round |
| `Hex.UnhexHex` | util.cpp:711-757 | every byte string is accepted back from its digits, unchanged |
| `Hex.HexUnhex` | util.cpp:711-757 | an accepted string is printed back if and only if it is lower-case digits |
| `Hex.SignAccepted` | util.cpp:731-757 | for instance "-5" is accepted as byte 251 and printed as "fb" |
| `Hex.DigitCode` | util.cpp:731-757 | the digits and their values by character code |
| `Hex.Cbin2Hex` | util.cpp:711-718 | the buffer holds two digits per byte and a NUL, and nothing behind is touched |
| `Hex.Hex2Bin` | util.cpp:731-757 | success exactly on `len` pairs that `strtol` consumes whole; on success and on failure, exactly which bytes are stored |
| `Hex.AcceptedOutput` | util.cpp:731-757 | on success the stored bytes are the values of all pairs |
| `HexPairs.ConvertPairs` | util.cpp:739-756 | the same of the loop for any way of converting a pair |
| `Target.SetTarget` | verus/stratum.cpp:43-80 | for every parameter, what is stored is the leading bytes of `target_bin` up to the eighth nonzero one, reversed, and `target_bits` is the exponent or-ed over the uninitialised top byte and three leading bytes below, wherever the code stays inside its arrays |
| `Target.TargetBinIs` | verus/stratum.cpp:51-51 | for 64 acceptable digits `target_bin` is the pool's target, whatever it held before |
| `Target.CoefficientDefinedIff` | verus/stratum.cpp:68-73 | the coefficient is read inside `target_be` if and only if the target is at least 65536 |
| `Target.CoefficientMeaning` | verus/stratum.cpp:68-74 | and then the coefficient is the pool's target rounded down to its three leading bytes |
| `Target.BitsUndetermined` | verus/stratum.cpp:70-74 | `target_bits` always depends on the uninitialised byte, and is the compact form if and only if that byte adds no bit to the exponent |
| `Target.FillTarget` | verus/stratum.cpp:51-66 | the byte loop stops after the eighth nonzero byte, leaves zeros for the rest and finds the first nonzero byte |
| `Target.StoredTarget` | verus/stratum.cpp:54-80 | the stored target is at most the pool's and, unless that is zero, short of it by less than one part in 2^56 |
| `Target.StoredExactly` | verus/stratum.cpp:54-80 | they are equal if and only if the pool's target has at most eight nonzero bytes |
| `Stratum.WordsValue` | ccminer.cpp:1714-1714 | the stored bytes read as the words `fulltest` compares are the same integer |
| `Stratum.PoolTarget` | util.cpp:786-803 | a hash passing against the stored target meets the pool's; one that meets only the pool's is within one part in 2^56 of it |
| `ShareText.SolutionHex` | verus/stratum.cpp:215-224 | the buffer edits amount to printing `extra` with 64 bytes put back from the pool's solution |
| `ShareText.NonceHex` | verus/stratum.cpp:209-213 | exactly when there is a nonce buffer and what it holds: the digits of the header's nonce field behind the pool's prefix and a NUL, or, for a prefix of 32 bytes, the one character `malloc` gave |
| `ShareText.NonceIsString` | util.cpp:711-729 | the buffer is a C string whatever `malloc` returned if and only if the prefix is shorter than 32 bytes |
| `ShareText.NonceString` | verus/stratum.cpp:209-213 | and then the string is the digits of the nonce field behind the prefix |
| `Layout.SpliceUndoesClearing` | verus/stratum.cpp:220-224 | on both version branches the spliced solution is fd 40 05, the pool's first 1329 bytes and the 15 nonce bytes |
| `Stratum.ShareSolution` | verus/stratum.cpp:220-224 | after any recording scan the solution string decodes to those bytes, with the winning nonce |
| `Stratum.ShareNonce` | verus/stratum.cpp:209-213 | after any recording scan, and for a prefix shorter than 32 bytes, the C string in the nonce buffer decodes to the winning message's nonce field behind the prefix |
| `Stratum.ShareMeetsPool` | verus/stratum.cpp:43-80 | the message a share stands for, hashed from scratch, meets the target the pool sent |
| `Barrier.StepInv` | pthread_barrier_apple.hpp:50-65 | every statement of every thread, and every spurious wakeup, keeps the invariant |
| `Barrier.RunInv` | pthread_barrier_apple.hpp:37-65 | the invariant holds throughout every run |
| `Barrier.NoneLeavesEarly` | pthread_barrier_apple.hpp:50-65 | a thread that has returned k times proves that every thread has arrived k times |
| `Barrier.ExactlyOneSerial` | pthread_barrier_apple.hpp:54-65 | in each completed round exactly one thread got 1 and all others 0 |
| `Barrier.AtMostOneSerial` | pthread_barrier_apple.hpp:54-65 | no two threads get 1 in the same round, finished or not |
| `Barrier.WrapIsHarmless` | pthread_barrier_apple.hpp:53-65 | a waiter is at most one round behind, so comparing 32-bit generations tells its round from the next despite wrap-around |
| `Barrier.SleepsOnlyWhileOpen` | pthread_barrier_apple.hpp:57-62 | no lost wakeup: a thread is asleep only while its round is open or the broadcast that ends it is the next statement |
| `Barrier.StepProgress` | pthread_barrier_apple.hpp:50-65 | every statement lowers a measure or completes the round, and a round is completed only when all have returned from the one before |
| `Barrier.StepsArePaid` | pthread_barrier_apple.hpp:50-65 | over any schedule the steps taken are bounded by the rounds completed and three for each spurious wakeup |
| `Barrier.EveryoneReturns` | pthread_barrier_apple.hpp:50-65 | progress without any fairness: after so many steps, three more for each spurious wakeup, every thread has returned from its k-th wait |
| `Barrier.BarrierWorks` | pthread_barrier_apple.hpp:50-65 | safety and progress of the same runs: after so many steps every thread has returned from wait k, exactly one with 1, and at no time had one returned from it before all arrived |
| `Barrier.NeverStuck` | pthread_barrier_apple.hpp:50-65 | in every reachable state some thread can take a step without a spurious wakeup |
| `Uint256.IsModMeaning` | uint256.h:50-164 | the relation the operations are stated with is the remainder by 2^(32 * WIDTH) |
| `Uint256.SumValue` | uint256.h:148-158 | the limb-wise sum with carries, value for value, with the final carry |
| `Uint256.LeftShiftMod` | uint256.h:114-129 | the limbs of a left shift are the product by 2^shift modulo 2^(32 * WIDTH) |
| `Uint256.RightShiftQuotient` | uint256.h:131-146 | the limbs of a right shift are the quotient by 2^shift, rounded down |
| `Uint256.BaseUint.Negate` | uint256.h:50-57 | complement and increment is negation modulo 2^(32 * WIDTH) |
| `Uint256.BaseUint.ShiftLeft` | uint256.h:114-129 | the or-ing loop multiplies by 2^shift modulo 2^(32 * WIDTH), for every shift amount |
| `Uint256.BaseUint.ShiftRight` | uint256.h:131-146 | the or-ing loop divides by 2^shift, rounding down, for every shift amount |
| `Uint256.BaseUint.AddAssign` | uint256.h:148-158 | addition modulo 2^(32 * WIDTH), also of a number to itself |
| `Uint256.BaseUint.SubAssign` | uint256.h:160-164 | subtraction modulo 2^(32 * WIDTH) |
| `Uint256.BaseUint.Increment` | uint256.h:183-190 | plus one modulo 2^(32 * WIDTH) |
| `Uint256.BaseUint.Decrement` | uint256.h:200-207 | minus one modulo 2^(32 * WIDTH) |
| `Uint256.BaseUint.Less` | uint256.h:218-228 | the loop decides integer order |
| `Uint256.BaseUint.LessOrEqual` | uint256.h:230-240 | the loop decides integer order |
| `Uint256.BaseUint.Greater` | uint256.h:242-252 | the loop decides integer order |
| `Uint256.BaseUint.GreaterOrEqual` | uint256.h:254-264 | the loop decides integer order |
| `Uint256.BaseUint.Equal` | uint256.h:266-272 | equal limbs if and only if equal integers |
| `RingList.Node.constructor` | elist.h:23-25 | a new node is a ring of its own |
| `RingList.ListAddTail` | elist.h:33-67 | the ring with the node appended, next and prev mutually inverse |
| `RingList.ListDel` | elist.h:76-92 | the ring without the entry, for every position, and no link left in the entry |
| `RingList.ListEmpty` | elist.h:131-134 | true exactly when the ring is the head alone |
| `RingList.ListSplice` | elist.h:136-159 | the entries of one ring in front of those of the other, in order, in one closed ring |
| `ThreadQueue.Fifo` | util.cpp:1957-2014 | in every interleaving the accepted items, in order, are the delivered ones followed by the contents |
| `ThreadQueue.PushRefused` | util.cpp:1957-1982 | a push is accepted exactly when its entry was allocated and the last freeze or thaw left the queue open; a refused one changes nothing |
| `ThreadQueue.PopEmptyHanded` | util.cpp:1984-2014 | a pop waits, or returns nothing, exactly when everything accepted is delivered or its wait failed; otherwise it returns the next item in order |
| `ThreadQueue.ThreadQ.constructor` | util.cpp:1907-1915 | a new queue is empty and open |
| `ThreadQueue.TqNew` | util.cpp:1903-1916 | null exactly when the allocation fails, otherwise a new, empty and open queue |
| `ThreadQueue.ThreadQ.Push` | util.cpp:1957-1982 | the ring grows by the item, or nothing changes at all |
| `ThreadQueue.ThreadQ.Pop` | util.cpp:1984-1994 | the first critical section: take the first entry off the ring, or wait |
| `ThreadQueue.ThreadQ.Resume` | util.cpp:1995-2014 | the second critical section, after a wait that may have failed or found nothing |
| `ThreadQueue.ThreadQ.FreezeThaw` | util.cpp:1937-1955 | only the flag changes |
| `ThreadQueue.RunAll` | util.cpp:1903-2014 | any sequence of critical sections on a new queue: the callers' answers, first in first out, and a closed ring at the end |
| `VarInt.DecodeEncode` | serialize.hpp:327-393 | decoding undoes encoding, for every natural number |
| `VarInt.EncodeDecode` | serialize.hpp:327-393 | encoding undoes decoding, for every complete octet string |
| `VarInt.DecodeInjective` | serialize.hpp:327-393 | distinct complete octet strings decode to distinct integers |
| `VarInt.DecodeFormula` | serialize.hpp:327-338 | the value is the documented sum |
| `VarInt.EncodeSize` | serialize.hpp:340-348 | an encoding has k + 1 octets exactly when the integer lies in the k-th interval 0, 128, 16512, ... |
| `VarInt.FitsBuffer` | serialize.hpp:364-379 | a W-bit integer never needs more than (W + 6) / 7 octets |
| `VarInt.DecodeAllEncodeAll` | serialize.hpp:340-348 | a list of integers is recovered from its concatenated encodings |
| `VarInt.EncodeAllDecodeAll` | serialize.hpp:340-348 | every octet string that does not break off is the encoding of a list: no redundancy |
| `VarInt.GetSizeOfVarInt` | serialize.hpp:351-362 | the loop counts the octets of the encoding, for integers of any sign |
| `VarInt.WriteVarInt` | serialize.hpp:364-379 | the stream gains exactly the encoding and no store leaves the scratch array, for integers of any sign |
| `VarInt.ReadVarInt` | serialize.hpp:381-393 | it consumes the first complete octet string and yields its value modulo 2^W; it fails exactly when there is none |
| `VarInt.EndsOnce` | serialize.hpp:381-393 | what is consumed is determined by the stream |
| `VarInt.LowExact` | serialize.hpp:381-393 | the modulus matters exactly from 2^W on |
| `VarInt.ReadSigned` | serialize.hpp:381-393 | for a signed type with V value bits: the first integer of the stream, overflow, or the end of the stream, and exactly when each |
| `VarInt.SignedRoundTrip` | serialize.hpp:364-393 | for an integer of any sign, decoding what is written gives it back if and only if it is not negative |
| `VarInt.SignedReader` | serialize.hpp:381-393 | on V value bits no assignment of the reader overflows if and only if the integer has at most V bits |
| `VarInt.RoundTrip` | serialize.hpp:364-393 | reading what was written returns the integer and leaves what follows, for every W-bit integer |

## Left out

- The AES round itself, sse2neon and the Haraka constants: the theorems hold for every round function and all constants.
- `haraka256_keyed`, `haraka256_4x` and `haraka256_8x` (verus/haraka.c:144-199): not used by the scanner.
- `haraka512` (verus/haraka.c:318-347) differs from the keyed form only in its key source; the model uses the keyed form at entry 0.
- The leftover-bytes branch of `GenNewCLKey` (verus/verusscan.cpp:75-80): the key size is a multiple of 32, so it never runs.
- `bn_store_hash_target_ratio` and share difficulties: floating point, with no effect on what is recorded or submitted.
- The restart and abort flags as shared memory: they are an arbitrary function of the hash count.
- `target_to_diff_verus` and the difficulty stored by `verus_stratum_set_target` (verus/stratum.cpp:18-22, 83): floating point, on bits that the target does not determine.
- Target.SetTarget: stops at `target_bits`; the difficulty computed from it is floating point.
- Job id, time string, JSON text and sending in `verus_stratum_submit`, and its failed allocations: formatting and I/O.
- Barrier.Init: starts from an initialised barrier; the error returns of `pthread_barrier_init` and `pthread_barrier_destroy` are not modelled.
- ThreadQueue.RunAll: runs critical sections one after another as the mutex does; which waiter a signal wakes is not modelled, any waiter may resume at any time.
- `tq_free`, `list_add`, `list_move`, `list_del_init` and the iteration macros of elist.h: easy variations on what is modelled.
- `base_uint` with no limbs, `!=`, mixed 64-bit operands, bitwise operators, `GetHex`, `SetHex` and `getdouble`: easy members, text and floating point.
- VarInt.ReadVarInt: is the unsigned case, for types of at least 8 bits; `VarInt.ReadSigned` is the signed one.
- Compact sizes, containers and the rest of serialize.hpp.
- hashlog.cpp, stats.cpp, api.cpp, pools.cpp, bench.cpp, option parsing, sockets, curl, JSON and the legacy algorithms in ccminer.cpp.

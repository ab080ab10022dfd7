# Lattigo experiments: codec, prime search, evaluator bookkeeping and the PSI driver

This project is a Dafny model of the core of a set of experiments built on
the Lattigo homomorphic-encryption library. It covers:

- **The CKKS ciphertext codec** (`ckks/marshaler.go`). A ciphertext is
  written as an 11-byte header (element count, the 64-bit pattern of the
  scale, the NTT flag), followed by its ring elements. The element codec
  is a parameter, with two assumed properties. `RoundTrips` says it
  decodes what it encodes. `Canonical` says whatever it decodes is an
  encoding.
- **The NTT-friendly prime search and the modulus chains**
  (`bfv/utils.go`).
  - `generateNTTPrimes` walks two 64-bit counters, `y` down and `x` up, in
    steps of 2N from 2^logQ + 1, wrapping around as `uint64` does.
  - `genModuli` tallies the requested bit sizes, runs one search per size
    and hands the primes out to the chains Q1, P and Q2.
  - The primality test `ring.IsPrime` is a parameter.
- **The operand checks and the sharing structure of the RLWE evaluator**
  (`rlwe/evaluator.go`). This covers `CheckBinary` and `CheckUnary`, and
  which components `NewEvaluator`, `ShallowCopy` and `WithKey` allocate or
  share, with heap references as numbers.
- **The private-set-intersection driver** (`psi/main.go`):
  - the one-hot encoding of a party's records;
  - the two input generators and the expected result they compute;
  - the binary reduction tree `evalPhase` runs over the encrypted inputs;
  - the final check of the decrypted result against the expected one.

  Under decryption, homomorphic multiplication followed by
  relinearisation is the slot-wise product modulo the plaintext modulus.
  The tree is proved generic in any associative operation.

The modules are `Results` and `Words` (shared helpers: results, powers of
two, wrapping `uint64` arithmetic, little-endian bytes), `CiphertextCodec`,
`NTTPrimes`, `ModuliChains`, `RlweEvaluator`, `ReductionTree`, `PsiInputs`
and `PsiFindings`.

### Where the code and its documentation disagree (the model follows the code)

- **Stale size comment.** The size comment of `MarshalBinary`
  (ckks/marshaler.go:28-29) does not match the code. The size is
  `GetDataLen(true)`: 11 header bytes plus the element lengths.
- **Decode target mutated on failure.** `UnmarshalBinary` resets and
  fills the target before it can fail, so a failed decode leaves it
  half-written (marshaler.go:66-88). `CiphertextCodec.Unmarshal` returns
  that state together with the error.
- **Byte 9 and byte 10 of the header.** Byte 9 is written as 0 and never
  read. For byte 10, any value other than 1 decodes as "not NTT".
- **"All primes are different".** The comment on `genModuli`
  (bfv/utils.go:7) says this, but it fails when 2^logQ + 1 is prime
  and at least two primes of that size are requested (see Findings).
- **Unreachable nil message.** The "cannot be nil" panic of
  `CheckBinary` can never be raised. The operands' methods are called
  before the nil test, so a nil operand fails on the first call instead.
  `CheckUnary` tests for nil first, but that test only catches a nil
  interface value.

## Model

| member | source | states |
|---|---|---|
| CiphertextCodec.Marshal | ckks/marshaler.go:28-56 | The encoding has exactly `GetDataLen(true)` bytes. Its header is:<br>• byte 0: degree + 1, truncated to 8 bits<br>• bytes 1-8: the scale bits, little-endian<br>• byte 9: 0<br>• byte 10: the NTT flag<br>Every element's encoding sits at its running offset. |
| CiphertextCodec.DataLen | ckks/marshaler.go:12-26 | With metadata, the length is 11 plus the length of the element encodings, i.e. of the bytes `MarshalBinary` writes. Without metadata, no header is counted. |
| CiphertextCodec.DataLenAccumulates | ckks/marshaler.go:21-23 | The loop adds each element's own `GetDataLen`: appending an element adds its length, with or without metadata. |
| CiphertextCodec.Header | ckks/marshaler.go:34-40 | The 11 header bytes decode back to the ciphertext: byte 0 is degree + 1 truncated to 8 bits, hence the element count when it is at most 255. Bytes 1-8 read little-endian give the scale bits. Byte 9 is 0. Byte 10 is 0 or 1, and 1 exactly for an NTT ciphertext. |
| CiphertextCodec.Concat | ckks/marshaler.go:42-53 | The element encodings back to back. Their total length is the sum of the elements' `GetDataLen(true)`, so the writes exactly fill the buffer after the header. |
| CiphertextCodec.ConcatAppend | ckks/marshaler.go:21-23 | Encoding and length both distribute over concatenation of element lists. |
| CiphertextCodec.ConcatSplit | ckks/marshaler.go:42-53 | Element i's encoding lies between the encodings of the elements before it and after it. |
| CiphertextCodec.DecodeElements | ckks/marshaler.go:76-88 | The decoding loop never yields more elements than requested. When no element fails, it yields all of them and never moves the pointer backwards. |
| CiphertextCodec.Unmarshal | ckks/marshaler.go:61-95 | Fewer than 11 bytes fail with "too small" and leave the target untouched. Otherwise the target is reset and its header fields taken from the data. On success the element count is byte 0 and the pointer ends exactly at the end of the data. |
| CiphertextCodec.DecodeConcat | ckks/marshaler.go:76-88 | Decoding a run of encodings returns the encoded elements and stops right after them. |
| CiphertextCodec.RoundTrip | ckks/marshaler.go:28-95 | For at most 255 elements, decoding an encoding restores the ciphertext exactly, whatever the target held before. |
| CiphertextCodec.TrailingBytesRejected | ckks/marshaler.go:90-92 | An encoding followed by any extra bytes is rejected as "remaining unparsed data". The target still holds the decoded ciphertext. |
| CiphertextCodec.HeaderDecodes | ckks/marshaler.go:34-40 | The written header decodes back to the element count, the scale bits and the NTT flag. |
| CiphertextCodec.ConcatCons | ckks/marshaler.go:46-53 | The encoding of a list is its first element's encoding followed by the rest. |
| CiphertextCodec.DecodedIsConcat | ckks/marshaler.go:79-92 | A decode that succeeds and consumes everything read exactly the re-encodings of the decoded elements. |
| CiphertextCodec.ReencodeDecoded | ckks/marshaler.go:28-95 | Whatever decodes successfully re-encodes to the same bytes, except byte 9 (0) and byte 10 (0 or 1). |
| CiphertextCodec.DecodedHeader | ckks/marshaler.go:34-40 | The header rebuilt from decoded fields is the input header with byte 9 cleared and byte 10 normalised. |
| CiphertextCodec.UnusedByteIgnored | ckks/marshaler.go:68-74 | The decoder never reads byte 9. |
| CiphertextCodec.DecodeOnlyReadsTail | ckks/marshaler.go:83 | Element decoding depends only on the bytes from the pointer on. |
| NTTPrimes.QPow2 | bfv/utils.go:81 | `1 << logQ` is 2^logQ and at most 2^60. |
| NTTPrimes.TwoN | bfv/utils.go:83 | `2 << logN` on `uint64` is 2·2^logN reduced modulo 2^64. Hence it is 2^(logN+1) up to logN = 62 and 0 beyond, because the bit is shifted out. |
| NTTPrimes.NoStopWithinMeans | bfv/utils.go:88-107 | "No stop within n tests" holds exactly when no test count up to n is a stopping point. |
| NTTPrimes.StopResult | bfv/utils.go:90-104 | When the search stops it has collected exactly `levels` values (at least one), all prime. |
| NTTPrimes.GenerateNTTPrimes | bfv/utils.go:67-110 | logQ above 60 is rejected. On success the result is the primes among the values tested, in order, up to the first point where `levels` were found. Running out of fuel means no stop in that many tests. |
| NTTPrimes.SearchRound | bfv/utils.go:88-107 | One round tests `y` of the round, then `x`. It returns at the first test that completes the list; otherwise both counters move one step. |
| NTTPrimes.TestValue | bfv/utils.go:90-95 | A tested prime is appended. The search returns exactly when that completes the list for the first time. |
| NTTPrimes.CandidateOfRound | bfv/utils.go:85-86 | Round j tests `y` after j steps down, then `x` after j steps up, both from 2^logQ + 1. |
| NTTPrimes.CandidateStep | bfv/utils.go:97-106 | Between rounds `y` wraps down by 2N and `x` wraps up by 2N. |
| NTTPrimes.PrimesArePrime | bfv/utils.go:90-91 | Everything collected passed the primality test. |
| NTTPrimes.PrimesAmongGrows | bfv/utils.go:90-104 | The collected list only grows with more tests, and grows when a prime is tested. |
| NTTPrimes.StopPointUnique | bfv/utils.go:92-93 | The search stops at one point only: the result is determined by the inputs. |
| NTTPrimes.NoStopForZeroLevels | bfv/utils.go:92 | With `levels == 0` the search never returns, because the length is compared only after an append. |
| NTTPrimes.WrapSubCongruent | bfv/utils.go:97 | A wrapping step down keeps the remainder modulo any divisor of 2^64. |
| NTTPrimes.WrapAddCongruent | bfv/utils.go:106 | A wrapping step up keeps the remainder modulo any divisor of 2^64. |
| NTTPrimes.DownCongruent | bfv/utils.go:97 | Any number of wrapping steps down keeps the remainder modulo the step. |
| NTTPrimes.UpCongruent | bfv/utils.go:106 | Any number of wrapping steps up keeps the remainder modulo the step. |
| NTTPrimes.StepDividesWord | bfv/utils.go:83 | 2N divides 2^64 while logN is at most 62. |
| NTTPrimes.StepDividesStart | bfv/utils.go:81-83 | 2N, at least 2, divides 2^logQ when logN + 1 is at most logQ. |
| NTTPrimes.StartIsOneModStep | bfv/utils.go:81-86 | 2^logQ + 1 is 1 modulo 2N when logN + 1 is at most logQ. |
| NTTPrimes.CandidateCongruent | bfv/utils.go:85-106 | Every tested value, wrap-around included, is congruent to 2^logQ + 1 modulo 2N. When logN + 1 is at most logQ, that remainder is 1. |
| NTTPrimes.PrimesAreNTTFriendly | bfv/utils.go:67-110 | Every prime found is 1 modulo 2N when logN + 1 is at most logQ: the NTT-friendliness the search is for. |
| NTTPrimes.PrimeIsCandidate | bfv/utils.go:90-104 | Each collected prime is one of the values tested. |
| NTTPrimes.DownClosedForm | bfv/utils.go:97 | Without underflow, `y` after j steps is start - j·2N. |
| NTTPrimes.UpClosedForm | bfv/utils.go:106 | Without overflow, `x` after j steps is start + j·2N. |
| NTTPrimes.CandidateClosedForm | bfv/utils.go:85-106 | Without wrap-around, the i-th value tested is 2^logQ + 1 ∓ (i/2)·2N. |
| NTTPrimes.HalfWalkBound | bfv/utils.go:85-106 | Within the no-wrap range, the walk neither underflows nor overflows 64 bits. |
| NTTPrimes.CandidatesDistinct | bfv/utils.go:85-106 | Without wrap-around, two tests hit the same value exactly when they are the first two tests, both of 2^logQ + 1. |
| NTTPrimes.FirstRound | bfv/utils.go:85-104 | The first round collects 2^logQ + 1 twice if it is prime, and nothing otherwise. |
| NTTPrimes.NewPrimeIsNew | bfv/utils.go:88-107 | After the first round, a prime found was not found before (no wrap-around). |
| NTTPrimes.DistinctAppend | bfv/utils.go:91 | Appending a value not yet present keeps the list free of repeats, and the converse. |
| NTTPrimes.DistinctUnlessStartPrime | bfv/utils.go:7 | Without wrap-around, the primes found are all different exactly when 2^logQ + 1 is not prime or fewer than two values were tested. |
| NTTPrimes.FermatPrimeReturnedTwice | bfv/utils.go:85-104 | For logQ = 16 and any logN, asking for two primes returns 65537 twice. |
| NTTPrimes.OnceIsCandidate | bfv/utils.go:99-104 | Each prime of the corrected search is a value it tested. |
| NTTPrimes.PrimesAmongOnceDistinct | bfv/utils.go:7 | The corrected search (skip `x` when it equals `y`) never returns a prime twice within the no-wrap range. |
| NTTPrimes.OnceDropsDuplicate | bfv/utils.go:85-104 | The corrected search differs from the original only by the second copy of 2^logQ + 1. |
| ModuliChains.CheckSizes | bfv/utils.go:10-36 | No error exactly when every requested size is at most 60. The P-specific message is raised exactly when Q1 passes and P does not. Otherwise the moduli message is raised. |
| ModuliChains.GenModuli | bfv/utils.go:8-65 | Size errors come from the checks and only from them. On success there is one search per distinct size, each returning exactly the number of primes requested of that size. The chains are the three assignment loops over those lists, each entry taking the next unused prime of its size. A `SearchFailed` result names a requested size whose search found no stop within its first 2·fuel tested values. |
| ModuliChains.InSomeChain | bfv/utils.go:12-36 | Every size in a chain that passed the checks is at most 60. |
| ModuliChains.OccurrencesBound | bfv/utils.go:14 | A count of occurrences is at most the length, and positive exactly for members. |
| ModuliChains.OccurrencesAppend | bfv/utils.go:12-36 | Occurrence counts add over concatenation. |
| ModuliChains.OccurrencesConcat | bfv/utils.go:12-36 | Counting over Q1, P and Q2 together counts the primes requested of a size. |
| ModuliChains.TallyCounts | bfv/utils.go:14-31 | Tallying adds each size's occurrences to its counter and its sizes to the keys. |
| ModuliChains.SizeCountsAre | bfv/utils.go:10-36 | The tally has exactly the requested sizes as keys, each mapped to the number requested. |
| ModuliChains.AssignContents | bfv/utils.go:46-49 | With enough primes per size, an assignment loop fills its chain. Entry i takes the prime at its rank among same-size entries, and each list loses exactly its consumed front. |
| ModuliChains.AssignFillsChain | bfv/utils.go:46-49 | With enough primes per size, the loop succeeds and entry i takes the prime at its rank among same-size entries. |
| ModuliChains.AssignLeftover | bfv/utils.go:46-49 | After a successful loop, each size's list is the original without its first k primes, k being how often the size was requested. |
| ModuliChains.AssignAppend | bfv/utils.go:44-62 | Running the loop over two lists in turn is running it over their concatenation. |
| ModuliChains.AssignChainsIsOneLoop | bfv/utils.go:44-62 | The Q1, P and Q2 loops together succeed exactly when one loop over all three succeeds, and they produce its result split in three. |
| ModuliChains.AssignChainsContents | bfv/utils.go:44-62 | With one prime per request of each size, no loop indexes an empty list. The chains are as `HandedOut` describes. |
| ModuliChains.AssignLengths | bfv/utils.go:45-62 | Each chain has the length of its list of sizes. |
| ModuliChains.AssignLength | bfv/utils.go:46-49 | A successful loop produces one prime per size. |
| ModuliChains.NoPositionTwice | bfv/utils.go:47-48 | A later entry asking for the same size gets a strictly larger rank. |
| ModuliChains.SameSizeEntriesDiffer | bfv/utils.go:7 | If no search returned a prime twice, no two chain entries of the same size share a prime. |
| RlweEvaluator.CheckBinary | rlwe/evaluator.go:122-150 | A nil operand fails on the first method call. Success holds exactly when all five conditions hold. The results are the largest degree and the smallest level of the three operands. |
| RlweEvaluator.BinaryNilMessageUnreachable | rlwe/evaluator.go:124-131 | The "op0, op1 and opOut cannot be nil" panic is never the outcome: the degree and level calls reach a nil operand first. |
| RlweEvaluator.BinaryFailureOrder | rlwe/evaluator.go:133-147 | With all operands present, each failure is reported exactly when its check fails and every earlier check passed, in the order plaintexts, output degree, op0 flag, op1 flag. |
| RlweEvaluator.OutputFlagIgnored | rlwe/evaluator.go:141-147 | Changing the output operand's NTT flag changes neither check's outcome. |
| RlweEvaluator.CheckUnary | rlwe/evaluator.go:154-165 | The nil check comes first, then only op0's NTT flag is checked. Success returns the larger degree and the smaller level. |
| RlweEvaluator.BuildIndex | rlwe/evaluator.go:88-103 | The index fits the listed Galois elements: nil exactly when the list is empty, otherwise keyed by exactly the listed elements, each mapped to its automorphism index. A map that is built is freshly allocated. |
| RlweEvaluator.NewEvaluator | rlwe/evaluator.go:76-106 | The index agrees with the key set. The basis extender and decomposer exist exactly when the ring P does. Every component is freshly allocated, and no two components share a reference. |
| RlweEvaluator.ShallowCopy | rlwe/evaluator.go:170-179 | The copy shares the base, decomposer, key set and index, and gets fresh buffers and a fresh basis extender copy. |
| RlweEvaluator.WithKey | rlwe/evaluator.go:183-206 | A nil key set fails. Otherwise everything except the key set and index is shared, and the index is rebuilt for the new key set. |
| RlweEvaluator.ShallowCopyKeepsIndex | rlwe/evaluator.go:170-179 | A shallow copy's index still agrees with its key set. |
| RlweEvaluator.ShallowCopyIsolated | rlwe/evaluator.go:167-169 | The copy writes to nothing the receiver holds, which is why both can run concurrently. |
| RlweEvaluator.WithKeySharesScratch | rlwe/evaluator.go:181-182 | The rekeyed evaluator writes to the receiver's buffers and basis extender, which is why both cannot run concurrently. |
| RlweEvaluator.WithKeyRebuildsIndex | rlwe/evaluator.go:183-196 | Rekeying any evaluator with a key set builds the index `NewEvaluator` builds for that key set. |
| ReductionTree.Halvings | psi/main.go:222 | The halving loop yields positive sizes from m down to 1, each half the previous one, and nothing for m = 0. |
| ReductionTree.LevelSizes | psi/main.go:220-228 | The levels are the inputs, then halvings of their count, ending at one slot. |
| ReductionTree.LevelCount | psi/main.go:220-228 | There are ⌊log2 n⌋ + 1 levels. |
| ReductionTree.HalvingsCount | psi/main.go:222 | The halving loop runs ⌊log2 m⌋ + 1 times. |
| ReductionTree.Log2Bounds | psi/main.go:222 | 2^⌊log2 n⌋ is the largest power of two not above n. |
| ReductionTree.Log2OfPow2 | psi/main.go:222 | ⌊log2 2^k⌋ = k. |
| ReductionTree.ScheduleShape | psi/main.go:263-274 | Every task of level i reads two existing slots of level i and writes slot j of level i + 1. When level i has an odd number of slots, no task reads the last one. |
| ReductionTree.ScheduleIssueOrder | psi/main.go:263-274 | Tasks are issued level by level, with levels never decreasing along the issue order (the wait-group barrier). |
| ReductionTree.ApplyTasksOrderFree | psi/main.go:233-273 | With distinct output slots, each output slot ends up holding its task's product, whatever the order. Untouched slots keep their value. The concurrent workers therefore cannot interfere. |
| ReductionTree.LevelTasksComputeNextLevel | psi/main.go:263-274 | Running one level's tasks on fresh slots yields the pairwise products of that level. |
| ReductionTree.EvalTree | psi/main.go:216-289 | No inputs fail on the index `[0]`. A single input is returned as is. |
| ReductionTree.RunIsReduce | psi/main.go:263-274 | The level loop computes the pairwise reduction of the inputs. |
| ReductionTree.ProdAppend | psi/main.go:243 | For an associative operation, the product of a concatenation is the product of the parts' products. |
| ReductionTree.BlocksOfInputs | psi/main.go:221 | The input level holds blocks of width 1. |
| ReductionTree.PairBlock | psi/main.go:269 | Combining slots 2j and 2j+1 gives the product of input block j of width 2w. |
| ReductionTree.BlockPair | psi/main.go:269 | Two neighbouring blocks multiply to the block covering both. |
| ReductionTree.NextLevelBlocks | psi/main.go:268-269 | A level of blocks of width w yields a level of blocks of width 2w. |
| ReductionTree.ReduceBlocks | psi/main.go:263-274 | Reducing a level of width-w blocks gives the product of its first w·2^⌊log2 size⌋ inputs. |
| ReductionTree.TreeCombinesPrefix | psi/main.go:216-289 | The tree as written returns the product of exactly the first 2^⌊log2 n⌋ inputs, in order. Later inputs are never read. |
| ReductionTree.Log2ExactIffPowerOfTwo | psi/main.go:220-229 | The prefix the tree combines, 2^⌊log2 n⌋ of the n inputs, is all of them exactly when n is a power of two. |
| ReductionTree.PairsProd | psi/main.go:268-269 | The first m slots of the next level hold the product of the first 2m slots. |
| ReductionTree.ProdAppendPair | psi/main.go:269 | Appending a pair multiplies the product by the pair's product. |
| ReductionTree.NextLevelCarryKeepsProd | psi/main.go:268-269 | Carrying the odd slot up keeps the product of the level. |
| ReductionTree.PairsProdAll | psi/main.go:268-269 | The next level holds the product of the paired prefix of the level. |
| ReductionTree.CarryEven | psi/main.go:268-269 | On an even level, carrying changes nothing. |
| ReductionTree.CarryOdd | psi/main.go:268-269 | On an odd level, carrying the last slot restores the full product. |
| ReductionTree.ProdSnoc | psi/main.go:269 | Appending the last slot to the product of the others gives the whole product. |
| ReductionTree.ReduceCarryIsProd | psi/main.go:263-274 | The carrying reduction is the product of the whole level. |
| ReductionTree.TreeCarryCombinesAll | psi/main.go:216-289 | The carrying tree returns the product of every input, whatever their number. |
| PsiInputs.FieldValuesMeans | psi/main.go:372-377 | A number is parsed from a record exactly when some field parses to it. |
| PsiInputs.ValuesMeans | psi/main.go:371-385 | The collected numbers are exactly those occurring in some field of some record. |
| PsiInputs.OneHotEncode | psi/main.go:350-388 | Slot k is 1 exactly when k occurs in the records, and 0 otherwise. Unparsable fields and numbers outside 0..N-1 are skipped. |
| PsiInputs.OneHotOnlyOnOccurrence | psi/main.go:371-385 | The encoding depends only on which numbers occur. |
| PsiInputs.OneHotOrderAndRepetition | psi/main.go:371-385 | Reversing the records or listing them twice does not change the encoding. |
| PsiInputs.ExpectedIsWrappedProduct | psi/main.go:305-323 | Slot k of the expected result is the product of every party's slot k, modulo 2^64. |
| PsiInputs.ExpectedIsAnd | psi/main.go:327-347 | On 0/1 inputs, slot k of the expected result is 1 exactly when every party holds item k, and 0 otherwise. |
| PsiInputs.GenInputs | psi/main.go:305-325 | Party p's slot i is 1 exactly when its draw exceeds 0.3 or i is 4. The expected result is their product. Slot 4 is always shared. Any other slot is shared exactly when every party's draw exceeds 0.3. |
| PsiInputs.GenParty | psi/main.go:314-320 | One party's input follows its draws, and is multiplied into the expected result. |
| PsiInputs.GenTPCHInputs | psi/main.go:327-347 | Each party's input is the one-hot encoding of its records. Expected slot k is 1 exactly when every party's records contain k: the set intersection. |
| PsiInputs.MultiplyAll | psi/main.go:341-343 | The slot loop multiplies the input into the expected result. |
| PsiFindings.SlotMulAssociative | psi/main.go:243-248 | The slot-wise product is associative, so the tree theorems apply to it. |
| PsiFindings.ThreePartiesDropLast | psi/main.go:171-176 | For inputs [1], [1], [0] the tree returns [1] while the expected result is [0], and the final check fails. |
| PsiFindings.ProdIsExpected | psi/main.go:327-347 | On 0/1 inputs, the product modulo any t ≥ 2 equals the expected result. |
| PsiFindings.BinaryProductsAgree | psi/main.go:319 | On 0/1 slots the products modulo t and modulo 2^64 agree. |
| PsiFindings.CarryTreeMatchesExpected | psi/main.go:171-176 | With the odd slot carried up, the decrypted result equals the expected result and the final check passes, for any number of parties. |
| PsiFindings.PowerOfTwoPartiesCorrect | psi/main.go:216-289 | With 2^k parties the tree as written returns the expected result. |

## Left out

- **I/O and the environment.** Reading the CSV file, logging, timing,
  command-line parsing and the random generator are left out. The
  records arrive already parsed: a field is `None` where `strconv.Atoi`
  fails. The uniform draws are a function parameter.
- **`strconv.Atoi` itself.** Its grammar and range checks are not
  modelled.
- **Concurrency.** The goroutines, the task channel and the wait groups
  of `evalPhase` become a sequential schedule. `ApplyTasksOrderFree`
  shows the order within a level does not matter, and `ScheduleIssueOrder`
  states the level barrier.
- **The rest of the encryption protocol.** Encryption, decryption, key
  generation, key switching and relinearisation are outside the model.
  `Mul` followed by `Relinearize` is the abstract associative operation
  of the tree. The noise-budget and level behaviour of real ciphertexts
  is not modelled.
- PsiFindings.SlotMul: a decrypted BGV multiplication is taken to be
  the slot-wise product modulo the plaintext modulus. Noise growth and
  decryption failure are not modelled, so nothing here promises that a
  real ciphertext product decrypts to it.
- **Floating point.** The CKKS scale is carried only as its 64-bit IEEE-754
  pattern.
- **External primitives.** These become parameters: `ring.IsPrime`, the
  ring-element writer and `DecodePolyNew`, `ring.AutomorphismNTTIndex`,
  `BasisExtender` and `Decomposer` construction.
- **Element write errors.** The `WriteTo` error path of `MarshalBinary`
  is not modelled. The buffer is allocated at exactly
  `GetDataLen(true)` bytes, so an element writer honouring its own
  length never fails.
- NTTPrimes.GenerateNTTPrimes: the Go loop need not terminate (it never
  does for `levels == 0`). The model bounds it by `fuel` rounds and
  reports `OutOfFuel`, so searches longer than the fuel are not modelled.
- ModuliChains.GenModuli: the map iteration order of the searches is a
  nondeterministic choice. A search that runs out of fuel is reported as
  `SearchFailed`, where the Go code would loop forever.
- RlweEvaluator.CheckUnary: `None` models only a nil interface value,
  which the nil test at rlwe/evaluator.go:156-158 catches. A typed nil
  pointer such as `(*Ciphertext)(nil)` passes that test and panics with
  a nil dereference instead: at line 160 when it is `op0`, at line 164
  when it is `opOut`. That input state is not modelled.
- CiphertextCodec.Unmarshal: after a failure at element k, the Go code
  leaves slot k as a freshly allocated empty polynomial and the later
  slots nil. The model fills all of them with the codec's empty element,
  so the failure state does not tell nil from freshly allocated slots.
- RlweEvaluator.ShallowCopy: `BasisExtender.ShallowCopy()` on a nil
  extender is taken to return nil, since its body is not part of this
  model.
- PsiInputs.MultiplyInto: requires the input to be no longer than the
  expected result. A longer input makes the Go code panic with an index
  out of range, and neither generator produces one.
- **Other files.** rlwe/utils.go, utils/structs/codec.go and
  psi_experiments.py are not part of this model.
- **Findings kept at the as-written level.** The corrected search
  (`NTTPrimes.PrimesAmongOnce`) and the corrected tree
  (`ReductionTree.EvalTreeCarry`) are proved correct alongside the
  as-written ones. The operations `GenerateNTTPrimes`, `GenModuli` and
  `EvalTree` keep modelling the code as written.

## Findings

| source | as written | input that shows it | evidently intended | confidence | as-written member | corrected member |
|---|---|---|---|---|---|---|
| psi/main.go:220-229 | The levels halve rounding down, so with an odd number of ciphertexts in a level the last one is never read. The result is the product of only the first 2^⌊log2 N⌋ parties. | 3 parties with one-slot inputs [1], [1], [0]: the tree returns [1], the expected result is [0], and the check at lines 171-176 reports "incorrect". | The result is the product of every party's input, as `genInputs` and `genTPCHInputs` compute it. | medium, not executed | PsiFindings.ThreePartiesDropLast | PsiFindings.CarryTreeMatchesExpected |
| bfv/utils.go:85-104 | `x` and `y` both start at 2^logQ + 1, so the first round tests that value twice and collects it twice when it is prime. | logQ = 16, levels = 2, any logN: 65537 is prime and the search returns [65537, 65537], against the promise at line 7 that all primes are different. | Each value is tested once, for example by skipping `x` while it equals `y`. | medium, not executed | NTTPrimes.FermatPrimeReturnedTwice | NTTPrimes.PrimesAmongOnceDistinct |

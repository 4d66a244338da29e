# Verification of the prover's algebra, its protocol state machines and its compiler

This project models, in Dafny, the parts of the zkVM whose correctness is hard to see from the
code: fast algebra that must equal a simple definition, prover and verifier loops that must stay in
step, and a compiler that must keep the meaning of its input. Hashes, permutations, constraint
polynomials and generators of randomness are arbitrary functions throughout, so every statement
holds for all of them. `dafny verify dfyconfig.toml` checks everything.

The model keeps the form of the source. What the Rust code updates in place is a class or an array
with a method and loop invariants (`EvalsDft`, `AirSumcheckSession`, `Poseidon1KoalaBear16`,
`Challenger`, `ProverState`, `VerifierState`, `SumcheckSingle`, `Compiler`, the coefficient, weight
and section buffers); what it computes by recursion is a function. Each method is tied to a
specification function, and the lemmas say what that function means.

How the modules hang together:

- **Field and multilinear algebra.** `Field`, `Prime`, `Fermat`, `Arith`, `Multilinear`,
  `Sequences`: the prime field of order 0x7f000001 (its primality and Fermat's theorem are proved),
  multilinear extension, equality polynomial, folding, big-endian bits.
- **Encoding.** `DftSpec`, `DftNetwork`, `Encoding`: the transform on hypercube evaluations with its
  grouped layers and twiddle cache, and the fact that opening a codeword and folding commute.
- **AIR sumcheck.** `StorageLayout`, `AirAccumulation`, `AirRounds`, `AirSession`, `AirBatch`,
  `AirRun`: columns stored chunk-bit-reversed and truncated at the padding, one session per table,
  and whole runs in which tables of different heights join late; the round checks, and what a run
  accepted for a wrong sum must have met.
- **Poseidon.** `LinearAlgebra`, `Convolution`, `MdsLayer`, `SparseRounds`, `Poseidon`: the optimised
  permutation against the plain one. `MdsRegular`, `PoseidonPermutes`: that it permutes, with the
  S-box inverted and the shipped matrix shown to be regular.
- **Transcript.** `MerklePruning`, `MerkleOpening`, `Transcript`, `FiatShamir`: pruned Merkle paths,
  what an accepted opening fixes, and a verifier that stays in step with the prover's sponge while
  coefficients are left out of the proof. `TranscriptLaws`: which cells a sample consists of, and that
  the sponge's capacity fixes everything absorbed, up to collisions.
- **WHIR constraints and layouts.** `WhirConstraints`, `CombinedClaims`, `MisalignedClaims`,
  `WhirRounds`, `Sections`, `Logup`, `LogupParts`, `LogupBytecode`, `LogupVerify`, `LogupCheck`,
  `StackedPcs`, `StackedStatements`: dense vectors of the prover against closed forms of the verifier,
  and what the combined claims and the listed statements say about the columns.
- **Lookups that balance.** `LogupSums`, `LogupTerms`, `LogupBalance`, `AccessCounts`: why the
  sections of an honest execution add up to zero.
- **Polynomials.** `Interpolation`, `Coefficients`, `NextPolynomial`.
- **Signatures.** `Wots`, `Xmss`, `XmssBinding` (what accepted signatures fix, up to collisions of
  the compression), `Partition`.
- **Compiler.** `SimpleLang` (what lines mean), `IntermediateCode` and `LowCode` (the machines),
  `CompileLines` and `Compiler` (the translation, as a function and as the object with its fields),
  `CompileGrowth`, `CompileScopes`, `CompileOffsets`, `CompileFacts`, `SlotRelation`,
  `CompileCorrect`, `CompileSimulation`, `Coalescing`, `ReturnSlots`, `Hoisting`, `Redeclaration`,
  `DeadStores`, `DroppedStores`, `StoredOnce`, `CompileFunction`, `FunctionMeaning`,
  `CompilerCases`, `EmitBlocks`, `FinalLayout`, `CompileProgram`.

## Findings

Properties one would expect of the code and that it does not have on all inputs. Each comes with an
input and with the condition under which the property holds.

- **A return that names one variable twice loses a value.** `compile_function_ret` skips the copy of
  a coalesced variable in every slot, not only in its own. For `return a, a` the second return slot
  stays unwritten (`ReturnSlots.TwiceLosesAValue`). A return is right if and only if every coalesced
  variable in it stands in its own slot (`ReturnSlots.ReturnExactlyWhenOwn`). The comment above
  `collect_return_coalescings` (b_compile_intermediate.rs:902-904) says that a variable returned in
  two slots is not coalesced; the code gives it the first slot.
- **A coalesced variable declared twice on one path gets stuck.** It has one write-once cell for the
  whole function. `CompilerCases.RedeclaredSticks` is a function that returns 2 and whose compiled
  code breaks. Declaring and assigning such a variable again goes well if and only if the new value
  is the old one (`Redeclaration.RedeclaredSticksIff`); `FunctionMeaning.IntroducedOnce` rules the
  situation out on the lines alone.
- **Dead stores are dropped even when they can fail or solve for something.** An assignment to a
  variable that nothing reads leaves no code. `x = 1 / a; return 7` at a = 0 is stuck on its first
  line, while the compiled code returns 7 (`CompilerCases.UnreadReturns`). With x an argument, unset
  a and `x = a + 1; return a`, the lines return 4 for x = 5 while the compiled code breaks
  (`CompilerCases.BackwardBreaks`). The compiled code always does what the body without its dead
  stores does (`FunctionMeaning.CompiledFunctionRuns`), and breaks if and only if that body is stuck
  (`BreaksIffLiveStuck`). One store may be skipped if and only if it settles
  (`DroppedStores.StoreSettlesIff`). If no dead variable is an argument and each is assigned at most once, a run that
  returns is always right, and the stores settle if and only if the run does not stick at one
  (`DeadStoresSettleIff`).
- **An empty dense statement shifts the prover's powers of gamma.** The dense branch of
  `combine_statement` starts its list of powers with one entry even without claims, so the power
  advances by one, which the verifier's count of claims does not
  (`WhirConstraints.EmptyStatementDisagrees`). The two sides use the same powers if and only if no
  such statement stands before a claim (`AlignedIffSameExponents`), then they agree at every point
  (`CombinationAgrees`), and otherwise some claimed values and some gamma tell them apart
  (`MisalignedClaims.MisalignedSumsDiffer`).
- **One child whose key also signs directly is assigned but refused.** With a single child the
  program allows no duplicates, while the host hands one out (`Partition.SingleChildOverlap`).
  `Partition.HostAcceptedIff` gives, in terms of the raw keys and the children, exactly when what
  the host assigns is accepted. The host also lets through 2^15 duplicates and children of 2^15
  keys, where the program asks for fewer than 2^15 (type_1_aggregation.rs:316, main.py:130, 185).
- **`expand_from_univariate` is documented the other way round.** Its comment (point.rs:38-50) puts
  the highest power first; the code pushes y first. The model follows the code.

## Model

| member | source | states |
|---|---|---|
| `DftNetwork.EvalsDft.DftBatchByEvals` | crates/whir/src/dft.rs:79-145 | in place, whatever the cache held and whatever the layer grouping: row i, column c of the result is the multilinear extension of column c at (g^i, g^(2i), g^(4i), ...), g the generator of order 2^n |
| `DftNetwork.EvalsDft.UpdateTwiddles` | crates/whir/src/dft.rs:64-72 | the cached twiddle table only grows, stays right at every size it serves, and is untouched when already large enough |
| `DftNetwork.EvalsDft.RootsOfUnityTable` | crates/whir/src/dft.rs:52-62 | table i of log n lists holds the powers of the generator of order 2^(log n - i), taken from one list of powers by strides |
| `DftNetwork.AllLayers` | crates/whir/src/dft.rs:98-144 | chunked small layers, then 0, 1 or 2 extra layers, then triples: together exactly the transform, for every number of layers and every cut between chunked and global ones |
| `DftNetwork.ParInitialLayers` | crates/whir/src/dft.rs:166-179 | every chunk of 2^k rows is replaced by its own transform |
| `DftNetwork.DftLayer` | crates/whir/src/dft.rs:181-221 | one butterfly layer on the rows of a range, the first row of each block taking the twiddle-free butterfly |
| `DftNetwork.DftLayerParDouble` | crates/whir/src/dft.rs:223-284 | the fused pass equals two successive single layers, for every number of whole blocks |
| `DftNetwork.DftLayerParTriple` | crates/whir/src/dft.rs:286-348 | the fused pass equals three successive single layers |
| `DftNetwork.ExtraLayers` | crates/whir/src/dft.rs:350-381 | the layers left over by the grouping in threes take blocks of 2^l rows to transformed blocks of 2^(l+1) or 2^(l+2) |
| `DftNetwork.EstimateNumRowsInL1` | crates/whir/src/dft.rs:457-460 | the chunk height is the least power of two that reaches the workload over the width, capped by the matrix height |
| `DftSpec.DftEvaluates` | crates/whir/src/dft.rs:79-145 | the layered transform evaluates: by induction on the layers, entry i of a transformed block is the multilinear extension at the successive squares of g^i |
| `DftSpec.LayerJoinsBlocks` | crates/whir/src/dft.rs:181-197 | a layer joins two transformed blocks into one transformed block of twice the size |
| `Prime.GeneratorSquare` | crates/backend/koala-bear/src/koala_bear.rs:46-60 | from the listed constants: each two-adic generator is the square of the next one |
| `MisalignedClaims.GeneratorOrder` | crates/backend/koala-bear/src/koala_bear.rs:46-60 | no smaller positive power of the b-th generator is 1: its order is 2^b |
| `Prime.GeneratorOfThree` | crates/backend/koala-bear/src/koala_bear.rs:46-60 | the generator of order 2^24 is 3^127, 127 the odd part of P - 1 |
| `Prime.PIsPrime` | crates/backend/koala-bear/src/koala_bear.rs:22 | 0x7f000001 is prime; inverses and the absence of zero divisors rest on it |
| `Encoding.ReorderAndDft` | crates/whir/src/utils.rs:69-150 | the prepared matrix, transformed with a shared twiddle cache, is the codeword |
| `Encoding.CodewordEntry` | crates/whir/src/utils.rs:69-150 | row i, column c of the codeword is block c of the evaluations at the i-th domain point |
| `Encoding.EncodingCommutesWithFolding` | crates/whir/src/utils.rs:128-150 | opening row i and folding it with the folding randomness gives entry i of the codeword of the folded polynomial: the property a STIR query relies on, for every rate, folding factor, width and domain point |
| `Coefficients.EvalsToCoeffs` | crates/backend/poly/src/evals.rs:44-67 | in place: the result, read as multilinear or as univariate coefficients, evaluates to the extension of the input at the reversed point and at (a, a^2, a^4, ...) |
| `Coefficients.BitReversePermutation` | crates/backend/poly/src/evals.rs:58-67 | in-place swapping ends with every entry at the index with its bits reversed |
| `Coefficients.CoefficientsMeaning` | crates/whir/src/verify.rs:198-202 | what the last coefficients mean to the verifier, in both ways it reads them |
| `Coefficients.DifferencesEvaluate` | crates/backend/poly/src/evals.rs:44-82 | repeated differences are the multilinear coefficients of the values |
| `Multilinear.MleIsDot` | crates/backend/poly/src/evals.rs:142-300 | recursive evaluation, one variable after the other, is the sum of eq(point, i) * v[i] |
| `Multilinear.MleAtBits` | crates/backend/poly/src/utils.rs:380-400 | at the big-endian bits of i the extension takes the value v[i] |
| `Multilinear.BitsAt` | crates/backend/poly/src/utils.rs:380-400 | bit j of the big-endian form by shifting and masking |
| `Multilinear.MleFoldMany` | crates/backend/poly/src/utils.rs:94-115 | folding variable after variable is evaluating at the folding randomness first |
| `WhirConstraints.EqPolyOutside` | crates/backend/poly/src/point.rs:77-91 | the loop computes the equality polynomial |
| `StorageLayout.FoldMultilinearAtBit` | crates/backend/poly/src/utils.rs:117-159 | folding at a storage bit, with the separate code for bit 0, gives the pairwise line through the two cells that differ in that bit |
| `StorageLayout.MleFoldedAt` | crates/backend/poly/src/utils.rs:117-159 | folding storage bit b fixes exactly the coordinate that reads that bit |
| `StorageLayout.ChunkBitReverse` | crates/sub_protocols/src/air_sumcheck.rs:67-126 | the copy loop reverses the low index bits of every chunk, through a reversal of a whole machine word |
| `StorageLayout.MleChunkReversed` | crates/sub_protocols/src/air_sumcheck.rs:185-193 | the stored column at the permuted point is the original column at the original point |
| `StorageLayout.PermutedInserted` | crates/sub_protocols/src/air_sumcheck.rs:134-157 | the coordinate that round r must bind sits at the storage bit the schedule names |
| `StorageLayout.ActivePlusPadding` | crates/sub_protocols/src/air_sumcheck.rs:195-200 | a weighted sum over the active entries plus the padding value times the closed form of the padding is the sum over all entries |
| `AirAccumulation.EvaluatePairSplit` | crates/sub_protocols/src/air_sumcheck.rs:403-558 | skipping low-degree constraints at the last nodes and interpolating them there gives the full constraint at every node |
| `AirAccumulation.ComputeRawPoly` | crates/sub_protocols/src/air_sumcheck.rs:311-401 | both ways of summing (all constraints at every node, or split by degree) give the weighted sum over the active pairs at 0, 2, 3, ... |
| `AirAccumulation.LookupIsEq` | crates/sub_protocols/src/air_sumcheck.rs:311-401 | every lookup in the split equality table is the weight of its row |
| `AirRounds.StoredStep` | crates/sub_protocols/src/air_sumcheck.rs:268-287 | folding the stored columns at the scheduled bit keeps the invariant that they are the table with the challenges bound |
| `AirRounds.RoundPolynomial` | crates/sub_protocols/src/air_sumcheck.rs:225-266 | the round sums, as a function of the folded coordinate, are a polynomial with at most degree + 1 coefficients |
| `AirSession.AirSumcheckSession.constructor` | crates/sub_protocols/src/air_sumcheck.rs:67-126 | a new session stores the columns chunk-reversed, keeps only the non-padding rows active, and is honest exactly when its sum is the true claim |
| `AirSession.AirSumcheckSession.PaddingEqSum` | crates/sub_protocols/src/air_sumcheck.rs:195-200 | the total weight of the padding pairs, read off in closed form |
| `AirSession.AirSumcheckSession.ComputeBareRoundPoly` | crates/sub_protocols/src/air_sumcheck.rs:225-266 | the polynomial sent always matches the running sum at 0 and 1, and on an honest session it is the true round polynomial at every point |
| `AirSession.AirSumcheckSession.ProcessChallenge` | crates/sub_protocols/src/air_sumcheck.rs:268-287 | the session stays well formed, binds one more coordinate, its new sum is the weighted polynomial at the challenge, and honesty is kept |
| `AirSession.AirSumcheckSession.FinalColumnEvals` | crates/sub_protocols/src/air_sumcheck.rs:289-292 | after the last round the columns have collapsed to their evaluations at the bound point, and an honest sum is the constraint there times the equality weight |
| `AirBatch.ExpandBareToFull` | crates/backend/fiat-shamir/src/utils.rs:30-41 | multiplying by the equality factor: the full polynomial is the bare one times (1 - alpha)(1 - x) + alpha x |
| `AirBatch.SumcheckVerify` | crates/backend/sumcheck/src/verify.rs:5-27 | accepts exactly when the first polynomial adds up to the claimed sum at 0 and 1 and every other one to the value of the one before at its challenge; returns the last polynomial's value at the last challenge |
| `AirBatch.WrongSumMeets` | crates/backend/sumcheck/src/verify.rs:5-27 | an accepted run for a wrong sum that ends with the right target sent, in some round, a polynomial that differs from the right one and agrees with it at the challenge |
| `AirBatch.WaitingLine` | crates/sub_protocols/src/air_sumcheck.rs:636-681 | a table that has not joined yet contributes a line whose values at 0 and 1 add up to its claim |
| `AirRun.ProveBatchedAirSumcheck` | crates/sub_protocols/src/air_sumcheck.rs:636-681 | over a whole run on tables of different heights: every combined polynomial passes the round check, every table ends bound at the point the verifier gives it, and with honest claims the last target is the verifier's sum of contributions |
| `AirRun.CombinedSum` | crates/sub_protocols/src/air_sumcheck.rs:636-681 | in every round the combined polynomial sums to the weighted sum of the sessions' claims |
| `AirRun.VerifierFinalValue` | crates/lean_prover/src/verify_execution.rs:125-144 | the verifier's loop over the tables computes that sum of contributions |
| `AirRun.FinalTarget` | crates/lean_prover/src/verify_execution.rs:242-257 | back-loading: the weights the prover gathered round by round are the equality weight at the table's own point times the product of the earlier challenges |
| `Poseidon.PermuteWithTable` | crates/backend/koala-bear/src/poseidon1_koalabear_16.rs:577-680 | for every state and every table of round constants: precomputation succeeds exactly when the inverses it needs exist, and then the optimised permutation is the plain one (full rounds, dense partial rounds, full rounds) |
| `Poseidon.Poseidon1KoalaBear16.ApplyPartialRounds` | crates/backend/koala-bear/src/poseidon1_koalabear_16.rs:873-913 | the sparse partial rounds after the transition matrix are the dense partial rounds |
| `Poseidon.Poseidon1KoalaBear16.Permute` | crates/backend/koala-bear/src/poseidon1_koalabear_16.rs:873-913 | the whole permutation, in place, against the plain definition |
| `Poseidon.Precompute` | crates/backend/koala-bear/src/poseidon1_koalabear_16.rs:577-680 | fails exactly when an inversion does |
| `PoseidonPermutes.CubeIsPow` | crates/backend/koala-bear/src/poseidon1_koalabear_16.rs:896-921 | the S-box is the third power |
| `PoseidonPermutes.CubeInverts` | crates/backend/koala-bear/src/poseidon1_koalabear_16.rs:896-921 | the power 1420470955 undoes it, by Fermat's theorem and 3 * 1420470955 = 1 + 2 (P - 1) |
| `PoseidonPermutes.PermutationInjective` | crates/backend/koala-bear/src/poseidon1_koalabear_16.rs:873-925 | whatever the round constants are, two states with the same image are equal |
| `PoseidonPermutes.PermutationOnto` | crates/backend/koala-bear/src/poseidon1_koalabear_16.rs:873-925 | given an inverse of the dense matrix, every state is the image of one |
| `PoseidonPermutes.RoundConstantsCount` | crates/backend/koala-bear/src/poseidon1_koalabear_16.rs:873-925 | changing one row of the table of round constants changes the image of every state |
| `MdsRegular.MdsIsRegular` | crates/backend/koala-bear/src/poseidon1_koalabear_16.rs:275-289 | the shipped circulant matrix sends no nonzero vector to zero |
| `Fermat.FermatLittle` | crates/backend/koala-bear/src/koala_bear.rs:22 | a nonzero residue to the power P - 1 is 1: the nonzero residues fall into orbits of the same length |
| `SparseRounds.EquivalentRoundConstants` | crates/backend/koala-bear/src/poseidon1_koalabear_16.rs:460-480 | moving all but the first constant of every partial round to the front changes nothing |
| `SparseRounds.ComputeEquivalentMatrices` | crates/backend/koala-bear/src/poseidon1_koalabear_16.rs:399-458 | None exactly when a step meets a singular submatrix; otherwise the dense rounds factor into one matrix and sparse steps |
| `SparseRounds.FactorStep` | crates/backend/koala-bear/src/poseidon1_koalabear_16.rs:399-458 | one factorisation step: the matrix is a sparse step after its bordered part |
| `SparseRounds.BorderCommutes` | crates/backend/koala-bear/src/poseidon1_koalabear_16.rs:399-458 | the bordered part commutes with the S-box on the first entry, so it may move in front of it |
| `LinearAlgebra.MatrixInverse` | crates/backend/koala-bear/src/poseidon1_koalabear_16.rs:320-397 | Gauss-Jordan elimination: an inverse, or None exactly when the matrix sends some nonzero vector to zero |
| `LinearAlgebra.SingularHasNoInverse` | crates/backend/koala-bear/src/poseidon1_koalabear_16.rs:320-356 | in that case there is none |
| `MdsLayer.MdsCirc16` | crates/backend/koala-bear/src/poseidon1_koalabear_16.rs:275-289 | the recursive convolution is the multiplication by the dense circulant matrix |
| `MdsLayer.CyclicConv` | crates/backend/koala-bear/src/poseidon1_koalabear_16.rs:160-216 | by splitting into sums and differences of halves: the product modulo x^n - 1 for every size 4 * 2^k |
| `MdsLayer.NegacyclicConv` | crates/backend/koala-bear/src/poseidon1_koalabear_16.rs:178-258 | Karatsuba on even and odd parts with in-place interleaving: the product modulo x^n + 1 for every size 4 * 2^k |
| `Convolution.HalvedProduct` | crates/backend/koala-bear/src/poseidon1_koalabear_16.rs:190-216 | reducing modulo x^h - d is compatible with products modulo x^n - d^2 |
| `Convolution.ConvParts` | crates/backend/koala-bear/src/poseidon1_koalabear_16.rs:218-258 | the even and the odd part of a product from those of its factors |
| `MerklePruning.PruneThenRestore` | crates/backend/fiat-shamir/src/merkle_pruning.rs:19-175 | restoring what was pruned gives the same paths in the same order with their repetitions and trailing zeros; None exactly when the height or the number of trailing zeros is over its limit |
| `MerklePruning.Prune` | crates/backend/fiat-shamir/src/merkle_pruning.rs:19-84 | sorting, dropping repetitions, dropping common trailing zeros and keeping each path only up to its meeting levels with its neighbours |
| `MerklePruning.PrunedKeeps` | crates/backend/fiat-shamir/src/merkle_pruning.rs:49-66 | a pruned path keeps, from the leaf upwards, exactly the siblings of the levels where the leaf before runs through another node and the next one does not run through the sibling |
| `MerklePruning.Restore` | crates/backend/fiat-shamir/src/merkle_pruning.rs:87-175 | both passes rebuild every sibling, from a neighbour's subtree or from the stored ones; None exactly at the limits |
| `MerklePruning.LcaIsLeast` | crates/backend/fiat-shamir/src/merkle_pruning.rs:14-16 | lca_level is the least level from which on the two positions coincide |
| `MerklePruning.Meeting` | crates/backend/fiat-shamir/src/merkle_pruning.rs:14-84 | just below their meeting level two paths are each other's sibling, from it on all their siblings coincide |
| `MerklePruning.ParentNode` | crates/backend/symetric/src/merkle.rs:107-116 | one level up a path: the node and its sibling combined, the node on the left exactly when the shifted index is even |
| `MerkleOpening.MerkleVerify` | crates/backend/symetric/src/merkle.rs:92-119 | accepts exactly when there are as many siblings as levels and climbing from the leaf digest, on the side each index bit says, ends at the root |
| `MerkleOpening.TreeOpens` | crates/backend/symetric/src/merkle.rs:92-119 | every path of a tree, and so every restored one, opens its root |
| `MerkleOpening.OpeningsBind` | crates/backend/symetric/src/merkle.rs:92-119 | two accepted openings of one root at one index have the same values and the same siblings, or the leaf hash or the compression collides on arguments met on the way |
| `Transcript.VerifierFollows` | crates/backend/fiat-shamir/src/verifier.rs:52-197 | a verifier reading the prover's transcript returns the same values at every operation and its sponge is in the prover's state after every one, for every sequence of operations the prover can run on |
| `Transcript.StepInSync` | crates/backend/fiat-shamir/src/verifier.rs:131-197 | the same for one operation from any state in step |
| `Transcript.FinalReader` | crates/backend/fiat-shamir/src/verifier.rs:45-68 | at the end it has read exactly what was sent and recorded exactly what was absorbed |
| `Transcript.RawFollows` | crates/backend/fiat-shamir/src/verifier.rs:45-58 | a reader of the raw transcript alone, in blocks of RATE, goes through the same sponge states |
| `Transcript.PaddingIsInvisible` | crates/backend/fiat-shamir/src/challenger.rs:33-39 | absorbing the zero-padded scalars is absorbing the scalars |
| `Transcript.C0Recovered` | crates/backend/fiat-shamir/src/verifier.rs:160-196 | the omitted constant coefficient is recovered from an honest sum |
| `Transcript.H0Recovered` | crates/backend/fiat-shamir/src/verifier.rs:160-196 | the omitted coefficient of the bare polynomial is recovered through the expansion by the equality factor |
| `Transcript.ExpandedSum` | crates/backend/fiat-shamir/src/utils.rs:30-41 | the coefficients of the expanded polynomial add up to alpha times those of the bare one |
| `Transcript.PackFlatten` | crates/backend/fiat-shamir/src/utils.rs:8-28 | packing undoes flattening; FlattenPack is the other direction |
| `Transcript.FlattenPack` | crates/backend/fiat-shamir/src/utils.rs:8-28 | flattening undoes packing of whole elements |
| `FiatShamir.Challenger.ObserveMany` | crates/backend/fiat-shamir/src/challenger.rs:33-39 | the sponge absorbs chunk by chunk, the last one padded with zeros |
| `FiatShamir.Challenger.Observe` | crates/backend/fiat-shamir/src/challenger.rs:27-31 | the rate cells are overwritten, the capacity kept, and the whole is permuted |
| `FiatShamir.Challenger.SampleMany` | crates/backend/fiat-shamir/src/challenger.rs:52-64 | one rate block at a time with a permutation between and after them |
| `FiatShamir.Challenger.SampleInRange` | crates/backend/fiat-shamir/src/challenger.rs:66-76 | result k is the low bits of cell k % RATE of the rate after k / RATE further permutations with a cleared rate |
| `FiatShamir.ProverState.SampleVec` | crates/backend/fiat-shamir/src/utils.rs:43-58 | what is sampled, scalar by scalar, as a cell of the rate after so many permutations |
| `FiatShamir.ProverState.SampleInRange` | crates/backend/fiat-shamir/src/prover.rs:60-67 | the same for query indices, masked to the low bits |
| `FiatShamir.VerifierState.SampleVec` | crates/backend/fiat-shamir/src/verifier.rs:97-99 | the verifier's samples: the same cells of its own sponge |
| `FiatShamir.VerifierState.SampleInRange` | crates/backend/fiat-shamir/src/verifier.rs:100-103 | the same for query indices |
| `TranscriptLaws.LearnedCells` | crates/backend/fiat-shamir/src/challenger.rs:52-76 | both kinds of samples, on both sides, cell by cell |
| `TranscriptLaws.SampledCells` | crates/backend/fiat-shamir/src/challenger.rs:52-76 | the first n sampled scalars are the rate cells of the successive states, in order |
| `TranscriptLaws.SamplePrefix` | crates/backend/fiat-shamir/src/challenger.rs:52-76 | a shorter sample from the same sponge is a prefix of a longer one |
| `TranscriptLaws.FlattenCell` | crates/backend/fiat-shamir/src/utils.rs:8-28 | coordinate j of element i is scalar i * dim + j |
| `TranscriptLaws.StepBinds` | crates/backend/fiat-shamir/src/challenger.rs:27-64 | two operations of one shape that lead to the same capacity started from the same capacity and absorbed the same content, or the permutation collides |
| `TranscriptLaws.RunsBind` | crates/backend/fiat-shamir/src/challenger.rs:27-64 | the same for whole runs: equal capacities at the end mean equal contents of every operation, or a collision |
| `FiatShamir.ProverState.AddSumcheckPolynomial` | crates/backend/fiat-shamir/src/prover.rs:100-114 | everything is absorbed, one coefficient is not sent |
| `FiatShamir.ProverState.PowGrinding` | crates/backend/fiat-shamir/src/prover.rs:120-178 | the found nonce is sent and absorbed, and the prover can go on; with 0 bits nothing happens |
| `FiatShamir.VerifierState.ReadTranscript` | crates/backend/fiat-shamir/src/verifier.rs:60-68 | the next n scalars, or ExceededTranscript with the offset unchanged |
| `FiatShamir.VerifierState.NextSumcheckPolynomial` | crates/backend/fiat-shamir/src/verifier.rs:160-196 | reads, recovers the omitted coefficient and absorbs, in both forms |
| `FiatShamir.VerifierState.CheckPowGrinding` | crates/backend/fiat-shamir/src/verifier.rs:146-158 | reads the nonce, absorbs it with zeros behind it, and accepts exactly when the first rate cell is divisible by 2^bits |
| `FiatShamir.VerifierState.NextMerkleOpening` | crates/backend/fiat-shamir/src/verifier.rs:137-144 | openings are handed out in order, ExceededTranscript behind the last |
| `FiatShamir.NewVerifier` | crates/backend/fiat-shamir/src/verifier.rs:28-43 | the constructor succeeds exactly when every hinted set is within the limits, and holds the prover's openings in order |
| `WhirConstraints.CombineStatement` | crates/whir/src/open.rs:518-584 | dense and sparse branch, blocks visited in selector order, powers in listed order: the weights and the sum of the prover; for aligned statements they are the verifier's at every point |
| `WhirConstraints.CombinationAgrees` | crates/whir/src/verify.rs:209-227 | for aligned statements the prover's weight polynomial is the verifier's closed form at every point, and the sums agree |
| `WhirConstraints.CombineConstraints` | crates/whir/src/verify.rs:209-227 | one power of gamma for every claim, in listed order, and the claimed sum they weigh |
| `CombinedClaims.CombinedError` | crates/whir/src/open.rs:518-584 | for every vector: what the combined claim misses is a polynomial in gamma whose coefficients are what the single claims miss, in listed order |
| `CombinedClaims.TrueCombines` | crates/whir/src/open.rs:518-584 | claims that are true of a vector combine to one that is, for every gamma |
| `CombinedClaims.CombinedForces` | crates/whir/src/open.rs:518-584 | if the combined claim holds for as many different gammas as there are claims and statements, every claim is true |
| `WhirConstraints.AlignedIffSameExponents` | crates/whir/src/open.rs:518-584 | the two sides give every claim the same power of gamma if and only if no empty dense statement stands before a claim |
| `WhirConstraints.EmptyStatementDisagrees` | crates/whir/src/open.rs:545-560 | an input on which they do not: an empty dense statement in front of one claim |
| `WhirConstraints.SameAdditions` | crates/whir/src/open.rs:545-584 | two buffers that received the same additions are equal in whatever order blocks were visited |
| `WhirConstraints.SelectorStep` | crates/whir/src/verify.rs:346-384 | placing values in a block multiplies their extension by the selector bits' equality weight |
| `MisalignedClaims.MisalignedSumsDiffer` | crates/whir/src/open.rs:518-584 | for every list of statements that is not aligned, some claimed values and some gamma make the two sums differ |
| `WhirRounds.SumcheckSingle.AddNewEquality` | crates/whir/src/open.rs:337-382 | new equality constraints add their weights and their claims with successive powers, in place |
| `WhirRounds.RoundsAgree` | crates/whir/src/verify.rs:346-384 | over all rounds: folding the prover's weights and adding each round's constraints ends at what the verifier computes from the constraints alone |
| `WhirRounds.EvalConstraintsPoly` | crates/whir/src/verify.rs:346-384 | the verifier's loop over rounds, reading its powers from one list, is the prover's last weight |
| `WhirRounds.LastRoundAdds` | crates/whir/src/verify.rs:346-384 | every round adds its combined weight at the coordinates that are left after the foldings before it |
| `WhirRounds.VerifyConstraintCoeffs` | crates/whir/src/verify.rs:387-403 | accepts exactly when the univariate reading of the coefficients gives every claimed value |
| `WhirRounds.FinalConstraintMeaning` | crates/whir/src/verify.rs:387-403 | on the honest coefficients that is the folded polynomial at the expanded point |
| `Interpolation.LagrangeInterpolation` | crates/backend/poly/src/dense_poly.rs:33-109 | None exactly when two nodes coincide; otherwise as many coefficients as points, through all points, and the only such polynomial |
| `Interpolation.LagrangeBasisEvals` | crates/backend/poly/src/dense_poly.rs:111-131 | entry (t, i) is the i-th basis polynomial at target t |
| `Interpolation.BasisReproduces` | crates/backend/poly/src/dense_poly.rs:111-131 | combining those values reproduces every polynomial of fitting length at every target |
| `Interpolation.LowDegreeUnique` | crates/backend/poly/src/dense_poly.rs:33-109 | polynomials of fitting length that agree at all nodes agree everywhere |
| `Interpolation.MulPolynomials` | crates/backend/poly/src/dense_poly.rs:170-188 | the double loop gives the product at every point |
| `Interpolation.AddPolynomials` | crates/backend/poly/src/dense_poly.rs:133-168 | the sum at every point, whichever argument is longer |
| `NextPolynomial.NextOnBits` | crates/backend/poly/src/next_mle.rs:9-33 | on the hypercube: 1 exactly when the second index follows the first, the last index following itself |
| `NextPolynomial.NextMle` | crates/backend/poly/src/next_mle.rs:9-33 | the loops over suffix and prefix products compute that polynomial |
| `NextPolynomial.FoldedEvaluates` | crates/backend/poly/src/next_mle.rs:35-54 | the folded vector, as a multilinear polynomial, is the next polynomial with its first argument fixed |
| `NextPolynomial.MatrixNextMleFolded` | crates/backend/poly/src/next_mle.rs:35-54 | the strided writes produce that vector |
| `NextPolynomial.ShiftedColumn` | crates/sub_protocols/src/air_sumcheck.rs:683-694 | evaluating a shifted column is the inner product of the column with the folded vector |
| `Xmss.SignThenVerify` | crates/xmss/src/xmss.rs:73-236 | for every seed, range, slot in it, message and randomness: key generation succeeds, signing succeeds exactly when the randomness encodes the message, and then verification accepts |
| `Xmss.XmssKeyGen` | crates/xmss/src/xmss.rs:73-145 | rejects exactly the inverted ranges; the stored levels are the tree's nodes with filler outside the range |
| `Xmss.XmssSignWithRandomness` | crates/xmss/src/xmss.rs:157-184 | which error or signature, and what the signature holds |
| `Xmss.XmssVerify` | crates/xmss/src/xmss.rs:201-236 | accepts exactly when there are chain ends to which the tips lead from the digits of the message's encoding, and whose leaf climbs along LOG_LIFETIME siblings to the root |
| `Xmss.PathReachesNode` | crates/xmss/src/xmss.rs:157-236 | climbing from the slot's leaf along its siblings meets the stored node on every level |
| `Wots.RecoverPublicKey` | crates/xmss/src/wots.rs:73-92 | each tip is walked, from its digit of the encoding, to the end of its chain; None exactly on an unusable encoding |
| `Wots.ChainsCompose` | crates/xmss/src/wots.rs:117-134 | a chain walked in two legs is the chain walked at once |
| `Wots.ValidEncodingsIncomparable` | crates/xmss/src/wots.rs:152-199 | of two different valid encodings each has a position where it is larger: no signature can be advanced into another one |
| `Wots.TweaksDiffer` | crates/xmss/src/lib.rs:43-53 | tweaks of different purpose, position or index differ |
| `Wots.TweakFields` | crates/xmss/src/lib.rs:43-53 | purpose, position and index are read back from the two words of a tweak |
| `XmssBinding.EntryIsDigit` | crates/xmss/src/wots.rs:152-190 | entry i of an encoding is digit i % 8, to base 8 from the low end, of word i / 8 of the digest |
| `XmssBinding.DigestBinds` | crates/xmss/src/wots.rs:152-170 | the digest an encoding is read from fixes message, slot, public parameter and randomness, or two arguments of the compression collide |
| `XmssBinding.StepBinds` | crates/xmss/src/wots.rs:96-134 | a chain step fixes its input, the public parameter, the slot and the position, or collides |
| `XmssBinding.TipsOnOneChain` | crates/xmss/src/wots.rs:96-134 | two tips with the same end lie on one chain: the earlier one leads to the later one, or a collision |
| `XmssBinding.LeafBinds` | crates/xmss/src/wots.rs:96-115 | the leaf fixes all chain ends, the public parameter and the slot, or collides |
| `XmssBinding.ParentBinds` | crates/xmss/src/lib.rs:54-83 | a node fixes its children and their order, the public parameter, its level and its index, or collides |
| `XmssBinding.StepIsNoParent` | crates/xmss/src/lib.rs:43-83 | a chain value that equals a node of the tree is a collision |
| `XmssBinding.OpeningsBind` | crates/xmss/src/xmss.rs:201-236 | two openings of one root at one slot have the same public parameter, chain ends and siblings, or a collision |
| `XmssBinding.AcceptedBind` | crates/xmss/src/xmss.rs:201-236 | two signatures accepted under one key at one slot: same ends, same siblings, tips on the same chains, and the same message if the digests agree; or a collision |
| `XmssBinding.VerifyBoth` | crates/xmss/src/xmss.rs:201-236 | running the verifier on two signatures: both accepted with different siblings, ends, or messages of one digest, exhibit a collision |
| `XmssBinding.LeafLayout` | crates/xmss/src/wots.rs:96-115 | where tweak, public parameter and chain ends stand in the blocks that are compressed to the leaf |
| `XmssBinding.ParentLayout` | crates/xmss/src/lib.rs:54-70 | where tweak, public parameter and children stand in the compressed blocks |
| `FunctionMeaning.CompiledFunctionCorrect` | crates/lean_compiler/src/b_compile_intermediate.rs:126-184 | if the body returns (and its dead stores settle, or are assigned at most once each), the compiled run reaches a state with exactly those values in the return slots; if the body gets stuck and its dead stores settle, the compiled run breaks |
| `FunctionMeaning.CompiledFunctionRuns` | crates/lean_compiler/src/b_compile_intermediate.rs:126-184 | without any condition on dead stores: the compiled run does what the body without its dead stores does |
| `FunctionMeaning.BreaksIffLiveStuck` | crates/lean_compiler/src/b_compile_intermediate.rs:126-184 | a compiled run breaks if and only if the body without its dead stores gets stuck |
| `FunctionMeaning.DeadStoresKeepMeaning` | crates/lean_compiler/src/b_compile_intermediate.rs:251-258 | dead stores that settle may be skipped: same values returned, stuck on the same inputs |
| `FunctionMeaning.DeadStoresSettleIff` | crates/lean_compiler/src/b_compile_intermediate.rs:1107-1145 | with every dead variable assigned at most once in the body, they settle if and only if the body does not stick at one; a body that returns settles them |
| `FunctionMeaning.HoistingKeepsMeaning` | crates/lean_compiler/src/b_compile_intermediate.rs:126-184 | giving coalesced variables one cell for the whole function keeps what the body returns and whether it sticks, when no run introduces one twice |
| `FunctionMeaning.CoalescedIsRead` | crates/lean_compiler/src/b_compile_intermediate.rs:900-927 | a coalesced variable is never a dead store |
| `FunctionMeaning.EndsOnce` | crates/lean_vm/src/isa/instruction.rs:146-247 | a run ends in one state only |
| `CompilerCases.UnreadReturns` | crates/lean_compiler/src/b_compile_intermediate.rs:251-258 | x = 1 / a; return 7 at a = 0: the body is stuck on the division, the compiled code returns 7 and never breaks |
| `CompilerCases.UnreadCompiles` | crates/lean_compiler/src/b_compile_intermediate.rs:251-258 | the emitted code of that function: one copy and the jump back |
| `CompilerCases.BackwardBreaks` | crates/lean_compiler/src/b_compile_intermediate.rs:251-258 | x = a + 1 with a unset and x an argument: the body solves for a and returns, the compiled code leaves the return slot unset and breaks |
| `CompilerCases.RedeclaredSticks` | crates/lean_compiler/src/b_compile_intermediate.rs:126-184 | a coalesced variable declared in a branch and again behind it: the body returns 2, the compiled code breaks |
| `Redeclaration.RedeclaredSticksIff` | crates/lean_compiler/src/b_compile_intermediate.rs:195-272 | declaring and assigning a coalesced variable that already holds x: the run goes on if and only if the new value is x |
| `DroppedStores.StoreSettlesIff` | crates/lean_compiler/src/b_compile_intermediate.rs:251-258 | skipping one dead store keeps all other variables right if and only if it settles: the equation gives its target a value or confirms the one it has, and neither fails nor solves for an operand |
| `DroppedStores.DropLines` | crates/lean_compiler/src/b_compile_intermediate.rs:186-452 | over whole bodies with branches and matches: skipping settled dead stores keeps the outcome |
| `DroppedStores.StopsIffStuck` | crates/lean_compiler/src/b_compile_intermediate.rs:186-452 | a body gets stuck if and only if it stops at some line, the line being named |
| `StoredOnce.OnceSettles` | crates/lean_compiler/src/b_compile_intermediate.rs:186-452 | variables assigned at most once: all skipped stores settle if and only if the run does not stop at one |
| `DeadStores.CollectUseInfo` | crates/lean_compiler/src/b_compile_intermediate.rs:1013-1082 | the walk adds up declarations and operand uses, through branches and arms |
| `DeadStores.ComputeDeadVars` | crates/lean_compiler/src/b_compile_intermediate.rs:1111-1145 | the dead stores are the declared or assigned variables without an operand use |
| `CompileSimulation.Simulate` | crates/lean_compiler/src/b_compile_intermediate.rs:186-452 | every line list, in every compiler state and matching memory: the emitted code does what the lines do, branches and match arms included |
| `CompileFunction.FunctionRuns` | crates/lean_compiler/src/b_compile_intermediate.rs:126-184 | the same for a function run in a fresh frame |
| `CompileFunction.FrameDistinct` | crates/lean_compiler/src/b_compile_intermediate.rs:126-184 | arguments and coalesced variables have distinct slots below the first free one and above the saved pc and fp |
| `CompileFunction.RunKeeps` | crates/lean_vm/src/isa/instruction.rs:146-193 | no run changes a written cell |
| `CompileGrowth.CompileGrows` | crates/lean_compiler/src/b_compile_intermediate.rs:186-452 | compiling only adds blocks, match tables and stack space, and restores the scopes |
| `CompileOffsets.FunctionOffsetsBelow` | crates/lean_compiler/src/b_compile_intermediate.rs:126-184 | every frame offset in the code, its blocks and its arms lies below the frame size that is recorded; every label and match number they mention is registered; no block ends in a hint and no arm is empty |
| `CompileScopes.FunctionCompilesIff` | crates/lean_compiler/src/b_compile_intermediate.rs:36-71 | a function compiles, whatever was compiled before it, if and only if every variable it reads is in scope there: a condition on its lines alone |
| `Compiler.Compiler.CompileLines` | crates/lean_compiler/src/b_compile_intermediate.rs:186-452 | the compiler object, with its counters, scopes and tables updated in place, produces exactly the code the correctness lemmas are about, or fails with it |
| `Compiler.Compiler.CompileOne` | crates/lean_compiler/src/b_compile_intermediate.rs:126-184 | the same for a function, its layout included |
| `Coalescing.CollectReturnCoalescings` | crates/lean_compiler/src/b_compile_intermediate.rs:900-952 | slot i is given variable v exactly when every return names v there, v is no argument, and no earlier slot took it |
| `Coalescing.ChosenMeans` | crates/lean_compiler/src/b_compile_intermediate.rs:929-952 | what the walk over returns with its conflict marks decides, said of the set of all returns |
| `ReturnSlots.ReturnExactlyWhenOwn` | crates/lean_compiler/src/b_compile_intermediate.rs:877-898 | a return hands its values back if and only if every coalesced variable in it stands in its own slot |
| `ReturnSlots.TwiceLosesAValue` | crates/lean_compiler/src/b_compile_intermediate.rs:877-898 | return a, a: the second return slot is left unwritten |
| `Hoisting.HoistLines` | crates/lean_compiler/src/b_compile_intermediate.rs:195-272 | on any body and any pair of related environments: a single cell per coalesced variable and scoped cells lead to the same outcome |
| `LowCode.RunStands` | crates/lean_compiler/src/c_compile_final.rs:187-398 | low-level execution follows intermediate execution step by step |
| `LowCode.LoweringPreserves` | crates/lean_compiler/src/c_compile_final.rs:238-320 | folding two constants and exchanging operands do not change what a computation does to memory |
| `LowCode.PanicFails` | crates/lean_compiler/src/c_compile_final.rs:187-398 | the equation a panic is lowered to never holds |
| `EmitBlocks.EmitAll` | crates/lean_compiler/src/c_compile_final.rs:37-185 | the emitted blocks stand one after the other, each whole at its address; fails exactly when some operand does not resolve |
| `FinalLayout.Assemble` | crates/lean_compiler/src/c_compile_final.rs:37-185 | for every order of the label map: blocks, padded match arms and the self-loop in the last cell of a power-of-two program, every label and arm found at its address; each error if and only if its cause: no main, a match without arms, a reference to nothing, 2^22 or more instructions |
| `FinalLayout.LayMatches` | crates/lean_compiler/src/c_compile_final.rs:79-100 | the arms of a match stand at equal distances, every match in a range of its own, ending where the sizes add up to; fails exactly on an empty match |
| `FinalLayout.WholeResolves` | crates/lean_compiler/src/c_compile_final.rs:404-453 | some operand fails to resolve exactly when the program refers to a label or match it does not have |
| `FinalLayout.FinalPlaced` | crates/lean_compiler/src/c_compile_final.rs:79-100 | different arms have different addresses |
| `FinalLayout.FinalLinked` | crates/lean_compiler/src/c_compile_final.rs:37-185 | every label of the program points at its block |
| `CompileProgram.CompileFunctions` | crates/lean_compiler/src/b_compile_intermediate.rs:109-124 | succeeds if and only if every function is well scoped; then the program holds each function at its label with its frame size, has no other function labels, and refers to nothing it does not have |
| `CompileProgram.LinesToLowCode` | crates/lean_compiler/src/c_compile_final.rs:37-185 | from the lines of a function to the laid-out bytecode: started at the function's address in a fresh frame, the machine returns the body's values, or breaks where the body is stuck |
| `Logup.FillBuffers` | crates/sub_protocols/src/logup.rs:27-200 | all sections written in storage order at the moving offset, leaving no cell unwritten: numerators and denominators are the chunk-reversed sections |
| `Logup.StoredEvaluates` | crates/sub_protocols/src/logup.rs:60-100 | a stored buffer, padded, has the natural buffer's value at the point with its low coordinates reversed |
| `LogupParts.PartsFit` | crates/sub_protocols/src/logup.rs:27-200 | every section starts at a multiple of its size and all of them fit |
| `LogupParts.FingerEvaluates` | crates/utils/src/multilinear.rs:79-85 | fingerprinting rows and evaluating is evaluating columns and fingerprinting |
| `Sections.BuffersEvaluate` | crates/sub_protocols/src/logup.rs:320-483 | the extension of a table of aligned sections is the sum of the selected extensions of the sections |
| `Sections.IndicesEvaluate` | crates/utils/src/multilinear.rs:67-77 | the closed form is the extension of 0, 1, 2, ... |
| `Sections.ConstantsAtRightEvaluate` | crates/utils/src/multilinear.rs:22-46 | the closed form is the extension of `limit` zeros followed by ones |
| `LogupBytecode.BytecodeAgrees` | crates/sub_protocols/src/logup.rs:320-420 | the bytecode term, rebuilt from one evaluation of the flat bytecode at a corrected point, is the section's evaluation |
| `LogupVerify.TablesAgree` | crates/sub_protocols/src/logup.rs:420-483 | bytecode lookups, bus and lookups of every table: the section evaluations are the verifier's terms, at the same offsets |
| `LogupCheck.VerifyGenericLogup` | crates/sub_protocols/src/logup.rs:320-483 | the loops of the verifier accept exactly when the two given values are the numerator and the denominator sum of its terms |
| `LogupCheck.LogupAgrees` | crates/sub_protocols/src/logup.rs:27-483 | with the honest evaluations those sums are the evaluations of the prover's two buffers at the point, padding included |
| `LogupCheck.LogupAgreesStored` | crates/sub_protocols/src/logup.rs:27-483 | the same for the buffers as they are stored |
| `LogupCheck.TotalLenIs` | crates/sub_protocols/src/logup.rs:485-519 | the moving offset ends at the length computed in advance |
| `LogupTerms.AccessMeetsMemory` | crates/sub_protocols/src/logup.rs:184-195 | where a looked-up value is the memory cell at index plus distance, the row's denominator is the memory section's at that cell |
| `LogupTerms.FetchMeetsBytecode` | crates/sub_protocols/src/logup.rs:134-148 | where the instruction columns are the row of the bytecode the program counter names, the denominators of the two bytecode sections agree |
| `LogupTerms.SameMessages` | crates/sub_protocols/src/logup.rs:151-170 | messages carried equally often weigh the same, in whatever rows and tables they stand |
| `LogupTerms.FingerIsMle` | crates/utils/src/multilinear.rs:79-85 | the fingerprint is the extension, at the challenges, of the data, zeros, and the domain separator in the last cell |
| `LogupBalance.HonestSectionsBalance` | crates/sub_protocols/src/logup.rs:213-221 | every lookup reading the memory, every fetch the bytecode, accumulators that count the accesses, every message pulled as often as it is pushed: numerators over denominators of the buffers as stored, padded or not, add up to zero |
| `LogupBalance.BalancedBuffers` | crates/sub_protocols/src/logup.rs:27-221 | filling the buffers from such an execution ends with the sum the code asserts |
| `LogupSums.QuotientReversed` | crates/sub_protocols/src/quotient_gkr/mod.rs:143-145 | the sum of quotients does not depend on the chunk-reversed storage order |
| `AccessCounts.CountAccesses` | crates/lean_prover/src/prove_execution.rs:90-102 | the loops over tables, lookups, rows and values count how often every memory cell is looked up |
| `AccessCounts.CountFetches` | crates/lean_prover/src/prove_execution.rs:104-110 | how often every instruction is fetched |
| `StackedPcs.StackPolynomials` | crates/sub_protocols/src/stacked_pcs.rs:99-157 | memory, accumulators and columns one behind the other, zero-padded to the least power of two |
| `StackedPcs.StatementSelectsColumn` | crates/sub_protocols/src/stacked_pcs.rs:40-97 | the selector bits of a committed statement in front of its point evaluate exactly its column |
| `StackedPcs.FrontSelected` | crates/sub_protocols/src/stacked_pcs.rs:40-97 | the same for memory, its accumulator and the bytecode accumulator |
| `StackedPcs.PcCells` | crates/sub_protocols/src/stacked_pcs.rs:40-97 | the two single-value statements name the first and the last program counter |
| `StackedPcs.StackedLength` | crates/sub_protocols/src/stacked_pcs.rs:183-196 | the offsets end at the length computed in advance |
| `StackedStatements.GlobalStatements` | crates/sub_protocols/src/stacked_pcs.rs:40-97 | the loop over tables builds the list of statements; what is on it is said by GlobalStatementsTrue and GlobalStatementsForce |
| `StackedStatements.GlobalStatementsTrue` | crates/sub_protocols/src/stacked_pcs.rs:40-97 | if the claimed column values are right and the program counter starts and ends where it should, every statement is true of the stacked polynomial |
| `StackedStatements.GlobalStatementsForce` | crates/sub_protocols/src/stacked_pcs.rs:40-97 | the converse: if every listed statement is true, the execution table starts at the starting pc and ends at the ending pc, and every claimed value is the evaluation of its column, or of its column shifted by one row |
| `StackedStatements.ListedIff` | crates/sub_protocols/src/stacked_pcs.rs:40-97 | both directions at once, table by table |
| `Partition.Assign` | crates/rec_aggregation/src/type_1_aggregation.rs:232-324 | every key of a raw signature or child gets an index; keys met again get duplicate slots; the indices handed out are a permutation of 0 .. n_sigs + n_dup and spell the keys |
| `Partition.Check` | crates/rec_aggregation/zkdsl_implem/main.py:107-225 | the program accepts exactly when the counts are in range and, outside the single-child shortcut, the indices met are such a permutation |
| `Partition.CheckGeneral` | crates/rec_aggregation/zkdsl_implem/main.py:127-225 | write-once buffer and counter: accepts exactly the permutations of 0 .. n_sigs + n_dup |
| `Partition.AcceptedCovers` | crates/rec_aggregation/zkdsl_implem/main.py:165-225 | then every aggregated key belongs to a raw signature or to a child |
| `Partition.DuplicatesCount` | crates/rec_aggregation/src/type_1_aggregation.rs:278-317 | the host hands out one duplicate slot for every key beyond the first of its kind |
| `Partition.HostAcceptedIff` | crates/rec_aggregation/src/type_1_aggregation.rs:232-324 | the host's assignment is accepted if and only if: a nonempty union within the limit, few enough children and surplus keys, a single child that repeats no key and shares none with the raw signers, and no child empty or at the limit |
| `Partition.SingleChildOverlap` | crates/rec_aggregation/zkdsl_implem/main.py:113-135 | one child whose key also signs directly: the host assigns, the program refuses |

## Left out

- Extension field: the algebra outside the transcript is stated over the prime field; only `Transcript` and `FiatShamir` work with vectors of coordinates and a bilinear product.
- SIMD packing, rayon and uninitialised buffers: results are those of the sequential loops over whole arrays.
- DftNetwork.EvalsDft.DftBatchByEvals: heights up to 2^24, the two-adicity of the field; `EvalsDft.RootsOfUnityTable` starts at height 2, since `update_twiddles` never asks for height 1.
- Coefficients.BitReversePermutation: at least two entries, as the shift by the word width needs.
- AIR tables: the constraint `eval` is any function of bounded degree along lines; the tables' own constraints, and the commitment openings between sumchecks, are not part of this model.
- AirRun.ProveBatchedAirSumcheck: equality coordinates are nonzero, because the code divides by them, and degrees are below the field order.
- Poseidon.PermuteWithTable: round constants are a parameter. The shipped circulant matrix is proved regular; whether the twenty 15 x 15 submatrices met while factoring it are, is not computed, and `Precompute` says which branch is taken in terms of it. The FFT form of the dense layer and the SIMD permutation are not modelled.
- MerklePruning.Restore: pruned input that comes from paths of one tree; nothing is said about malformed input.
- FiatShamir.ProverState.PowGrinding: the search is replaced by the nonce it finds.
- Xmss and Wots: hashes and generators are arbitrary functions of the right output length. `XmssBinding` says what two accepted signatures have in common unless the compression collides; how hard collisions are to find is not part of this model.
- PoseidonPermutes.PermutationOnto: an inverse of the dense matrix is a premise; `MdsRegular.MdsIsRegular` shows that no nonzero vector is sent to zero, and injectivity needs no more.
- MisalignedClaims.MisalignedSumsDiffer: lists of fewer than 2^24 statements. Some bound is needed: with P - 1 empty statements between the first claim and the others, every gamma gives equal sums again.
- Logup: the quotient argument that reduces the sums to one point, and the sampling of its challenges, are not part of this model. `LogupBalance` says that the sums of honest executions vanish, for all challenges; that dishonest ones do not vanish for most challenges is left out.
- LogupCheck.LogupAgrees: memory is at least as high as every table and as the bytecode, which verify_execution.rs checks; bytecode rows are zero-padded from 12 to 16 columns, as compile_to_low_level_bytecode does.
- Compiler input: no function calls, precompiles, loops, raw memory access, const_malloc pointers (and with them fp-relative dead variables), range checks, or hints other than inverse and panic. The passes before b_compile_intermediate.rs are not modelled.
- FunctionMeaning.CompiledFunctionCorrect: functions whose returns name coalesced variables in their own slots only (`OwnSlots`) and that introduce each coalesced variable once on every path (`IntroducedOnce`, which is sufficient; what happens otherwise is exact for one redeclaration only, in `Redeclaration.RedeclaredSticksIff`). A match whose value lies outside its arms jumps somewhere unspecified and nothing is claimed for it.
- IntermediateCode and LowCode: memory is the current frame; a jump that changes the frame pointer ends the modelled run.
- FinalLayout.Assemble: the order of the label map is a parameter; source locations, the bytecode's field encoding and its hash are left out.
- Partition.Assign: keys are integers; sort, dedup and binary search of the standard library are modelled by their results (`SortedSet`, `BinarySearch`). Hashing of the keys and the recursive verification inside main.py are left out, as are type-2 aggregation and splitting.
- Parser, VM runner, GKR prover, serialization, command line and benchmarks.

# Verified models of the miner's algorithms

This Dafny project models the parts of the miner that compute something intricate, and proves what
they promise:

- **Equihash** (`BitPacking`, `StepRows`, `RowBuffers`, `CollisionRounds`, `EquihashTree`,
  `EquihashVerifier`, `XorLaws`, `EquihashDefinition`, `BasicSolver`, `TruncatedTables`, `Rebuild`, `OptimisedSolver`,
  `OptimisedTheorems`, `FollowedTrees`, `RepeatedSolutions`, `ProbablyDuplicate`, and the examples in
  `LeafValues`, `TruncatedLists`, `MarkedTrees`, `InvalidExample`, `WholeRangeExample`,
  `MissedExample`, `MixedExample`). The hash is any function from a hash number to
  bytes; N and K are any that the header admits, with N a multiple of 8 and of K + 1, at most 512, and
  K at least 3. What the tree verifier accepts is put in terms of the leaf hashes alone
  (`ValidIsDefinition`); the sort-and-collide solver hands out exactly that. The
  solver with truncated indices does not: `ReachedExactly` says for all inputs what it hands out.
  Everything it hands out passes the per-level checks, but may be rejected, exactly if the halves of
  its tree differ in the part of the hash that the last merge does not compare; and valid solutions
  may be missed, but not those that the duplicate filter keeps. Hash functions for which these happen
  exist exactly for the N and K with enough indices for one solution (`FailuresExist`), the program's
  own among them. One solution may be handed out several times: `OptimisedSolve` says how often.
- **Prime chains** (`PrimalityTests`, `ChainTests`): what the tests compute, and that the walks
  return the length of the passing run in 8.24 fixed point; primes pass, by the second supplement of
  quadratic reciprocity, so chains of primes are found whole (`PrimeNumbers`, `PrimeChains`). GMP
  numbers are integers. A ghost parameter names the first failing position, whose existence makes the
  walk end.
- **Hashing**: three SHA-256 compression functions and two front ends against FIPS 180-4 (`Sha256`,
  `WordLogic`, `Sha256Class`, `Sha256Unrolled`, `CSha256`, `Sha256Export`, `KernelPrecalc`,
  `Sha256Theorems`), whose constants are roots of primes (`Sha256Constants`) and whose example is worked
  through (`Sha256Example`); and the BLAKE2b stream against RFC 7693 and RFC 9106 (`Blake2b`).
- **config4cpp**: the chained hash table as linked entries refining a map (`ConfigScopes`); nested
  scopes and names with dots (`ConfigPaths`, `PathLaws`, `ScopedNames`), and assignment to such names
  in trees of hash tables (`ScopeTrees`, `ConfigurationTables`); the lexer and the
  recursive-descent interpreter (`ConfigText`, `ConfigLexer`, `ConfigSyntax`, `ConfigParsing`), the
  printer over the hash tables (`ConfigPrinter`, `ScopeDump`) and their round trip (`SortedEntries`,
  `ConfigRoundTrip`); the token skipper (`ConfigSkipping`, `ConfigExtents`); program
  trees with a meaning of their own, which parsing any text of them has (`ConfigPrograms`,
  `ConfigMeaning`, `ConfigTexts`, `ConfigLaws`); split, join and replace
  (`StringFunctions`); the wildcard matcher (`PatternMatch`).
- **Fixed-width integers** (`Uint256`, `Uint256Hex`, `HexNumbers`) and the **Fermat work pipeline**
  (`FermatPipeline`).

`Bits` and `Words` hold the arithmetic they share, `CStrings` and `Wrappers` the strings and options.

Where the source updates something in place, the model does too: arrays, classes and loops are proved
against functions on values, and the theorems are about those functions. Properties that turned out
not to hold for all inputs are given with an input that fails and their exact conditions:
`InvalidSolutionReached` and `WholeSolutionReached` with `ReachedPassesLevels` and `FailuresExist`,
`ValidSolutionMissed` with `ReachedExactly`, `SolutionRepeated` with `OptimisedSolve`, `JoinThenSplit`,
`LoopEnds`, `WholeSolution`, `ShortLengthField`, `CounterSuffices`, `NegativeIndex` with `HashInRange`,
`RoundTrip` of the configuration printer. `MixedReached` shows why `ReachedExactly` cannot be put in
terms of a solution's own truncated list alone; `PlainBlock` says when it can, and `ReachedFollows`
puts it in terms of the trees that the truncated rounds find.

Run `dafny verify dfyconfig.toml` to check the project.

## Model

| member | source | states |
|---|---|---|
| BitPacking.ExpandArray | zcash/equihash_original.cpp:54-95 | the output is the cells of the elements in the input bits; every read and write stays in range and no live accumulator bit is lost |
| BitPacking.CompressArray | zcash/equihash_original.cpp:97-134 | the output packs the values of the input cells back into a bit string |
| BitPacking.WriteCell | zcash/equihash_original.cpp:73-92 | one element goes out as its masked bytes behind the padding, most significant byte first |
| BitPacking.ReadCell | zcash/equihash_original.cpp:110-127 | OR-ing the masked bytes of one cell below the live accumulator bits gives the accumulator followed by the element |
| BitPacking.ExpandThenCompress | zcash/equihash_original.cpp:54-134 | for 8 to 25 bits per element, packing the expanded elements of a whole-element string gives the string back |
| BitPacking.CompressThenExpand | zcash/equihash_original.cpp:54-134 | elements that fit survive packing and expanding |
| BitPacking.CellsHoldElements | zcash/equihash_original.cpp:54-134 | the padded cells of elements that fit hold those elements |
| BitPacking.IndexRoundTrip | zcash/equihash_original.cpp:138-153 | the big-endian byte form of a 32-bit index reads back as the index, and four bytes write back as themselves |
| BitPacking.IndexBytesAreCells | zcash/equihash_original.cpp:168-200 | the byte form of an index list is exactly the padded cells the expander writes, so the two routines agree on the intermediate buffer |
| BitPacking.GetIndicesFromMinimal | zcash/equihash_original.cpp:168-182 | the indices are the elements of the minimal form |
| BitPacking.GetMinimalFromIndices | zcash/equihash_original.cpp:184-200 | the minimal form is the packed indices |
| BitPacking.MinimalRoundTrip | zcash/equihash_original.cpp:168-200 | the two conversions undo each other in both directions on whole minimal forms and on indices below 2^(cBitLen+1) |
| BitPacking.TruncationFibre | zcash/equihash_original.cpp:155-166 | an index truncates to t exactly when it is t put back together with some remainder, which is then unique |
| BitPacking.Truncated | zcash/equihash_original.cpp:155-166 | truncating undoes untruncating, whatever the remainder |
| StepRows.MergeSymmetric | zcash/equihash_original.cpp:225-240 | the row merged from a pair does not depend on the order of the pair |
| StepRows.MergeZero | zcash/equihash_original.cpp:225-258 | a merged hash is zero exactly where the two hashes agree |
| XorLaws.XorBits | zcash/equihash_original.cpp:231-232 | bit k of the exclusive or is set exactly if bit k of one of the two numbers is, but not of both |
| XorLaws.TreeParity | zcash/equihash_original.cpp:225-240 | for a tree that passes the per-level checks, every bit of the hash that is left is the parity of that bit over all leaf hashes, and the bits compared away cancel out |
| XorLaws.ZeroIsCancel | zcash/equihash_original.cpp:249-258 | the hash left by a passing tree is zero exactly if its leaf hashes XOR to zero |
| StepRows.BeforeTotal | zcash/equihash_original.h:95-105 | the memcmp order is total: of two different strings of one length exactly one comes first |
| StepRows.BeforeTransitive | zcash/equihash_original.h:95-105 | the memcmp order is transitive |
| RowBuffers.IndexBytesOrder | zcash/equihash_original.h:128 | comparing the bytes of two index lists orders them as the index lists themselves are ordered |
| RowBuffers.Memcmp | zcash/equihash_original.h:128 | the byte loop has the sign of the first difference |
| RowBuffers.FullStepRow.FromHash | zcash/equihash_original.cpp:202-223 | the buffer holds the expanded hash followed by the bytes of the index |
| RowBuffers.FullStepRow.FromPair | zcash/equihash_original.cpp:225-240 | the buffer holds the merged row of the rows in the two buffers |
| RowBuffers.FullStepRow.CopyIndices | zcash/equihash_original.cpp:233-239 | two index lists are copied behind the hash one after the other |
| RowBuffers.FullStepRow.XorHashes | zcash/equihash_original.cpp:231-232 | the live hash bytes behind the trimmed ones are combined by exclusive or (`XorLaws.XorBits` says what that is), nothing else is written |
| RowBuffers.FullStepRow.IndicesBefore | zcash/equihash_original.h:128 | the byte comparison decides the order of the index lists |
| RowBuffers.FullStepRow.HasCollision | zcash/equihash_original.cpp:274-283 | true exactly if the first bytes of the two hashes agree |
| RowBuffers.FullStepRow.IsZero | zcash/equihash_original.cpp:249-258 | true exactly if the live hash is zero |
| RowBuffers.FullStepRow.DistinctIndices | zcash/equihash.tcc:9-21 | true exactly if the index lists have no index in common |
| RowBuffers.FullStepRow.IsValidBranch | zcash/equihash.tcc:45-49 | true exactly if the first index truncates to t |
| RowBuffers.FullStepRow.GetIndices | zcash/equihash_original.cpp:260-272 | the returned bytes are the packed indices of the row |
| RowBuffers.WidthsSuffice | zcash/equihash_original.h:204-205 | the two buffer widths hold the rows of every round |
| CollisionRounds.SortRows | zcash/equihash_original.cpp:352-354 | the result is sorted by the compared prefix and has the same rows with the same multiplicity |
| CollisionRounds.FindGroup | zcash/equihash_original.cpp:362-367 | the group found is the longest run of rows colliding with the first, and no row behind it collides with any in it |
| CollisionRounds.AppendGroup | zcash/equihash_original.cpp:369-376 | the group contributes exactly the merged rows of its pairs, in nested-loop order |
| CollisionRounds.StoreFreed | zcash/equihash_original.cpp:378-392 | rows go back only into places already scanned; unread rows stay as they are |
| CollisionRounds.CollideInPlace | zcash/equihash_original.cpp:357-401 | the in-place round leaves, as a multiset, exactly the rows that a nested loop over the unmodified table would give, for all three rules of which pairs count |
| CollisionRounds.PairsPermuted | zcash/equihash_original.cpp:352-401 | permuting a table permutes its pair rows, so the order in which rows compare equal does not matter |
| CollisionRounds.PairsSplit | zcash/equihash_original.cpp:357-401 | pairs of a joined table are those of its two parts and those across them |
| CollisionRounds.GroupPairs | zcash/equihash_original.cpp:361-386 | a closed group can be taken off a table: it collides with nothing behind it |
| EquihashTree.WholeSolution | zcash/equihash_original.h:208 | a solution is a whole number of bytes exactly when K is at least 3, given a hash width of whole bytes |
| EquihashTree.Equihash.TreeRow | zcash/equihash_original.cpp:739-758 | an index tree that passes every per-level check has its own indices in order and a hash of the width left at its level |
| EquihashTree.SolutionIndices | zcash/equihash_original.cpp:722-731 | a byte string of the right length holds 2^K indices in range |
| EquihashTree.HalvesMakeTree | zcash/equihash_original.cpp:741-754 | halves that pass and pass the three pair checks make a tree that passes |
| EquihashTree.TreeHalves | zcash/equihash_original.cpp:741-754 | conversely a passing tree has passing halves that collide, are in order and are disjoint |
| EquihashVerifier.FoldFromBottom | zcash/equihash_original.cpp:737-758 | joining neighbours level by level computes the same row as joining subtrees recursively |
| EquihashVerifier.TreeIsFold | zcash/equihash_original.cpp:728-758 | the level-by-level join of the leaves is the recursive tree |
| EquihashVerifier.CheckLevel | zcash/equihash_original.cpp:740-754 | one level is accepted exactly if all its pairs pass, and gives their merged rows |
| EquihashVerifier.CheckTree | zcash/equihash_original.cpp:737-761 | the loop over levels accepts exactly the leaves of a valid tree with zero remaining hash |
| EquihashVerifier.IsValidSolution | zcash/equihash_original.cpp:719-762 | accepts exactly the byte strings of the right length whose index tree passes all levels and leaves a zero hash |
| XorLaws.LeavesCancel | zcash/equihash_original.cpp:719-762 | a string is accepted exactly if it passes the per-level checks and the hashes of its 2^K leaves XOR to zero |
| EquihashDefinition.CollisionIsCancelling | zcash/equihash_original.cpp:274-283 | two passing subtrees collide exactly if the hashes of all leaves under both XOR to zero in the bytes of one round more |
| EquihashDefinition.TreeIsDefinition | zcash/equihash_original.cpp:737-758 | an index tree passes exactly if under every node of height r the leaf hashes XOR to zero in the bytes of r rounds, the left subtree begins with the smaller index, and the subtrees share none: said without rows and merging |
| EquihashDefinition.ValidIsDefinition | zcash/equihash_original.cpp:719-762 | what the verifier accepts is exactly the strings of the right length whose indices are such a tree with leaf hashes that XOR to zero |
| BasicSolver.GenerateList | zcash/equihash_original.cpp:331-347 | the first table has exactly one row for every index |
| BasicSolver.FirstTable | zcash/equihash_original.cpp:331-347 | that table is exactly the index trees of height 0 |
| BasicSolver.RoundStep | zcash/equihash_original.cpp:349-406 | if a table is exactly the passing trees of one height, each once, its pair rows are exactly those of the next |
| BasicSolver.PairsSeparate | zcash/equihash_original.cpp:357-401 | a table without repeated rows gives none |
| BasicSolver.SortAndCollide | zcash/equihash_original.cpp:349-406 | one round takes the table of one height to that of the next |
| BasicSolver.EmptyToEnd | zcash/equihash_original.cpp:350 | stopping at an empty table loses nothing: all later tables are empty |
| BasicSolver.FinalRows | zcash/equihash_original.cpp:408-438 | the rows of the last round are the valid solutions: trees of full height with a zero hash |
| BasicSolver.OfferPairs | zcash/equihash_original.cpp:415-438 | the last scan offers the solutions of all pairs in order, up to and including the first that validBlock takes |
| BasicSolver.AcceptedIsHanded | zcash/equihash_original.cpp:326-443 | a byte string is accepted by the verifier exactly when it packs the indices of a row of the last round |
| BasicSolver.FinalSolutions | zcash/equihash_original.cpp:408-442 | what the last scan offers is sound, complete and free of repetitions |
| BasicSolver.LastRound | zcash/equihash_original.cpp:408-442 | sorting and scanning the last table hands out exactly the valid solutions |
| BasicSolver.BasicSolve | zcash/equihash_original.cpp:326-443 | hands validBlock only byte strings the verifier accepts, no two equal, every one of them unless one is taken, and reports success exactly if some accepted one is taken; for every hash function and all admissible N, K |
| TruncatedTables.TruncatedHash | zcash/equihash_original.cpp:294-309 | truncating indices does not change the hash of a tree |
| TruncatedTables.EqualRowsDropped | zcash/equihash_original.cpp:552-560 | two equal truncated rows give a row that the duplicate filter drops |
| TruncatedTables.SurvivorPair | zcash/equihash_original.cpp:541-562 | the halves of a tree of rows that survives every round are different rows, collide, and their row is not filtered out |
| TruncatedTables.SurvivorInTable | zcash/equihash_original.cpp:512-592 | every tree of rows that survives leaves its truncated row in the table of its height, be its indices ordered and distinct or not |
| TruncatedTables.TableSurvivor | zcash/equihash_original.cpp:512-592 | conversely every row of a truncated table is that of a tree of rows that survives |
| TruncatedTables.KeptSurvives | zcash/equihash_original.cpp:512-592 | an index tree that passes the checks and that the filter keeps survives |
| ProbablyDuplicate.IsProbablyDuplicate | zcash/equihash.tcc:23-43 | true exactly if every value occurs an even number of times |
| OptimisedSolver.MakeCandidates | zcash/equihash_original.cpp:642-654 | keeping the last hash output while its number stays the same gives the same rows as hashing for every index |
| OptimisedSolver.AddLeaf | zcash/equihash_original.cpp:655-693 | after leaf i the slots are a binary counter showing i + 1: slot r is full exactly where bit r is set and holds the rows of the last block of that level; the slot asserted to be empty is |
| OptimisedSolver.MergeLists | zcash/equihash_original.cpp:665-683 | merging two full slots gives the rows of the block above, with the branch prefixes of the two subtrees |
| OptimisedSolver.CounterFull | zcash/equihash_original.cpp:697-699 | after all leaves only the top slot is full and holds the rows of the whole tree |
| OptimisedSolver.CounterBelow | zcash/equihash_original.cpp:661-693 | empty slots below a count are its low zero bits |
| OptimisedSolver.NoneAbove | zcash/equihash_original.cpp:676-678 | giving up on an empty block is right: the whole tree has no rows then |
| OptimisedSolver.RebuildPartial | zcash/equihash_original.cpp:632-698 | the counter loop gives, as a multiset, the rows that the recursive rebuild of the whole partial solution gives |
| Rebuild.BlockSound | zcash/equihash_original.cpp:446-495 | every rebuilt row is the row of an index tree that passes all levels |
| Rebuild.BlockComplete | zcash/equihash_original.cpp:446-495 | every passing index tree with the given truncated indices is rebuilt |
| Rebuild.HalvesMatch | zcash/equihash_original.cpp:664-683 | the halves of a matching tree match the two halves of the block, in one order or the other |
| Rebuild.FirstTruncation | zcash/equihash_original.cpp:463-467 | the first index of a tree truncates to the first entry of its truncated row, so the branch test loses no tree |
| Rebuild.RecreateSizeIs | zcash/equihash_original.cpp:503 | the number of candidates per leaf is the number of indices with that truncation |
| Rebuild.LeafComplete | zcash/equihash_original.cpp:642-654 | every index with the truncation is among the candidates |
| Rebuild.BlockHolds | zcash/equihash_original.cpp:446-495 | a row is in a block exactly if it is that of a passing tree that can be built there: both halves of the block hold something, both halves of the tree come from them, and their first indices truncate to the two branch starts |
| OptimisedSolver.OfferSet | zcash/equihash_original.cpp:699-707 | every distinct rebuilt solution is offered once more, up to the first that is taken |
| OptimisedSolver.GenerateTruncated | zcash/equihash_original.cpp:512-526 | the first truncated table has one row for every index |
| OptimisedSolver.FindPartials | zcash/equihash_original.cpp:505-626 | the partial solutions are, as a multiset, the surviving rows of a nested loop over the last truncated table |
| OptimisedSolver.CollectPairs | zcash/equihash_original.cpp:594-622 | the last truncated scan collects the rows of all pairs that the filter keeps |
| OptimisedSolver.PartialsArePartial | zcash/equihash_original.cpp:609-618 | every partial solution is a list of 2^K bytes, so the rebuild can read it |
| OptimisedSolver.OptimisedSolve | zcash/equihash_original.cpp:497-717 | hands out exactly the byte strings rebuilt from some partial solution, each as often as there are partial solutions, counted with their repeats, that it is rebuilt from; up to the first that is taken |
| OptimisedTheorems.ReachedPassesLevels | zcash/equihash_original.cpp:664-717 | everything handed out passes all per-level checks, and is accepted by the verifier exactly if the rows of the two halves of its tree agree on the whole remaining hash, where the last merge compares only the next CollisionByteLength bytes |
| OptimisedTheorems.FoundIsPartial | zcash/equihash_original.cpp:505-626 | the truncated list of a tree of rows that survives all rounds with a zero remaining hash is among the partial solutions |
| OptimisedTheorems.PartialIsFound | zcash/equihash_original.cpp:505-626 | and every partial solution is such a list |
| OptimisedTheorems.ReachedExactly | zcash/equihash_original.cpp:497-717 | a byte string is handed out exactly if it passes the per-level checks and its tree can be built from the list of some tree of rows that the truncated rounds find |
| OptimisedTheorems.PlainBlock | zcash/equihash_original.cpp:664-683 | if the halves of every block of a list start differently, the trees built from it are exactly those whose truncated indices are the list |
| OptimisedTheorems.KeptReached | zcash/equihash_original.cpp:497-717 | every valid solution that the duplicate filter keeps is handed out |
| OptimisedTheorems.SameTruncationReached | zcash/equihash_original.cpp:632-717 | whatever passes the levels and shares its truncated indices with a tree of rows that the truncated rounds find is handed out |
| InvalidExample.InvalidSolutionReached | zcash/equihash_original.cpp:632-717 | for all admissible N and K with K at most the collision bit length there is a hash function for which a byte string is handed out that the verifier rejects |
| MissedExample.ValidSolutionMissed | zcash/equihash_original.cpp:552-560 | for all admissible N and K with enough indices for a solution there is a hash function for which a valid solution is not handed out: all hashes zero, the first 2^K indices |
| WholeRangeExample.WholeSolutionReached | zcash/equihash_original.cpp:632-717 | the same where K is the collision bit length and one more, so that a solution has every index and its own truncated list is all paired up: the rejected tree is joined from two trees of one half of a list |
| WholeRangeExample.NothingPasses | zcash/equihash_original.cpp:632-717 | for greater K nothing passes the per-level checks |
| WholeRangeExample.FailuresExist | zcash/equihash_original.cpp:497-717 | for given N and K there is a hash function for which a rejected byte string is handed out if and only if K is at most the collision bit length and one more, and so for one for which a valid solution is not handed out |
| FollowedTrees.BuiltFollows | zcash/equihash_original.cpp:446-495 | a tree can be built in a block exactly if it follows the tree of rows whose truncated list the block has, half by half, however that list was ordered |
| FollowedTrees.ReachedFollows | zcash/equihash_original.cpp:497-717 | a byte string is handed out exactly if it passes the per-level checks and its tree follows a tree of rows that the truncated rounds find |
| RepeatedSolutions.SurvivorTimes | zcash/equihash_original.cpp:529-588 | the row of a surviving tree is in the table of its height at least as often as the row of any of its leaves is in the first truncated table |
| RepeatedSolutions.FoundTimes | zcash/equihash_original.cpp:590-622 | and so is the list of a tree that is found among the partial solutions, from which repeats are not removed |
| RepeatedSolutions.SolutionTimes | zcash/equihash_original.cpp:609-707 | a solution whose tree is found is handed out at least that often, unless the run stops |
| RepeatedSolutions.SolutionRepeated | zcash/equihash_original.cpp:609-707 | for all admissible N and K with K at most the collision bit length there is a hash function for which a valid solution is handed out at least twice, unless the run stops |
| MixedExample.MixedReached | zcash/equihash_original.cpp:664-683 | for K = 3 and every N a valid solution is handed out although no tree that the truncated rounds find has its truncated list: two trees of one half are joined where both halves of a list start alike |
| MissedExample.ProgramInstances | zcash/equihash_original.cpp:764-802 | both happen for each of the four pairs of N and K that the program instantiates |
| PrimalityTests.ShiftedPower | prime.cpp:65-73 | raising the shifted base to the shortened exponent is 2^((n-1)/2), for any cap on the trailing zeros |
| PrimalityTests.SquareIsFermat | prime.cpp:79-80 | the squared remainder is 2^(n-1) mod n |
| PrimalityTests.NoPowerDivisible | prime.cpp:82-86 | no power of two is a multiple of an odd number above 1 |
| PrimalityTests.FractionBelowOne | prime.cpp:82-88 | so the fraction is always below one |
| PrimalityTests.FractionIs | prime.cpp:78-85 | the fraction is the largest f of 24 bits with f*n <= (n-r)*2^24, for the remainder r of 2^(n-1) |
| PrimalityTests.PassesFermat | prime.cpp:66-75 | what passes the first test satisfies Fermat's congruence 2^(n-1) = 1 modulo n |
| PrimalityTests.PassesEulerJacobi | prime.cpp:118-132 | what passes the second test are exactly the Euler-Jacobi probable primes to the base 2 with a residue of the kind of chain; so it passes the first test too |
| PrimalityTests.FixedParts | prime.cpp:14-29 | the masks split and rewrite a length and a 24-bit fraction without touching the other |
| PrimalityTests.FixedIncrement | prime.cpp:38-41 | adding one step changes the integer part only, below 255 |
| PrimalityTests.CPrimalityTestParams.RaiseShiftedBase | prime.cpp:65-73 | mpzR becomes 2^((n-1)/2) mod n for every odd n |
| PrimalityTests.CPrimalityTestParams.StoreFraction | prime.cpp:78-90 | mpzR becomes the Fermat remainder r and the fraction floor((n-r)*2^24/n) replaces the old one, the integer part staying |
| PrimalityTests.CPrimalityTestParams.FermatProbablePrimalityTestFast | prime.cpp:56-91 | passes exactly if the Euler power is 1 or -1; only a slow failure changes the length |
| PrimalityTests.CPrimalityTestParams.EulerLagrangeLifchitzPrimalityTestFast | prime.cpp:99-146 | passes exactly if the Euler power has the sign that n mod 8 and the kind of chain ask for |
| ChainTests.ChainResidue | prime.cpp:116-127 | numbers after the first of an odd chain have a residue mod 8 that the test knows, so its last branch is not reached |
| ChainTests.NextInChain | prime.cpp:170-178 | doubling plus or minus one gives the next number of the closed form |
| ChainTests.ProbableCunninghamChainTestFast | prime.cpp:153-179 | the integer part of the result is the first failing position: base plus the number of consecutive passes; the fraction is that of the failing number unless it failed fast |
| ChainTests.NextTwins | prime.cpp:217-225 | both numbers of a pair double, plus or minus one, to those of the next |
| ChainTests.TwinResidue | prime.cpp:217-227 | all numbers behind an odd first one have a residue the test knows |
| ChainTests.WalkTwins | prime.cpp:214-229 | the walk alternates between the two numbers of each pair and stops at the first failure |
| ChainTests.ProbableBiTwinChainTestFast | prime.cpp:184-230 | the integer part of the result is the first failing position from base rounded down to even |
| ChainTests.ProbablePrimeChainTestFast | prime.cpp:232-262 | the length is that of the walk for the candidate type, zero for other types; the answer compares it with nBits |
| PrimeNumbers.GaussTwo | prime.cpp:118-125 | Gauss's lemma for 2: modulo an odd prime p, 2^((p-1)/2) is 1 or -1 by the parity of the number of odd numbers up to p/2 |
| PrimeNumbers.SecondSupplement | prime.cpp:118-125 | the second supplement of quadratic reciprocity: for an odd prime the Euler power is 1 exactly if n mod 8 is 1 or 7, and -1 exactly if it is 3 or 5 |
| PrimeChains.PrimePasses | prime.cpp:66-75 | every odd prime passes the first test, and the second exactly where the residue is one that the kind of chain has |
| PrimeChains.PrimesAreCounted | prime.cpp:232-262 | if the numbers of the chain up to a position are primes, the walk of the candidate type finds at least that length, and a target up to it is reached |
| Sha256Class.SHA256_F1 | sha256.h:47 | shifts and an OR make the rotations of FIPS 180-4 |
| Sha256Class.SHA256_F2 | sha256.h:48 | as above, for the other upper sigma |
| Sha256Class.SHA256_F3 | sha256.h:49 | as above, for the lower sigma of w[j-15] |
| Sha256Class.SHA256_F4 | sha256.h:50 | as above, for the lower sigma of w[j-2] |
| Sha256Class.FillSchedule | sha256.cpp:41-46 | w holds the message schedule of FIPS 180-4 |
| Sha256Class.Round | sha256.cpp:51-62 | shifting the eight variables in place is one step of FIPS 180-4 |
| Sha256Class.RunRounds | sha256.cpp:47-63 | the variables are those after 64 steps |
| Sha256Class.SHA_256.transformBlock | sha256.cpp:38-67 | one block is compressed as section 6.2.2 of FIPS 180-4 says |
| Sha256Class.SHA_256.transform | sha256.cpp:31-67 | block_nb blocks are compressed one after the other |
| Sha256Class.SHA_256.init | sha256.cpp:69-81 | the state is the initial hash value and nothing has been taken in |
| Sha256Class.SHA_256.update | sha256.cpp:83-104 | the message joins the bytes taken in, wherever block boundaries fall |
| Sha256Class.SHA_256.final | sha256.cpp:106-123 | the digest is that of the message padded with a length field of its bit length modulo 2^32 |
| Sha256Class.Absorb | sha256.cpp:83-104 | whatever is buffered and arrives may be divided into whole blocks and a tail |
| Sha256Class.Divide | sha256.cpp:90-103 | filling up the partial block first gives the same division |
| Sha256Class.PaddingEnds | sha256.cpp:112-119 | one block or two, the padded end is compressed to the state of the whole padded message |
| Sha256Export.Export | sha256.cpp:178-233 | the third compression function agrees with FIPS 180-4 and gives out the schedule and the intermediate values of every round |
| Sha256Export.ScheduleWords | sha256.cpp:183-190 | the left-rotating macros and the other order of addition give the same schedule |
| Sha256Export.ChMacro | sha256.cpp:175 | the selecting form of Ch is Ch |
| Sha256Export.MaMacro | sha256.cpp:176 | the two-operation form of Maj is Maj |
| KernelPrecalc.PackLoad | sha256.cpp:161-168 | swapping a little-endian load gives the big-endian word |
| KernelPrecalc.SecondBlockIsPadding | sha256.cpp:246-259 | the sixteen words are the second block of a padded 80-byte header |
| KernelPrecalc.DigestFromMidstate | sha256.cpp:235-267 | the digest of a header continues the midstate with that block |
| KernelPrecalc.ArgumentsIgnoreNonce | sha256.cpp:250-283 | none of the values given to the kernel depends on the nonce word |
| KernelPrecalc.SimplePrecalc | sha256.cpp:235-284 | although msg[3] is never assigned, the midstate and the twelve kernel arguments are right for every nonce |
| WordLogic.ChooseForm | zcash/sha256.cpp:17 | two forms of Ch agree on all words |
| WordLogic.MajorityForm | zcash/sha256.cpp:18 | two forms of Maj agree on all words |
| Sha256Unrolled.Round | zcash/sha256.cpp:24-31 | writing two of eight registers is one step under the rotated names |
| Sha256Unrolled.ScheduleStep | zcash/sha256.cpp:69-84 | adding to a word sixteen positions back gives the next schedule word |
| Sha256Unrolled.Rounds0To15 | zcash/sha256.cpp:52-67 | sixteen unrolled rounds with register names rotating leave the variables after 16 steps |
| Sha256Unrolled.Rounds16To23 | zcash/sha256.cpp:69-76 | eight more, in which half of the sixteen schedule words in use are replaced |
| Sha256Unrolled.Rounds56To63 | zcash/sha256.cpp:111-118 | the last eight, whose final two words are used but not kept |
| Sha256Unrolled.Transform | zcash/sha256.cpp:47-128 | the unrolled function with its rolling 16-word schedule compresses as FIPS 180-4 says |
| CSha256.CSHA256.Write | zcash/sha256.cpp:141-165 | the data joins the bytes taken in, wherever block boundaries fall |
| CSha256.CSHA256.Finalize | zcash/sha256.cpp:167-175 | the digest is that of the message padded with its bit length modulo 2^64, and the byte count ends on a block boundary |
| CSha256.CSHA256.FinalizeNoPadding | zcash/sha256.cpp:177-191 | refuses, if asked to, whenever the byte count is not 64, and otherwise writes the state |
| CSha256.PaddingWritten | zcash/sha256.cpp:167-175 | the two writes of Finalize append exactly the padding of section 5.1.1 of FIPS 180-4 |
| Sha256Theorems.ShortLengthField | sha256.cpp:115-118 | the 32-bit length field pads as FIPS 180-4 asks exactly for messages below 2^29 bytes |
| Sha256Theorems.HashWithSha256 | sha256.cpp:83-123 | for every division of a message below 2^29 bytes into updates the digest is that of FIPS 180-4 |
| Sha256Theorems.HashWithCSHA256 | zcash/sha256.cpp:141-191 | for every division of a message below 2^61 bytes into writes the digest is that of FIPS 180-4, hence the same |
| Sha256Constants.FirstPrimes | sha256.cpp:13-29 | the numbers whose roots follow are exactly the primes up to 311, the first 64, in order |
| Sha256Constants.InitialIsRoots | sha256.cpp:69-79 | each word of the initial hash value is the first 32 bits of the fractional part of the square root of a prime, as section 5.3.3 of FIPS 180-4 asks |
| Sha256Constants.ConstantsAreRoots | zcash/sha256.cpp:52-124 | so is each round constant for cube roots, as in section 4.2.2 |
| Sha256Example.AbcDigest | zcash/sha256.cpp:15-128 | the digest of "abc" is the one of appendix B.1 of FIPS 180-2, through all its schedule words and the variables after each step |
| Blake2b.Blake2bState.update | zcash/blake2b.cpp:189-215 | the input joins the bytes taken in; a full block is compressed only when more bytes follow |
| Blake2b.Blake2bState.final | zcash/blake2b.cpp:218-238 | the calls of the compression function over the whole run are those of section 3.3 of RFC 7693 with counters modulo 2^16; the branch for more than one buffered block is not taken |
| Blake2b.LastCall | zcash/blake2b.cpp:231-234 | the last block, its padding, counter and flag are those of RFC 7693, also for the empty message |
| Blake2b.CallsAre | zcash/blake2b.cpp:189-238 | call i hashes bytes 128 i up to 128 (i+1) of the zero-padded message with the number of message bytes up to there; only the last call has the flag, and no call is empty unless the message is |
| Blake2b.CounterSuffices | zcash/blake2b.cpp:201-231 | the 16-bit counter makes the calls of RFC 7693 exactly for messages below 2^16 bytes |
| Blake2b.blake2b_long | zcash/blake2b.cpp:304-339 | emits exactly outlen bytes, those of the variable-length hash of section 3.3 of RFC 9106 over the digest with the 16-bit counter |
| Blake2b.BytesOfLength | zcash/blake2b.cpp:310-320 | the four bytes hashed in front are the output length, the lowest byte first |
| Blake2b.HalvesAt | zcash/blake2b.cpp:322-332 | bytes 32(i-1) up to 32 i of a long output are the first half of the hash V_i, for all but the last hash |
| Blake2b.NinetySixBytes | zcash/blake2b.cpp:304-339 | an output of 96 bytes is half of the hash of the length and the input, followed by the hash of that hash |
| Blake2b.VariableLengthIsRfc | zcash/blake2b.cpp:304-339 | for inputs below 2^16 - 4 bytes that is H' of RFC 9106 over the digest of RFC 7693, whose counter does not wrap |
| Uint256.base_uint.Add | uint256.h:148-158 | addition modulo 2^(32*WIDTH), also of a number to itself |
| Uint256.base_uint.Negate | uint256.h:50-57 | the negative modulo 2^(32*WIDTH) |
| Uint256.base_uint.Subtract | uint256.h:160-164 | subtraction modulo 2^(32*WIDTH) |
| Uint256.base_uint.Increment | uint256.h:183-190 | adding one, with the carry passing through full words |
| Uint256.base_uint.Decrement | uint256.h:200-207 | subtracting one, with the borrow passing through zero words |
| Uint256.base_uint.Less | uint256.h:218-264 | the word loop decides integer order; with the flag for equal numbers and with the sides exchanged it is all four operators |
| Uint256.base_uint.ShiftLeft | uint256.h:114-129 | multiplication by 2^shift modulo 2^(32*WIDTH), for any shift |
| Uint256.base_uint.ShiftRight | uint256.h:131-146 | division by 2^shift, for any shift |
| Uint256.LeftValue | uint256.h:114-129 | the words that the two writes per turn build have the shifted value |
| Uint256.RightValue | uint256.h:131-146 | the same for the right shift |
| Uint256Hex.GetHex | uint256.h:298-304 | two digits per byte, most significant byte first |
| Uint256Hex.SetHex | uint256.h:306-336 | bytes come from pairs of digits counted from the right; missing digits are zero and surplus ones dropped |
| Uint256Hex.PrintedDigits | uint256.h:298-336 | the digit pairs SetHex reads are the bytes GetHex printed |
| Uint256Hex.PrintedIsRead | uint256.h:306-324 | nothing GetHex prints is skipped as space or prefix, and all of it is digits |
| Uint256Hex.RoundTrip | uint256.h:298-336 | SetHex(GetHex(x)) is x |
| HexNumbers.DigitsAre | uint256.h:298-324 | the digit printed for d is the one at place d of 0123456789abcdef, and the characters read as d are that one and its capital |
| HexNumbers.PrintedIsNumber | uint256.h:298-304 | the digits printed write the number in the words, in hexadecimal notation |
| HexNumbers.WordsAreNumber | uint256.h:306-336 | the words read hold the number that the digits write, modulo 2^(32*WIDTH) |
| HexNumbers.Transfer | uint256.h:298-336 | a number printed and read into any width is the number modulo that width |
| FermatPipeline.PrimeMiner.FermatDispatch | xpmclient.cpp:153-218 | one round admits every new candidate once and keeps the invariant that each admitted candidate is, as often as admitted, in one of: waiting, finished, dropped; whatever the kernels answer, each that finished has a passing answer for every position and each dropped one a failing answer |
| FermatPipeline.PrimeMiner.TakeOver | xpmclient.cpp:166-176 | what was not tested joins the survivors; the unsigned difference does not wrap around |
| FermatPipeline.PrimeMiner.Admit | xpmclient.cpp:178-191 | the new candidates of all sieves follow, and their counts are cleared |
| FermatPipeline.PrimeMiner.RunTests | xpmclient.cpp:193-215 | the number tested is a multiple of the block size, zero unless more than a block is there |
| FermatPipeline.PrimeMiner.CheckKernel | gpu/fermat.cl:1367-1397 | whatever the results are and in whatever order threads finish, every tested candidate survives one position further, finishes, or is dropped |
| FermatPipeline.PrimeMiner.Reset | xpmclient.cpp:416-433 | new work empties the pipeline |
| FermatPipeline.EndsAreRight | xpmclient.cpp:153-218 | over any run, if the kernels' answers agree with one test, a candidate that passes at every position is never dropped and one that fails anywhere never finishes; when nothing waits all have ended in the right place |
| ConfigScopes.HashInRange | config4cpp/src/ConfigScope.cpp:590-602 | the hash is an index of the table exactly if the sum of the signed characters is not negative or is a multiple of the table size |
| ConfigScopes.NegativeIndex | config4cpp/src/ConfigScope.cpp:590-602 | a name of one byte above 127 has index -1 |
| ConfigScopes.AsciiHashable | config4cpp/src/ConfigScope.cpp:590-602 | ASCII names are safe in tables of all sizes |
| ConfigScopes.ConfigScope.constructor | config4cpp/src/ConfigScope.cpp:44-62 | a new scope is an empty map |
| ConfigScopes.ConfigScope.hash | config4cpp/src/ConfigScope.cpp:589-602 | the loop computes that hash |
| ConfigScopes.ConfigScope.findEntry | config4cpp/src/ConfigScope.cpp:332-357 | finds the entry of the name if there is one, and its index in any case |
| ConfigScopes.ConfigScope.addOrReplaceString | config4cpp/src/ConfigScope.cpp:107-147 | fails exactly on the name of a scope, and otherwise updates the map at that name only |
| ConfigScopes.ConfigScope.addOrReplaceList | config4cpp/src/ConfigScope.cpp:159-246 | the same for lists |
| ConfigScopes.ConfigScope.ensureScopeExists | config4cpp/src/ConfigScope.cpp:256-294 | fails exactly on the name of a variable, gives the scope that is there, or adds an empty one inside this |
| ConfigScopes.ConfigScope.findItem | config4cpp/src/ConfigScope.cpp:306-319 | the item of the name, or none |
| ConfigScopes.ConfigScope.is_in_table | config4cpp/src/ConfigScope.cpp:403-409 | whether the map has the name |
| ConfigScopes.ConfigScope.removeItem | config4cpp/src/ConfigScope.cpp:361-392 | takes the name out of the map, and says whether it was there |
| ConfigScopes.ConfigScope.listLocalNames | config4cpp/src/ConfigScope.cpp:419-450 | the names of the wanted types, each once; wanted and unwanted entries add up to m_numEntries |
| ConfigScopes.ConfigScope.growIfTooFull | config4cpp/src/ConfigScope.cpp:612-643 | relinking into a table of twice the size keeps every entry, its item and the count, and restores the bound on the load |
| ConfigScopes.Link | config4cpp/src/ConfigScope.cpp:139-144 | putting an entry behind a header keeps all chains, and the names in their buckets |
| ConfigScopes.Unlink | config4cpp/src/ConfigScope.cpp:375-383 | bypassing an entry keeps the chains of all others |
| ConfigScopes.BucketMoved | config4cpp/src/ConfigScope.cpp:631-641 | while a chain is moved every entry is in exactly one of the two tables |
| StringFunctions.Split | config4cpp/src/ConfigParser.cpp:1314-1326 | the loop, which writes NULs into the text it scans, gives the pieces between the occurrences of a non-empty delimiter, and ends |
| StringFunctions.Replace | config4cpp/src/ConfigParser.cpp:1273-1287 | the loop replaces every occurrence, and ends |
| StringFunctions.Join | config4cpp/src/ConfigParser.cpp:1234-1241 | the loop puts the separator between elements |
| StringFunctions.SplitThenJoin | config4cpp/src/ConfigParser.cpp:1221-1327 | join undoes split, and replace is split followed by join |
| StringFunctions.JoinThenSplit | config4cpp/src/ConfigParser.cpp:1221-1327 | for every non-empty separator split undoes join if and only if there is an element, the separator does not occur in the last, and it does not begin inside any other when that is followed by the separator |
| StringFunctions.PiecesAreFree | config4cpp/src/ConfigParser.cpp:1298-1327 | no piece contains the delimiter |
| StringFunctions.TurnMoves | config4cpp/src/ConfigParser.cpp:1319-1325 | a turn of the search loop moves the start forward exactly if the text searched for is not empty; an empty one is found where the search begins |
| StringFunctions.LoopEnds | config4cpp/src/ConfigParser.cpp:1273-1325 | the loops of split and replace end exactly if the text they search for is not empty |
| PatternMatch.patternMatchInternal | config4cpp/src/Configuration.cpp:161-201 | true exactly if the text matches the pattern, with a star standing for zero or more characters; ends, and reads behind neither terminator |
| PatternMatch.patternMatch | config4cpp/src/Configuration.cpp:132-158 | the same for whole strings |
| PatternMatch.TwoStars | config4cpp/src/Configuration.cpp:178-184 | a run of stars means one star |
| PatternMatch.MatchesAreFillings | config4cpp/src/Configuration.cpp:132-201 | the texts that match are exactly those that the pattern becomes when each star is replaced by some text |
| ScopedNames.splitScopedNameIntoVector | config4cpp/src/util.cpp:34-54 | the loop, which overwrites dots by NULs, gives the components of a name |
| ScopedNames.ComponentsJoin | config4cpp/src/util.cpp:34-54 | they join to the name with dots, and none has a dot |
| ScopedNames.lookupHelper | config4cpp/src/ConfigurationImpl.cpp:653-675 | the item that is reached from one scope down the names |
| ScopedNames.lookup | config4cpp/src/ConfigurationImpl.cpp:605-649 | the current scope first, then those around it one by one (`PathLaws.NearestFirst`); a name with a dot in front is looked up in the root scope |
| ConfigurationTables.ConfigurationImpl.constructor | config4cpp/src/ConfigurationImpl.cpp:48-57 | an empty root scope, which is the current one |
| ConfigurationTables.ConfigurationImpl.insertString | config4cpp/src/ConfigurationImpl.cpp:381-404 | on the tree of hash tables, the item is added or replaced under the dotted name, scopes along it are created, and all else is as before; it fails exactly if something of the other kind is in the way, and then no more than the scopes in front of that are created |
| ConfigurationTables.ConfigurationImpl.insertList | config4cpp/src/ConfigurationImpl.cpp:436-458 | the same for lists |
| ConfigurationTables.ConfigurationImpl.ensureScopeExists | config4cpp/src/ConfigurationImpl.cpp:2873-2882 | the scopes along the name are there afterwards, up to the first variable, and the table of the last is given |
| ConfigurationTables.ConfigurationImpl.setCurrScope | config4cpp/src/ConfigurationImpl.h:690-694 | a table of the tree becomes the current one |
| ConfigurationTables.ConfigurationImpl.Printable | config4cpp/src/ConfigScope.cpp:545-579 | after any of these calls the tables are a tree that `dump` prints, with the contents that the laws of dotted names give |
| ConfigurationTables.walk | config4cpp/src/ConfigurationImpl.cpp:2886-2911 | the loop goes down the names from one table to the next, adds those that are missing, and leaves every other table of the tree as it is |
| ConfigurationTables.InsertClear | config4cpp/src/ConfigurationImpl.cpp:381-404 | an assignment is setting the entry in the scope that the front names lead to, unless a variable or, at the end, a scope is in the way |
| ConfigurationTables.EnsuredBlocked | config4cpp/src/ConfigurationImpl.cpp:2897-2909 | where a variable stops the loop, exactly the scopes in front of it have been created |
| ScopeTrees.enterScope | config4cpp/src/ConfigurationImpl.cpp:2898-2899 | one turn: the nested table of the name is found or added, with objects of its own, and no other part of the tree changes |
| ScopeTrees.ClosedAll | config4cpp/src/ConfigurationImpl.cpp:2886-2911 | changing the tree of an inner table sets the contents of its scope in the whole tree |
| ScopeTrees.TreeRepresents | config4cpp/src/ConfigScope.cpp:545-579 | tables that share no objects are what the printer takes |
| PathLaws.InsertThenLookup | config4cpp/src/ConfigurationImpl.cpp:381-404 | what is assigned to a dotted name is found under it, and what is found under names apart from it is as before |
| PathLaws.NearestScope | config4cpp/src/ConfigurationImpl.cpp:637-644 | going outwards finds an item exactly if some scope around the current one has it under the names and no scope nearer to the current one has anything; nothing exactly if none has |
| PathLaws.NearestFirst | config4cpp/src/ConfigurationImpl.cpp:605-649 | so does the lookup of a name without a leading dot; one with it is looked up in the root scope only |
| ConfigLaws.NameStandsFor | config4cpp/src/ConfigurationImpl.cpp:605-649 | in an expression a name stands for the item of the nearest scope that has one, and for that of the fallback configuration exactly if none has |
| PathLaws.EnsureKeepsVariables | config4cpp/src/ConfigurationImpl.cpp:2886-2911 | creating scopes along a dotted name makes them and changes no variable |
| PathLaws.WithinDeeper | config4cpp/src/ConfigParser.cpp:821-846 | setting a scope and then one inside it is setting the outer one with the inner one set |
| ConfigSkipping.SkippingAgrees | config4cpp/src/ConfigParser.cpp:478-500 | for every block that parses, skipToClosingBrace ends where parsing it and its closing brace ends |
| ConfigSkipping.StmtListNeutral | config4cpp/src/ConfigParser.cpp:226-240 | parsed statements have balanced braces: skipping passes over them at any depth |
| ConfigSkipping.BlocksEndAlike | config4cpp/src/ConfigParser.cpp:416-475 | executed or skipped, and whatever the configuration, a block ends at the same token |
| ConfigExtents.StmtListEndsAlike | config4cpp/src/ConfigParser.cpp:226-304 | any two successful runs on the same tokens end at the same token, whatever variables, branches and outside answers they saw |
| ConfigExtents.ElsesEndAlike | config4cpp/src/ConfigParser.cpp:439-467 | so do the later clauses of an @if statement |
| ConfigExtents.LaterBranchesDoNothing | config4cpp/src/ConfigParser.cpp:439-467 | once a branch has run the later clauses change nothing |
| ConfigExtents.OnlyFirstTrueBlockRuns | config4cpp/src/ConfigParser.cpp:415-467 | an @if statement with any number of clauses has the effect of the block of its first true condition alone, run from where the statement begins; of the @else block if none is true; and none if there is no @else |
| ConfigLexer.LexBase.nextByte | config4cpp/src/LexBase.cpp:238-263 | the next byte that is not a carriage return |
| ConfigLexer.LexBase.nextToken | config4cpp/src/LexBase.cpp:322-558 | the token at the front of the remaining text, and the text behind it |
| ConfigLexer.LexBase.consumeString | config4cpp/src/LexBase.cpp:619-686 | a string token with its escapes undone |
| ConfigLexer.LexBase.consumeBlockString | config4cpp/src/LexBase.cpp:569-607 | everything up to the first closing mark |
| ConfigLexer.LexBase.name | config4cpp/src/LexBase.cpp:505-548 | an identifier, or a function name with its parenthesis |
| ConfigParsing.ConfigParser.parseStmtList | config4cpp/src/ConfigParser.cpp:226-240 | moves through the tokens and changes the configuration as the grammar says, or throws exactly when the grammar has no parse |
| ConfigParsing.ConfigParser.parseStmt | config4cpp/src/ConfigParser.cpp:251-304 | the same for one statement |
| ConfigParsing.ConfigParser.parseScope | config4cpp/src/ConfigParser.cpp:821-846 | the named scope, created along a dotted name if need be, is current while its statements run, and the one around it is again afterwards |
| ConfigParsing.ConfigParser.parseRhsAssignStmt | config4cpp/src/ConfigParser.cpp:857-954 | the value is a string or a list according to its first token; the conditional assignment keeps a visible variable |
| ConfigParsing.ConfigParser.parseStringExpr | config4cpp/src/ConfigParser.cpp:964-975 | a sum of strings is their concatenation |
| ConfigParsing.ConfigParser.parseListExpr | config4cpp/src/ConfigParser.cpp:1393-1405 | a sum of lists is their concatenation |
| ConfigParsing.ConfigParser.parseStringExprList | config4cpp/src/ConfigParser.cpp:1516-1545 | a list may end with a comma |
| ConfigParsing.ConfigParser.parseIfStmt | config4cpp/src/ConfigParser.cpp:415-475 | condition, block and later clauses |
| ConfigParsing.ConfigParser.skipToClosingBrace | config4cpp/src/ConfigParser.cpp:478-500 | skips to the brace that closes the open one, and throws at the end of the input |
| ConfigParsing.ConfigParser.parseCondition | config4cpp/src/ConfigParser.cpp:510-543 | all operands are parsed, whatever the first ones are |
| ConfigParsing.ConfigParser.parseTerminalCondition | config4cpp/src/ConfigParser.cpp:576-648 | comparisons, membership, matching, negation and parentheses |
| ConfigParsing.parse | config4cpp/src/ConfigParser.cpp:109-204 | a whole input: the contents of the root scope afterwards, or an exception |
| ConfigMeaning.StringParsed | config4cpp/src/ConfigParser.cpp:964-1115 | a sum of string terms, of any depth, is parsed as the concatenation it stands for, and not at all exactly if it stands for none |
| ConfigMeaning.ListParsed | config4cpp/src/ConfigParser.cpp:1393-1545 | the same for sums of lists, with or without a comma behind the last element |
| ConfigMeaning.ConditionParsed | config4cpp/src/ConfigParser.cpp:510-648 | a condition tree, written with parentheses where its shape needs them, is parsed as its truth value |
| ConfigMeaning.CompareParsed | config4cpp/src/ConfigParser.cpp:614-642 | == holds for equal strings, != for unequal ones, and @matches where the wildcard pattern does |
| ConfigMeaning.BodySkipped | config4cpp/src/ConfigParser.cpp:478-500 | skipping passes over the statements of any program, whether they could be executed or not |
| ConfigMeaning.BlockParsed | config4cpp/src/ConfigParser.cpp:478-500 | a block is run, or skipped without effect |
| ConfigMeaning.ClausesParsed | config4cpp/src/ConfigParser.cpp:439-467 | later clauses: the first true one is run unless one has been, and the conditions of all are worked out |
| ConfigMeaning.AssignmentParsed | config4cpp/src/ConfigParser.cpp:857-954 | the variable gets the value; ?= keeps a visible variable, though the value is worked out |
| ConfigMeaning.ScopeParsed | config4cpp/src/ConfigParser.cpp:821-846 | the body of a scope is run with that scope as the current one |
| ConfigMeaning.StatementParsed | config4cpp/src/ConfigParser.cpp:251-304 | every kind of statement has the effect that its tree stands for |
| ConfigMeaning.ProgramParsed | config4cpp/src/ConfigParser.cpp:226-240 | for every program tree, parsing its tokens leaves the configuration that the tree stands for, and throws exactly if it stands for none |
| ConfigTexts.GapSkipped | config4cpp/src/LexBase.cpp:331-484 | white space and comments in front of a token change nothing |
| ConfigTexts.BlockInverts | config4cpp/src/LexBase.cpp:569-607 | a block string without a closing mark inside reads back as it is |
| ConfigTexts.FixedRead | config4cpp/src/LexBase.cpp:374-558 | every operator, punctuation mark, keyword and built-in function name is read as its token, whatever follows that cannot continue it |
| ConfigTexts.TextTokens | config4cpp/src/LexBase.cpp:322-558 | any text in which tokens are written one after the other, with gaps where they would run together, has exactly those tokens |
| ConfigTexts.TextWrites | config4cpp/src/LexBase.cpp:322-558 | all tokens that have a spelling can be written so |
| ConfigTexts.TextMeaning | config4cpp/src/ConfigParser.cpp:109-204 | parsing any text of a program leaves the configuration that the program stands for, and throws exactly if it stands for none |
| ConfigTexts.ConditionDecides | config4cpp/src/ConfigParser.cpp:415-475 | after any text of @if (c) { x = "1"; } @else { x = "0"; } the variable is "1" exactly if c holds and "0" exactly if it does not; the parse throws exactly if c stands for nothing |
| ConfigLaws.AssignmentStands | config4cpp/src/ConfigParser.cpp:857-954 | after an assignment the name stands for the value, unless it was conditional and a variable was visible, when nothing changes; names apart stand for what they did |
| ConfigLaws.RootedNamesThrow | config4cpp/src/ConfigParser.cpp:275-280 | declaring a variable or a scope under a name with a dot in front throws |
| ConfigLaws.RemovalTakesOne | config4cpp/src/ConfigParser.cpp:770-795 | @remove succeeds exactly for a name without dots that the current scope has, and takes out that name only |
| ConfigLaws.ScopeIsEntered | config4cpp/src/ConfigParser.cpp:821-846 | the statements of a scope start from what that scope had, from nothing if it is new; variables around it stay |
| ConfigPrinter.escapeString | config4cpp/src/ConfigItem.cpp:50-81 | the four special characters are written as two |
| ScopeDump.dumpItem | config4cpp/src/ConfigItem.cpp:174-221 | appends the text of the item, and of all inside it |
| ScopeDump.SortNames | config4cpp/src/ConfigScope.cpp:560-572 | the same names in increasing order |
| ScopeDump.ListedNames | config4cpp/src/ConfigScope.cpp:559-577 | what the hash table lists for a kind, sorted, is the names of the entries of that kind in their order |
| ScopeDump.dump | config4cpp/src/ConfigScope.cpp:545-579 | listing the hash table, sorting and finding each name again appends the variables and then the nested scopes, each in the order of their names, through all nested hash tables |
| ScopeDump.OneMeaning | config4cpp/src/ConfigScope.cpp:545-579 | a tree of hash tables represents one list of entries only |
| ScopeDump.DumpAndParse | config4cpp/src/ConfigScope.cpp:545-579 | printing a tree of hash tables and parsing the text into an empty configuration gives its contents, unchanged exactly if no value has a carriage return |
| ConfigRoundTrip.StringInverts | config4cpp/src/LexBase.cpp:619-686 | reading an escaped string gives the string, for all strings |
| ConfigRoundTrip.ScopeTextTokens | config4cpp/src/ConfigScope.cpp:545-579 | the printed text of a scope has exactly the tokens of its entries |
| ConfigRoundTrip.EntriesParsed | config4cpp/src/ConfigParser.cpp:226-304 | those tokens fill an empty scope with the entries |
| ConfigRoundTrip.StrippedSame | config4cpp/src/LexBase.cpp:243-258 | dropping carriage returns changes nothing exactly if no value has any |
| ConfigRoundTrip.RoundTrip | config4cpp/src/ConfigItem.cpp:50-221 | parsing the printed text of a configuration with legal names into an empty one gives it back, without the carriage returns of its values; unchanged exactly if no value has any |
| SortedEntries.Canonical | config4cpp/src/ConfigScope.cpp:545-579 | two sorted entry lists in which the same is found are equal |
| SortedEntries.BothPasses | config4cpp/src/ConfigScope.cpp:561-578 | adding variables first and scopes second rebuilds the list |
| SortedEntries.FindPut | config4cpp/src/ConfigScope.cpp:107-147 | adding or replacing changes what is found at that name only |
| SortedEntries.FindWithout | config4cpp/src/ConfigScope.cpp:361-392 | taking a name out changes what is found at that name only |

## Left out

- BasicSolver.BasicSolve: cancellation exceptions, log output, and memory reservation are not modelled; K below 3 and N that is not a multiple of K + 1 are excluded, because a solution is then not a whole number of bytes or a hash output does not split into whole blocks.
- OptimisedSolver.OptimisedSolve: the same; the order in which a set of solutions is iterated is left open.
- RepeatedSolutions.SolutionTimes: a lower bound; how often a partial solution is found beyond that depends on which rows collide.
- MixedExample.MixedReached: given for K = 3, where the lists can be written down.
- CollisionRounds.SortRows: an insertion into a sorted sequence stands for `std::sort`; only its contract, a sorted permutation, is used.
- CollisionRounds.CollideInPlace: one model of the loop text that three callers share, with the rule for which pairs count as a parameter; table positions are unbounded integers.
- RowBuffers.FullStepRow.FromPair: rows with truncated indices exist on values only, without a buffer layout; bytes behind the live ones are not described.
- The buffer widths of rows with truncated indices.
- Primality itself: primes pass (`PrimePasses`), but passing numbers are not claimed to be prime.
- ChainTests.ProbableCunninghamChainTestFast: starting numbers below 3 and lengths from 256 on, where the 8.24 word overflows, are excluded.
- ChainTests.ProbableBiTwinChainTestFast: the same for origins.
- ChainTests.ProbablePrimeChainTestFast: the same.
- Sha256Class.SHA_256.update: one call takes less than 2^31 bytes, as the block offsets are signed ints.
- The hexadecimal output of `sha256_str`, and the OpenCL calls of `simplePrecalcSHA256`.
- Sha256.Constant: the table of constants is written once; the two tables of sha256.cpp are the same numbers.
- The BLAKE2b compression function, its parameter block and its keyed form.
- Uint256.base_uint.Less: the four order operators are one loop here, with a flag for equal numbers.
- The bitwise operators, the 64-bit overloads and `getdouble` of uint256.h.
- FermatPipeline.PrimeMiner.FermatDispatch: the caller's buffers must have room for all waiting and new candidates, which the source does not check; device copies are synchronous; the results of the Fermat kernels are any list of numbers.
- FermatPipeline.PrimeMiner.Admit: the same room is asked for.
- FermatPipeline.PrimeMiner.CheckKernel: the final buffer is a sequence without a bound; the source's has MFS/(4*mDepth) places for both pipelines (xpmclient.cpp:325), is written by the kernel without a check, and is read up to its size (xpmclient.cpp:595).
- ConfigScopes.ConfigScope.addOrReplaceString: the source has one body per kind of value, which are the same text; deletion of items and entries, and overflow of the character sum, are not modelled.
- ConfigScopes.ConfigScope.constructor: scoped names are not kept.
- ScopeDump.dumpItem: the unexpansion of uid- names is left out; an insertion into a sorted list stands for `qsort`.
- ConfigSyntax.ParseStmt: what `@include`, `@copyFrom`, `exec(`, `getenv(`, `readFile(`, `siblingScope(` and the other functions that ask the system answer, and what the fallback configuration holds, are parameters; so are circular includes.
- ConfigSyntax.ParseReplace: an empty search text, for which the loop does not end (`LoopEnds`), is a failure of the parse here; so is an empty delimiter in ParseSplit.
- StringFunctions.Split: the empty delimiter is excluded, because the loop then does not end (`LoopEnds`).
- StringFunctions.Replace: the empty search text is excluded for the same reason.
- ConfigLexer.LexBase.nextToken: multi-byte characters and line numbers are not covered.
- ScopedNames.lookup: the search of the fallback configuration is left to `ConfigSyntax.Value`, and the `startInRoot` flag to the dot in front of the name.
- ConfigurationTables.ConfigurationImpl.insertString: the scope and the local name are taken as merged into one dotted name; a failure is a result, with the source's message left out; all names are hashable (`HashInRange`). The interpreter of `ConfigParsing` works on contents, not on these tables.
- ConfigurationTables.ConfigurationImpl.setCurrScope: going back out to an outer scope is stated for a caller who shows where that table is.
- ConfigLexer.LexBase.consumeString: an invalid escape sequence is a last token that nothing accepts, where the source throws at once; line numbers, multi-byte characters and messages are not kept.
- ConfigText.Keyword: the binary search in sorted tables is a comparison with their entries.
- The schema validator, the security configuration, type conversions, and Config2Cpp.
- Networking, OpenCL setup and device kernels, GPU monitoring, difficulty statistics, and benchmarks.

# Verified model of the fuzzy-PSI building blocks

This project models the arithmetic and the data structures under the fuzzy private set
intersection protocol, and proves what they promise each other:

* **RB-OKVS** (`Words`, `BandRows`, `RbOkvs`, `PrimeOkvs`): a key-value store as a banded linear
  system. Rows of packed 64-bit words are shifted, XORed and stored in place, then solved from the
  last column down. The version over a prime field sorts its rows instead.
* **Paxos and Baxos** (`RowHash`, `ColumnIndex`, `WeightBuckets`, `Cores`, `Triangulation`,
  `SparseRows`, `FcInverse`, `Inversion`, `Matrices`, `Refusal`, `GapSystem`, `EqualKeys`, `Backfill`,
  `GroupDecode`, `Paxos`, `GapExample`, `BaxosBins`, `BaxosThreads`, `BaxosDecode`, `Baxos`): the peeling key-value store
  over GF(2^128) and its parallel front end.
* **Interval decomposition** (`BinaryNumbers`, `Decompose`, `SetDec`, `PrefixTables`): intervals as
  binary prefixes of allowed lengths, and the size bounds of the parameter tables.
* **Two-party sharing** (`BeaverTriples`, `EqualityTree`, `IdTransfer`, `Modular`, `Binomials`,
  `LpShares`): secret-shared equality from Beaver triples, the transfer of identifiers, and shares
  of |x - y|^p modulo 2^32.
* **Fuzzy map** (`CellLabels`, `FuzzyMap`): cell labels and the blinded exchange after which close
  points carry the same identifier, and exactly when they do.

`Fields` holds the operations of a block or scalar as a record with its laws as a predicate,
`Equations` linear equations with 0/1 coefficients, `Layout` rows in a flat array, `Division` the
quotients of unsigned numbers, `FiniteSets` the sizes of sets, `Random` the PRNG as an arbitrary
stream of outputs.

Hashes, PRF and PRNG are parameters, so every result holds for all of them. Oblivious transfer and
VOLE are preconditions that state their ideal correlation. Threads are steps of a state machine, and
results hold after every schedule. A thrown exception is a status or an `Err`.

Arithmetic is exact where it can wrap: `U64`, `U32` and the `Same` congruence stand for the machine
words of the interval and L_p code.

## Model

| member | source | states |
|---|---|---|
| RbOkvs.RBOKVS.Encode | fpsi/rb_okvs/rb_okvs.cpp:503-731 | FAIL exactly when no codeword satisfies all keys; on SUCCESS every key decodes to its value, the free columns hold the PRNG outputs in turn, and no other solution has these free columns |
| RbOkvs.RBOKVS.Decode | fpsi/rb_okvs/rb_okvs.cpp:1097-1246 | the 64-way unrolled decode is the plain inner product of band and codeword |
| RbOkvs.RBOKVS.Insert | fpsi/rb_okvs/rb_okvs.cpp:425-468 | the elimination loop ends, keeps the stored rows in echelon form and the solution set next to the earlier rows; FAIL leaves a row 0 = v with v not zero |
| RbOkvs.RBOKVS.Reformalize | fpsi/rb_okvs/rb_okvs.cpp:315-362 | drops exactly the leading zero bits of the band and adds their number to the start position; ALLZERO and FAIL exactly for an empty band with a zero or non-zero value |
| RbOkvs.MovedThenShifted | fpsi/rb_okvs/rb_okvs.cpp:338-359 | the word memmove followed by the cross-word shift is one shift of the whole bit string to its first one |
| RbOkvs.RBOKVS.SubstituteRow | fpsi/rb_okvs/rb_okvs.cpp:571-717 | the in-place, 64-way unrolled substitution solves the row that leads the column and writes no other column |
| RbOkvs.RBOKVS.OnlySolution | fpsi/rb_okvs/rb_okvs.cpp:567-720 | two solutions that agree on the free columns are equal |
| RbOkvs.AddWord | fpsi/rb_okvs/rb_okvs.cpp:1106-1236 | the 64 unrolled steps add the selected columns of one word |
| BandRows.ShiftKeepsEquation | fpsi/rb_okvs/rb_okvs.cpp:338-359 | moving leading zeros from the band into the start position leaves the equation unchanged |
| BandRows.AddRowsAddsEquations | fpsi/rb_okvs/rb_okvs.cpp:438-451 | XORing packed rows with equal start adds their equations and cancels the leading column |
| BandRows.ExtendEchelon | fpsi/rb_okvs/rb_okvs.cpp:425-468 | a new row keeps one row per leading column |
| Equations.RowOperation | fpsi/rb_okvs/rb_okvs.cpp:438-451 | adding an equation that holds changes no solution |
| PrimeOkvs.Encode | fpsi/rb_okvs/rb_okvs.cpp:2082-2194 | every row finds a pivot exactly when the rows are linearly independent, and exactly when every choice of values has a codeword; the given values have one exactly if the rows left without a pivot have no value left, and if no later row sees the columns those rows write, every key decodes to its value exactly then; columns no pivot field names keep their random value |
| PrimeOkvs.IndependentIsCodable | fpsi/rb_okvs/rb_okvs.cpp:2082-2194 | the rows are independent exactly when every choice of values for the keys has a codeword |
| PrimeOkvs.EqualKeysFail | fpsi/rb_okvs/rb_okvs.cpp:2082-2194 | two equal keys with different values: no codeword exists and a row finds no pivot, while SUCCESS is returned |
| PrimeOkvs.EqualKeysCanFail | fpsi/rb_okvs/rb_okvs.cpp:2138-2186 | two equal keys with equal values and a third one: a codeword exists, but the row without a pivot overwrites the column just solved for the third key, as its pivot field is an offset |
| PrimeOkvs.LateIsHarmless | fpsi/rb_okvs/rb_okvs.cpp:2138-2186 | a row without a pivot that starts behind the first band writes a column no later row sees |
| PrimeOkvs.ChainSolves | fpsi/rb_okvs/rb_okvs.cpp:2169-2186 | the back substitution solves every reduced row if rows without a pivot have no value left and write columns later rows do not see |
| PrimeOkvs.TestDecode | fpsi/rb_okvs/rb_okvs.cpp:2407-2487 | the decoding loop is the inner product of band and codeword |
| PrimeOkvs.OneMorePivot | fpsi/rb_okvs/rb_okvs.cpp:2112-2164 | the elimination below a row gives its pivot column to that row alone, and earlier pivot columns stay zero in all later rows |
| PrimeOkvs.SubtractRow | fpsi/rb_okvs/rb_okvs.cpp:2133-2162 | the shifted subtraction, with its shortcuts for multipliers 0 and 1, adds a multiple of the pivot row and zeroes the pivot column |
| PrimeOkvs.BehindAreZero | fpsi/rb_okvs/rb_okvs.cpp:2134-2136 | stopping at the first row that starts behind the pivot misses no row, as the rows are sorted |
| PrimeOkvs.EchelonIndependent | fpsi/rb_okvs/rb_okvs.cpp:2112-2164 | rows that all found a pivot are independent: for each there is a vector only it and later rows see |
| PrimeOkvs.HashToBand | fpsi/rb_okvs/rb_okvs.cpp:1788-1823 | band element i is one or zero after bit i of the hash bytes |
| Inversion.ScalarInverse | fpsi/opprf/PaxosImpl.h:38-67 | the chain of `rounds` squaring runs computes x^(2^(2^rounds) - 2) |
| Inversion.PowerInverts | fpsi/opprf/PaxosImpl.h:38-67 | in a field of 2^(2^k) elements that power is the inverse of every non-zero x |
| Matrices.MatrixInverse | fpsi/opprf/PaxosImpl.h:69-128 | what is returned is the two-sided inverse of the input; the empty matrix is returned exactly when the input is not accepted, whose causes Refusal.RefusalCauses gives |
| Refusal.RefusalCauses | fpsi/opprf/PaxosImpl.h:69-128 | a matrix is refused exactly if it is singular, or some column with the columns before it cleared has a zero diagonal, no one and a non-zero entry below |
| Matrices.RefusesInvertible | fpsi/opprf/PaxosImpl.h:80-100 | an invertible matrix that is refused, as the pivot search takes only an entry equal to one |
| Matrices.PivotedIs | fpsi/opprf/PaxosImpl.h:80-100 | the pivot search changes nothing unless the diagonal entry is zero, and then swaps up the first row below with a one |
| WeightBuckets.WeightData.PushNode | fpsi/opprf/PxUtil.h:203-220 | links the node in front of the list of its weight and keeps all lists the partition of the listed nodes by weight |
| WeightBuckets.WeightData.PopNode | fpsi/opprf/PxUtil.h:222-250 | unlinks exactly this node; the top bucket is non-empty again |
| WeightBuckets.WeightData.DecrementWeight | fpsi/opprf/PxUtil.h:252-257 | moves one node down by one weight and touches no other |
| WeightBuckets.WeightData.GetMinWeightNode | fpsi/opprf/PxUtil.h:260-269 | a listed node of least non-zero weight |
| WeightBuckets.WeightData.Init | fpsi/opprf/PxUtil.h:273-317 | all nodes listed with the given weights |
| WeightBuckets.WeightData.BucketsPartition | fpsi/opprf/PxUtil.h:319-350 | a node is in the list of a weight exactly if it is listed and has that weight |
| WeightBuckets.PushRepresents | fpsi/opprf/PxUtil.h:203-220 | the link updates of a push turn the spelled lists into the pushed ones |
| WeightBuckets.PopSpells | fpsi/opprf/PxUtil.h:222-250 | unlinking the k-th node of a list spells the list without it |
| Triangulation.Triangulate | fpsi/opprf/PaxosImpl.h:986-1064 | it ends without a gap row and without a refusal exactly if the rows have no core, a non-empty set of rows in which every column occurs at least twice; main and gap rows partition the rows, mainRows[k] holds mainCols[k] and no later main or gap row does, each gap row shares the pivot column of its partner, an earlier row with another dense value; refused only for two rows with a common column and equal dense values |
| Triangulation.TakeLightest | fpsi/opprf/PaxosImpl.h:1001-1006 | the column fixed next is the first of the lightest list: no listed column with unset rows has fewer of them |
| Triangulation.UnsetIsCore | fpsi/opprf/PaxosImpl.h:1001-1058 | if even a lightest column has two unset rows, the unset rows are a core |
| Cores.CoreOrOrder | fpsi/opprf/PaxosImpl.h:986-1064 | rows have no core exactly if they can be ordered so that each has a column no later one has |
| Triangulation.SetRow | fpsi/opprf/PaxosImpl.h:1012-1037 | setting a row keeps every listed column's weight the number of its unset rows |
| Triangulation.CountOneLess | fpsi/opprf/PaxosImpl.h:1012-1037 | setting an unset row of a column lowers its count of unset rows by one |
| Triangulation.AllRowsSet | fpsi/opprf/PaxosImpl.h:1055-1062 | when no column has weight left, every row is set, so the final throw is not reached |
| ColumnIndex.Columns.RebuildColumns | fpsi/opprf/PaxosImpl.h:1994-2043 | every span lists exactly its column's rows in order; refused exactly when the weights do not add up to the backing array |
| ColumnIndex.Columns.SetInput | fpsi/opprf/PaxosImpl.h:779-801 | the counted weights are the column sizes, and with a backing array of weight * rows slots no throw is reached |
| ColumnIndex.CountWeights | fpsi/opprf/PaxosImpl.h:786-797 | each column's count is the number of rows that hold it, and all counts add up to weight * rows |
| ColumnIndex.HoldsPush | fpsi/opprf/PaxosImpl.h:2032-2042 | appending to one span leaves the lists of all others as they are |
| Paxos.Paxos.SetInput | fpsi/opprf/PaxosImpl.h:779-801 | refuses exactly rows or dense values of another number and rows of another width; otherwise columns and weights are those of the rows |
| FcInverse.GetFCInv | fpsi/opprf/PaxosImpl.h:2047-2123 | the main rows returned for a gap row XOR to it on every pivot column; a partner with the same sparse columns is returned alone |
| FcInverse.EliminateGapRow | fpsi/opprf/PaxosImpl.h:2080-2118 | the loop ends, since the largest pivot index in the row set falls, and leaves no pivot column |
| SparseRows.ListSumIsSum | fpsi/opprf/PaxosImpl.h:2047-2123 | the sum of listed rows selects exactly the columns that occur an odd number of times |
| SparseRows.LeftoverSum | fpsi/opprf/PaxosImpl.h:2047-2123 | a gap row less its listed main rows selects its leftover columns |
| GapSystem.SolveGap | fpsi/opprf/PaxosImpl.h:1405-1462 | the dense columns satisfy the equation of every gap row; refused exactly if the gap matrix, with the PRNG rows below if there is a PRNG, is singular or misses a pivot |
| GapSystem.GapDenseSum | fpsi/opprf/PaxosImpl.h:1424-1446 | a row of E' is the dense part of the gap row plus those of its listed main rows |
| Backfill.BackfillMain | fpsi/opprf/PaxosImpl.h:1468-1546 | filling the pivot columns backwards solves every main row and keeps all other columns |
| Backfill.Decode1 | fpsi/opprf/PaxosImpl.h:1963-1991 | the decoding loops add the sparse columns and the powers of the dense value |
| Backfill.UnitDecodes | fpsi/opprf/PaxosImpl.h:1963-1991 | the matrix of decoding: a sparse column counts once for the rows that name it, dense column j counts the power j + 1 of the dense value |
| Backfill.DecodingAdds | fpsi/opprf/PaxosImpl.h:1963-1991 | the sum of two codewords decodes to the sum of what they decode to |
| GroupDecode.Decode32 | fpsi/opprf/PaxosImpl.h:1548-1742 | 32 rows decoded in step, column by column and power by power: each value is what its row decodes to |
| Paxos.Paxos.Encode | fpsi/opprf/PaxosImpl.h:1068-1097 | always encodes, and every row decodes, with or without a PRNG, if the rows have no core, and there is a gap row or a refusal exactly if they have one; never encodes two rows with the same columns and dense value; refused exactly for a gap larger than the dense part, or for a gap matrix that is singular or misses a pivot; otherwise every row decodes to its value, given no PRNG or gap rows that equal their partners; with a PRNG the columns without a pivot hold its outputs in turn |
| EqualKeys.NoEqualKeys | fpsi/opprf/PaxosImpl.h:1045-1057 | the duplicate check compares a gap row with its partner only; still no two rows with the same columns and dense value survive it and an invertible gap system |
| EqualKeys.SameLists | fpsi/opprf/PaxosImpl.h:2047-2123 | lists of main rows that cancel the same pivot columns have the same dense sums, so the gap rows of equal keys have equal rows of the gap system |
| Paxos.GapRowExactly | fpsi/opprf/PaxosImpl.h:1120-1130 | a gap row decodes to its value exactly if its leftover columns add up to zero |
| Paxos.LeftoverDecides | fpsi/opprf/PaxosImpl.h:1120-1130 | the leftover adds up to zero for every codeword exactly if there is no leftover column |
| Paxos.NothingLeftDecodes | fpsi/opprf/PaxosImpl.h:1068-1097 | with zero free columns, or with gap rows that equal their partners, every row decodes |
| GapExample.RandomizedRowFails | fpsi/opprf/PaxosImpl.h:1068-1130 | four rows for which every peeling leaves a gap row that some codeword with random free columns decodes wrongly |
| GapExample.FourRowsPeel | fpsi/opprf/PaxosImpl.h:986-1064 | the peeling of these rows in the order of the weights |
| RowHash.TripleBijection | fpsi/opprf/PaxosImpl.h:599-624 | reduced hash words and ordered triples of distinct columns below n correspond one to one |
| RowHash.BuildRow | fpsi/opprf/PaxosImpl.h:583-649 | one row in place and nothing outside it: for weight 3 the j-th column is the one with (word j modulo n - j) missing columns below it, given the columns before; otherwise the columns are those that the squares pick in this way, in increasing order |
| RowHash.BuildRow32 | fpsi/opprf/PaxosImpl.h:364-580 | 32 rows, branch-free for weight 3, are those buildRow makes of the same hashes, each picked as there |
| RowHash.OnePick | fpsi/opprf/PaxosImpl.h:596-646 | words pick one row only: two rows picked by the same words are equal |
| RowHash.BranchFree | fpsi/opprf/PaxosImpl.h:392-517 | XOR, mask and subtract of one lane compute the case distinctions |
| RowHash.RowIsDistinct | fpsi/opprf/PaxosImpl.h:583-649 | every row has `weight` distinct columns below n, in increasing order for weights other than 3 |
| RowHash.InsertAddsMissing | fpsi/opprf/PaxosImpl.h:631-646 | inserting c adds x exactly if x is missing from the row with c missing columns below it |
| BaxosBins.MergeBin | fpsi/opprf/PaxosImpl.h:2507-2574 | merging in place gathers the threads' parts in order at the front of the bin and writes no other bin |
| BaxosThreads.Job.HashKeepsInv | fpsi/opprf/PaxosImpl.h:2429-2485 | one thread's hashing step keeps the invariant of all threads and bins |
| BaxosThreads.Job.ArriveKeepsInv | fpsi/opprf/PaxosImpl.h:2496-2500 | arriving at the barrier keeps the invariant |
| BaxosThreads.Job.MergeKeepsInv | fpsi/opprf/PaxosImpl.h:2502-2574 | merging one bin behind the barrier keeps the invariant |
| BaxosThreads.Job.DoneMeansBinned | fpsi/opprf/PaxosImpl.h:2502-2574 | when all threads are done, each bin starts with exactly the hashes and values routed to it, still paired |
| BaxosThreads.Job.NoDeadlock | fpsi/opprf/PaxosImpl.h:2496-2507 | until all bins are merged some thread can take a step |
| BaxosThreads.Job.AllBins | fpsi/opprf/PaxosImpl.h:2507 | the strided loops of the threads together visit every bin once |
| BaxosThreads.SharesAre | fpsi/opprf/PaxosImpl.h:2430-2431 | thread t hashes the inputs from n * t / threads on, and merges the bins b with b % threads = t |
| BaxosThreads.TakeStep | fpsi/opprf/PaxosImpl.h:2429-2611 | a step is taken exactly if it is enabled, moves the progress on as the protocol says, and then one step less is left; only merging a bin that is too large ends the run |
| BaxosThreads.Job.BinSize | fpsi/opprf/PaxosImpl.h:2508-2514 | the added sizes are the number of inputs routed to the bin |
| BaxosThreads.Binner.Hash | fpsi/opprf/PaxosImpl.h:2429-2485 | one hashing step on the shared memory keeps the invariant and moves one thread on by one input |
| BaxosThreads.Binner.Merge | fpsi/opprf/PaxosImpl.h:2502-2574 | refuses exactly a bin with more inputs than fit; otherwise the bin is complete |
| BaxosThreads.RunSchedule | fpsi/opprf/PaxosImpl.h:2429-2611 | the run is over exactly when it has taken one step per input, thread and bin, in whatever order, and then every bin is complete and fits; it is refused exactly if the schedule merges a bin with too many inputs, and else the progress is that of the schedule |
| BaxosDecode.DecodeBin | fpsi/opprf/PaxosImpl.h:2679-2721 | groups of 32 and the rest handle each input of a batch once: its output is assigned what the bin decodes it to, or that is added to it if addTo is set |
| BaxosDecode.DecodeBatch | fpsi/opprf/PaxosImpl.h:2724-2816 | with all flushes, each output is assigned its input decoded once by its bin, or that is added to what was there if addTo is set |
| Baxos.BuildRows | fpsi/opprf/PaxosImpl.h:2578-2607 | the rows of a bin, in groups of 32 for weight 3 and one by one otherwise, are those of its hashes |
| Baxos.SolveBin | fpsi/opprf/PaxosImpl.h:2508-2610 | a bin whose rows have no core is solved; a solved bin has no two equal keys and decodes each of its hashes to its value, given no PRNG or gap rows that equal their partners; an unsolved one has a core and two rows with a common column and equal dense values, too many gap rows, or a gap matrix that is singular or misses a pivot |
| Baxos.Solve | fpsi/opprf/PaxosImpl.h:2337-2622 | for every schedule of the threads: refused exactly if it merges a bin that is too large, unfinished exactly if it leaves a step untaken, and failed only at a bin with a cause as above, so never if no bin has a core; if every bin is solved, each input decodes to its value in the slice of its bin |
| Baxos.Check | fpsi/opprf/Paxos.h:480-496 | the debugging check passes exactly if every input decodes to its value |
| Baxos.SolveChecked | fpsi/opprf/PaxosImpl.h:2312-2335 | solving and then decoding all inputs gives their values, so the check passes: without a PRNG, with gap rows that equal their partners, or if no bin has a core |
| Decompose.DecomposeImprove | fpsi/utils/set_dec.cpp:49-102 | throws exactly for min > max, so never for a missing aligned start; otherwise the blocks of the two sides of the anchor |
| Decompose.PrefixesTile | fpsi/utils/set_dec.cpp:49-102 | every 64-bit v lies in exactly one block if min <= v <= max, and in none otherwise |
| Decompose.PrefixLengths | fpsi/utils/set_dec.cpp:49-102 | every block string has between 34 and 64 bits |
| SetDec.SetRoundIsLargest | fpsi/utils/set_dec.cpp:31-45 | the largest allowed length below the given one |
| SetDec.SetDec | fpsi/utils/set_dec.cpp:106-137 | throws exactly for x > y or no lengths; otherwise every block refined to allowed lengths |
| SetDec.SetPrefix | fpsi/utils/set_dec.cpp:141-150 | throws exactly for a length above 64; otherwise one prefix of the value per length |
| SetDec.RefinedHits | fpsi/utils/set_dec.cpp:106-137 | refining changes for no value how many strings are prefixes of it |
| SetDec.RefinedLengths | fpsi/utils/set_dec.cpp:106-137 | with 0 allowed, every refined string has an allowed length |
| SetDec.MatchesExactlyOnce | fpsi/utils/set_dec.cpp:49-150 | an interval and a value share exactly one string if the value lies in it, and none otherwise |
| SetDec.CompleteExactlyWithZero | fpsi/utils/set_dec.cpp:106-150 | that holds for all intervals and values exactly if length 0 is allowed |
| SetDec.BoundsOfPrefix | fpsi/utils/set_dec.cpp:153-163 | up_bound and low_bound are the ends of the values that have the prefix |
| PrefixTables.SizeIsDigitSums | fpsi/utils/set_dec.cpp:59-137 | the number of strings is the mixed-radix digit sums of the two side lengths |
| PrefixTables.SizeDependsOnResidue | fpsi/utils/set_dec.cpp:59-137 | so it depends on the start only modulo 2^(w-1) |
| PrefixTables.BestIsMax | fpsi/utils/params_selects.h:22-32 | the digit recursion finds the largest digit sum of two numbers with a given sum |
| PrefixTables.LargestSize | fpsi/utils/params_selects.h:22-32 | that is the largest number of strings of all intervals of a length, and some interval has it |
| PrefixTables.IfMatchBoundsAreExact | fpsi/utils/params_selects.h:22-32 | every bound of the table holds for all 64-bit intervals of its length and is reached |
| PrefixTables.LpBoundsAreExact | fpsi/utils/params_selects.h:57-66 | the same for the L_p table |
| PrefixTables.LinfBoundsAreExact | fpsi/utils/params_selects.h:100-108 | the same for the L_inf table |
| BeaverTriples.Triples.Gen | fpsi/pis_new/triple.cpp:49-56 | the arrays hold what the transfer outputs give: a from the two messages, b the choice, c the combination |
| BeaverTriples.TransfersGiveTriples | fpsi/pis_new/triple.cpp:49-107 | transfers in both directions give shares with (a0+a1)(b0+b1) = c0+c1 |
| EqualityTree.GenTriples | fpsi/pis_new/triple.cpp:49-107 | both parties generate triples from transfers in both directions, and all of them share products |
| EqualityTree.MaskRow | fpsi/pis_new/equal.cpp:16-28 | the masked pairs of a row, one triple each |
| EqualityTree.CombineRow | fpsi/pis_new/equal.cpp:34-47 | the next level of a row in place, from the bits as they were before the level |
| EqualityTree.CombineLevel | fpsi/pis_new/equal.cpp:33-47 | moving the cursor back and once per pair leaves it where it was, and every row is the next level's, each pair with its own triple |
| EqualityTree.PairKeepsAnd | fpsi/pis_new/equal.cpp:3-102 | the new bits of both parties share the AND of the two shared bits, or the odd bit left over |
| EqualityTree.EqualLevel | fpsi/pis_new/equal.cpp:9-49 | one level of both parties keeps every row's AND and uses one triple per pair |
| EqualityTree.Equal | fpsi/pis_new/equal.cpp:3-102 | for every length the results share the AND of each row, and exactly n * (length - 1) triples are used, each once |
| EqualityTree.BatchPeqt | fpsi/pis_new/batch_peqt.h:19-59 | with triples generated from transfers in both directions, the results share a one exactly at the positions where the elements are equal |
| IdTransfer.PlaceMessages | fpsi/fpsi_sender.cpp:766-787 | the two messages of a bin are its identifier and a random value, the identifier where the receiver's share differs |
| IdTransfer.SelectMessages | fpsi/fpsi_recv.cpp:799-802 | opens the message of the receiver's share |
| IdTransfer.Transfer | fpsi/fpsi_sender.cpp:766-787 | the receiver gets the identifier exactly for a filled bin whose shares differ, and a random value otherwise |
| IdTransfer.MatchBins | fpsi/fpsi_sender.cpp:732-792 | equality test and transfer together: the receiver gets the sender's identifier exactly from a filled bin whose two elements are equal, and a random value from any other |
| Modular.FastPow | fpsi/utils/dist_util.h:58-67 | square-and-multiply with u64 wraps is the power modulo 2^32 and modulo 2^64 |
| Binomials.Combination | fpsi/utils/dist_util.h:45-55 | zero above n, otherwise the rounds of wrapped products and quotients for the smaller of k and n - k |
| Binomials.CombinationIsExact | fpsi/utils/dist_util.h:45-55 | the result is the binomial coefficient exactly if no product wraps |
| Binomials.ExactUpTo30 | fpsi/utils/dist_util.h:45-55 | all coefficients of a power come out right in 32 bits exactly for powers up to 30 |
| Binomials.SmallFits | fpsi/utils/dist_util.h:45-55 | for n up to 30 no product wraps in 32 bits |
| Binomials.CombinationWraps | fpsi/utils/dist_util.h:45-55 | at n = 31, k = 15 the 32-bit result is wrong |
| Binomials.BinomialTheorem | fpsi/fpsi_sender.cpp:1045-1080 | the expansion with these coefficients is the power of the sum |
| LpShares.PrefixVals | fpsi/fpsi_recv.cpp:1011-1080 | the programmed values are the powers of the difference under the receiver's masks |
| LpShares.Candidate | fpsi/fpsi_sender.cpp:1045-1080 | u_hat and the v values of one dimension, modulo 2^32 |
| LpShares.VHat | fpsi/fpsi_recv.cpp:1160-1196 | the opened sum of one dimension, modulo 2^32 |
| LpShares.DifferencesAddUp | fpsi/fpsi_sender.cpp:983-1013 | for the matching prefix both parties' distances to its bound add up to the distance of x and y; for the upper half of the largest value, to the u64 difference |
| LpShares.Halves | fpsi/fpsi_recv.cpp:1013-1014 | with wrapping ends, the two sets exist exactly if neither end leaves the 64-bit range, or the point is the largest value, whose upper half starts at zero |
| LpShares.OneMatch | fpsi/fpsi_recv.cpp:1013-1014 | exactly one prefix of y matches, on one side of x, if the distance of x and y <= delta, and none otherwise, except that the upper half of the largest x matches every y below delta |
| LpShares.SharesAddUp | fpsi/fpsi_sender.cpp:1045-1080 | for every p, mask - v_hat is the expansion with the computed coefficients modulo 2^32 |
| LpShares.ExpansionIsPower | fpsi/fpsi_sender.cpp:1045-1080 | that expansion is the power of the summed differences if the coefficients are exact or one difference is zero |
| LpShares.ExpansionFails | fpsi/fpsi_sender.cpp:1045-1080 | at p = 31 with both differences one it is not |
| LpShares.DimensionShare | fpsi/fpsi_recv.cpp:1160-1196 | one dimension through both parties: mask - v_hat is the expansion of the two differences, and the p-th power of the distance if the coefficients are exact or the distance is at most one |
| LpShares.FindPrefix | fpsi/fpsi_recv.cpp:1013-1014 | for two values within delta, the programmed prefix that the other value has |
| LpShares.SumsApart | fpsi/fpsi_sender.cpp:1133-1138 | u_sum - v_sum is the distance less 2^32 for each coordinate that wraps |
| LpShares.MeetsExactly | fpsi/fpsi_sender.cpp:1149-1176 | the prefix sets meet, once, exactly if the distance less the wraps is between zero and the threshold |
| LpShares.MeetsIffClose | fpsi/fpsi_recv.cpp:1239-1273 | without wraps they meet exactly if the distance is at most the threshold; close points meet exactly if nothing wraps |
| LpShares.BinMatch | fpsi/fpsi_recv.cpp:969-1273 | both parties' loops over one bin, for every p: the sums meet within DELTA^p exactly if the points are close, given no wrap |
| CellLabels.CloseBlock | fpsi/cmp_fmap/fmap.cpp:13-44 | the block of a value is one of the two cells of every value within delta |
| CellLabels.PlacePoint | fpsi/cmp_fmap/fmap.cpp:430-461 | the label and the draw of each case; a relabelling changes exactly the labelled cells from the point's cell up to the first that is missing or has the new label, and the loop ends |
| CellLabels.RelabelStays | fpsi/cmp_fmap/fmap.cpp:444-447 | every cell below the point's cell, and every cell beyond an unlabelled one, keeps its label |
| CellLabels.EveryPointPaired | fpsi/cmp_fmap/fmap.cpp:430-461 | after all points, the two cells of each point have one label, whatever was relabelled |
| CellLabels.FewLabels | fpsi/cmp_fmap/fmap.cpp:462-470 | at most two labels per point, so the pairs fit |
| CellLabels.FindBase | fpsi/cmp_fmap/fmap.cpp:473-481 | going down cell by cell ends at the lowest cell of the run, also at zero, where the u64 wraps and comes back |
| CellLabels.LabelsLast | fpsi/cmp_fmap/fmap.cpp:455-461 | if the relabelling never fires, the label a point was given is the final one |
| CellLabels.QuietLasts | fpsi/cmp_fmap/fmap.cpp:430-461 | if nothing is relabelled after point j in the run it lies in, its label is the final one, whatever is relabelled in other runs |
| CellLabels.RunsApart | fpsi/cmp_fmap/fmap.cpp:430-461 | with distinct draws, two cells have one label only if all cells between them are labelled |
| CellLabels.CurrentExactlyIfNeverFires | fpsi/cmp_fmap/fmap.cpp:444-461 | in the end all cells have the labels that were added to the identifiers exactly if the relabelling never fired |
| CellLabels.RelabelOutdates | fpsi/cmp_fmap/fmap.cpp:444-447 | four cells for which an added label is replaced in the end |
| FuzzyMap.GetId | fpsi/cmp_fmap/fmap.cpp:423-470 | identifiers are the sums of the labels given, and the pairs list every labelled cell once under its PRF mask |
| FuzzyMap.Origins | fpsi/cmp_fmap/fmap.cpp:471-487 | each point's origin is a multiple of 2 delta not above the point; its cell and all up to the point's are labelled, and the cell below is not |
| FuzzyMap.OneOrigin | fpsi/cmp_fmap/fmap.cpp:471-487 | points with only labelled cells between them have one origin |
| FuzzyMap.CloseLookup | fpsi/cmp_fmap/fmap.cpp:205-263 | the block of a close point finds the label that the other party's point has in the end |
| FuzzyMap.Exchange | fpsi/cmp_fmap/fmap.cpp:236-263 | one direction of the masked exchange leaves both scalars times the XOR of both identifiers, every mask cancelled |
| FuzzyMap.Unblinds | fpsi/cmp_fmap/fmap.cpp:352-405 | the masks of one value cancel through both multiplications by the VOLE correlations |
| FuzzyMap.OpensTheirId | fpsi/cmp_fmap/fmap.cpp:345-405 | what a close point decodes and subtracts over all dimensions is the sum of the other point's final labels |
| FuzzyMap.MapPoints | fpsi/cmp_fmap/fmap.cpp:196-405 | both values of two close points are both scalars times the XOR of the one final and the other given labels; for non-zero scalars they are equal exactly if both points' final and given labels differ by the same amount, so always if nothing is relabelled after either point in the runs it lies in |
| FuzzyMap.QuietId | fpsi/cmp_fmap/fmap.cpp:444-461 | the identifier of a point quiet in every dimension is the one its cells have in the end |
| FuzzyMap.ClosePointsCanDiffer | fpsi/cmp_fmap/fmap.cpp:444-447 | two equal points for which that fails: the other party relabels after the label was added |

## Left out

- Values of several blocks or scalars: an entry is one field element, as each component of a long value goes through the same steps.
- The binary dense mode of Paxos and its sizing: only the GF(2^128) mode is modelled; sizes and bin counts are parameters.
- AES, blake3, the PRNG, hashPos, hashBand, the PRF, OT, VOLE, OPRF and OPPRF: given functions, streams and correlations.
- Sockets, coroutines, timers and logging: messages are passed as values, threads are steps of schedules.
- The order of memory operations between threads: a step of the binning is atomic, and the barrier is the counter of arrived threads.
- The thread split of implParDecode: it runs the batched decode on slices of the input.
- The lanes of buildRow32, its transposed stores and the SIMD reduction mod32: a lane is modelled by the XOR laws it uses and rows are stored one by one.
- RbOkvs.RBOKVS.Encode: needs a band of at least 64 columns, since below that the unsigned loop bounds of the word loops wrap.
- RbOkvs.RBOKVS.Insert: the wrap of a start position at 2^64 is not reached, as positions stay below the number of columns.
- PrimeOkvs.Encode: the order that std::sort gives rows of equal start is a parameter; the original reports SUCCESS also when a row found no pivot, which `pivots` tells apart. Where a later row sees a column that such a row writes, whether the key of the later row decodes is left to the values.
- Paxos.Paxos.SetInput: takes rows with distinct columns, as the row hash gives them, and fewer than 200 rows per column, which the original asserts.
- Decompose.DecomposeImprove: intervals of 2^31 values and more are excluded, where the int shift of the original leaves its range.
- SetDec.SetDec: the allowed lengths are an ascending sequence for the ordered set.
- LpShares.BinMatch: bins with a coordinate farther than delta are not covered, as no prefix matches there and the sums are those of random values; DELTA^p must fit the threshold's decomposition.
- LpShares.MeetsExactly: the hashing of the prefix strings is left out; the sets meet in the strings themselves.
- FuzzyMap.GetId: the sender's origins are a method of their own, `Origins`, which takes the labels of one dimension.
- FuzzyMap.MapPoints: the padding of the key-value pairs with random entries and the OKVS itself are a lookup that may return anything for other keys.
- Baxos.Solve: bins are solved one after the other when all are merged, not by their threads in between; they share no memory but the PRNG, which the threads of the original draw from in any order and the model in the order of the bins. With one bin the original calls Paxos directly.
- Baxos.Check: the decoding does not add to its output, as with mAddToDecode the original would compare sums.
- The ufmap variant: the same argument with the roles exchanged.
- Code under `#if 0` and the older matching code it uses.
- Failure probabilities, collisions and privacy.

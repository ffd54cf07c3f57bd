# Models of Embark's data structures, ciphers and codecs

Dafny models of the parts of this repository whose correctness rests on invariants, each with
proofs of what its source or its documentation promises.

* **Order-preserving encryption** (`Hgd.dfy`, `Prng.dfy`, `Ope.dfy`): the sampler's normalisation and inverse
  transformation, the lazily sampled search tree with its memo table, encryption and decryption.
  The key, the hashes and the sampler's draw are an arbitrary `Keyed`; the draw is a function of the
  generator's counter, which the node determines. The generator itself (`Prng.dfy`) is a block
  cipher in counter mode.
* **Sorting** (`QuickSort.dfy`): Bentley and McIlroy's three-way quicksort with an explicit stack.
* **Filter generation**: the two tries that generate addresses (`Filters.dfy`, `TrieNode.dfy`,
  `Nesting.dfy`, `SourceTrie.dfy`; `DestRun.dfy` and `DestTrie.dfy` with `DestFollow.dfy`,
  `DestLimit.dfy` and `DestOverrun.dfy`), the search tree of tuples and duplicate removal (`TupleBst.dfy`,
  `RedundantFilters.dfy`, `FilterNesting.dfy`), and the linked list they all use (`DList.dfy`). The
  random numbers of the source trie are nondeterministic choices, those of the destination trie a
  sequence that is a parameter of the run.
* **Block modes** (`Blocks.dfy`, `Cbc.dfy`, `Cmc.dfy`, `ModeLaws.dfy`, `CbcMac.dfy`, `FfxPack.dfy`,
  `Ffx.dfy`) over an abstract invertible block cipher with buffers that are overwritten in place.
  `Ciphers.dfy` makes ciphers with chosen outputs; with them `Prng.dfy`, `Ope.dfy` and
  `Separation.dfy` show what a key can decide.
* **Printers and parsers** (`ConfParse.dfy`, `Archive.dfy`): configuration strings and ar archives.
  `ConfText.dfy` says token by token what the text of a configuration string means;
  `ForeignArchive.dfy` writes archives as GNU and BSD ar do.
* **Fast forms** (`Crc32.dfy`, `IntSqrt.dfy`, `Gfe.dfy`, `InCksum.dfy`) against simple definitions.

`Power.dfy` and `Bits.dfy` hold powers of two, shifts, and numbers as strings of bits.

Methods follow the loops of the source and are proved against functions (`...Spec`, `Encryption`,
`Wrote` and the like); the laws are lemmas about these functions. Thrown exceptions and error
returns are results (`Thrown`, `Bad`, a null buffer, a flag). Addresses, words and bytes have their
machine widths; wrap-around is written out.

Where the code and its documentation disagree, the model follows the code:

* `db_generator/sbintree.h` guarantees that nesting will not be exceeded. It is exceeded exactly
  when `Nesting.LimitFits` fails: a limit below 1 for a list that is not empty, or limit 1 for a
  list that mixes the empty prefix with longer ones.
* `db_generator/dbintree.h` makes the same promise. Every run keeps it exactly when
  `DestLimit.Guaranteed` holds (`DestOverrun.LimitGuaranteed`): the list has no more destination
  prefix lengths than the limit, or it has filters of length 1 and the limit is 1 (2 if it has the
  empty prefix as well). Other lists have sources for which the limit is broken whatever random
  numbers are drawn; `DestOverrun.LimitTwoBroken` is one with limit 2. For sources that are given
  the condition is sufficient; where no filter has a source to follow, `Nesting.LimitFits` is exact
  (`DestLimit.ExhaustedDecides`).
* `db_generator/TupleBST.h` says that the order by scope prevents nesting. A containing filter never
  has the smaller scope, but it can have the same one and come first
  (`FilterNesting.NestingRemains`); `FilterNesting.WhenOrderPreventsNesting` says when.
* `cp_uncomment` promises to remove all final space; it does not inside an unterminated quote or
  escape (`ConfParse.FinalSpaceStays`; `ConfParse.UncommentTrimsEnd` says exactly when).
* `ffx_mem_to_u64` shifts the second field too far when both fields end in one byte
  (`FfxPack.ShortTailLoses`), so FFX loses bits for widths below 8 (`Ffx.RoundTripsIffWide`).
* An archive without live members is written but `parse` does not accept it, nor one with a number
  that is too wide for its column (`Archive.ParseOfUnparse`).

## Model

| member | source | states |
|---|---|---|
| Hgd.Normalise | crypto/hgd.cc:65-101 | for valid arguments the smaller colour is n1, at most half of the urn is drawn, and the range minJX..maxJX of the variate is exactly that of the normalised urn and not empty |
| Hgd.VariateInUrn | crypto/hgd.cc:282-295 | a variate in minJX..maxJX, real or not, comes back through the four-way mapping and the truncation as a count that the original urn allows |
| Hgd.VariateKeepsLaw | crypto/hgd.cc:282-294 | the mapping carries the hypergeometric law of the normalised urn to that of the original one: the number of ways of each variate is the number of ways of the count it is mapped to |
| Hgd.MassNext | crypto/hgd.cc:132-134 | the update of P in the loop is the step from the mass of one variate to the mass of the next |
| Hgd.NextMass | crypto/hgd.cc:132-134 | the loop's arithmetic, with IX raised between its two halves, yields that next mass |
| Hgd.InversePass | crypto/hgd.cc:124-138 | one pass of the loop returns the quantile of U: the least variate whose cumulative mass reaches U; it falls through only if U exceeds the total mass |
| Ope.HgdInUrn | crypto/ope.cc:15-19 | a sampler that maps an in-range variate with Hgd.Variate draws within the urn; this is the one assumption the scheme below rests on |
| Ope.DomainGap | crypto/ope.cc:15-19 | the draw is a function of the generator's counter and the arguments, which are valid |
| Ope.TreeIsLegal | crypto/ope.cc:45-57 | at every node with enough ciphertexts both parts get enough ciphertexts for their plaintexts |
| Ope.FindsPlaintext | crypto/ope.cc:56-59 | a search for a plaintext of a sound node ends at the leaf of that plaintext, inside the node's ciphertexts |
| Ope.IntervalsOrdered | crypto/ope.cc:56-59 | the ciphertext interval of a smaller plaintext lies wholly below that of a larger one |
| Ope.SameBranches | crypto/ope.cc:73-95 | a search that compares ciphertexts takes the same way as the one that compares plaintexts, for every ciphertext of the plaintext's interval |
| Ope.FindsOwner | crypto/ope.cc:89-95 | a search by ciphertext never throws, and if it returns, the plaintext found owns the ciphertext |
| Ope.EncryptInInterval | crypto/ope.cc:73-87 | encryption of p yields a number of the interval that the search for p finds |
| Ope.EncryptIncreases | crypto/ope.cc:73-87 | a larger plaintext has a larger ciphertext |
| Ope.EncryptPreservesOrder | crypto/ope.cc:73-87 | for all p and q in 0..2^pbits with pbits <= cbits: p < q if and only if encrypt(p) < encrypt(q) |
| Ope.DecryptInvertsEncrypt | crypto/ope.cc:89-95 | decrypt(encrypt(p)) is p for every p in 0..2^pbits |
| Ope.DecryptReturnsOwner | crypto/ope.cc:89-95 | decryption of any ciphertext in range returns p if and only if the ciphertext lies in p's interval, and it never throws |
| Ope.ThrowsIffTooNarrow | crypto/ope.cc:27-29 | the size check fails at the root if and only if cbits < pbits |
| Ope.NeverThrows | crypto/ope.cc:29 | below a node that passes the size check the check never fails |
| Ope.VisitsBound | crypto/ope.cc:45-60 | a search below a node with at most 2^bits + 1 ciphertexts that returns or throws visits at most bits + 2 nodes; one that does neither reaches a node without plaintexts by its own branches within that depth |
| Ope.DepthBound | crypto/ope.cc:62-71 | from the root the same with cbits: a search that returns or throws is over after cbits + 2 nodes |
| Ope.EncryptDepth | crypto/ope.cc:73-77 | the search of an encryption of p in 0..2^pbits with pbits <= cbits returns within cbits + 2 nodes |
| Ope.SplitInside | crypto/ope.cc:45-54 | a split point lies inside the root interval, above its least ciphertext |
| Ope.EmptyStaysEmpty | crypto/ope.cc:31-60 | below a node without plaintexts there are only such nodes: a search that enters one never returns |
| Ope.SplitsDistinct | crypto/ope.cc:45-54 | two nodes of the tree have the same split point if and only if they are the same node, so the cache key identifies the node |
| Ope.CachedIsFresh | crypto/ope.cc:48-54 | in a cache filled by any earlier searches an entry found for a node is that node's own fresh draw |
| Ope.CacheGrows | crypto/ope.cc:50-51 | storing a node's draw under its split point keeps the cache coherent |
| Ope.ChildShrinks | crypto/ope.cc:56-59 | both children have fewer ciphertexts than the node and at least as many as plaintexts, so the recursion ends |
| Prng.NextIs | crypto/prng.hh:92-96 | raising the counter byte by byte with a carry adds one to its little-endian number, modulo all its values |
| Prng.AfterIs | crypto/prng.hh:92-96 | k raises add k, with one wrap |
| Prng.DrawsJoin | crypto/prng.hh:90-103 | a draw of whole blocks followed by another draw yields the bytes of one long draw |
| Prng.BlocksDiffer | crypto/prng.hh:90-103 | no block comes twice before the counter has run through all its values |
| Prng.EnoughBits | crypto/prng.hh:36 | NumBits(max)/8 + 1 bytes hold every number up to max |
| Prng.BlockRng.SetCtr | crypto/prng.hh:105-108 | the counter is replaced if the string has the size of a block; otherwise it throws and nothing changes |
| Prng.BlockRng.Raise | crypto/prng.hh:92-96 | the loop with its carry adds one to the counter in place |
| Prng.BlockRng.RandBytes | crypto/prng.hh:90-103 | the buffer holds the first bytes of the encrypted counters, the counter has moved on by one for each block, also for a block that is cut off |
| Prng.BlockRng.RandZzMod | crypto/prng.hh:34-38 | the number is Prng.RandMod of the counter, and the counter moves on by the blocks taken |
| Prng.DrawnByte | crypto/prng.hh:90-103 | byte j of the block number k of a draw is byte j of the encryption of the counter raised k + 1 times |
| Prng.RandModIs | crypto/prng.hh:34-38 | where one block has bytes enough, max divides the difference between the number drawn and the first NumBits(max)/8 + 1 bytes, lowest first, of the encryption of the next counter |
| Prng.EveryNumberDrawn | crypto/prng.hh:34-38 | for every counter, every max up to 2^120 and every number below max there is a cipher on 16-byte blocks under which that number is drawn |
| Prng.EveryPairDrawn | crypto/prng.hh:34-38 | for two different counters every pair of numbers below their limits, up to 2^112, is drawn under some cipher |
| Ope.Place | crypto/ope.cc:79-86 | the ciphertext lies in the interval |
| Ope.PickIn | crypto/ope.cc:79-86 | the tail of encrypt yields Ope.Place: a generator of its own, started from the plaintext |
| Ope.EncryptIs | crypto/ope.cc:79-86 | the ciphertext less the least one of the plaintext's interval is, modulo the length of the interval, what AES makes of the plaintext's own counter plus one, for intervals of up to 2^120 ciphertexts |
| Ope.EveryCiphertext | crypto/ope.cc:79-86 | every ciphertext of a plaintext's interval, up to 2^120 of them, is its encryption under some key |
| Ope.EveryTwoCiphertexts | crypto/ope.cc:79-86 | two plaintexts with different counters have every pair of ciphertexts of their intervals, up to 2^112 long, under some key |
| Ope.EveryTwoDraws | crypto/ope.cc:45-54 | two nodes with different counters have every pair of draws that their urns allow, under some sampler: each node has coins of its own |
| Ope.OPE.CachedGap | crypto/ope.cc:34-54 | with or without an entry in the cache the gap is the node's fresh draw; the cache stays coherent and keeps its entries |
| Ope.OPE.LazySample | crypto/ope.cc:21-60 | the recursion with its cache returns what the search on the fully sampled tree returns, whatever was called before |
| Ope.OPE.SearchTree | crypto/ope.cc:62-71 | the same from the root, where the domain is 0..2^pbits inclusive |
| Ope.OPE.Encrypt | crypto/ope.cc:73-87 | over any history of calls the result is the same function of key and plaintext |
| Ope.OPE.Decrypt | crypto/ope.cc:89-95 | over any history of calls the result is the same function of key and ciphertext |
| QuickSort.Med3 | click-dpdk/lib/glue.cc:517-527 | one of the three positions; for a total preorder its element is the middle one |
| QuickSort.Swap | click-dpdk/lib/glue.cc:512-515 | exactly the two elements change places |
| QuickSort.SwapBlocks | click-dpdk/lib/glue.cc:529-541 | two disjoint blocks change places element by element and nothing else changes |
| QuickSort.Insert | click-dpdk/lib/glue.cc:572-575 | one element is sunk into the sorted elements before it |
| QuickSort.InsertionSort | click-dpdk/lib/glue.cc:569-577 | a permutation of the range, sorted for a total preorder |
| QuickSort.ChoosePivot | click-dpdk/lib/glue.cc:579-591 | a position of the range |
| QuickSort.ScanUp | click-dpdk/lib/glue.cc:613-619 | the partition invariant is kept and pb stops at an element above the pivot or past pc, in bounds for any comparator |
| QuickSort.ScanDown | click-dpdk/lib/glue.cc:620-626 | the mirror image for pc |
| QuickSort.Partition | click-dpdk/lib/glue.cc:599-632 | a permutation of the range in which equal, smaller, larger and equal elements follow each other; the pivot stays at the left end |
| QuickSort.GatherLeft | click-dpdk/lib/glue.cc:636-639 | the equal elements of the left end change places with the last smaller ones |
| QuickSort.GatherRight | click-dpdk/lib/glue.cc:640-643 | the equal elements of the right end change places with the first larger ones |
| QuickSort.GatherEqual | click-dpdk/lib/glue.cc:634-643 | smaller, equal and larger elements in this order, the pivot among the equal ones |
| QuickSort.ThreeWayCuts | click-dpdk/lib/glue.cc:645-651 | for a total preorder such a range is in order except inside its two outer parts |
| QuickSort.CutRange | click-dpdk/lib/glue.cc:579-651 | a cut loses at least the pivot, for any comparator |
| QuickSort.CutKeepsOrder | click-dpdk/lib/glue.cc:564-661 | if all elements are in order except inside pending ranges, they still are after the top range was permuted, cut and replaced by its two outer parts |
| QuickSort.RecutNested | click-dpdk/lib/glue.cc:648-660 | with the larger part pushed first, each pending range has at most half the size of the one below it: the invariant on the stack |
| QuickSort.StackSuffices | click-dpdk/lib/glue.cc:546-548 | under this invariant the assertion on CQ_STACKSIZ holds for every array that a size_t can index |
| QuickSort.PushParts | click-dpdk/lib/glue.cc:645-660 | the stack holds the parts that are left, none for a part that is empty |
| QuickSort.SortTop | click-dpdk/lib/glue.cc:569-577 | sorting a small top range leaves order everywhere but in the other pending ranges |
| QuickSort.CutTop | click-dpdk/lib/glue.cc:579-651 | cutting the top range keeps the invariant for its parts and permutes the array |
| QuickSort.Round | click-dpdk/lib/glue.cc:564-661 | one round keeps the whole invariant, stays within the stack and strictly lowers the work left, for any comparator |
| QuickSort.ClickQsort | click-dpdk/lib/glue.cc:548-664 | for any comparator the sort terminates in bounds with a permutation of the input; for a total preorder the result is sorted |
| Filters.ChildAddresses | db_generator/sbintree.cc:231-242 | the shifts yield the lower and the upper half of the node's addresses, both written with zeros below their length |
| Filters.SelectSplits | db_generator/sbintree.cc:253-263 | selecting and rejecting by prefix length lose and repeat no filter |
| TrieNode.VisitedNext | db_generator/sbintree.cc:183-204 | one turn of the list rotation loop: the first filter gets the address or goes to the end of the list |
| TrieNode.TakeFirst | db_generator/sbintree.cc:184-202 | the loop body performs such a turn |
| TrieNode.TakeHere | db_generator/sbintree.cc:183-204 | the loop as a whole: addresses for the filters that end here, the others left in order, and both flags |
| DList.List.Append | db_generator/dlist.cc:55-69 | the key is appended, also to a list that was emptied before |
| DList.List.RemoveOne | db_generator/dlist.cc:74-79 | the first item is removed |
| DList.List.RemoveFirst | db_generator/dlist.cc:72-81 | the first n keys are removed, or all if there are fewer |
| DList.List.Frst | db_generator/dlist.cc:150-153 | the first key, or 0 on an empty list |
| DList.List.Size | db_generator/dlist.cc:156-158 | the number of items |
| DList.List.At | db_generator/dlist.cc:39-52 | the item at position i; a null pointer for the first item of an empty list |
| DList.Rotate | db_generator/dbintree.cc:447-466 | removing the first key and appending it again rotates the list |
| Nesting.RoomAfterSplit | db_generator/sbintree.cc:246-293 | the split at the nesting threshold leaves room in both children |
| Nesting.RoomWithoutSplit | db_generator/sbintree.cc:295-353 | where no split is made any part of the list finds room in a child |
| Nesting.CoverOfParts | db_generator/sbintree.cc:265-293 | an address meets the prefixes of one child only |
| Nesting.CoverOfNode | db_generator/sbintree.cc:190-208 | a node adds at most its own prefix to those below it |
| Nesting.CoverByLengths | db_generator/dbintree.h:12 | no address starts with more prefixes than the list has prefix lengths, however the addresses were chosen |
| Nesting.LimitMustFit | db_generator/sbintree.h:12 | without the condition LimitFits proper prefixes break the limit wherever they are placed |
| Nesting.LimitDecides | db_generator/sbintree.h:12 | where the limit is kept given room for the list, it is kept if and only if LimitFits holds of the list before anything is generated |
| SourceTrie.SBinTree.SplitByEnd | db_generator/sbintree.cc:247-263 | the filters that end at the next level and the others, both in order |
| SourceTrie.SBinTree.SplitBySkew | db_generator/sbintree.cc:318-337 | the list is cut in two without loss: the heavy part h has h (2 - skew) <= n < (h + 1)(2 - skew) of the n filters |
| SourceTrie.SBinTree.DivideFreely | db_generator/sbintree.cc:295-353 | one list for one child, or two lists, the first filters for the light child and its share of them for the heavy one, whatever the random choices |
| SourceTrie.SBinTree.Divide | db_generator/sbintree.cc:243-353 | all filters are shared out: exactly at the threshold by whether they end at the next level, otherwise freely; and near the limit both lists find room |
| SourceTrie.SBinTree.EnterNode | db_generator/sbintree.cc:177-208 | exactly the filters that end here get the address; nesting grows if there is one |
| SourceTrie.SBinTree.AddChildren | db_generator/sbintree.cc:223-354 | every filter of the list is written once, below the node, and the limit is kept where there is room for it |
| SourceTrie.SBinTree.AddNode | db_generator/sbintree.cc:141-356 | every filter of the list is written once with a proper prefix below the node, nothing else changes, and no address below meets more prefixes than the limit if there was room |
| SourceTrie.SBinTree.BuildTree | db_generator/sbintree.cc:127-139 | every filter of the list is written once with a proper prefix of its own length; the nesting limit is kept if and only if it is at least 2, or 1 and the list does not mix the empty prefix with others, or the list is empty and the limit not negative |
| DestRun.PlaceConserves | db_generator/dbintree.cc:317-389 | one filter goes to exactly one place: a stub list of the node or of a child, or one of the two lists that go down |
| DestRun.SpreadConserves | db_generator/dbintree.cc:311-390 | every filter of the list goes to exactly one of these places |
| DestRun.AddStubConserves | db_generator/dbintree.cc:224-408 | the first phase: each filter is written or waits in a stub list of the subtree exactly as often as it stood in the list or waited before; what is written is a proper prefix below the node |
| DestRun.ChooseShares | db_generator/dbintree.cc:501-688 | in every branch of the second phase each filter is given to exactly one child, and a child that is passed over has no stubs |
| DestRun.FinishConserves | db_generator/dbintree.cc:410-693 | the second phase drains every stub list of the subtree: each filter is written exactly as often as it stood in the list or in a stub list, with a proper prefix below the node |
| DestRun.BuiltConserves | db_generator/dbintree.cc:166-184 | both phases together write each filter exactly as often as it stands in the list |
| DestRun.BuiltWrites | db_generator/dbintree.cc:166-184 | the log of writes is a permutation of the list |
| DestTrie.TNode.SetValid | db_generator/dbintree.cc:285 | the valid flag is set and nothing else changes |
| DestTrie.TNode.PushStub | db_generator/dbintree.cc:328 | the filter is appended to this node's stub list |
| DestTrie.TNode.AddChild | db_generator/dbintree.cc:186-209 | a new child without filters and weights hangs on the free side; the rest of the tree is untouched |
| DestTrie.TNode.ReadyChild | db_generator/dbintree.cc:392-402 | the child is made if there is none and its weight grows by n; the rest of the tree is untouched |
| DestTrie.TNode.PushToChild | db_generator/dbintree.cc:336-352 | the child is made if there is none, its stub list grows by the filter and its weight by one; the rest of the tree is untouched |
| DestTrie.DBinTree.EnterStub | db_generator/dbintree.cc:264-294 | the first loop of the first phase writes the filters that end here, keeps the others in order, marks the node and sets the flag for the next level as DestRun.Entered and the selections say |
| DestTrie.DBinTree.PlaceOne | db_generator/dbintree.cc:317-389 | one filter goes where DestRun.Place puts it by source length, source bit and the random number drawn |
| DestFollow.BuiltFollows | db_generator/dbintree.cc:166-407 | with a nesting limit of at least 34 and whatever numbers are drawn, each destination address agrees with its source address in the bits above some level: the end of its prefix, or a level at which it has the other bit because the source prefix ends there or a number drawn in the first phase exceeds the correlation; at every level above one was drawn that does not |
| DestFollow.FollowsToTheEnd | db_generator/dbintree.cc:321-389 | if no number exceeds the correlation of any level and the source prefix is longer than the destination prefix, the destination is the first bits of the source address with zeros below |
| DestFollow.TurnsWhereBroken | db_generator/dbintree.cc:321-389 | where the correlation is first broken at a level, or the source prefix ends there, the destination agrees with the source in the bits above that level and differs in the bit of that level |
| DestRun.AddStubWeighs | db_generator/dbintree.cc:211-407 | each filter that the first phase hands to a node ends there, waits there, or adds one to the weight of one of its children |
| DestTrie.DBinTree.Distribute | db_generator/dbintree.cc:311-390 | the loop over the filters that go on |
| DestTrie.DBinTree.KeepAll | db_generator/dbintree.cc:300-308 | near the limit all filters are appended to the node's stub list |
| DestTrie.DBinTree.PassOn | db_generator/dbintree.cc:392-402 | a list that is not empty is added to the child's weight and handed to it |
| DestTrie.DBinTree.Descend | db_generator/dbintree.cc:310-405 | the second half of the first phase at a node |
| DestTrie.DBinTree.AddStubs | db_generator/dbintree.cc:224-408 | the first phase on heap nodes leaves the tree, the filters and the random numbers that DestRun.AddStub computes; the nodes still form a tree |
| DestTrie.DBinTree.SplitByEnd | db_generator/dbintree.cc:524-539 | the filters that end at the next level and the others, both in order |
| DestTrie.DBinTree.SkewDeltas | db_generator/dbintree.cc:601-620 | the shares of the heavy and the light child add up to the size of the list |
| DestTrie.DBinTree.SplitOff | db_generator/dbintree.cc:658-669 | the first filters and the rest |
| DestTrie.DBinTree.HeavyChild | db_generator/dbintree.cc:508-515 | the heavier child, or a random one if the weights are equal |
| DestTrie.DBinTree.ChooseByEnd | db_generator/dbintree.cc:522-573 | filters that end at the next level go to one child, to the heavy one if they are the majority, the others to the other; both children are there |
| DestTrie.DBinTree.ChooseOneChild | db_generator/dbintree.cc:578-599 | the only child, or a new one on the heavy path, gets the whole list |
| DestRun.SharesBySkew | db_generator/dbintree.cc:600-687 | the first filters go to the light child, the others to the heavy one, whose number is its share weight / (2 - skew), rounded down, less its weight, kept between none and all of the list |
| DestRun.HeavyPathIs | db_generator/dbintree.cc:508-516 | the heavy path leads to a child that is not the lighter one; between equal ones a number of at least 0.5 chooses child 1 |
| DestRun.OneChildOnly | db_generator/dbintree.cc:576-599 | off the threshold all filters go to one child exactly if a number falls below the level's probability and a child is missing: to the only child, or else along the heavy path |
| DestRun.LongerByEnd | db_generator/dbintree.cc:518-573 | at the threshold the filters that end at the next level are kept apart from the others, and the longer of the two lists goes along the heavy path |
| DestTrie.DBinTree.ChooseBySkew | db_generator/dbintree.cc:600-687 | the list is cut where skew and weights say; a child that gets nothing is finished if it has a weight |
| DestTrie.DBinTree.ChooseShares | db_generator/dbintree.cc:501-688 | the branches and the random numbers of DestRun.Choose; the subtrees of the children are what they were |
| DestTrie.DBinTree.Gather | db_generator/dbintree.cc:432-439 | the list handed down followed by the stub list |
| DestTrie.DBinTree.EnterFinish | db_generator/dbintree.cc:443-472 | the filters that end at the node are written, the others go on in order, flag and mark are set |
| DestTrie.DBinTree.FinishKid | db_generator/dbintree.cc:505-506 | a child is finished or nothing happens |
| DestTrie.DBinTree.FinishKids | db_generator/dbintree.cc:541-687 | both children are finished in the order of the shares |
| DestTrie.DBinTree.FinishRest | db_generator/dbintree.cc:501-688 | the second half of the second phase at a node |
| DestTrie.DBinTree.FinishNode | db_generator/dbintree.cc:410-693 | the second phase on heap nodes leaves the filters and the random numbers that DestRun.Finish computes |
| DestTrie.DBinTree.BuildTree | db_generator/dbintree.cc:166-184 | after both phases each filter of the list has its destination address, written exactly as often as it stands in the list, a prefix of its own length with zeros below it; nothing else changed; the nesting limit is kept if the prefix lengths guarantee it |
| DestLimit.SharesLeaveRoom | db_generator/dbintree.cc:517-687 | at an empty node below the limit every way to share out the list leaves room in both children |
| DestLimit.FinishRoom | db_generator/dbintree.cc:410-693 | where the first phase left nothing, the second one keeps the limit if there was room for the list |
| DestLimit.ThresholdWaits | db_generator/dbintree.cc:300-308 | if the root is at the threshold, the first phase leaves all filters that go on in the root's stub list |
| DestLimit.ExhaustedWait | db_generator/dbintree.cc:317-324 | the same if no filter has a source to follow |
| DestLimit.WaitingDecides | db_generator/dbintree.cc:166-184 | where the first phase leaves all filters at the root, the run keeps the limit if and only if LimitFits holds: the limit is at least 2, or 1 and the list does not mix the empty prefix with others, or the list is empty and the limit not negative |
| DestLimit.ExhaustedDecides | db_generator/dbintree.h:12 | so does every run on a list whose filters have no source to follow |
| DestLimit.GuaranteeHolds | db_generator/dbintree.h:12 | every run keeps the limit if the list has at most as many destination prefix lengths, or if the root is at the threshold and a prefix has length 1 |
| DestOverrun.StubDirect | db_generator/dbintree.cc:317-402 | sources that end in their only one bit at the destination length put every filter into a stub list of its own level, all on one path |
| DestOverrun.FinishLeft | db_generator/dbintree.cc:410-693 | the second phase follows such a path without ever reaching the threshold and writes the address zero only, whatever random numbers are drawn |
| DestOverrun.LeftRun | db_generator/dbintree.cc:166-184 | so every filter on that path gets the address zero, whatever random numbers are drawn |
| DestOverrun.ManyOverrun | db_generator/dbintree.h:12 | sources that break the limit for all random numbers if the list has more lengths than the limit and the root is not at the threshold |
| DestOverrun.PairOverrun | db_generator/dbintree.h:12 | sources that break the limit for all random numbers if the root is at the threshold but no prefix has length 1 |
| DestOverrun.SomeOverrun | db_generator/dbintree.h:12 | without the condition Guaranteed there are sources for which the limit is broken for all random numbers, given correlation and branching probabilities of one |
| DestOverrun.LimitGuaranteed | db_generator/dbintree.h:12 | for all lists and limits: every run, whatever the sources, parameters and random numbers, keeps the limit if and only if Guaranteed holds of the destination prefix lengths |
| DestOverrun.LimitTwoBroken | db_generator/dbintree.h:12 | the promised limit 2 is broken by three filters with destination lengths 1, 2 and 3 and sources 1, 01 and 001, whatever random numbers are drawn |
| TupleBst.FindComplete | db_generator/TupleBST.cc:49-63 | the search finds a tuple wherever it is in the tree, although it looks at one path |
| TupleBst.AttachOrdered | db_generator/TupleBST.cc:77-81 | hanging a new tuple below the last node keeps the order |
| TupleBst.AttachInorder | db_generator/TupleBST.cc:77-81 | the new tuple comes after all tuples of equal or smaller scope in the inorder walk |
| TupleBst.AttachLinks | db_generator/TupleBST.cc:77-81 | exactly one child pointer of the old nodes changes |
| TupleBst.ScopeCounts | db_generator/TupleBST.cc:35-39 | 2^scope is at most the number of headers that the tuple leaves open, 256 protocols and two flag settings included, and that number is below 2^(scope + 1) |
| TupleBst.SortByScopeIs | db_generator/TupleBST.cc:95-103 | the walk order is a permutation of the nodes in the order of creation, sorted by scope and stable |
| TupleBst.TupleBst.TuplesUnique | db_generator/TupleBST.cc:49-63 | no tuple has two nodes |
| TupleBst.TupleBst.Search | db_generator/TupleBST.cc:47-63 | the loop returns the tuple's node, or the node below which it belongs |
| TupleBst.TupleBst.Hang | db_generator/TupleBST.cc:65-83 | the new node hangs at the place that the search found |
| TupleBst.TupleBst.Insert | db_generator/TupleBST.cc:43-85 | the one node with the tuple; a new one is created only if there was none |
| TupleBst.TupleBst.InorderTreeWalk | db_generator/TupleBST.cc:95-103 | the nodes of the subtree are written to the array in order |
| TupleBst.TupleBst.GetTupleLists | db_generator/TupleBST.cc:87-93 | all nodes in nondecreasing scope, equal scopes in the order of their creation |
| RedundantFilters.MatchMeansSamePrefix | db_generator/redundant_filter_check.cc:22-46 | the masked addresses of equal length are equal if and only if both addresses lie under one prefix |
| RedundantFilters.RedundantIsEquivalence | db_generator/redundant_filter_check.cc:13-20 | redundant_check is reflexive, symmetric and transitive, and relates only filters of one tuple |
| RedundantFilters.FirstOfClass | db_generator/custom_db.cc:562-571 | a filter that repeats an earlier one repeats the first filter of its class |
| RedundantFilters.BucketSuffices | db_generator/custom_db.cc:562-571 | comparing with the filters kept in one tuple bucket finds a duplicate if and only if there is one among all earlier filters |
| RedundantFilters.IsRepeated | db_generator/custom_db.cc:563-569 | the loop over a bucket finds a duplicate if there is one |
| RedundantFilters.FindBucket | db_generator/custom_db.cc:549-559 | the bucket of the filter's tuple |
| RedundantFilters.AddToBucket | db_generator/custom_db.cc:562-571 | the filter is added if and only if it is the first of its class |
| RedundantFilters.FileOne | db_generator/custom_db.cc:548-572 | one turn of the loop keeps every bucket equal to the first filters of its tuple |
| RedundantFilters.FileAll | db_generator/custom_db.cc:547-572 | the whole loop does, and counts the filters kept |
| RedundantFilters.EmitBucket | db_generator/custom_db.cc:581-583 | a bucket is appended to the output |
| RedundantFilters.Emit | db_generator/custom_db.cc:577-584 | the buckets are appended in the given order |
| RedundantFilters.WalkOrder | db_generator/custom_db.cc:573-584 | the buckets in walk order list exactly the first filters, in the promised order |
| RedundantFilters.FirstWithIs | db_generator/TupleBST.cc:49-84 | the rank of a tuple is the position of the first filter that has it |
| RedundantFilters.RemoveRedundantFilters | db_generator/custom_db.cc:540-588 | exactly the first filter of every class of duplicates is kept, each once, in nondecreasing scope, grouped by tuple, tuples of equal scope in the order of their first filters; the count returned is their number |
| FilterNesting.ContainsWider | db_generator/TupleBST.cc:35-39 | a filter that matches every header another one matches has no longer prefixes, no narrower port ranges, and no protocol or flags where the other has none |
| FilterNesting.DuplicatesMatchSame | db_generator/redundant_filter_check.cc:13-20 | two filters are duplicates if and only if they match the same headers and agree in protocol, flags and flag mask |
| FilterNesting.ContainsScope | db_generator/TupleBST.cc:35-39 | it has at least the other one's scope; the same scope exactly if prefix lengths, presence of protocol and flags, and the rounded logarithm of the port ranges agree |
| FilterNesting.ContainingComesLater | db_generator/custom_db.cc:573-584 | of two kept filters the one that contains the other comes later if and only if it has a different scope, or its tuple was met later, or it stands later in the same tuple |
| FilterNesting.WhenOrderPreventsNesting | db_generator/TupleBST.h:13-14 | for a whole list: no kept filter follows one that contains it if and only if, in the input, every filter that another one of the same scope contains stands before it, or its tuple does |
| FilterNesting.NestingRemains | db_generator/TupleBST.h:13-14 | the order does not prevent nesting: two filters of equal scope of which the containing one comes first |
| ConfParse.SkipComment | click-dpdk/lib/confparse.cc:269-285 | where a comment ends, by the three line ends or by star slash; past the end if it is not closed |
| ConfParse.SkipBackslash | click-dpdk/lib/confparse.cc:287-307 | where an escape ends, comments inside angle brackets included |
| ConfParse.SkipDoubleQuote | click-dpdk/lib/confparse.cc:319-333 | the position after the closing quote, or the end |
| ConfParse.SkipSingleQuote | click-dpdk/lib/confparse.cc:335-345 | the same for single quotes |
| ConfParse.SkipCommentSpace | click-dpdk/lib/confparse.cc:360-372 | the first position that is neither white space nor in a comment |
| ConfParse.PartialUncomment | click-dpdk/lib/confparse.cc:374-423 | the loop computes the text up to an unquoted comma with each comment replaced by a space |
| ConfParse.ProcessOctal | click-dpdk/lib/confparse.cc:502-510 | up to three octal digits, truncated to a byte |
| ConfParse.ProcessHex | click-dpdk/lib/confparse.cc:512-525 | a run of hexadecimal digits, truncated to a byte |
| ConfParse.ProcessAngle | click-dpdk/lib/confparse.cc:527-550 | the pairs of digits of an angle escape; an unclosed one runs to the end |
| ConfParse.ProcessBackslash | click-dpdk/lib/confparse.cc:476-558 | every kind of escape yields its bytes and the position after it |
| ConfParse.RemoveQuotes | click-dpdk/lib/confparse.cc:575-614 | the loop with its quote state and pending substring decodes the text |
| ConfParse.Unquote | click-dpdk/lib/confparse.cc:570-615 | uncommenting followed by decoding |
| ConfText.SkipsNote | click-dpdk/lib/confparse.cc:262-280 | a comment is skipped up to its end: the first star slash, or a line end in one of its three forms |
| ConfText.AngleReads | click-dpdk/lib/confparse.cc:527-550 | an angle escape stands for the bytes that its hexadecimal digits write in pairs, whatever comments and other bytes stand between them |
| ConfText.BackslashReads | click-dpdk/lib/confparse.cc:445-558 | each escape stands for what the documentation says: C escapes, one to three octal digits, x and hexadecimal digits, angle escapes, line ends, and every other byte for itself |
| ConfText.ItemsDecoded | click-dpdk/lib/confparse.cc:589-605 | a string in double quotes stands for what its escapes and bytes mean, in order |
| ConfText.UncommentIsTidy | click-dpdk/lib/confparse.cc:374-445 | in every string made of bytes, white space, comments, quotes and angle escapes: gaps at both ends are removed, a gap with a comment in it becomes one space, all other text stays, and the scan ends at the comma or at the end |
| ConfText.UnquoteMeans | click-dpdk/lib/confparse.cc:560-615 | for every such string the result is what its tokens mean, one after the other, without its comments |
| ConfText.UnquoteReadsHex | click-dpdk/lib/confparse.cc:527-550 | every string of bytes written as pairs of digits, each in upper or lower case, in an angle escape is read back, outside of quotes and inside double quotes |
| ConfText.UnquoteReadsHexByte | click-dpdk/lib/confparse.cc:512-525 | in double quotes backslash, x and two digits, each in upper or lower case, stand for the byte |
| ConfParse.EscapeOf | click-dpdk/lib/confparse.cc:643-677 | the switch: an escape for exactly the bytes that need one |
| ConfParse.Quote | click-dpdk/lib/confparse.cc:628-682 | the loop with its pending substring yields the escaped bytes between quotes |
| ConfParse.SkipsQuoted | click-dpdk/lib/confparse.cc:319-333 | a quoted string inside any text is skipped exactly, whatever bytes it was made from |
| ConfParse.DecodesQuoted | click-dpdk/lib/confparse.cc:570-615 | the inside of a quoted string decodes to the original bytes |
| ConfParse.UncommentQuoted | click-dpdk/lib/confparse.cc:374-423 | after white space a quoted string that ends at a comma or at the end is returned unchanged |
| ConfParse.UncommentTrims | click-dpdk/lib/confparse.cc:374-423 | the text never starts with white space: initial spaces and comments are removed, whatever the string |
| ConfParse.UncommentTrimsEnd | click-dpdk/lib/confparse.cc:374-443 | the text ends in white space if and only if its last unit is an unterminated quote or angle escape that runs to the end of the string in a space, or past it in a comment while an earlier comment stands between two units; all other final space is removed |
| ConfParse.FinalSpaceStays | click-dpdk/lib/confparse.cc:425-428 | the documented removal of final space fails for a double quote, a letter and a space |
| ConfParse.CommentSpaceStays | click-dpdk/lib/confparse.cc:425-428 | and for a letter, a comment, and an angle escape with a comment that runs past the end |
| ConfText.QuoteIsHarmless | click-dpdk/lib/confparse.cc:628-690 | a quoted string has printable bytes only, and newlines if they are allowed, and a backslash before each dollar sign |
| ConfParse.QuoteNonempty | click-dpdk/lib/confparse.cc:627 | the quoted string is never empty |
| ConfParse.UnquoteInvertsQuote | click-dpdk/lib/confparse.cc:627 | cp_unquote(cp_quote(s)) is s for every string of bytes and both newline modes, and cp_uncomment leaves cp_quote(s) alone |
| ConfParse.ArgVec | click-dpdk/lib/confparse.cc:696-710 | the loop over the arguments; an empty last argument is dropped |
| ConfText.ArgVecMeans | click-dpdk/lib/confparse.cc:696-710 | the arguments are the texts between the commas outside of quotes and comments, each uncommented; an empty last one is dropped |
| ConfParse.UnArgVec | click-dpdk/lib/confparse.cc:799-813 | the arguments joined by comma and space |
| ConfParse.ArgsOfJoined | click-dpdk/lib/confparse.cc:696-710 | a joined list of quoted strings anywhere in a text is read back argument by argument |
| ConfParse.ArgVecInvertsUnArgVec | click-dpdk/lib/confparse.cc:696-813 | cp_argvec undoes cp_unargvec on every list of quoted strings |
| Blocks.XorBlock | crypto/cbc.hh:7-17 | the exclusive-or byte by byte |
| Blocks.Store | crypto/cbc.hh:56 | a copy into a buffer changes exactly the bytes it covers |
| Blocks.UnchainedInvertsChained | crypto/cbc.hh:35-85 | chained decryption of the whole blocks undoes chained encryption, for every length |
| Cbc.EncryptBlocks | crypto/cbc.hh:35-43 | the loop over whole blocks |
| Cbc.StealLast | crypto/cbc.hh:45-58 | the stealing step, in place over blocks already written |
| Cbc.EncryptionByLoop | crypto/cbc.hh:35-58 | loop and stealing step together yield the ciphertext layout that Encryption defines block by block |
| ModeLaws.ChainedAt | crypto/cbc.hh:35-43 | each block of the chained text is the encryption of the message block added to the block of the chained text before it, the first one added to the vector |
| ModeLaws.CiphertextLayout | crypto/cbc.hh:35-58 | with bytes left over the ciphertext is the chained blocks without the last one, the encryption of the leftover bytes filled up with zeros and added to that last block, and the first bytes of that block; without any it is the chained blocks |
| Cbc.Encrypt | crypto/cbc.hh:19-59 | throws on a vector of the wrong size or a message below one block, and otherwise yields that ciphertext |
| Cbc.DecryptBlocks | crypto/cbc.hh:77-85 | the loop over whole blocks |
| Cbc.UnstealLast | crypto/cbc.hh:87-108 | the step for the leftover bytes, the vector being the previous block when there is one whole block |
| Cbc.DecryptionByLoop | crypto/cbc.hh:77-108 | loop and last step together are Decryption |
| Cbc.Decrypt | crypto/cbc.hh:61-109 | throws in the same cases and otherwise yields that plaintext |
| Cbc.StolenBlock | crypto/cbc.hh:87-108 | the stolen bytes are recovered from the zero padding |
| Cbc.DecryptionInvertsEncryption | crypto/cbc.hh:19-109 | decryption undoes encryption at every length of at least one block, for any invertible block cipher |
| Cmc.MakeMask | crypto/cmc.hh:26-34 | the loop from the last byte to the first with its carry computes the mask |
| Cmc.MaskIsRotation | crypto/cmc.hh:26-34 | where char is unsigned the mask is the exclusive-or of first and last block rotated left by one bit |
| Cmc.SignedMaskIsRotation | crypto/cmc.hh:26-34 | where char is signed it is that rotation if and only if every byte of the exclusive-or with its high bit set comes, cyclically, after a byte whose seven low bits are all set |
| Cmc.ChainPass | crypto/cmc.hh:18-24 | the first pass chains from a zero vector |
| Cmc.MaskPass | crypto/cmc.hh:36-38 | the second pass adds the mask to every block in place |
| Cmc.BackPass | crypto/cmc.hh:40-50 | the third pass, in place from the last block to the first |
| Cmc.UnbackPass | crypto/cmc.hh:63-69 | the first pass of decryption, from the last block to the first |
| Cmc.UnchainPass | crypto/cmc.hh:85-96 | the third pass of decryption, in place |
| Cmc.MultipleIs | crypto/cmc.hh:14 | the length check |
| ModeLaws.CmcBlock | crypto/cmc.hh:10-51 | each ciphertext block is the encryption of a masked chained block added to the next masked chained block; the last one is added to nothing |
| Cmc.SameMask | crypto/cmc.hh:71-80 | the mask that decryption computes from the masked first and last block is the one that encryption added |
| Cmc.UnbackInvertsBack | crypto/cmc.hh:40-69 | the first pass of decryption undoes the third pass of encryption |
| Cmc.MaskAllTwice | crypto/cmc.hh:81-84 | adding the mask again removes it |
| Cmc.Encrypt | crypto/cmc.hh:7-51 | throws unless the message is whole blocks, and otherwise yields the three passes |
| Cmc.Decrypt | crypto/cmc.hh:52-97 | the same for decryption |
| Cmc.DecryptionInvertsEncryption | crypto/cmc.hh:7-97 | decryption undoes encryption on every nonempty message of whole blocks |
| CbcMac.AbsorbMore | crypto/cbcmac.hh:21-47 | more data only meets the chaining value and the bytes left over |
| CbcMac.TagByLeftover | crypto/cbcmac.hh:53-60 | the final step on the bytes left over is the zero padding of the message |
| CbcMac.Mac.constructor | crypto/cbcmac.hh:9-19 | nothing absorbed yet |
| CbcMac.Mac.Copy | crypto/ffx.hh:88-89 | a copy has the same state and shares nothing |
| CbcMac.Mac.DoBlock | crypto/cbcmac.hh:72-77 | one block is chained |
| CbcMac.Mac.FillBuffer | crypto/cbcmac.hh:30-41 | filling up the buffered block neither loses nor repeats a byte |
| CbcMac.Mac.Update | crypto/cbcmac.hh:21-47 | the state is what all data passed so far determine |
| CbcMac.Mac.Final | crypto/cbcmac.hh:53-60 | the tag of all data passed: the last chaining value of the zero-padded message |
| CbcMac.PaddedIs | crypto/cbcmac.hh:53-60 | the padding adds fewer zeros than a block has bytes and makes whole blocks |
| CbcMac.TagIsLastBlock | crypto/cbcmac.hh:21-60 | the MAC of a message is the last block that CBC makes of the zero-padded message |
| Separation.TagsDiffer | crypto/cbcmac.hh:21-77 | for every two messages that do not become equal by the zero padding there is a cipher on 16-byte blocks under which their MACs differ, in the highest bit of byte 7 |
| CbcMac.TagOfPieces | crypto/cbcmac.hh:21-60 | however a message is cut into updates, the tag is that of the whole message |
| FfxPack.Appends | crypto/ffx.cc:13 | shifting left by k and or-ing k bits appends them, without overflow up to 64 bits |
| FfxPack.TakeBytes | crypto/ffx.cc:12-16 | the loop over whole bytes |
| FfxPack.TakeShared | crypto/ffx.cc:18-29 | the byte in which the first field ends and the second one starts |
| FfxPack.MemToU64 | crypto/ffx.cc:3-39 | the two fields are the first abits and the next bbits bits of memory, across byte boundaries; where both end in one byte the second field is shifted too far; throws above 64 bits |
| FfxPack.ShortTailLoses | crypto/ffx.cc:21-23 | in that case the field read is right if and only if it is zero |
| FfxPack.PutBytes | crypto/ffx.cc:47-51 | the loop over whole bytes |
| FfxPack.SharedByteIs | crypto/ffx.cc:53-64 | the byte that both fields share holds the last bits of one and the first bits of the other |
| FfxPack.ShortByteIs | crypto/ffx.cc:55-57 | the same where both fields end in it |
| FfxPack.PutShared | crypto/ffx.cc:53-72 | the shared byte and what comes after it |
| FfxPack.U64ToMem | crypto/ffx.cc:41-73 | memory holds the bits of both fields followed by zeros up to a whole byte, nothing after it is written; throws above 64 bits |
| FfxPack.UnpackInvertsPack | crypto/ffx.cc:3-73 | the bits in memory are those of the two fields that were packed |
| FfxPack.UnpackedIffNotShort | crypto/ffx.cc:3-73 | unpacking returns the two fields that were packed if and only if they do not both end in one byte, or the second one is zero |
| Ffx.RoundFFits | crypto/ffx.hh:104-105 | the round function has as many bits as the half it is added to |
| Ffx.MacLayout | crypto/ffx.hh:31-57 | the bytes that the MAC is taken of, one after the other: 1, 0, 2, 0, 2, n, n/2, 10, the length of the tweak in 8 bytes, the tweak, the round, the half in 8 bytes |
| Ffx.MacInputDetermines | crypto/ffx.hh:31-97 | the MAC's input, filled up with zeros, determines width, tweak, round number and half, and the other way round |
| Ffx.RoundFStarts | crypto/ffx.hh:99-105 | the round function yields the highest bits of the MAC's first 64-bit word, as many as the half of that round has |
| Ffx.RoundFSeparates | crypto/ffx.hh:88-106 | for every two settings that differ in width, tweak, round number or half there is a cipher on 16-byte blocks under which the round function differs |
| Ffx.TenRounds | crypto/ffx.hh:61-72 | encryption makes ten new halves, each of the half two before it added to the round function of the half before it, and yields the last two |
| Ffx.RoundKeepsWidths | crypto/ffx.hh:65-69 | a round exchanges the halves together with their widths |
| Ffx.BackwardInvertsForward | crypto/ffx.hh:61-85 | undoing all rounds after doing some leaves those that were not done to be undone |
| Ffx.DecryptionInvertsEncryption | crypto/ffx.hh:61-85 | decryption gives back the n bits that were encrypted, for every n from 8 to 128, odd ones included |
| Ffx.TwoPlaintexts | crypto/ffx.cc:21-23 | for every width from 2 to 7 two plaintexts share a ciphertext |
| Ffx.RoundTripsIffWide | crypto/ffx.hh:61-85 | for every width from 2 to 128: decryption gives back every plaintext if and only if the width is at least 8 bits |
| Ffx.Ffx2.constructor | crypto/ffx.hh:49-57 | the base state has absorbed header and tweak |
| Ffx.Ffx2.F | crypto/ffx.hh:88-106 | the round function on a copied partial state is the MAC of header, tweak, round number and half |
| Ffx.Ffx2.Encrypt | crypto/ffx.hh:61-72 | the loop yields the packed result of ten rounds and writes nothing else; throws above 128 bits |
| Ffx.Ffx2.Decrypt | crypto/ffx.hh:74-85 | the same for the rounds in reverse |
| Ffx.FfxIsBlockCipher | crypto/ffx.hh:111-131 | over whole bytes FFX is an invertible block cipher, so CBC and CMC with it round-trip as well |
| Archive.ReadUint | click-dpdk/lib/archive.cc:48-59 | read_uint with cp_integer: sign, digits with single underscores, saturation; -1 unless the number fills the field or is followed by white space |
| Archive.NumberInvertsColumn | click-dpdk/lib/archive.cc:48-59 | a number written into a wide enough column is read back, and one of 2^31 or more as 2^31 - 1 |
| Archive.NegativeDate | click-dpdk/lib/archive.cc:192-196 | a negative date is written as a number that is read back as 2^31 - 1 |
| Archive.ScanName | click-dpdk/lib/archive.cc:103-106 | a name ends at a slash, at white space or at the end of its field |
| Archive.ReadName | click-dpdk/lib/archive.cc:95-118 | the name in the header, in the long names section, or its length after the header |
| Archive.ReadSection | click-dpdk/lib/archive.cc:76-146 | one turn of the loop, with all its error returns |
| Archive.ParseSection | click-dpdk/lib/archive.cc:143-145 | the next section starts behind the header |
| ForeignArchive.ParseReadsForeign | click-dpdk/lib/archive.cc:61-152 | every archive as GNU or BSD ar writes it, with names in a table of long names, before the data or in the column before a slash, in any mixture, is read with all its members, in order and under their names |
| Archive.SignedNumber | click-dpdk/lib/archive.cc:48-59 | a number with a sign before it is read back up to the limits of 32 bits, and beyond them as the limit |
| Archive.CutIsRejected | click-dpdk/lib/archive.cc:124-151 | an archive that was written and then cut off is accepted if and only if it was cut after some of its members |
| Archive.Parse | click-dpdk/lib/archive.cc:61-152 | the loop over the sections; elements found before an error are kept |
| Archive.CheckName | click-dpdk/lib/archive.cc:166-177 | the length of the name up to a slash and whether it has white space |
| Archive.WriteName | click-dpdk/lib/archive.cc:166-186 | the name in its column, or its length there and the name after the header |
| Archive.SlashCuts | click-dpdk/lib/archive.cc:169-175 | of a name with a slash only the part before the slash is written |
| Archive.ZeroCuts | click-dpdk/lib/archive.cc:186-189 | a name in its column ends before a zero byte |
| Archive.WriteElement | click-dpdk/lib/archive.cc:166-206 | header, long name, data and padding of one member; of a header that is too long the first 60 bytes stay |
| Archive.HeaderLength | click-dpdk/lib/archive.cc:179-194 | the header that is printed has 60 bytes if and only if its numbers fit their columns |
| Archive.WideIsBad | click-dpdk/lib/archive.cc:76-78 | the parser rejects a header with a number that is too wide, whatever follows it |
| Archive.Unparse | click-dpdk/lib/archive.cc:154-214 | the live members one after the other; the length counted is the length written, so the test at the end succeeds |
| Archive.NameReads | click-dpdk/lib/archive.cc:95-118 | the kind of a name can be told from its column, and the name is recovered |
| Archive.SectionReads | click-dpdk/lib/archive.cc:76-146 | one member that was written is read back with all its fields, whatever follows it |
| Archive.ParseOfUnparse | click-dpdk/lib/archive.cc:61-214 | parsing a written archive gives its live members up to the first one with a number too wide for its column, and an error if there is one or no live member: short and long names, odd sizes |
| Archive.ParseInvertsUnparse | click-dpdk/lib/archive.cc:61-214 | it gives all live members in order, and success unless there is none, if and only if all numbers fit their columns |
| Crc32.ShiftsAreLinear | click-dpdk/lib/crc32.c:52-57 | shift steps are linear over exclusive-or |
| Crc32.LookupIsEightShifts | click-dpdk/lib/crc32.c:78-79 | a table lookup is eight shifts of the register with the byte added at the top |
| Crc32.ByteIsEightBits | click-dpdk/lib/crc32.c:78-79 | and the same as feeding the eight bits one at a time |
| Crc32.UpdateIsSerial | click-dpdk/lib/crc32.c:64-82 | for every start value and message the table-driven CRC is the bit-serial remainder |
| Crc32.UpdateJoins | click-dpdk/lib/crc32.c:64-82 | the CRC of a concatenation is two chained calls |
| Crc32.PolynomialIs | click-dpdk/lib/crc32.c:41-57 | a single one leaves 79764919, that is 04c11db7 in hexadecimal, and so does the table's entry for byte 1 |
| Crc32.Entry | click-dpdk/lib/crc32.c:50-57 | the inner loop that computes an entry |
| Crc32.Crc.GenTable | click-dpdk/lib/crc32.c:45-59 | all 256 entries |
| Crc32.Crc.Lookup | click-dpdk/lib/crc32.c:77-80 | one byte |
| Crc32.Crc.Update | click-dpdk/lib/crc32.c:64-82 | the loop, with the table filled on first use |
| IntSqrt.FfsMsb | click-dpdk/lib/integers.cc:27-57 | the position of the highest bit: 2^(32-r) <= x < 2^(33-r), and 0 for 0 |
| IntSqrt.StepStaysAbove | click-dpdk/lib/integers.cc:189-192 | a Newton step never falls below the root |
| IntSqrt.StepStops | click-dpdk/lib/integers.cc:189-192 | a step that does not fall started at the root, and ends there or one above, where a 32-bit square still fits |
| IntSqrt.Step | click-dpdk/lib/integers.cc:189-192 | the 32-bit sum does not overflow |
| IntSqrt.FirstEstimate | click-dpdk/lib/integers.cc:183-188 | both ways to start give an overestimate |
| IntSqrt.Correct | click-dpdk/lib/integers.cc:193-196 | the correction ends at the root, and no 32-bit square overflows |
| IntSqrt.SqrtByNewton | click-dpdk/lib/integers.cc:181-197 | the loops terminate with the root |
| IntSqrt.Sqrt | click-dpdk/lib/integers.cc:175-198 | the root rounded down for every 32-bit number, in both configurations |
| IntSqrt.RootIsUnique | click-dpdk/lib/integers.cc:175-198 | there is only one such number |
| Gfe.CoverPrefixes | crypto/gfe.hh:15-23 | all prefixes of the number |
| Gfe.RightPrefixes | crypto/gfe.hh:25-37 | the prefixes that a larger number can have, and holes |
| Gfe.OneMatchIffBelow | crypto/gfe.hh:15-37 | position i matches if and only if x < y and i is the highest bit in which they differ |
| Gfe.MatchCount | crypto/gfe.hh:15-37 | exactly one position matches if x < y and none otherwise, for any width |
| InCksum.Accumulate | click-dpdk/lib/in_cksum.c:33-42 | the loop sums the words, an odd byte filled up with zero, modulo 2^32 |
| InCksum.OddIsPadded | click-dpdk/lib/in_cksum.c:38-42 | an odd byte counts as a word whose second byte in memory is zero |
| InCksum.TwoFoldsAreEnough | click-dpdk/lib/in_cksum.c:44-47 | two folds of a 32-bit sum yield its one's complement sum |
| InCksum.Checksum | click-dpdk/lib/in_cksum.c:20-51 | the complement of the one's complement sum of what the accumulator holds |
| InCksum.WhenExact | click-dpdk/lib/in_cksum.c:33-36 | the accumulator loses nothing if and only if the words sum up to less than 2^32, or it wraps a multiple of 65535 times and is not zero |
| InCksum.PacketsFit | click-dpdk/lib/in_cksum.c:33-36 | data of up to 131074 bytes never make it wrap |
| InCksum.ExactUpTo | click-dpdk/lib/in_cksum.c:33-36 | for every length: the result is the one's complement sum for all data of that length if and only if it is at most 131074 |
| InCksum.ReceiverAccepts | click-dpdk/lib/in_cksum.c:20-51 | data of any length that carry their checksum at an even offset, computed with zeros there, have the checksum zero |

## Left out

- Hgd: the acceptance and rejection branch of the sampler (crypto/hgd.cc:139-276) and the logarithms of factorials are not modelled; `Ope.HgdInUrn` takes the variate as any real number in the computed range.
- Hgd.InversePass: does not model the loop back to label10, because it ends with probability one only; one pass is modelled. Real arithmetic is exact.
- Ope: AES is an arbitrary invertible cipher on 16 bytes; SHA-256 and HMAC are arbitrary functions. No claim on distributions or secrecy is made.
- Ope.OPE.Decrypt: does not model what a search that never returns leaves in the cache; such a search entered a part of the tree without plaintexts.
- Ope.DomainGap: does not model how HGD turns the generator's bytes into its variate; draw and counter afterwards are arbitrary functions of the counter.
- Ope.EveryCiphertext: does not cover intervals of more than 2^120 ciphertexts, whose offsets take more than one block; `Prng.DrawnByte` says what each byte of such an offset is.
- QuickSort: comparators are functions without side effects; elements are values, so the word and byte variants of the swap (the three swap types) are one operation.
- QuickSort.ChoosePivot: does not state which element is chosen, because only the running time depends on it.
- Prng: the other generators, seeding and prime numbers are left out.
- SourceTrie: tree nodes, weights and parent pointers are not kept, because nothing reads them after a node is done; the generated addresses and the order of the calls are modelled.
- DestTrie: the parent pointers and the node counter are not kept; in the split at the threshold and in the skew split the weights are added before the recursive calls instead of after them, when nothing reads them.
- DestFollow.BuiltFollows: does not cover nesting limits below 34, where lists that wait for the second phase lose the correlation; `DestLimit` and `DestOverrun` say what holds then.
- The trie list variables are sequences in `SourceTrie`, `DestTrie`, `TupleBst` and `RedundantFilters`; `DList` shows that the list class behaves like one. `dlist::clear`, assignment to a list that is not empty, sorting and insertion are left out.
- Child addresses are computed below level 32 only; at level 32 the source computes them with a negative shift and does not use them.
- TupleBst: the logarithms of the scope are taken together and rounded down, without floating-point rounding error.
- FilterNesting: protocol 0 stands for any, and flags are compared under their mask.
- RedundantFilters: the fields of a filter that duplicate removal does not read are left out; the array of filters has an unused element 0 as in the source.
- ConfParse: other parsers and printers of the file (addresses, reals, times, words, cp_spacevec) are left out. `ConfText` covers strings whose quotes, comments and escapes are terminated; for others the functions state the result.
- FfxPack.U64ToMem: does not cover a second word with bits above its width, which no caller passes.
- Cmc.Encrypt: does not model the empty message, which has no first and last block to make a mask from.
- CbcMac: block sizes above 255 bytes are left out, because the source counts buffered bytes in one byte.
- Ffx: machine words are lowest byte first. Widths below 2 bits, for which the source shifts a 64-bit word by 64, are left out.
- Archive: error messages and warnings are not modelled, only whether an error ends the parse.
- Archive: printing a number that is too wide past the space that was reserved is not modelled; what stays in the text is.
- IntSqrt: the 64-bit variant is left out; it shifts a 32-bit one by 32 for arguments from 2^62 on.
- Gfe: the pseudo-random vectors and their dot products are left out, as are expected values.
- InCksum: words are lowest byte first; the pseudo-header sums are left out.
- crypto/ope-exp.cc, the other ciphers, hashes and paddings, parameter files, scaling of skew, statistics and printing in db_generator, and all kernel, network and file code are left out.

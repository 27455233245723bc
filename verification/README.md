# CooS in Dafny

A model of five parts of the CooS kernel and its libraries, with proofs of what they promise.

- **The kernel heap** (`kernel/malloc.c`). The kernel makes one mspace over a fixed region and takes every block from it. The
  configuration in `kernel/malloc.c:1-7` leaves out mmap, morecore, locks and footers, and keeps the checks. The model is a class
  over the words of the region, with the bookkeeping the code keeps in those words: boundary tags, 32 small bins as circular lists,
  32 tree bins as bitwise tries, two bitmaps, the designated victim and top. Every routine works on the words; ghost fields name
  the chunks and the contents of the bins. `Heap.Valid` is the invariant between calls: chunks tile the region up to top, sizes,
  feet and the two in-use bits agree, no two free chunks are adjacent, every free chunk but the victim is in the one bin of its
  size, the bitmaps are exact, and the tries are tries. No failure branch can be entered from a valid state.
- **The hash table** (`csutility/Collections/Inttable.cs`): open addressing with double hashing, chain markers and tombstones,
  against a finite map; and the lookups of its sibling with reference keys (`cscorlib/Collections/Codetable.cs`).
- **The Mersenne Twister** (`cskorlib/MersenneTwister.cpp`): an array regenerated in place, against one infinite recurrence, and
  what its outputs tell about its seed.
- **The operand encoder** (`ia32assembler/AssemblerBase.cs`, `ia32assembler/RegMem.cs`), against a decoder that follows
  section 2.1.5 of volume 2 of the Intel 64 and IA-32 Architectures Software Developer's Manual.
- **Base relocation** (`kernel/pe.cpp`): words of an image moved by data that lies in the same image.

`Clients.Run` is the main result about the heap. For any sequence of malloc, calloc, memalign, realloc, free, independent_calloc,
independent_comalloc, trim, and reads and writes of words and bytes, clients see blocks that are aligned, separate and unchanged by anything but their own
writes, and when every block has been freed, in any order, the heap is the one that was created.

## Findings

Where the code does not do what it is for, the model keeps the code, a lemma names an input, and another says exactly, for all
inputs, when the code is right.

| source | as written | input | intended | confidence |
|---|---|---|---|---|
| kernel/malloc.c:3738-3742 | an alignment that is no power of two is rounded up by doubling 16 in 32 bits until it is reached; above 2^31 the doubling becomes 0 and never ends (Memalign.DoublingForever) | memalign with the alignment 0x80000001 | a result for every alignment; the loop ends if and only if the alignment is at most 2^31 (Memalign.DoublingEnds) | proved |
| kernel/malloc.c:3849-3869 | the total of the elements and the array is added up modulo 2^32, so malloc grants a small chunk that is split as if it were the whole (IndependentAlloc.WrappedRequest, IndependentAlloc.WrappedGranted) | independent_calloc of 1073741824 elements of 12 bytes, without a caller's array: 16 bytes are asked for, which any heap with more than 16 bytes in top grants | elements that tile one chunk, or a failure; kept if and only if the exact total is below 2^32 or what is asked for is refused (IndependentAlloc.Ialloc, IndependentAlloc.AskedExactly, IndependentAlloc.RoomNeeded, IndependentAlloc.WrappedBroken) | proved |
| csutility/Collections/Inttable.cs:309-311 | the insert compares two boxed keys, which are never the same object, so a key that is present is entered a second time (Inttables.AssignTwiceBoxed) | two assignments to the key 5 | the second overwrites the first; so if and only if the key is absent or keys are references, as in Codetable (Inttables.Inttable.PutImpl, Inttables.AssignTwice) | proved |
| csutility/Collections/Inttable.cs:333-363 | the key -2, which marks tombstones, is compared like any other: it is found, and removed, wherever its path meets a tombstone, and the removal counts one key too few | ContainsKey(-2) or Remove(-2) on a table with a tombstone in slot (2147483646 mod size) | -2 is never in the table; so if and only if the path of -2 meets no tombstone (Inttables.Inttable.Find, Inttables.Inttable.ContainsKey, Inttables.Inttable.Remove) | proved |
| cscorlib/Collections/Codetable.cs:46-50 | every slot a lookup reads is cast to the class of the keys, which throws on a tombstone | keys with the hashes 1 and 12 in a table of 11, the first removed, the second looked up (Codetables.LookupThrows) | the map's answer; so if and only if the path of the key meets no tombstone before it ends (Codetables.Find, Codetables.Get, Codetables.ContainsKey, Codetables.Remove) | proved |
| csutility/Collections/Inttable.cs:416-457 | the insert's place is reduced only when used and can pass 2^32, after which it visits other slots than a lookup does (Probing.SpotParts) | a table of 47431 slots and the hash 2146112576 | the lookup's probe sequence; the two agree if and only if hash + (size - 1) * step is below 2^32 (Probing.SpotAgrees), which all sizes up to 31627 guarantee (Probing.SpotOK) | proved |
| ia32assembler/AssemblerBase.cs:75-101 | an index register ESP is written like any other, but the processor reads it as no index | RegMem.Indirect(EAX, ESP, 2, 0) | the address the caller meant; so if and only if there is no index or it is not ESP (Operands.SameMeaning) | proved |
| ia32assembler/AssemblerBase.cs:43-58 | WithDisp answers true after an operand with a SIB byte and no displacement | RegMem.Indirect(ESP) | whether a displacement was written; right if and only if the operand does not have a SIB byte without a displacement (Assemblers.GettersExact) | proved |
| ia32assembler/RegMem.cs:47-58 | the two forms without a base are refused, the one with an index after its ModR/M byte is written | RegMem.Indirect(4096) | an operand the assembler can write; so if and only if it has a base (Assemblers.FormsRefused, Assemblers.IA32AssemblerBase.WriteModifiers) | proved |

## Model

| member | source | states |
|---|---|---|
| Bits.LeastIdx | kernel/malloc.c:2224-2239 | the branch-free index of the least set bit of a non-zero 32-bit map is the least marked index |
| Bits.NextIdx | kernel/malloc.c:2233-2242 | the index of the least bit of the map that lies to the left of a given bit is the least marked index above it; if that word is zero there is none |
| Bits.SmallBits | kernel/malloc.c:4396-4402 | the two low bits of the shifted small map tell whether the exact bin or the next one is marked, and which; a zero shift means that no bin from there up is |
| Bits.NextSmall | kernel/malloc.c:4413-4419 | when both are empty but the shifted map is not, the masked bit search gives the next marked small bin |
| TreeIndexing.TreeIndexOK | kernel/malloc.c:2161-2192 | every 32-bit size of at least 256 lies between the smallest size of the bin computed for it and that of the next bin, with no upper bound for the last bin |
| TreeIndexing.TreeIndexMono | kernel/malloc.c:2161-2192 | a size with a smaller tree index than another is smaller |
| TrieBits.Descend | kernel/malloc.c:2894-2898 | the sign bit of the shifted size tells which half of the remaining range the size is in, and one more shift keeps that true for the half |
| Tries.InsTrie | kernel/malloc.c:2893-2926 | insertion keeps the trie on size bits, and adds exactly the new size |
| Tries.LiftLeafTrie | kernel/malloc.c:2961-2976 | replacing a node by its rightmost leaf keeps the trie |
| Tries.PutTrie | kernel/malloc.c:2947-3016 | replacing a subtree by one that fits wherever it did keeps the trie above it |
| TreeOps.Relink | kernel/malloc.c:2977-3014 | the stores that relink parent and children turn words that show the replacement's subtrees into words that show the whole replaced subtree |
| TreeRemoval.RemovedTrie | kernel/malloc.c:2930-3016 | a tree bin without one of its chunks, in each of the ways a chunk can leave, is still a trie on the same range |
| TreeRemoval.RemovedMembers | kernel/malloc.c:2930-3016 | it holds exactly the other chunks |
| Chunks.MergeShape | kernel/malloc.c:4514-4573 | when the chunks between two edges become one free chunk between chunks in use, the chunks again tile the region, with no two free neighbours |
| Retagging.MergeStep | kernel/malloc.c:4514-4573 | with the head, foot and next head written, the merged heap is sound in memory and no payload in use has changed |
| Retagging.CarveStep | kernel/malloc.c:3608-3612 | the three stores that split a free chunk leave a sound heap whose front part is in use |
| SmallBinMacros.InsertSmallChunk | kernel/malloc.c:2808-2824 | the chunk comes last in the list of the bin of its size, also when the bin's own links are stale because its map bit is clear |
| SmallBinMacros.UnlinkSmallChunk | kernel/malloc.c:2827-2844 | exactly the given chunk leaves its bin, whose map bit is cleared if it was the last |
| SmallBinMacros.UnlinkFirstSmallChunk | kernel/malloc.c:2847-2861 | exactly the newest chunk, to which the header points, leaves the bin |
| TreeInsertMacro.InsertLargeChunk | kernel/malloc.c:2879-2928 | the loop ends, the bin becomes the trie with the chunk inserted, as a leaf or in the ring of its size, and no payload changes |
| TreeUnlinkMacro.RightmostLeaf | kernel/malloc.c:2962-2969 | the walk finds the rightmost leaf below the node and the word that points to it |
| TreeUnlinkMacro.UnlinkLargeChunk | kernel/malloc.c:2947-3016 | exactly the given chunk leaves its tree bin, whether it is chained, replaced by a ring neighbour or by a leaf, or the last of its bin |
| BinAccess.InsertChunk | kernel/malloc.c:3020-3022 | exactly the given chunk becomes listed, in the bin of its size |
| BinAccess.UnlinkChunk | kernel/malloc.c:3024-3026 | exactly the given chunk is listed no longer |
| BinAccess.ReplaceDv | kernel/malloc.c:2865-2874 | the old victim, if there is one, goes into its bin and the given chunk is the victim |
| BestFit.Considered | kernel/malloc.c:3562-3567 | the unsigned remainder is below the best one exactly if the chunk is large enough and fits more tightly; chunks that are too small are rejected by wrap-around |
| BestFit.LeftmostBest | kernel/malloc.c:3590-3597 | following the leftmost child misses no chunk that fits more tightly |
| BestFit.SearchLarge | kernel/malloc.c:3549-3597 | the chunk found is a least listed tree chunk of at least nb bytes over all tree bins, and there is none exactly if no such chunk is listed |
| BestFit.SearchSmall | kernel/malloc.c:3622-3638 | the chunk found is a least listed tree chunk |
| Malloc.RequestSize | kernel/malloc.c:1600-1609 | the chunk size of a request is the least multiple of 8, from 16 up, that holds it and four bytes more; it is below 256 exactly for requests up to 244 bytes |
| Choices.LargeTreeChoice | kernel/malloc.c:4447-4452 | a tightest tree chunk that beats the victim is a least one of all the free chunks that fit |
| Choices.DvChoice | kernel/malloc.c:4455-4475 | where the victim is used it is, for a large request, a least free chunk that fits, and for a small one neither its bin nor the next has a chunk |
| Choices.NextChoice | kernel/malloc.c:4413-4435 | the chunk of a higher small bin is the newest of the first bin above the exact one that has any |
| Choices.TopChoice | kernel/malloc.c:4477-4488 | where top is cut no free chunk fits |
| Malloc.TmallocLarge | kernel/malloc.c:3549-3616 | it hands out a least tree chunk that fits, which is smaller than the victim or the victim does not fit; it returns 0 with nothing changed exactly if the victim fits at least as tightly as every tree chunk that does |
| Malloc.TmallocSmall | kernel/malloc.c:3622-3658 | it hands out nb bytes or a little more of a least tree chunk; a rest of 16 bytes becomes the victim, and the invariant holds |
| Malloc.SmallRequest | kernel/malloc.c:4392-4443 | it tries the newest chunk of the exact bin, of the next bin, and, if the victim does not serve, of the first bin above, then a least tree chunk; it returns 0 with nothing changed only if the two bins are empty and the victim serves or nothing listed fits |
| Malloc.MspaceMalloc | kernel/malloc.c:4383-4495 | it returns 0, with nothing changed, exactly if the request is too large or neither a free chunk nor top can serve it; otherwise exactly one new chunk is in use, the invariant holds and no live payload has changed. Which chunk: top exactly if no free chunk fits; for more than 244 bytes a least of all free chunks that fit, and the victim if it is one; for less the newest of the exact bin, the next bin, the victim, the newest of the first bin above, a least tree chunk, in this order. What is over is cut off if it is 16 bytes or more; the victim afterwards is stated too |
| Freeing.SysTrim | kernel/malloc.c:3440-3544 | nothing is released and 0 returned; the threshold is set so that trimming is not tried again |
| Freeing.MspaceTrim | kernel/malloc.c:4656-4669 | mspace_trim returns 0 and changes nothing else of the heap |
| Freeing.FreeForth | kernel/malloc.c:4535-4578 | whatever follows the chunk, top, the victim, a free chunk or one in use, the freed space ends up merged, binned or in top, the victim stays the victim unless it becomes part of top, and the invariant holds |
| Freeing.MspaceFree | kernel/malloc.c:4497-4586 | exactly the given block is no longer in use, the invariant holds and no live payload has changed; the victim is the free chunk that holds the old victim, or none if that has become part of top; trimming is switched off exactly if top has grown beyond the threshold; no check of the code fails |
| Heap.UserWrite | kernel/malloc.c:2529-2540 | a client that writes to its own block only keeps the whole invariant |
| Creation.InitUserMstate | kernel/malloc.c:4282-4299 | the new heap is the header chunk and one top chunk, with empty bins, and satisfies the invariant |
| Creation.CreateMspaceWithBase | kernel/malloc.c:4321-4332 | an mspace is made exactly if the capacity is above the overhead and below its complement; it is valid and pristine |
| Creation.AllFreed | kernel/malloc.c:4282-4299 | a valid heap in which nothing but the header is in use is the pristine one: one top chunk of the whole rest, no victim, both maps zero |
| Realloc.Shrink | kernel/malloc.c:3681-3690 | the chunk is cut, the remainder is in use for the moment, and the payload in front of the cut stays |
| Realloc.Grow | kernel/malloc.c:3691-3701 | the block grows into top in place, to exactly nb bytes, and keeps its words |
| Realloc.MoveBlock | kernel/malloc.c:3718-3726 | the block moves to a chunk malloc would choose, with the first words of both copied, or nothing changes exactly if no chunk fits |
| Realloc.InternalRealloc | kernel/malloc.c:3662-3729 | it fails, with the block and all else unchanged, exactly if the request is too large or it can neither stay, grow into top nor move; it stays where it is exactly if its chunk has nb bytes, or borders top and the two together have more, and otherwise moves to where malloc would put it; the new size is stated, the words up to the smaller size are kept and no other payload changes |
| Realloc.MspaceRealloc | kernel/malloc.c:4608-4624 | the same, and malloc for a null block |
| Memalign.RoundUp | kernel/malloc.c:3738-3742 | for alignments up to 2^31 the result is the least power of two from the alignment up |
| Memalign.DoublingEnds | kernel/malloc.c:3738-3742 | some doubling of 16 in 32 bits reaches the alignment if and only if it is at most 2^31 |
| Memalign.DoublingForever | kernel/malloc.c:3738-3742 | an alignment above 2^31 is no power of two and no doubling reaches it |
| Memalign.SpotOK | kernel/malloc.c:3757-3772 | the place chosen is aligned and leaves a leader of at least 16 bytes in front |
| Memalign.SpotFirst | kernel/malloc.c:3757-3766 | it is the first aligned place that leaves room for a leader |
| Memalign.CutFront | kernel/malloc.c:3757-3784 | leader and rest partition the chunk obtained, the rest starts aligned and still has nb bytes |
| Memalign.CutBack | kernel/malloc.c:3786-3796 | a trailer is cut off exactly where nb bytes end, if it is worth a chunk |
| Memalign.InternalMemalign | kernel/malloc.c:3733-3812 | the block is divisible by the rounded alignment, starts at the first such place in a chunk that malloc chooses for nb plus the alignment plus 16 bytes, and has nb bytes, or all that is left there if that is at most 16 more; all else is as before; small alignments are malloc; a failure changes nothing |
| Calloc.CallocSizeIs | kernel/malloc.c:4596-4601 | the overflow test by division is exact: the product if it fits in 32 bits, else the largest word |
| Calloc.MspaceCalloc | kernel/malloc.c:4588-4606 | it fails exactly if the product is too large or nothing fits, and otherwise hands out the block malloc would choose, with its first n * size bytes zero |
| IndependentAlloc.ContentsSize | kernel/malloc.c:3857-3867 | the size added up is the sum of the padded sizes modulo 2^32, for all sizes |
| IndependentAlloc.AskedExactly | kernel/malloc.c:3849-3881 | a total below 2^32 is asked for as it is, and refused exactly if it is too large or nothing fits |
| IndependentAlloc.SplitElements | kernel/malloc.c:3904-3920 | the loop cuts consecutive chunks of the requested sizes, and notes the address of each; the last takes what is left |
| IndependentAlloc.Ialloc | kernel/malloc.c:3816-3940 | if the total is below 2^32 or what is asked for is refused: it fails with nothing changed exactly if the total is too large or nothing fits, and otherwise the elements, and the array unless the caller has one, tile one chunk, the one malloc would choose, each in use, of its size, listed in order and cleared if asked |
| IndependentAlloc.RoomNeeded | kernel/malloc.c:3816-3940 | conversely no valid heap holds elements (and array) whose total is 2^32 or more |
| IndependentAlloc.WrappedRequest | kernel/malloc.c:3849-3869 | two inputs with totals of at least 2^32 for which malloc is asked for 16 bytes |
| IndependentAlloc.WrappedGranted | kernel/malloc.c:3849-3881 | every heap with more than 16 bytes in top grants the request of the first of them |
| IndependentAlloc.WrappedBroken | kernel/malloc.c:3816-3940 | and no valid heap holds what was promised for it |
| ChunkChecks.LinksBack | kernel/malloc.c:2506-2526 | both list neighbours of any binned chunk point back to it |
| ChunkChecks.NextOf | kernel/malloc.c:2495-2526 | the chunk after any chunk is another chunk or top, and its in-use bit and foot agree with the chunk |
| Checks.BinFind | kernel/malloc.c:2629-2662 | the search finds a chunk exactly if it is in a bin |
| Checks.RingChunk | kernel/malloc.c:2543-2575 | what those assertions read of the k-th chunk of a ring: its size, bin, links and the parent of the first only |
| Checks.TraverseAndCheck | kernel/malloc.c:2665-2693 | the sizes of all chunks, top and the top foot add up to the capacity |
| Checks.CheckMallocState | kernel/malloc.c:2696-2722 | on every valid heap all consistency checks pass, and the total is the capacity |
| Lives.RoomIs | kernel/malloc.c:4383-4495 | malloc finds a chunk of nb bytes exactly if the live blocks leave nb bytes in one piece below one of them, or more than that above all of them |
| Lives.StayIs | kernel/malloc.c:3679-3701 | a block can be resized in place exactly if nb bytes end within it, or no block lies above it and they end before the end of the heap |
| Clients.ReflectsInPlace | kernel/malloc.c:4383-4586 | live blocks are 8-aligned, inside the region, and none reaches into another |
| Clients.MovedStep | kernel/malloc.c:3662-3729 | for the client, realloc replaces one block by one that starts with the same words |
| Clients.OctetWritten | kernel/malloc.c:2529-2540 | writing one byte through its word changes that byte of the block and no other |
| Clients.MuchRefused | kernel/malloc.c:3866-3881 | a wrapped request larger than any request or than the heap is refused |
| Clients.Run | kernel/malloc.c:4383-4654 | every run of calls, trims, reads and writes of words or bytes from a new heap keeps the invariant; each call fails exactly if the live blocks leave no room for it, and else changes the live blocks as it promises and in no other way; the heap is the pristine one again whenever no block is live |
| Probing.TablePrime | csutility/Collections/Inttable.cs:68-87 | the table sizes up to 31627 are prime |
| Probing.ProbeInjective | csutility/Collections/Inttable.cs:175-196 | for a prime size no slot is visited twice within size turns |
| Probing.ProbeAll | csutility/Collections/Inttable.cs:175-196 | for a prime size every slot is visited within size turns |
| Probing.SpotOK | csutility/Collections/Inttable.cs:418-460 | for sizes with p * (p - 1) at most 2^31 the insert's place, reduced only when used, is the lookup's |
| Probing.SpotAgrees | csutility/Collections/Inttable.cs:418-460 | for any prime size the two agree on all turns if and only if hash + (p - 1) * step is below 2^32 |
| Probing.SpotParts | csutility/Collections/Inttable.cs:88 | 47431 is a prime of the table, and for the hash 2146112576 some turn of the insert reads another slot than that turn of the lookup |
| SlotTables.InsertOK | csutility/Collections/Inttable.cs:461-468 | a key put into the first free slot of its marked path adds exactly its pair to the map |
| SlotTables.RemoveOK | csutility/Collections/Inttable.cs:258-272 | a tombstone in the middle of a chain, or an empty slot at its end, removes exactly the key's pair |
| SlotTables.TombstoneOK | csutility/Collections/Inttable.cs:376-396 | a tombstone copied by a rehash changes nothing |
| SlotTables.FoundAt | csutility/Collections/Inttable.cs:181-196 | a slot with a live key is where the key's path says, and holds the map's value |
| SlotTables.NotFound | csutility/Collections/Inttable.cs:181-196 | a search that ends at an unmarked or unused slot, or after all turns, proves the key absent |
| SlotTables.SomeFree | csutility/Collections/Inttable.cs:422-460 | below the threshold every probe path has a slot to put a key in |
| SlotTables.Unmet | csutility/Collections/Inttable.cs:344-361 | a lookup that reads no tombstone until it ends has none on its path |
| SlotTables.VacatedTomb | csutility/Collections/Inttable.cs:258-272 | vacating a tombstone once more changes nothing in the map |
| Inttables.ToPrime | csutility/Collections/Inttable.cs:505-511 | the result is the least table prime from the argument up |
| Inttables.Inttable.Find | csutility/Collections/Inttable.cs:333-363 | it returns the slot of a key of the map and -1 for every other key; the key -2 is found exactly if its path meets a tombstone |
| Inttables.Inttable.Get | csutility/Collections/Inttable.cs:169-199 | it returns the map's value, or the default for an absent key; for -2 the default if its path meets no tombstone, else what a tombstone holds |
| Inttables.Inttable.ContainsKey | csutility/Collections/Inttable.cs:274-276 | it tells whether the map has the key; for -2, which no map has, it tells whether its path meets a tombstone |
| Inttables.Inttable.Count | csutility/Collections/Inttable.cs:144-148 | it is the number of keys of the map |
| Inttables.Inttable.Clear | csutility/Collections/Inttable.cs:243-252 | the map becomes empty, and the modification count goes up by one |
| Inttables.Inttable.Remove | csutility/Collections/Inttable.cs:258-272 | the map loses exactly the key and the table stays valid, except that for -2 the count becomes one too low exactly if its path meets a tombstone; the modification count goes up by one, modulo 2^32, exactly if the key is found |
| Inttables.Inttable.Rehash | csutility/Collections/Inttable.cs:365-402 | the inner loop ends for every slot, and the new table, of the first prime from twice the size and one up, has the same map; the modification count goes up by one |
| Inttables.Inttable.PutImpl | csutility/Collections/Inttable.cs:405-470 | for an absent key, or keys that are references, the map gains or overwrites the pair, or a duplicate is reported and nothing changes; a boxed key that is present is entered twice; the modification count goes up by one for a rehash and by one for a pair that is stored or overwritten |
| Inttables.AssignTwiceBoxed | csutility/Collections/Inttable.cs:309-311 | two assignments to one key leave two entries and a table that is no map |
| Inttables.AssignTwice | cscorlib/Collections/Codetable.cs:317-319 | with keys compared as references they leave one |
| InttableEnumerators.Enumerator.MoveNext | csutility/Collections/Inttable.cs:566-584 | it stops at the next live slot, or at the end, and fails exactly if the table has been modified |
| InttableEnumerators.CopyToArray | csutility/Collections/Inttable.cs:472-479 | the enumerator lists every pair of the map exactly once, in the order of the slots, and the rest of the array is unchanged |
| Codetables.Find | cscorlib/Collections/Codetable.cs:341-370 | it throws exactly if the path of the key meets a tombstone, and otherwise returns the slot of the key or -1 |
| Codetables.Get | cscorlib/Collections/Codetable.cs:172-203 | it throws exactly if the path meets a tombstone, and otherwise returns the map's value or the default |
| Codetables.ContainsKey | cscorlib/Collections/Codetable.cs:277-279 | it throws exactly if the path meets a tombstone, and otherwise answers as the map does |
| Codetables.Remove | cscorlib/Collections/Codetable.cs:261-275 | it throws, with nothing changed, exactly if the path meets a tombstone, and otherwise removes exactly the key, counting a modification if it was there |
| Codetables.LookupThrows | cscorlib/Collections/Codetable.cs:46-50 | after two keys that start at one slot are entered and the first is removed, the table has the second key and a lookup of it throws |
| InttableRuns.Run | csutility/Collections/Inttable.cs:144-470 | any number of puts, removes, lookups, counts and clears answers like a finite map and ends with its pairs, as long as no put makes the table grow past 31627 slots (and, with boxed comparison, each key put is absent); how the table grows and how often the modification count goes up is part of the statement |
| InttableRuns.CountsChange | csutility/Collections/Inttable.cs:243-272 | a run of calls counts as a modification at least once exactly if one of them stores, overwrites, removes or clears, or makes the table grow |
| InttableRuns.RunAndMove | csutility/Collections/Inttable.cs:552-584 | an enumerator made before any run of calls fails at its next move exactly if the run counts to no multiple of 2^32, so, below 2^32, exactly if one of the calls has changed the table |
| TwisterWords.UntwistTwist | cskorlib/MersenneTwister.cpp:108-121 | from a new word and the word it was mixed with, the joined bits of its two predecessors can be computed |
| TwisterWords.TemperBijection | cskorlib/MersenneTwister.cpp:124-130 | tempering is a bijection on 32-bit words |
| TwisterWords.TemperLinear | cskorlib/MersenneTwister.cpp:124-130 | tempering is linear over exclusive or |
| TwisterWords.TemperUnits | cskorlib/MersenneTwister.cpp:124-130 | the images of the 32 single bits, which with linearity fix every output word |
| TwisterWords.TwistLinear | cskorlib/MersenneTwister.cpp:108-121 | so is the step from three words to the new one |
| TwisterWords.TwistUnits | cskorlib/MersenneTwister.cpp:108-121 | what becomes of each single bit of the three words |
| TwisterStates.Recurrence | cskorlib/MersenneTwister.cpp:108-121 | word 624 + k comes from the words k, k + 1 and k + 397 |
| TwisterStates.TermNexts | cskorlib/MersenneTwister.cpp:108-121 | after b regenerations word k is term 624 * b + k of one recurrence |
| TwisterStates.Recovered | cskorlib/MersenneTwister.cpp:108-121 | regeneration is reversible: all words but the low 31 bits of the first are recovered from the new array |
| TwisterStates.Reversible | cskorlib/MersenneTwister.cpp:108-121 | states with the same successor agree in all bits that count |
| TwisterStates.NextsNonZero | cskorlib/MersenneTwister.cpp:92-121 | a state that is not zero in its 19937 bits never becomes zero |
| TwisterStates.SeededIs | cskorlib/MersenneTwister.cpp:51-64 | each seeded word is 1812433253 * (w ^ (w >> 30)) + i of the word w before it, and the first is the seed |
| TwisterStates.SeededNonZero | cskorlib/MersenneTwister.cpp:51-64 | no seed gives a zero state |
| TwisterStates.KeyedNonZero | cskorlib/MersenneTwister.cpp:70-93 | no key gives a zero state |
| TwisterKeyed.KeyTermIs | cskorlib/MersenneTwister.cpp:70-93 | the two mixing loops as one recurrence: each turn makes a word from the one before it, the one of 623 turns ago, and the key or the index |
| TwisterKeyed.KeyedIs | cskorlib/MersenneTwister.cpp:70-93 | the keyed state is the last 623 terms of that recurrence, each in its place, and the top bit as first word |
| TwisterKeys.OutputsTell | cskorlib/MersenneTwister.cpp:96-131 | 624 outputs determine the state |
| TwisterKeys.SeedsTell | cskorlib/MersenneTwister.cpp:51-64 | two seeds whose generators agree on 624 outputs are equal |
| TwisterKeys.LessLoopTells | cskorlib/MersenneTwister.cpp:84-90 | the second mixing loop of init_by_array can be undone |
| TwisterKeys.StateTellsKey | cskorlib/MersenneTwister.cpp:70-93 | two keys of one length, up to 621 words, that give the same state are equal |
| TwisterKeys.KeysTell | cskorlib/MersenneTwister.cpp:70-131 | and so are two whose generators agree on 624 outputs |
| MersenneTwisters.MersenneTwister.InitGenrand | cskorlib/MersenneTwister.cpp:51-64 | the array holds the seed, and each word after it is 1812433253 * (w ^ (w >> 30)) + i of the word w before it |
| MersenneTwisters.MersenneTwister.InitByArray | cskorlib/MersenneTwister.cpp:70-93 | the array is the keyed state, the last 623 terms of the recurrence of its loops and the top bit, with all indices in range for every non-empty key |
| MersenneTwisters.MersenneTwister.Regenerate | cskorlib/MersenneTwister.cpp:108-121 | the three loops, which read words already replaced, compute exactly the next 624 terms |
| MersenneTwisters.MersenneTwister.Generate | cskorlib/MersenneTwister.cpp:96-131 | the n-th call returns the tempered term 624 + n, and the state is not zero |
| MersenneTwisters.GenerateMany | cskorlib/MersenneTwister.cpp:96-131 | any number of calls returns the tempered terms one after the other |
| Operands.GetBytesBack | ia32assembler/AssemblerBase.cs:121-122 | four bytes, or one for small values, read back as the displacement with its sign |
| Operands.PackedParts | ia32assembler/AssemblerBase.cs:67-101 | the three fields of a ModR/M or SIB byte read back |
| Operands.FormsMean | ia32assembler/RegMem.cs:32-61 | an operand means the register or the address its form was given: base, index times scale, displacement |
| Operands.DecodeEncode | ia32assembler/AssemblerBase.cs:125-180 | the bytes of any operand that is not refused, whatever follows them, are read by the processor's tables as its place and register, and no byte more |
| Operands.SameMeaning | ia32assembler/AssemblerBase.cs:125-180 | that place is the address the caller meant under every register file if and only if the index is not ESP |
| Operands.FormsRead | ia32assembler/RegMem.cs:32-61 | the bytes of an operand made by a form, whatever follows them, are read as exactly that register or address, if the index is not ESP |
| Assemblers.RefusedExactly | ia32assembler/AssemblerBase.cs:67-180 | operands are accepted exactly if their registers exist and their scale is one of the six |
| Assemblers.FormsRefused | ia32assembler/RegMem.cs:32-61 | of the forms an operand can be made in, those without a base are always refused and the others exactly if a register does not exist |
| Assemblers.IA32AssemblerBase.WriteModRM | ia32assembler/AssemblerBase.cs:67-73 | one byte with the three fields is written, or the first bad argument is reported and nothing is written |
| Assemblers.IA32AssemblerBase.WriteSIB | ia32assembler/AssemblerBase.cs:75-101 | one byte is written, or the first failing test is reported and nothing is written |
| Assemblers.IA32AssemblerBase.WriteDisplacement | ia32assembler/AssemblerBase.cs:103-123 | one or four bytes are written as the last mode asks, or nothing |
| Assemblers.IA32AssemblerBase.WriteModifiers | ia32assembler/AssemblerBase.cs:125-180 | the operand's encoding is appended, or it is refused with the reason of the first failing test and at most its ModR/M byte is written |
| Assemblers.GettersExact | ia32assembler/AssemblerBase.cs:35-59 | WithSIB is right about every operand, WithDisp exactly about those that do not have a SIB byte without a displacement |
| Assemblers.StreamBack | ia32assembler/AssemblerBase.cs:125-180 | any sequence of operands is read back from its bytes, with nothing between them |
| Assemblers.StreamUnique | ia32assembler/AssemblerBase.cs:125-180 | sequences written as the same bytes have the same length, places and registers |
| Assemblers.UniqueMeaning | ia32assembler/AssemblerBase.cs:125-180 | and mean the same addresses, if no index is ESP |
| Assemblers.NoShorter | ia32assembler/AssemblerBase.cs:135-180 | no shorter bytes read as the same place, unless an index ESP forces a SIB byte for nothing |
| Assemblers.ShorterForm | ia32assembler/AssemblerBase.cs:135-180 | in that case there is a shorter form |
| PeDirectories.DirectoryRead | kernel/pe.h:251-259 | pages of addresses and entries of a 4-bit kind and a 12-bit offset, written as little-endian blocks with padding anywhere in an image, are read as a directory that ends where they end and names, in order, page + offset of exactly the entries of kind 3 |
| PeDirectories.PagesMoved | kernel/pe.cpp:55-70 | relocating an image with such a directory adds the distance to each dword the pages name, as often as they name it, and leaves every other byte |
| Relocations.Gains | kernel/pe.cpp:62-67 | a word gains the distance as often as it is named, modulo 2^32, if no target partly overlaps it |
| Relocations.Untouched | kernel/pe.cpp:57-70 | a byte in no target stays |
| Relocations.WordsMoved | kernel/pe.cpp:55-70 | for distinct targets that do not overlap, each word gains exactly the distance and every other byte stays |
| Relocations.DirectoryStays | kernel/pe.cpp:55-70 | relocation leaves the directory that drives it, and so the targets, unchanged |
| Relocations.MovedTwice | kernel/pe.cpp:55-70 | moving an image from one base to a second and then to a third is moving it to the third at once |
| Relocations.MovedBack | kernel/pe.cpp:55-70 | moving it back restores every byte |
| PeImages.CopiedFrom | kernel/pe.cpp:41-53 | every byte of the image comes from the last section that holds it, or from the new array |
| PeImages.Relocate | kernel/pe.cpp:55-70 | the nested loops end and, though they read the image they change, make exactly the changes the directory named at the start; for a directory of pages, each dword named gains the distance and all else stays |
| PeImages.Image.constructor | kernel/pe.cpp:37-70 | the image is the copied sections relocated by the distance to the preferred base, in terms of the pages of its directory too |

## Left out

- Paths of `kernel/malloc.c` that this configuration compiles out or cannot reach: mmap and morecore (`sys_alloc` can only fail,
  `sys_trim` only switch itself off), locks, footers, the global `dl*` functions, `mallinfo` and statistics, `destroy_mspace`;
  `mspace_footprint` always takes its error branch (4681-4689).
- The actions for corrupted heaps and for pointers that are not live blocks: the model proves that valid calls never reach them.
- Clients.Run: memalign with an alignment above 2^31, which does not return, and ialloc with a total that wraps to a request the heap
  may grant are not among the calls.
- Malloc.MspaceMalloc: of several tree chunks of one size it is not said which is taken.
- The malloc_state itself is kept in fields, except for the bin headers and tree roots, which are words of the region.
- Arrays of sizes and addresses that callers hand to `ialloc` are separate from the heap.
- IndependentAlloc.Ialloc: after a total that wrapped and was granted, the code splits more than it has; the model says when this
  happens, not what the code then overwrites.
- Memalign.RoundUp: alignments above 2^31, on which the loop does not end (Memalign.DoublingForever).
- Memalign.InternalMemalign: the same alignments; and where the victim is after leader and trailer have been freed, which only
  MspaceFree says.
- Creation.InitUserMstate: bases and capacities are multiples of 8, as the kernel's region is; the code aligns the base, but puts
  the rest of an odd capacity into the size of top.
- Creation.CreateMspaceWithBase: the same.
- Inttables.Inttable.PutImpl: the key -2, which would be entered as a tombstone that is counted, and puts that would make the table
  grow past 31627 slots, where the insert's place can pass 2^32 (Probing.SpotAgrees says when it does).
- Inttables.Inttable.Rehash: tables that would grow past 31627 slots, for the same reason.
- InttableRuns.Run: the key -2, and puts that would make the table grow past 31627 slots.
- InttableRuns.RunAndMove: the same.
- Inttables.ToPrime: sizes above the last of the table of primes, which the code gives to CalcPrime.
- `CalcPrime` and `TestPrime`, which accept squares of primes; the key and value views of the table.
- `cscorlib/Collections/Codetable.cs`: its inserts are those of Inttable with reference keys (`boxed` false); only its lookups and
  removals, which cast what they read, are modelled apart. A key is modelled by its handle, which is also its hash.
- The real-valued generators of the Mersenne Twister, and the default seed for a generator without one: both constructors seed it.
- TwisterKeys.StateTellsKey: nothing is said about keys of 622 words or more; from 624 words on there are more keys than states.
- The instructions of `ia32assembler/Assembler.cs`: an opcode, an operand as here, and an immediate.
- The headers of an image: their fields are parameters of the loader. Directories that are not well formed, such as a block of size
  0, on which the loop would not advance; targets that partly overlap each other or the directory.
- The other parts of CooS: drivers, console, the managed and native bridge, file formats and generated code.

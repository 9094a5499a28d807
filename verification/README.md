# Verified models of the OpenSSL core

A Dafny 4.11 model of the parts of the repository's OpenSSL tree and RFC 8902 client that keep
state in arrays, lists and buffers, with proofs of what they are for. `dafny verify dfyconfig.toml`
checks everything.

| files | what they model |
|---|---|
| `Blocks`, `Tiling`, `FreeLists`, `HeapState`, `HeapSteps`, `Accounting`, `SecureHeap`, `HeapRuns` | the secure heap: a buddy allocator with bit tables and free lists threaded through the arena |
| `Hmac`, `CbcDigest`, `LongSecrets`, `KnownMacs` | the constant-time MAC of CBC records |
| `SparseArray`, `SparseArrayWalk`, `KnownArrays` | the 16-way radix tree with 64-bit indices |
| `JulianDay`, `GmTime`, `KnownTimes` | calendar dates and exact time shifts |
| `BigEndian`, `PacketFrames`, `Wpacket`, `PacketRuns`, `KnownPackets` | packet writers with nested lengths, forwards and backwards |
| `DerWriter`, `DerRuns`, `DerSignature`, `DerDecoder`, `KnownDer` | DER writing back to front, and DSA signatures both ways |
| `Punycode`, `PunycodeEncoder`, `KnownLabels` | the Punycode decoder against RFC 3492, and back from its encoder |
| `TwosComplement`, `Doubles`, `Params`, `KnownParams` | integers of any size and sign, and doubles |
| `NameMap`, `KnownNames` | names and numbers of algorithms |
| `HttpHeaders` | an HTTP header arriving in pieces |
| `Arithmetic`, `Sequences` | facts about quotients, products and powers; repeated elements |

The objects the C code changes in place are classes over arrays with the same fields; their methods
follow the code branch by branch, assertions included. What a method means is a function or
predicate on values, about which the lemmas speak. The definitions in turn are tied to
something that does not use it: a property that determines it, or answers worked out by hand in the
files whose names begin with Known. The proofs make local use of `hide` to keep definitions out of
the way.

Sizes are those of a 64-bit system: `size_t` and `long` have 64 bits, `int` has 32, a list header of
the secure heap 16 bytes.

Nine properties one might expect do not hold. Each has a lemma with a concrete input and an exact
condition for all inputs:

* `OPENSSL_gmtime_adj` stores the year in an `int`, so a shift by 2^32 years succeeds with the wrong
  year (`GmTime.WrappedShift`); a successful shift is exact if and only if the target lies from 1900
  to 9999 (`GmTime.AdjExactness`).
* Shifting back does not restore every time: a leap second becomes the midnight after it
  (`GmTime.LeapSecondLost`). It does if and only if the time is not a leap second and its year lies
  from 1900 to 9999 (`GmTime.AdjUndone`).
* `OPENSSL_gmtime_adj` does not normalise all clock fields: 48 hours become 24 hours of the next day
  (`GmTime.HoursLeft`). The fields come out in their ranges if and only if one day is enough to carry
  (`GmTime.NormalExactly`).
* A packet writer without a buffer accepts values and lengths that do not fit their bytes
  (`PacketRuns.PutTooMuch`, `PacketRuns.DryRunMisses`), although include/internal/packet.h promises
  an error for such a value of `WPACKET_put_bytes__`. A run into a buffer succeeds if and only if the
  dry run with the same room does and all lengths fit (`PacketRuns.DryRunAgrees`); when the calls
  themselves succeed is said by `PacketRuns.WriteItem` and `Wpacket.Wpacket.PutBytes`.
* The decoders of crypto/asn1_dsa.c accept more than DER (`DerDecoder.NotOnlyDer`,
  `DerDecoder.NotOnlyDerSig`). What they accept is the DER encoding of what they return if and only
  if all lengths are written in the fewest octets (`DerDecoder.IntegerExactly`,
  `DerDecoder.SigExactly`).
* Not every integer that is read from a parameter of type double can be set in it
  (`Params.NotTaken`): that is possible if and only if it lies below 2^53 in absolute value, as the
  contracts of `Params.SetInt64` and `Params.SetUint64` say.
* A name added to a name map under a number that was never given out can come to share it with an
  unrelated name (`NameMap.NumbersClash`), and this can happen if and only if the number lies above
  all those given out so far (`NameMap.ClashExactly`).
* `ssl3_cbc_digest_record` cuts a MAC secret that is longer than a hash block instead of hashing it,
  which TLS never asks for: for every longer secret there is a hash function with which the output
  is not the HMAC (`LongSecrets.LongSecretDiffers`), and it always is if and only if the secret is no
  longer than a block (`LongSecrets.HmacExactly`).
* How an HTTP header is cut into pieces matters when its first line is empty (`HttpHeaders.StaleFlag`,
  `HttpHeaders.IndependentExactly`).

Also, `ssl3_cbc_digest_record` does not look at the result of the last digest call, so that a failure
there leaves no output and is reported as success; `CbcDigest.DigestRecord` says so.

## Model

| member | source | states |
|---|---|---|
| `Blocks.BitIndexInjective` | iso21177poc/common/src/main/cpp/openssl/crypto/mem_sec.c:333-366 | different blocks of the arena have different bits in the tables, so a bit stands for one block only |
| `Blocks.BitIndexWithinTable` | iso21177poc/common/src/main/cpp/openssl/crypto/mem_sec.c:333-366 | every block's bit lies inside the tables, so the bounds assertions of the three bit functions cannot fire |
| `Blocks.SevenBits` | iso21177poc/common/src/main/cpp/openssl/crypto/mem_sec.c:333-366 | known answers: in an arena of four blocks bit 1 is the whole, bits 2 and 3 are its halves and bits 4 to 7 the quarters, from left to right |
| `Blocks.FlipIsBuddy` | iso21177poc/common/src/main/cpp/openssl/crypto/mem_sec.c:592-604 | flipping the low bit of a block's bit number gives the bit number of the other half of its parent |
| `Blocks.HalveBit` | iso21177poc/common/src/main/cpp/openssl/crypto/mem_sec.c:318-330 | halving a bit number without remainder is the step from a block to its parent that starts at the same address; the search by halving cannot skip a level |
| `Blocks.OverlapIsNested` | iso21177poc/common/src/main/cpp/openssl/crypto/mem_sec.c:606-669 | two aligned blocks that meet are nested, and equal if their levels are |
| `Tiling.SplitTiles` | iso21177poc/common/src/main/cpp/openssl/crypto/mem_sec.c:629-655 | replacing a block of a tiling by its two halves gives a tiling of the arena again: every byte stays in exactly one block |
| `Tiling.MergeTiles` | iso21177poc/common/src/main/cpp/openssl/crypto/mem_sec.c:687-709 | replacing two buddies of a tiling by their parent gives a tiling of the arena again |
| `Tiling.OnlySmallerIsImpossible` | iso21177poc/common/src/main/cpp/openssl/crypto/mem_sec.c:687-709 | without free buddies an aligned region outside the live blocks cannot consist of smaller free blocks only |
| `Tiling.AvailableHasLargeFreeBlock` | iso21177poc/common/src/main/cpp/openssl/crypto/mem_sec.c:621-655 | if some aligned region of a size lies outside the live blocks, a free block at least that large is on a list, so the search for one succeeds |
| `Tiling.LargeFreeBlockIsAvailable` | iso21177poc/common/src/main/cpp/openssl/crypto/mem_sec.c:621-655 | conversely a free block at least that large holds such a region |
| `Tiling.NothingUsedIsWhole` | iso21177poc/common/src/main/cpp/openssl/crypto/mem_sec.c:687-709 | with nothing live, a tiling without free buddies is the single block of level 0 |
| `FreeLists.AddThreads` | iso21177poc/common/src/main/cpp/openssl/crypto/mem_sec.c:368-386 | pushing a chunk on an intrusive doubly linked list in the arena gives a well-linked list with that chunk first |
| `FreeLists.RemoveThreads` | iso21177poc/common/src/main/cpp/openssl/crypto/mem_sec.c:388-401 | unlinking any element leaves the rest well linked, in the same order, whether the back pointer leads to another chunk or to the list head |
| `HeapState.AddKeepsThreads` | iso21177poc/common/src/main/cpp/openssl/crypto/mem_sec.c:368-386 | pushing on one free list keeps all free lists well linked, although they share the arena |
| `HeapState.RemoveKeepsThreads` | iso21177poc/common/src/main/cpp/openssl/crypto/mem_sec.c:388-401 | unlinking from one free list keeps all free lists well linked |
| `HeapSteps.TakeFree` | iso21177poc/common/src/main/cpp/openssl/crypto/mem_sec.c:633-635 | clearing a free block's bit and unlinking it keeps bits, lists and blocks in agreement and its bytes after the header zero |
| `HeapSteps.PutFree` | iso21177poc/common/src/main/cpp/openssl/crypto/mem_sec.c:642-652 | setting a new block's bit and pushing it keeps them in agreement |
| `HeapSteps.HandOut` | iso21177poc/common/src/main/cpp/openssl/crypto/mem_sec.c:658-661 | marking a free block as handed out and unlinking it keeps them in agreement |
| `HeapSteps.GetBack` | iso21177poc/common/src/main/cpp/openssl/crypto/mem_sec.c:682-685 | the reverse: clearing the handed-out bit and pushing the block keeps them in agreement |
| `HeapSteps.SplitLeavesOnePair` | iso21177poc/common/src/main/cpp/openssl/crypto/mem_sec.c:629-655 | after a split the two halves are the only free buddies in the arena |
| `HeapSteps.MergeFacts` | iso21177poc/common/src/main/cpp/openssl/crypto/mem_sec.c:688-709 | after joining two free buddies the only free block that may have a free buddy is their parent |
| `HeapSteps.FitsUnique` | iso21177poc/common/src/main/cpp/openssl/crypto/mem_sec.c:615-619 | the smallest block size that holds a request belongs to one level only |
| `HeapSteps.FitsSmallest` | iso21177poc/common/src/main/cpp/openssl/crypto/mem_sec.c:615-619 | a level fits a request exactly when its blocks are the smallest of all that can hold it; these are the blocks of minsize bytes or blocks less than twice as large as the request |
| `HeapSteps.FitsExactly` | iso21177poc/common/src/main/cpp/openssl/crypto/mem_sec.c:612-619 | some level fits exactly when the request is no larger than the arena |
| `HeapSteps.NoRoomExactly` | iso21177poc/common/src/main/cpp/openssl/crypto/mem_sec.c:621-626 | no block of any size that could hold the request lies outside the live ones if and only if none of the rounded size does, so rounding never refuses what could be served |
| `HeapSteps.NothingLargeEnough` | iso21177poc/common/src/main/cpp/openssl/crypto/mem_sec.c:622-626 | when all lists from the rounded level up are empty, no aligned region of the rounded size lies outside the live blocks |
| `HeapSteps.AllFreedIsInitial` | iso21177poc/common/src/main/cpp/openssl/crypto/mem_sec.c:687-709 | when everything has been freed, in whatever order, bits, list heads and every byte of the arena are as sh_init left them |
| `Accounting.TotalSizeZero` | iso21177poc/common/src/main/cpp/openssl/crypto/mem_sec.c:118-127 | the total of the live block sizes is zero exactly when nothing is live |
| `Accounting.TilingTotal` | iso21177poc/common/src/main/cpp/openssl/crypto/mem_sec.c:629-709 | conservation: the sizes of the blocks of a tiling add up to the arena, however it has been split and joined |
| `Accounting.FullExactly` | iso21177poc/common/src/main/cpp/openssl/crypto/mem_sec.c:118-193 | live and free bytes together are the arena, and the live ones fill it exactly when no block is free |
| `SecureHeap.Heap.TestBit` | iso21177poc/common/src/main/cpp/openssl/crypto/mem_sec.c:333-342 | reads the bit of the block at a pointer and level; its assertions cannot fire for a block of the arena |
| `SecureHeap.Heap.ClearBit` | iso21177poc/common/src/main/cpp/openssl/crypto/mem_sec.c:344-354 | clears that bit and no other |
| `SecureHeap.Heap.SetBit` | iso21177poc/common/src/main/cpp/openssl/crypto/mem_sec.c:356-366 | sets that bit and no other |
| `SecureHeap.Heap.AddToList` | iso21177poc/common/src/main/cpp/openssl/crypto/mem_sec.c:368-386 | the list head and the two link fields written, byte by byte, and nothing else |
| `SecureHeap.Heap.RemoveFromList` | iso21177poc/common/src/main/cpp/openssl/crypto/mem_sec.c:388-401 | the two fields around the element rewritten, byte by byte, and nothing else |
| `SecureHeap.Heap.GetList` | iso21177poc/common/src/main/cpp/openssl/crypto/mem_sec.c:318-330 | recovers the level of any block of the arena from its address alone |
| `SecureHeap.Heap.FindMyBuddy` | iso21177poc/common/src/main/cpp/openssl/crypto/mem_sec.c:592-604 | yields the other half of the parent exactly when it is a free block of the same level, and NULL otherwise |
| `SecureHeap.Heap.SplitHead` | iso21177poc/common/src/main/cpp/openssl/crypto/mem_sec.c:630-654 | one round of splitting keeps the arena tiled, leaves live blocks untouched and only the new pair as free buddies; none of its assertions fires |
| `SecureHeap.Heap.SplitDown` | iso21177poc/common/src/main/cpp/openssl/crypto/mem_sec.c:628-655 | the splitting loop ends with a free block of the wanted level, with live contents untouched |
| `SecureHeap.Heap.PeelOff` | iso21177poc/common/src/main/cpp/openssl/crypto/mem_sec.c:657-668 | hands out the first block of a list with every byte zero |
| `SecureHeap.Heap.FindLevel` | iso21177poc/common/src/main/cpp/openssl/crypto/mem_sec.c:615-619 | finds the level of the smallest blocks that hold the request |
| `SecureHeap.Heap.ShMalloc` | iso21177poc/common/src/main/cpp/openssl/crypto/mem_sec.c:606-669 | returns NULL exactly when no block that could hold the request lies outside the live ones (in particular for requests beyond the arena); otherwise a new zeroed block of minsize bytes or less than twice the request, disjoint from all live ones, whose contents stay as they were; no assertion fires |
| `SecureHeap.Heap.MergeWithBuddy` | iso21177poc/common/src/main/cpp/openssl/crypto/mem_sec.c:688-709 | one round of coalescing replaces a free block and its free buddy by their parent and keeps the invariant |
| `SecureHeap.Heap.Coalesce` | iso21177poc/common/src/main/cpp/openssl/crypto/mem_sec.c:687-709 | the coalescing loop terminates with no free buddies left and live contents untouched |
| `SecureHeap.Heap.ShFree` | iso21177poc/common/src/main/cpp/openssl/crypto/mem_sec.c:671-710 | exactly the block freed stops being live, the invariant without free buddies holds again and all other live contents stay; no assertion fires |
| `SecureHeap.Heap.ShActualSize` | iso21177poc/common/src/main/cpp/openssl/crypto/mem_sec.c:712-722 | the size of the block at a pointer |
| `SecureHeap.Heap.SecureMalloc` | iso21177poc/common/src/main/cpp/openssl/crypto/mem_sec.c:141-160 | as sh_malloc, and secure_mem_used stays the total size of the live blocks; a request of at most minsize bytes is refused exactly when secure_mem_used is the size of the arena |
| `SecureHeap.Heap.SecureFree` | iso21177poc/common/src/main/cpp/openssl/crypto/mem_sec.c:172-193 | clears the whole block before freeing it, so free blocks stay zero outside their headers, and keeps secure_mem_used exact |
| `SecureHeap.Heap.SecureMallocDone` | iso21177poc/common/src/main/cpp/openssl/crypto/mem_sec.c:118-130 | succeeds exactly when nothing is live |
| `SecureHeap.RoundUpHeader` | iso21177poc/common/src/main/cpp/openssl/crypto/mem_sec.c:430-437 | the bit smearing yields the size of a list header, already a power of two |
| `SecureHeap.CountBits` | iso21177poc/common/src/main/cpp/openssl/crypto/mem_sec.c:453-455 | the counting loop yields the number of levels |
| `SecureHeap.TableSize` | iso21177poc/common/src/main/cpp/openssl/crypto/mem_sec.c:445-451 | an arena is refused exactly when it has fewer than four minimal blocks; otherwise its geometry is sound |
| `SecureHeap.Heap.ShInit` | iso21177poc/common/src/main/cpp/openssl/crypto/mem_sec.c:404-570 | returns 0 exactly when the arena has fewer than four minimal blocks or cannot be mapped; otherwise the heap starts with one free block and nothing live, and the result is 1 if the guard pages and the locking could be set up and 2 if not |
| `HeapRuns.RepresentsWrite` | iso21177poc/common/src/main/cpp/openssl/crypto/mem_sec.c:606-710 | an owner writing into its block changes no other block |
| `HeapRuns.Serve` | iso21177poc/common/src/main/cpp/openssl/crypto/mem_sec.c:141-193 | each allocation, free of a live pointer or write by an owner is answered as a collection of independent zero-initialised buffers would answer it |
| `HeapRuns.Run` | iso21177poc/common/src/main/cpp/openssl/crypto/mem_sec.c:404-722 | in every run from sh_init the answers are right and every live block holds exactly what was written to it, zero elsewhere; the arena stays tiled, linked and free of free buddies |
| `HeapRuns.FillUp` | iso21177poc/common/src/main/cpp/openssl/crypto/mem_sec.c:141-160 | asked again and again for at most minsize bytes, an empty heap hands out its whole arena in pieces of minsize bytes, arena_size / minsize of them, none overlapping another, before it refuses |
| `HeapRuns.FourRequests` | iso21177poc/common/src/main/cpp/openssl/crypto/mem_sec.c:404-722 | an instance: an arena of 64 bytes with minsize 16 serves four requests of 16 bytes and refuses the fifth, until one of the four is freed |
| `HeapRuns.TwoBuffers` | iso21177poc/common/src/main/cpp/openssl/crypto/mem_sec.c:141-193 | an instance of what the owners see: a buffer starts all zero, keeps what is written into it, and the other goes away alone when freed |
| `CbcDigest.MasksAreCases` | iso21177poc/common/src/main/cpp/openssl/ssl/s3_cbc.c:431-473 | the constant-time mask arithmetic of the loop body is a plain case distinction on block a, block b and the position of the 0x80 byte |
| `CbcDigest.PlanFacts` | iso21177poc/common/src/main/cpp/openssl/ssl/s3_cbc.c:292-352 | the blocks hashed up front end before the plaintext does, and both the 0x80 block and the length block lie in the window, at most one apart, for every digest supported |
| `CbcDigest.PadShape` | iso21177poc/common/src/main/cpp/openssl/ssl/s3_cbc.c:330-340 | the padded message of the inner hash, byte by byte, in terms of those indices |
| `CbcDigest.WindowIsPadding` | iso21177poc/common/src/main/cpp/openssl/ssl/s3_cbc.c:434-473 | a byte built in the window is the byte of the padded message at that position |
| `CbcDigest.HashThroughTail` | iso21177poc/common/src/main/cpp/openssl/ssl/s3_cbc.c:370-419 | hashing key block and message is absorbing the key block and then the padded rest |
| `CbcDigest.BuildBlock` | iso21177poc/common/src/main/cpp/openssl/ssl/s3_cbc.c:434-473 | a whole window block as the inner loop builds it |
| `CbcDigest.AbsorbStart` | iso21177poc/common/src/main/cpp/openssl/ssl/s3_cbc.c:411-419 | hashing header and data up front, the first block across their border, equals absorbing them in sequence |
| `Hmac.LengthFieldSays` | iso21177poc/common/src/main/cpp/openssl/ssl/s3_cbc.c:373-386 | the length field is the number of bits on md_length_size bytes, most significant byte first or last as the digest has it, if it fits |
| `Hmac.PadMinimal` | iso21177poc/common/src/main/cpp/openssl/ssl/s3_cbc.c:324-340 | a message is padded by 0x80, zeros and the length field to whole blocks, with fewer zeros than a block has bytes |
| `CbcDigest.HashWindow` | iso21177poc/common/src/main/cpp/openssl/ssl/s3_cbc.c:421-480 | the window loop ors exactly one digest into mac_out: the one after the block with the length |
| `CbcDigest.InnerHash` | iso21177poc/common/src/main/cpp/openssl/ssl/s3_cbc.c:292-480 | the inner computation is the plain hash of the padded key and header and data up to the secret length, for every secret length within the padding bounds |
| `CbcDigest.XorTwice` | iso21177poc/common/src/main/cpp/openssl/ssl/s3_cbc.c:496-499 | masking with 0x36 and then 0x6a is masking with 0x5c |
| `CbcDigest.DigestRecord` | iso21177poc/common/src/main/cpp/openssl/ssl/s3_cbc.c:158-513 | the output is HMAC as in section 2 of RFC 2104 over header and data[..data_size], for secrets up to a block; longer ones are cut, and then it is that of the cut secret. The call fails exactly for records of a mebibyte or more, secrets of more than 128 bytes, or when a call into the digest code other than the last fails; a failure of the last one leaves no output but is reported as success |
| `LongSecrets.LongSecretDiffers` | iso21177poc/common/src/main/cpp/openssl/ssl/s3_cbc.c:364-366 | for every secret longer than a block of 64 bytes and every message there is a hash function for which the output is not the HMAC |
| `LongSecrets.HmacExactly` | iso21177poc/common/src/main/cpp/openssl/ssl/s3_cbc.c:364-366 | the output is the HMAC for every hash function and message if and only if the secret is no longer than a block |
| `KnownMacs.SixDigests` | iso21177poc/common/src/main/cpp/openssl/ssl/s3_cbc.c:202-253 | the sizes and byte orders of MD5, SHA-1 and the four members of SHA-2 are admitted |
| `KnownMacs.AbsorbsInOrder` | iso21177poc/common/src/main/cpp/openssl/ssl/s3_cbc.c:402-419 | with a hash function that records its input: what is absorbed are the blocks in their order, each once |
| `KnownMacs.FirstBytes` | iso21177poc/common/src/main/cpp/openssl/ssl/s3_cbc.c:474-480 | of a final state longer than the digest, as those of SHA-224 and SHA-384 are, the first md_size bytes are taken |
| `KnownMacs.AbcPadded` | iso21177poc/common/src/main/cpp/openssl/ssl/s3_cbc.c:373-386 | known answers: the padded message abc in both byte orders |
| `KnownMacs.MacOfAbc` | iso21177poc/common/src/main/cpp/openssl/ssl/s3_cbc.c:361-371 | a known answer: the HMAC of abc under the secret 01 02, with a hash function that adds up its blocks |
| `KnownMacs.MacOfEmptyRecord` | iso21177poc/common/src/main/cpp/openssl/ssl/s3_cbc.c:158-513 | a known answer for a whole record without data, whatever its MAC and padding: 616 bits go into the inner hash |
| `SparseArray.Array.Get` | iso21177poc/common/src/main/cpp/openssl/crypto/sparse_array.c:156-172 | returns the entry the finite map has at a 64-bit index, NULL if it has none |
| `SparseArray.Array.Num` | iso21177poc/common/src/main/cpp/openssl/crypto/sparse_array.c:151-154 | the number of entries of the map |
| `SparseArray.Array.Grow` | iso21177poc/common/src/main/cpp/openssl/crypto/sparse_array.c:192-198 | growing at the root keeps every entry and adds one node for each missing level; it fails exactly when memory does not suffice for these |
| `SparseArray.Array.WalkDown` | iso21177poc/common/src/main/cpp/openssl/crypto/sparse_array.c:202-208 | the walk reaches the node for the index, adding empty nodes that change no entry; it fails exactly when memory does not suffice for the nodes missing on the path |
| `SparseArray.Array.StoreValue` | iso21177poc/common/src/main/cpp/openssl/crypto/sparse_array.c:209-214 | stores or deletes one entry and keeps nelem the number of entries |
| `SparseArray.Array.Set` | iso21177poc/common/src/main/cpp/openssl/crypto/sparse_array.c:179-216 | updates the map at one index (NULL deletes), or fails and changes no entry; it fails exactly when memory does not suffice for the levels to grow by and the nodes missing on the path of the index, which are never more than 32, and a call that succeeds adds exactly these nodes |
| `SparseArrayWalk.WalkPush` | iso21177poc/common/src/main/cpp/openssl/crypto/sparse_array.c:86-91 | going down to a child keeps what has been visited exact |
| `SparseArrayWalk.WalkPop` | iso21177poc/common/src/main/cpp/openssl/crypto/sparse_array.c:79-83 | going up again accounts for exactly the node left, its children before it |
| `SparseArrayWalk.WalkNext` | iso21177poc/common/src/main/cpp/openssl/crypto/sparse_array.c:84-93 | moving on to the next slot accounts for exactly the entry reported |
| `SparseArrayWalk.DoAll` | iso21177poc/common/src/main/cpp/openssl/crypto/sparse_array.c:65-98 | terminates; leaf is called exactly once per entry, with its index, in increasing order; node exactly once per node, after the nodes its slots point to, so the root last; the fixed-depth stacks are never overrun |
| `KnownArrays.FiveNodes` | iso21177poc/common/src/main/cpp/openssl/crypto/sparse_array.c:179-208 | a known answer: in an empty array the index 0x123 takes five nodes and 5 takes one |
| `KnownArrays.FourOrFive` | iso21177poc/common/src/main/cpp/openssl/crypto/sparse_array.c:179-216 | an instance: storing under 0x123 in an empty array succeeds exactly with memory for five nodes, and then there are five |
| `KnownArrays.FiveFreed` | iso21177poc/common/src/main/cpp/openssl/crypto/sparse_array.c:65-122 | an instance: these five are freed, each once and the root last, and the entry is reported |
| `KnownArrays.FewEntries` | iso21177poc/common/src/main/cpp/openssl/crypto/sparse_array.c:151-216 | an instance: entries at 7 and 2^64 - 1 are counted, replaced, removed and not found under 0x17 |
| `JulianDay.JulianOfNextDay` | iso21177poc/common/src/main/cpp/openssl/crypto/o_time.c:179-184 | date_to_julian advances by exactly one per calendar day of the Gregorian calendar |
| `JulianDay.JulianInOrder` | iso21177poc/common/src/main/cpp/openssl/crypto/o_time.c:179-184 | earlier dates have smaller numbers, and different dates different numbers |
| `JulianDay.JulianOfDate` | iso21177poc/common/src/main/cpp/openssl/crypto/o_time.c:186-200 | julian_to_date yields a valid date whose number is the one given, for every day from 0 |
| `JulianDay.DateOfJulian` | iso21177poc/common/src/main/cpp/openssl/crypto/o_time.c:179-200 | julian_to_date undoes date_to_julian for every valid date with a number |
| `JulianDay.DateToJulianFits` | iso21177poc/common/src/main/cpp/openssl/crypto/o_time.c:179-184 | for every date of the calendar up to the year 1465071 no intermediate result leaves int |
| `KnownTimes.Months` | iso21177poc/common/src/main/cpp/openssl/crypto/o_time.c:179-200 | known answers: the lengths of the months, and the long Februaries of 2000 and 2016 but not of 1900 and 2100 |
| `KnownTimes.Days` | iso21177poc/common/src/main/cpp/openssl/crypto/o_time.c:179-184 | known answers: 1970-01-01 is day 2440588, 2000-02-29 is day 2451604 |
| `GmTime.AtInstant` | iso21177poc/common/src/main/cpp/openssl/crypto/o_time.c:83-96 | broken down into date, hours, minutes and seconds, an instant is recovered exactly |
| `GmTime.InstantAt` | iso21177poc/common/src/main/cpp/openssl/crypto/o_time.c:83-96 | and a time without a leap second is recovered from its instant |
| `GmTime.JulianAdj` | iso21177poc/common/src/main/cpp/openssl/crypto/o_time.c:133-174 | for any fields whose arithmetic does not overflow: days and seconds that together are the shifted time, one day at most having been carried; it fails exactly when the days are negative |
| `GmTime.OneDay` | iso21177poc/common/src/main/cpp/openssl/crypto/o_time.c:146-153 | the seconds are those of the day if and only if one day is enough to carry, which it is whenever the clock fields make up at most a day |
| `GmTime.JulianToDateStored` | iso21177poc/common/src/main/cpp/openssl/crypto/o_time.c:186-200 | the conversion step by step; the year is cut to an int |
| `GmTime.GmtimeAdj` | iso21177poc/common/src/main/cpp/openssl/crypto/o_time.c:72-100 | succeeds exactly when the stored year comes out from 1900 to 9999, and then stores the target, which depends on the shifted time only if the clock fields made up at most a day; a failure changes nothing |
| `GmTime.AnyClockExactly` | iso21177poc/common/src/main/cpp/openssl/crypto/o_time.c:72-100 | whatever the clock fields, a shift that succeeds is exact if and only if the day it comes to lies from 1900 to 9999 |
| `GmTime.NormalExactly` | iso21177poc/common/src/main/cpp/openssl/crypto/o_time.c:146-153 | the clock fields stored are in their ranges if and only if one day was enough to carry |
| `GmTime.HoursLeft` | iso21177poc/common/src/main/cpp/openssl/crypto/o_time.c:146-153 | an instance: 48 hours on 2000-01-01 come out as 24 hours on the next day |
| `GmTime.GmtimeDiff` | iso21177poc/common/src/main/cpp/openssl/crypto/o_time.c:102-130 | the seconds between two times as days and a remainder; of the same sign and the remainder below a day if the clock fields of each make up at most a day, and then it fails exactly when one of them lies before day 0; the conversion of the days to int loses nothing |
| `GmTime.SpanIsUnique` | iso21177poc/common/src/main/cpp/openssl/crypto/o_time.c:113-121 | there is only one such split |
| `GmTime.AdjMoves` | iso21177poc/common/src/main/cpp/openssl/crypto/o_time.c:72-130 | a shift whose target lies from 1900 to 9999 succeeds, moves the time by exactly that many seconds, and the difference reports the same span |
| `GmTime.AdjComposes` | iso21177poc/common/src/main/cpp/openssl/crypto/o_time.c:72-100 | successive shifts compose by addition |
| `GmTime.AdjUndone` | iso21177poc/common/src/main/cpp/openssl/crypto/o_time.c:72-100 | shifting back restores a time if and only if it is not a leap second and its year lies from 1900 to 9999 |
| `GmTime.LeapSecondLost` | iso21177poc/common/src/main/cpp/openssl/crypto/o_time.c:72-100 | instances: shifted by any span and back, the leap second at the end of 2016 has become the midnight after it |
| `GmTime.AdjExactness` | iso21177poc/common/src/main/cpp/openssl/crypto/o_time.c:72-100 | a shift that succeeds is exact if and only if its target lies from 1900 to 9999: the year is stored in an int, so larger targets can succeed with a wrong year |
| `GmTime.AdjIsExact` | iso21177poc/common/src/main/cpp/openssl/crypto/o_time.c:72-100 | with offsets up to 10^17 seconds that cannot happen: success is then equivalent to the target lying in range |
| `GmTime.WrappedShift` | iso21177poc/common/src/main/cpp/openssl/crypto/o_time.c:72-100 | an instance: shifting 2000-01-01 by 2^32 years succeeds and changes nothing |
| `KnownTimes.NewYear` | iso21177poc/common/src/main/cpp/openssl/crypto/o_time.c:72-100 | an instance in the fields of struct tm: a second after 116-11-31 23:59:59 comes 117-0-1 00:00:00 |
| `KnownTimes.SinceEpoch` | iso21177poc/common/src/main/cpp/openssl/crypto/o_time.c:102-130 | an instance: from the start of 1970 to noon of 2000-02-29 it is 11016 days and 43200 seconds |
| `KnownTimes.OneSecondBack` | iso21177poc/common/src/main/cpp/openssl/crypto/o_time.c:102-130 | an instance: over a new year and back by a second the difference is 0 days and -1 second |
| `BigEndian.ValueOfBytes` | iso21177poc/common/src/main/cpp/openssl/crypto/packet.c:210-226 | a value fits in n bytes exactly when writing it and reading it back gives the same value |
| `PacketFrames.LaidAdd` | iso21177poc/common/src/main/cpp/openssl/crypto/packet.c:16-24 | writing next to what has been written, at either end of the buffer, keeps the contents of all open sub-packets |
| `PacketFrames.SoundHeader` | iso21177poc/common/src/main/cpp/openssl/crypto/packet.c:261-267 | filling in a length in front of a sub-packet leaves every other byte of every open sub-packet |
| `PacketFrames.SoundPopLength` | iso21177poc/common/src/main/cpp/openssl/crypto/packet.c:286-289 | closing joins the length and the contents to the sub-packet around it |
| `PacketFrames.SoundAbandon` | iso21177poc/common/src/main/cpp/openssl/crypto/packet.c:243-258 | abandoning an empty sub-packet takes back exactly the bytes kept for its length |
| `PacketFrames.OutermostFits` | iso21177poc/common/src/main/cpp/openssl/crypto/packet.c:92-98 | the length of the outermost sub-packet always fits the bytes kept for it |
| `Wpacket.PutValue` | iso21177poc/common/src/main/cpp/openssl/crypto/packet.c:210-226 | the bytes of the value, most significant first, in exactly the place given; fails exactly when it does not fit, but never for a NULL buffer |
| `Wpacket.Wpacket.InitStaticLen` | iso21177poc/common/src/main/cpp/openssl/crypto/packet.c:128-143 | a forward writer into a fixed buffer, with room for the outermost length |
| `Wpacket.Wpacket.InitDer` | iso21177poc/common/src/main/cpp/openssl/crypto/packet.c:145-157 | a backward writer |
| `Wpacket.Wpacket.InitLen` | iso21177poc/common/src/main/cpp/openssl/crypto/packet.c:159-176 | a forward writer into a growing buffer; the outermost sub-packet is there exactly when the bytes for its length fit in |
| `Wpacket.Wpacket.InitNull` | iso21177poc/common/src/main/cpp/openssl/crypto/packet.c:178-186 | a forward writer to nowhere |
| `Wpacket.Wpacket.InitNullDer` | iso21177poc/common/src/main/cpp/openssl/crypto/packet.c:188-196 | a backward writer to nowhere |
| `Wpacket.Wpacket.ReserveBytes` | iso21177poc/common/src/main/cpp/openssl/crypto/packet.c:43-75 | succeeds exactly when there is room; growth keeps what was written; the pointer is the next free place at the right end |
| `Wpacket.Wpacket.AllocateBytes` | iso21177poc/common/src/main/cpp/openssl/crypto/packet.c:16-24 | as reserved, and the bytes count as written |
| `Wpacket.Wpacket.PutBytes` | iso21177poc/common/src/main/cpp/openssl/crypto/packet.c:382-393 | adds the value to the innermost sub-packet, or fails for lack of room or because it does not fit |
| `Wpacket.Wpacket.Memcpy` | iso21177poc/common/src/main/cpp/openssl/crypto/packet.c:436-450 | adds a copy to the innermost sub-packet |
| `Wpacket.Wpacket.Memset` | iso21177poc/common/src/main/cpp/openssl/crypto/packet.c:420-434 | adds a run of one byte |
| `Wpacket.Wpacket.StartSubPacketLen` | iso21177poc/common/src/main/cpp/openssl/crypto/packet.c:341-375 | opens a sub-packet with room for its length; says exactly when: there is one open, a backward writer keeps no room, the record can be allocated, and there is room |
| `Wpacket.Wpacket.SetFlags` | iso21177poc/common/src/main/cpp/openssl/crypto/packet.c:198-207 | sets the flags of the innermost sub-packet only |
| `Wpacket.Wpacket.GetLength` | iso21177poc/common/src/main/cpp/openssl/crypto/packet.c:474-483 | the length of the innermost sub-packet without the bytes for its length |
| `Wpacket.Wpacket.PutDerLength` | iso21177poc/common/src/main/cpp/openssl/crypto/packet.c:272-284 | the definite length in the fewest octets (section 8.1.3 of X.690) in front of the contents |
| `Wpacket.Wpacket.InternClose` | iso21177poc/common/src/main/cpp/openssl/crypto/packet.c:235-292 | when a sub-packet can be closed, and what closing leaves, for both directions and both flags |
| `Wpacket.Wpacket.Close` | iso21177poc/common/src/main/cpp/openssl/crypto/packet.c:309-319 | closing any but the outermost sub-packet |
| `Wpacket.Wpacket.Finish` | iso21177poc/common/src/main/cpp/openssl/crypto/packet.c:321-339 | closing the outermost one never fails for its length; the whole output is where it should be |
| `Wpacket.Wpacket.SubMemcpy` | iso21177poc/common/src/main/cpp/openssl/crypto/packet.c:452-461 | a whole sub-packet: its length and a copy, exactly when the length fits its bytes, there is room, and memory suffices for a buffer that grows; nothing past maxsize and nothing unwritten is touched |
| `PacketRuns.FramedClose` | iso21177poc/common/src/main/cpp/openssl/crypto/packet.c:235-292 | closing turns the items of a sub-packet into one nested item |
| `PacketRuns.Perform` | iso21177poc/common/src/main/cpp/openssl/crypto/packet.c:198-461 | one call changes the writer as it changes the tree traced out, and if it succeeds the value written or the length filled in fits its bytes; closing drops an empty sub-packet that is to be abandoned and refuses one that must not be empty |
| `PacketRuns.Write` | iso21177poc/common/src/main/cpp/openssl/crypto/packet.c:16-461 | for any sequence of open, flag, put, copy and close calls and a finish that all succeed, the output is the nested encoding of the tree they trace out, each length in front of its contents, without the empty sub-packets to be abandoned; no sub-packet that must not be empty has been closed empty; unless there is no buffer every length and every value fits its bytes; nothing past maxsize is touched, nor anything unwritten unless something is to be abandoned |
| `PacketRuns.WriteItem` | iso21177poc/common/src/main/cpp/openssl/crypto/packet.c:16-461 | writing a tree into a fixed or growing buffer, or none, succeeds exactly when every length fits its bytes, the whole encoding fits the packet, and memory suffices for the lengths the buffer grows to |
| `PacketRuns.EnoughMemory` | iso21177poc/common/src/main/cpp/openssl/crypto/packet.c:52-66 | memory for twice the packet, or 256 bytes, always suffices |
| `PacketRuns.LengthReadBack` | iso21177poc/common/src/main/cpp/openssl/crypto/packet.c:235-292 | read back, the length in front of a sub-packet tells exactly where its contents end, whatever follows |
| `PacketRuns.DryRunAgrees` | iso21177poc/common/src/main/cpp/openssl/crypto/packet.c:210-213 | writing a tree into a fixed buffer succeeds exactly when the dry run does with the same room and every length fits the bytes kept for it |
| `PacketRuns.DryRunMisses` | iso21177poc/common/src/main/cpp/openssl/crypto/packet.c:210-213 | an instance where they differ: 256 bytes under a length of one byte |
| `PacketRuns.PutTooMuch` | iso21177poc/common/src/main/cpp/openssl/crypto/packet.c:210-226 | an instance for a value: 256 in one byte fails with a buffer and is accepted without one |
| `KnownPackets.EmptySubPacket` | iso21177poc/common/src/main/cpp/openssl/crypto/packet.c:234-283 | an empty sub-packet with one length byte, for every value of the flags: closing fails exactly if the flag of value 1 is set; otherwise nothing is left of it if the flag of value 2 is set, and a zero length if not |
| `KnownPackets.EmptyPacket` | iso21177poc/common/src/main/cpp/openssl/crypto/packet.c:234-283 | the same for the outermost sub-packet, which WPACKET_finish closes |
| `KnownPackets.TreeBytes` | iso21177poc/common/src/main/cpp/openssl/crypto/packet.c:210-283 | known answers: the bytes of a small nested packet, forwards and backwards |
| `KnownPackets.SmallTrace` | iso21177poc/common/src/main/cpp/openssl/crypto/packet.c:286-393 | a known answer: the tree that four calls trace out |
| `KnownPackets.SmallForward` | iso21177poc/common/src/main/cpp/openssl/crypto/packet.c:128-450 | an instance: these calls leave 07 01 02 00 03 07 08 09 at the start of a buffer and the rest as it was |
| `KnownPackets.SmallBackward` | iso21177poc/common/src/main/cpp/openssl/crypto/packet.c:145-450 | an instance: on a backward writer they leave 03 07 08 09 01 02 at the end of the buffer and the rest as it was |
| `KnownPackets.OneByteLength` | iso21177poc/common/src/main/cpp/openssl/crypto/packet.c:92-143 | an instance: under a length of one byte go 255 bytes and not one more |
| `KnownPackets.Growth` | iso21177poc/common/src/main/cpp/openssl/crypto/packet.c:52-66 | an instance: an empty buffer becomes 256, 512 and 2000 bytes long as 1, 256 and 1000 bytes are written, and one that cannot grow to 4000 refuses |
| `DerWriter.IntegerBytesRight` | iso21177poc/common/src/main/cpp/openssl/crypto/der_writer.c:93-125 | the contents of an INTEGER denote the number, have a clear sign bit, and are the shortest such (section 8.3.2 of X.690) |
| `DerWriter.StartContext` | iso21177poc/common/src/main/cpp/openssl/crypto/der_writer.c:16-23 | opens a context for tags up to 30, refuses larger ones, none for negative ones |
| `DerWriter.EndContext` | iso21177poc/common/src/main/cpp/openssl/crypto/der_writer.c:25-49 | writes length and identifier of the context unless it is abandoned |
| `DerWriter.WriteNull` | iso21177poc/common/src/main/cpp/openssl/crypto/der_writer.c:161-168 | succeeds exactly when the tag is allowed and the encoding fits, and then puts the X.690 encoding of NULL, tagged or not, before everything written so far |
| `DerWriter.WriteOctetString` | iso21177poc/common/src/main/cpp/openssl/crypto/der_writer.c:70-79 | the same for OCTET STRING |
| `DerWriter.WriteOctetStringUint32` | iso21177poc/common/src/main/cpp/openssl/crypto/der_writer.c:81-91 | the same for the four bytes of a number |
| `DerWriter.Measure` | iso21177poc/common/src/main/cpp/openssl/crypto/der_writer.c:116-122 | the loop finds the number of bytes of a number and its top byte |
| `DerWriter.WriteUint32` | iso21177poc/common/src/main/cpp/openssl/crypto/der_writer.c:93-131 | the same for INTEGER |
| `DerWriter.BeginSequence` | iso21177poc/common/src/main/cpp/openssl/crypto/der_writer.c:171-175 | opens a SEQUENCE, in its context if there is one |
| `DerWriter.EndSequence` | iso21177poc/common/src/main/cpp/openssl/crypto/der_writer.c:177-199 | closes it into its encoding; an abandoned one vanishes with its context, but without a context the flag moves on to the sub-packet around it |
| `DerRuns.WriteDer` | iso21177poc/common/src/main/cpp/openssl/crypto/der_writer.c:51-199 | for any nesting of sequences over integers, octet strings and nulls, with any tags, writing succeeds exactly when the tags are allowed and the encoding fits, and yields the X.690 encoding of the tree |
| `DerRuns.Produce` | iso21177poc/common/src/main/cpp/openssl/crypto/der_writer.c:51-199 | from an empty writer to finished output: the encoding fills the last bytes of the buffer and nothing else is touched |
| `KnownDer.Lengths` | iso21177poc/common/src/main/cpp/openssl/crypto/packet.c:268-283 | known answers: DER lengths below 128, 256 and 65536 |
| `KnownDer.Integers` | iso21177poc/common/src/main/cpp/openssl/crypto/der_writer.c:86-127 | known answers: the contents of small INTEGERs, with a zero byte in front where the top bit is set |
| `KnownDer.Identifiers` | iso21177poc/common/src/main/cpp/openssl/include/internal/der.h:25-60 | known answers: the identifiers 05, 02, 04 and 30, and A0 to BE for explicit tags |
| `KnownDer.Nested` | iso21177poc/common/src/main/cpp/openssl/crypto/der_writer.c:51-199 | an instance: a sequence of an INTEGER and a tagged NULL at the end of a buffer, byte by byte |
| `KnownDer.EmptyInside` | iso21177poc/common/src/main/cpp/openssl/crypto/der_writer.c:162-199 | an instance: an empty sequence to be abandoned, inside another one, leaves nothing, and takes the other one with it if it has no tag around it |
| `DerSignature.PaddedInteger` | iso21177poc/common/src/main/cpp/openssl/crypto/asn1_dsa.c:74-83 | the content length computed from the bit length is that of the shortest INTEGER contents, and padding the number to it gives those contents |
| `DerSignature.EncodeDerLength` | iso21177poc/common/src/main/cpp/openssl/crypto/asn1_dsa.c:39-56 | the three forms of a length below 2^16, as in X.690; longer ones are refused |
| `DerSignature.EncodeDerInteger` | iso21177poc/common/src/main/cpp/openssl/crypto/asn1_dsa.c:66-97 | the X.690 encoding of a non-negative INTEGER, or a failure for negative and too long ones; contents written after closing land in the right place |
| `DerSignature.ContentLength` | iso21177poc/common/src/main/cpp/openssl/crypto/asn1_dsa.c:115-132 | the dry run with a second writer measures exactly the contents of the signature |
| `DerSignature.EncodeDsaSig` | iso21177poc/common/src/main/cpp/openssl/crypto/asn1_dsa.c:106-147 | succeeds exactly when both numbers are supported and the encoding fits; it writes the DER signature, and without a buffer counts the same number of bytes |
| `DerDecoder.LengthRoundTrip` | iso21177poc/common/src/main/cpp/openssl/crypto/asn1_dsa.c:155-171 | decoding a length written by either encoder yields the contents and what follows them |
| `DerDecoder.IntegerRoundTrip` | iso21177poc/common/src/main/cpp/openssl/crypto/asn1_dsa.c:187-216 | decoding an encoded INTEGER yields the number, whatever follows |
| `DerDecoder.Uint32RoundTrip` | iso21177poc/common/src/main/cpp/openssl/crypto/asn1_dsa.c:187-216 | ossl_decode_der_integer reads back every number ossl_DER_w_uint32 writes |
| `DerDecoder.SigRoundTrip` | iso21177poc/common/src/main/cpp/openssl/crypto/asn1_dsa.c:233-252 | decoding an encoded signature yields both numbers and exactly what follows it |
| `DerDecoder.IntegerExactly` | iso21177poc/common/src/main/cpp/openssl/crypto/asn1_dsa.c:155-216 | what ossl_decode_der_integer accepts is the DER encoding of the number it returns if and only if its length is written in the fewest octets (section 10.1 of X.690) |
| `DerDecoder.SigExactly` | iso21177poc/common/src/main/cpp/openssl/crypto/asn1_dsa.c:155-252 | what ossl_decode_der_dsa_sig accepts is the DER encoding of the signature it returns if and only if its three lengths are written in the fewest octets |
| `DerDecoder.NotOnlyDer` | iso21177poc/common/src/main/cpp/openssl/crypto/asn1_dsa.c:155-171 | an instance: 02 81 01 05 is accepted as the number 5 |
| `DerDecoder.NotOnlyDerSig` | iso21177poc/common/src/main/cpp/openssl/crypto/asn1_dsa.c:155-171 | instances: every signature with short contents is accepted with a needless length octet, too |
| `DerDecoder.Packet.Get1` | iso21177poc/common/src/main/cpp/openssl/include/internal/packet.h:301-309 | one byte off the front of the cursor, or nothing |
| `DerDecoder.Packet.GetSubPacket` | iso21177poc/common/src/main/cpp/openssl/include/internal/packet.h:121-130 | the next bytes as a cursor of their own |
| `DerDecoder.Packet.GetLengthPrefixed1` | iso21177poc/common/src/main/cpp/openssl/include/internal/packet.h:514-529 | a block with a one-byte length; a failure leaves the cursor where it was |
| `DerDecoder.Packet.GetLengthPrefixed2` | iso21177poc/common/src/main/cpp/openssl/include/internal/packet.h:562-578 | a block with a two-byte length; likewise |
| `DerDecoder.DecodeDerLength` | iso21177poc/common/src/main/cpp/openssl/crypto/asn1_dsa.c:155-171 | the cursor code is the decoder of the specification |
| `DerDecoder.DecodeDerInteger` | iso21177poc/common/src/main/cpp/openssl/crypto/asn1_dsa.c:187-216 | likewise, with the peeking at the first bytes |
| `DerDecoder.DecodeDerDsaSig` | iso21177poc/common/src/main/cpp/openssl/crypto/asn1_dsa.c:233-252 | likewise; the count returned is where the signature ends |
| `DerDecoder.RoundTrip` | iso21177poc/common/src/main/cpp/openssl/crypto/asn1_dsa.c:106-252 | the decoder returns the numbers encoded and exactly the length of the encoding, with any trailing bytes |
| `KnownDer.Signature` | iso21177poc/common/src/main/cpp/openssl/crypto/asn1_dsa.c:106-252 | an instance: the signature with the numbers 1 and 128 is 30 07 02 01 01 02 02 00 80, and is read back |
| `KnownDer.NotDecoded` | iso21177poc/common/src/main/cpp/openssl/crypto/asn1_dsa.c:149-231 | known answers for what the decoders refuse: the indefinite length, lengths of three bytes or cut off, other tags, an INTEGER that is empty, negative or has a needless zero byte |
| `Punycode.BasicPrefix` | iso21177poc/common/src/main/cpp/openssl/crypto/punycode.c:131-148 | the code points below 0x80 of the result are exactly those before the last delimiter, in order |
| `Punycode.AdaptBias` | iso21177poc/common/src/main/cpp/openssl/crypto/punycode.c:45-59 | the bias of section 6.1 of RFC 3492, without overflow |
| `Punycode.CheckedProduct` | iso21177poc/common/src/main/cpp/openssl/crypto/punycode.c:165-175 | the overflow checks by division are exact |
| `Punycode.DecodeInteger` | iso21177poc/common/src/main/cpp/openssl/crypto/punycode.c:150-177 | reads a variable-length integer exactly when the RFC does with i and w below 2^32; k never overflows |
| `Punycode.InsertionStep` | iso21177poc/common/src/main/cpp/openssl/crypto/punycode.c:179-192 | one insertion fits exactly when the values so far, the new code point and the room allow it |
| `Punycode.FindBasicCount` | iso21177poc/common/src/main/cpp/openssl/crypto/punycode.c:131-134 | finds the last delimiter |
| `Punycode.InsertAt` | iso21177poc/common/src/main/cpp/openssl/crypto/punycode.c:188-191 | moving up and storing is insertion at that place |
| `Punycode.PunycodeDecode` | iso21177poc/common/src/main/cpp/openssl/crypto/punycode.c:120-197 | succeeds exactly when the unbounded decoder of section 6.2 of RFC 3492 does with no value above 2^32 - 1 and at most max_out code points, and then with the same output |
| `PunycodeEncoder.ReadDigits` | iso21177poc/common/src/main/cpp/openssl/crypto/punycode.c:150-177 | reading the digits that section 6.3 of RFC 3492 writes for a number adds that number, whatever the case of the letters |
| `PunycodeEncoder.RoundTrip` | iso21177poc/common/src/main/cpp/openssl/crypto/punycode.c:120-197 | decoding what the encoder of section 6.3 of RFC 3492 writes for a string of code points gives the string back, for every string and either case of the digits; no variable exceeds 36 times the product of the length and the largest code point plus one |
| `PunycodeEncoder.EncodeEncodes` | iso21177poc/common/src/main/cpp/openssl/crypto/punycode.c:120-197 | every string has such an encoding |
| `PunycodeEncoder.LabelFits` | iso21177poc/common/src/main/cpp/openssl/crypto/punycode.c:120-197 | for up to 63 Unicode code points the values stay below 2^32 |
| `PunycodeEncoder.DecodeLabel` | iso21177poc/common/src/main/cpp/openssl/crypto/punycode.c:120-197 | so ossl_punycode_decode gives back every label that was encoded |
| `KnownLabels.Kinpachi` | iso21177poc/common/src/main/cpp/openssl/crypto/punycode.c:45-59 | a known answer: example (L) of section 7.1 of RFC 3492, with six insertions |
| `KnownLabels.Munich` | iso21177poc/common/src/main/cpp/openssl/crypto/punycode.c:73-85 | a known answer: mnchen-3ya has U+00FC as its second code point |
| `KnownLabels.LargestCodePoint` | iso21177poc/common/src/main/cpp/openssl/crypto/punycode.c:165-182 | an instance of the overflow checks: ww902716a is the code point 2^32 - 1, and xw902716a, one more, is refused |
| `Doubles.ExactDouble` | iso21177poc/common/src/main/cpp/openssl/crypto/params.c:39-47 | an integer below 2^53 in absolute value, converted to a double, stays the same number, bit by bit as in IEEE 754 |
| `Doubles.SignOfDouble` | iso21177poc/common/src/main/cpp/openssl/crypto/params.c:39-47 | its sign bit is set exactly if it is negative |
| `Doubles.NextUp` | iso21177poc/common/src/main/cpp/openssl/crypto/params.c:428-448 | in the order of their bits the doubles that are not negative start from 0 and go up by 2^-1074, twice 2^52 times, and then by twice as much for every further 2^52 |
| `Doubles.SignAndLimit` | iso21177poc/common/src/main/cpp/openssl/crypto/params.c:428-448 | the top bit negates, and what has the largest exponent is no number |
| `Doubles.SomeDoubles` | iso21177poc/common/src/main/cpp/openssl/crypto/params.c:428-448 | known answers: the bits of 0.5, 1.5, -1 and infinity |
| `TwosComplement.SignedRange` | iso21177poc/common/src/main/cpp/openssl/crypto/params.c:88-95 | two's complement numbers of n bytes fill the range of their type, and the top bit is the sign |
| `TwosComplement.ShortenUnsigned` | iso21177poc/common/src/main/cpp/openssl/crypto/params.c:125-135 | an unsigned number fits a shorter length exactly when the bytes cut off are zero |
| `TwosComplement.ShortenToSigned` | iso21177poc/common/src/main/cpp/openssl/crypto/params.c:125-135 | and a signed one when the top bit left is clear, too |
| `TwosComplement.ShortenSigned` | iso21177poc/common/src/main/cpp/openssl/crypto/params.c:125-135 | a signed number fits exactly when the bytes cut off are sign bytes and the top bit left agrees |
| `Params.CheckSignBytes` | iso21177poc/common/src/main/cpp/openssl/crypto/params.c:97-106 | whether all bytes are the sign byte |
| `Params.CopyInteger` | iso21177poc/common/src/main/cpp/openssl/crypto/params.c:113-158 | both byte orders pad or cut at the most significant end; a failure writes nothing |
| `Params.SignedFromSigned` | iso21177poc/common/src/main/cpp/openssl/crypto/params.c:160-166 | succeeds exactly when the number is in the range of the destination, and then stores the same number; otherwise nothing is written |
| `Params.SignedFromUnsigned` | iso21177poc/common/src/main/cpp/openssl/crypto/params.c:168-173 | likewise |
| `Params.UnsignedFromSigned` | iso21177poc/common/src/main/cpp/openssl/crypto/params.c:175-184 | likewise |
| `Params.UnsignedFromUnsigned` | iso21177poc/common/src/main/cpp/openssl/crypto/params.c:186-191 | likewise |
| `Params.GeneralGetInt` | iso21177poc/common/src/main/cpp/openssl/crypto/params.c:193-202 | reads an integer parameter of any size exactly when its value is in range |
| `Params.GeneralSetInt` | iso21177poc/common/src/main/cpp/openssl/crypto/params.c:204-220 | stores in an integer parameter of any size exactly when the value is in range |
| `Params.GeneralGetUint` | iso21177poc/common/src/main/cpp/openssl/crypto/params.c:222-231 | as the signed one |
| `Params.GeneralSetUint` | iso21177poc/common/src/main/cpp/openssl/crypto/params.c:233-249 | as the signed one |
| `Params.GetInt32` | iso21177poc/common/src/main/cpp/openssl/crypto/params.c:377-448 | the direct 4- and 8-byte cases and the general path meet the same exact specification; of doubles exactly the integral ones in range are read |
| `Params.SetInt32` | iso21177poc/common/src/main/cpp/openssl/crypto/params.c:450-514 | likewise, and a double takes every value; NULL data asks for the size only |
| `Params.GetUint32` | iso21177poc/common/src/main/cpp/openssl/crypto/params.c:522-594 | likewise |
| `Params.SetUint32` | iso21177poc/common/src/main/cpp/openssl/crypto/params.c:596-661 | likewise |
| `Params.GetInt64` | iso21177poc/common/src/main/cpp/openssl/crypto/params.c:669-732 | likewise |
| `Params.SetInt64` | iso21177poc/common/src/main/cpp/openssl/crypto/params.c:734-802 | likewise; a double takes exactly the values below 2^53 in absolute value |
| `Params.GetUint64` | iso21177poc/common/src/main/cpp/openssl/crypto/params.c:809-878 | likewise |
| `Params.SetUint64` | iso21177poc/common/src/main/cpp/openssl/crypto/params.c:880-948 | likewise |
| `Params.NotTaken` | iso21177poc/common/src/main/cpp/openssl/crypto/params.c:788-797 | an instance: a double can be 2^53, which is read as that integer but cannot be set |
| `KnownParams.PairIs` | iso21177poc/common/src/main/cpp/openssl/crypto/params.c:88-106 | two bytes as unsigned and as signed numbers, in both byte orders |
| `KnownParams.Limits` | iso21177poc/common/src/main/cpp/openssl/crypto/params.c:39-47 | the limits of the integer types of 4 and 8 bytes and of what a double takes, in figures |
| `KnownParams.ReadPair` | iso21177poc/common/src/main/cpp/openssl/crypto/params.c:377-594 | an instance: FF FE is read as -2 and as 65534, and -2 not as an unsigned number, in both byte orders |
| `KnownParams.WritePair` | iso21177poc/common/src/main/cpp/openssl/crypto/params.c:450-661 | an instance: -2 is stored as FF FE, not at all in an unsigned number, and 256 not in one byte |
| `Params.SameBytes` | iso21177poc/common/src/main/cpp/openssl/crypto/params.c:465-491 | two ways of storing the same number leave the same bytes, so the direct cases agree with the general path byte for byte |
| `NameMap.AddedName` | iso21177poc/common/src/main/cpp/openssl/crypto/core_namemap.c:244-272 | a name that has a number keeps it; a new one gets the number given or one never used; every number up to the largest still has a name |
| `NameMap.ClashExactly` | iso21177poc/common/src/main/cpp/openssl/crypto/core_namemap.c:244-272 | a new name added under a number can come to share it with a name it has nothing to do with, by names added later without a number, if and only if the number lies above all those given out so far |
| `NameMap.NumbersClash` | iso21177poc/common/src/main/cpp/openssl/crypto/core_namemap.c:244-272 | an instance: with a number nobody was given, two unrelated names end up in one identity |
| `NameMap.AddAllRight` | iso21177poc/common/src/main/cpp/openssl/crypto/core_namemap.c:348-364 | registering a list whose names agree puts them all in one identity, changes no other name and uses at most one new number |
| `NameMap.IdentityFixed` | iso21177poc/common/src/main/cpp/openssl/crypto/core_namemap.c:334-344 | once the list has an identity it stays the same to the end of the check |
| `NameMap.Namemap.Name2Num` | iso21177poc/common/src/main/cpp/openssl/crypto/core_namemap.c:170-180 | whatever number is returned is that of the names equal to the given one up to the case of letters, and it is 0 exactly when there is no such name |
| `NameMap.Namemap.AddNameLocked` | iso21177poc/common/src/main/cpp/openssl/crypto/core_namemap.c:244-272 | adding one name |
| `NameMap.Namemap.AddName` | iso21177poc/common/src/main/cpp/openssl/crypto/core_namemap.c:274-292 | adding one name; the empty name is refused |
| `NameMap.Namemap.CheckNames` | iso21177poc/common/src/main/cpp/openssl/crypto/core_namemap.c:316-346 | the first loop, overwriting separators in place, accepts exactly the lists without empty names whose names have at most one identity together with the number given |
| `NameMap.Namemap.RegisterNames` | iso21177poc/common/src/main/cpp/openssl/crypto/core_namemap.c:348-364 | the second loop registers the names of the list; its internal error cannot happen |
| `NameMap.Namemap.AddNames` | iso21177poc/common/src/main/cpp/openssl/crypto/core_namemap.c:294-370 | whatever the number given, all names of an acceptable list end up in one identity, which is returned; any other list changes nothing |
| `NameMap.Namemap.NamesOf` | iso21177poc/common/src/main/cpp/openssl/crypto/core_namemap.c:129-167 | all names of a number, each once |
| `NameMap.Namemap.Num2Name` | iso21177poc/common/src/main/cpp/openssl/crypto/core_namemap.c:216-241 | one of the names of a number, if it has that many; the first exists exactly for the numbers given out |
| `KnownNames.LowerTable` | iso21177poc/common/src/main/cpp/openssl/crypto/core_namemap.c:170-180 | the 26 capital letters are equal to the small ones, and no others are |
| `KnownNames.Sha256Same` | iso21177poc/common/src/main/cpp/openssl/crypto/core_namemap.c:170-180 | instances of equal and different names |
| `KnownNames.SplitListed` | iso21177poc/common/src/main/cpp/openssl/crypto/core_namemap.c:316-364 | a list falls into the names it was put together from |
| `KnownNames.LastSeparator` | iso21177poc/common/src/main/cpp/openssl/crypto/core_namemap.c:316-364 | a separator at its end adds no name |
| `KnownNames.Aliases` | iso21177poc/common/src/main/cpp/openssl/crypto/core_namemap.c:170-370 | for all names: two names of a list get the number 1, a list that names one of them in another case adds its other name to them, a name of its own gets the number 2, and a list with names of both is refused |
| `NameMap.Run` | iso21177poc/common/src/main/cpp/openssl/crypto/core_namemap.c:244-370 | in every run each list accepted keeps its identity for good and every number has a name |
| `HttpHeaders.ScanSplit` | iso21177poc/common/src/main/cpp/http-headers.h:19-37 | reading a stream in two parts is reading it in one |
| `HttpHeaders.HeaderExactly` | iso21177poc/common/src/main/cpp/http-headers.h:19-37 | what is found in a stream are certain lines and a payload if and only if it begins with these lines, none empty, each ended by a newline, and one more newline, with carriage returns anywhere before it, and the payload follows |
| `HttpHeaders.HostHeader` | iso21177poc/common/src/main/cpp/http-headers.h:19-37 | an instance with carriage returns |
| `HttpHeaders.HttpHeaders.AddData` | iso21177poc/common/src/main/cpp/http-headers.h:19-37 | the lines collected and the rest returned are those of the stream so far; a fresh reader given a header and what follows it has the lines and returns the rest |
| `HttpHeaders.Receive` | iso21177poc/common/src/main/cpp/rfc8902-client.cpp:475-500 | the loop of the client over any pieces: a header with at least one line is complete, its lines are handed over, and the rest and the pieces not read are what follows it |
| `HttpHeaders.AnyPieces` | iso21177poc/common/src/main/cpp/http-headers.h:19-47 | a stream whose first line is not empty has the same header lines and the same payload in whatever pieces it arrives |
| `HttpHeaders.ReceivedExactly` | iso21177poc/common/src/main/cpp/rfc8902-client.cpp:475-500 | if the first line is not empty, the loop ends with certain lines and a payload if and only if the stream is their header and this payload |
| `HttpHeaders.IndependentExactly` | iso21177poc/common/src/main/cpp/http-headers.h:19-47 | all ways of cutting a stream come to the same exactly when its first line is not empty or nothing follows it |
| `HttpHeaders.StaleFlag` | iso21177poc/common/src/main/cpp/http-headers.h:23-26 | an instance: after an empty first line in a piece of its own, the header is taken to end after the next line |
| `HttpHeaders.Split` | iso21177poc/common/src/main/cpp/http-headers.h:131-141 | the loop that runs on inside itself splits at every delimiter |
| `HttpHeaders.SplitWoven` | iso21177poc/common/src/main/cpp/http-headers.h:131-141 | with the delimiters between them the parts are the string again |
| `HttpHeaders.PartsClean` | iso21177poc/common/src/main/cpp/http-headers.h:131-141 | and they hold no delimiters |
| `HttpHeaders.PartsCounted` | iso21177poc/common/src/main/cpp/http-headers.h:131-141 | there is one part to a delimiter, and one more if the string does not end in one |

## Left out

- Secure heap: mmap, guard pages, mlock, thread locks and the fall-back to the ordinary heap before initialisation; calls are atomic, and mapping the arena succeeds or fails by a parameter.
- Secure heap: sizes and minimal sizes that are not powers of two and failing allocations of the tables, for which the source stops with an assertion; freeing pointers that are not live. The bit tables are arrays of booleans.
- `SecureHeap.Heap.ShFree`: the block must have been cleared, as both callers do before the call; the source does not look at that, and a block freed uncleared would be handed out with its old contents.
- `CbcDigest.DigestRecord`: the SSLv3 branch, the concrete hash functions (the compression function is a parameter) and timing. Digests other than those of the source cannot be chosen.
- `GmTime.JulianAdj`: fields whose arithmetic overflows an `int`, which C leaves undefined.
- `GmTime.GmtimeAdj`: the same.
- `GmTime.GmtimeDiff`: the same; NULL result pointers.
- `SparseArray.Array.Set`: memory is a number of nodes that can be allocated; a failing call keeps the nodes it has added, as in the source, and what these are is not said.
- Sparse array: callbacks that change the array while it is walked; the order of frees is that of the node calls.
- `Wpacket.Wpacket.StartSubPacketLen`: after a failed call nothing is promised about the writer except which bytes it may have touched.
- `PacketRuns.Write`: the records of sub-packets are taken to be allocated; if a sub-packet is set to be abandoned when empty, only the bytes past maxsize are said to be untouched.
- `Wpacket.Wpacket.InitLen`: memory for a growing buffer runs out at a fixed size given beforehand.
- Packet writers: `WPACKET_fill_lengths`, `WPACKET_set_max_size`, `WPACKET_sub_allocate_bytes__` and `WPACKET_sub_reserve_bytes__`.
- DER writers: `ossl_DER_w_boolean`, whose chain of closes does not follow the pattern of the others, `ossl_DER_w_bn` (limb access) and precompiled encodings.
- `DerSignature.EncodeDsaSig`: BIGNUMs are integers; writers that write backwards.
- `Punycode.PunycodeDecode`: inputs of 2^32 bytes or more. `ossl_a2ulabel` and the UTF-8 encoder are not part of this model.
- `Params.SetUint64`: NULL data of a double, which the source does not look for.
- `Params.SetInt64`: the absolute value of the least int64_t is taken as such, where C leaves the negation undefined. Doubles have 64 bits in the byte order of the integers.
- Parameters: the values of strings and pointers, reading and writing doubles as doubles, the values of `return_size`, and lengths of 0. `OSSL_PARAM_merge` and texts are not part of this model.
- Name map: the hash table (a map without case stands for it), the order in which it is walked, failing allocations, locks, the wrap-around of numbers beyond `int` and the pre-population with legacy names.
- `NameMap.Namemap.Num2Name`: which of several names has which index is up to the hash table.
- HTTP header: the fields read from the lines (`get_content_length` and the like).
- The rest of the TLS, provider and client code: sockets, callbacks, tables and plumbing.

# Proofs about the core of iPXE

A Dafny model of the parts of iPXE in `src/ipxe/src` on which the rest depends: the
memory allocator and I/O buffers, the interface and reference-count runtime, the
scheduler, the multipath SAN device, the ciphers and big integers, and the parsers
and printers.  `dafny verify dfyconfig.toml` checks all of it.

C code that updates memory is modelled by methods that update arrays, or fields of
classes; each is proved against a function of its input or of the old state, and the
theorems are about those functions.  The modules, by source file:

- `core/malloc.c`: `FreeList` (the list and its edits), `HeapModel` (the allocator as
  a state machine, with the set of live blocks), `HeapTheorems` (what holds in every
  run), `HeapUse` (what one change does to the memory in use), `Malloc` (the code).
  `core/iobuf.c`: `IoBuffer`, and `IoBufferRuns` (any interleaving of buffers).
- `crypto/aes.c`: `Algebra` and `Field` (MixColumns and GF(2^8)), `Rounds` (the
  equivalent inverse cipher, for any cipher with the right laws), `Aes` (FIPS 197),
  `AesStandard` (the same byte by byte), `AesTables`, `AesCipher`, `AesGenerate`,
  `AesContext` and `AesAlgorithm` (the code).  `crypto/aes_wrap.c`: `AesWrap`,
  `AesWrapShift`, `AesWrapCounter`.
- `core/uri.c`: `UriText` and `UriModel` (what parsing and formatting mean),
  `UriStandard` (character by character), `UriRoundTrip` (when one undoes the other),
  `UriLayout`, `UriParser`, `UriBuffer` (parsing in place), `UriFormatter`,
  `UriEndToEnd`.
- `core/interface.c`, `core/refcnt.c`: `InterfaceModel`, `InterfaceLookup`,
  `InterfaceTrace` (what a close leads to), `InterfaceLaws` (what every cascade keeps to),
  `InterfaceRuntime`.  `core/process.c`: `Process`.
- `core/sanboot.c`: `SanModel`, `SanDevice`, `SanCommand`, `SanClose`.
- `crypto/bigint.c` and its x86 primitives: `BigInt`, `BigIntMod`.
- `crypto/asn1.c`: `Asn1`, `Asn1Code`, `Asn1Chain`.  `core/base64.c`: `Base64`,
  `Base64Code`.  `core/linebuf.c`: `LineBuffer`.
- `core/profile.c`: `ProfileVariance`, `Profile`, `ProfileMean`, `ProfileDeltas`,
  `ProfileLimit`.  `core/isqrt.c`, `core/time.c`: `Isqrt`, `Time`.
- `Powers`, `Lists`, `Strings` and `Options` hold what is shared.

## How the model reads the code

- `size_t` and `unsigned long` have 64 bits, `unsigned int` has 32, and arithmetic
  wraps where it can in the code; sizes and alignments of structures are those of a
  64-bit build.
- Addresses are numbers.  The heap's live blocks, the bytes of blocks from malloc(),
  the references held by running code and the number, the smallest and the largest of
  the samples of a profiler are extra state that the code does not have.
- What comes from outside is a parameter: whether an allocation succeeds (`memory`),
  the events of one turn of the scheduler, which may depend on the state and on the turn,
  the status of opening a URI or of a block command, what a close handler or step handler
  does.  Which blocks a cache discarder frees is left open.
- AES works on bytes.  Columns loaded as 32-bit words, and exclusive or of words, are
  modelled byte by byte; where bits are put together with "or", and the operands
  share no bits, the model adds.  In base64_decode() it is "or", with a proof that they
  share none.

## Where a property fails

The model follows the code where it differs from its documentation or from what its
callers could expect; each of these has a lemma with the exact condition.

- The comments on leaks in alloc_memblock() say that a piece too small to keep occurs
  only at the ends of the heap.  An offset that is not a multiple of the minimum block
  size makes one anywhere (`HeapTheorems.LeaksIff` in terms of the block that is cut,
  `LeakFreeIff` in terms of the argument, `UnalignedOffsetLeaks`).
- aes_wrap() is documented as RFC 3394 and as working in place.  It keeps one byte of
  the step counter (`AesWrapCounter.WrapIsRfc3394Iff`), and setting up the register
  overwrites the first block of data that is in place (`AesWrap.WrapInPlaceIff`).
- sandev_reopen() can return success without an active path, if a path becomes active,
  another is closed as surplus and the first fails, all in one turn
  (`SanDevice.ReopenedIff`, `SuccessWithoutPath`); only with one event per turn is a command
  never initiated without one (`SanCommand.InitiatedActive`).
- sanpath_step() does not check that its path is opened, and an unplugged interface has
  an unlimited window.  The lists stay in order only as long as events come from opened
  paths (`SanModel.StepInvIff`).
- sandev_rw() shifts the number of blocks in 32 bits (`SanDevice.CoversIff`), and
  needs a nonzero maximum command size to come to an end.
- bigint_mod_exp() returns one for modulus one and exponent zero
  (`BigIntMod.PowerModIff`).
- asn1_skip_if_exists() says that the cursor is not modified on error.  It is, unless
  the data is too short or the tag differs (`Asn1Code.Cursor.SkipIfExists`).
- An operation lookup through a cycle of pass-throughs does not end
  (`InterfaceLookup.LookupsEndIff`, `InterfaceModel.PassCycle`).
- Formatting and parsing a URI are not inverse for every URI that the structure can
  hold (`UriRoundTrip.ParseFormatIff`).
- base64_encode() and base64_decode() count bits in an unsigned int.  From 2^29 bytes on
  the one does not end (`Base64Code.EncodeEndsIff`) and the other returns a wrong length
  (`Base64Code.DecodeBuffer`).
- profile_update() scales the deltas by a shift that is negative once a sample has reached
  2^31 (`ProfileLimit.LeftShiftIff`, `TwoSamples`).  profile_variance() is defined exactly
  while the scale of the accumulated variance is below 62 (`ProfileLimit.VarianceShiftsIff`).
  Five smaller samples can be enough for that (`FiveSamples`); how many never are is the
  one-way `Profile.Profiler.Defined`.
- asn1_grow() is meant to make errors permanent, and callers look only at the status of the
  last of several calls.  A builder that is still empty forgets a failure
  (`Asn1Chain.PermanentIff`), so that the last call can succeed without what the first was
  to add (`FirstGoesMissing`); it means the whole exactly if all calls have succeeded
  (`WholeIff`, `FirstAndLast`).

## Model

| member | source | states |
|---|---|---|
| `FreeList.CheckBlocksIff` | src/ipxe/src/core/malloc.c:205-235 | the assertions of the consistency check, in size_t and ssize_t arithmetic, all hold exactly when the list is strictly ascending, with a gap between neighbours, no block below the minimum size, and none that wraps around the end of the address space |
| `FreeList.Canonical` | src/ipxe/src/core/malloc.c:205-235 | two well-formed free lists that cover the same bytes are the same list |
| `FreeList.InsertMergeAscending` | src/ipxe/src/core/malloc.c:450-491 | returning a block that overlaps nothing keeps the list well formed, whichever neighbours it merges with |
| `FreeList.InsertMergeCovers` | src/ipxe/src/core/malloc.c:450-491 | after the insertion exactly the old free bytes and the bytes of the block are free |
| `FreeList.SplitInPlaceIsSplit` | src/ipxe/src/core/malloc.c:329-360 | the list edits (add "post" behind "pre", shrink "pre", drop it if too small) replace the block by its remainder |
| `FreeList.SplitAscending` | src/ipxe/src/core/malloc.c:329-360 | cutting an allocation out of a free block keeps the list well formed |
| `FreeList.SplitCovers` | src/ipxe/src/core/malloc.c:329-360 | the allocated bytes leave the list, and nothing else does unless a scrap is leaked |
| `FreeList.SplitSum` | src/ipxe/src/core/malloc.c:329-365 | free bytes before = free bytes after + allocated + leaked |
| `HeapModel.FirstFit` | src/ipxe/src/core/malloc.c:317-323 | the index returned fits and no earlier block does |
| `HeapModel.RoundUpCases` | src/ipxe/src/core/malloc.c:296-309 | rounding gives zero exactly for size zero or on overflow, and otherwise the next multiple of the minimum block size |
| `HeapModel.AllocInv` | src/ipxe/src/core/malloc.c:279-394 | an allocation keeps the heap invariant: well-formed list, live blocks apart from it and from each other, everything inside the pool, byte counts conserved |
| `HeapModel.FreeInv` | src/ipxe/src/core/malloc.c:404-499 | so does freeing a live block |
| `HeapModel.PopulateInv` | src/ipxe/src/core/malloc.c:648-660 | so does adding a region |
| `HeapModel.RunInv` | src/ipxe/src/core/malloc.c:279-499 | every state reached by any run of legal allocations, frees and additions satisfies the invariant |
| `HeapTheorems.PreSizeAligned` | src/ipxe/src/core/malloc.c:318-319 | the first candidate address in a block has the requested physical alignment and offset, in size_t arithmetic |
| `HeapTheorems.PreSizeLeast` | src/ipxe/src/core/malloc.c:318-319 | no lower address in the block has |
| `HeapTheorems.RangeInOneBlock` | src/ipxe/src/core/malloc.c:450-491 | because neighbours are merged, every contiguous run of free bytes lies in one block |
| `HeapTheorems.AllocCorrect` | src/ipxe/src/core/malloc.c:279-394 | NULL exactly for size zero, overflow, or when no aligned run of free bytes is long enough; otherwise the block was free, is aligned, and overlaps no live block |
| `HeapTheorems.RunTight` | src/ipxe/src/core/malloc.c:299-365 | in any run whose offsets and regions are multiples of the minimum block size nothing leaks, and every pool byte is free or live |
| `HeapTheorems.FreeingAllRestores` | src/ipxe/src/core/malloc.c:648-670 | live and free bytes always add up to the heap, and once everything has been freed, in any order, the heap is the single block it started as |
| `HeapTheorems.FreesCommute` | src/ipxe/src/core/malloc.c:404-499 | the order of two frees leaves no trace |
| `HeapTheorems.AllocFreeIdentity` | src/ipxe/src/core/malloc.c:279-499 | freeing what was just allocated restores the state |
| `HeapTheorems.LeaksIff` | src/ipxe/src/core/malloc.c:335-360 | in any state, an allocation leaks exactly when the first block with enough space would be cut so that the piece in front or behind is too small to keep |
| `HeapTheorems.LeaksNearEdge` | src/ipxe/src/core/malloc.c:335-360 | in a heap without leaks that is when the offset is not a multiple of the minimum block size and the block is cut within that distance of an edge of a free block, anywhere in the heap |
| `HeapTheorems.LeakFreeIff` | src/ipxe/src/core/malloc.c:335-360 | for a size and an alignment below 2^62: no heap leaks on such an allocation exactly when the offset is a multiple of the minimum block size |
| `HeapTheorems.UnalignedOffsetLeaks` | src/ipxe/src/core/malloc.c:335-360 | a concrete allocation that leaks eight bytes |
| `Malloc.AllocAfterDiscards` | src/ipxe/src/core/malloc.c:374-388 | blocks outside the caches survive the discards of an allocation and do not overlap its result |
| `Malloc.NullMeansNoRoom` | src/ipxe/src/core/malloc.c:374-388 | after the discards, NULL means that no aligned run of free bytes is long enough |
| `Malloc.InsideGaps` | src/ipxe/src/core/malloc.c:450-491 | within a span of 2^63 bytes the ssize_t gaps of the merging loop are the true distances |
| `Malloc.LiveWithin` | src/ipxe/src/core/malloc.c:450-491 | a live block and the free list always lie within such a span |
| `Malloc.ReallocSteps` | src/ipxe/src/core/malloc.c:529-572 | a new block taken and the old one given back, with nothing else changed, is what realloc() promises |
| `Malloc.Heap.constructor` | src/ipxe/src/core/malloc.c:91-110 | an empty allocator |
| `Malloc.Heap.AddDiscarder` | src/ipxe/src/include/ipxe/malloc.h:86-100 | another discarder, with nothing cached |
| `Malloc.Heap.HandToDiscarder` | src/ipxe/src/include/ipxe/malloc.h:86-100 | a block from malloc() becomes cached data that a later allocation may discard; every other block in use is undisturbed |
| `Malloc.Heap.InsertIntoFreeList` | src/ipxe/src/core/malloc.c:450-491 | the in-place insertion and merging loop computes the canonical insertion |
| `Malloc.Heap.FreeMemblock` | src/ipxe/src/core/malloc.c:404-499 | new state and statistics; NULL is ignored; validity is kept for a live block |
| `Malloc.Heap.Populate` | src/ipxe/src/core/malloc.c:648-660 | the region, rounded down to whole minimum blocks, joins the free list |
| `Malloc.Heap.DiscardCache` | src/ipxe/src/core/malloc.c:242-252 | discards something exactly when some cache is not empty, only frees cached blocks, and those of a cache only once all cheaper ones are empty |
| `Malloc.Heap.DiscardFrom` | src/ipxe/src/core/malloc.c:242-252 | one discarder frees at least one of its blocks, whichever it chooses |
| `Malloc.Heap.FindFit` | src/ipxe/src/core/malloc.c:317-323 | the search loop finds the first fit |
| `Malloc.Heap.SplitBlock` | src/ipxe/src/core/malloc.c:329-360 | in-place split of a list element |
| `Malloc.Heap.TakeBlock` | src/ipxe/src/core/malloc.c:323-365 | split together with the statistics |
| `Malloc.Heap.TryAlloc` | src/ipxe/src/core/malloc.c:315-372 | one pass returns the address and state of the model |
| `Malloc.Heap.AllocMemblock` | src/ipxe/src/core/malloc.c:279-394 | the whole loop: first fit, after a run of cache discards, cheapest first, that is empty if there is room without; NULL only for a bad size or with every cache empty |
| `Malloc.Heap.MallocDma` | src/ipxe/src/include/ipxe/malloc.h:46-53 | alignment, bounds, and disjointness from every block in use; no other block or pointer is changed; NULL only on overflow or with all caches empty and no room |
| `Malloc.Heap.FreeDma` | src/ipxe/src/include/ipxe/malloc.h:81-84 | exactly that block is given back, and nothing else changes; NULL is ignored |
| `Malloc.Heap.AllocTotal` | src/ipxe/src/core/malloc.c:540-545 | a block behind a size word, new memory, and nothing else is changed |
| `Malloc.Heap.AllocAutosized` | src/ipxe/src/core/malloc.c:529-545 | a block behind a size word, pointer-aligned, different from every other and apart from every block in use; on failure no contents change |
| `Malloc.Heap.FreeAutosized` | src/ipxe/src/core/malloc.c:552-565 | the size word in front identifies exactly the block that was allocated |
| `Malloc.Heap.AllocCopy` | src/ipxe/src/core/malloc.c:529-562 | the new block starts with as many old bytes as fit, is new memory, and every block in use stays in use with its contents |
| `Malloc.Heap.Realloc` | src/ipxe/src/core/malloc.c:521-572 | all cases of realloc, malloc and free: contents kept up to the shorter length; exactly the new block is taken and the old one given back, and every other block in use and every other pointer is untouched; NULL only on overflow or without room, and then the old block is still there |
| `HeapUse.ChangedThen` | src/ipxe/src/core/malloc.c:279-499 | two changes to the memory in use one after the other are one change: what is taken and then given back does not count |
| `HeapUse.TakenApart` | src/ipxe/src/core/malloc.c:279-394 | a block that is taken is apart from every block that was in use |
| `HeapUse.ChangedUndisturbed` | src/ipxe/src/core/malloc.c:279-499 | blocks and pointers that a change does not name are left alone |
| `IoBuffer.RoundedFacts` | src/ipxe/src/core/iobuf.c:55-77 | the alignment used is a power of two above the padding and at least the one requested; the shift is defined exactly when it fits in a word |
| `IoBuffer.InlineAligned` | src/ipxe/src/core/iobuf.c:85-95 | rounding the length makes an inline descriptor aligned for every offset |
| `IoBuffer.HeldKept` | src/ipxe/src/core/iobuf.c:145-170 | everything free_iob() relies on survives any allocation, free or realloc that leaves the buffer's own blocks and descriptor alone |
| `IoBuffer.AllocInline` | src/ipxe/src/core/iobuf.c:83-95 | buffer and descriptor share one block, which is new memory; nothing else changes |
| `IoBuffer.AllocDetached` | src/ipxe/src/core/iobuf.c:97-110 | buffer and descriptor in separate blocks, both new memory; nothing else changes |
| `IoBuffer.AllocDescriptor` | src/ipxe/src/core/iobuf.c:104-114 | the descriptor is new memory, apart from the buffer; without memory for it the buffer is given back and nothing has changed |
| `IoBuffer.GiveBack` | src/ipxe/src/core/iobuf.c:109-113 | that failure path |
| `IoBuffer.NeverAtEnd` | src/ipxe/src/core/iobuf.c:159-169 | a descriptor behind its own size word can never sit at the end of the buffer |
| `IoBuffer.AllocAligned` | src/ipxe/src/core/iobuf.c:75-114 | inline exactly up to the threshold, detached beyond it; new memory either way |
| `IoBuffer.AllocIobRaw` | src/ipxe/src/core/iobuf.c:48-117 | an empty buffer of the length and alignment requested, inline exactly up to the threshold, then aligned and within one alignment unit; its blocks are new memory, apart from every block in use, and nothing else changes; NULL only if the alignment or size overflows or there is no room for buffer or descriptor, and then nothing in use has changed |
| `IoBuffer.FreeInline` | src/ipxe/src/core/iobuf.c:159-163 | the one block of buffer and descriptor is given back, and nothing else changes |
| `IoBuffer.FreeDetached` | src/ipxe/src/core/iobuf.c:164-168 | buffer and descriptor are both given back, and nothing else changes |
| `IoBuffer.FreeIob` | src/ipxe/src/core/iobuf.c:145-170 | gives back exactly the blocks the I/O buffer stands for, and nothing else changes; NULL is ignored |
| `IoBufferRuns.NewStep` | src/ipxe/src/core/iobuf.c:48-117 | a new buffer is separate from all others, and all of them can still be freed |
| `IoBufferRuns.DropStep` | src/ipxe/src/core/iobuf.c:145-170 | freeing one of several buffers leaves all others in order |
| `IoBufferRuns.ResizeStep` | src/ipxe/src/core/malloc.c:521-572 | so does any realloc() in between |
| `IoBufferRuns.Session` | src/ipxe/src/core/iobuf.c:48-170 | whatever sequence of allocations, frees and reallocs: each is carried out unless there is no memory for it; every buffer not yet freed can be, the others gave back exactly what they had taken, and everything in use at the start is untouched |
| `IoBufferRuns.AllReturned` | src/ipxe/src/core/iobuf.c:48-170 | once all have been freed, no block has leaked and none that was in use has gone |
| `Algebra.MixInverse` | src/ipxe/src/crypto/aes.c:521-565 | the inverse coefficient matrix undoes MixColumns, over any space in which x acts linearly |
| `Algebra.CirculantCommute` | src/ipxe/src/crypto/aes.c:492-565 | circulant matrices commute, so the inverse works on both sides |
| `Field.DoubleXor` | src/ipxe/src/crypto/aes.c:467-483 | doubling is linear |
| `Field.TripleThird` | src/ipxe/src/crypto/aes.c:582-595 | multiplying by (x + 1) and the shift cascade that divides by it undo each other |
| `Field.Reduction` | src/ipxe/src/crypto/aes.c:467-483 | doubling eight times is multiplication by x^4 + x^3 + x + 1: it is the field of section 4.2 of FIPS 197 |
| `Field.Generator` | src/ipxe/src/crypto/aes.c:579-605 | (x + 1) generates the field: what holds of 1 and is handed on by it holds of every nonzero byte |
| `Field.InverseExists` | src/ipxe/src/crypto/aes.c:579-605 | every nonzero byte has an inverse |
| `Field.SboxInjective` | src/ipxe/src/crypto/aes.c:597-608 | the S-box (inverse, then affine transformation) is injective |
| `Field.SboxSurjective` | src/ipxe/src/crypto/aes.c:597-608 | and surjective |
| `Field.InvSboxUndoes` | src/ipxe/src/crypto/aes.c:617-619 | the inverse S-box undoes it on both sides |
| `Rounds.EquivalentInverse` | src/ipxe/src/crypto/aes.c:433-459 | for any cipher whose steps satisfy the laws, decryption with transformed keys is the inverse cipher, section 5.3.5 of FIPS 197 |
| `Rounds.DecryptUndoesEncrypt` | src/ipxe/src/crypto/aes.c:397-459 | and undoes encryption |
| `Rounds.EncryptUndoesInverse` | src/ipxe/src/crypto/aes.c:397-459 | encryption undoes the inverse cipher |
| `Rounds.InverseKeysAt` | src/ipxe/src/crypto/aes.c:759-774 | which transformed key is used in which round |
| `Aes.StepsLaws` | src/ipxe/src/crypto/aes.c:277-387 | the AES steps satisfy those laws |
| `Aes.InvCipherCorrect` | src/ipxe/src/crypto/aes.c:397-459 | Cipher and InvCipher of FIPS 197 undo each other, for every key length |
| `AesStandard.DoubleIs` | src/ipxe/src/crypto/aes.c:467-483 | multiplication by x, section 4.2.1 of FIPS 197 |
| `AesStandard.ShiftRowsBytes` | src/ipxe/src/crypto/aes.c:191-211 | where each byte moves, section 5.1.2 |
| `AesStandard.MixColumnsBytes` | src/ipxe/src/crypto/aes.c:492-512 | each byte as a sum of four, section 5.1.3 |
| `AesStandard.SboxBits` | src/ipxe/src/crypto/aes.c:579-608 | each bit of the S-box, from the multiplicative inverse, section 5.1.1 |
| `AesStandard.WordFollows` | src/ipxe/src/crypto/aes.c:718-755 | every byte of every word of the key schedule, with its S-box, rotation and round constant, section 5.2 |
| `AesTables.ShiftAt` | src/ipxe/src/crypto/aes.c:191-211 | stepping through the state with the given stride performs ShiftRows or InvShiftRows |
| `AesTables.ColumnsMix` | src/ipxe/src/crypto/aes.c:191-211 | four table columns added up are the matrix applied to the substituted column |
| `AesTables.OutputMix` | src/ipxe/src/crypto/aes.c:223-238 | one output column of a table-driven round is substitution, shift, mix and key addition |
| `AesCipher.Round` | src/ipxe/src/crypto/aes.c:249-262 | a table-driven round equals the round it stands for |
| `AesCipher.Final` | src/ipxe/src/crypto/aes.c:361-387 | the final round: substitution and shift through the first byte of each entry |
| `AesCipher.IntermediateRounds` | src/ipxe/src/crypto/aes.c:277-335 | alternating between two buffers, an odd number of rounds ends in the output |
| `AesCipher.EncryptValid` | src/ipxe/src/crypto/aes.c:277-294 | the encryption tables and stride give SubBytes, ShiftRows, MixColumns, AddRoundKey |
| `AesCipher.DecryptValid` | src/ipxe/src/crypto/aes.c:318-335 | the decryption tables and stride give the steps of the equivalent inverse cipher |
| `AesCipher.UnmixByRounds` | src/ipxe/src/crypto/aes.c:763-773 | final encryption round followed by a decryption round, both with key zero, is InvMixColumns |
| `AesGenerate.MixEntry` | src/ipxe/src/crypto/aes.c:492-512 | one table entry: the eight multiples, other entries untouched |
| `AesGenerate.InvMixEntry` | src/ipxe/src/crypto/aes.c:521-565 | the same for the inverse table |
| `AesGenerate.WalkComplete` | src/ipxe/src/crypto/aes.c:579-605 | the walk through the powers of the generator that has come back to 1 has visited every nonzero byte |
| `AesGenerate.FillSbox` | src/ipxe/src/crypto/aes.c:579-608 | the walk, with its simultaneous walk through the inverses, fills in the whole S-box |
| `AesGenerate.Generate` | src/ipxe/src/crypto/aes.c:571-624 | both tables hold the products of their matrices with the S-box and the inverse S-box |
| `AesContext.KeySbox` | src/ipxe/src/crypto/aes.c:645-656 | four rotations apply the S-box to each byte of a word |
| `AesContext.MiddleColumn` | src/ipxe/src/crypto/aes.c:727-731 | the bit test picks the middle word of a 256-bit block and nothing else |
| `AesContext.Transform` | src/ipxe/src/crypto/aes.c:727-741 | the S-box, rotation and round constant steps of the key schedule, which AesStandard.WordFollows spells out |
| `AesContext.NextColumn` | src/ipxe/src/crypto/aes.c:725-755 | one loop iteration computes the next word and the next round constant |
| `AesContext.Expand` | src/ipxe/src/crypto/aes.c:718-755 | the expanded key |
| `AesContext.Convert` | src/ipxe/src/crypto/aes.c:763-773 | one round key converted |
| `AesContext.Invert` | src/ipxe/src/crypto/aes.c:759-774 | all round keys converted, in reverse order |
| `AesContext.InverseKeysAre` | src/ipxe/src/crypto/aes.c:759-774 | they are the keys of the equivalent inverse cipher |
| `AesAlgorithm.Run` | src/ipxe/src/crypto/aes.c:397-459 | the common body: key addition, intermediate rounds, final round, source and destination may coincide |
| `AesAlgorithm.Context.constructor` | src/ipxe/src/crypto/aes.c:141-148 | empty tables, to be generated on first use |
| `AesAlgorithm.Context.EnsureTables` | src/ipxe/src/crypto/aes.c:694-696 | the tables are generated once |
| `AesAlgorithm.Context.Schedule` | src/ipxe/src/crypto/aes.c:714-774 | both key schedules |
| `AesAlgorithm.ExpandedStandard` | src/ipxe/src/crypto/aes.c:718-755 | the expanded key is that of section 5.2 of FIPS 197, byte by byte |
| `AesAlgorithm.Context.SetKey` | src/ipxe/src/crypto/aes.c:680-779 | 0 exactly for 16, 24 or 32 bytes; the encryption keys follow the key schedule byte by byte; round keys of FIPS 197; nothing changes on error |
| `AesAlgorithm.Context.Encrypt` | src/ipxe/src/crypto/aes.c:397-423 | the encrypted block |
| `AesAlgorithm.Context.Decrypt` | src/ipxe/src/crypto/aes.c:433-459 | the decrypted block |
| `AesAlgorithm.EncryptIsCipher` | src/ipxe/src/crypto/aes.c:397-423 | encryption is Cipher of section 5.1 of FIPS 197 |
| `AesAlgorithm.DecryptIsInvCipher` | src/ipxe/src/crypto/aes.c:433-459 | decryption is InvCipher of section 5.3, on every block |
| `AesAlgorithm.DecryptUndoesEncrypt` | src/ipxe/src/crypto/aes.c:397-459 | with the keys made by aes_setkey(), on every block |
| `AesAlgorithm.RoundTrip` | src/ipxe/src/crypto/aes.c:397-779 | set any accepted key, encrypt in place, decrypt in place: the block is unchanged |
| `AesWrap.UnwrapIff` | src/ipxe/src/crypto/aes_wrap.c:55-67 | for every block permutation, a string unwraps to the initial value and some data exactly when it is the wrapping of that data |
| `AesWrap.PassInPlace` | src/ipxe/src/crypto/aes_wrap.c:56-66 | the inner loop on the buffer is one pass |
| `AesWrap.Wrap` | src/ipxe/src/crypto/aes_wrap.c:38-71 | six passes from the initial value, source and destination distinct or the same; -1 without memory |
| `AesWrap.WrapInPlaceIff` | src/ipxe/src/crypto/aes_wrap.c:51-53 | wrapping in place is right exactly without data or with the initial value as first block |
| `AesWrap.Unpasses` | src/ipxe/src/crypto/aes_wrap.c:101-113 | the unwrapping loops on the buffer |
| `AesWrap.Unwrap` | src/ipxe/src/crypto/aes_wrap.c:85-124 | 0 exactly for the wrapping of some data, which is what it leaves in the destination; in place too |
| `AesWrap.UnwrapOutcome` | src/ipxe/src/crypto/aes_wrap.c:117-121 | the check of the initial value decides it |
| `AesWrap.AesPermutation` | src/ipxe/src/crypto/aes_wrap.c:49-61 | AES with any key is such a permutation |
| `AesWrapShift.WrappedShifts` | src/ipxe/src/crypto/aes_wrap.c:55-67 | the wrapping is what the shift register of section 2.2.1 of RFC 3394 holds after six steps per block |
| `AesWrapCounter.PlainDiffers` | src/ipxe/src/crypto/aes_wrap.c:63-63 | beyond 42 blocks there is a permutation for which the one-byte counter gives another result than RFC 3394 |
| `AesWrapCounter.WrapIsRfc3394Iff` | src/ipxe/src/crypto/aes_wrap.c:38-71 | the wrapping is that of section 2.2.1 of RFC 3394 for every permutation exactly when the step counter fits in a byte |
| `UriText.Find` | src/ipxe/src/core/string.c:256-265 | first occurrence |
| `UriText.FindLast` | src/ipxe/src/core/string.c:274-285 | last occurrence |
| `UriText.ScanPair` | src/ipxe/src/core/string.c:398-481 | two hexadecimal digits are read back |
| `UriText.DecodeEncode` | src/ipxe/src/core/uri.c:53-225 | decoding undoes encoding of any field |
| `UriText.EncodePlain` | src/ipxe/src/core/uri.c:108-225 | an encoded field holds no character that separates fields |
| `UriStandard.EncodeSelfIff` | src/ipxe/src/core/uri.c:153-188 | which texts are their own encoding in which field |
| `UriStandard.EncodeOther` | src/ipxe/src/core/uri.c:201-225 | any other character becomes a percent sign and two hexadecimal digits |
| `UriStandard.WithAuthority` | src/ipxe/src/core/uri.c:457-511 | which character separates which fields of a URI that has them all |
| `UriStandard.WithHost` | src/ipxe/src/core/uri.c:457-511 | of one with a host and a path |
| `UriStandard.WithoutAuthority` | src/ipxe/src/core/uri.c:457-511 | of one without authority |
| `UriStandard.Opaque` | src/ipxe/src/core/uri.c:457-511 | of an opaque one |
| `UriStandard.Relative` | src/ipxe/src/core/uri.c:457-511 | of a relative one |
| `UriStandard.SpacesAre` | src/ipxe/src/core/ctype.c:41-54 | the characters skipped as white space |
| `UriRoundTrip.SplitHostPort` | src/ipxe/src/core/uri.c:415-420 | host and port split again exactly when they can be told apart |
| `UriRoundTrip.Shape` | src/ipxe/src/core/uri.c:295-432 | what no parsed URI can look like |
| `UriRoundTrip.SplitJoin` | src/ipxe/src/core/uri.c:295-511 | splitting undoes joining of encoded, well-formed fields |
| `UriRoundTrip.SplitJoinOnly` | src/ipxe/src/core/uri.c:295-511 | and of no others |
| `UriRoundTrip.NetPathParsed` | src/ipxe/src/core/uri.c:370-386 | after formatting, the path found behind an authority is the part of the original from its first slash |
| `UriRoundTrip.ParseFormat` | src/ipxe/src/core/uri.c:295-511 | parsing undoes formatting of a well-formed URI |
| `UriRoundTrip.ParseFormatIff` | src/ipxe/src/core/uri.c:295-511 | for every ASCII URI, parsing undoes formatting exactly when it is well formed: relative, opaque, or hierarchical with an absolute path, with host and port that can be told apart |
| `UriLayout.StrChr` | src/ipxe/src/core/string.c:256-265 | the scanning loop |
| `UriLayout.StrLen` | src/ipxe/src/core/string.c:228-231 | the length |
| `UriLayout.StrRChr` | src/ipxe/src/core/string.c:274-285 | the backwards scanning loop |
| `UriLayout.Terminate` | src/ipxe/src/core/uri.c:328-332 | overwriting one character splits a string in two |
| `UriLayout.CutAt` | src/ipxe/src/core/uri.c:328-362 | cutting at the first occurrence, as done for fragment, scheme, query, user and password |
| `UriParser.ParseHost` | src/ipxe/src/core/uri.c:415-420 | host and port in the buffer |
| `UriParser.ParseAuthority` | src/ipxe/src/core/uri.c:399-420 | user, password, host and port in the buffer |
| `UriParser.ShuffleDown` | src/ipxe/src/core/string.c:96-103 | overlapping move by one |
| `UriParser.SplitNet` | src/ipxe/src/core/uri.c:378-386 | shuffling the authority down makes room for its terminator without touching the path |
| `UriParser.ParseNetPath` | src/ipxe/src/core/uri.c:370-386 | authority and path of a net path |
| `UriParser.ParsePath` | src/ipxe/src/core/uri.c:364-420 | net, absolute or relative path |
| `UriParser.ParseHier` | src/ipxe/src/core/uri.c:358-420 | query, then path and authority |
| `UriParser.ParseText` | src/ipxe/src/core/uri.c:334-420 | absolute or relative, hierarchical or opaque |
| `UriParser.DecodeNext` | src/ipxe/src/core/uri.c:62-75 | the next decoded character, with strtoul() on at most two characters |
| `UriParser.DecodeOver` | src/ipxe/src/core/uri.c:53-77 | decoding on top of the encoded text |
| `UriParser.DecodeInPlace` | src/ipxe/src/core/uri.c:85-99 | a field decoded in place, nothing outside it changed |
| `UriBuffer.DecodeFields` | src/ipxe/src/core/uri.c:422-425 | all fields decoded in place without disturbing each other |
| `UriBuffer.StrParams` | src/ipxe/src/core/uri.c:316-318 | where the parameter list starts |
| `UriBuffer.SplitBuffer` | src/ipxe/src/core/uri.c:328-420 | the whole splitting, as pointers into one buffer |
| `UriBuffer.ParseBuffer` | src/ipxe/src/core/uri.c:295-432 | the nine pointers denote exactly the fields of the parsed URI, present or absent |
| `UriFormatter.Emit` | src/ipxe/src/core/vsprintf.c:351-429 | the length of the whole text and as much of it as fits, terminated, a negative remainder counting as zero |
| `UriFormatter.EmitEncoded` | src/ipxe/src/core/uri.c:201-225 | an encoded field, truncated in the same way |
| `UriFormatter.EmitField` | src/ipxe/src/core/uri.c:479-500 | prefix, field and suffix |
| `UriFormatter.EmittedAll` | src/ipxe/src/core/uri.c:457-511 | the fields in the order of the loop are the formatted URI |
| `UriFormatter.FormatUri` | src/ipxe/src/core/uri.c:457-511 | the length of the URI and as much of it as the buffer has room for |
| `UriEndToEnd.FormatThenParse` | src/ipxe/src/core/uri.c:522-531 | format into a buffer of the right size, parse that buffer: every field of a well-formed URI comes back |
| `InterfaceModel.GetInv` | src/ipxe/src/core/interface.c:134-137 | taking a reference keeps every count equal to incoming plugs plus held references |
| `InterfaceModel.PutInv` | src/ipxe/src/core/interface.c:144-146 | so does dropping one |
| `InterfaceModel.UnplugInv` | src/ipxe/src/core/interface.c:112-117 | unplugging turns the reference of the plug into a held one |
| `InterfaceModel.ReplugInv` | src/ipxe/src/core/interface.c:83-90 | plugging moves the reference from the old destination to the new one |
| `InterfaceModel.FreedIff` | src/ipxe/src/core/refcnt.c:61-91 | an object is freed exactly when no plug and no held reference remains |
| `InterfaceModel.PluggedAlive` | src/ipxe/src/core/interface.c:83-146 | the destination of a plug is alive |
| `InterfaceModel.GetPut` | src/ipxe/src/core/interface.c:134-146 | a get followed by a put on a live object changes nothing |
| `InterfaceModel.PassCycle` | src/ipxe/src/core/interface.c:207-225 | a pass-through plugged back into its own interface: a lookup of any length |
| `InterfaceModel.PassFacts` | src/ipxe/src/core/interface.c:164-225 | each step of a lookup stays in the object and falls in rank |
| `InterfaceLookup.LookupsEndIff` | src/ipxe/src/core/interface.c:207-225 | every lookup ends exactly when pass-throughs and plugs can be ranked, that is form no cycle |
| `InterfaceTrace.FoundUnique` | src/ipxe/src/core/interface.c:207-225 | a lookup has one outcome |
| `InterfaceLaws.ServedLaw` | src/ipxe/src/core/interface.c:244-352 | whatever holds of every single step holds of every close cascade, whatever the handlers decide |
| `InterfaceLaws.InformedTold` | src/ipxe/src/core/interface.c:244-261 | the interface found by the lookup is told before anything else happens, unless it is blocked |
| `InterfaceLaws.AllLater` | src/ipxe/src/core/interface.c:299-312 | a group that has been shut down is unplugged, whatever the handlers on the way did |
| `InterfaceLaws.RestartOpen` | src/ipxe/src/core/interface.c:337-352 | a restarted interface is unplugged and takes operations |
| `InterfaceLaws.ServedBlocked` | src/ipxe/src/core/interface.c:119-126 | a blocked interface is told of nothing before it has been made to take operations again |
| `InterfaceLaws.ShutdownBlocks` | src/ipxe/src/core/interface.c:279-291 | an interface being shut down is told of nothing, and is blocked afterwards, unless a handler has restarted it |
| `InterfaceLaws.GroupBlocks` | src/ipxe/src/core/interface.c:303-311 | so is every interface of a group, from the moment the first of them is shut down |
| `InterfaceLaws.GroupRestarts` | src/ipxe/src/core/interface.c:360-372 | and of a group being restarted, until all have been shut down |
| `InterfaceLaws.ShutdownDue` | src/ipxe/src/core/interface.c:273-291 | an interface is made to take operations again only after one of its object has been told of a close |
| `InterfaceLaws.PairShutdown` | src/ipxe/src/core/interface.c:273-291 | two interfaces plugged into each other whose handlers shut themselves down: the other is told, once, and both end up blocked and unplugged |
| `InterfaceRuntime.World.constructor` | src/ipxe/src/include/ipxe/interface.h:173-180 | new objects: each count is right for the one reference that the creator holds, and no interface is plugged in |
| `InterfaceRuntime.World.RefDecrement` | src/ipxe/src/core/refcnt.c:61-91 | the new count; freed when it reaches -1 and only then |
| `InterfaceRuntime.World.Get` | src/ipxe/src/core/interface.c:134-137 | the invariant and a held reference |
| `InterfaceRuntime.World.Put` | src/ipxe/src/core/interface.c:144-146 | the invariant without it |
| `InterfaceRuntime.World.Plug` | src/ipxe/src/core/interface.c:83-90 | the new destination; the invariant holds although the old one may be freed on the way |
| `InterfaceRuntime.World.Unplug` | src/ipxe/src/core/interface.c:112-117 | the null destination; the same |
| `InterfaceRuntime.World.GetDestOp` | src/ipxe/src/core/interface.c:207-225 | the destination found is reached through pass-throughs of interfaces without the operation, is held, and either has the operation or no pass-through |
| `InterfaceRuntime.World.Close` | src/ipxe/src/core/interface.c:244-261 | the one interface found by the lookup is told, with the reason, and its handler runs to the end, whatever it decides at each step and whatever cascade it starts; no blocked interface is told; the invariant and all references held before are kept, and no more closes are delivered than interfaces become unplugged, plus this one |
| `InterfaceRuntime.World.Deliver` | src/ipxe/src/core/interface.c:253-260 | the close handler, from the state it finds, or the default restart, while the object is held |
| `InterfaceRuntime.World.RunHandler` | src/ipxe/src/core/interface.c:244-261 | any handler that shuts down or restarts interfaces of its own object, each action chosen from what the ones before it have led to |
| `InterfaceRuntime.World.NullifyAll` | src/ipxe/src/core/interface.c:303-307 | the whole group ignores closes before the first one is shut down |
| `InterfaceRuntime.World.ShutdownAll` | src/ipxe/src/core/interface.c:309-311 | each interface of the group is shut down in turn |
| `InterfaceRuntime.World.ReinitAll` | src/ipxe/src/core/interface.c:369-371 | the group takes operations again; its interfaces still exist |
| `InterfaceRuntime.World.Detach` | src/ipxe/src/core/interface.c:279-284 | the interface is blocked and unplugged, and its destination moves to a temporary interface |
| `InterfaceRuntime.World.Notify` | src/ipxe/src/core/interface.c:286-287 | the former destination is told, and everything follows that comes of it |
| `InterfaceRuntime.World.UnplugTemporary` | src/ipxe/src/core/interface.c:289-290 | the temporary reference is given back |
| `InterfaceRuntime.World.ShutdownIntf` | src/ipxe/src/core/interface.c:273-291 | terminates, even if nobody holds the object; the interface is unplugged, its former destination has been told, it was itself told of nothing and is blocked unless a handler restarted it, and the invariant holds |
| `InterfaceRuntime.World.Restart` | src/ipxe/src/core/interface.c:337-352 | the same, and operations are possible again |
| `SanModel.CloseInv` | src/ipxe/src/core/sanboot.c:233-254 | closing keeps each path in exactly one list, processes with opened paths, and the active path opened |
| `SanModel.OpenInv` | src/ipxe/src/core/sanboot.c:191-225 | so does opening |
| `SanModel.StepInv` | src/ipxe/src/core/sanboot.c:294-318 | so does a step of an opened path |
| `SanModel.StepInvIff` | src/ipxe/src/core/sanboot.c:294-318 | a step keeps that exactly when it does not make a path active that is not opened |
| `SanModel.RunInv` | src/ipxe/src/core/sanboot.c:191-318 | every state reached by events that come only from opened paths, and from queued processes, is well formed |
| `SanModel.HeadTells` | src/ipxe/src/core/sanboot.c:384-400 | after any events the head of the closed list tells whether the first path to go had failed |
| `SanClose.BlockCloseOwn` | src/ipxe/src/core/sanboot.c:262-273 | the close handler of a path, which looks at the active path, is one of those handlers |
| `SanClose.PathServed` | src/ipxe/src/core/sanboot.c:233-273 | whatever the peers do when told: afterwards the path is unplugged, and if it was active the command interface is too and the path is active no longer |
| `SanDevice.Device.constructor` | src/ipxe/src/core/sanboot.c:825-858 | all paths closed and in progress, the invariant established |
| `SanDevice.Device.Close` | src/ipxe/src/core/sanboot.c:233-254 | wherever the path was it is the last of the closed ones, idle and with the given status, and a command on it has ended with that status; the invariant is kept |
| `SanDevice.Device.Open` | src/ipxe/src/core/sanboot.c:191-225 | the path moves from the closed ones to the end of the opened ones, in progress and with its process queued, or nothing changes and the status is returned; the invariant is kept |
| `SanDevice.Device.Step` | src/ipxe/src/core/sanboot.c:294-318 | the first path that is ready becomes active, and any later one is closed without an error; the invariant is kept |
| `SanDevice.Device.Handle` | src/ipxe/src/core/sanboot.c:233-318 | one event: a closed block interface counts as an error whatever its status, a completed command stops the timer; the invariant is kept |
| `SanDevice.Device.Turn` | src/ipxe/src/core/process.c:98-121 | all events of one turn of the scheduler, in their order |
| `SanDevice.Device.Restart` | src/ipxe/src/core/sanboot.c:341-355 | the opened paths follow the closed ones, in their order and with the given status; none is active |
| `SanDevice.Device.OpenAll` | src/ipxe/src/core/sanboot.c:377-382 | paths are opened in order, each then in progress with its process queued, up to the first that cannot be, whose status is returned |
| `SanDevice.Device.Wait` | src/ipxe/src/core/sanboot.c:384-405 | the wait ends at the first turn after which a path is active or none is opened, with the status of the first path on the closed list in that case, whatever the events of each turn |
| `SanDevice.Device.Reopen` | src/ipxe/src/core/sanboot.c:365-414 | the outcome of opening and waiting; 0 exactly when a path is active or the first path to go was surplus; without an active path all are closed; with one event per step, 0 exactly with an active path |
| `SanDevice.ReopenedIff` | src/ipxe/src/core/sanboot.c:365-414 | success exactly when a path is active or the first path to go was surplus; with one event per turn, exactly when a path is active |
| `SanDevice.SingleSteps` | src/ipxe/src/core/sanboot.c:384-405 | one event per turn rules the exception out |
| `SanDevice.SuccessWithoutPath` | src/ipxe/src/core/sanboot.c:384-414 | three events in one step after which the code reports success without a path |
| `SanDevice.ReadWrite` | src/ipxe/src/core/sanboot.c:587-625 | the commands are consecutive fragments of at most the maximum size that cover the (32-bit) range exactly; 0 exactly without an error |
| `SanDevice.CoversIff` | src/ipxe/src/core/sanboot.c:601-603 | the whole range is covered exactly when the number of underlying blocks fits in an unsigned int |
| `SanCommand.AwaitTimer` | src/ipxe/src/core/sanboot.c:539-541 | the wait ends at the first turn after which the timer has stopped |
| `SanCommand.Execute` | src/ipxe/src/core/sanboot.c:530-547 | a command that cannot be initiated changes nothing; otherwise success or failure is the status with which it ended |
| `SanCommand.Attempt` | src/ipxe/src/core/sanboot.c:516-549 | one turn of the retry loop: the device is reopened exactly if it has no active path |
| `SanCommand.InitiatedActive` | src/ipxe/src/core/sanboot.c:443-462 | with one event per turn, a command is only ever initiated on an active path |
| `SanCommand.SinglePathBound` | src/ipxe/src/core/sanboot.c:523-527 | with a single path there are at most as many attempts as retries, plus one |
| `SanCommand.GivesUp` | src/ipxe/src/core/sanboot.c:513-551 | when a device gives up: with several paths only after retries + 1 attempts that got as far as the command, of which the last attempt is one, so never if its paths merely cannot be opened |
| `SanCommand.Command` | src/ipxe/src/core/sanboot.c:500-557 | success with the first attempt that succeeds, and then the command has status zero; otherwise the status of the last attempt, after retries + 1 attempts with one path and with several after as many that got as far as the command; no attempt after that, and none short of it |
| `BigInt.Rol` | src/ipxe/src/arch/x86/include/bits/bigint.h:105-117 | doubling, with the bit shifted out |
| `BigInt.Ror` | src/ipxe/src/arch/x86/include/bits/bigint.h:125-135 | halving |
| `BigInt.Subtract` | src/ipxe/src/arch/x86/include/bits/bigint.h:79-97 | difference modulo the size of the buffer |
| `BigInt.IsGeq` | src/ipxe/src/arch/x86/include/bits/bigint.h:167-184 | comparison of values |
| `BigInt.IsZero` | src/ipxe/src/arch/x86/include/bits/bigint.h:144-157 | comparison with zero |
| `BigInt.MaxSetBit` | src/ipxe/src/arch/x86/include/bits/bigint.h:212-229 | number of significant bits |
| `BigInt.AddProduct` | src/ipxe/src/arch/x86/core/x86_bigint.c:70-92 | a double element added with its carries, of which none is lost |
| `BigInt.PartialBound` | src/ipxe/src/arch/x86/core/x86_bigint.c:43-95 | no partial product exceeds the double-size buffer |
| `BigInt.Multiply` | src/ipxe/src/arch/x86/core/x86_bigint.c:43-95 | the product |
| `BigIntMod.Grow` | src/ipxe/src/arch/x86/include/bits/bigint.h:239-256 | the same value in a larger buffer |
| `BigIntMod.Shrink` | src/ipxe/src/arch/x86/include/bits/bigint.h:266-279 | the same value in a smaller one |
| `BigIntMod.Rescale` | src/ipxe/src/crypto/bigint.c:94-100 | the shifted modulus never overflows its buffer |
| `BigIntMod.Reduce` | src/ipxe/src/crypto/bigint.c:103-109 | the subtraction loop leaves the remainder |
| `BigIntMod.ModMultiply` | src/ipxe/src/crypto/bigint.c:63-120 | a * b mod m for every m > 0, operands reduced or not |
| `BigIntMod.ExpIteration` | src/ipxe/src/crypto/bigint.c:159-167 | one round of square and multiply |
| `BigIntMod.PowerModIff` | src/ipxe/src/crypto/bigint.c:155-167 | the result is the power modulo m except for modulus one with exponent zero |
| `BigIntMod.ModExp` | src/ipxe/src/crypto/bigint.c:133-168 | that result, for every base, exponent and modulus; the result may be where the base or the exponent was |
| `Asn1.FoldDigits` | src/ipxe/src/crypto/asn1.c:133-139 | length octets are read back, for lengths below 2^32 |
| `Asn1.DigitsMinimal` | src/ipxe/src/crypto/asn1.c:713-733 | length octets have no leading zero, section 10.1 of X.690 |
| `Asn1.Start` | src/ipxe/src/crypto/asn1.c:98-147 | an accepted body starts inside the data and ends within it, up to the allowed excess |
| `Asn1.StartHeader` | src/ipxe/src/crypto/asn1.c:98-147 | a header is read back exactly, whatever follows the body |
| `Asn1.StartAny` | src/ipxe/src/crypto/asn1.c:98-147 | any number of length octets is accepted, leading zeros included |
| `Asn1.HeaderShortest` | src/ipxe/src/crypto/asn1.c:713-733 | no shorter header is read back to the same length, so that the short form is used below 128 |
| `Asn1.EnterSkip` | src/ipxe/src/crypto/asn1.c:160-205 | entering an encoded object gives its body and skipping it what follows |
| `Asn1.ReadEncoded` | src/ipxe/src/crypto/asn1.c:160-227 | any tree of objects is recovered from its encoding by entering and skipping, for bodies below 2^31 bytes |
| `Asn1Code.Cursor.ReadLength` | src/ipxe/src/crypto/asn1.c:133-139 | the loop that reads the length octets |
| `Asn1Code.Cursor.StartObject` | src/ipxe/src/crypto/asn1.c:98-147 | result and position; on error the cursor is unmodified exactly if the data is too short or has another tag |
| `Asn1Code.Cursor.EnterObject` | src/ipxe/src/crypto/asn1.c:160-174 | the body, inside the original data; on error the status and an empty cursor |
| `Asn1Code.Cursor.SkipIfExists` | src/ipxe/src/crypto/asn1.c:187-205 | what follows the object, or the status; on error the cursor is unmodified exactly if the data is too short or has another tag |
| `Asn1Code.Cursor.SkipObject` | src/ipxe/src/crypto/asn1.c:218-227 | the same with an empty cursor on error |
| `Asn1Code.Cursor.Shrink` | src/ipxe/src/crypto/asn1.c:240-258 | the first object only |
| `Asn1Code.MakeHeader` | src/ipxe/src/crypto/asn1.c:713-733 | identifier and length octets |
| `Asn1Code.Builder.Grow` | src/ipxe/src/crypto/asn1.c:742-765 | the old data moved up, or no memory; a failure is remembered exactly by a builder that is not empty |
| `Asn1Code.Builder.PrependRaw` | src/ipxe/src/crypto/asn1.c:775-787 | data in front |
| `Asn1Code.Builder.Prepend` | src/ipxe/src/crypto/asn1.c:798-816 | an object in front |
| `Asn1Code.Builder.Wrap` | src/ipxe/src/crypto/asn1.c:825-841 | a header in front of everything |
| `Asn1Code.BuildAll` | src/ipxe/src/crypto/asn1.c:798-841 | any tree of objects, built last object first with every status looked at: success means its encoding, and only lack of memory prevents it |
| `Asn1Chain.PermanentIff` | src/ipxe/src/crypto/asn1.c:746-757 | after a failed call all later ones fail exactly if the builder was not empty |
| `Asn1Chain.WholeIff` | src/ipxe/src/crypto/asn1.c:742-841 | if the last of a chain of calls succeeds, whatever allocations failed: the builder holds the whole exactly when all calls succeeded |
| `Asn1Chain.FirstAndLast` | src/ipxe/src/crypto/asn1.c:742-841 | which is when the first and the last did, if the first adds anything |
| `Asn1Chain.FirstGoesMissing` | src/ipxe/src/crypto/ocsp.c:166-179 | every chain of several calls can report success without what the first was to add |
| `Asn1Chain.PerformAll` | src/ipxe/src/crypto/asn1.c:775-841 | one call after the other, with only the last status kept |
| `LineBuffer.LinesConcat` | src/ipxe/src/core/linebuf.c:91-143 | data that arrives after an unfinished line continues it |
| `LineBuffer.LinesBack` | src/ipxe/src/core/linebuf.c:91-143 | lines come back, whether they are ended by CR LF or by LF |
| `LineBuffer.LastChar` | src/ipxe/src/core/linebuf.c:45-58 | the buffer ends in a terminator exactly after a completed line |
| `LineBuffer.Buffer.Empty` | src/ipxe/src/core/linebuf.c:65-71 | an empty buffer |
| `LineBuffer.Buffer.Line` | src/ipxe/src/core/linebuf.c:45-58 | the line that the last call completed, or NULL if it did not complete one |
| `LineBuffer.Buffer.Add` | src/ipxe/src/core/linebuf.c:91-143 | takes the data up to the first LF; NUL and lack of memory are errors that change nothing |
| `LineBuffer.Buffer.TerminateLine` | src/ipxe/src/core/linebuf.c:120-137 | LF and at most one CR overwritten |
| `LineBuffer.Feed` | src/ipxe/src/core/linebuf.c:45-143 | one chunk, with each completed line taken out |
| `LineBuffer.Receive` | src/ipxe/src/core/linebuf.c:45-143 | however a stream is cut into chunks, the lines that come out are the stream cut at each LF |
| `Process.StepKeeps` | src/ipxe/src/core/process.c:98-121 | a step that runs another process brings no new process ahead |
| `Process.Fair` | src/ipxe/src/core/process.c:98-121 | a process with k others ahead runs within k + 1 steps unless removed, and only those run before it, in their order, each once |
| `Process.StepAdds` | src/ipxe/src/core/process.c:59-121 | the process that runs is behind all others and in front of those that it adds, which queue up in order, or has left |
| `Process.AddedRuns` | src/ipxe/src/core/process.c:59-121 | a process added in any turn runs within as many further turns as there are then processes in the queue, unless removed |
| `Process.Scheduler.constructor` | src/ipxe/src/core/process.c:38-39 | an empty run queue |
| `Process.Scheduler.Add` | src/ipxe/src/core/process.c:59-69 | a process that is not queued goes to the end of the queue, with one more reference; one that is stays where it is, and nothing changes |
| `Process.Scheduler.Delete` | src/ipxe/src/core/process.c:79-90 | the process is in the queue no longer, its place is closed up and its reference dropped; nothing else changes |
| `Process.Scheduler.Handler` | src/ipxe/src/core/process.c:98-121 | anything a handler adds or removes keeps one reference per queued process |
| `Process.Scheduler.SingleStep` | src/ipxe/src/core/process.c:98-121 | the first process runs, while a reference is held; it moves to the end or leaves the queue |
| `Process.Scheduler.Run` | src/ipxe/src/core/process.c:98-121 | one step after the other: which process runs in each |
| `ProfileVariance.AccumulatedAmount` | src/ipxe/src/core/profile.c:187-226 | the new sum is the old one plus the delta, up to a stated loss of low bits; it does not overflow, keeps the top bit clear and the one below it in use, whichever of the two scales had to change |
| `ProfileVariance.DeltaBounds` | src/ipxe/src/core/profile.c:160-185 | the product of the scaled deltas is never negative, fits, and is positive unless one of them is zero |
| `ProfileVariance.ShiftCount` | src/ipxe/src/core/profile.c:206-214 | the shift counts come out right although a difference may wrap around |
| `Profile.Profiler.constructor` | src/ipxe/src/core/profile.c:84-102 | no samples |
| `Profile.Profiler.Rescale` | src/ipxe/src/core/profile.c:130-141 | a coarser scale keeps the mean within bounds |
| `Profile.Profiler.Approach` | src/ipxe/src/core/profile.c:147-150 | the mean moves by its share of the distance to the sample, divided toward zero, and not beyond it |
| `Profile.Profiler.Include` | src/ipxe/src/core/profile.c:126-150 | one more sample, up to the saturated count; how far the mean is from the sum of the samples is in ProfileMean |
| `Profile.Profiler.Update` | src/ipxe/src/core/profile.c:110-150 | the new count, mean and scale; the mean stays between the scaled smallest and largest sample, without overflow, for samples below 2^62 |
| `Profile.Profiler.Mean` | src/ipxe/src/core/profile.c:241-247 | the mean in original units, between the smallest and the largest sample |
| `Profile.Profiler.Align` | src/ipxe/src/core/profile.c:187-214 | the scale of the sum is adjusted to the delta or the delta to the scale |
| `Profile.Profiler.Add` | src/ipxe/src/core/profile.c:216-226 | the sum, without losing its top bit |
| `Profile.Profiler.Vary` | src/ipxe/src/core/profile.c:160-232 | the accumulated variance after two deltas |
| `Profile.Profiler.Record` | src/ipxe/src/core/profile.c:110-233 | mean and variance after a sample below 2^31; the variance stays within its bound, and zero while all samples are the same |
| `Profile.Profiler.Variance` | src/ipxe/src/core/profile.c:255-267 | the variance to the nearest unit; zero for fewer than two samples or equal ones |
| `Profile.Profiler.Defined` | src/ipxe/src/core/profile.c:255-267 | the shifts in it are defined after n samples below 2^b, if n * 4^b is below 2^62 |
| `Profile.RecordAll` | src/ipxe/src/core/profile.c:110-267 | every such run |
| `ProfileMean.CoarserNear` | src/ipxe/src/core/profile.c:130-141 | a change of scale loses less than one unit for each sample |
| `ProfileMean.CountedNear` | src/ipxe/src/core/profile.c:147-149 | sample n loses less than n units |
| `ProfileMean.MeanOf` | src/ipxe/src/core/profile.c:110-150 | for every run of samples below 2^62, until the count saturates: n times the mean is the sum of the samples, up to the stated loss, at the scale of the largest sample; and so is n times the reported mean, up to half a unit each |
| `ProfileDeltas.ProductsAreVariance` | src/ipxe/src/core/profile.c:182-185 | with exact means, the products of the two deltas of each sample add up to the accumulated variance |
| `ProfileDeltas.DeltaNear` | src/ipxe/src/core/profile.c:160-184 | how far the product in 32 bits is from that of the deltas |
| `ProfileLimit.LeftShiftIff` | src/ipxe/src/core/profile.c:160-214 | the shift that scales the product of two deltas is defined exactly while all samples have been below 2^31 |
| `ProfileLimit.TwoSamples` | src/ipxe/src/core/profile.c:160-214 | two samples, one of them 2^31, for which it is not |
| `ProfileLimit.VarianceShiftsIff` | src/ipxe/src/core/profile.c:255-267 | the shifts of profile_variance() are defined exactly while the scale is below 62 |
| `ProfileLimit.FiveSamples` | src/ipxe/src/core/profile.c:255-267 | five samples below 2^31 after which they are not |
| `Isqrt.NoOverflow` | src/ipxe/src/core/isqrt.c:46-54 | the trial value fits in a word |
| `Isqrt.Root` | src/ipxe/src/core/isqrt.c:40-56 | r * r <= value < (r + 1) * (r + 1) for every word |
| `Time.Epoch` | src/ipxe/src/core/time.c:117-145 | 1 January 1970 is day zero |
| `Time.Consecutive` | src/ipxe/src/core/time.c:60-145 | consecutive dates have consecutive day numbers |
| `Time.Monotone` | src/ipxe/src/core/time.c:60-145 | later dates have larger day numbers |
| `Time.WeekdayIs` | src/ipxe/src/core/time.c:96-105 | day of the week = day number + 4, modulo seven |
| `Time.PosixAgrees` | src/ipxe/src/core/time.c:117-145 | from 1970 on the formula of section 4.15 of POSIX:2008 |
| `Time.BrokenDown.Mktime` | src/ipxe/src/core/time.c:117-145 | seconds, day of the year and day of the week, and nothing else is changed |
| `Base64.CharIs` | src/ipxe/src/core/base64.c:39-40 | the alphabet of table 1 of RFC 4648 |
| `Base64.SextetIsGroup` | src/ipxe/src/core/base64.c:61-67 | the shifts extract the sextets of section 4 of RFC 4648 |
| `Base64.Lengths` | src/ipxe/src/core/base64.c:61-74 | number of characters and of pad characters |
| `Base64.EncodeLength` | src/ipxe/src/core/base64.c:51-81 | 4 * ceil(n / 3) characters |
| `Base64.DecodeIff` | src/ipxe/src/core/base64.c:91-157 | accepted exactly for whole groups of four characters with at most two pads at the end, whitespace aside |
| `Base64.DecodeEncode` | src/ipxe/src/core/base64.c:51-157 | decoding gives the data back wherever whitespace has been inserted |
| `Base64Code.EncodeEndsIff` | src/ipxe/src/core/base64.c:61-61 | the loop over the data comes to an end exactly for fewer than 2^29 bytes, because the bit counter has 32 bits |
| `Base64Code.PutSextets` | src/ipxe/src/core/base64.c:61-70 | the loop over the data |
| `Base64Code.PutPads` | src/ipxe/src/core/base64.c:71-74 | the loop over the padding |
| `Base64Code.EncodeBuffer` | src/ipxe/src/core/base64.c:51-81 | for all data on which it comes to an end: the whole length, and as much of the text as fits, terminated |
| `Base64Code.ByteGrows` | src/ipxe/src/core/base64.c:137-145 | "or" with another sextet adds its bits to the bytes, which have zeros there |
| `Base64Code.AddSextet` | src/ipxe/src/core/base64.c:137-145 | the two bytes a sextet reaches |
| `Base64Code.DecodeBuffer` | src/ipxe/src/core/base64.c:91-157 | -EINVAL exactly for text that is not accepted; otherwise the length modulo 2^29, which is the length exactly below that, and then the contents; a short buffer receives a prefix |

## Left out

- Malloc.Heap.Populate: regions that overlap the pool, reach address zero or the end of the address space, or lie 2^63 bytes or more apart are not modelled; mpopulate() does not check for them, and the last are misordered by the signed gaps.
- Malloc.Heap.AllocMemblock: an alignment of zero is not modelled; callers pass a power of two.
- Malloc.Heap.DiscardFrom: a discarder frees some of its own blocks; what each discarder in the tree prefers to discard is not modelled.
- Malloc.Heap.AllocAutosized: the bytes of blocks are a map from pointers to contents, so that writes beyond a block's end are not modelled.
- The check for double frees in free_memblock(), the Valgrind annotations and all debug output have no effect on the modelled state.
- iob_concatenate(), iob_split() and iob_ensure_headroom(): copies between buffers that the allocator model says nothing new about.
- AesWrapCounter.WrapIsRfc3394Iff: for fewer than 2^64 steps, which nblk as an int never reaches.
- AesWrap.Wrap: source and destination are the same or apart; partial overlap, such as a source that starts eight bytes into the destination, is not modelled.
- AES on blocks goes through cipher objects in the repository; CBC, ECB and other modes are not modelled.
- UriBuffer.ParseBuffer: submission parameters behind "##params" are cut off but not looked up, and the allocation of the structure is left out.
- UriFormatter.FormatUri: only 7-bit characters other than NUL, because the sign of `char` decides how others are escaped; the null URI is left out.
- uri_dup(), resolve_path(), resolve_uri() and the TFTP URIs are not modelled.
- InterfaceRuntime.World.Close: handlers decide by anything they can see, but all they do to interfaces is to shut down and restart those of their own object, singly or in groups, and when one is called there is a bound on its number of actions; handlers that plug interfaces or take references, and operations other than close, are not modelled.
- InterfaceRuntime.World.RefDecrement: free() methods that release further references are not modelled; an object that is freed is only recorded.
- Process.Scheduler.SingleStep: a handler that calls step() again is not modelled.
- SanDevice.Device.Reopen: the wait is given a number of turns, and may still be waiting after them; window and close events come only from opened paths, as SanModel.StepInvIff says they must.
- SanDevice.Device.Handle: each event runs to its end before the next; events nested in the restarts of sanpath_close(), and commands that complete while they are being initiated, are not modelled, except that SanClose.PathServed allows for anything in between.
- SanDevice.ReadWrite: the status of each command is a parameter; the ISO 9660 geometry is left out.
- SanCommand.Command: the number of attempts and the number of turns in each are bounded by parameters, since with several paths the code may go on forever; the command interface and the timer are reduced to a status and a flag, and delays are left out.
- BigInt.AddProduct: the instructions add a carry of zero to the next element even when there is no carry, which the model leaves out; at the last product that element is one beyond the end of the buffer.
- bigint_init(), bigint_done() and bigint_add() on arbitrary data are not modelled.
- Asn1.ReadEncoded: bodies shorter than 2^31 bytes, because lengths are returned as an int.
- Values inside ASN.1 objects (integers, bit strings, times, algorithm identifiers) are not modelled.
- LineBuffer.Buffer.Line: the line is returned as a value rather than a pointer into the buffer.
- Profile.Profiler.Update: samples are below 2^62, as the scaling of the mean assumes.
- Profile.Profiler.Record: samples are below 2^31, because the shift for larger ones is undefined (ProfileLimit.LeftShiftIff), and the scale of the variance is below 2^64, because shifts are by less than 64 bits.
- Profile.Profiler.Variance: how close the result is to the exact variance of the samples is stated step by step, by ProfileDeltas.DeltaNear and ProfileVariance.AccumulatedAmount, and not for whole runs; the standard deviation is its square root as in Isqrt.Root.
- HeapTheorems.LeakFreeIff: sizes and alignments of 2^62 and more, for which there may be no heap large enough, are left to HeapTheorems.LeaksIff.
- Base64Code.DecodeBuffer: the search for a character in the alphabet is read as membership; the table has no terminator, and what strchr() finds beyond it is not modelled.
- Base64Code.EncodeBuffer: data of 2^29 bytes and more, on which the loop does not end.
- Time.BrokenDown.Mktime: the caller's date is valid and not before 1900; overflow of time_t is not modelled.
- Drivers, network protocols, consoles, settings, image formats and the build system: one dispatch or one format each, with nothing harder than the above.

# Verified models of Kryptonite's support code

Kryptonite ships with a set of vendored components in `Kryptonite/Lilu.kext`. This project models the
five of them that carry an algorithm, and proves what each is for. `dafny verify dfyconfig.toml` checks
everything; nothing here is executed.

**umm_malloc** (`HeapLayout`, `HeapImage`, `UmmHeap`, `UmmRuns`). The heap is an array of 16-bit words,
four to a cell: two header words, then payload that shares its first two words with the free-list links.
`HeapLayout` is the abstract picture: where blocks start and the order of the free list. `HeapImage` says
when an array of words stores such a layout: the block chain ascends from cell 0 to the last cell with
its backward links as inverse, the flag bit is set exactly for members of the list, and the list is a
duplicate-free ring through cell 0. A good layout also has no two free neighbours. `UmmHeap.Heap` is the
allocator, word by word, in place. Clients see `View()`, the map from live blocks to their words.
`UmmRuns` lets an arbitrary client make arbitrarily many calls and ties every one of them to `View()`.
The number of cells is any value from 3 to 0x8000; best fit is the policy the build selects
(`Kryptonite/Lilu.kext/Lilu.xcodeproj/project.pbxproj`, lines 810-811).

**LZVN** (`LzvnSpec`, `LzvnDecode`, `LzvnEncode`, `LzvnCuts`). `LzvnSpec` gives a stream its meaning: one
instruction at a time, appended byte by byte to an unlimited output. A match at distance 0 leaves what is
in the buffer, so that meaning takes the buffer as a further argument, `fill`. `LzvnDecode.Decoder` is
`lzvn_decode` on arrays, with its four- and eight-byte copies that write past the end, and its suspended
state. `LzvnEncode` reads the documented bit layouts the other way round, and `LzvnCuts` uses them to say exactly what the decoder
takes for an instruction and what becomes of a stream that is cut off.

**SHA-256** (`Sha256Spec`, `Sha256Words`, `Sha256Constants`, `Sha256`, `Sha256Abc`). The specification
follows FIPS 180-4, sections 4.1.2, 4.2.2, 5.1.1, 5.2.1, 5.3.3 and 6.2.2. `Sha256Words` says what its
functions do to the bits of a word, `Sha256Constants` where its constants come from, and `Sha256Abc`
works the example of the standard. `Sha256.Context` is the streaming implementation.

**Capstone's loops** (`Capstone`). `cs_disasm`, `cs_disasm_iter` and `cs_free` for an arbitrary decoder,
with an allocator that may fail at any call. What a caller gets is stated through the decoder alone
(`Disassembly`).

**hde64** (`Hde64Table`, `Hde64`, `Hde64Map`, `Hde64Records`). The length decoder with its whole table, the
rules in that table written out by opcode, and what its records say about instructions. The claims are
about the code and its table, not about the processor manuals.

Properties that the code does not have, and when it has them:

- A request beyond 8 * 65535 - 4 bytes gets too few cells, because `umm_blocks` returns 16 bits
  (`BlocksSuffice` is an equivalence, `BlocksWrap` the first cases). Where the count wraps to 0,
  `umm_malloc` returns the list head if the free list is empty and otherwise leaves no heap behind, and
  `umm_realloc` never leaves one (`Heap.Malloc`, `Heap.Realloc`). `umm_calloc` has the same limit on the
  product of its arguments (`CallocSuffices`).
- The match-only opcodes of LZVN do not check the distance, so a stream can ask for a match before any
  distance is set. The decoder then copies bytes onto themselves, and its output holds what was in the
  buffer. `FillMatters` says for which streams this happens, by a scan of the opcodes; `Decoder.Decode`
  covers them all, and `EarlyMatchExample` is the shortest one.
- An hde64 record does not determine its instruction after two REX bytes in a row, since only the first
  is recorded, nor for ENTER, whose second immediate overwrites the low byte of the first. It does in
  every other case (`BytesRecoverable`).
- `sha256_update` does not end on an input of 2^32 bytes or more, since its counter has 32 bits
  (`UpdateEnds`).

Where code and comments differ, the model follows the code: the comment at the end of `lzvn_decode` says
that the state has already been updated, but an undefined opcode and a truncated end marker return
without updating it, so the state names the instruction before. `Decoder.Decode` states this, and
`DecodeCutMarker` what it means for a caller.

## Model

| member | source | states |
|---|---|---|
| UmmRuns.Run | Kryptonite/Lilu.kext/umm_malloc/umm_malloc.c:227-652 | any number of malloc, calloc, realloc, free and byte-write calls, chosen by any well-behaved client from the earlier answers, keeps the whole heap invariant; every call has its exact effect on the live payloads and on the layout, and returns NULL exactly when it must |
| UmmRuns.Undisturbed | Kryptonite/Lilu.kext/umm_malloc/umm_malloc.c:227-652 | over any stretch of a run in which no call is given a block, that block stays live and keeps every word |
| UmmRuns.EffectElsewhere | Kryptonite/Lilu.kext/umm_malloc/umm_malloc.c:227-652 | no single call changes a live block that it is not given |
| UmmRuns.Perform | Kryptonite/Lilu.kext/umm_malloc/umm_malloc.c:285-652 | each entry point, on any valid heap: a best-fit block or NULL exactly when nothing fits, a release with its merges, a resize that keeps the common prefix or NULL exactly when there is no room, one byte stored; the layout afterwards is given outright |
| UmmRuns.Conserved | Kryptonite/Lilu.kext/umm_malloc/umm_malloc.c:191-458 | at every point of a run the block sizes along the chain add up to the same number of cells |
| UmmRuns.EmptyStore | Kryptonite/Lilu.kext/umm_malloc/umm_malloc.c:227-344 | a run that ends with nothing live ends in exactly the layout umm_init made |
| UmmHeap.BlocksLeast | Kryptonite/Lilu.kext/umm_malloc/umm_malloc.c:129-151 | umm_blocks(size) is the least n with size <= 8n - 4, for every size whose count fits 16 bits |
| UmmHeap.BlocksExact | Kryptonite/Lilu.kext/umm_malloc/umm_malloc.c:129-151 | for every size, umm_blocks is the least cell count that can hold it, modulo 2^16 |
| UmmHeap.PointerToPayload | Kryptonite/Lilu.kext/umm_malloc/umm_malloc.c:77-92 | a pointer that the allocator gives out leads back to its block, and byte by byte to the payload words of that block |
| UmmHeap.BlocksSuffice | Kryptonite/Lilu.kext/umm_malloc/umm_malloc.c:129-151 | the cells counted by umm_blocks hold the request if and only if it is at most 8 * 65535 - 4 bytes; beyond that the 16-bit result has wrapped |
| UmmHeap.BlocksWrap | Kryptonite/Lilu.kext/umm_malloc/umm_malloc.c:129-151 | the first requests that fail: their counts wrap to 0 and to 1 |
| UmmHeap.CallocExact | Kryptonite/Lilu.kext/umm_malloc/umm_malloc.c:646-649 | the byte count of umm_calloc is the product of its arguments as long as that fits 64 bits, and otherwise congruent to it modulo 2^64 |
| UmmHeap.CallocSuffices | Kryptonite/Lilu.kext/umm_malloc/umm_malloc.c:643-652 | for all arguments: the block umm_calloc asks for holds all the items if and only if they fit the largest request; beyond that the product or the count has wrapped |
| UmmHeap.CallocWrap | Kryptonite/Lilu.kext/umm_malloc/umm_malloc.c:643-652 | a product that wraps to 2 bytes |
| UmmHeap.CallocOverruns | Kryptonite/Lilu.kext/umm_malloc/umm_malloc.c:643-652 | clearing more than the largest request would leave a heap of any size, whatever block it started in |
| HeapImage.LoopIsNoHeap | Kryptonite/Lilu.kext/umm_malloc/umm_malloc.c:162-171 | an image in which the header of a block points at the block itself, and the headers below are those of a heap, stores no layout |
| HeapImage.CarveNothingBreaks | Kryptonite/Lilu.kext/umm_malloc/umm_malloc.c:426-457 | cutting 0 cells off a free block leaves such an image |
| HeapImage.UnlinkHead | Kryptonite/Lilu.kext/umm_malloc/umm_malloc.c:175-184 | with an empty free list, unlinking the list head changes no word |
| UmmHeap.Heap.TakeNothing | Kryptonite/Lilu.kext/umm_malloc/umm_malloc.c:426-458 | umm_malloc after a count of 0: with an empty free list the heap stays as it is, otherwise no heap is left |
| UmmHeap.Heap.ReallocNothing | Kryptonite/Lilu.kext/umm_malloc/umm_malloc.c:589-633 | umm_realloc of a live block to a count of 0 always ends in an image that is no heap |
| UmmHeap.Heap.Init | Kryptonite/Lilu.kext/umm_malloc/umm_malloc.c:227-281 | whatever the memory held, the words written form a valid heap with one free block and nothing live |
| UmmHeap.Heap.DisconnectFromFreeList | Kryptonite/Lilu.kext/umm_malloc/umm_malloc.c:175-184 | keeps the invariant, takes exactly c off the list, and writes no live payload |
| UmmHeap.Heap.AssimilateUp | Kryptonite/Lilu.kext/umm_malloc/umm_malloc.c:191-210 | keeps the invariant, merges c with a free block above and with no other, and writes no live payload |
| UmmHeap.Heap.AssimilateDown | Kryptonite/Lilu.kext/umm_malloc/umm_malloc.c:217-223 | keeps the invariant in both uses (with the free flag and without), merges c into the block below, and writes no live payload |
| UmmHeap.Heap.Free | Kryptonite/Lilu.kext/umm_malloc/umm_malloc.c:285-344 | keeps the invariant, releases exactly the given block with both merges, and leaves every other live payload as it was; NULL changes nothing |
| UmmHeap.Heap.Scan | Kryptonite/Lilu.kext/umm_malloc/umm_malloc.c:387-416 | the list walk terminates, for every count; if some free block fits, cf is the earliest list member of least adequate size, and otherwise blockSize stays below the count, or both are 0 |
| UmmHeap.Heap.MallocBlocks | Kryptonite/Lilu.kext/umm_malloc/umm_malloc.c:387-473 | NULL with nothing changed exactly when no free block fits; otherwise the best fit, cut to size, as a new live block beside unchanged old ones; and what happens for a count of 0 |
| UmmHeap.Heap.Malloc | Kryptonite/Lilu.kext/umm_malloc/umm_malloc.c:348-474 | umm_malloc for every size, with lazy initialisation, the zero size, and the sizes whose count wraps to 0: for those it returns the list head, or leaves no heap |
| UmmHeap.Heap.Carve | Kryptonite/Lilu.kext/umm_malloc/umm_malloc.c:442-457 | the in-place split and relinking store the layout in which the upper part has taken the place of the block on the free list; no live payload is written |
| UmmHeap.Heap.Write | Kryptonite/Lilu.kext/umm_malloc/umm_malloc.c:77-92 | a client that stores a byte inside one of its blocks changes that byte of that block and neither the invariant nor any other block, although payloads and list links share words |
| UmmHeap.Heap.Enlarge | Kryptonite/Lilu.kext/umm_malloc/umm_malloc.c:589-610 | strategies 1 to 4 give a block of at least the wanted size that starts at c or at the free block below, and carry the whole old payload over |
| UmmHeap.Heap.TakeBelow | Kryptonite/Lilu.kext/umm_malloc/umm_malloc.c:596-602 | strategy 3: absorbing the free block below and the overlapping memmove move the payload intact |
| UmmHeap.Heap.TakeBoth | Kryptonite/Lilu.kext/umm_malloc/umm_malloc.c:603-610 | strategy 4: the payload survives merging with both neighbours and the move |
| UmmHeap.Heap.MoveWords | Kryptonite/Lilu.kext/umm_malloc/umm_malloc.c:600-608 | memmove is right for overlap in either direction |
| UmmHeap.Heap.MoveToNew | Kryptonite/Lilu.kext/umm_malloc/umm_malloc.c:611-623 | strategy 5: a fresh best fit with the old words, and the old block freed; or NULL with not one word of the heap changed |
| UmmHeap.Heap.Trim | Kryptonite/Lilu.kext/umm_malloc/umm_malloc.c:629-633 | splitting off the surplus and freeing it, merges included, leaves the kept prefix and every other block alone |
| UmmHeap.Heap.ResizeInPlace | Kryptonite/Lilu.kext/umm_malloc/umm_malloc.c:589-633 | strategies 1 to 4 followed by the split: exactly the wanted cells, the common prefix kept, everyone else untouched, and at which address |
| UmmHeap.Heap.Realloc | Kryptonite/Lilu.kext/umm_malloc/umm_malloc.c:478-639 | for every size: all five strategies and the NULL and zero-size cases; NULL exactly when neither the neighbourhood nor the free list has room, and then nothing changes; otherwise a block of umm_blocks(size) cells with the first min(old, new) words, all else unchanged, and the layout that the chosen strategy gives; a count of 0 leaves no heap |
| UmmHeap.Heap.Calloc | Kryptonite/Lilu.kext/umm_malloc/umm_malloc.c:643-652 | a fresh block as from umm_malloc; if itemSize * num bytes fit the largest request, its first itemSize * num bytes are zero |
| HeapLayout.UnlinkGood | Kryptonite/Lilu.kext/umm_malloc/umm_malloc.c:175-184 | unlinking keeps the layout invariant and only shortens the list |
| HeapLayout.CarveGood | Kryptonite/Lilu.kext/umm_malloc/umm_malloc.c:442-457 | carving keeps the invariant, no two neighbours free included, and makes exactly c live |
| HeapLayout.SplitGood | Kryptonite/Lilu.kext/umm_malloc/umm_malloc.c:162-171 | splitting a used block keeps the invariant and adds exactly one live block |
| HeapLayout.MergeUpGood | Kryptonite/Lilu.kext/umm_malloc/umm_malloc.c:191-210 | merging up keeps the invariant and the set of live blocks, and says how far c then reaches |
| HeapLayout.MergeDownGood | Kryptonite/Lilu.kext/umm_malloc/umm_malloc.c:217-223 | merging down keeps the invariant in both uses |
| HeapLayout.LinkGood | Kryptonite/Lilu.kext/umm_malloc/umm_malloc.c:326-340 | putting a block without free neighbours at the head of the list keeps the invariant |
| HeapLayout.ReleaseGood | Kryptonite/Lilu.kext/umm_malloc/umm_malloc.c:285-344 | freeing keeps the invariant and ends the life of exactly one block |
| HeapLayout.AllocGood | Kryptonite/Lilu.kext/umm_malloc/umm_malloc.c:418-458 | both forms of allocation keep the invariant and make exactly c live, with k cells |
| HeapLayout.TakeBelowGood | Kryptonite/Lilu.kext/umm_malloc/umm_malloc.c:596-602 | absorbing the free block below keeps the invariant and replaces c by it among the live blocks |
| HeapLayout.TrimGood | Kryptonite/Lilu.kext/umm_malloc/umm_malloc.c:629-633 | split and free together keep the invariant and the live blocks, and leave c with k cells |
| HeapLayout.SizesAddUp | Kryptonite/Lilu.kext/umm_malloc/umm_malloc.c:129-652 | the block sizes along the chain add up to the number of cells it spans |
| HeapLayout.CellsConserved | Kryptonite/Lilu.kext/umm_malloc/umm_malloc.c:129-652 | free and used cells are disjoint and together are all cells between the two end cells |
| HeapLayout.LiveDisjoint | Kryptonite/Lilu.kext/umm_malloc/umm_malloc.c:348-474 | two live blocks never overlap |
| HeapLayout.AllocCells | Kryptonite/Lilu.kext/umm_malloc/umm_malloc.c:413-458 | allocation takes exactly the first k cells of the chosen block out of the free cells |
| HeapLayout.ReleaseCells | Kryptonite/Lilu.kext/umm_malloc/umm_malloc.c:191-344 | freeing gives back exactly the cells of the block, whatever merges happen |
| HeapLayout.MallocThenFree | Kryptonite/Lilu.kext/umm_malloc/umm_malloc.c:285-458 | freeing a block just allocated restores the partition into blocks, and the free list up to order |
| HeapLayout.AllFreed | Kryptonite/Lilu.kext/umm_malloc/umm_malloc.c:191-344 | with nothing live, the invariant leaves only the layout of umm_init |
| HeapImage.UnlinkStores | Kryptonite/Lilu.kext/umm_malloc/umm_malloc.c:175-184 | the three words rewritten by the unlinking turn an image of the layout into one of the layout without c: a circular doubly linked list again |
| HeapImage.AbsorbUpStores | Kryptonite/Lilu.kext/umm_malloc/umm_malloc.c:200-209 | the two header words of a merge keep the block chain and its inverse in step |
| HeapImage.MergeDownStores | Kryptonite/Lilu.kext/umm_malloc/umm_malloc.c:217-223 | the same for the merge with the block below, with either flag |
| HeapImage.SplitStores | Kryptonite/Lilu.kext/umm_malloc/umm_malloc.c:162-171 | the four header words of a split store the layout with one more block |
| HeapImage.SplitQuiet | Kryptonite/Lilu.kext/umm_malloc/umm_malloc.c:162-171 | a split writes into no live payload except the new block it makes |
| HeapImage.CarveStores | Kryptonite/Lilu.kext/umm_malloc/umm_malloc.c:442-457 | the eight words of split and relinking, of which some read what others have written, store the carved layout |
| HeapImage.LinkStores | Kryptonite/Lilu.kext/umm_malloc/umm_malloc.c:334-339 | the five words written at the list head store the layout with c in front |
| HeapImage.InitStores | Kryptonite/Lilu.kext/umm_malloc/umm_malloc.c:231-279 | the blank image stores the initial layout |
| HeapImage.PayloadWrite | Kryptonite/Lilu.kext/umm_malloc/umm_malloc.c:77-92 | any change confined to the payload of a live block keeps both linked structures and every other payload |
| HeapImage.ScanCell | Kryptonite/Lilu.kext/umm_malloc/umm_malloc.c:392-411 | the words the walk reads at list member i are its size and the next member, or 0 at the end |
| LzvnSpec.ClassifyIsJumpTable | Kryptonite/Lilu.kext/lzvn/lzvn.c:147-179 | the classification used by the reference is the 256-entry jump table |
| LzvnSpec.CopyMatchSplit | Kryptonite/Lilu.kext/lzvn/lzvn.c:534-573 | the byte-by-byte overlapping copy can be cut anywhere and continued |
| LzvnSpec.CopyMatchChunk | Kryptonite/Lilu.kext/lzvn/lzvn.c:546-553 | copying w <= D bytes at once is w steps of the byte-by-byte copy |
| LzvnSpec.ResumeInLiteral | Kryptonite/Lilu.kext/lzvn/lzvn.c:511-524 | the state saved in the middle of a literal, resumed, does the rest of the instruction |
| LzvnSpec.ResumeInMatch | Kryptonite/Lilu.kext/lzvn/lzvn.c:560-573 | the state saved in the middle of a match, resumed, does the rest of the instruction |
| LzvnSpec.ResumeRun | Kryptonite/Lilu.kext/lzvn/lzvn.c:193-205 | running from a suspended state ends as running from the start of the instruction does |
| LzvnSpec.RunExtends | Kryptonite/Lilu.kext/lzvn/lzvn.c:144-205 | a run never changes output it has already produced |
| LzvnSpec.Expansion | Kryptonite/Lilu.kext/lzvn/lzvn.c:611-686 | between any two instruction boundaries of a run, twice the output is at most 271 times the source consumed |
| LzvnSpec.RunShape | Kryptonite/Lilu.kext/lzvn/lzvn.c:144-814 | where and why a run stops does not depend on the bytes it puts out |
| LzvnSpec.RunFill | Kryptonite/Lilu.kext/lzvn/lzvn.c:593-637 | once a distance is in force, or if no match comes before one, a run does not depend on what the buffer held |
| LzvnSpec.RunShowsFill | Kryptonite/Lilu.kext/lzvn/lzvn.c:593-637 | if the first match has no distance of its own, two buffers give two outputs |
| LzvnSpec.FillMatters | Kryptonite/Lilu.kext/lzvn/lzvn.c:593-637 | the meaning of a stream depends on the stream alone if and only if no match-only opcode comes before the first distance, which a scan of the opcodes decides |
| LzvnDecode.Decoder.CopyLiteralWide | Kryptonite/Lilu.kext/lzvn/lzvn.c:697-702 | the eight-byte literal copy writes the literal, and at most seven bytes beyond it |
| LzvnDecode.Decoder.CopyMatchBytes | Kryptonite/Lilu.kext/lzvn/lzvn.c:554-559 | the byte loop is the overlapping copy; with distance 0 it changes nothing |
| LzvnDecode.Decoder.CopyMatchWide | Kryptonite/Lilu.kext/lzvn/lzvn.c:546-553 | with D >= 8 the eight-byte loop, slop included, gives the same bytes as the overlapping copy |
| LzvnDecode.Decoder.EmitMatch | Kryptonite/Lilu.kext/lzvn/lzvn.c:534-577 | whole match, or as much as fits with the rest saved in L, M, D; either path; distance 0 leaves the buffer as it is |
| LzvnDecode.Decoder.EmitShortLiteral | Kryptonite/Lilu.kext/lzvn/lzvn.c:488-528 | the four-byte copy, the byte copy and the suspended copy of a short literal agree with the literal |
| LzvnDecode.Decoder.EmitLiteral | Kryptonite/Lilu.kext/lzvn/lzvn.c:688-726 | the same for a literal-only opcode |
| LzvnDecode.Decoder.CopyLiteralAndMatch | Kryptonite/Lilu.kext/lzvn/lzvn.c:488-583 | the shared code for literal and match refines the reference step: completes it, rejects its distance, or suspends in a state that resumes to it |
| LzvnDecode.Decoder.DecodeOne | Kryptonite/Lilu.kext/lzvn/lzvn.c:227-814 | one instruction in place refines one reference step, touches only the room after dstPtr, and says which part of the state was saved |
| LzvnDecode.Decoder.Resume | Kryptonite/Lilu.kext/lzvn/lzvn.c:196-205 | a call that finds a suspended instruction finishes it as the reference would |
| LzvnDecode.Decoder.Decode | Kryptonite/Lilu.kext/lzvn/lzvn.c:144-819 | for every stream and every saved state: all accesses in bounds, nothing outside the free room written, and the state left behind is on the reference run, at the end of it, at a boundary of it, or suspended on the way to the same end; 2 * output <= 271 * source for a call from a boundary; a match before any distance counts the bytes the buffer held as output |
| LzvnDecode.Decoder.DecodeInSteps | Kryptonite/Lilu.kext/lzvn/lzvn.c:193-205 | for a stream that ends properly and any increasing destination limits, chained calls give exactly the prefix of the unlimited run, and its final state as soon as the last limit has room for the whole output |
| LzvnDecode.DecodeBuffer | Kryptonite/Lilu.kext/lzvn/lzvn.c:821-841 | for every stream and buffer: how many bytes are returned: the reference output cut to the buffer if the stream ends properly or is cut off in an instruction, the output before the last instruction if an undefined opcode or a cut off end marker follows, that output or a full buffer if a distance is bad; they are the reference output; the bytes of a first match without a distance are those the buffer held |
| LzvnDecode.EarlyMatchExample | Kryptonite/Lilu.kext/lzvn/lzvn.c:593-621 | on f1 followed by the end marker the decoder returns one byte, and it is the byte that was in the buffer |
| LzvnEncode.StepEncoded | Kryptonite/Lilu.kext/lzvn/lzvn.c:350-686 | each documented bit layout, read back, does what the instruction means |
| LzvnEncode.RoundTrip | Kryptonite/Lilu.kext/lzvn/lzvn.c:350-767 | decoding the bytes of any legal instruction sequence from any boundary gives its expansion, uses up the source and ends at the end marker |
| LzvnEncode.EncodeThenDecode | Kryptonite/Lilu.kext/lzvn/lzvn.c:350-767 | the round trip from a fresh state |
| LzvnEncode.DecodeEncoded | Kryptonite/Lilu.kext/lzvn/lzvn.c:821-841 | the decoder itself, given the bytes of any legal instruction sequence, returns its expansion as far as the buffer goes |
| LzvnCuts.ParseExactly | Kryptonite/Lilu.kext/lzvn/lzvn.c:147-814 | for every source and position, from the jump table and the documented layouts alone: an instruction exactly if one of the layouts stands there with a byte after it, and then with its fields; the end marker exactly if opcode 6 has eight bytes; undefined exactly if the table says so; a truncated end marker exactly if opcode 6 has fewer than eight; truncated in all other cases |
| LzvnCuts.LegalExactly | Kryptonite/Lilu.kext/lzvn/lzvn.c:488-533 | which encoded instructions the decoder carries out: those with a distance test exactly if the match refers to bytes that are there, the others always; the notion of legality used below is this one |
| LzvnCuts.CutRun | Kryptonite/Lilu.kext/lzvn/lzvn.c:350-767 | the reference run of an encoding cut off inside instruction k, or right behind it, is the expansion of the first k instructions |
| LzvnCuts.DecodeCut | Kryptonite/Lilu.kext/lzvn/lzvn.c:821-841 | given such a stream the decoder returns the whole expansion of the first k instructions, as far as the buffer goes |
| LzvnCuts.MarkerCutRun | Kryptonite/Lilu.kext/lzvn/lzvn.c:753-767 | the reference run of an encoding cut off inside the end marker stops there with all the output, and which state comes before the last instruction |
| LzvnCuts.DecodeCutMarker | Kryptonite/Lilu.kext/lzvn/lzvn.c:753-841 | given such a stream the decoder takes the last instruction back: it returns the expansion of all the others, if there was room for all of them |
| Sha256Spec.ZeroCountLeast | Kryptonite/Lilu.kext/sha256/sha256.c:119-131 | the padding uses the least number of zero bytes that reaches 56 modulo 64 |
| Sha256Spec.PadWhole | Kryptonite/Lilu.kext/sha256/sha256.c:119-143 | a padded message is a whole number of blocks |
| Sha256Spec.PadOneBlock | Kryptonite/Lilu.kext/sha256/sha256.c:120-124 | with fewer than 56 bytes pending, padding fills up one block |
| Sha256Spec.PadTwoBlocks | Kryptonite/Lilu.kext/sha256/sha256.c:125-131 | with 56 or more pending, padding fills up one block and adds a second |
| Sha256Spec.BitCount | Kryptonite/Lilu.kext/sha256/sha256.c:98-142 | the running bit count, modulo 2^64, is that of the whole message |
| Sha256Spec.BitLengthExact | Kryptonite/Lilu.kext/sha256/sha256.c:107-134 | the length that is appended is eight times the number of bytes, exactly below 2^64 bits and modulo 2^64 beyond |
| Sha256Words.RotBit | Kryptonite/Lilu.kext/sha256/sha256.c:21 | bit i of a rotation by n places is bit (i + n) modulo 32 of the word, for all n |
| Sha256Words.SigmaBits | Kryptonite/Lilu.kext/sha256/sha256.c:25-28 | bit i of each of the four sigma functions is the parity of the three bits that section 4.1.2 of FIPS 180-4 names |
| Sha256Words.ChSelects | Kryptonite/Lilu.kext/sha256/sha256.c:23 | Ch has the bits of y where x has ones and those of z elsewhere |
| Sha256Words.MajVotes | Kryptonite/Lilu.kext/sha256/sha256.c:24 | Maj has the bits that its first two arguments share |
| Sha256Words.MajSymmetric | Kryptonite/Lilu.kext/sha256/sha256.c:24 | and is the same for the arguments in any order |
| Sha256Words.Macros | Kryptonite/Lilu.kext/sha256/sha256.c:21-28 | EP0, EP1, SIG0 and SIG1, written with shifts, are those sigma functions on every word |
| Sha256Words.WordBytes | Kryptonite/Lilu.kext/sha256/sha256.c:48 | the bytes written for a word read from four bytes are those bytes |
| Sha256Words.WordOfBytes | Kryptonite/Lilu.kext/sha256/sha256.c:147-155 | and the word read from the bytes written for a word is that word |
| Sha256Words.Bytes64Value | Kryptonite/Lilu.kext/sha256/sha256.c:135-142 | the eight length bytes are the base 256 digits of the length, most significant first |
| Sha256Constants.PrimeTable | Kryptonite/Lilu.kext/sha256/sha256.c:31-40 | the 64 numbers used below are the first 64 primes in order |
| Sha256Constants.RoundConstants | Kryptonite/Lilu.kext/sha256/sha256.c:31-40 | k[t] is the first 32 bits of the fractional part of the cube root of the t-th prime, for every t |
| Sha256Constants.InitialHash | Kryptonite/Lilu.kext/sha256/sha256.c:88-95 | the initial state is the first 32 bits of the fractional parts of the square roots of the first eight primes |
| Sha256Abc.AbcDigest | Kryptonite/Lilu.kext/sha256/sha256.c:43-157 | the digest of the message abc is the one that FIPS 180-4 has as its example, ba7816bf to f20015ad, word by word of the schedule and round by round |
| Sha256Abc.HashAbc | Kryptonite/Lilu.kext/sha256/sha256.c:84-157 | and the streaming implementation returns these bytes, the message given in two pieces |
| Sha256.Context.Init | Kryptonite/Lilu.kext/sha256/sha256.c:84-96 | an empty context stands for the empty message |
| Sha256.Context.Schedule | Kryptonite/Lilu.kext/sha256/sha256.c:47-50 | the schedule array holds W of section 6.2.2 of FIPS 180-4 at every index |
| Sha256.Context.Transform | Kryptonite/Lilu.kext/sha256/sha256.c:43-82 | the eight rotating variables compute the compression function of section 6.2.2 of FIPS 180-4 |
| Sha256.Context.UpdateByte | Kryptonite/Lilu.kext/sha256/sha256.c:102-110 | one more byte, whether or not it fills the block, extends the absorbed message by that byte |
| Sha256.UpdateEnds | Kryptonite/Lilu.kext/sha256/sha256.c:98-110 | the loop of sha256_update ends if and only if the input has fewer than 2^32 bytes |
| Sha256.Context.Update | Kryptonite/Lilu.kext/sha256/sha256.c:98-111 | extends the absorbed message by the input, for any number of buffered bytes |
| Sha256.Context.Finish | Kryptonite/Lilu.kext/sha256/sha256.c:117-143 | both padding branches bring the state to the hash of the padded message |
| Sha256.Context.PutHash | Kryptonite/Lilu.kext/sha256/sha256.c:145-156 | the output loop writes the eight words most significant byte first, and nothing else |
| Sha256.Context.Final | Kryptonite/Lilu.kext/sha256/sha256.c:113-157 | the 32 bytes written are the SHA-256 digest of everything absorbed |
| Sha256.HashChunks | Kryptonite/Lilu.kext/sha256/sha256.c:84-157 | however a message is cut into updates, the result is the digest of the concatenation |
| Capstone.Tiles | Kryptonite/Lilu.kext/capstone/cs.c:672-794 | every entry of a listing starts where the entries before it end, has as address the start address plus the bytes before it modulo 2^64, and is what the decoder says of the bytes there: the id and length it reports, or id 0 and the skip length where it fails and skipdata is on; it carries the last bytes of its own range, sixteen at most |
| Capstone.ListingSuffix | Kryptonite/Lilu.kext/capstone/cs.c:755-794 | what follows the first k entries is the listing of the bytes they leave over |
| Capstone.Complete | Kryptonite/Lilu.kext/capstone/cs.c:743-794 | a listing is as long as was asked for, or ends exactly where the decoder fails and nothing may be skipped |
| Capstone.ListingDisassembles | Kryptonite/Lilu.kext/capstone/cs.c:672-794 | so every listing is a disassembly: instructions that lie end to end from the start, each given by the decoder at its own place and address, up to the count or to where the decoder is stuck |
| Capstone.DisassemblyUnique | Kryptonite/Lilu.kext/capstone/cs.c:672-794 | a decoder, an input and a count leave exactly one such sequence, details aside |
| Capstone.DisasmIter | Kryptonite/Lilu.kext/capstone/cs.c:873-963 | one step yields what the decoder says of the next bytes, takes exactly those bytes off the input and moves the address on by their number modulo 2^64; it fails exactly where the decoder fails and nothing may be skipped, and then the cursor stays |
| Capstone.FillSlot | Kryptonite/Lilu.kext/capstone/cs.c:672-753 | fills slot c with the next entry and allocates at most one detail for it, or frees that detail and stops |
| Capstone.GrowWraps | Kryptonite/Lilu.kext/capstone/cs.c:764-767 | growth by 8/5 is exact if and only if the cache is smaller than 2^29; at 2^29 it gives 0 |
| Capstone.GrowExact | Kryptonite/Lilu.kext/capstone/cs.c:764-767 | growth by 8/5 stays exact in 32 bits for buffers of up to 1431655752 entries, because the last cache is a limited share of the buffer |
| Capstone.Reserve | Kryptonite/Lilu.kext/capstone/cs.c:764-789 | capacity stays c - f + cache_size with f < cache_size through every growth step; entries survive, and failure frees everything |
| Capstone.Trim | Kryptonite/Lilu.kext/capstone/cs.c:796-823 | the returned array has exactly c entries; nothing decoded or no memory leaves nothing allocated |
| Capstone.Disasm | Kryptonite/Lilu.kext/capstone/cs.c:617-824 | for every decoder, input, count and pattern of allocation failures: the entries are a disassembly of the input in the above sense, n of them in an array of n, each live detail owned by exactly one of them and none without detail mode, and after a failure nothing is left allocated |
| Capstone.FreeDetails | Kryptonite/Lilu.kext/capstone/cs.c:770-774 | frees each detail of the first c entries once |
| Capstone.FreeListing | Kryptonite/Lilu.kext/capstone/cs.c:833-844 | cs_free returns memory to what it was before cs_disasm |
| Capstone.DisasmAndFree | Kryptonite/Lilu.kext/capstone/cs.c:617-844 | cs_disasm and cs_free leak no block and free none twice |
| Capstone.IterateAll | Kryptonite/Lilu.kext/capstone/cs.c:672-963 | repeated cs_disasm_iter lists the same id, address, size and bytes as one cs_disasm: both are that one disassembly |
| Hde64Table.OneByteTable | Kryptonite/Lilu.kext/hde/table64.h:37-54 | what each of the 256 one-byte opcodes is followed by, which of them are errors and which group forms are missing, by ranges of opcodes; the two-level table says exactly that |
| Hde64Table.TwoByteTable | Kryptonite/Lilu.kext/hde/table64.h:42-54 | the same for the 256 two-byte opcodes |
| Hde64Table.PrefixTable | Kryptonite/Lilu.kext/hde/table64.h:59-66 | the prefixes that each two-byte opcode forbids, by ranges of opcodes, are those of the table |
| Hde64Table.CflagsKnown | Kryptonite/Lilu.kext/hde/table64.h:10-73 | over all 512 opcodes only ten flag combinations occur, F6 and F7 have a lone ModRM, and only ENTER has two immediates |
| Hde64Table.PrefixIndex | Kryptonite/Lilu.kext/hde/table64.h:37-73 | the two-level index into the prefix table stays in the table |
| Hde64.ReadPrefixes | Kryptonite/Lilu.kext/hde/hde64.c:23-53 | the prefix loop keeps the last byte and the flag of every kind, and stops at the first non-prefix or at the sixteenth byte |
| Hde64.LockAllowed | Kryptonite/Lilu.kext/hde/hde64.c:136-151 | the walk with stride two ends at an entry or exactly on table_end, and allows LOCK if and only if the first entry for the opcode does |
| Hde64.OnlyMemory | Kryptonite/Lilu.kext/hde/hde64.c:188-204 | the walk with stride three likewise, for opcodes that take only memory operands |
| Hde64.ReadMemory | Kryptonite/Lilu.kext/hde/hde64.c:234-276 | SIB and displacement are read back unchanged, and their size is the one ModRM, SIB and the address-size prefix call for |
| Hde64.ReadImmediate | Kryptonite/Lilu.kext/hde/hde64.c:280-322 | for every flag combination that occurs, the jumps between the immediate blocks read one immediate of the right size, or the two of ENTER |
| Hde64.Disasm | Kryptonite/Lilu.kext/hde/hde64.c:15-332 | for every 32 bytes: no read beyond them and no table index out of range; every field of the record is the part of the bytes it stands for, and 0 where that part is absent; the flags are exactly those that the prefixes, the table and the operand bytes call for; len is the sum of the parts the flags announce, or 15 with the length error |
| Hde64Map.GroupForms | Kryptonite/Lilu.kext/hde/hde64.c:95-117 | the missing forms of the groups as opcodes and register fields |
| Hde64Map.LockForms | Kryptonite/Lilu.kext/hde/hde64.c:132-156 | a LOCK prefix is an error exactly on a register operand and on a form outside a list of opcodes and register fields |
| Hde64Map.MemoryForms | Kryptonite/Lilu.kext/hde/hde64.c:188-204 | the one-byte forms that have no register operand, as opcodes and register fields |
| Hde64Map.MemoryForms2 | Kryptonite/Lilu.kext/hde/hde64.c:188-204 | the two-byte forms that have no register operand, as opcodes, register fields and prefixes |
| Hde64Map.FpuForms | Kryptonite/Lilu.kext/hde/hde64.c:119-130 | the forms of D9 to DF that do not exist, as opcodes and ModRM fields |
| Hde64Map.PrefixSet | Kryptonite/Lilu.kext/hde/hde64.c:23-48 | the bytes that count as prefixes and as segment overrides |
| Hde64Map.PrefixFlagsSay | Kryptonite/Lilu.kext/hde/hde64.c:23-55 | each prefix flag is set exactly if its byte is among the leading prefixes |
| Hde64Map.FlagsByMap | Kryptonite/Lilu.kext/hde/hde64.c:60-322 | the flags found with the tables are those of the maps above, for every opcode, ModRM byte and set of prefixes |
| Hde64Map.RecordByMap | Kryptonite/Lilu.kext/hde/hde64.c:15-332 | so the flags, and with them the length, of every decoded record follow from the leading prefixes, the opcode maps and the ModRM and SIB bytes, without the table |
| Hde64Records.RecordUnique | Kryptonite/Lilu.kext/hde/hde64.c:15-332 | those conditions fix the record and the length: no two records meet them for the same bytes |
| Hde64Records.FlagsConsistent | Kryptonite/Lilu.kext/hde/hde64.c:84-331 | for every instruction: Error exactly with one of its four reasons; SIB, displacement and operand errors only with ModRM, a LOCK error only with LOCK; at most one displacement; one immediate, or two exactly for ENTER; a relative operand is an immediate of at most four bytes |
| Hde64Records.PartsAreBytes | Kryptonite/Lilu.kext/hde/hde64.c:60-322 | REX, opcode, ModRM, SIB, displacement and immediate of a record, put together, are the bytes after the prefixes, unless there are two REX bytes or the opcode is ENTER |
| Hde64Records.BytesRecoverable | Kryptonite/Lilu.kext/hde/hde64.c:60-322 | every instruction with this record has these bytes after its prefixes, if and only if this is neither a double REX nor ENTER |
| Hde64Records.DoubleRexTwin | Kryptonite/Lilu.kext/hde/hde64.c:60-71 | the second of two REX bytes can be any other without changing the record |
| Hde64Records.EnterTwin | Kryptonite/Lilu.kext/hde/hde64.c:303-312 | the byte after an ENTER opcode can be any other without changing the record |
| Hde64Records.DoubleRexExample | Kryptonite/Lilu.kext/hde/hde64.c:60-71 | the decoder gives 48 48 and 48 49 the same record |
| Hde64Records.EnterExample | Kryptonite/Lilu.kext/hde/hde64.c:303-312 | the decoder gives c8 01 02 03 and c8 ff 02 03 the same record |

## Left out

- The Kryptonite plug-in itself: flags, patches and hooks around Lilu and IOKit calls that are not part of this model.
- hde32: a near copy of hde64 that would add only easy members.
- The first-fit policy of umm_malloc, which the build does not select.
- The critical-section macros and logging of umm_malloc: the macros are empty in this build.
- Pointers that the allocator never gave out, and double frees: callers of umm_free and umm_realloc must pass NULL or a live block.
- UmmHeap.Heap.Calloc: requires a total of at most 8 * 65535 - 4 bytes, or one that umm_malloc refuses, because the memset of a larger block would leave the heap (CallocOverruns).
- UmmHeap.Heap.MoveWords: memmove and memcpy are word loops; every size they are used with is a whole number of words.
- LzvnDecode.Decoder.DecodeInSteps: is stated for streams that reach the end marker, since a suspended instruction whose distance turns out bad no longer knows where it began.
- The computed-goto and the switch form of the LZVN dispatch are one classification here.
- Sha256.Context.Update: requires an input of fewer than 2^32 bytes, since the loop does not end on others; messages of 2^64 bits or more, which the standard excludes, get their length modulo 2^64.
- Capstone.Disasm: requires fewer than 1431655752 bytes or at most as many entries asked for, where the 32-bit growth arithmetic is exact; ARM's IT block, the skipdata callback, mnemonics and operand text are not modelled, and the decoder is a function of the remaining bytes and the address.
- Capstone's cs_open, cs_option, cs_close, the register and group queries, and printing.
- Hde64.Disasm: the record is a value that each stage returns changed, not memory updated in place, and its flags are a set instead of a bit mask. It says nothing about the processor manuals; the code has its own rules for the address-size prefix and for the two-byte opcodes F6 and F7.

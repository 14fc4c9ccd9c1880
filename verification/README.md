# Verified models of three components of `divers`

This project models, in Dafny, the three components of the repository that carry real invariants,
and proves what they promise.

**The fixed-size pool allocator** (`heap_pool/`). One mapping holds a descriptor, an index array, an
alignment gap and the chunks; before each chunk lies a word with the chunk's own number.
`Words.dfy` has the bit-mask macros, `PoolLayout.dfy` the size and offset arithmetic of
`heap_pool_create`, `PoolRequest.dfy` what a request asks for, said without that arithmetic, `ByteStore.dfy` byte memory with 64-bit little-endian words at any offset,
`PoolSpec.dfy` the byte-level effect of alloc and free and the abstract last-in-first-out pool they
refine, `PoolRuns.dfy` whole runs of allocs, frees and client writes, and `HeapPool.dfy` the pool
object with `heap_pool_create`, `heap_pool_alloc`, `heap_pool_free` and client writes updating one
byte array in place. The descriptor, the free list, the back-index words and the payloads all live in that one
array, so the layout lemmas are what keeps client writes from damaging the allocator.

**The double-buffered reader/writer protocol** (`double_buffering/`). `Protocol.dfy` is a step system:
one main thread, `nr` reader threads, a job channel per reader, one shared acknowledgement channel,
two banks per reader; every send, receive, fill, acknowledgement and writer visit is a step of its
own and all interleavings are allowed. `ProtocolInv.dfy` proves the invariant, `ProtocolTheorems.dfy`
what the writer sees, `ProtocolText.dfy` what it prints, to the last byte, `ProtocolLiveness.dfy` that the system never blocks and always ends, and
`EceWorker.dfy` runs the source's own loops (`work`, `wait_readers`, `send_work`, `process_writer`,
`drop`) with reader threads interleaved between any two operations, each operation being a step of
the system. The scope is one `work` call on a fresh worker followed by `drop`.

**The intrusive sorted list and n-ary tree** (`tad/`). `Ordering.dfy` says what ordered insertion
builds, `SList.dfy` and `NTree.dfy` are the pointer structures with the macros as methods that
overwrite `next`, `parent` and `child`.

Choices that hold throughout: words are 64 bits, the descriptor is built without debug hooks (72
bytes), `CHUNK_EXTRA_SIZE` is a parameter (0 or 4), mmap either fails or yields a zeroed page-aligned
region, files are byte sequences, a read returns a contiguous piece no longer than the buffer and an
empty one only at the end of the file, and comparators are functions of the nodes whose payload does
not change.

The invariants are not empty: `HeapPools.HeapPool.Create` ends in a mapping that represents the fresh
pool, and `ProtocolInv.InitInv` shows that the state in which `work` is called satisfies the protocol's.

Results that contradict expectations one may have of the code:

- A pool created for `nb` elements can have `nb - 1`, even none for `nb = 1` (`ElementCountExact`,
  `OneElementShort`).
- With no alignment requested the default of one word holds only for element sizes that are whole
  words (`DefaultAlignmentExact`, `DefaultAlignmentFails`).
- An alignment above the page size is accepted, yet for every such alignment some request places its
  only chunk beyond the mapping (`AlignAbovePageOverruns`), while others fit (`AlignAbovePageCanFit`).
  For any request the parts lie inside the mapping exactly when there is no chunk or the gap before
  chunk 0 is at most the remainder of the element-count division plus one hole (`PartsInsideExactly`);
  a caller who does not know where the mapping will lie has the worst gap in closed form
  (`AnyBaseExactly`). Up to the page size the condition always holds (`PlanIsWellFormed`).
- `work` prints whole buffers. With full reads what it prints of a file is the content it read exactly
  if the file is at least as long as all the rounds together (`PrintedExceedsContent`), hence never
  for the last file (`LastPrintedStale`, for any reads), which comes out followed by what its last
  buffer held before (`LastFilePrinted`). It stops with the last reader, so longer
  files of other readers are cut (`ContentDelivered`).
- A removed node keeps its `next`; `ntree_insert_child` under a childless father does not clear it, so
  the result is a child list exactly if that pointer was null (`InsertChild`), and putting back the
  first of two removed children brings the second back too (`ReinsertFirst`).
- The comment at heap_pool/heap_pool.h:58-65 says that the entry of the index array at the first free
  index holds the element to hand out. The code hands out that index itself and uses the entry as the
  next free one; the model follows the code.

## Model

| member | source | states |
|---|---|---|
| `Words.AlignMaskIsLeastMultiple` | heap_pool/heap_pool.c:33 | for every power of two and every value short of overflow, the mask expression is the least multiple not below the value |
| `Words.IsPow2MacroExact` | heap_pool/heap_pool.c:115 | the macro accepts exactly the powers of two and, besides, 0 (which the caller filters out) |
| `PoolLayout.NewAlignmentIsMax` | heap_pool/heap_pool.c:117-128 | for a power of two, the new alignment is the larger of the word size and the request, and again a power of two |
| `PoolLayout.HoleFacts` | heap_pool/heap_pool.c:150-159 | the hole holds at least the back word, costs less than one alignment beyond it, and makes the stride a multiple of the requested alignment |
| `PoolRequest.HoleIsLeast` | heap_pool/heap_pool.c:154-160 | it is the least hole with room for the back word that keeps the requested alignment from chunk to chunk |
| `PoolRequest.MappingIsLeast` | heap_pool/heap_pool.c:161-163 | the mapping is the least number of whole pages that holds the descriptor, one alignment and the requested elements, the last without its hole |
| `PoolRequest.CountIsGreatest` | heap_pool/heap_pool.c:192-194 | the element count is the greatest for which as many index entries, holes and chunks fit beside the descriptor and one alignment |
| `PoolRequest.PlanExactly` | heap_pool/heap_pool.c:150-218 | of all layouts exactly one meets the request (its sizes, least hole, least mapping, greatest count, first aligned chunk), and it is the one create computes |
| `PoolRequest.TenOf128` | heap_pool/heap_pool.c:150-218 | ten elements of 128 bytes on 4096-byte pages: one page, 27 elements, stride 136, chunk 0 at 296 |
| `PoolLayout.FirstChunkFacts` | heap_pool/heap_pool.c:206-215 | chunk 0 is aligned and lies at least one, and less than two, alignments after the index array |
| `PoolLayout.PlanIsWellFormed` | heap_pool/heap_pool.c:150-230 | for every alignment up to the page size the index array, gap, holes and chunks fit inside the mapping, although the gap can exceed what the element count charges for |
| `PoolLayout.EndOfSlots` | heap_pool/heap_pool.c:190-218 | the pointer of the creation loop stops beyond the end of the mapping by the gap minus the remainder of the element-count division |
| `PoolLayout.PartsInsideExactly` | heap_pool/heap_pool.c:150-230 | for any alignment, all parts lie inside the mapping iff there is no chunk or the gap is at most that remainder plus one hole |
| `PoolLayout.WellFormedExactly` | heap_pool/heap_pool.c:150-230 | the same condition is exactly what makes the layout one on which alloc and free are proved |
| `PoolLayout.AnyBaseExactly` | heap_pool/heap_pool.c:180-215 | a request is inside its mapping at every page-aligned address iff the worst gap, in closed form, is paid for |
| `PoolLayout.PartsDisjoint` | heap_pool/heap_pool.h:55-75 | descriptor, index entries, back words and chunks with debug bytes are pairwise disjoint and inside the mapping |
| `PoolLayout.NthChunkIsVisited` | heap_pool/heap_pool.h:160-161 | the address computed by multiplication is the pointer the creation loop reached by repeated addition |
| `PoolLayout.ChunksAligned` | heap_pool/heap_pool.c:218-230 | every chunk address is a multiple of the requested alignment |
| `PoolLayout.DefaultAlignmentExact` | heap_pool/heap_pool.c:150-155 | with no alignment requested, all chunks of a pool of two or more are word aligned iff the chunk size is a whole number of words |
| `PoolLayout.DefaultAlignmentFails` | heap_pool/heap_pool.c:150-155 | a concrete accepted request without alignment whose chunk 1 is off a word |
| `PoolLayout.ElementCountExact` | heap_pool/heap_pool.c:161-194 | the pool has at least the requested count iff page rounding adds at least one hole, and otherwise exactly one element less |
| `PoolLayout.OneElementShort` | heap_pool/heap_pool.c:161-194 | a concrete accepted request for one element that yields none |
| `PoolLayout.GapExceedsCharge` | heap_pool/heap_pool.c:206-211 | a concrete request whose gap before chunk 0 is one word short of two alignments |
| `PoolLayout.AlignAbovePageOverruns` | heap_pool/heap_pool.c:150-215 | for every page size from 128 on and every larger power-of-two alignment, a one-element request whose only chunk ends beyond the mapping |
| `PoolLayout.AlignAbovePageCanFit` | heap_pool/heap_pool.c:150-215 | a concrete request with an alignment above the page size that is safe at every address |
| `PoolSpec.AllocRefines` | heap_pool/heap_pool.h:168-183 | alloc pops the abstract free list, keeps the representation, and fails iff no chunk is free |
| `PoolSpec.FreeRefines` | heap_pool/heap_pool.h:187-195 | free of a held chunk finds its index before the address, pushes it, and keeps the representation |
| `PoolSpec.WriteRefines` | heap_pool/heap_pool.h:160-161 | a client write inside a payload changes that payload and nothing else of the pool |
| `PoolSpec.ChainVisitsFree` | heap_pool/heap_pool.h:164-195 | following the index array from the first free index visits, once each, exactly the chunks not held, as many as are counted free, and ends at the element count |
| `PoolSpec.PoolUnique` | heap_pool/heap_pool.h:76-97 | the bytes of a mapping determine the abstract pool |
| `PoolSpec.AllocFreeRestores` | heap_pool/heap_pool.h:168-195 | freeing the chunk just allocated restores the whole mapping byte for byte |
| `PoolSpec.FreeAllocReturns` | heap_pool/heap_pool.h:168-195 | allocating right after a free returns the same address and changes at most the freed chunk's own index entry |
| `PoolSpec.HeldPlusNbFree` | heap_pool/heap_pool.h:164 | the allocation count in the bytes is the number of chunks held, and with heap_pool_nb_free they make up the element count |
| `PoolRuns.RunRefines` | heap_pool/heap_pool.h:164-195 | over every legal run of allocs, frees and client writes the bytes stay a pool and every answer is the abstract allocator's |
| `PoolRuns.RunsAreSafe` | heap_pool/heap_pool.h:164-195 | as the client sees it, no address is handed out while held, failure means all are held, and addresses held plus the free count make up the element count |
| `PoolRuns.WrittenIsReadBack` | heap_pool/heap_pool.h:168-195 | a payload keeps what was written to it through any later run without another write to it |
| `PoolRuns.GuardsSurvive` | heap_pool/heap_pool.c:218-224 | in a debug build no legal run touches the guard byte after a payload |
| `PoolRuns.CreatedDescriptor` | heap_pool/heap_pool.c:190-215 | at any time the descriptor's bytes of a created pool, read back, are the one layout that meets the request, and every payload has the requested size |
| `PoolRuns.CreatedWriteRead` | heap_pool/heap_pool.h:160-195 | a holder can write as many bytes as it asked for and reads them back after any later run without another write there |
| `PoolRuns.LastFreedFirst` | heap_pool/heap_pool.h:168-195 | after any batch of frees, as many allocs return the chunks in the opposite order |
| `PoolRuns.FirstAllocations` | heap_pool/heap_pool.c:199-223 | a fresh pool hands out chunks 0, 1, 2, ... in order |
| `PoolRuns.CreatedPoolIsSafe` | heap_pool/heap_pool.c:130-239 | all of this for every run of a pool that create built, whatever the alignment, with every returned address aligned as requested and followed by the requested size inside the mapping |
| `HeapPools.AllocInPlace` | heap_pool/heap_pool.h:168-183 | the statements of alloc on the byte array compute the byte-level alloc and its answer |
| `HeapPools.FreeInPlace` | heap_pool/heap_pool.h:187-195 | the statements of free on the byte array compute the byte-level free |
| `HeapPools.Initialise` | heap_pool/heap_pool.c:190-230 | the descriptor stores and the linking loop turn a zeroed mapping into the fresh pool, with every guard byte set in a debug build |
| `HeapPools.HeapPool.Create` | heap_pool/heap_pool.c:130-239 | rejects exactly the alignments that are no power of two, reports a failed mapping, and otherwise returns a fresh pool of the one layout that meets the request, for every request whose parts lie inside the mapping |
| `HeapPools.HeapPool.Alloc` | heap_pool/heap_pool.h:168-183 | keeps the pool valid and returns the chunk freed last, or -ENOMEM iff none is free |
| `HeapPools.HeapPool.Free` | heap_pool/heap_pool.h:187-195 | keeps the pool valid and makes the chunk the next to be handed out |
| `HeapPools.HeapPool.Write` | heap_pool/heap_pool.h:160-161 | a client's store into a payload it holds keeps the pool valid and changes that payload only |
| `HeapPools.HeapPool.FreeCount` | heap_pool/heap_pool.h:164 | the number of free chunks |
| `ProtocolInv.StepKeeps` | double_buffering/dblbuffering/src/lib.rs:241-311 | every step of every thread keeps the protocol's invariant |
| `ProtocolInv.ReachableInv` | double_buffering/dblbuffering/src/lib.rs:293-311 | every state reached in any interleaving satisfies it |
| `ProtocolInv.LastAckIsEveryones` | double_buffering/dblbuffering/src/lib.rs:165-173 | taking the last of the unattributed acknowledgements of a round means every reader acknowledged it and none is left over |
| `ProtocolTheorems.AcksSuffice` | double_buffering/dblbuffering/src/lib.rs:165-173 | when the wait for a round returns, every reader has made and acknowledged each round's read exactly once and is idle |
| `ProtocolTheorems.WriterSeesItsRound` | double_buffering/dblbuffering/src/lib.rs:215-228 | while the writer processes round k, the bank it looks at in each reader holds that reader's k-th read |
| `ProtocolTheorems.NoFillUnderWriter` | double_buffering/dblbuffering/src/lib.rs:271-285 | no reader step possible meanwhile touches any bank the writer looks at |
| `ProtocolTheorems.FillNeedsRequest` | double_buffering/dblbuffering/src/lib.rs:271-305 | a reader's n-th read happens only after the request of round n was sent |
| `ProtocolTheorems.OverwrittenWasSeen` | double_buffering/dblbuffering/src/lib.rs:271-310 | a reader starts its read n only after the writer finished round n - 2 and saw that read, whose bank alone read n overwrites |
| `ProtocolTheorems.SeenIsPrefix` | double_buffering/dblbuffering/src/lib.rs:215-228 | at every moment, what the writer saw of a reader, concatenated, is a prefix of its file |
| `ProtocolTheorems.RoundsProcessed` | double_buffering/dblbuffering/src/lib.rs:300-310 | with full reads exactly L / capacity + 1 rounds are processed for a last file of length L |
| `ProtocolTheorems.ContentDelivered` | double_buffering/dblbuffering/src/lib.rs:215-310 | with full reads each reader's file is seen up to rounds times capacity bytes, hence wholly iff it is no longer than that, and the last one always |
| `ProtocolTheorems.PrintedWhileFull` | double_buffering/dblbuffering/src/lib.rs:218-224 | with full reads, at every moment what is printed of a reader is what was read iff its file fills every buffer printed so far |
| `ProtocolTheorems.PrintedExceedsContent` | double_buffering/dblbuffering/src/lib.rs:215-310 | with full reads, when work returns what was printed of a file is what was read of it iff the file is at least rounds times capacity bytes long, which the last one never is |
| `ProtocolTheorems.LastPrintedStale` | double_buffering/dblbuffering/src/lib.rs:215-310 | whatever the reads return, what was printed of the last file is not its content |
| `ProtocolText.PrintedText` | double_buffering/dblbuffering/src/lib.rs:215-285 | whatever the reads return, the text printed in round n is the n-th read followed by the rest of what round n - 2 printed, or by the zeros of a fresh bank before round 2 |
| `ProtocolText.PrintedFromFile` | double_buffering/dblbuffering/src/lib.rs:215-285 | with full reads, the text of every round from the file alone: its n-th piece, then once the short rest over the text of two rounds before, then those two texts in turn |
| `ProtocolText.LastFilePrinted` | double_buffering/dblbuffering/src/lib.rs:215-310 | with full reads, all that work prints of the last file is the file followed by exactly the stale rest of its last buffer, zeros for a file shorter than a buffer |
| `ProtocolTheorems.AckCarriesRead` | double_buffering/dblbuffering/src/lib.rs:271-284 | the acknowledgement of read n carries the offset of round n and the number of bytes read |
| `ProtocolTheorems.OffsetIsPosition` | double_buffering/dblbuffering/src/lib.rs:195-213 | with full reads a request is answered from the offset it carries, or from the end of a shorter file |
| `ProtocolTheorems.OneTrailingJob` | double_buffering/dblbuffering/src/lib.rs:300-310 | when work returns, each reader has exactly one trailing request: queued, in progress, or acknowledged and unconsumed |
| `ProtocolTheorems.FinishBehindOne` | double_buffering/dblbuffering/src/lib.rs:150-161 | the order to finish queues behind at most one trailing read request |
| `ProtocolLiveness.NeverBlocks` | double_buffering/dblbuffering/src/lib.rs:241-311 | in every reachable state before the end some thread can step |
| `ProtocolLiveness.StepLowersPotential` | double_buffering/dblbuffering/src/lib.rs:241-311 | every step of every thread lowers a natural-number potential |
| `ProtocolLiveness.RunsAreBounded` | double_buffering/dblbuffering/src/lib.rs:150-311 | work and drop together take a bounded number of steps in every interleaving, with an explicit bound |
| `ProtocolLiveness.StuckIsEnded` | double_buffering/dblbuffering/src/lib.rs:150-161 | a run that cannot go on has joined every reader, each having served all requests and emptied its channel |
| `EceWorkers.EceWorker.OpenFiles` | double_buffering/dblbuffering/src/lib.rs:175-193 | sends every reader its file and arrives at the first send_work |
| `EceWorkers.EceWorker.SendWork` | double_buffering/dblbuffering/src/lib.rs:195-213 | sends one job to every reader and advances the offset, from each of its three call sites |
| `EceWorkers.EceWorker.WaitReaders` | double_buffering/dblbuffering/src/lib.rs:165-173 | always returns, having consumed one acknowledgement per reader |
| `EceWorkers.EceWorker.ProcessWriter` | double_buffering/dblbuffering/src/lib.rs:215-228 | appends each reader's bank to what was seen, returns the last one's length, toggles the bank |
| `EceWorkers.EceWorker.Work` | double_buffering/dblbuffering/src/lib.rs:293-311 | terminates with every reader's seen content a prefix of its file and, with full reads, the last file whole and printed with its stale rest; the output is, round by round and reader by reader, the buffers seen |
| `EceWorkers.EceWorker.Drop` | double_buffering/dblbuffering/src/lib.rs:150-161 | terminates with every reader out of its loop and its channel empty |
| `Ordering.BuildAfterIsStable` | tad/n_tree.h:60-80 | inserting any nodes one by one with the tree's rule gives a sorted permutation with equal nodes in arrival order |
| `Ordering.BuildBeforeReversesTies` | tad/s_list.h:38-52 | with the list's rule it gives a sorted permutation with equal nodes in reverse arrival order |
| `Ordering.OnlyStableSort` | tad/n_tree.h:60-80 | a sequence is sorted with equal nodes in arrival order iff it is the one the tree's rule builds |
| `Ordering.WithoutUndoesInsert` | tad/s_list.h:21-52 | removing the node just inserted restores the sequence |
| `SList.NoRepeats` | tad/s_list.h:56-57 | a list that ends visits no node twice |
| `SList.ListUnique` | tad/s_list.h:56-57 | a root denotes at most one list |
| `SList.InsertElt` | tad/s_list.h:38-52 | the pointer updates yield exactly the list with the node before the first one not smaller |
| `SList.RemoveElt` | tad/s_list.h:21-35 | yields exactly the list without the node, leaves the node's own link, and changes nothing when the node is absent |
| `SList.Build` | tad/s_list.h:38-52 | building from empty yields the list of the build rule |
| `SList.InsertThenRemove` | tad/s_list.h:21-52 | restores the original root and every link |
| `NTree.WalkWhile` | tad/n_tree.h:82-85 | the conditional child walk stops at the first child failing the condition, with its predecessor |
| `NTree.Forest.PrependChild` | tad/n_tree.h:22-28 | keeps the forest, puts the child first, leaves every other child sequence |
| `NTree.Forest.InsertChild` | tad/n_tree.h:60-80 | inserts after the children not greater, leaves every other child sequence, and keeps the forest iff the father had children or the child's `next` was null |
| `NTree.Forest.ReinsertFirst` | tad/n_tree.h:45-80 | after removing both children of a father and inserting the first, the child walk meets both |
| `NTree.Forest.RemoveChild` | tad/n_tree.h:45-58 | keeps the forest, drops the child if present, leaves its own pointers and every ancestor walk |
| `NTree.Forest.LinkedUnder` | tad/n_tree.h:8-12 | a linked child names its father, is in no other child sequence, its ancestor walk goes through the father, and it is no ancestor of its father |
| `NTree.Forest.NoCycle` | tad/n_tree.h:90-93 | no ancestor walk passes a node twice |
| `NTree.Forest.Ancestors` | tad/n_tree.h:90-93 | the ancestor walk ends and visits the proper ancestors from the nearest up |
| `NTree.Forest.Children` | tad/n_tree.h:87-88 | the child walk visits the children in order |
| `NTree.Forest.InsertChildren` | tad/n_tree.h:60-80 | inserting nodes one by one under a childless father, the first with a null `next`, leaves it with their stable sort |
| `NTree.Forest.InsertThenRemove` | tad/n_tree.h:45-80 | inserting a child, where that keeps the forest, and removing it restores every child sequence |

## Left out

- System calls of the pool (mmap, shm_open, stat, ftruncate, open, close, destroy): create receives a zeroed page-aligned region or a failure.
- Debug hooks, `hpd_next` chains of descriptors and the conversion of offsets to `off_t`: nothing in the modelled operations depends on them.
- Frees of chunks that are not held, requests that overflow `size_t`, and writes beyond the mapping for requests that are not `InBounds`: the source relies on its callers there.
- The lossy UTF-8 conversion and the output stream (printed text is the bytes handed to it), mutex poisoning, thread spawning, files that do not open and read errors: a locked closure is one step, a read returns a piece of the file.
- Fewer files than readers: a reader without a file never acknowledges, so `work` would wait for ever.
- Second and later `work` calls on one worker: one prefetched round is always outstanding and the readers' bank counter is not reset, so the claims hold only for the first call.
- Wrap-around of the job offset: readers never look at it.
- Update in place of the banks: a bank is a value replaced in its reader's state, so aliasing of the shared buffers is not captured; the locks make each access a single step.
- `ntree_remove_child_if`: the same unlinking as `ntree_remove_child` with a condition that names the macro's local variable.
- Removing a null node from a list: the macro would dereference null at the end of the list.
- `ioloop`, `small_rust_tree`, the ELF readers, process injection, packet rewriting, kernel modules and thin wrappers: dominated by system calls or library behaviour.

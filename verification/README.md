# FastNx verification

A Dafny model of the stateful cores of FastNx, a Nintendo Switch emulator, and proofs about them. Backing files are
flat byte sequences, ordered maps are sorted sequences, and lists are sequences. Every loop and every object that the
program updates in place is a method or a class here, proved against a function of its inputs or of its old state;
the properties are lemmas about those functions. What a format, a table or a protocol fixes is also stated by position,
with the numbers written out (the lemmas named `...ByPosition` and their like).

`dafny verify dfyconfig.toml` checks the whole project.

## What is modelled

**Encrypted random access** (`VirtualFiles`, `Keystream`, `AesCipher`, `CtrFile`, `XtsFile`). AES is an arbitrary
function on blocks, or on data units. Counter mode is defined byte by byte over a big-endian counter with carries. The
main results: a read of any range equals that slice of the whole window decrypted, and splits anywhere; sector reads
equal the decryption of whole data units under their own numbers. Both come with the exact condition under which the
code meets them. A windowed read whose head block overruns the window returns bare keystream (`ReadIsSliceIff`). A
start sector divisible by 16, other than 0 and 0x200, makes the cipher change its sector size, for that read and for
those after it: `RunIsPlainIff` says which runs of reads come out right.

**Guest memory** (`SlabHeap`, `PageTable`, `GuestAccess`, `SysAllocator`, `BlockMap`, `BlockWalk`, `BlockManager`,
`CodeLayout`, `KMemory`, `ProcessLoader`, `ProcessStart`). Slab reservations never overlap, although each range lies one
page below the pages removed; hence every backing frame is written at most once. The page table drops the high bits of
an address, so an unmapped address can reach a mapped page: `LookupIsIdentityIff` and `WriteIsFlatIff` say exactly where
the recompiled code sees a flat little-endian memory, and the read and write methods say what any access does. Mapping a
block conserves pages. Loading any list of modules tiles the space, maps exactly the pages of the sections and gives no
frame to two of them; `Boot` states this from the start of the kernel, and `BootAndRead` reads the images back. The two
computations of the sections agree exactly when every module but the last has a .bss (`SegmentsAgreeIff`): without one
the permission cycle does not restart. Their extents alone agree for more lists (`ExtentsAgreeIff`). The range check
before a fill can skip a free block (`WalkIsRightIff`).

**Kernel objects** (`KernelObjects`, `HandleTable`, `ObjectLifetime`, `ThreadMemory`, `TlsRegions`, `Scheduler`). All
results are about arbitrary runs of operations: which handles answer, what the counters hold, when an object is
destroyed, where thread-local regions lie, and in which order threads are dispatched. Every thread-local page after the
first is taken out of the block of the stack below it, so a process stops with an exception once that block has no page
left, or the slab no address; an exhausted slab still answers offset 0, which serves once (`RunsFromStart`). `Free` goes
by the count half of a handle alone, so a handle that was never returned can free one that was (`FreeHitsAnotherIff`).
An object keeps a stale registry entry exactly when it was registered under more than one key (`RemovedCleanIff`), and
removing an object without a key hits the entry of another one at key 0 (`RemovedSparesIff`).

**Formats** (`PartitionFs`, `Ticket`, `Tarball`, `TextLines`). Round trips for partition images, tickets and archives,
and line splitting on top of bounded reads. The partition parser reads seventeen entries at most, although its limit is
named sixteen, so longer images lose files (`ListsEveryFileIff`); it keeps the data offset in 32 bits
(`DataIsFoundIff`), and lists names with a slash that it does not open (`EveryFileOpensIff`). The signature padding of a
ticket is 0x3C bytes for every type, because the first condition of `GetSignatureSize` always holds
(`PaddingIsAlways3C`).

A failed assertion of the program is modelled as the end of the operation, with a result that says so.

## Model

| member | source | states |
|---|---|---|
| VirtualFiles.Available | source/fs_sys/types.h:85-88 | a read gives min(size, bytes left) bytes, each the byte of the file at that place |
| VirtualFiles.BackingFile.ReadType | source/fs_sys/types.h:85-88 | a read stores exactly the available bytes, reports how many, and changes nothing else in the buffer |
| VirtualFiles.BackingFile.ReadExactly | source/fs_sys/types.h:25-31 | a value read succeeds exactly when all its bytes are there, and is those bytes |
| VirtualFiles.BackingFile.WriteType | source/fs_sys/types.h:89-92 | a positioned write replaces its range, grows the file when needed and leaves zeros in a gap |
| Bytes.Overwrite | source/fs_sys/types.h:89-92 | the written bytes are at their place, bytes before and after are kept, gaps read as zeros |
| Bytes.OverwriteMore | source/core/tarball.cpp:33-45 | two writes in a row are one write of the concatenation |
| VirtualFiles.BackingFile.ReadMapped | source/fs_sys/refs/huge_file.cpp:79-118 | a mapped file is read whole or refused when the range leaves the map |
| VirtualFiles.BackingFile.ReadTypeFaster | source/fs_sys/refs/huge_file.cpp:64-73 | the chunk loop gives the result of one read, or fails exactly when the range leaves the map |
| VirtualFiles.OffsetFile.constructor | source/fs_sys/vfs/offset_file.cpp:4-9 | a window onto [begin, begin + size) of the file |
| VirtualFiles.OffsetFile.GetSize | source/fs_sys/vfs/offset_file.cpp:15-19 | the size of the window |
| VirtualFiles.OffsetFile.ReadType | source/fs_sys/vfs/offset_file.cpp:23-33 | a request inside the window reads that slice of it; one that overruns the window reads nothing |
| VirtualFiles.ReadSource | source/fs_sys/aes/ctr_file.cpp:12-16 | a cipher file over a flat file reads its window or the whole file, whichever it was given |
| Keystream.IncrementValue | source/fs_sys/aes/ctr_file.cpp:32-38 | the big-endian counter goes up by one, and wraps to zero after its largest value (section 6.5 and Appendix B.1 of NIST SP 800-38A) |
| Keystream.CounterValue | source/fs_sys/aes/ctr_file.cpp:32-38 | k increments add k, while the value fits the counter |
| Keystream.CounterCountsSectors | source/fs_sys/aes/ctr_file.cpp:32-38 | from (high half, sector), k increments give (high half, sector + k): no carry reaches the high half while sector + k < 2^64 |
| Keystream.CtrPassInvolution | source/crypto/aes_cipher.cpp:48-52 | applying the keystream twice gives the data back |
| Keystream.UpdateIsCtrPass | source/crypto/aes_cipher.cpp:48-52 | the byte-by-byte running cipher (counter, position in the key block, key block) computes the keystream of block i / 16 for byte i |
| Keystream.UpdateSplits | source/crypto/aes_cipher.cpp:48-52 | feeding a stream in two pieces is feeding it in one, at any split |
| Keystream.XorBit | source/crypto/aes_cipher.cpp:48-52 | every bit of a deciphered byte is that of the data exactly when the key bit is 0 |
| Bytes.BERoundTrip | source/fs_sys/aes/ctr_file.cpp:33-36 | the big-endian bytes of a number that fits give the number back |
| Bytes.BEValueRoundTrip | source/fs_sys/aes/ctr_file.cpp:33-36 | every big-endian byte string is the encoding of its value |
| Bytes.BEPosition | source/fs_sys/aes/ctr_file.cpp:33-36 | byte i of such an encoding is the value divided by its power of 256, modulo 256: the first byte is the highest |
| AesCipher.StridesAreOnePass | source/crypto/aes_cipher.cpp:48-52 | the 2048-byte stride loop in counter mode equals one pass over all of the data |
| AesCipher.StridesUnderTweak | source/crypto/aes_cipher.cpp:48-52 | in sector mode every stride is a data unit under the same tweak, and the tweak is kept |
| AesCipher.StridesOfBlocks | source/crypto/aes_cipher.cpp:41-46 | in block mode byte 16 k + j is byte j of the block cipher on the 16 bytes from 16 k on |
| AesCipher.TweakParts | source/crypto/aes_cipher.cpp:60-66 | the tweak of unit t, below 2^64, is sixteen bytes: eight zeros, then t as a big-endian number |
| AesCipher.TweakIsUnique | source/crypto/aes_cipher.cpp:60-66 | no other sixteen bytes are so, whatever the number |
| AesCipher.AesCipher.constructor | source/crypto/aes_cipher.cpp:6-15 | a fresh cipher with sectors of 0x200 bytes and an empty auxiliary buffer |
| AesCipher.AesCipher.SetupIv | source/crypto/aes_cipher.cpp:24-28 | sets a vector of one block and refuses any other; a non-zero sector divisible by 16 replaces the sector size |
| AesCipher.AesCipher.CipherUpdate | source/crypto/aes_cipher.cpp:50 | one library call between two buffers stores the result of its input and nothing else |
| AesCipher.AesCipher.StrideLoop | source/crypto/aes_cipher.cpp:41-52 | the loop stores the result of striding over the source, whatever the two positions |
| AesCipher.AesCipher.Process | source/crypto/aes_cipher.cpp:30-57 | in place through the auxiliary buffer or not, the destination holds the strided result of the original source bytes |
| AesCipher.AesCipher.ProcessSector | source/crypto/aes_cipher.cpp:74-81 | one sector is decrypted under its own fresh tweak |
| AesCipher.AesCipher.ProcessXts | source/crypto/aes_cipher.cpp:68-84 | the loop decrypts consecutive sectors under consecutive tweaks, in place or not, for any size: the last sector is decrypted whole |
| AesCipher.SectorsAreDataUnits | source/crypto/aes_cipher.cpp:68-84 | with 0x200-byte sectors, byte i is that of data unit first + i / 0x200, decrypted whole under eight zero bytes and then that number, big-endian (section 5.1 of IEEE Std 1619-2007, with the order of the bytes reversed) |
| CtrFile.SeekedSlice | source/fs_sys/aes/ctr_file.cpp:32-38 | decrypting from a seeked counter gives the slice of the decryption from the first counter |
| CtrFile.CtrFile.constructor | source/fs_sys/aes/ctr_file.cpp:11-20 | the window is taken when start and size are both given; the counter starts at start / 16 |
| CtrFile.CtrFile.UpdateCtr | source/fs_sys/aes/ctr_file.cpp:32-38 | the counter becomes (high half, offset / 16 + start / 16) |
| CtrFile.CtrFile.DecryptHere | source/fs_sys/aes/ctr_file.cpp:51 | processing in place from a fresh counter stores one counter-mode pass of the bytes that were there |
| CtrFile.CtrFile.ReadAligned | source/fs_sys/aes/ctr_file.cpp:48-53 | an aligned request is served in one piece |
| CtrFile.CtrFile.ReadHead | source/fs_sys/aes/ctr_file.cpp:54-59 | the block around an unaligned offset, decrypted in a buffer of its own |
| CtrFile.CtrFile.ReadTypeImpl | source/fs_sys/aes/ctr_file.cpp:40-69 | any request inside the window stores exactly the delivered bytes and returns its size; one outside stores nothing and returns 0; the recursion ends |
| CtrFile.CtrFile.ReadThroughHead | source/fs_sys/aes/ctr_file.cpp:54-68 | an unaligned request: the rest of its first block, then the aligned remainder |
| CtrFile.HeadIsDelivered | source/fs_sys/aes/ctr_file.cpp:54-64 | the part taken from the head block is the front of what is delivered |
| CtrFile.RestIsDelivered | source/fs_sys/aes/ctr_file.cpp:66-67 | the recursive call delivers the rest |
| CtrFile.AlignedWindowRead | source/fs_sys/aes/ctr_file.cpp:40-69 | in a window of whole blocks every request delivers exactly its slice of the window decrypted in one pass |
| CtrFile.ReadIsSlice | source/fs_sys/aes/ctr_file.cpp:40-69 | the same in any window, when the head block of the request lies inside it |
| CtrFile.ReadByteBits | source/fs_sys/aes/ctr_file.cpp:40-69 | bit k of byte j of a read with a readable head is that of the ciphertext byte at offset + j exactly when that bit of byte (offset + j) mod 16 of the block cipher is 0, whose input is the high half followed by the big-endian number first + (offset + j) / 16 |
| CtrFile.UnreadableByte | source/fs_sys/aes/ctr_file.cpp:54-59 | byte j of a read with an unreadable head is that key byte itself |
| CtrFile.UnreadableHead | source/fs_sys/aes/ctr_file.cpp:54-59 | otherwise bare keystream is delivered, which is right exactly where the ciphertext is zero |
| CtrFile.ReadIsSliceIff | source/fs_sys/aes/ctr_file.cpp:40-69 | a read is its slice exactly when its head block is readable or its ciphertext is zero |
| CtrFile.ShortWindowReadsWrong | source/fs_sys/aes/ctr_file.cpp:54-59 | the second byte of an eight-byte window comes out wrong |
| CtrFile.ReadSplits | source/fs_sys/aes/ctr_file.cpp:40-69 | splitting a read anywhere gives the same bytes |
| CtrFile.ReadInvertsEncryption | source/fs_sys/aes/ctr_file.cpp:40-69 | reading any range of an encrypted stream gives that range of the plaintext |
| XtsFile.SectorReadIsPlain | source/fs_sys/aes/xts_file.cpp:36-50 | with sectors of 0x200 bytes and a first tweak equal to the start sector, a read is the bytes of the standard |
| XtsFile.PlainBytesSplit | source/fs_sys/aes/xts_file.cpp:36-50 | which bytes those are does not depend on how the range is split |
| XtsFile.ReadByteOfUnit | source/fs_sys/aes/xts_file.cpp:36-50 | byte j of a read from a sector is byte j mod 0x200 of what the data-unit function makes of the 0x200 bytes at (sector + j / 0x200) * 0x200, under any sixteen bytes whose first half is zero and whose second half reads sector + j / 0x200 big-endian |
| XtsFile.ReadIsPlainIff | source/crypto/aes_cipher.cpp:24-28 | from any state of the cipher, a non-empty read of whole sectors is right for all keys and contents exactly when the sector size in force is 0x200 and the start sector is 0, 0x200 or not divisible by 16 |
| XtsFile.RunIsPlainIff | source/crypto/aes_cipher.cpp:24-84 | over any run of reads from a fresh cipher, all are right exactly when every non-empty one starts at such a sector; the sector size then stays 0x200 |
| XtsFile.WrongAfterSectorSixteen | source/crypto/aes_cipher.cpp:24-28 | a read at sector 16 is wrong and leaves 16-byte sectors behind; a read at sector 1, right on a fresh cipher, is wrong after it |
| XtsFile.RequestIsRead | source/fs_sys/aes/xts_file.cpp:36-50 | a request inside the file leaves in its buffer what the run says, and the sector size that the run says |
| XtsFile.XtsFile.constructor | source/fs_sys/aes/xts_file.cpp:8-23 | a fresh cipher in sector mode; the window is taken when start and size are both given |
| XtsFile.XtsFile.ReadInPlace | source/fs_sys/aes/xts_file.cpp:38-48 | what was fetched, and behind it what the buffer held, is decrypted in the destination, up to the end of the last sector; nothing fetched changes nothing |
| XtsFile.XtsFile.ReadThroughBuffer | source/fs_sys/aes/xts_file.cpp:41-48 | reads into a second buffer, fails when the file ends early, and decrypts from there with the same result |
| XtsFile.XtsFile.ReadTypeImpl | source/fs_sys/aes/xts_file.cpp:36-50 | either way the destination holds the decrypted sectors, for any offset, size and state; on 0x200-byte sectors a kept range of whole sectors comes out as the standard says and the sector size stays |
| SlabHeap.KSlabHeap.constructor | source/kernel/memory/kslab_heap.cpp:8-15 | the free list is a descending arithmetic progression down to the base |
| SlabHeap.KSlabHeap.Allocate | source/kernel/memory/kslab_heap.cpp:17-25 | pops the front; an empty list fails; a null front is returned and stays |
| SlabHeap.KSlabHeap.Reserve | source/kernel/memory/kslab_heap.cpp:27-49 | drops the requested page and then the fronts, one per page of the size, and returns the next front |
| SlabHeap.TakenFromFront | source/kernel/memory/kslab_heap.cpp:41-48 | such rounds from the front remove exactly the first pages and return the page behind them |
| SlabHeap.ErasedAt | source/kernel/memory/kslab_heap.cpp:42-43 | an erasure takes out the first occurrence and keeps the order of the others |
| SlabHeap.StepsArePages | source/kernel/memory/kslab_heap.cpp:41 | the loop runs once per page of the size rounded up |
| SlabHeap.ReserveRefines | source/kernel/memory/kslab_heap.cpp:27-49 | on a page slab one reservation is the one of the run machine, and keeps the progression |
| SlabHeap.RunsNeverOverlap | source/kernel/memory/kslab_heap.cpp:27-49 | over any run that leaves the slab non-empty, the list stays a descending progression and the returned ranges are page-aligned, inside the slab and pairwise disjoint |
| PageTable.HoldsOneMore | source/jit/page_table.cpp:33-38 | entering a page whose slot no other mapped page uses adds it and keeps every other page |
| PageTable.TableAfterHolds | source/jit/page_table.cpp:28-41 | one table creation over pages that share no slot adds exactly its pages |
| PageTable.AnyRunHolds | source/jit/page_table.cpp:28-41 | any run of table creations leaves exactly their pages mapped when no two of them share a slot |
| PageTable.AnyRunHoldsIff | source/jit/page_table.cpp:28-41 | and only then |
| PageTable.SpanIsOnePerSlot | source/jit/page_table.cpp:16-19 | pages within as many pages as the table has slots share no slot, wherever they start |
| PageTable.EmptyTableHolds | source/jit/page_table.cpp:9-14 | the initial table maps nothing |
| PageTable.WindowIsOnePerSlot | source/jit/page_table.cpp:16-19 | nor do pages of one window |
| PageTable.LookupFinds | source/jit/page_table.cpp:16-26 | any address whose slot holds a mapped page leads into that page, at its own offset |
| PageTable.LookupMisses | source/jit/page_table.cpp:16-26 | an address whose slot holds none leads nowhere |
| PageTable.LookupIsIdentityIff | source/jit/page_table.cpp:16-26 | a lookup is the identity on mapped addresses and null elsewhere exactly at addresses that are mapped or whose slot holds no mapped page |
| PageTable.FarAddressAliases | source/jit/page_table.cpp:16-26 | an address one whole table above a mapped one is not mapped, and still gives the pointer of the mapped one |
| PageTable.LookupFolds | source/jit/page_table.cpp:16-26 | with all pages in one window, any address gives the pointer of the address with the same low bits in that window |
| PageTable.LookupInWindowIff | source/jit/page_table.cpp:16-26 | so a lookup is the identity exactly inside the window and where nothing is mapped at that folded address |
| PageTable.BackingFrames | source/jit/page_table.cpp:37 | after a table creation, backing slot k holds the tagged host address of frame k inside the range and is unchanged outside |
| PageTable.PageTable.constructor | source/jit/page_table.cpp:9-14 | zeroed table and backing |
| PageTable.PageTable.GetTable | source/jit/page_table.cpp:20-26 | the pointer of the lookup |
| PageTable.PageTable.CreateTable | source/jit/page_table.cpp:28-41 | one tagged entry per page in the table and in the backing list, and one record of the range |
| PageTable.PageTable.DelimitTable | source/jit/page_table.cpp:42-48 | relabels exactly the allocated ranges with these bounds |
| PageTable.NewRangeIsLabelled | source/jit/page_table.cpp:40-48 | a range that was created and then labelled carries the label, and every earlier range keeps its own |
| PageTable.PageTable.Contains | source/jit/page_table.cpp:50-70 | true exactly when every page slot from the first on carries the mapped attribute; the label is that of the last range that holds all of them |
| PageTable.LabelOfLast | source/jit/page_table.cpp:62-69 | that label is the one of range i when range i holds all of them and no later range does |
| GuestAccess.DynarmicCallbacks.ByteAtIsFlat | source/jit/dynarmic_callbacks.cpp:11-15 | an access shows the mapped byte at a mapped address, zero where no mapped page sits in the slot, and otherwise the byte of the page in that slot |
| GuestAccess.DynarmicCallbacks.ValidateMemoryAccess | source/jit/dynarmic_callbacks.cpp:69-79 | passes exactly when the lookup gives a pointer, and otherwise halts the recompiler once |
| GuestAccess.WriteIsFlatIff | source/jit/page_table.h:68-74 | every write of some bytes is a flat store (the mapped bytes of the range, and no other) exactly when each of their addresses is mapped or has a slot without a mapped page |
| GuestAccess.WriteFolds | source/jit/page_table.h:68-74 | with all pages in one window, a byte is stored at the address with the same low bits in that window, if that is mapped |
| GuestAccess.DynarmicCallbacks.MemoryRead8 | source/jit/dynarmic_callbacks.cpp:11-15 | the byte at the address, which is 0 when it leads nowhere; then, and only then, the recompiler is halted once |
| GuestAccess.DynarmicCallbacks.MemoryRead16 | source/jit/dynarmic_callbacks.h:15-17 | the little-endian value of two bytes, also across a page boundary, with one halt for each that leads nowhere |
| GuestAccess.DynarmicCallbacks.MemoryRead32 | source/jit/dynarmic_callbacks.h:18-20 | the little-endian value of four bytes, with one halt for each that leads nowhere |
| GuestAccess.DynarmicCallbacks.MemoryRead64 | source/jit/dynarmic_callbacks.h:21-23 | the little-endian value of eight bytes, with one halt for each that leads nowhere |
| GuestAccess.DynarmicCallbacks.MemoryRead128 | source/jit/dynarmic_callbacks.cpp:17-19 | the low half is the value of the first eight bytes, the high half that of the next eight, and one halt for each that leads nowhere |
| GuestAccess.DynarmicCallbacks.MemoryWrite8 | source/jit/dynarmic_callbacks.cpp:20-23 | for any address, stores the byte where the address leads, changes no other byte of the host, and halts the recompiler once exactly when it leads nowhere |
| GuestAccess.DynarmicCallbacks.MemoryWrite16 | source/jit/dynarmic_callbacks.h:26-29 | for any address, stores the two little-endian bytes, each where its address leads, changes no other byte, and halts once for each that leads nowhere |
| GuestAccess.DynarmicCallbacks.MemoryWrite32 | source/jit/dynarmic_callbacks.h:30-33 | for any address, stores the four little-endian bytes, each where its address leads, changes no other byte, and halts once for each that leads nowhere |
| GuestAccess.DynarmicCallbacks.MemoryWrite64 | source/jit/dynarmic_callbacks.h:35-38 | for any address, stores the eight little-endian bytes, each where its address leads, changes no other byte, and halts once for each that leads nowhere |
| GuestAccess.DynarmicCallbacks.MemoryWrite128 | source/jit/dynarmic_callbacks.cpp:24-27 | for any address, stores the sixteen little-endian bytes, each where its address leads, changes no other byte, and halts once for each that leads nowhere |
| GuestAccess.DynarmicCallbacks.ReadBack | source/jit/dynarmic_callbacks.h:15-38 | after a write at any address all of whose bytes lead to mapped pages, a read of the same width returns the value |
| Bytes.LERoundTrip | source/jit/dynarmic_callbacks.h:15-38 | the little-endian bytes of a number that fits give the number back |
| Bytes.LEOfParts | source/jit/dynarmic_callbacks.h:26-38 | the bytes of a number are those of its low half followed by those of its high half |
| SysAllocator.SysAllocator.CanAllocate | source/common/memory.cpp:74-82 | false exactly when the size is non-zero and a recorded range covers the address |
| SysAllocator.SysAllocator.Map | source/common/memory.cpp:56-72 | records a new mapping and enters its pages and frames; a recorded one changes nothing |
| SysAllocator.BackingOfRun | source/common/memory.cpp:56-72 | after a run of mappings slot k holds the host address of frame k when some range uses it, and its old value otherwise |
| SysAllocator.FramesAreWrittenOnce | source/common/memory.cpp:56-72 | over any run of reservations, no two ranges use the same frame, and every used frame holds its own host address |
| BlockMap.MapConserves | source/kernel/memory/kmemory_block_manager.cpp:31-74 | every request taking one of the first two branches keeps the sum of pages and adds exactly one key |
| BlockMap.NewKeyIsNew | source/kernel/memory/kmemory_block_manager.cpp:54-74 | which key that is: the start of the request, or the end of it when it takes over its block |
| BlockMap.MappedEntries | source/kernel/memory/kmemory_block_manager.cpp:54-74 | what such a request leaves, entry by entry: the new block at its address, every block but the donor as it was, and the donor without the pages, behind the new block when that took over its key and in place otherwise |
| BlockMap.DonorByPosition | source/kernel/memory/kmemory_block_manager.cpp:42-59 | which block is the donor and when its key is taken over, from the first key at or above the request: that block when the request starts there; otherwise that block, or the one below it when it is taken or is the sentinel |
| BlockMap.FrontOfFreeBlock | source/kernel/memory/kmemory_block_manager.cpp:64-74 | mapping the front of a free block splits it in two and keeps the tiling |
| BlockMap.BetweenReaches | source/kernel/memory/kmemory_block_manager.cpp:54-69 | for a request between two keys, which block is looked at first, which one is the donor, and that the request is admissible exactly when the donor has the pages |
| BlockMap.MapBetween | source/kernel/memory/kmemory_block_manager.cpp:54-69 | such a request takes its pages from the block below it |
| BlockMap.GivenAwayFacts | source/kernel/memory/kmemory_block_manager.cpp:54-69 | the block below loses those pages, the new block stands behind it, every other entry is kept, and so is the total |
| BlockMap.TiledIsSorted | source/kernel/memory/kmemory_block_manager.h:98 | a tiled map has ascending keys |
| BlockMap.BlockAtIsUnique | source/kernel/memory/kmemory_block_manager.cpp:119-132 | on a tiled map exactly one block contains an address below the sentinel |
| BlockManager.KMemoryBlockManager.Initialize | source/kernel/memory/kmemory_block_manager.cpp:10-29 | one free block over the whole pages of the space and a sentinel behind it |
| BlockManager.KMemoryBlockManager.FindBlock | source/kernel/memory/kmemory_block_manager.cpp:119-132 | the block that the address falls in, from the first key to the sentinel |
| BlockManager.KMemoryBlockManager.IsMappedInRange | source/kernel/memory/kmemory_block_manager.h:85-94 | the loop ends with the answer of the walk, for every walk that does not run past the last block |
| BlockWalk.WalkIsRightIff | source/kernel/memory/kmemory_block_manager.h:85-94 | whatever blocks are in use, the walk answers whether one before the last is free: exactly when it starts at a block, or at an offset that lies inside every block up to the last one |
| BlockWalk.WalkVisits | source/kernel/memory/kmemory_block_manager.h:85-94 | at such an offset it visits every block |
| BlockWalk.WalkSkipsFreeBlock | source/kernel/memory/kmemory_block_manager.h:85-94 | a walk from the second page of a two-page block skips the free one-page block behind it |
| BlockManager.KMemoryBlockManager.IsAllocated | source/kernel/memory/kmemory_block_manager.cpp:47-52 | recorded as mapped and not free |
| BlockManager.KMemoryBlockManager.MapHost | source/kernel/memory/kmemory_block_manager.cpp:81-85 | takes frames off the slab and records them |
| BlockManager.KMemoryBlockManager.MapOwnKey | source/kernel/memory/kmemory_block_manager.cpp:54-62 | first branch: the donor shrinks and the request gets its own key, or the request is refused for want of pages |
| BlockManager.KMemoryBlockManager.MapSplit | source/kernel/memory/kmemory_block_manager.cpp:64-74 | second branch: the block that the request starts in is split |
| BlockManager.KMemoryBlockManager.MapBlocks | source/kernel/memory/kmemory_block_manager.cpp:54-74 | the two branches together compute the specified block map |
| BlockManager.KMemoryBlockManager.Map | source/kernel/memory/kmemory_block_manager.cpp:31-90 | throws exactly when the address is covered, or when the donor is too small; otherwise the specified block map, frames, record, tables and range record |
| BlockManager.KMemoryBlockManager.Reprotect | source/kernel/memory/kmemory_block_manager.cpp:107-117 | changes the permission of the block of the address and nothing else |
| CodeLayout.GetCodeSet | source/horizon/process_loader.cpp:21-41 | places the sections of a module one after the other, each at the page-aligned end of the one before |
| CodeLayout.PermissionBits | source/kernel/types.h:50-54 | text is read and execute (1 + 4), read-only data read (1), data read and write (1 + 2), by position in the cycle and in every module |
| CodeLayout.CollectMore | source/horizon/process_loader.cpp:110-114 | collecting one more module appends its sections at the end of the ones before |
| CodeLayout.CollectAll | source/horizon/process_loader.cpp:110-114 | the loop over the modules collects the whole code set |
| CodeLayout.SectionsByPosition | source/horizon/process_loader.cpp:21-41 | the sections of module k are segments 3 k to 3 k + 2: from the end of the modules before it, each at the page-aligned end of the one before, with their sizes, permissions and contents, the .bss behind the data |
| CodeLayout.EndByPosition | source/horizon/process_loader.cpp:21-41 | where that end is: the page-aligned sizes of all sections before it, added up |
| CodeLayout.SegmentsOfModule | source/horizon/process_loader.cpp:49-87 | the extents and permissions recomputed for one module are those it was placed with; the permission cycle restarts only after a .bss |
| CodeLayout.SegmentsAgreeIff | source/horizon/process_loader.cpp:21-88 | both computations agree on extents and permissions of all sections exactly when every module but the last has a .bss |
| CodeLayout.ExtentsAgreeIff | source/horizon/process_loader.cpp:21-88 | on the extents alone they agree exactly when, behind a module without a .bss, every .bss fits the last page of its data |
| CodeLayout.BssLostBehindEmptyOne | source/horizon/process_loader.cpp:82-86 | behind a module without a .bss, one byte of .bss and no data come out a page too short |
| CodeLayout.SecondModuleWithoutBss | source/horizon/process_loader.cpp:82-86 | two modules without a .bss: the extents agree, the permission of the second text does not |
| KMemory.GrownByMap | source/kernel/memory/kmemory_block_manager.cpp:64-74 | mapping at the start of the free rest takes the second branch, and its pages come from that rest |
| KMemory.GrownFacts | source/kernel/memory/k_memory.cpp:89-96 | afterwards the map is tiled, with the new code block before a shorter free rest |
| KMemory.KMemory.SegmentsByPosition | source/kernel/memory/k_memory.cpp:53-59 | the stack starts 72 GBytes behind the code, and the thread-local segment 2 GBytes behind that |
| KMemory.KMemory.MapSegmentMemory | source/kernel/memory/k_memory.cpp:80-88 | puts the request to the block map and clears the range exactly when it was mapped and asked to |
| KMemory.KMemory.MapCodeMemory | source/kernel/memory/k_memory.cpp:89-103 | maps a code block at the front of the free rest, enters its pages with the next frames of the slab, labels the range, and writes the content, zeros up to the end of its last page, and nothing else |
| KMemory.KMemory.MapTlsMemory | source/kernel/memory/k_memory.cpp:105-110 | the request of a thread-local page is answered as the block map says, and its bytes are zero when it was mapped |
| KMemory.KMemory.MapStackMemory | source/kernel/memory/k_memory.cpp:112-120 | the same for the stack, whose range is then labelled |
| KMemory.KMemory.CopyAndClear | source/kernel/memory/k_memory.cpp:97-100 | content followed by zeros |
| KMemory.KMemory.SetMemoryPermission | source/kernel/memory/k_memory.cpp:122-142 | a code block gets the permission; any other block is left alone |
| KMemory.KMemory.FillMemory | source/kernel/memory/k_memory.cpp:144-151 | fills the range exactly when the walk from its first page to its end page meets no free block |
| ProcessLoader.BlocksStep | source/horizon/process_loader.cpp:67 | one more segment on the map: the code blocks so far, that segment, the free rest, the sentinel |
| ProcessLoader.ImageStep | source/kernel/memory/k_memory.cpp:97-100 | one more segment in memory |
| ProcessLoader.ImageByPosition | source/kernel/memory/k_memory.cpp:97-100 | the image by position: at offset j of a segment stands byte j of its content, or zero behind it |
| ProcessLoader.BssWalk | source/horizon/process_loader.cpp:84 | clearing a .bss walks from the code block to the free rest and meets no free block before it |
| ProcessLoader.MapAndProtect | source/horizon/process_loader.cpp:67-80 | maps one segment and gives it its permission |
| ProcessLoader.ClearBss | source/horizon/process_loader.cpp:84 | clears exactly the .bss |
| ProcessLoader.LoadSegment | source/horizon/process_loader.cpp:67-84 | maps, protects and clears one segment |
| ProcessLoader.LoadNext | source/horizon/process_loader.cpp:49-87 | one round of the loop keeps everything loaded so far |
| ProcessLoader.SetProcessMemory | source/horizon/process_loader.cpp:43-88 | the loop maps every image at its extent with the permission of its position |
| ProcessLoader.WantedFollowEachOther | source/horizon/process_loader.cpp:21-41 | the sections of all modules are page-aligned, adjacent and end where the code set ends |
| ProcessLoader.LoadModules | source/horizon/process_loader.cpp:21-88 | loading any list of modules leaves a tiled map: one code block per section in order with permissions Text, Ro, Data, then the free rest and the sentinel, every section padded with zeros in memory, and pages and frames taken one section after the other |
| ProcessLoader.LoadKeepsTotal | source/horizon/process_loader.cpp:43-88 | loading keeps the total of pages |
| ProcessLoader.KernelSpaceIsAmple | source/kernel/memory/k_memory.cpp:17-59 | the address space and the slab of the kernel are large enough for any modules with 32-bit sections whose code fits the slab |
| ProcessLoader.BackedStep | source/kernel/memory/kmemory_block_manager.cpp:81-85 | one more segment takes the next frames and enters its own pages |
| ProcessLoader.LoadedPages | source/jit/page_table.cpp:28-41 | on an empty page table a load leaves exactly the pages of its sections mapped |
| ProcessLoader.LoadedFrames | source/common/memory.cpp:56-72 | no two sections share a frame, and every frame in use holds its own host address |
| ProcessLoader.NewSpace | source/kernel/kernel.cpp:10-23 | a new kernel has a full slab, an empty page table and record, and one free block |
| ProcessLoader.Boot | source/horizon/process_loader.cpp:94-138 | from the start of the kernel: the sections tile the space and fill memory, the page table maps exactly their pages, no two of them share a frame, and nothing behind them is recorded |
| ProcessStart.ImageIsShown | source/jit/dynarmic_callbacks.cpp:11-15 | an access of the recompiled code inside the loaded sections shows the byte of their images |
| ProcessStart.BootAndRead | source/horizon/process_loader.cpp:94-138 | loading modules on a new kernel and reading any byte of the code gives that byte of their padded contents |
| KernelObjects.KAutoObject.AddReference | source/kernel/kauto_object.cpp:6-9 | registers the object under the key unless the key is taken |
| KernelObjects.AddedEntries | source/kernel/kauto_object.cpp:6-9 | in an ordered registry, exactly the new entry joins the others, in order, and none when the key is taken |
| KernelObjects.ErasedEntries | source/kernel/kauto_object.cpp:10-16 | an erasure removes exactly the entries of the key |
| KernelObjects.KAutoObject.RemoveReference | source/kernel/kauto_object.cpp:10-16 | erases the given key, or for key 0 the first non-zero key of the object |
| KernelObjects.KAutoObject.GetObjectBy | source/kernel/kauto_object.cpp:18-27 | finds the object registered under a key, and takes a lifetime only of that object when asked to |
| KernelObjects.KAutoObject.IncreaseLifetime | source/kernel/kauto_object.cpp:28-31 | the counter goes up by one |
| KernelObjects.CountsFromZero | source/kernel/kauto_object.h:32 | counters and destructions start at zero, and setting one leaves the others |
| KernelObjects.KAutoObject.DeteriorateLifetime | source/kernel/kauto_object.cpp:32-39 | the counter goes down by one; exactly at zero the object is unregistered and destroyed |
| KernelObjects.RemovedCount | source/kernel/kauto_object.cpp:10-16 | how many entries any object loses by a removal |
| KernelObjects.RemovedCleanIff | source/kernel/kauto_object.cpp:10-16 | afterwards the object has no entry left exactly when it had at most one |
| KernelObjects.RemovedSparesIff | source/kernel/kauto_object.cpp:10-16 | another object loses an entry exactly when it holds key 0 and the removed object holds no key |
| KernelObjects.RemovalsThatFail | source/kernel/kauto_object.cpp:10-16 | an object with two keys keeps one; an object without a key takes away the entry at key 0 |
| HandleTable.PackRoundTrip | source/kernel/types/khandle_table.cpp:27 | count and index are recovered from a handle |
| HandleTable.EmptyIsValid | source/kernel/types/khandle_table.cpp:4-11 | the new table is valid, and no handle is live |
| HandleTable.AllocateKeepsValid | source/kernel/types/khandle_table.cpp:13-28 | an allocation keeps the partition of the slots, and adds exactly the returned handle to the live ones |
| HandleTable.FreshCountsDown | source/kernel/types/khandle_table.cpp:4-28 | a new table hands out index 1023 with count 1, then 1022 with count 2, and so on, down to 0 |
| HandleTable.FreeKeepsValid | source/kernel/types/khandle_table.cpp:30-43 | a free keeps the partition, gives back the object of a live handle and removes exactly that handle |
| HandleTable.FreeRemovesIff | source/kernel/types/khandle_table.cpp:30-43 | a free removes exactly the live handle that carries its count, whatever its index |
| HandleTable.FreeHitsAnotherIff | source/kernel/types/khandle_table.cpp:30-43 | a free removes a live handle other than its argument exactly when its count sits in another slot than the one its index names |
| HandleTable.ForgedHandleFrees | source/kernel/types/khandle_table.cpp:30-43 | after one allocation, a handle that was never returned frees the one that was |
| HandleTable.FreeTwiceIsNoOp | source/kernel/types/khandle_table.cpp:30-43 | freeing a handle again changes nothing |
| HandleTable.FreedSlotIsNext | source/kernel/types/khandle_table.cpp:13-43 | on a valid table, an allocation right after freeing a live handle takes the index of that handle, with the count of the table |
| HandleTable.LastFreedFirst | source/kernel/types/khandle_table.cpp:13-43 | so does one after any run of allocations and frees that ends with as many free slots, and never has fewer: the slot freed last is reused first |
| HandleTable.UseMore | source/kernel/types/khandle_table.cpp:13-43 | such a run is extended by a free, or by an allocation for which the table that it leads to has a slot |
| HandleTable.TakeAndGive | source/kernel/types/khandle_table.cpp:13-43 | an allocation whose handle is freed again is such a run |
| HandleTable.ReusedInReverse | source/kernel/types/khandle_table.cpp:13-43 | slots freed one after the other are handed out again in the opposite order, for any list of live handles |
| HandleTable.BottomStays | source/kernel/types/khandle_table.cpp:13-43 | a run that never takes the first n free slots leaves them in place and in order |
| HandleTable.LookupFindsLive | source/kernel/types/khandle_table.h:25-41 | a handle with a non-zero count is found exactly when it is live, with its own object |
| HandleTable.LookupOfZeroCount | source/kernel/types/khandle_table.h:25-41 | a handle with count 0 finds whatever object a free slot was left with |
| HandleTable.CloseFreesAll | source/kernel/types/khandle_table.cpp:45-59 | after closing, every slot is on the free list exactly once |
| HandleTable.KHandleTable.constructor | source/kernel/types/khandle_table.cpp:4-11 | 1024 empty slots, all free, in order, with the counter at 1 |
| HandleTable.KHandleTable.Allocate | source/kernel/types/khandle_table.cpp:13-28 | performs the specified step and takes one lifetime of the object; null allocates nothing |
| HandleTable.KHandleTable.Free | source/kernel/types/khandle_table.cpp:30-43 | performs the specified step, which puts the slot at the end that allocation takes from; exactly the object of the slot loses one lifetime, and is destroyed exactly when that was its last |
| HandleTable.KHandleTable.GetObject | source/kernel/types/khandle_table.h:25-41 | the object of the lookup |
| HandleTable.ActiveSlotsAreUsed | source/kernel/types/khandle_table.h:21-23 | slots not on the free list are the slots in use |
| HandleTable.KHandleTable.GetActiveSlots | source/kernel/types/khandle_table.h:21-23 | on a valid table, the number of slots in use |
| HandleTable.KHandleTable.CloseSlot | source/kernel/types/khandle_table.cpp:48-57 | a slot not on the free list joins it and releases its object once, with registry and Destroyed; any other slot is left alone |
| HandleTable.UsesAreLive | source/kernel/types/khandle_table.cpp:45-59 | the slots that closing releases are the live handles of each object |
| HandleTable.KHandleTable.CloseAll | source/kernel/types/khandle_table.cpp:45-59 | every slot not on the free list joins it and releases its object once: counters, registry and destructions are those of the releases in slot order |
| ObjectLifetime.AllocateKeepsHandles | source/kernel/types/khandle_table.cpp:13-28 | every handle ever returned keeps answering as before, and so does the new one |
| ObjectLifetime.FreeGoesByCount | source/kernel/types/khandle_table.cpp:30-36 | a free of any handle does what it would do for the handle issued under that count |
| ObjectLifetime.DeadCountUnused | source/kernel/types/khandle_table.cpp:30-36 | a free with a count never issued, or freed already, does nothing |
| ObjectLifetime.FreeKeepsHandles | source/kernel/types/khandle_table.cpp:30-43 | freeing any handle with a non-zero count, returned by the table or not, leaves every handle of another count as it was |
| ObjectLifetime.HoldersAfter | source/kernel/types/khandle_table.cpp:13-43 | what one step does to the live handles and other lifetimes of an object |
| ObjectLifetime.CounterAfter | source/kernel/kauto_object.cpp:28-39 | no step wraps a counter: up one with each holder, down one with each release |
| ObjectLifetime.StepKeepsInv | source/kernel/kauto_object.cpp:6-39 | every allowed step keeps slots, handles, registry order and the conservation law |
| ObjectLifetime.AnyRunKeepsInv | source/kernel/kauto_object.cpp:6-39 | so does every run |
| ObjectLifetime.RunMore | source/kernel/kauto_object.cpp:6-39 | a run is extended by an allowed step of the world that it leads to |
| ObjectLifetime.HandlesAfterAnyRun | source/kernel/types/khandle_table.cpp:13-43 | after any run of at most 65535 allocations and frees of any handles with a non-zero count, all returned handles differ, and each finds its object until its count is freed and nothing afterwards |
| ObjectLifetime.CountersAfterAnyRun | source/kernel/kauto_object.cpp:28-39 | after any run, an object's counter is its live handles plus its other lifetimes |
| ObjectLifetime.DestroyedWithLastHolder | source/kernel/kauto_object.cpp:32-39 | Destroyed runs exactly on the step to zero, and then leaves no registry entry exactly when there was at most one |
| ObjectLifetime.CloseReleases | source/kernel/types/khandle_table.cpp:45-59 | closing from any slot on releases each live handle from there on once |
| ObjectLifetime.CloseDestroys | source/kernel/types/khandle_table.cpp:45-59 | closing from any slot on destroys an object exactly when its live handles from there on are all that its counter holds |
| ObjectLifetime.CloseAllReleasesOnce | source/kernel/types/khandle_table.cpp:45-59 | closing after any run, as the method does it, leaves each counter at its other lifetimes, destroys exactly the objects that had a live handle and no other lifetime, once each, and leaves no slot active |
| ThreadMemory.StepBetween | source/kernel/memory/kmemory_block_manager.cpp:42-69 | whether the block that is looked at first is taken follows from the record; a request between two blocks is then carried out exactly when the block below it has the pages |
| ThreadMemory.FirstPage | source/kernel/types/kprocess.cpp:17 | the first thread-local page always comes out of the free rest behind the code |
| ThreadMemory.StackBelowPage | source/kernel/types/kprocess.cpp:25 | the stack then comes out of the same rest, because the page above it is taken |
| ThreadMemory.NextPage | source/kernel/types/kprocess.cpp:66-67 | a later page takes its page from the block below, the stack; the request throws exactly when that block has no page left |
| ThreadMemory.SamePage | source/kernel/types/kprocess.cpp:66-67 | asking again for the page at offset 0, which an exhausted slab does, throws |
| TlsRegions.NextIsAnswered | source/kernel/types/kprocess.cpp:66-67 | in every state of a run the next page can be asked for, and is granted exactly when an address and a page of the stack are left |
| TlsRegions.StepKeepsInv | source/kernel/types/kprocess.cpp:56-73 | one allocation throws exactly when nothing is left; otherwise it hands out one region more, keeps regions apart, pages mapped and the lists right, and takes a page from the stack for every page it maps |
| TlsRegions.AnyRunKeepsInv | source/kernel/types/kprocess.cpp:56-73 | so does any run |
| TlsRegions.CanRunIff | source/kernel/types/kprocess.cpp:56-73 | a run throws nowhere exactly up to the free slots of the listed pages and eight for every page left |
| TlsRegions.StartKeepsInv | source/kernel/types/kprocess.cpp:15-31 | a loaded process starts without an exception: its first page and its stack are mapped and the total is kept |
| TlsRegions.RegionsAfterAnyRun | source/kernel/types/kprocess.cpp:15-73 | after the start and any run: the 0x200-byte regions are pairwise disjoint, each inside a page that the block map holds and the record covers; free pages have room and full ones have none; the stack has lost one page for every page after the first, and the total is what it was |
| TlsRegions.RegionsInOrder | source/kernel/types/kprocess.cpp:15-73 | region i of a process, the first one included, is slot i mod 8 of page i / 8; the pages are the offsets of the slab in order, and then offset 0 |
| TlsRegions.RunsFromStart | source/kernel/types/kprocess.cpp:15-73 | from a loaded process exactly 8 * (1 + min(slab addresses, stack pages)) allocations are possible, the first one of the process included |
| ProcessStart.StartProcess | source/kernel/types/kprocess.cpp:15-31 | from the start of the kernel through loading to the first thread: no exception, the invariant, the total of the address space, and that number of allocations for the sizes of the kernel |
| TlsRegions.KTlsPageManager.constructor | source/kernel/memory/ktls_pagemanager.cpp:4-10 | eight free slots |
| TlsRegions.KTlsPageManager.Allocate | source/kernel/memory/ktls_pagemanager.cpp:12-25 | takes the first free slot, or fails when there is none |
| TlsRegions.KTlsPageManager.Allocatable | source/kernel/memory/ktls_pagemanager.cpp:30-35 | whether a slot is free |
| TlsRegions.KProcess.TakeSlot | source/kernel/types/kprocess.cpp:61-64 | takes a slot of the first page and moves the page when that filled it |
| TlsRegions.KProcess.AskPage | source/kernel/types/kprocess.cpp:66-67 | takes the next offset off the slab, or 0 from an exhausted one, and puts the request; the offset is gone even when the request throws |
| TlsRegions.KProcess.MapTlsPage | source/kernel/types/kprocess.cpp:66-68 | lists the new page as free exactly when it was mapped |
| TlsRegions.KProcess.AllocateTls | source/kernel/types/kprocess.cpp:56-73 | performs the specified step, calling itself at most once, or throws exactly when the page is refused |
| TlsRegions.KProcess.Initialize | source/kernel/types/kprocess.cpp:15-25 | the first region and then the stack; throws exactly when one of the two requests is refused |
| Scheduler.Walk | source/kernel/threads/kscheduler.cpp:116-147 | one call dispatches at most one thread |
| Scheduler.WalkByPosition | source/kernel/threads/kscheduler.cpp:116-147 | for any dead threads: the first live thread that its core exists for and does not list is dispatched, dead ones before it are dropped and those behind it kept; it goes to the end of the list and to the front of its core; with no such thread all dead ones go and nothing else changes |
| Scheduler.WalkTakesHead | source/kernel/threads/kscheduler.cpp:116-147 | with all listed threads alive, one call dispatches the first undispatched thread onto its core, permutes the list, and leaves the others waiting in order; with none it changes nothing |
| Scheduler.EmplaceKeepsInv | source/kernel/threads/kscheduler.cpp:42-45 | emplacing a new thread queues it behind the others |
| Scheduler.KillKeepsInv | source/kernel/threads/kscheduler.cpp:74-84 | killing removes the thread from the queue and changes no order |
| Scheduler.ReescheduleRefines | source/kernel/threads/kscheduler.cpp:116-147 | one call takes the head of the queue, and only permutes the list |
| Scheduler.ReescheduleKeepsInv | source/kernel/threads/kscheduler.cpp:116-147 | one call keeps the emplacement order of dispatched and waiting threads |
| Scheduler.RunKeepsInv | source/kernel/threads/kscheduler.cpp:42-147 | every run of the three operations refines a first-in first-out queue |
| Scheduler.AnyRunIsFirstInFirstOut | source/kernel/threads/kscheduler.cpp:42-147 | after any run, dispatched then waiting threads are the surviving ones in the order they were emplaced, each once, and each core lists exactly the threads dispatched to it |
| Scheduler.DispatchedInTime | source/kernel/threads/kscheduler.cpp:116-147 | a thread with j undispatched threads ahead is dispatched within j + 1 more calls, unless killed |
| Scheduler.KScheduler.constructor | source/kernel/threads/kscheduler.cpp:12-14 | four empty core lists |
| Scheduler.KScheduler.Emplace | source/kernel/threads/kscheduler.cpp:42-45 | appends the thread |
| Scheduler.KScheduler.KillThread | source/kernel/threads/kscheduler.cpp:74-84 | clears the state of a listed thread and drops its first occurrence |
| Scheduler.KScheduler.PreemptThread | source/kernel/threads/kscheduler.cpp:58-62 | pushes the thread to the front of its core's list |
| Scheduler.KScheduler.Offer | source/kernel/threads/kscheduler.cpp:127-143 | gives the thread to its core exactly when that core exists and does not list it yet |
| Scheduler.KScheduler.Reeschedule | source/kernel/threads/kscheduler.cpp:116-147 | the loop computes the specified walk, and records the dispatched thread as next |
| PartitionFs.PartitionFileSystem.ReadEntries | source/fs_sys/nx_fmt/partition_filesystem.cpp:21-33 | reads every entry, or seventeen of them when there are more, and fails exactly when one is cut off |
| PartitionFs.PartitionFileSystem.EnterFiles | source/fs_sys/nx_fmt/partition_filesystem.cpp:38-55 | enters each name once, the first entry winning; an empty entry ends the walk |
| PartitionFs.PartitionFileSystem.EnterFile | source/fs_sys/nx_fmt/partition_filesystem.cpp:53-54 | a name already listed keeps its entry |
| PartitionFs.PartitionFileSystem.LoadEntries | source/fs_sys/nx_fmt/partition_filesystem.cpp:14-69 | the entries, the names and the files of a partition |
| PartitionFs.PartitionFileSystem.Load | source/fs_sys/nx_fmt/partition_filesystem.cpp:10-69 | the constructor computes the specified parse, for every byte string |
| PartitionFs.PartitionFileSystem.ListAllFiles | source/fs_sys/nx_fmt/partition_filesystem.cpp:71-80 | every name once, in ascending order |
| PartitionFs.AscendingIsUnique | source/fs_sys/nx_fmt/partition_filesystem.cpp:71-80 | the set of names determines that listing |
| PartitionFs.PartitionFileSystem.OpenFile | source/fs_sys/nx_fmt/partition_filesystem.cpp:86-116 | null exactly for a path with a parent or an unlisted name; a window shows exactly the entry's bytes; the rest fails an assertion |
| PartitionFs.EntryRoundTrip | source/fs_sys/nx_fmt/partition_filesystem.h:18-25 | an entry is recovered from its 24 bytes |
| PartitionFs.EntryByPosition | source/fs_sys/nx_fmt/partition_filesystem.cpp:22-33 | entry i is the 64-bit words at 16 + 24 i and 24 + 24 i and the 32-bit word at 32 + 24 i, little-endian |
| PartitionFs.EmptyEntryEnds | source/fs_sys/nx_fmt/partition_filesystem.cpp:41-42 | an entry of size 0 ends the walk: those behind it are not entered |
| PartitionFs.CollectedEntries | source/fs_sys/nx_fmt/partition_filesystem.cpp:38-55 | a name is entered exactly when some entry before the first empty one has it, with the data of the first such entry, shifted by the start of the data modulo 2^64 |
| PartitionFs.ParsedByPosition | source/fs_sys/nx_fmt/partition_filesystem.cpp:10-69 | for every byte string that loads: at most seventeen entries from byte 16 on, the name table behind them, the start of the data modulo 2^32 behind that, and which names are files with what ranges |
| PartitionFs.OtherFilesByPosition | source/fs_sys/nx_fmt/partition_filesystem.cpp:10-36 | every other file: without the magic or without entries it is no partition and lists nothing; one that is cut off aborts the constructor |
| PartitionFs.CollectedIff | source/fs_sys/nx_fmt/partition_filesystem.cpp:38-55 | the walk comes through exactly when every entry that it reaches has a name ending inside the table, and is whole exactly when no entry is empty |
| PartitionFs.ImageIsLaidOut | source/fs_sys/nx_fmt/partition_filesystem.cpp:10-36 | where header, entries, names and data of an image lie |
| PartitionFs.EntriesOfImage | source/fs_sys/nx_fmt/partition_filesystem.cpp:22-24 | the entries read from an image are those of its files |
| PartitionFs.CollectedIsDirectory | source/fs_sys/nx_fmt/partition_filesystem.cpp:38-55 | walking them enters every file under its name |
| PartitionFs.ParseInvertsImage | source/fs_sys/nx_fmt/partition_filesystem.cpp:10-69 | the parse of an image of up to seventeen files is its directory |
| PartitionFs.ImageRoundTrip | source/fs_sys/nx_fmt/partition_filesystem.cpp:10-69 | for an image of up to seventeen files whose data starts below 2^32, exactly their names are listed, and each entry marks exactly its bytes |
| PartitionFs.LoadAndOpen | source/fs_sys/nx_fmt/partition_filesystem.cpp:10-116 | loading a file and opening a name in it gives what the parse says |
| PartitionFs.EveryFileOpensIff | source/fs_sys/nx_fmt/partition_filesystem.cpp:86-97 | in an image whose data starts below 2^32, every file opens as exactly its bytes exactly when there are at most seventeen files and no name holds a slash |
| PartitionFs.OtherNamesOpenNothing | source/fs_sys/nx_fmt/partition_filesystem.cpp:86-95 | no other name opens anything |
| PartitionFs.ListsEveryFileIff | source/fs_sys/nx_fmt/partition_filesystem.cpp:30-32 | every file is listed exactly when there are at most seventeen |
| PartitionFs.DataIsFoundIff | source/fs_sys/nx_fmt/partition_filesystem.cpp:36 | the data offset is right exactly when, moreover, it fits 32 bits |
| Ticket.PaddingIsAlways3C | source/crypto/ticket.cpp:11-18 | every signature is padded by 0x3C bytes: the first condition always holds |
| Ticket.ReadData | source/crypto/ticket.cpp:44-46 | the ticket data at the front of a zeroed structure |
| Ticket.ParsedByPosition | source/crypto/ticket.cpp:19-50 | for every file of at least 0x2C0 bytes, in file positions: types 0x10000 and 0x10003 take 0x200 bytes of signature from 4 on and the data at 0x240; 0x10001 and 0x10004 0x100 and 0x140; 0x10002 and 0x10005 0x3C and 0x7C; any other 0x14 and 0x54 |
| Ticket.Ticket.constructor | source/crypto/ticket.cpp:19-50 | computes the specified parse of every file; one shorter than a ticket leaves it unparsed |
| Ticket.Ticket.Export | source/crypto/ticket.cpp:52-60 | leaves the specified file; the closing assertion holds exactly when that is one ticket long |
| Ticket.ExportedParts | source/crypto/ticket.cpp:52-60 | the three parts are in place, and the padding keeps what the file held or is zero |
| Ticket.ExportRoundTrip | source/crypto/ticket.cpp:19-60 | parsing an export gives the same type, signature and content, for every type and every target file; the result is 0x2C0 bytes exactly when the target was no longer |
| Ticket.ExportNormalises | source/crypto/ticket.cpp:52-60 | an export to an empty file is the parsed file with the signature padding cleared |
| Tarball.OctalRoundTrip | source/core/tarball.cpp:77 | a number is recovered from its octal digits |
| Tarball.OctalPosition | source/core/tarball.cpp:77 | digit i of a field is the character of the value divided by its power of 8, modulo 8 |
| Tarball.HeaderSum | source/core/tarball.cpp:56-70 | the header sum is at most 128776 |
| Tarball.SumCountsSpaces | source/core/tarball.cpp:56-70 | it is the sum of all 512 bytes with eight spaces in place of the checksum field |
| Tarball.SumIgnoresItsField | source/core/tarball.cpp:62-67 | the sum does not depend on what the checksum field holds |
| Tarball.ChecksumHolds | source/core/tarball.cpp:56-70 | the six octal digits in a header are its own sum |
| Tarball.SizeHolds | source/core/tarball.cpp:77 | the size field of a header states the size, below 8^11 |
| Tarball.NameHolds | source/core/tarball.cpp:15-24 | the name field of a header states the name, up to all hundred characters |
| Tarball.HeaderByPosition | source/core/tarball.cpp:15-78 | every one of the 512 bytes of a header: name, mode, group, size, time, checksum, magic and version at their offsets, zero elsewhere |
| Tarball.Start | source/core/tarball.cpp:47-54 | writes magic, version, mode, group and time |
| Tarball.Setname | source/core/tarball.cpp:15-24 | refuses an empty path or one over 100 characters, and writes any other |
| Tarball.Checksum | source/core/tarball.cpp:56-70 | the three loops sum the header and store the digits |
| Tarball.MakeHeader | source/core/tarball.cpp:72-78 | builds the specified header |
| Tarball.WriteZeros | source/core/tarball.cpp:25-31 | writes zeros at a place of the file |
| Tarball.CopyBuffer | source/core/tarball.cpp:41-42 | copies one buffer |
| Tarball.CopyToFile | source/core/tarball.cpp:33-45 | the buffer loop writes the whole source in place |
| Tarball.Tarball.Include | source/core/tarball.cpp:72-92 | appends exactly one record behind those before, or nothing when the name is refused |
| Tarball.Tarball.AppendRecord | source/core/tarball.cpp:80-91 | header, content and zeros in place, and the offset at the next block |
| Tarball.Tarball.FinishBlock | source/core/tarball.cpp:86-91 | zeros up to the next block, a whole block when already on one |
| Tarball.Tarball.FileWalksToMembers | source/core/tarball.cpp:72-92 | what was included can be read back from the file |
| Tarball.IncludedOneMore | source/core/tarball.cpp:72-92 | a record written behind an archive gives the archive with that member |
| Tarball.ArchiveIsAligned | source/core/tarball.cpp:86-91 | archives are whole blocks long |
| Tarball.RecordsDoNotOverlap | source/core/tarball.cpp:80-91 | every record starts on a block, holds its member and ends where the next starts |
| Tarball.WalkRecovers | source/core/tarball.cpp:72-92 | walking by the octal sizes with the same padding rule recovers every name and content in order, for any run of includes |
| TextLines.SplitJoins | source/fs_sys/fsio.cpp:67-78 | joining the split lines with newlines gives the text back, and no line holds a newline |
| TextLines.SplitOfJoined | source/fs_sys/fsio.cpp:67-78 | splitting joined lines gives the lines back |
| TextLines.LineWithin | source/fs_sys/fsio.cpp:53-64 | a read that holds a newline, or comes up short, shows the whole line |
| TextLines.LinesFromStep | source/fs_sys/fsio.cpp:70-76 | one line taken, the rest starts behind its newline |
| TextLines.TextFile.ReadUpTo | source/fs_sys/fsio.cpp:59-60 | the available bytes |
| TextLines.TextFile.ReadLine | source/fs_sys/fsio.cpp:48-65 | terminates with the line that starts at the offset, whatever its length |
| TextLines.TextFile.GetAllLines | source/fs_sys/fsio.cpp:67-78 | terminates with the longest prefix of non-empty lines of the text |

## Left out

- Operating system and library calls (mmap, mprotect, msync, madvise, file locks, shared memory, mbedtls, LZ4, fibers, threads): taken as the flat-file, cipher and list operations they provide.
- Wrap-around of 64-bit offsets: the sums of file offset and size, of window start and size, and of counter block and window length stay below 2^64.
- Keystream.UpdateIsCtrPass: AES itself is an arbitrary function, so nothing is said about the cipher's own correctness.
- AesCipher.AesCipher.Process: in ECB mode the library is only asked for whole blocks.
- AesCipher.AesCipher.ProcessXts: the buffers reach to the end of the last sector, which the program decrypts whole; a null vector is refused by the library.
- XtsFile.XtsFile.ReadTypeImpl: buffers that end before the last sector does, where the program writes behind them.
- XtsFile.XtsFile.ReadInPlace: the same buffers.
- XtsFile.XtsFile.ReadThroughBuffer: sizes that are no whole sectors, where the program reads behind its second buffer.
- VirtualFiles.ReadSource: a mapped file, or a window, behind a source without a start or a size.
- BufferedFile's cache: the flat read and write contract is used instead.
- SlabHeap.KSlabHeap.Reserve: runs that would empty the slab, where the program takes the front of an empty list.
- KSlabHeap::Free and KTlsPageManager::Free: not called in these files, and their address tests do not match what is allocated.
- BlockManager.KMemoryBlockManager.Map: the third branch of Map and requests with a key strictly inside them; host protection bits and the protection call at the end are not modelled, nor are the reference counts of a block.
- BlockManager.KMemoryBlockManager.IsMappedInRange: walks that run past the last key or reach the sentinel, where the program reads behind the map or does not end.
- KMemory.KMemory.SetMemoryPermission: covers one whole block; ForEach over several blocks steps a raw node pointer.
- KMemory.KMemory.FillMemory: the same walks.
- KMemory.KMemory.MapSegmentMemory: a size of 0, for which the program clears up to a length computed from a pointer.
- ProcessLoader.LoadModules: a load start other than 0, the debug-only string dump, logging, sections that fill their last page, which the program's own assertion refuses, and modules without a .bss before the last one, for which SegmentsAgreeIff shows that the permissions differ.
- ProcessLoader.Boot: the same modules; section sizes from 2^32 on, and code that does not fit the slab of host pages.
- ProcessStart.StartProcess: the same modules, a stack that does not fit its segment or is no whole number of pages, and host pages that run out, where the program takes the front of an empty slab.
- ProcessStart.BootAndRead: the pages of stack and threads, which are mapped later.
- Address space randomisation: the offsets are drawn but not applied by the program.
- SysAllocator.SysAllocator.Map: the debug-only clearing of the guest range.
- GuestAccess: system calls, ticks and the disassembly dump of a halted recompiler; a halt is counted.
- HandleTable.KHandleTable.GetObject: the dynamic cast and the thread-type check; an index past the table, which the program does not guard against.
- HandleTable.KHandleTable.Free: a count that matches a slot without an object, and the slot lookup of count 0, which finds a free slot.
- ObjectLifetime.HandlesAfterAnyRun: more than 65535 allocations, after which counts repeat, and frees of count 0, which find a free slot.
- Concurrency of handle table, registry and scheduler: each call is one atomic step.
- TlsRegions.KProcess.AllocateTls: requests that reach the third branch of Map, which NextIsAnswered shows never to come up in a started process.
- TlsRegions.KProcess.Initialize: the first thread object, its handle and the entry point.
- Scheduler.KScheduler.Reeschedule: listed threads that are not initialised, for which the loop never ends, and a dead thread at the end of the list, whose erased entry the program still reads; fibers, host threads and the rotation of a core's own list.
- Scheduler.AnyRunIsFirstInFirstOut: threads emplaced twice.
- PartitionFs.PartitionFileSystem.Load: hashed partitions, which the constructor's own magic check turns away; the coverage statistics; names that run past the name table, which the model treats as a failed assertion.
- PartitionFs.PartitionFileSystem.OpenFile: entries whose offset and size wrap 64 bits.
- Ticket.Ticket.constructor: the fields of an unparsed ticket, which the program leaves uninitialised; title key decryption.
- Tarball.Tarball.Include: conformance to other tar readers, sizes and times from 8^11 on, making a path relative, and Finish.
- RomFs, content archives, metadata parsers, settings, key files, signature and hash verification, path globbing and the user interface: not part of this model.

# A verified model of Qiling's bookkeeping

Qiling leaves the execution of code to an emulation engine and keeps the rest of a
machine itself: a list of mapped memory ranges, a heap, module lists and stacks laid out
for a program, a debugger's packets and undo log, call frames, descriptors and hooks.
This project models those structures in Dafny and proves what they promise.

The engine is a small trusted machine (`Engine.dfy`): page-granular protection for every
mapped address, a byte for every address, and calls that refuse misaligned, overlapping or
unmapped ranges and then change nothing. Integers are unbounded, as in the source; where
the source masks, packs or truncates, the model does it explicitly, with the bit operations
of `Bits.dfy` and the packing of `Bytes.dfy`. An exception is an `Error` value.

Where the source changes an object in place the model has a class whose methods are proved
against functions on values (`QlMemoryManager` against `MapOps`, `QlMemoryHeap` against
`HeapOps`, `QlCoreHooks` against `HookOps`, and so on); the laws are lemmas about those
functions.

| files | what they model |
|---|---|
| `Results`, `Bits`, `Bytes`, `Engine` | outcomes, bit operations, byte memory, the engine |
| `MapInfo`, `MapSearch`, `MapOps`, `MapCallbacks`, `MemoryManager`, `MemorySnapshot` | the memory map, its searches, its edits, save and restore |
| `HeapOps`, `HeapBounds`, `HeapClear`, `Heap` | the heap on top of it, how far it maps, what clear leaves |
| `GdbCodec`, `GdbLink` | the debugger's packet codec and receive loop |
| `LdrRings`, `LdrData` | the PE loader's three module lists |
| `ElfRegions`, `ElfStack`, `Ihex` | ELF regions, the initial ELF stack, Intel HEX files |
| `Snapshots` | the debugger's stack of differential snapshots |
| `CallFrames` | native calls under the Intel conventions |
| `HookOps`, `Hooks` | the hook registry and dispatch |
| `Gdt` | segment descriptors and their table |

Where the code does something else than its documentation or a reader would expect, the
model follows the code and the contract says exactly when the expectation holds:

- `unmap` edits the list before it asks the engine, so a refusal leaves the list short of
  what the engine maps (`UnmapKeepsExactIff`, `UnmapCanLoseExact`). In runs whose unmaps take
  whole pages, all of them mapped or none, list and engine stay in agreement (`RunKeepsTidy`).
- The engine may both read and write any mmio range, while the list gives it the permissions of
  the callbacks there are (`MapMmioKeepsPermsIff`); and what `unmap` or `protect` leaves of an
  mmio range has lost its callbacks, so the map cannot be saved (`StepKeepsCallbacksIff`,
  `HalfUnmappedLosesCallbacks`).
- `protect` over several list entries changes the engine only, and an empty range inside an
  entry leaves an empty entry in the list (`ProtectKeepsPermsIff`, `ProtectKeepsWellFormedIff`).
- The heap compares `current_use` with its end but maps at `current_alloc`, so it can map
  past `end_address` (`EndCanBePassed`), by less than the largest request (`MappedBelowEnd`).
  A run stays within the end exactly if none of its requests overshoots (`WithinEndIff`), and
  with page-aligned bounds some run of requests of a given size passes it exactly if that size
  exceeds a page and there is room for four pages (`PassableIff`).
- `clear` unmaps the heap but keeps its chunks, so a later `alloc` hands out ranges that are
  not mapped (`ClearKeepsInvIff`, `ClearedRangeIsReused`, `ClearedByteIsReused`).
- A receive that completes a packet drops whatever follows it in the buffer, so pipelined
  messages are lost. A conversation is delivered exactly if every receive that completes a
  message ends there or runs over by just the next acknowledgement (`ConversationDelivered`,
  `PipelinedIsLost`, `SecondPacketIsLost`).
- The debugger's restore brings back the registers but never the memory map, so a command is
  undone exactly if it keeps the map (`ListIsNotRestored`, `CommandUndoneIff`). Ranges are
  compared by position: the bytes of a range that is listed before and after a command come back
  exactly if it stands at the same position both times or they did not change
  (`RangeUndoneIff`, `RangeMappedBelow`).
- On ARM64 a segment nested in its predecessor's pages shrinks the region
  (`CoveredExactly`, `NestedSegmentLosesPages`).
- Without a return address the last stack argument of a staged call overwrites the word at
  the old stack pointer (`CallNativeWithoutReturn`, `CallNativeOverwrites`).
- A 64-bit argument on 32-bit Intel is written to one slot and read from two
  (`WideArgument`, `WideArgumentMisread`).
- An instruction hook is removed only if its type is the number of the event type
  (`RemovedEverywhereIff`, `SyscallHookStays`), and a range hook misses an access that encloses the range
  (`BoundCheckMeaning`).

## Model

| member | source | states |
|---|---|---|
| Bits.Pow2TestExact | qiling/os/memory.py:239-240 | the alignment test accepts exactly the powers of two among positive numbers |
| Bits.AlignmentMeaning | qiling/os/memory.py:242-243 | clearing the low bits rounds down to a multiple and the complementary mask is the remainder |
| Bytes.PackWordByte | qiling/core_struct.py:22-75 | the byte of weight 256 to the power of i is the i-th of a packed word, or the i-th from its end on a big-endian machine |
| MapSearch.Align | qiling/os/memory.py:223-243 | the multiple at or just below a value |
| MapSearch.AlignUp | qiling/os/memory.py:245-265 | the multiple at or just above a value |
| MapSearch.AlignUpLeast | qiling/os/memory.py:245-265 | no multiple at or above the value is smaller |
| MapInfo.InsortFree | qiling/os/memory.py:86-97 | inserting a range that overlaps nothing keeps the list sorted and disjoint and gives its addresses the new attributes, all others keeping theirs |
| MapInfo.InsortKeepsOrder | qiling/os/memory.py:86-97 | inserting into a list in tuple order keeps it so, with the new entry behind all that are not greater and nothing else moved |
| MapInfo.ViewCut | qiling/os/memory.py:99-133 | cutting a range out of every entry unmaps exactly its addresses |
| MapInfo.CutWellFormed | qiling/os/memory.py:99-133 | what is left of a sorted disjoint list is sorted, disjoint and without empty entries |
| MemoryManager.OverlapsConsecutive | qiling/os/memory.py:103-107 | entries between two that overlap a range overlap it too, so the slice between the first and last index holds overlapping entries only |
| MemoryManager.QlMemoryManager.OverlapRanges | qiling/os/memory.py:103-107 | finds exactly the overlapping indices, which form one run |
| MemoryManager.QlMemoryManager.SplitOverlaps | qiling/os/memory.py:109-125 | leaves of each overlapping entry the parts outside the range |
| MemoryManager.QlMemoryManager.DelMapinfo | qiling/os/memory.py:99-133 | slicing out the run and re-inserting its remains is cutting the range out of the whole list; a range that overlaps nothing is an index error |
| MemoryManager.QlMemoryManager.AddMapinfo | qiling/os/memory.py:86-97 | puts an entry at its place in tuple order |
| MemoryManager.QlMemoryManager.ChangeMapinfo | qiling/os/memory.py:135-155 | new permissions split the one entry that holds the range and drop its mmio flag; a new label is given to that whole entry; with no such entry nothing changes |
| MapOps.ChangePermsMeaning | qiling/os/memory.py:135-155 | permissions change exactly on the named addresses when one entry holds them |
| MapOps.RelabelMeaning | qiling/os/memory.py:135-155 | a new label reaches every address of the entry that holds the range, and no other |
| MemoryManager.QlMemoryManager.Map | qiling/os/memory.py:593-613 | mapping, with its three ways to fail; afterwards list and engine are as specified by MapStep |
| MapOps.MapMeaning | qiling/os/memory.py:593-613 | a successful map gives exactly the named addresses the new attributes; a failing one changes nothing |
| MapOps.MapOutcome | qiling/os/memory.py:593-613 | which of the three errors a map ends in, for every argument; and what the engine holds when it succeeds: the given protection and zero bytes |
| MapOps.MapKeepsExact | qiling/os/memory.py:593-613 | list and engine name the same addresses afterwards |
| MemoryManager.QlMemoryManager.MapAnywhere | qiling/os/memory.py:558-580 | maps at the least suitable address, with the size rounded to pages; running out of memory means there is none; a refused call changes nothing |
| MemoryManager.FoundIsMappable | qiling/os/memory.py:558-580 | what the search finds, map accepts |
| MemoryManager.QlMemoryManager.MapMmio | qiling/os/memory.py:615-642 | hands the engine a wrapper for either access, lists the range as mmio with the permissions its callbacks imply, and keeps the callbacks |
| MapOps.MapMmioKeepsPermsIff | qiling/os/memory.py:615-642 | list and engine agree on the permissions of a new mmio range exactly if both callbacks are given |
| MapOps.MapMmioMeaning | qiling/os/memory.py:615-642 | only the named addresses change |
| MapOps.MapMmioOutcome | qiling/os/memory.py:615-642 | mapping mmio fails exactly if the engine refuses; otherwise it is readable and writable for the engine, and the callbacks are kept under its bounds |
| MemoryManager.QlMemoryManager.Unmap | qiling/os/memory.py:417-429 | cuts the list, asks the engine, and then forgets the callbacks of that very range; if the engine refuses, the list stays cut and the callbacks stay |
| MapOps.UnmapMeaning | qiling/os/memory.py:417-429 | the named range leaves the list and no other address changes, whatever the engine answers |
| MapOps.UnmapOutcome | qiling/os/memory.py:417-429 | an index error if no entry overlaps, an engine error if it refuses; the callbacks of just this range are forgotten exactly when neither happens |
| MapOps.UnmapKeepsExactIff | qiling/os/memory.py:417-429 | list and engine still agree exactly if the range is empty, or the engine accepts it (page-aligned and wholly mapped), or nothing in it was mapped |
| MapOps.UnmapCanLoseExact | qiling/os/memory.py:417-429 | unmapping half of a mapped page leaves it mapped in the engine but off the list |
| MemoryManager.QlMemoryManager.UnmapBetween | qiling/os/memory.py:431-447 | the loop over a copy of the list performs the rounds of UnmapEach |
| MapOps.UnmapBetweenMeaning | qiling/os/memory.py:431-447 | outside the bounds every address keeps its attributes, and unless the engine refuses a round no address between them is left, however many entries are spanned or split |
| MapOps.UnmapBetweenSucceeds | qiling/os/memory.py:431-447 | between page boundaries, over a page-aligned list, no round fails and list and engine stay in agreement |
| MemoryManager.QlMemoryManager.Protect | qiling/os/memory.py:582-591 | changes the engine and then the list on the pages from the one holding the first byte to the one holding the last |
| MapOps.ProtectMeaning | qiling/os/memory.py:582-591 | the engine changes exactly the addresses from the start of the first byte's page to the end of the last one's; the list follows, label kept and mmio flag dropped, if one entry holds that range, and is unchanged otherwise |
| MapOps.ProtectedPages | qiling/os/memory.py:582-591 | for a non-empty range those are exactly the addresses whose page holds one of its bytes |
| MapOps.ProtectOutcome | qiling/os/memory.py:582-591 | protect fails exactly if one of those pages is not mapped, and never touches bytes or callbacks |
| MapOps.ProtectKeepsPermsIff | qiling/os/memory.py:582-591 | after a granted call list and engine agree on permissions exactly if one entry holds the range or the engine had these permissions already |
| MapOps.ProtectKeepsWellFormedIff | qiling/os/memory.py:582-591 | the list stays well formed exactly if the rounded size is positive or the address is not strictly inside an entry |
| MapOps.ProtectCanLosePerms | qiling/os/memory.py:582-591 | one protect over two adjacent entries after which list and engine disagree |
| MapOps.ProtectCanLoseWellFormed | qiling/os/memory.py:582-591 | protecting no byte inside an entry lists an empty entry |
| MapOps.StepKeepsInv | qiling/os/memory.py:86-155 | each call keeps the list sorted, disjoint and within what the engine maps, and changes only addresses it names |
| MapOps.RunKeepsInv | qiling/os/memory.py:417-642 | so does every run of map, map_mmio, unmap, unmap_between, protect, relabelling and writes |
| MapOps.RunKeepsTidy | qiling/os/memory.py:417-642 | in every run, failing calls included, that unmaps whole pages, all or none of them mapped, list and engine keep naming the same addresses in page-aligned entries with permissions the engine knows; if each protect lies in one entry and each mmio range has both callbacks they agree on permissions too |
| MapOps.StartKeepsTidy | qiling/os/memory.py:417-642 | so it is in every such run from an empty machine |
| MapCallbacks.StepKeepsCallbacksIff | qiling/os/memory.py:417-642 | a call keeps the callbacks of all listed mmio ranges exactly if no part it leaves of one has bounds without callbacks; an unmap_between that fails on its way keeps them at least then |
| MapCallbacks.RunKeepsCallbacks | qiling/os/memory.py:417-642 | so does every run of such calls |
| MapCallbacks.HalfUnmappedLosesCallbacks | qiling/os/memory.py:417-429 | unmapping half of an mmio range loses the callbacks of the other half |
| MapOps.RunFrame | qiling/os/memory.py:417-642 | an address that no call of a run names keeps its attributes through the run |
| MapOps.WriteOutcome | qiling/os/memory.py:345-353 | a write goes through exactly if every byte is mapped, and changes those bytes alone |
| MapSearch.MappedRegions | qiling/os/memory.py:456-479 | the generator's loop yields the consolidated regions |
| MapSearch.RegionsMeaning | qiling/os/memory.py:456-479 | consolidated regions hold exactly the mapped addresses, in order, with real gaps between them |
| MapSearch.IsAvailableExact | qiling/os/memory.py:481-494 | is_available holds if and only if no address of the range is mapped |
| MapSearch.IsMappedExact | qiling/os/memory.py:496-508 | is_mapped holds if and only if every address of the range is mapped, across any number of entries |
| MemoryManager.MaxAddressExact | qiling/os/memory.py:32-46 | the highest address of a 64-bit, 32-bit or real-mode machine |
| MapSearch.FindFreeSpace | qiling/os/memory.py:510-556 | returns the lowest aligned address whose whole range is free and inside the bounds, and runs out of memory exactly when there is none |
| MapSearch.FirstFit | qiling/os/memory.py:538-554 | the first gap that fits holds the least candidate of all |
| MemorySnapshot.Save | qiling/os/memory.py:267-283 | copies every ram range and every mmio range, and fails exactly when an mmio range has lost its callbacks |
| MemorySnapshot.Restore | qiling/os/memory.py:285-305 | the two loops are RestoreStep |
| MemorySnapshot.RestoreRamSucceedsIff | qiling/os/memory.py:285-305 | restoring ram succeeds exactly when each saved range is wholly mapped or wholly free |
| MemorySnapshot.SavedRamSucceedsIff | qiling/os/memory.py:267-305 | so it does for a copy saved after one page-granular run and restored after another |
| MemorySnapshot.RestoreMmioSucceedsIff | qiling/os/memory.py:300-305 | so does putting back mmio ranges |
| MemorySnapshot.RestoreSucceedsIff | qiling/os/memory.py:285-305 | a whole restore goes through exactly when every saved range, ram or mmio, is wholly mapped or wholly free |
| MemorySnapshot.SavedSucceedsIff | qiling/os/memory.py:267-305 | the same for a copy saved after one page-granular run and restored after another |
| MemorySnapshot.RunIsSavable | qiling/os/memory.py:267-283 | after a run that leaves no part of an mmio range without callbacks the map can be saved |
| MemorySnapshot.EmptyRangeIsRefused | qiling/os/memory.py:285-305 | a saved range without addresses fails the assertion of the range test |
| MemorySnapshot.RestoreRamByte | qiling/os/memory.py:285-305 | when it succeeds every saved address holds its saved byte and every other address what it held before |
| MemorySnapshot.RestoreUndoes | qiling/os/memory.py:267-305 | save, anything, and a restore that goes through bring back every byte of ram listed at save time and leave bytes outside alone |
| MemorySnapshot.RestoredAttributes | qiling/os/memory.py:267-305 | a saved address that is listed when the copy is restored keeps its attributes; any other gets back those it was saved with, in list and engine, and an mmio range its callbacks |
| MemorySnapshot.UnsavedKeepsAttributes | qiling/os/memory.py:285-305 | an address that was not listed at save time keeps its attributes |
| MemoryHeap.QlMemoryHeap.SmallestFree | qiling/os/memory.py:700-702 | picks the first of the smallest free chunks that are large enough |
| MemoryHeap.QlMemoryHeap.Alloc | qiling/os/memory.py:690-724 | recycles or grows as AllocStep says, whose cases are AllocRecycles, AllocAppends and AllocMapsBlock |
| MemoryHeap.QlMemoryHeap.Free | qiling/os/memory.py:740-757 | clears the use mark of the first used chunk at the address, if there is one |
| MemoryHeap.QlMemoryHeap.Size | qiling/os/memory.py:726-738 | size of the chunk in use at an address, 0 if there is none |
| MemoryHeap.QlMemoryHeap.Clear | qiling/os/memory.py:760-770 | frees every chunk and unmaps every block, which never fails, and keeps the chunks listed |
| HeapOps.BestFitIsSmallest | qiling/os/memory.py:700-702 | a fitting chunk is found when there is one, none that fits is smaller, nor as small and earlier |
| HeapOps.AllocRecycles | qiling/os/memory.py:700-724 | if a free chunk is large enough, alloc returns the first of the smallest such chunks and changes its mark and nothing else |
| HeapOps.AllocAppends | qiling/os/memory.py:704-724 | otherwise, if the allocated part has room, a chunk is appended behind the used part and no memory is mapped |
| HeapOps.AllocMapsBlock | qiling/os/memory.py:706-724 | otherwise a block of whole pages is mapped behind the allocated part first; 0 is returned if the bound test fails, an error raised if the map refuses, and then nothing changes |
| HeapOps.BlockListed | qiling/os/memory.py:715-717 | such a block is listed with all permissions and the label "[heap]" |
| HeapOps.FindInUse | qiling/os/memory.py:772-786 | the first used chunk at an address, or none when no used chunk is there |
| HeapOps.SizeAtMeaning | qiling/os/memory.py:726-738 | size is that of the first used chunk at the address, 0 if there is none |
| HeapOps.FreeMarks | qiling/os/memory.py:740-757 | free clears the mark of the first used chunk at the address and changes nothing else |
| HeapOps.AllocKeepsInv | qiling/os/memory.py:690-724 | after alloc the chunks still tile the used part, the blocks tile the page-aligned allocated part, which is mapped, and use does not exceed it |
| HeapOps.FreeKeepsInv | qiling/os/memory.py:740-757 | so they do after free |
| HeapOps.ChunksDisjointAndMapped | qiling/os/memory.py:650-724 | different chunks do not overlap and every chunk byte is mapped |
| HeapOps.AllocMeaning | qiling/os/memory.py:690-724 | an alloc that returns a non-zero address raises the number of used chunks there by one and at no other non-zero address; one that returns 0 or raises changes nothing, for a heap that does not start at 0 |
| HeapOps.AllocReturnsOwnRange | qiling/os/memory.py:690-724 | the returned address is that of a used chunk of at least the requested size, all mapped and disjoint from every other chunk; chunks used before are other ones and unchanged |
| HeapOps.FreeMeaning | qiling/os/memory.py:740-757 | a successful free lowers it by one at its address; free succeeds exactly when a used chunk is there |
| HeapOps.HeapRunKeeps | qiling/os/memory.py:650-757 | in every run the invariant holds and the used chunks at a non-zero address are the allocs that returned it minus the successful frees of it |
| HeapOps.LiveAtMostOnce | qiling/os/memory.py:690-757 | after any run of positive requests an address is live at most once: free succeeds exactly if it was allocated once more than freed, and a second free of it fails |
| HeapOps.EmptyChunksShare | qiling/os/memory.py:690-757 | two requests of 0 bytes get the same address, which can then be freed twice |
| HeapBounds.WithinEndIff | qiling/os/memory.py:706-718 | a run from within the end stays within it exactly if no request, in the state it is made in, needs a block that passes the bound test, lies partly behind the end and is mapped |
| HeapBounds.SmallRunStaysWithin | qiling/os/memory.py:706-718 | with page-aligned bounds, none does if requests are at most a page or there is room for less than four pages |
| HeapBounds.PassableIff | qiling/os/memory.py:706-718 | with page-aligned bounds over free memory, some run of requests of at most a given size passes the end exactly if that size exceeds a page and there is room for four pages |
| HeapBounds.MappedBelowEnd | qiling/os/memory.py:706-718 | in every run from a new heap that does not start behind its end, what is mapped ends less than the largest request past end_address, and never past it when all requests are whole pages |
| HeapBounds.EndCanBePassed | qiling/os/memory.py:706-718 | three allocations after which the heap is mapped past its page-aligned end |
| HeapClear.ClearMeaning | qiling/os/memory.py:760-770 | clear succeeds and takes exactly the heap's own addresses off the map |
| HeapClear.ClearKeepsInvIff | qiling/os/memory.py:760-770 | the invariant survives clear exactly if no byte had been handed out |
| HeapClear.ClearedRangeIsReused | qiling/os/memory.py:690-770 | after clear any request that some former chunk could hold gets the address of such a chunk, none of the range mapped |
| HeapClear.ClearedByteIsReused | qiling/os/memory.py:690-770 | one byte allocated, cleared and allocated again: the same address, not mapped any more |
| GdbCodec.UnescapeEscape | qiling/debugger/gdb/gdb.py:919-940 | unescape undoes escape |
| GdbCodec.EscapeByte | qiling/debugger/gdb/gdb.py:920-930 | escaping replaces `*`, `#`, `$` and `}` by `}` and another byte, and no other byte |
| GdbCodec.EscapeConcat | qiling/debugger/gdb/gdb.py:920-930 | parts can be escaped separately |
| GdbCodec.UnescapeFront | qiling/debugger/gdb/gdb.py:932-941 | a brace and a byte stand for that byte with one bit flipped, any other byte for itself |
| GdbCodec.CountByteExact | qiling/debugger/gdb/gdb.py:947-963 | the count byte of a run would be `#` or `$` exactly for runs of 7 and 8, and what is emitted for any run length contains neither |
| GdbCodec.RleEncodeRun | qiling/debugger/gdb/gdb.py:943-973 | what a run of any length up to 97 is replaced by |
| GdbCodec.DecodeTriple | qiling/debugger/gdb/gdb.py:975-985 | a byte, a star and a count byte stand for 28 copies less than the count byte says, and for none if it says less |
| GdbCodec.DecodeByte | qiling/debugger/gdb/gdb.py:975-985 | a byte that no star follows stands for itself |
| GdbCodec.RleDecodeEncode | qiling/debugger/gdb/gdb.py:943-985 | run-length decoding undoes encoding for every byte string without `*`, which escaping removes, of any run lengths |
| GdbCodec.DecodeEncode | qiling/debugger/gdb/gdb.py:919-985 | the receiver's decoding undoes the sender's encoding for every byte string |
| GdbCodec.DecodeEscape | qiling/debugger/gdb/gdb.py:919-985 | data that a peer escapes without compressing is decoded as well |
| GdbCodec.EncodeUnstructured | qiling/debugger/gdb/gdb.py:919-973 | encoded data contains neither `#` nor `$` and is no longer than escaped data |
| GdbCodec.Checksum | qiling/debugger/gdb/gdb.py:988-989 | the sum of the bytes modulo 256 |
| GdbCodec.SumConcat | qiling/debugger/gdb/gdb.py:988-989 | sums of parts add up, and the sum of one byte is that byte |
| GdbLink.FrameFound | qiling/debugger/gdb/gdb.py:830-855 | a buffer that starts with a frame yields exactly its body and checksum |
| GdbLink.FindPacketExact | qiling/debugger/gdb/gdb.py:830-853 | a packet is found exactly if the buffer starts with a dollar, a body without `#`, a `#` and two hexadecimal digits, and its checksum is their value |
| GdbLink.HexDigits | qiling/debugger/gdb/gdb.py:830-855 | checksum digits are written in lower case and read in either |
| GdbLink.PrefixNotFound | qiling/debugger/gdb/gdb.py:849-853 | no proper prefix of a frame matches |
| GdbLink.Round | qiling/debugger/gdb/gdb.py:843-869 | one round of the loop is Receive |
| GdbLink.ReceiveCases | qiling/debugger/gdb/gdb.py:843-868 | one acknowledgement at the start is dropped; without a packet the rest is kept, with one the buffer is emptied and its message decoded, or its checksum is an error |
| GdbLink.ReadPackets | qiling/debugger/gdb/gdb.py:825-869 | the loop is the fold Link over the received chunks |
| GdbLink.LinkCases | qiling/debugger/gdb/gdb.py:833-869 | the loop ends with the connection or the first error, and otherwise hands each receive's buffer to the next |
| GdbLink.Reassembled | qiling/debugger/gdb/gdb.py:825-897 | however a frame, with or without an acknowledgement before it, is cut into chunks, its message is delivered once, at the last chunk, with an empty buffer after |
| GdbLink.ReceiveEnd | qiling/debugger/gdb/gdb.py:843-868 | the receive that completes a frame yields its message, or the checksum error, and bytes received behind it never reach the next round |
| GdbLink.ConversationDelivered | qiling/debugger/gdb/gdb.py:825-897 | however the arrivals of a conversation are cut into receives, all messages are delivered in order if and only if every arrival's end is the end of a receive, or is followed in the same receive by just the acknowledgement the next arrival starts with |
| GdbLink.PipelinedIsLost | qiling/debugger/gdb/gdb.py:825-897 | otherwise fewer messages are delivered than were sent |
| GdbLink.SecondPacketIsLost | qiling/debugger/gdb/gdb.py:825-897 | of two packets that arrive in one receive the second is lost |
| GdbLink.WrongChecksumRaises | qiling/debugger/gdb/gdb.py:855-860 | however a frame whose checksum differs from that of its body is cut, its last chunk ends the loop with an error and nothing is delivered |
| LdrData.PeLoader.InitLdrData | qiling/loader/pe.py:378-397 | both links of each list head are set to the head itself |
| LdrData.PeLoader.AddLdrDataTableEntry | qiling/loader/pe.py:399-458 | the writes of an addition, in order: forward links of the last node, back links of the heads, links of the entry |
| LdrData.LinkEntry | qiling/loader/pe.py:418-455 | net effect of those writes: the words an addition is about, and every other word unchanged |
| LdrData.HeadsLinkedRings | qiling/loader/pe.py:378-397 | initially each list is an empty ring |
| LdrData.EntryLinkedKeepsRings | qiling/loader/pe.py:399-458 | an addition appends the entry to each of the three rings |
| LdrData.AdditionsKeepRings | qiling/loader/pe.py:378-458 | after any number of additions each list is a well-formed circular doubly linked list of all entries in order |
| LdrData.WalksVisitEntries | qiling/loader/pe.py:378-458 | following Flink from a head visits the entries in order and returns to the head; following Blink visits them in reverse |
| LdrData.NodesExact | qiling/os/windows/structs.py:929-964 | where the list heads and an entry's link pairs lie, for either pointer size |
| LdrData.AdditionsConfined | qiling/loader/pe.py:378-458 | no byte other than the heads and the entries' link pairs changes in any number of additions |
| ElfRegions.SegPermsMeaning | qiling/loader/elf.py:129-144 | each flag bit gives the permission of its own name, and the engine's bit for it |
| ElfRegions.LoadRegions | qiling/loader/elf.py:154-196 | the loop that updates the last region is Consolidated |
| ElfRegions.RegionsSeparate | qiling/loader/elf.py:154-196 | regions are page-aligned, in order and disjoint, and the last ends where the last segment's pages end |
| ElfRegions.RejectedIffOverlap | qiling/loader/elf.py:180-193 | off ARM64 a file is rejected exactly when the pages of two consecutive segments overlap |
| ElfRegions.RegionsDiffer | qiling/loader/elf.py:165-174 | off ARM64 regions that touch differ in permissions |
| ElfRegions.SegmentHeld | qiling/loader/elf.py:154-196 | each segment lies in one region: off ARM64 one with exactly its permissions, on ARM64, when the ends are in order, one that has at least those |
| ElfRegions.CoveredExactly | qiling/loader/elf.py:154-196 | on every architecture an address is covered exactly if some segment has its page and no later segment ends at or before it |
| ElfRegions.UnionExact | qiling/loader/elf.py:154-196 | when the ends are in order the regions are exactly the union of the segments' pages |
| ElfRegions.AcceptedEndsInOrder | qiling/loader/elf.py:154-196 | off ARM64 the ends of an accepted file are in order |
| ElfRegions.NestedSegmentLosesPages | qiling/loader/elf.py:181-191 | an ARM64 file with a nested segment whose pages are not all covered |
| ElfRegions.ImageBoundsExact | qiling/loader/elf.py:215-215 | the image runs from the first segment's first page to the last segment's last; a file without segments is an index error |
| ElfStack.PushStr | qiling/loader/elf.py:275-285 | writes a terminated string below the top and returns its word-aligned address |
| ElfStack.PushStrings | qiling/loader/elf.py:290-304 | pushes a list of strings and notes their addresses, until one does not fit a word |
| ElfStack.LoadWithStack | qiling/loader/elf.py:269-360 | the whole sequence of pushes and table words, with its two ways to fail, is LoadStack |
| ElfStack.LoadSucceedsIff | qiling/loader/elf.py:269-360 | the stack is built exactly if there is a program name and argc, every string address and every auxiliary value fit a word; which error it ends in otherwise |
| ElfStack.BuiltText | qiling/loader/elf.py:275-310 | every string lies whole at its address, above the table, below the stack's end and below every string pushed before it, so none overlaps another or the table |
| ElfStack.BuiltConfined | qiling/loader/elf.py:275-358 | nothing outside the final stack pointer and the initial stack end is written |
| ElfStack.StackDescribesProgram | qiling/loader/elf.py:287-360 | the 16-byte aligned stack pointer points at argc, pointers to every argument, a null, pointers to every key, equals sign and value of the environment, and a null |
| ElfStack.DescribedOnce | qiling/loader/elf.py:287-360 | reading the stack back is unambiguous for strings without zero bytes |
| ElfStack.AuxEntries | qiling/loader/elf.py:328-348 | nineteen entries of which the last, and no other, is AT_NULL |
| ElfStack.AuxVectorFound | qiling/loader/elf.py:350-360 | the auxiliary vector lies whole at the address recorded for it |
| ElfStack.AuxVectorBehindEnvironment | qiling/loader/elf.py:348-358 | which is right behind the null that ends the environment pointers |
| ElfStack.AuxValues | qiling/loader/elf.py:312-348 | looking a key up in memory from that address gives the program's own value for it: headers, base, entry point and ids, and the system's constants; keys are distinct |
| ElfStack.AuxPointers | qiling/loader/elf.py:306-348 | the entries for the random bytes, the platform and the file name point at those texts |
| Ihex.IhexParser.ParseLine | qiling/loader/mcu.py:36-54 | data records are noted at the extended address, types 02 and 04 set it, others are ignored |
| Ihex.IhexParser.constructor | qiling/loader/mcu.py:16-34 | all records are parsed and their data merged into segments |
| Ihex.Reset | qiling/loader/mcu.py:98-100 | the segments are written in order |
| Ihex.MergingPreservesMemory | qiling/loader/mcu.py:15-100 | writing the merged segments gives the same memory as writing every data record in order, for any records |
| Ihex.SegmentsMaximal | qiling/loader/mcu.py:25-34 | merging keeps all data in order and no segment continues the one before it |
| Snapshots.RegistersUndone | qiling/debugger/qdb/utils.py:221-227 | former values of the changed registers over the current ones give all former values |
| Snapshots.OverlayUndoes | qiling/debugger/qdb/utils.py:242-250 | the pairs a command removed, put over what it left, are the bytes before the command |
| Snapshots.PatchedIsChanged | qiling/debugger/qdb/utils.py:229-317 | what a restore writes is exactly the former copies of the ranges that stand at the same position and have changed |
| Snapshots.MemoryUndone | qiling/debugger/qdb/utils.py:302-319 | restoring them makes the saved copy of memory the former one, without touching the map |
| Snapshots.RestoredMemory | qiling/debugger/qdb/utils.py:302-319 | also when the diff is absent or empty |
| Snapshots.RestoreUndoesCommand | qiling/debugger/qdb/utils.py:253-319 | one restore undoes one command that keeps the layout |
| Snapshots.ListIsNotRestored | qiling/debugger/qdb/utils.py:289-319 | whatever diff was recorded, restoring it leaves the memory map list and the mmio callbacks as they are |
| Snapshots.CommandUndoneIff | qiling/debugger/qdb/utils.py:229-319 | a command that keeps the registers' names is undone, registers, map and ram, if and only if it keeps the memory map |
| Snapshots.RangeUndoneIff | qiling/debugger/qdb/utils.py:229-319 | whatever a command does to the map, the restore goes through, and a range listed before and after gets its former bytes back if and only if it stands at the same position of both copies or its bytes did not change |
| Snapshots.RangeMappedBelow | qiling/debugger/qdb/utils.py:229-319 | a page mapped below the only listed one makes the restore change no memory |
| Snapshots.RestoresUndoCommands | qiling/debugger/qdb/utils.py:265-319 | k restores bring all registers and listed ram back to what they were k commands earlier, for every run and every k |
| Snapshots.SnapshotManager.Snapshot | qiling/debugger/qdb/utils.py:265-287 | runs the command and pushes the diff of the states around it; if a save fails nothing is pushed |
| Snapshots.SnapshotManager.Restore | qiling/debugger/qdb/utils.py:289-319 | pops the newest diff and applies it; an empty stack is an index error |
| CallFrames.ConventionsShaped | qiling/cc/intel.py:58-99 | the five Intel conventions use registers first, each once, and then the stack |
| CallFrames.ConventionSlots | qiling/cc/intel.py:58-106 | the registers of each convention in order, the offset of every stack slot, and who pops |
| CallFrames.MaskedMeaning | qiling/cc/__init__.py:151-163 | the mask cuts a value to its width, and a width of 0 leaves it alone |
| CallFrames.DistinctSlots | qiling/cc/__init__.py:121-149 | distinct slots are distinct registers or stack words that do not overlap |
| CallFrames.SlotsMeaning | qiling/cc/intel.py:32-43 | an argument takes one slot, a 64-bit one on a 32-bit machine two |
| CallFrames.CallNativeSucceedsIff | qiling/os/fcall.py:192-212 | for arguments of any parameter type, a call is staged exactly when there are slots to spare and the return address and the stack arguments fit a word |
| CallFrames.CallNativeDelivers | qiling/os/fcall.py:68-212 | after staging, reading the parameters gives each argument cut to its width; a 64-bit one on a 32-bit machine is its low word under what the slot above held |
| CallFrames.CallNativeConfined | qiling/os/fcall.py:192-212 | with a return address, nothing at or above the old stack pointer or below the new one is written |
| CallFrames.CallNativeWithoutReturn | qiling/os/fcall.py:192-212 | without one, the same holds if no argument is on the stack, and nothing above the word at the old stack pointer is written otherwise |
| CallFrames.CallNativeOverwrites | qiling/os/fcall.py:192-212 | without one and with stack arguments, the word at the old stack pointer becomes the last argument, if that takes one slot |
| CallFrames.UnwindUndoesCall | qiling/cc/intel.py:18-23 | unwinding returns the staged return address and moves the stack pointer back by the return address, and by the arguments if the callee pops them |
| CallFrames.StdcallRestoresStack | qiling/cc/intel.py:92-106 | under stdcall the stack pointer is exactly what it was |
| CallFrames.WideArgument | qiling/cc/intel.py:45-56 | a 64-bit argument on a 32-bit machine is accepted exactly if it fits 32 bits and read back exactly if the slot above holds zero |
| CallFrames.WideArgumentMisread | qiling/cc/intel.py:45-56 | with a 1 in the slot above, no 64-bit value passed under cdecl is read back, and none above 32 bits is accepted |
| CallFrames.QlFunctionCall.CountSlots | qiling/os/fcall.py:109-112 | slots of all arguments |
| CallFrames.QlFunctionCall.ReadParams | qiling/os/fcall.py:68-90 | the loop over parameter types is ParamsRead |
| CallFrames.QlFunctionCall.WriteParams | qiling/os/fcall.py:92-107 | the loop over arguments is ParamsWritten |
| CallFrames.QlFunctionCall.CallNative | qiling/os/fcall.py:192-212 | reserve, return address, arguments and entry point, in order |
| HookOps.AddKeepsHandles | qiling/core_hooks.py:289-358 | registering keeps one live engine handle for every key with hooks, and no other |
| HookOps.RemoveKeepsHandles | qiling/core_hooks.py:661-672 | so does removing |
| HookOps.ReleasesLiveHandle | qiling/core_hooks.py:661-672 | the last removal for a key finds its handle live and deletes it |
| HookOps.ClearKeepsHandles | qiling/core_hooks.py:705-725 | clearing leaves no engine handle behind |
| HookOps.AddTypesRegisters | qiling/core_hooks.py:289-358 | a hook registered with a mask is appended to the list of each type in the mask |
| HookOps.RemoveTypesDrops | qiling/core_hooks.py:651-703 | removing a hook takes it out of the lists looked up and changes no other |
| HookOps.RemovedEverywhereIff | qiling/core_hooks.py:651-703 | afterwards it is in no list, except an instruction hook whose type is not the event type's number |
| HookOps.SyscallHookStays | qiling/core_hooks.py:651-703 | a hook on the system call instruction is still in its list after its removal |
| HookOps.OnceInEachList | qiling/core_hooks.py:289-358 | a registered hook is exactly once in the list of each of its keys |
| HookOps.HooksForInOrder | qiling/core_hooks.py:289-358 | a list holds the hooks registered for its key, and no others, in registration order |
| HookOps.RunExact | qiling/core_hooks.py:289-725 | in every run of registrations, removals and clearings handles exist exactly where there are hooks, and each list holds the registered hooks in registration order |
| Hooks.BoundCheckMeaning | qiling/core_hooks_types.py:15-16 | for accesses of any size, the bound test means no bounds, or overlap, except that an access reaching beyond both ends is missed |
| Hooks.Dispatch | qiling/core_hooks.py:201-215 | calls just the hooks whose begin and end say so, in order, up to and including the first that blocks |
| Hooks.DispatchMemory | qiling/core_hooks.py:217-238 | a faulting access is an error exactly if no hook is reached by it |
| Hooks.UnboundedIsCalled | qiling/core_hooks.py:360-384 | a hook with the default bounds is called on every access, unless an earlier one blocks |
| Hooks.QlCoreHooks.HookTraceCb | qiling/core_hooks.py:201-215 | dispatches a code or block event to the hooks of its type |
| Hooks.QlCoreHooks.HookMemCb | qiling/core_hooks.py:217-238 | and a memory event |
| Hooks.QlCoreHooks.QlHook | qiling/core_hooks.py:289-382 | registration goes through the types of the mask in order |
| Hooks.QlCoreHooks.HookAddress | qiling/core_hooks.py:534-557 | an address hook shares the handle of its address |
| Hooks.QlCoreHooks.HookDel | qiling/core_hooks.py:651-703 | removal by address or by the types of the mask |
| Hooks.QlCoreHooks.ClearHooks | qiling/core_hooks.py:705-725 | gives back every engine handle and empties all lists |
| Gdt.EntryDecodes | qiling/arch/x86_utils.py:66-87 | fields in range, and only those, are packed into eight bytes that decode to them by the Intel layout |
| Gdt.SegmentLossless | qiling/arch/x86_utils.py:95-107 | an accepted segment's bytes decode to its base, its access byte and, through the granularity shift, its limit, with the flags of a 32-bit segment; which segments are accepted |
| Gdt.SelectorMeaning | qiling/arch/x86_utils.py:90-93 | the selector names the index, the GDT and the privilege level of the access byte |
| Gdt.SegmentIsAccepted | qiling/arch/x86_utils.py:37-48 | an accepted segment's entry never looks like a free slot |
| Gdt.RegisteredSlots | qiling/arch/x86_utils.py:29-109 | in every run of accepted and refused registrations each slot holds the last segment accepted for it, untouched by the others |
| Gdt.RegisteredNeverFree | qiling/arch/x86_utils.py:37-109 | no slot a segment was registered in is ever all zero again |
| Gdt.GDTArray.SetItem | qiling/arch/x86_utils.py:29-35 | writes exactly the slot's bytes in place, or refuses |
| Gdt.GDTArray.GetItem | qiling/arch/x86_utils.py:23-27 | the slot's bytes, or an error out of bounds |
| Gdt.GDTArray.GetNextFree | qiling/arch/x86_utils.py:37-48 | the lowest all-zero slot of the range, -1 if there is none, an error if a slot out of bounds is reached first |
| Gdt.GDTManager.RegisterGdtSegment | qiling/arch/x86_utils.py:95-109 | changes the one slot and returns its selector, or changes nothing |

## Left out

- Engine: its internals are trusted; instruction execution, callbacks that map or unmap memory, and register aliasing are not modelled.
- Memory: strings, pointer helpers, searching with regular expressions, formatted map listings and unmap_all.
- MemoryManager.QlMemoryManager.Protect: sizes are non-negative, as everywhere in the memory manager except the searches.
- MemorySnapshot.RestoreUndoes: speaks of bytes; attributes are the subject of RestoredAttributes. What an mmio range reads as is up to its callbacks.
- HeapOps.HeapRunKeeps: runs of alloc and free only; what clear leaves is the subject of ClearKeepsInvIff and ClearedRangeIsReused. Saving and restoring the heap's own fields is not modelled.
- Debugger: sockets, logging, command handlers, and the register write path with its endianness helper.
- LdrData.PeLoader.AddLdrDataTableEntry: the other fields of an entry (base, names) and the allocation of its block; blocks are taken to lie apart from each other and from the loader data, as the heap hands them out.
- ElfRegions.LoadRegions: starts from the PT_LOAD headers in address order; parsing the file, mapping the regions and copying the segment data use the memory manager modelled elsewhere.
- ElfStack.LoadWithStack: strings are their Latin-1 bytes, so a character outside Latin-1 is not modelled, nor is unmapped stack memory; the table is kept as words until it is written.
- Ihex.IhexParser.ParseLine: starts from the decoded fields of a line; malformed hexadecimal text is not modelled.
- Snapshots.RestoresUndoCommands: every command keeps the map, which by CommandUndoneIff is what undoing a single one takes.
- Snapshots.SnapshotManager.Snapshot: a command is a function on the machine; exceptions raised inside it are not modelled.
- CallFrames.CallNativeDelivers: the widths of the default accessors, up to native and 64 bits on a 32-bit machine; accessors a user supplies are not modelled. Stack memory is taken to be mapped and the stack pointer not to wrap around.
- CallFrames.ConventionsShaped: conventions for ARM, MIPS, PPC and RISC-V are not covered; the last two count a return address slot on the stack that they do not push.
- Hooks.Dispatch: callbacks do not change the hook lists while they run; interrupt numbers, return values of instruction hooks and exceptions raised by callbacks are not modelled.
- Gdt.GDTArray.SetItem: the table region is an array of its own; mapping it and loading GDTR are not modelled.
- Kernel module relocation, Mach-O, UEFI and EVM loading, operating system layers, the multitasking extension, file systems and the user interfaces.

# A verified model of GMAC's memory data path

GMAC lets host and accelerator code share objects by host address. A shared object is cut into coherence
blocks; every copy, fill and translation is done block by block, through asynchronous I/O buffers, by direct
block-to-block copies, or over several accelerator replicas. This project models those routines and proves that
each of them is one flat operation on bytes, and says exactly when where that is not always so. It also models
the runtime's one-time initialisation and three small languages in the bundled test framework.

## Layout

| file | what it models |
|---|---|
| `Transfers.dfy` | asynchronous transfers on values: disciplined programs, completion schedules |
| `Machine.dfy` | memory and I/O buffers as objects that record the program they perform |
| `SharedObject.dfy` | a shared object, its blocks, `blockEnd`, `firstBlock`, `memoryOp` |
| `ObjectCopies.dfy` | the double-buffered copies and the fill of one object |
| `FastPath.dfy` | the block-to-block path of an object-to-object copy |
| `ObjectIndex.dfy` | the map of objects keyed by end address |
| `Manager.dfy` | `Manager::memcpy` and `memset` over mixed host and object memory |
| `OwnerLists.dfy`, `BlockGroup.dfy` | owners of an object and of its blocks, tiling, address translation |
| `Replicas.dfy` | a block with copies at several accelerator addresses |
| `References.dfy` | reference counts over the maps of a process |
| `SubBlocks.dfy`, `Bits.dfy` | shift-and-mask addressing and the bitwise operators |
| `Tiling.dfy` | the three block lookups agree |
| `InitOnce.dfy` | the lock-free one-time initialisation, any number of threads |
| `Regex.dfy` | the backtracking matcher for simple regular expressions |
| `Literals.dfy` | the C string literal printer, and a lexer for what it prints |
| `Utf8.dfy` | wide strings to UTF-8 |

`Arithmetic.dfy`, `Bytes.dfy` and `Wrappers.dfy` hold what they share. `dafny verify dfyconfig.toml` checks everything.

Copies are modelled at two levels. A routine is a method on a `Machine`, whose `mem` is the sequential state:
a transfer takes effect when it is issued. The machine also records, in ghost state, the program of host copies,
issued transfers and waits, and its invariant says that the program is disciplined: nothing touches what an
outstanding transfer still reads or writes, and a buffer is idle whenever the host reads, overwrites or destroys
it. `ScheduleIndependence` then shows that the device may move the bytes in any order, at any time before the
wait, with the same result.

## Model

| member | source | states |
|---|---|---|
| Transfers.ScheduleIndependence | src/memory/Object.cpp:94-148 | a program that never touches memory of an outstanding transfer and waits for all of them leaves the same memory under every completion schedule, byte by byte |
| Transfers.ScheduleAgrees | src/memory/Object.cpp:121-145 | every reachable configuration of every schedule agrees with the sequential state on all bytes no outstanding transfer still has to write |
| Transfers.NoDeadlock | src/memory/Object.cpp:248-294 | until the program is over and every byte has arrived, a step is possible |
| Transfers.EveryStepAdvances | src/memory/Object.cpp:248-294 | every step decreases a well-founded measure, so every schedule ends |
| Machine.IOBuffer.constructor | src/core/IOBuffer-impl.h:6-10 | a buffer keeps its address and size and starts Idle |
| Machine.EverySchedule | src/memory/Object.cpp:321-358 | after any of the modelled routines, every completion schedule of the operations it performed ends in the memory its contract states |
| SharedObject.Object.BlockEnd | src/memory/Object-impl.h:61-68 | the distance to the end of the block or of the object is positive within the object and never leaves it |
| SharedObject.Object.FirstBlock | src/memory/Object.cpp:27-39 | the walk finds the block that contains the offset and the offset within it, or the end exactly for offsets beyond the object |
| SharedObject.Object.MemoryOp | src/memory/Object.cpp:52-69 | the walk over the blocks is one flat copy between the object and the buffer, in either direction, waiting before each block, with at most the last transfer outstanding |
| SharedObject.Object.WroteContents | src/memory/Object.cpp:52-69 | what `Wrote` says of storage is one splice of the object's flat contents |
| ObjectCopies.Memset | src/memory/Object.cpp:72-86 | the fill sets exactly the bytes of the range that lie within the object, wherever the range starts and ends |
| ObjectCopies.MemcpyToObject | src/memory/Object.cpp:88-151 | host bytes land in exactly the range, for every block size, offset, length and buffer size; buffers are idle when refilled and destroyed; no transfer is left |
| ObjectCopies.MemcpyFromObject | src/memory/Object.cpp:300-362 | the host range receives exactly the object's bytes and the object keeps its contents; no transfer is left |
| ObjectCopies.MemcpyBuffered | src/memory/Object.cpp:210-297 | the double-buffered object-to-object copy is one flat copy, for any pair of offsets and any length over disjoint storage |
| ObjectCopies.RoundTrip | src/memory/Object.cpp:88-362 | writing host bytes and reading them back gives the original bytes, and disturbs no other byte of the object |
| FastPath.FastWrites | src/memory/Object.cpp:167-208 | in step, the walk with one iterator per object ends and writes exactly the source bytes to the destination range |
| FastPath.OutOfStep | src/memory/Object.cpp:179-203 | otherwise there are memory contents it copies wrongly, or an iterator leaves its object |
| FastPath.FastPathExact | src/memory/Object.cpp:167-208 | the fast path is a flat copy for every memory contents if and only if the destination starts no later within its block than the source, or the copy ends inside the first destination block |
| FastPath.OutOfStepExample | src/memory/Object.cpp:179-203 | two objects of two 4-byte blocks: a copy of 4 bytes from offset 0 to offset 2 goes wrong |
| FastPath.NamedBlock | src/memory/Object.cpp:173-186 | the block an iterator names is found by division, its rest is `blockEnd`, and the next block starts there |
| FastPath.MemcpyFast | src/memory/Object.cpp:172-207 | the loop performs that walk, in step or not, whenever no iterator leaves its object and no copy its blocks; in step the result is one flat copy |
| FastPath.MemcpyObjectToObject | src/memory/Object.cpp:153-298 | both paths give the same flat copy, the fast one when in step; out of step the fast one gives what the walk gives |
| ObjectIndex.MapFindIsScan | src/memory/ObjectMap.cpp:36-47 | for disjoint non-empty objects the keyed lookup is the linear scan for the lowest object that ends after the address and starts at or before its range's end |
| ObjectIndex.FindContaining | src/memory/ObjectMap.cpp:36-47 | with size 0 an object is found if and only if it contains the address |
| ObjectIndex.ObjectMap.AddObject | src/memory/ObjectMap.cpp:88-97 | adds the object to the members, true if and only if it was none, keeps the index, marks it modified |
| ObjectIndex.ObjectMap.RemoveObject | src/memory/ObjectMap.cpp:99-126 | removes the object from the members, true if and only if it was one, keeps the index |
| ObjectIndex.ObjectMap.HasObject | src/memory/ObjectMap.cpp:128-133 | true if and only if the object is a member |
| ObjectIndex.HasMember | src/memory/ObjectMap.cpp:128-133 | looking up an object's own range finds it if and only if it is a member |
| ObjectIndex.FindAfterUpdates | src/memory/ObjectMap.cpp:88-141 | after any sequence of additions and removals of disjoint objects, lookups are the linear scan over the current members |
| Manager.MemcpyPiece | src/memory/Manager.cpp:649-681 | an iteration, whichever of its four kinds it is, copies its piece of the flat range and makes progress |
| Manager.Memcpy | src/memory/Manager.cpp:604-689 | a copy over mixed host and object memory is one flat copy of what the program sees, when neither range runs past the end of its first object |
| Manager.MemcpyTerminates | src/memory/Manager.cpp:638-682 | the loop ends if and only if neither range runs past the end of its first object; otherwise from some iteration on the offset and both objects stay what they are for ever, with bytes still to copy |
| Manager.NeverEndingExample | src/memory/Manager.cpp:638-682 | one object of 8 bytes and a copy of 9 bytes from its start: no iteration reaches the end |
| Manager.GapExact | src/memory/Manager.cpp:552-563 | within an object the gap computed in an int is exact if and only if the position is at most 2^31 bytes from the start of the object |
| Manager.SetByte | src/memory/Manager.cpp:547-560 | a host write at any address the program names sets the byte the program sees there, whether it is host memory or an object's |
| Manager.SetPiece | src/memory/Manager.cpp:551-572 | a turn of the loop, with a truncated gap or not, leaves memory from which the rest of the loop has the same outcome |
| Manager.Memset | src/memory/Manager.cpp:508-582 | whenever no null object is dereferenced and the address space is not left, the outcome is that of the loop on what the program sees; for a settable range it is one flat fill, and the loop ends |
| Manager.MemsetIsFlat | src/memory/Manager.cpp:508-582 | memset is one flat fill for every memory contents if and only if the range touches and ends before no object; or it starts in an object and ends there, or starts within the first 2^31 bytes of that object, or its size is the truncated gap |
| Manager.NullDereference | src/memory/Manager.cpp:530-535 | an owner is found but no object at the start exactly if no object contains the start and one starts in the range or right after it; then a null object is dereferenced |
| Manager.NullDereferenceExample | src/memory/Manager.cpp:530-535 | a fill of the 8 bytes right before an object |
| Manager.TruncatedGap | src/memory/Manager.cpp:552-570 | with a truncated gap that is not the size, some byte comes out wrong |
| Manager.TruncatedGapExample | src/memory/Manager.cpp:552-570 | an object of 2^31 + 2 bytes and a fill of its last byte and the next |
| OwnerLists.AddToPlaces | src/memory/BlockGroup-impl.h:219-226 | the mode is appended to the list of its address, or starts that list; the other lists stay |
| OwnerLists.RemoveAtPlaces | src/memory/BlockGroup-impl.h:284-296 | the first occurrence is taken out of its list, and the list with its last mode; order and other lists stay |
| OwnerLists.AddToGood | src/memory/BlockGroup-impl.h:219-226 | pushing a mode keeps every mode in one list and no list empty, and adds one to their total |
| OwnerLists.RemoveAtGood | src/memory/BlockGroup-impl.h:284-296 | so does erasing one, with its address when the list becomes empty |
| OwnerLists.SumIsListed | src/memory/BlockGroup-impl.h:219-238 | the lengths of the lists sum to the number of modes listed |
| OwnerLists.InverseAdd | src/memory/GenericBlock-impl.h:37-56 | adding an owner keeps the owner map the inverse of the lists |
| OwnerLists.InverseRemove | src/memory/GenericBlock-impl.h:72-88 | removing one does, too |
| BlockGroup.GenericBlock.AddOwner | src/memory/GenericBlock-impl.h:31-64 | maps the mode to its address in both directions; the shortcut becomes a first owner and otherwise stays |
| BlockGroup.GenericBlock.RemoveOwner | src/memory/GenericBlock-impl.h:66-92 | finds the mode's list and forgets the mode in both directions; the shortcut stays as it is |
| BlockGroup.Replay | src/memory/GenericBlock-impl.h:31-92 | after any history of owners joining and leaving, the shortcut of a block is the mode that last joined it while it had no owners; so with one owner it names that owner if and only if the mode that came first has not left |
| BlockGroup.BlockGroup.PopulateBlocks | src/memory/BlockGroup-impl.h:58-77 | the blocks partition the object, all of the block size but perhaps the last |
| BlockGroup.BlockGroup.RepopulateBlocks | src/memory/BlockGroup-impl.h:79-102 | new blocks at the same places, each knowing the one owner at its offset |
| BlockGroup.BlockGroup.AddOwner | src/memory/BlockGroup-impl.h:173-241 | keeps the invariant: a partition into blocks, every mode in one list, owners counted, a sole owner the shortcut, every block's owner map the inverse of its lists at the block's offset; there is a new owner if and only if the allocations succeed |
| BlockGroup.BlockGroup.RemoveOwner | src/memory/BlockGroup-impl.h:244-316 | keeps it; the blocks go with the last owner, which orphans the object unless its memory is the user's, and with the last but one the remaining owner becomes the shortcut |
| BlockGroup.BlockGroup.MapToAccelerator | src/memory/BlockGroup-impl.h:319-352 | keeps it; a sole owner moves to the new address with new blocks, whatever the protocol answers; nothing changes without memory or with several owners, but then the lock is still held at the end |
| BlockGroup.BlockGroup.Translation | src/memory/BlockGroup-impl.h:142-154 | every host address of the object translates to its owner's address space, at the owner's base plus the offset in the object; other modes of a shared object get the null pointer |
| BlockGroup.BlockGroup.OwnerIsListed | src/memory/BlockGroup-impl.h:156-171 | the owner of an address is the sole owner, or the current mode if it is an owner, or else the least of the owners |
| BlockGroup.UpperBlockContains | src/memory/BlockGroup-impl.h:148-151 | the keyed lookup finds the block that contains the address |
| Replicas.BlockCopies.ToAccelerator | src/memory/GenericBlock-impl.h:163-185 | one transfer per distinct address until one fails; if the shortcut runs where the copy is, on success every copy has the shadow's bytes in the range and nothing else changes; otherwise the bytes go to the shortcut's accelerator |
| Replicas.BlockCopies.CopyFromBuffer | src/memory/GenericBlock-impl.h:187-219 | the same from a buffer, or a write of the shadow alone |
| Replicas.BlockCopies.Memset | src/memory/GenericBlock-impl.h:299-323 | the same with a repeated byte |
| Replicas.CopyIsFlat | src/memory/GenericBlock-impl.h:163-219 | after any sequence of successful calls each copy is the flat byte string those calls write |
| Replicas.ReplicasAgree | src/memory/GenericBlock-impl.h:163-219 | copies in disjoint storage that agree before any sequence of successful calls agree after it |
| Replicas.BlockCopies.PerformAll | src/memory/GenericBlock-impl.h:163-323 | any calls of the three kinds, until one fails: the shadow and every copy are what the flat effects of the calls make of them, copies that agreed go on agreeing, and each call made one transfer per address, or none |
| Replicas.BlockCopies.OwnerReaches | src/memory/GenericBlock-impl.h:170-173 | a shortcut that names the owner runs on the accelerator that has the copy |
| Replicas.StrayWrite | src/memory/GenericBlock-impl.h:170-173 | a transfer by a mode comes out right in the copy if and only if the mode runs on the copy's accelerator, or the copy held the bytes already |
| Replicas.StrayWriteExample | src/memory/GenericBlock-impl.h:170-173 | a stale shortcut on another accelerator: a successful call leaves the only copy as it was |
| Replicas.AgreementAfterFailure | src/memory/GenericBlock-impl.h:316-319 | after a call that failed half-way they agree if and only if it wrote no copy, or wrote what was there |
| Replicas.HalfWrittenExample | src/memory/GenericBlock-impl.h:316-319 | two copies of one byte that a failed call leaves different |
| Replicas.BlockCopies.AddOwner | src/memory/GenericBlock-impl.h:31-64 | a copy at a new address is filled from the shadow if it is not the first and the protocol asks for it; copies that hold the shadow go on doing so if and only if the address is not new, or the fill succeeds, or the memory holds the block already |
| Replicas.StaleShortcut | src/memory/GenericBlock-impl.h:59-92 | the shortcut of a block with one owner can name a mode that is no owner |
| References.Reference.DecRef | src/util/Reference-impl.h:45-63 | the count goes down by one and the object is deleted when it reaches zero |
| References.Process.AddObject | src/memory/ObjectMap.cpp:88-97 | one more holder and one more reference if the map did not hold the object; counts stay conserved |
| References.Process.RemoveObject | src/memory/ObjectMap.cpp:99-126 | one holder and one reference less if the map held it; counts stay conserved |
| References.Process.GetObject | src/core/hpe/AddressSpace.cpp:21-44 | none is answered exactly if none of the mode's own, the shared, the global and the orphans' map has a hit, and otherwise the hit of the first of them in this order; the caller holds a counted reference |
| References.FindIsHit | src/memory/ObjectMap.cpp:36-47 | the keyed lookup answers the entry with the least end above the address if its object starts at or before the end of the range, and else none |
| References.OneAnswer | src/core/hpe/AddressSpace.cpp:21-44 | there is only one such answer, and there is one exactly if one of the four maps has a hit |
| References.Process.RemoveFromSpace | src/core/hpe/AddressSpace.cpp:57-85 | the mode's own map holds the object no more, and just one other place lets go of it: the shared map if that held it, else the global one, else the orphans; no other object is touched |
| References.Process.HostMappedAlloc | src/memory/Manager.cpp:151-164 | a host-mapped object is held by the set alone, which takes over the reference the object was created with |
| References.Process.Alloc | src/memory/Manager.cpp:118-149 | the object ends up held by the mode's map and the shared one, or host-mapped with integrated memory, or deleted if it got no owner; no handle is left |
| References.Process.FreeHostMapped | src/memory/Manager.cpp:206-216 | counts stay conserved if and only if the address is the start of the host-mapped object; an address inside it takes away the reference of the set, which goes on holding the object, and deletes the object if that was the last |
| References.DanglingExample | src/memory/Manager.cpp:206-216 | an object of 8 bytes at address 10 that is freed at address 12 is deleted while the set still holds it |
| References.Process.Free | src/memory/Manager.cpp:194-219 | the object the mode sees, or else the host-mapped one, loses the mode's own map and one shared map, or the set; held by nothing else it is deleted, and it is deleted if and only if afterwards no map holds it and no caller has a reference; counts stay conserved if and only if the address is freeable; no handle is left |
| References.AllocFreeExample | src/memory/Manager.cpp:118-219 | an object that mode 1 has allocated is seen by a fault of mode 2, and a free by mode 1 deletes it |
| References.Process.Memset | src/memory/Manager.cpp:508-582 | every object the loop looks up is released, whatever the gaps are; it fails if and only if there is an owner and no object at the start |
| References.Process.Memcpy | src/memory/Manager.cpp:604-689 | both objects are replaced and released in step with the pieces, and none is held at the end; a loop that copies nothing never ends, and keeps what it holds |
| References.Process.SignalRead | src/memory/Manager.cpp:451-478 | a read fault releases what it looks up, and succeeds if and only if one of the four maps has an object there |
| References.Process.SignalWrite | src/memory/Manager.cpp:480-506 | a write fault releases what it looks up, and succeeds if and only if one of the four maps has an object there and that handles it |
| References.Process.Owner | src/core/hpe/Process.cpp:305-315 | an address has no owner exactly if neither the shared nor the global map has a hit; no handle is left |
| References.Process.MakeOrphan | src/core/hpe/Process-impl.h:64-72 | a held object moves to the orphans without being deleted on the way |
| References.Process.Run | src/memory/Manager.cpp:118-689 | after any sequence of calls that all come to a good end, the count of every object is the number of maps that hold it, and it has been deleted once if there are none and not at all otherwise; the first call that does not is a free, a memset or a memcpy, and counts stop being conserved only with a free inside a host-mapped object |
| References.Process.Settled | src/util/Reference-impl.h:34-63 | without handles, an object is deleted if and only if no map holds it, and at most once |
| Bits.MaskIsMod | src/memory/Memory.h:107-116 | masking with a power of two less one is the remainder |
| Bits.ShiftIsDiv | src/memory/Memory.h:107-116 | shifting to the right is division by a power of two |
| SubBlocks.Log2 | src/memory/Memory.h:67-78 | for a power of two the loop inverts exponentiation |
| SubBlocks.Log2Checked | src/memory/Memory.h:80-95 | the floor of the logarithm, and `isPower` if and only if the argument is a power of two |
| SubBlocks.Init | src/memory/memory.cpp:34-49 | for powers of two the shifts, the mask and the sub-block count fit the two sizes |
| SubBlocks.IndexByDivision | src/memory/Memory.h:108-116 | the index is (off / SubBlockSize) mod SubBlocks |
| SubBlocks.SubBlockWithinBlock | src/memory/Memory.h:118-138 | the sub-block address is the block address plus the index times the sub-block size, on wrapping words |
| Tiling.GroupTilesObject | src/memory/BlockGroup-impl.h:58-77 | the blocks a group makes are a tiling as the copy routines need it |
| Tiling.LookupsAgree | src/memory/Object.cpp:27-39 | for every offset the walk, the upper bound of the end keys and the division find one and the same block, with the same offset in it |
| Tiling.UpperBoundAgrees | src/memory/BlockGroup-impl.h:148-151 | the upper bound of the end keys is the end of the block the walk finds |
| Tiling.BlockAddrIsBlock | src/memory/Memory.h:118-127 | `GetBlockAddr` is the host address of that block |
| InitOnce.InvariantKept | src/libs/common.cpp:35-59 | every step of every thread keeps the protocol's invariant |
| InitOnce.InitialisedOnce | src/libs/common.cpp:35-59 | in every interleaving of any number of threads `initGmac` is called at most once, a thread that is no runtime thread has left `enterGmac` only after it returned, and the in-GMAC marks are right |
| InitOnce.EntersEarly | src/libs/common.cpp:35-54 | a thread that lost the swap can be inside before initialisation has completed: by `enterGmacExclusive`, and as a runtime thread also by `enterGmac` |
| InitOnce.SafeIff | src/libs/common.cpp:35-54 | in every run threads are inside only an initialised runtime if and only if they are no runtime threads and come in by `enterGmac` |
| InitOnce.WaitersProceed | src/libs/common.cpp:37-46 | under any schedule, once the winner that came through `enterGmac` has taken three more steps, every waiter's next step ends its wait |
| InitOnce.WaiterProceedsIff | src/libs/common.cpp:35-54 | in every reachable state a waiting thread can get on if and only if `enterGmac` won the swap; after `enterGmacExclusive` it waits for ever |
| InitOnce.WaitingForEverExample | src/libs/common.cpp:41-53 | a run of two threads after which one waits for ever |
| Regex.AtomMeaning | lib/gtest-1.6.0/src/gtest-port.cc:203-222 | a valid atom matches the characters the documentation lists for it |
| Regex.EscapeIsValid | lib/gtest-1.6.0/src/gtest-port.cc:186-199 | a backslash and a character are valid exactly for the ASCII codes of punctuation and for eleven letters |
| Regex.EscapeMeaning | lib/gtest-1.6.0/src/gtest-port.cc:185-218 | what each escape matches, by character codes; escaped punctuation matches itself alone |
| Regex.SingleIsValid | lib/gtest-1.6.0/src/gtest-port.cc:260-282 | a single character is valid exactly if it is no repetition, bracket, bar or backslash |
| Regex.RepeatMeaning | lib/gtest-1.6.0/src/gtest-port.cc:295-348 | a plain character matches itself and a period anything but a newline, once, or as often as `?`, `*` and `+` say |
| Regex.AnchorMeaning | lib/gtest-1.6.0/src/gtest-port.cc:322-371 | a literal character is searched for anywhere, at the start, at the end or as the whole string |
| Regex.ParsePrint | lib/gtest-1.6.0/src/gtest-port.cc:232-286 | a regular expression is the text of one pattern only |
| Regex.PrintParse | lib/gtest-1.6.0/src/gtest-port.cc:232-286 | what parses is well-formed and prints as itself |
| Regex.ValidateRegex | lib/gtest-1.6.0/src/gtest-port.cc:232-286 | accepts a text if and only if it is that of a well-formed pattern |
| Regex.MatchRepetitionAndRegexAtHead | lib/gtest-1.6.0/src/gtest-port.cc:295-317 | true if and only if some number of repetitions followed by the rest matches a prefix |
| Regex.MatchRegexAtHead | lib/gtest-1.6.0/src/gtest-port.cc:322-348 | true if and only if a prefix is in the declarative language, all of the string if the pattern ends in `$` |
| Regex.MatchRegexAnywhere | lib/gtest-1.6.0/src/gtest-port.cc:358-371 | true if and only if some substring is in the language, with the anchors respected; ends on all inputs |
| Regex.FullTextParsed | lib/gtest-1.6.0/src/gtest-port.cc:404-422 | the text built for full matches is that of the pattern tied to both ends, unless it ends in an unrepeated escaped dollar |
| Regex.RE.Init | lib/gtest-1.6.0/src/gtest-port.cc:392-423 | the validity flag and the full text are those of the regular expression |
| Regex.RE.FullMatch | lib/gtest-1.6.0/src/gtest-port.cc:381-383 | decides the pattern for full matches |
| Regex.RE.PartialMatch | lib/gtest-1.6.0/src/gtest-port.cc:387-389 | decides whether some substring matches |
| Regex.FullMatchMeaning | lib/gtest-1.6.0/src/gtest-port.cc:381-423 | a full match is membership of the whole string, or of a prefix when the pattern ends in an escaped dollar |
| Regex.FullMatchExact | lib/gtest-1.6.0/src/gtest-port.cc:381-423 | full matches are exactly the members of the language if and only if the pattern does not end in an unrepeated escaped dollar |
| Regex.EscapedDollarExample | lib/gtest-1.6.0/src/gtest-port.cc:419-420 | the pattern of one escaped dollar fully matches "$x" |
| Literals.PrintCharsAsStringTo | lib/gtest-1.6.0/src/gtest-printers.cc:150-275 | the text of each byte is the one its range demands, with the quotes closed and opened again exactly between a hexadecimal escape and a hexadecimal digit; the whole lexes, by C99, to the bytes with a NUL and up to two octal digits after it merged into one |
| Literals.OneByte | lib/gtest-1.6.0/src/gtest-printers.cc:141-207 | a single byte is printed as itself if it is printable, as its two-character escape, as a NUL, or as `\x` and its upper-case digits without a leading zero |
| Literals.PlainString | lib/gtest-1.6.0/src/gtest-printers.cc:261-275 | bytes that need no escape are printed as they are |
| Literals.LexRest | lib/gtest-1.6.0/src/gtest-printers.cc:263-273 | wherever the loop is, what is still printed lexes to the bytes still to come; the hex flag keeps escapes from running on |
| Literals.ReadChar | lib/gtest-1.6.0/src/gtest-printers.cc:149-207 | the text of every character but NUL lexes to that character |
| Literals.RoundTrip | lib/gtest-1.6.0/src/gtest-printers.cc:261-275 | lexing the printed text recovers the bytes if and only if no NUL is followed by an octal digit |
| Literals.RoundTripExample | lib/gtest-1.6.0/src/gtest-printers.cc:261-275 | a NUL and the digit 1 are read back as one byte |
| Utf8.ChopLowBits | lib/gtest-1.6.0/src/gtest.cc:1421-1425 | remainder and quotient by a power of two |
| Utf8.CodePointToUtf8 | lib/gtest-1.6.0/src/gtest.cc:1435-1466 | the buffer holds the encoding of the code point, or the message, with its NUL |
| Utf8.ConvertedIffScalar | lib/gtest-1.6.0/src/gtest.cc:1435-1466 | the output decodes to the code point if and only if that is a Unicode scalar value |
| Utf8.BeyondUnicodeExample | lib/gtest-1.6.0/src/gtest.cc:1448-1453 | 0x110000 becomes four bytes that are not UTF-8 |
| Utf8.DecodeEncodeAll | lib/gtest-1.6.0/src/gtest.cc:1400-1404 | encoded code points decode to themselves, strictly if and only if all are scalar values |
| Utf8.EncodingUnique | lib/gtest-1.6.0/src/gtest.cc:1400-1404 | no two sequences of code points have the same encoding |
| Utf8.SurrogatePairs | lib/gtest-1.6.0/src/gtest.cc:1475-1489 | the masks recognise surrogate pairs and combine them as RFC 2781 does |
| Utf8.CodePointsDecoded | lib/gtest-1.6.0/src/gtest.cc:1509-1520 | the code points of the loop are those of section 2.2 of RFC 2781, and scalar values if and only if that decoder accepts the string |
| Utf8.DecodesIfWellFormed | lib/gtest-1.6.0/src/gtest.cc:1499-1503 | that decoder accepts exactly the strings in which surrogates come in pairs |
| Utf8.WideStringToUtf8 | lib/gtest-1.6.0/src/gtest.cc:1504-1526 | for every UTF-16 input, up to its NUL or limit, decoding the output by RFC 3629 gives what decoding the input by RFC 2781 gives, and fails if and only if that fails |
| Utf8.TakenUnits | lib/gtest-1.6.0/src/gtest.cc:1504-1513 | the units converted are those before the first NUL, and no more than the limit says |
| Utf8.WideUnits | lib/gtest-1.6.0/src/gtest.cc:1518-1520 | four-byte units are the code points |
| Utf8.InvalidMessage | lib/gtest-1.6.0/src/gtest.cc:1460-1461 | the message for a number that is too large, character by character |
| Utf8.UpperHexIs | lib/gtest-1.6.0/src/gtest.cc:1460-1461 | its digits are upper-case hexadecimal, without a leading zero, and stand for the number |

Where the code and its comments differ, the model follows the code. `RE::FullMatch` is documented to match the
entire string, which `FullMatchExact` shows to fail for patterns that end in an escaped dollar. `CodePointToUtf8`
is documented to replace everything above U+10FFFF by a message, but encodes numbers of up to 21 bits; see
`ConvertedIffScalar`. `IsUtf16SurrogatePair` accepts pairs only, so lone surrogates are encoded as three bytes,
which no strict decoder accepts.

Assumptions about code outside the model: `createIOBuffer` returns fresh memory of at least the requested size;
the allocator returns no memory that a held object occupies; `proc_.owner` finds an owner exactly when there is
an object; a failing transfer leaves accelerator memory as it was; a mode stays on its accelerator, to which all
its transfers go, and outlives its removal from a block; and a host write at an address of an object
reaches the object's byte, as the fault handler arranges (src/memory/posix/Handler.cpp:43-48 and
src/memory/protocol/Lazy.cpp:100-129).

## Left out

- Coherence protocols: copies between a block and a buffer act on one current storage per block; the block states, dual writes of a read-only block and the lazy updates between host and accelerator are not modelled, so nothing is claimed about host and accelerator seeing the same data.
- Failing transfers in the copy routines: `memoryOp` keeps only the status of the last block, and early returns leave buffers behind; the copies are modelled for transfers that succeed.
- Locks: but for the one `mapToAccelerator` keeps, locks are not modelled, and the classes are modelled for one thread at a time. Each step that changes a reference count keeps the invariant whatever references other callers hold.
- ASSERTION: the assertions are not evaluated in builds without debugging and are not modelled as checks.
- SharedObject.Object.MemoryOp: does not model the returned status, which is that of the last block only, because the transfers succeed.
- SharedObject.Object.BlockEnd: does not model that `offset + blockBase + blockSize` wraps around near 2^64, because no object lies there.
- Manager.Memset: takes addresses not to wrap around at 2^64, because the address space ends before; the host fill goes byte by byte.
- Manager.Memcpy: leaves out overlapping ranges, for which the host copy itself is undefined, and takes the owners to be found in the index that is searched for the objects; the replacement of objects at lines 640-647 is modelled and proved never to happen.
- FastPath.MemcpyFast: leaves out copies out of step between objects that share storage, whose block copies may overlap.
- BlockGroup.GenericBlock.Owner: says nothing about what the mode is good for that a stale shortcut answers; `BlockGroup.Replay` says when there is one.
- Replicas.BlockCopies.ToAccelerator: goes through the addresses in any order, of which the order of the code is one.
- BlockGroup.GenericBlock.AddOwner: leaves the update of a new copy to `Replicas.BlockCopies.AddOwner`, because a block by itself has no bytes.
- BlockGroup.BlockGroup.RemoveOwner: leaves out what the protocol does with the deleted blocks, because coherence is not modelled; the move to the orphan map is `References.Process.MakeOrphan`.
- References.Process.Memcpy: leaves out the bytes, which `Manager.Memcpy` copies; likewise `References.Process.Memset`.
- References.Process.Run: stops with the first call that does not come to a good end, because what follows then is not determined.
- References.Process.HostMappedAlloc: takes the memory of a host-mapped object to be disjoint from all others, as that of every new object; the bytes of host-mapped objects are not modelled.
- Multi-object `toIOBuffer` and `fromIOBuffer`, `globalAlloc`, and the map, remap and unmap calls, which abort.
- Machine.Machine.CreateIOBuffer: the memory of a destroyed buffer is never used again.
- InitOnce.InitialisedOnce: takes each access to shared memory as one atomic step in program order, and a thread's runtime flag as fixed.
- Regex.MatchRegexAnywhere: a C string is its characters before the terminator, shorter than the largest `size_t`; messages for invalid expressions are not modelled.
- Literals.PrintCharsAsStringTo: narrow strings only, and trigraphs are not replaced.
- Utf8.WideStringToUtf8: the statement about decoding is for two-byte `wchar_t`; for four-byte ones the output is stated code point by code point. `String` and stream classes are byte strings.

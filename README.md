# DragonOS exception vectors, page tables and page frames, in Dafny

This project models three parts of the DragonOS kernel and proves properties of them.

- **CPU exception layer** (`kernel/exception/trap.c`). It covers:
  - the gate table that `init_sys_vector` fills for the x86 exception vectors 0-20;
  - the decoders of the invalid-TSS and page-fault error codes;
  - the header each handler prints and whether it halts or returns.
- **Page tables** (`kernel/src/mm/page.rs`). It covers:
  - `PageFlags` and `PageEntry` as bit masks over a 64-bit word;
  - the index arithmetic of one `PageTable`;
  - `PageMapper`, which walks a radix tree of tables, maps, remaps, translates and unmaps pages in place, takes frames for new tables from a frame allocator and gives freed tables back;
  - the page-size rounding helpers.
- **Page frames** (`kernel/src/mm/allocator/page_frame.rs`). It covers:
  - page frames and their addresses;
  - the range iterators;
  - usage accounting;
  - the frame-allocator interface with its default methods and `&mut T` forwarding;
  - `allocate_page_frames` and `deallocate_page_frames`.

## How it is modelled

- **Modules.** `Traps` (trap.c), `Frames` (page_frame.rs), `Paging` (flags, entries, one table, rounding), `Walks` and `Mapper` (the mapper), and `Bits` (one-line bit-vector facts).
- **Proof modules.** `WalkProofs`, `MapProofs`, `UnmapProofs` and `Theorems` hold the proofs. `Routing` and `StaleTables` hold the concrete x86_64 runs behind the findings.
- **Architecture.** The constants of `MemoryManagementArch` are a parameter, `Paging.Arch`, and the lemmas state what they assume of it: disjoint masks, a nonzero present bit, and level shifts that fit in a word. `Paging.X86_64` is the four-level instance.
- **Memory.** Physical memory holding page tables is a map from (table address, entry index) to the entry word; a slot never written reads 0.
- **State.** `Paging.PhysMemory` is that memory as an object updated in place. `Frames.FrameAllocator` is the allocator, a class with the set of free frame numbers. `Mapper.PageMapper` owns both.
- **Specification functions.** Every mapper method is proved equal to a function of `Walks` over the memory and free frames it starts from. `Theorems` proves what those functions promise: translate after map, translate after remap, translate after unmap, and the frame unmap returns.
- **Walks.** The page-table walks take `index_of` and `next_level_table` as a `Walks.Steps` value. The walk lemmas hold for any steps that meet a few stated conditions, and `Walks.StepsOf(a)` is the instance built from an architecture. `Walks.StepsAsWrittenOf(a)` is the same with `index_of` as written.
- **Trap handlers.** A handler's run is the list of events it produces: the CR2 read, then the lines it prints. It ends with a disposition, `Halt` for `while (1);` or `Return`.

## Model

| member | source | states |
|---|---|---|
| Traps.VectorOf | kernel/exception/trap.c:34-318 | the vector a handler reports in its header is one of 0-14 and 16-20 |
| Traps.VectorOfInjective | kernel/exception/trap.c:34-318 | distinct handlers name distinct vector numbers in their headers |
| Traps.GateTable.SetTrapGate | kernel/exception/trap.c:7-8 | installs a trap gate at vector `n`, with the stack index and handler given, and changes no other vector |
| Traps.GateTable.SetIntrGate | kernel/exception/trap.c:9 | installs an interrupt gate at vector `n` and changes no other vector |
| Traps.GateTable.SetSystemTrapGate | kernel/exception/trap.c:10-12 | installs a system trap gate at vector `n` and changes no other vector |
| Traps.GateTable.InitSysVector | kernel/exception/trap.c:5-31 | the table afterwards is the old table overwritten by the twenty installs, in source order |
| Traps.SysGate | kernel/exception/trap.c:7-27 | the gate `init_sys_vector` installs at each vector, None where it installs nothing; its partners `Traps.SysGateDomain`, `Traps.SysGateKinds` and `Traps.SysGateRouting` state which vectors, which gate kinds and which handlers |
| Traps.InitTable | kernel/exception/trap.c:5-31 | the table after the twenty installs, in source order; its partners `Traps.InitTableAt` (each vector holds `SysGate`'s gate or what it held) and `Traps.InitIdempotent` state what it means |
| Traps.InitTableAt | kernel/exception/trap.c:5-31 | after initialisation a written vector holds its gate; any other vector keeps exactly what it held |
| Traps.SysGateDomain | kernel/exception/trap.c:5-31 | vectors 0-14 and 16-20 are written, and 15 and 21-255 are not (iff) |
| Traps.SysGateKinds | kernel/exception/trap.c:7-27 | interrupt gate iff vector 2, system trap gate iff vectors 3-5 (bounds included), trap gate otherwise, stack index 1 everywhere |
| Traps.SysGateRouting | kernel/exception/trap.c:7-27 | every written vector routes to the handler that reports that vector, and every handler is installed |
| Traps.InitIdempotent | kernel/exception/trap.c:5-31 | initialising twice gives the same table as initialising once |
| Traps.DecodeInvalidTss | kernel/exception/trap.c:162-176 | the lines `do_invalid_TSS` prints about its error code; its partners are the inverse `Traps.EncodeInvalidTss`, with `Traps.InvalidTssFacts`, `Traps.InvalidTssRoundTrip` and `Traps.InvalidTssDecodeDetermines` stating what each line means |
| Traps.TssLines | kernel/exception/trap.c:163-176 | one printed line per decoded fact, in order |
| Traps.InvalidTssFacts | kernel/exception/trap.c:163-174 | external event iff bit 0; exactly one descriptor table: IDT iff bit 1, LDT iff bit 1 clear and bit 2 set, GDT iff both clear |
| Traps.InvalidTssSelectorIndex | kernel/exception/trap.c:176 | the selector index is the last line, a multiple of 8, at most 0xfff8, and the same whatever bits 16-63 are |
| Traps.InvalidTssRoundTrip | kernel/exception/trap.c:162-176 | encoding the printed lines gives back exactly the bits the decode reads (bit 2 only while bit 1 is clear, nothing above bit 15) |
| Traps.InvalidTssDecodeDetermines | kernel/exception/trap.c:162-176 | two error codes print the same lines iff their reported bits agree |
| Traps.InvalidTssExamples | kernel/exception/trap.c:163-176 | 0x2 gives IDT and index 0; 0x13 gives external, IDT, index 0x10; 0x15 gives external, LDT, index 0x10 |
| Traps.DecodePageFault | kernel/exception/trap.c:235-252 | the lines `do_page_fault` prints about its error code; its partners are the inverse `Traps.EncodePageFault`, with `Traps.PageFaultFacts`, `Traps.PageFaultRoundTrip` and `Traps.PageFaultDecodeDetermines` stating what each line means |
| Traps.FaultLines | kernel/exception/trap.c:235-252 | one printed line per decoded fact, in order |
| Traps.PageFaultFacts | kernel/exception/trap.c:235-252 | not-present iff bit 0 clear; write iff bit 1 and read iff not; user iff bit 2 and supervisor iff not; reserved iff bit 3; fetch iff bit 4 |
| Traps.PageFaultRoundTrip | kernel/exception/trap.c:235-252 | encoding the printed lines gives back the five low bits of the error code |
| Traps.PageFaultDecodeDetermines | kernel/exception/trap.c:235-252 | two error codes print the same lines iff their five low bits agree |
| Traps.PageFaultExamples | kernel/exception/trap.c:235-252 | 0x0 prints not-present, read, supervisor; 0x7 prints write, user and no not-present line; 0x10 includes instruction fetch |
| Traps.SeverityTable | kernel/exception/trap.c:34-318 | Terminate only for the double fault, INT only for NMI, TRAP for int3 and overflow, ERROR / TRAP for debug, ERROR otherwise |
| Traps.Handle | kernel/exception/trap.c:34-318 | one handler run: the events and the disposition; its partners `Traps.OnlyGeneralProtectionReturns`, `Traps.HeaderFirst`, `Traps.PageFaultReadsCr2First` and `Traps.DecodersPrinted` state what every run does |
| Traps.OnlyGeneralProtectionReturns | kernel/exception/trap.c:209-218 | a handler returns iff it is the general-protection handler; all others halt |
| Traps.HeaderFirst | kernel/exception/trap.c:34-318 | every handler's first line is its header, with its label, its vector, the error code, RSP and RIP |
| Traps.PageFaultReadsCr2First | kernel/exception/trap.c:221-232 | the page-fault handler reads CR2 once, before any output, and prints that value; no other handler reads CR2 |
| Traps.DecodersPrinted | kernel/exception/trap.c:154-256 | the invalid-TSS and page-fault handlers print the information banner and then the decoder's lines, in order |
| Frames.PageFrame.New | kernel/src/mm/allocator/page_frame.rs:16-20 | the frame built from an address is the one containing it |
| Frames.PageFrame.Address | kernel/src/mm/allocator/page_frame.rs:23-25 | `phys_address`, the frame number times the page size, wrapping; `Frames.NewThenAddress` and `Frames.AddressThenNew` state that it is the inverse of `new` up to rounding |
| Frames.NewThenAddress | kernel/src/mm/allocator/page_frame.rs:16-25 | `new(p).phys_address()` is `p` rounded down to a page boundary: aligned, at most `p`, less than a page below it |
| Frames.AddressThenNew | kernel/src/mm/allocator/page_frame.rs:16-25 | `new(f.phys_address()) == f` when the address does not overflow |
| Frames.NewMonotone | kernel/src/mm/allocator/page_frame.rs:9-20 | under the derived ordering, `new` is monotone in the address |
| Frames.PageFrame.NextBy | kernel/src/mm/allocator/page_frame.rs:27-31 | `next_by(n)` adds exactly `n` to the page number when that does not overflow |
| Frames.PageFrame.Next | kernel/src/mm/allocator/page_frame.rs:33-35 | `next()` is `next_by(1)` and adds one to the page number |
| Frames.NextByAdds | kernel/src/mm/allocator/page_frame.rs:27-31 | stepping `a` then `b` frames is stepping `a + b` frames, wrap-around included |
| Frames.NextByAddress | kernel/src/mm/allocator/page_frame.rs:23-31 | without overflow, the frame `n` further on starts `n` pages further on |
| Frames.FrameRange | kernel/src/mm/allocator/page_frame.rs:37-43 | the documented range `[start, end)` has `end - start` frames, the k-th being `start + k` |
| Frames.PageFrameIter.IterRange | kernel/src/mm/allocator/page_frame.rs:38-43 | the iterator starts at `start` and ends at `end` |
| Frames.PageFrameIter.NextAsWritten | kernel/src/mm/allocator/page_frame.rs:57-63 | `next` as written: None iff `current == end`, otherwise `current.next()`, with nothing changed |
| Frames.PageFrameIter.Next | kernel/src/mm/allocator/page_frame.rs:46-63 | corrected `next`: None at the end and nothing changed; otherwise yields `current` and steps past it |
| Frames.DrainIsRange | kernel/src/mm/allocator/page_frame.rs:37-63 | calling the corrected `next` until None yields exactly `[start, end)` in order, then None |
| Frames.IterAsWrittenCounterexample | kernel/src/mm/allocator/page_frame.rs:38-63 | an iterator built by `iter_range(frame 0, frame 1)` and called `n` times with `next` as written yields frame 1 every time, which is outside `[0, 1)`, and never None; the corrected iterator yields frame 0 and then None |
| Frames.PageFrameUsage.Free | kernel/src/mm/allocator/page_frame.rs:159-161 | `free + used == total` |
| Frames.FrameAllocator.Allocate | kernel/src/mm/allocator/page_frame.rs:171 | None with nothing changed when no run is free; otherwise the address of the run's first frame, and exactly its frames stop being free |
| Frames.FrameAllocator.Freed | kernel/src/mm/allocator/page_frame.rs:174 | the frames `free(address, count)` returns are those of the run at `address` that the allocator manages |
| Frames.FrameAllocator.Free | kernel/src/mm/allocator/page_frame.rs:174 | exactly those frames become free again |
| Frames.FrameAllocator.AllocateOne | kernel/src/mm/allocator/page_frame.rs:176-178 | `allocate_one` is `allocate(1)`: one frame stops being free and its address is returned |
| Frames.FrameAllocator.FreeOne | kernel/src/mm/allocator/page_frame.rs:180-182 | `free_one(a)` is `free(a, 1)` |
| Frames.FrameAllocator.Usage | kernel/src/mm/allocator/page_frame.rs:184 | total is the number of managed frames, `used <= total`, and `free()` is the number of free frames |
| Frames.AllocationAccounting | kernel/src/mm/allocator/page_frame.rs:171 | a successful allocation takes `count` free frames inside the managed range, and the free count drops by exactly `count` |
| Frames.FrameAllocatorRef.Allocate | kernel/src/mm/allocator/page_frame.rs:189-191 | the `&mut T` impl's `allocate` does exactly what the borrowed allocator's does |
| Frames.FrameAllocatorRef.Free | kernel/src/mm/allocator/page_frame.rs:192-194 | forwards `free` unchanged |
| Frames.FrameAllocatorRef.AllocateOne | kernel/src/mm/allocator/page_frame.rs:195-197 | forwards `allocate_one` unchanged |
| Frames.FrameAllocatorRef.FreeOne | kernel/src/mm/allocator/page_frame.rs:198-200 | forwards `free_one` unchanged |
| Frames.FrameAllocatorRef.Usage | kernel/src/mm/allocator/page_frame.rs:201-203 | forwards `usage` unchanged |
| Frames.AllocatePageFrames | kernel/src/mm/allocator/page_frame.rs:209-216 | None iff the allocator's `allocate` returns None; otherwise the frame at the returned address, with those frames taken |
| Frames.DeallocatePageFrames | kernel/src/mm/allocator/page_frame.rs:222-226 | frees `count` frames at `frame.phys_address()` |
| Frames.AllocateDeallocateRoundTrip | kernel/src/mm/allocator/page_frame.rs:209-226 | deallocating the frames just allocated restores the free set |
| Paging.PageFlags.NewPageTable | kernel/src/mm/page.rs:234-242 | the default flags of a table entry; `Paging.NewPageTableX86` states what they are on x86_64 |
| Paging.PageFlags.UpdateFlags | kernel/src/mm/page.rs:252-259 | sets or clears the bits of `flag`; `Paging.UpdateFlagsSets`, `Paging.UpdateFlagsClears`, `Paging.UpdateFlagsKeepsOthers` and `Paging.UpdateFlagsIdempotent` state what it does |
| Paging.PageFlags.HasFlag | kernel/src/mm/page.rs:263-265 | all bits of `flag` set; `Paging.HasFlagIffSetIsNoop` relates it to `UpdateFlags` |
| Paging.PageFlags.Present | kernel/src/mm/page.rs:268-270 | `has_flag` of the present bit |
| Paging.PageFlags.SetUser | kernel/src/mm/page.rs:277-280 | `update_flags` of the user bit; its partner `User` reads it back (`Paging.SetUserThenUser`) |
| Paging.PageFlags.User | kernel/src/mm/page.rs:283-285 | `has_flag` of the user bit |
| Paging.PageFlags.SetWrite | kernel/src/mm/page.rs:292-298 | read-only bits to `!value`, then read-write bits to `value`; its partner `Write` reads it back (`Paging.SetWriteThenWrite`) |
| Paging.PageFlags.Write | kernel/src/mm/page.rs:301-305 | of the read-write and read-only bits exactly the read-write ones are set |
| Paging.PageFlags.SetExecute | kernel/src/mm/page.rs:310-316 | no-exec bits to `!value`, then exec bits to `value`; its partner `Execute` reads it back (`Paging.SetExecuteThenExecute`) |
| Paging.PageFlags.Execute | kernel/src/mm/page.rs:319-323 | of the exec and no-exec bits exactly the exec ones are set |
| Paging.UpdateFlagsSets | kernel/src/mm/page.rs:252-259 | `update_flags(flag, true)` sets every bit of `flag` |
| Paging.UpdateFlagsClears | kernel/src/mm/page.rs:252-259 | `update_flags(flag, false)` clears every bit of `flag` |
| Paging.UpdateFlagsClearedLacks | kernel/src/mm/page.rs:252-265 | after clearing a nonzero flag, `has_flag` is false |
| Paging.UpdateFlagsKeepsOthers | kernel/src/mm/page.rs:252-259 | bits outside `flag` are unchanged |
| Paging.UpdateFlagsIdempotent | kernel/src/mm/page.rs:252-259 | repeating an update changes nothing more |
| Paging.HasFlagIffSetIsNoop | kernel/src/mm/page.rs:252-265 | `has_flag(flag)` holds iff setting `flag` leaves the flags as they are, that is, iff all its bits are set |
| Paging.SetWriteThenWrite | kernel/src/mm/page.rs:292-305 | `set_write(v).write() == v` when the read-write and read-only bits are disjoint and differ |
| Paging.SetExecuteThenExecute | kernel/src/mm/page.rs:310-323 | `set_execute(v).execute() == v` when the exec and no-exec bits are disjoint and differ |
| Paging.SetUserThenUser | kernel/src/mm/page.rs:277-285 | `set_user(v).user() == v` for a nonzero user bit |
| Paging.NewPageTableX86 | kernel/src/mm/page.rs:234-242 | on x86_64 the default table flags are present, read-only, kernel-only and not executable |
| Paging.PageEntry.Present | kernel/src/mm/page.rs:196-198 | the present bit is set; `Paging.EntryPresentOf` and `Paging.SetFlagsPresent` state it for built and updated entries |
| Paging.PageEntry.Address | kernel/src/mm/page.rs:175-183 | `Ok` iff the present bit is set; both `Ok` and `Err` carry the masked address |
| Paging.PageEntry.Flags | kernel/src/mm/page.rs:186-188 | the bits under the flag mask; `Paging.EntryFlagsOf` and `Paging.SetFlagsFlags` state that it reads back the flags an entry was built or updated with |
| Paging.PageEntry.SetFlags | kernel/src/mm/page.rs:191-193 | `set_flags` as the entry it leaves; `Paging.SetFlagsFlags`, `Paging.SetFlagsKeepsOthers`, `Paging.SetFlagsMaskedAddress` and `Paging.SetFlagsPresent` state what it changes and keeps |
| Paging.EntryFlagsOf | kernel/src/mm/page.rs:186-188 | the entry `map_phys` builds by or-ing `phys` and `flags` gives back `flags`, for disjoint masks |
| Paging.EntryMaskedAddress | kernel/src/mm/page.rs:175-183 | the entry made by or-ing `phys` and `flags` gives back `phys` as its address |
| Paging.EntryPresentOf | kernel/src/mm/page.rs:196-198 | the entry made by or-ing `phys` and `flags` is present iff `flags` has the present bit |
| Paging.SetFlagsFlags | kernel/src/mm/page.rs:186-193 | `set_flags(f)` with `f` inside the flag mask makes `flags() == f` |
| Paging.SetFlagsKeepsOthers | kernel/src/mm/page.rs:191-193 | `set_flags` leaves every bit outside the flag mask unchanged |
| Paging.SetFlagsMaskedAddress | kernel/src/mm/page.rs:175-193 | `set_flags` keeps the entry's address |
| Paging.SetFlagsPresent | kernel/src/mm/page.rs:191-198 | after `set_flags(f)` the entry is present iff `f` has the present bit |
| Paging.EntryBase | kernel/src/mm/page.rs:73-80 | None iff `i >= PAGE_ENTRY_NUM` |
| Paging.EntryVirt | kernel/src/mm/page.rs:83-89 | None iff `i >= PAGE_ENTRY_NUM` |
| Paging.Entry | kernel/src/mm/page.rs:92-95 | None iff `i >= PAGE_ENTRY_NUM`, otherwise the word in slot `i` |
| Paging.EntryMapped | kernel/src/mm/page.rs:109-116 | None iff `i >= PAGE_ENTRY_NUM`, otherwise true iff the raw word is nonzero |
| Paging.SetEntry | kernel/src/mm/page.rs:98-102 | writes slot `i` for an index inside the table and nothing for one outside |
| Paging.IndexOf | kernel/src/mm/page.rs:123-132 | (corrected) an index it returns is below `PAGE_ENTRY_NUM` |
| Paging.IndexOfAsWritten | kernel/src/mm/page.rs:123-132 | `index_of` as written, which shifts the masked address without subtracting the base; `Routing.IndexOfAsWrittenRejectsUpperTables`, `Routing.IndexOfAsWrittenLosesTopUserPage` and `Routing.LeafIndexAt2M` show where it departs from `Paging.IndexOf` |
| Paging.NextLevelTable | kernel/src/mm/page.rs:135-146 | None iff level 0, index out of range or entry not present; otherwise level one lower, base `entry_base(i)`, address the entry's masked address |
| Paging.RoundDown | kernel/src/mm/page.rs:711-713 | `round_down_to_page_size`; the `RoundDown` lemmas below state what it means |
| Paging.RoundUp | kernel/src/mm/page.rs:716-718 | `round_up_to_page_size`; the `RoundUp` lemmas below state what it means |
| Paging.PageSizeIsX86 | kernel/src/mm/page.rs:711-718 | the rounding helpers use x86_64's page size |
| Paging.RoundDownAligned | kernel/src/mm/page.rs:711-713 | rounding down gives an aligned address |
| Paging.RoundDownBelow | kernel/src/mm/page.rs:711-713 | rounding down never goes above `addr` |
| Paging.RoundDownClose | kernel/src/mm/page.rs:711-713 | rounding down moves less than a page |
| Paging.RoundDownFixedIffAligned | kernel/src/mm/page.rs:711-713 | rounding down leaves `addr` unchanged iff it is aligned |
| Paging.RoundUpAligned | kernel/src/mm/page.rs:716-718 | rounding up gives an aligned address |
| Paging.RoundUpAbove | kernel/src/mm/page.rs:716-718 | without overflow, rounding up never goes below `addr` |
| Paging.RoundUpClose | kernel/src/mm/page.rs:716-718 | without overflow, rounding up moves less than a page |
| Paging.RoundUpFixedIffAligned | kernel/src/mm/page.rs:716-718 | without overflow, rounding up leaves `addr` unchanged iff it is aligned |
| Paging.RoundUpWraps | kernel/src/mm/page.rs:716-718 | past the last page, rounding up wraps to 0 |
| Routing.IndexOfAsWrittenRejectsUpperTables | kernel/src/mm/page.rs:123-132 | as written, a level-2 table covering 512 GiB-1 TiB rejects its own first address |
| Routing.IndexOfAcceptsUpperTables | kernel/src/mm/page.rs:123-132 | the corrected `index_of` routes that address to slot 0 |
| Routing.IndexOfWalksTopUserPage | kernel/src/mm/page.rs:73-80 | the corrected `index_of` routes the highest user page down all four levels, each table starting at its parent entry's base |
| Routing.IndexOfAsWrittenLosesTopUserPage | kernel/src/mm/page.rs:123-132 | as written, the same address is lost one level below the root |
| Routing.IndexOfTableEdges | kernel/src/mm/page.rs:123-132 | the corrected `index_of` on a level-1 table covering [1 GiB, 2 GiB): None just below and just past the range, slots 0, 1 and 511 inside it with entry bases at or below the address, bits 48-63 ignored |
| Routing.StepsTo2M | kernel/src/mm/page.rs:123-146 | with either `index_of`, the path 0x1000, 0x2000, 0x3000 routes 0x20_0000 through slots 0, 0 and 1 to the last-level table at 0x4000 with base 0x20_0000 |
| Routing.LeafIndexAt2M | kernel/src/mm/page.rs:123-132 | in that last-level table, the corrected `index_of` gives slot 0 for 0x20_0000 and the code as written gives None |
| Routing.WalkTo2M | kernel/src/mm/page.rs:560-576 | with either `index_of`, the walk for 0x20_0000 from the root is the walk from the last-level table |
| Routing.TranslateAsWrittenMisses2M | kernel/src/mm/page.rs:517-522 | with a page stored in that slot, `translate(0x20_0000)` finds nothing as written and finds the page with the corrected `index_of` |
| Routing.MapTo2M | kernel/src/mm/page.rs:446-458 | with either `index_of`, the `map_phys` loop for 0x20_0000 descends through the present tables to the last-level one |
| Routing.MapAsWrittenMisses2M | kernel/src/mm/page.rs:446-447 | as written, `map_phys(0x20_0000, ...)` over present tables returns with nothing mapped and memory and frames unchanged |
| Routing.MapCorrectedHits2M | kernel/src/mm/page.rs:446-454 | with the corrected `index_of`, the same call writes the entry into slot 0 of the last-level table and maps 0x20_0000 |
| Walks.AllocOne | kernel/src/mm/allocator/page_frame.rs:176-178 | None iff no frame is free; otherwise the address of a free frame, which leaves the free set |
| Walks.Decode | kernel/src/mm/page.rs:517-522 | Some iff the entry is present, then its masked address and flag bits |
| Walks.Walk | kernel/src/mm/page.rs:560-576 | a walk that completes ends at a last-level table, at the index `index_of` gives there |
| Walks.Root | kernel/src/mm/page.rs:394-399 | the root table is a valid table of the architecture |
| Walks.StepsOf | kernel/src/mm/page.rs:123-146 | the walk steps of an architecture: corrected `index_of`, `next_level_table`, entry decoding; `WalkProofs.StepsOfIndex` and the other `WalkProofs.StepsOf` lemmas state the conditions they meet |
| Walks.StepsAsWrittenOf | kernel/src/mm/page.rs:123-146 | the same steps with `index_of` as written; `Routing.StepsTo2M` and the 2 MiB lemmas use it |
| Walks.Lookup | kernel/src/mm/page.rs:517-522 | the address and flags of the present entry a walk reaches; `Theorems.LookupReaches` states it |
| Walks.Translate | kernel/src/mm/page.rs:517-522 | `translate`: the lookup from the root; `Theorems.MapThenTranslate`, `Theorems.RemapThenTranslate` and `Theorems.UnmapThenTranslate` state what it finds after each operation |
| Walks.RemapFrom | kernel/src/mm/page.rs:497-510 | the `remap` closure from a table; `Theorems.RemapFromThenLookup` states that the address stays and the flags change |
| Walks.Remap | kernel/src/mm/page.rs:497-510 | `remap` from the root; `Theorems.RemapFlushes` and `Theorems.RemapThenTranslate` state its flush and effect |
| Walks.MapFrom | kernel/src/mm/page.rs:446-476 | the `map_phys` loop from a table; `MapProofs.MapFromExistingPath`, `MapProofs.MapFromLands` and `Theorems.MapFromLooksUp` state what it does |
| Walks.MapPhysAsWritten | kernel/src/mm/page.rs:424-477 | `map_phys` without zeroing new tables (routing uses the corrected `index_of`); `StaleTables.MapPhysAsWrittenHitsStaleEntry` shows where that fails |
| Walks.MapPhys | kernel/src/mm/page.rs:424-477 | `map_phys` with new tables zeroed; `Theorems.MapPhysLoop`, `Theorems.MapThenTranslate` and `Theorems.MapTranslatedPanics` state what it does |
| Walks.Map | kernel/src/mm/page.rs:414-421 | `map`: `map_phys` of a frame from `allocate_one`; `Theorems.MapIsMapPhys` and `Theorems.MapThenTranslateFrame` state it |
| Walks.UnmapFrom | kernel/src/mm/page.rs:587-625 | `unmap_phys_inner`; the `UnmapProofs.UnmapFrom` lemmas and `Theorems.UnmapFromLooksUpNothing` state what it returns, writes and frees |
| Walks.UnmapPhys | kernel/src/mm/page.rs:544-557 | `unmap_phys`; `Theorems.UnmapPhysUnaligned`, `Theorems.UnmapPhysReturnsTranslate` and `Theorems.UnmapThenTranslate` state it |
| Walks.Unmap | kernel/src/mm/page.rs:532-536 | `unmap`: `unmap_phys`, then the mapped frame freed; `Theorems.UnmapFreesFrame` states it |
| WalkProofs.StepsOfIndex | kernel/src/mm/page.rs:123-132 | a walk's index step is `index_of` |
| WalkProofs.StepsOfNext | kernel/src/mm/page.rs:135-146 | a walk's next step on the word in memory is `next_level_table` on that memory |
| WalkProofs.NextLevelTableValid | kernel/src/mm/page.rs:135-146 | the table `next_level_table` returns is a valid table |
| WalkProofs.StepsOfIndexInTable | kernel/src/mm/page.rs:123-132 | indexes fall inside a table |
| WalkProofs.StepsOfZeroLeadsNowhere | kernel/src/mm/page.rs:135-146 | a zero entry leads to no table |
| WalkProofs.StepsOfNextAtAddress | kernel/src/mm/page.rs:135-146 | the next table is at the address held in the entry |
| WalkProofs.StepsOfSameLink | kernel/src/mm/page.rs:135-146 | entry words with the same present bit and address lead to the same table |
| WalkProofs.WalkAfterWrite | kernel/src/mm/page.rs:560-576 | rewriting an entry with a word that leads to the same place leaves every walk unchanged |
| WalkProofs.WalkThroughZeros | kernel/src/mm/page.rs:560-576 | if memory only lost entries to zero, a walk that still completes is the old walk |
| MapProofs.AllocFresh | kernel/src/mm/page.rs:461 | the frame `allocate_one` hands `map_phys` was free, is no longer free, and is inside the address mask |
| MapProofs.LinkLeads | kernel/src/mm/page.rs:463-473 | the entry `map_phys` writes for a new table leads to that table |
| MapProofs.NewTablesOfSound | kernel/src/mm/page.rs:461-473 | new tables come from free frames, and the linking entry leads to them |
| MapProofs.WalkDescend | kernel/src/mm/page.rs:567-573 | one step down a present entry: the walk goes on from the next table |
| MapProofs.MapDescend | kernel/src/mm/page.rs:456-458 | one step down a present entry: the `map_phys` loop goes on from the next table |
| MapProofs.MapGrow | kernel/src/mm/page.rs:459-473 | where a table is missing, the loop allocates one, links it and goes on from it |
| MapProofs.MapLeaf | kernel/src/mm/page.rs:448-454 | at the last level: NotMapped out of range, the panic on a nonzero slot, otherwise `entry` written there and nowhere else |
| MapProofs.LinkTableZeroed | kernel/src/mm/page.rs:471 | linking a zeroed table writes the link, zeroes the table and changes nothing else |
| MapProofs.MapFromExistingPath | kernel/src/mm/page.rs:446-476 | where every table on the walk exists, `map_phys` allocates nothing and either panics or writes `entry` into the last-level slot |
| MapProofs.MapFromLands | kernel/src/mm/page.rs:446-476 | a successful zeroing `map_phys` loop leaves the walk reaching a slot holding `entry`, frees no frame, and leaves the tables above untouched |
| MapProofs.NewTableCanLand | kernel/src/mm/page.rs:459-473 | after a new table is linked in, the mapping theorem's assumptions hold again from it |
| UnmapProofs.UnmapDescend | kernel/src/mm/page.rs:603-624 | one step down: recurse, then with `unmap_parents` unlink and free an emptied subtable |
| UnmapProofs.UnmapFromNoWalk | kernel/src/mm/page.rs:594-603 | where the walk stops short, `unmap_phys_inner` changes nothing and returns None |
| UnmapProofs.UnmapFromResult | kernel/src/mm/page.rs:587-625 | `unmap_phys_inner` returns what a lookup of `virt` finds before the entry is cleared |
| UnmapProofs.UnmapFromZeroes | kernel/src/mm/page.rs:587-625 | `unmap_phys_inner` only writes zeros, only frees frames, and leaves the last-level slot zero even if it was not present |
| UnmapProofs.UnmapFromWithoutParents | kernel/src/mm/page.rs:587-625 | without `unmap_parents`, only the last-level slot is cleared and nothing is freed |
| Theorems.DecodeEntry | kernel/src/mm/page.rs:443 | an entry made from an address and present flags decodes back to them |
| Theorems.DecodeZero | kernel/src/mm/page.rs:599-600 | a zero entry decodes to nothing |
| Theorems.LookupReaches | kernel/src/mm/page.rs:517-522 | a walk reaching a slot holding `entry` looks up what `entry` decodes to |
| Theorems.MapFromLooksUp | kernel/src/mm/page.rs:446-476 | after a successful zeroing loop, a lookup of `virt` gives what the written entry decodes to |
| Theorems.RootCanLand | kernel/src/mm/page.rs:444 | from the root, the mapping theorem's assumptions follow from `Sound` and separate tables |
| Theorems.MapPhysLoop | kernel/src/mm/page.rs:431-444 | an aligned `map_phys` runs the loop from the root with the entry made by or-ing `phys` and `flags` |
| Theorems.MapThenTranslate | kernel/src/mm/page.rs:424-522 | after `map_phys` maps `virt`, `translate(virt)` gives `(phys, flags)`, and no frame became free |
| Theorems.MapOverMapping | kernel/src/mm/page.rs:446-452 | the loop over an address that already looks up something panics and changes nothing |
| Theorems.MapTranslatedPanics | kernel/src/mm/page.rs:424-452 | an aligned `map_phys` of an address `translate` finds panics with memory and allocator unchanged |
| Theorems.MapIsMapPhys | kernel/src/mm/page.rs:414-421 | `map` is `map_phys` of the frame `allocate_one` hands out |
| Theorems.MapThenTranslateFrame | kernel/src/mm/page.rs:414-421 | after `map`, `translate(virt)` gives a frame that was free and no longer is |
| Theorems.RemapFromThenLookup | kernel/src/mm/page.rs:497-510 | remapping from a table keeps the address and gives the new flags |
| Theorems.SetFlagsStaysPresent | kernel/src/mm/page.rs:191-198 | present flags keep an entry present |
| Theorems.SetFlagsDecode | kernel/src/mm/page.rs:186-198 | an entry given present flags decodes to its old address and the new flags |
| Theorems.SetFlagsSameLink | kernel/src/mm/page.rs:135-146 | a present entry given present flags still links to the same table |
| Theorems.RemapFlushes | kernel/src/mm/page.rs:497-510 | `remap` returns a flush for `virt` iff the walk reaches a last-level slot, and otherwise changes nothing |
| Theorems.RemapThenTranslate | kernel/src/mm/page.rs:497-522 | after `remap`, `translate(virt)` gives the old address with the new flags |
| Theorems.UnmapPhysUnaligned | kernel/src/mm/page.rs:549-552 | an unaligned `unmap_phys` returns None and changes nothing |
| Theorems.UnmapPhysReturnsTranslate | kernel/src/mm/page.rs:544-557 | an aligned `unmap_phys` returns what `translate` found |
| Theorems.UnmapFromLooksUpNothing | kernel/src/mm/page.rs:587-625 | after `unmap_phys_inner` nothing is found at `virt` |
| Theorems.UnmapThenTranslate | kernel/src/mm/page.rs:544-557 | after an aligned `unmap_phys`, `translate(virt)` is None, and no frame stopped being free |
| Theorems.UnmapFreesFrame | kernel/src/mm/page.rs:532-536 | `unmap` of a translated address returns what `translate` found, frees that frame, and keeps every free frame free |
| Theorems.UnmapWithoutParents | kernel/src/mm/page.rs:609-622 | without `unmap_parents`, `unmap_phys` only zeroes the last-level slot and frees nothing |
| Mapper.AllocatedWord | kernel/src/mm/page.rs:461 | the address `allocate_one` returns is the frame the model of `map_phys` links |
| Mapper.NoIndexStep | kernel/src/mm/page.rs:447 | an out-of-range index ends the loop with nothing mapped and nothing changed |
| Mapper.LeafStep | kernel/src/mm/page.rs:448-454 | at the last level the loop panics on a nonzero slot and otherwise writes the entry |
| Mapper.DescendStep | kernel/src/mm/page.rs:456-458 | through a present entry the loop goes on from the next table |
| Mapper.NoFrameStep | kernel/src/mm/page.rs:461 | a missing table with no free frame ends the loop with nothing changed |
| Mapper.GrowStep | kernel/src/mm/page.rs:461-473 | a missing table gets a frame, zeroed and linked, and the loop goes on from it |
| Mapper.GrowDeadStep | kernel/src/mm/page.rs:473 | a linked table that cannot be entered ends the loop with nothing mapped |
| Mapper.StoreEntry | kernel/src/mm/page.rs:98-102 | `set_entry` updates memory as `SetEntry` describes |
| Mapper.AnyPresent | kernel/src/mm/page.rs:613-615 | the loop's answer is true iff some entry of the table is present |
| Mapper.UnmapLeafStep | kernel/src/mm/page.rs:597-601 | at the last level the entry is zeroed and what it decoded to is returned |
| Mapper.UnmapUpStep | kernel/src/mm/page.rs:603-624 | above the last level: recurse, then with `unmap_parents` unlink and free an emptied subtable |
| Mapper.UnmapStopStep | kernel/src/mm/page.rs:603 | with no next table, `unmap_phys_inner` returns None and changes nothing |
| Mapper.UnmapPhysInner | kernel/src/mm/page.rs:587-625 | the recursive method leaves memory, free frames and result as `Walks.UnmapFrom` describes |
| Mapper.PageMapper.constructor | kernel/src/mm/page.rs:358-365 | `new` keeps the root address and allocator it is given |
| Mapper.PageMapper.Create | kernel/src/mm/page.rs:368-371 | None iff `allocate_one` fails; otherwise a mapper whose root is the allocated frame |
| Mapper.PageMapper.Table | kernel/src/mm/page.rs:394-399 | the root table: the mapper's root address, top level, a valid table |
| Mapper.PageMapper.Visit | kernel/src/mm/page.rs:560-576 | the loop returns the last-level table and index of `Walks.Walk`, with the index in range |
| Mapper.PageMapper.Translate | kernel/src/mm/page.rs:517-522 | returns `Walks.Translate` of the current memory |
| Mapper.PageMapper.Remap | kernel/src/mm/page.rs:497-510 | flush and new memory are `Walks.Remap` of the old memory |
| Mapper.PageMapper.MapPhys | kernel/src/mm/page.rs:424-477 | outcome, memory and free frames are `Walks.MapPhys` of the old state (new tables zeroed) |
| Mapper.PageMapper.Grow | kernel/src/mm/page.rs:459-474 | where a table is missing, the rest of the loop after linking a new one equals the loop from before it |
| Mapper.PageMapper.NewTable | kernel/src/mm/page.rs:461-473 | nothing changes when no frame is free; otherwise the frame is zeroed, linked with the table flags, and taken |
| Mapper.PageMapper.Map | kernel/src/mm/page.rs:414-421 | outcome, memory and free frames are `Walks.Map` of the old state |
| Mapper.PageMapper.UnmapPhys | kernel/src/mm/page.rs:544-557 | result, memory and free frames are `Walks.UnmapPhys` of the old state |
| Mapper.PageMapper.Unmap | kernel/src/mm/page.rs:532-536 | a flush for `virt` iff `unmap_phys` succeeded; memory and free frames as `Walks.Unmap`, the unmapped frame freed once |
| StaleTables.X86FirstEntries | kernel/src/mm/page.rs:123-132 | address 0 falls in slot 0 of each table of its walk |
| StaleTables.X86FirstLinks | kernel/src/mm/page.rs:135-146 | the stale links 0x2003, 0x3003, 0x4003 lead to the tables at 0x2000, 0x3000, 0x4000 |
| StaleTables.TheCall | kernel/src/mm/page.rs:431-444 | the run's call is the loop from the root at 0x1000 with entry 0x7003, as written and with zeroing |
| StaleTables.MapPhysAsWrittenHitsStaleEntry | kernel/src/mm/page.rs:459-473 | as written, mapping address 0 over frames with stale entries panics "already mapped" |
| StaleTables.MapPhysZeroesNewTables | kernel/src/mm/page.rs:459-473 | with new tables zeroed, the same call maps the page and returns the flush for address 0 |

## Left out

- Console output (`printk`, `printk_color`, format widths, colours) is modelled as a list of line values. The text of the lines is not modelled.
- `set_trap_gate`, `set_intr_gate` and `set_system_trap_gate` live in gate.h, which is not part of this model. They are modelled as map updates on `Traps.GateTable`.
- The `movq %cr2` read in `do_page_fault` is an input, `cr2`. `while (1);` is the disposition `Halt`.
- Hardware hooks are not modelled. Page tables are read and written through `Paging.PhysMemory`. A flush is the address it carries (`Word`). The left-out hooks are:
  - `Arch::read`, `Arch::write`, `phys_2_virt`, `Arch::table` and `set_table`;
  - `PageTable::virt`, `top_level_table`, `current`, `is_current` and `make_current`;
  - the TLB invalidation of `PageFlush` and `PageFlushAll`, with the `Flusher` impls.
- `map_linearly` needs `phys_2_virt`, which is not part of this model.
- `VirtAddr::kind` is not part of this model. Whether an address is a user address is the input `user` of `map_phys` and `map`.
- `PageTableKind`, the `Debug` impls, `kerror!` logging and `PhantomData` are not modelled.
- Accessors and wrappers are datatype fields or constructors, with no member of their own:
  - `allocator_ref` and `allocator_mut`;
  - the trivial `new`/`data` wrappers of `PageEntry`, `PageFlags`, `PageFrameCount` and `PageFrameUsage`;
  - `PageFlags::from_data`;
  - `PageTable::new`, `phys`, `base` and `level`.
- `PageEntry::set_flags` changes a copied entry in place. It is the function `Paging.PageEntry.SetFlags` returning the new entry, which is how `remap` uses it (copy, set, write back).
- `LockedFrameAllocator` and its locking are not part of this model: there is no concurrency. The allocator is `Frames.FrameAllocator`, which hands out the lowest run of free frames. That policy is a choice of the model; the mapper's theorems hold for whichever frame it hands out.
- The global allocator used by `allocate_page_frames` and `deallocate_page_frames` is a parameter.
- `map` does not free the frame it allocated when `map_phys` fails. The model does the same and states nothing about that frame.
- `visit` is generic in its closure. It is modelled as returning the last-level table and index it would pass to the closure, and `translate` and `remap` apply their closures to that result.
- The `panic!` in `map_phys` is the outcome `AlreadyMapped`, with memory and allocator unchanged.
- The `expect("invalid page entry")` in `unmap_phys_inner` cannot fire, because every index it uses is below `PAGE_ENTRY_NUM`. It is not modelled.
- Debug-build overflow panics are not modelled. Arithmetic on `usize` wraps, as in a release build (`Frames.Wrap`).
- `round_down_to_page_size` and `round_up_to_page_size` use the page size of the kernel's target architecture, taken to be x86_64's 4 KiB (`Paging.PAGE_SIZE`).
- Frames.PageFrameUsage.Free: requires `used <= total`, the only case in which `total - used` neither panics (debug build) nor wraps (release build).
- Theorems.MapThenTranslate: assumes that distinct frames have distinct 64-bit addresses inside the address mask (`Walks.FramesFit`, part of `Theorems.Sound`). The verifier cannot evaluate the conversion of a frame number to a 64-bit word, so this is a hypothesis.
- Theorems.MapThenTranslate: assumes that the tables on the walk are distinct and none of them is a free frame (`Walks.Separate`). The source relies on this without checking it.
- Theorems.MapThenTranslateFrame: the same two assumptions as `Theorems.MapThenTranslate`.
- StaleTables.MapPhysAsWrittenHitsStaleEntry: the frames' addresses 0x2000, 0x3000 and 0x4000 are a hypothesis (`StaleTables.LowFrames`), for the same reason.
- StaleTables.MapPhysZeroesNewTables: the same hypothesis as `StaleTables.MapPhysAsWrittenHitsStaleEntry`.
- Mapper.PageMapper.Unmap: returns the flush as the address it carries; the `PageFlush` token is not modelled.
- Paging.IndexOf: its contract states only that a returned index is below `PAGE_ENTRY_NUM`. That the entry it picks covers the address, and that it returns None exactly for addresses outside the table's range, is proved only on concrete x86_64 tables (`Routing.IndexOfTableEdges`, `Routing.IndexOfWalksTopUserPage`, `Routing.LeafIndexAt2M`). For symbolic tables and addresses the verifier cannot combine the level shift with the conversion of words to integers within its resource limit.
- Paging.IndexOfAsWritten: no contract of its own, for the same reason. That it rejects every address of at least 2 MiB in a last-level table is shown for 0x20_0000 and 0x7fff_ffff_f000, not for all addresses.
- Walks.MapPhysAsWritten, Walks.MapPhys, Walks.Map, Walks.MapFrom, Walks.Translate, Walks.Remap, Walks.UnmapFrom, Walks.UnmapPhys, Walks.Unmap and the methods of `Mapper.PageMapper` route addresses with the corrected `index_of` (`Walks.StepsOf`). The routing of the code as written (`Walks.StepsAsWrittenOf`) is followed only at 0x20_0000, by `Routing.TranslateAsWrittenMisses2M` and `Routing.MapAsWrittenMisses2M`.

## Findings

| source | as written | input that shows it | evidently intended | confidence | as-written member | corrected member |
|---|---|---|---|---|---|---|
| kernel/src/mm/page.rs:123-132 | `index_of` shifts the masked address without subtracting the table's base, and rejects any result of at least `PAGE_ENTRY_NUM`, so every table whose range does not start at 0 rejects addresses; in a last-level table that is every address of at least 2 MiB | x86_64, tables at 0x1000, 0x2000, 0x3000 and 0x4000 linked through slots 0, 0 and 1: `map_phys(0x20_0000, ...)` maps nothing and `translate(0x20_0000)` finds nothing, even with a page in slot 0 of the table at 0x4000. Also: a level-2 table with base 0x80_0000_0000 rejects 0x80_0000_0000, and the user page 0x7fff_ffff_f000 is lost one level below the root. | the index of the entry covering `addr` within the table's own range, None outside it, as the function's documentation says | not executed; high | Routing.MapAsWrittenMisses2M | Routing.MapCorrectedHits2M |
| kernel/src/mm/page.rs:459-473 | `map_phys` links a freshly allocated frame as a page table without zeroing it | x86_64, root at 0x1000, free frames at 0x2000, 0x3000 and 0x4000 each holding a present link in slot 0: `map_phys(0, 0x7000, 3)` follows the stale links and panics "already mapped" | zero a new table before linking it | not executed; medium (the allocator's implementation is not part of this model, and it may hand out zeroed frames) | StaleTables.MapPhysAsWrittenHitsStaleEntry | StaleTables.MapPhysZeroesNewTables |
| kernel/src/mm/allocator/page_frame.rs:57-63 | the iterators' `next` returns `current.next()` and never assigns `current` (the same at lines 115-121) | `iter_range(frame 0, frame 1)`: the first call yields frame 1, outside `[0, 1)`, and every later call yields frame 1 again, so None never comes | yield `current`, then step past it, so the iterator yields `[start, end)` | not executed; high | Frames.IterAsWrittenCounterexample | Frames.DrainIsRange |

The corrected behaviour is what the rest of the model uses:

- **`index_of`.** Every walk, map, remap, translate and unmap, and every method of `Mapper.PageMapper`, uses `Paging.IndexOf`. `Paging.IndexOfAsWritten` is the code as written, and `Walks.StepsAsWrittenOf` builds the walk steps from it for the `Routing` lemmas.
- **New tables.** `Mapper.PageMapper.MapPhys` and `Walks.MapPhys` zero them before linking. `Walks.MapPhysAsWritten` keeps the code as written in one respect only: it does not zero new tables. Its routing uses the corrected `index_of`, like everything else. `Theorems.MapThenTranslate` is proved for the zeroing version.
- **Iterators.** `Frames.PageFrameIter.Next` is the corrected iterator and `Frames.PageFrameIter.NextAsWritten` the code as written.

# Raphael: verified models of its core

Raphael tracks native allocations of an Android process. It hooks functions (by rewriting their first instructions, or
by patching import tables), unwinds stacks, keeps one record per live block, and merges the report offline. This project
models the algorithms behind it and proves what they keep.

| files | component |
|---|---|
| `Words`, `Strings` | bounded machine words, OR, AND and exclusive OR bit by bit, string order |
| `A64Isa`, `A64Encodings`, `A64Layout`, `A64Relocator`, `A64Meaning` | the AArch64 relocator: step semantics and the encodings they rest on, two-pass layout, the one-pass relocator with its reference map, preservation of meaning |
| `RbShape`, `RbTree` | the red-black tree with parent pointers: shapes and paths as values, the pointer operations |
| `XhCore` | the refresh of the map entries, over two such trees |
| `Unwinder`, `Exidx` | the ARM EHABI unwinder and its index search |
| `FreeStack`, `MemoryCache`, `Tracking`, `HookProxy` | the node pool under interleaving, the chained table, its specification, the proxies |
| `PackedReloc`, `SymbolHash` | packed relocations, GNU and SysV symbol lookup |
| `HookTable`, `HookMeaning`, `Thumb`, `ThumbMeaning`, `ThumbEncodings`, `ThumbTrampoline`, `ThumbMoves`, `ThumbRuns` | the 32-bit hook: its table and code patching, where its stubs go, the Thumb relocator, the encodings, what its fragments do, and whole runs |
| `HandleCache` | the handle cache of `xdl_addr` |
| `Report` | the report merger |

## How the sources are modelled

Words are integers with explicit bounds; wrap-around, truncation and shifts are written out. Masked fields are quotients
and remainders; `BitOr`, `BitAnd` and `BitXor` work bit by bit where fields may overlap. ORing disjoint bits is
addition. Code that changes objects and arrays in place is a class or a method on arrays with its own frame, tied by its
contract to a specification function about which the properties are proved.

- AArch64: instructions that do not read the program counter are a parameter of the semantics, so the theorems hold for
  every processor. Literals are those read when hooking, and must not lie in the trampoline. The unallocated opcode byte
  0xdc is treated as a literal load, as the source does. `Supported` names the instructions the theorems cover:
  the non-negative displacements, the near literal loads and ADRs whose field merge is harmless, and ADRPs to another
  page or staying on the same page.
- Encodings: the classifiers are proved equal to the mask tests of the source, and what the processors decode is stated
  field by field, apart from the relocators, in `A64Encodings` and `ThumbEncodings`.
- Red-black tree: the setters also keep a ghost map of all links; the theorems are about that map and an in-order
  reading of it.
- Refresh: the lines of the map are values with the outcomes of the ELF check and of the allocation as flags; a regular
  expression is a predicate.
- Unwinder: opcodes 0xc6 and 0xc7 behave as the code treats them (an earlier test takes them). A pop that fails leaves
  the registers popped so far. A ULEB128 shift past 32 contributes nothing modulo 2^32.
- Free stack: each atomic access is a step; a weak CAS may fail spuriously; holders may write their nodes' links.
- Tracker: nodes are positions in the pool's array. What the original allocator returns is a parameter that is null or
  not live.
- Hook table: windows are pairwise disjoint and there are fewer than 1024 items.
- Thumb: `Kept16` and `Kept32` name the instructions whose fragment does what they do, `Loss` what it loses besides: the
  word below the stack pointer for ADD, and for TBB and TBH also the spare register and the flags. PUSH and POP use words
  of a stack apart from the code; a word that a fragment has overwritten below the stack pointer is dead until it is
  pushed again.

## Findings

Where the code does less than it seems to, the exact condition is proved and a failing input given.

- Backward conditional branches, literal loads, ADR and ADRP: the sign of the displacement is lost
  (`A64Layout.SourceTargetIsTrueIffNonNegative`, `A64Layout.BackwardTargetsAreLost`).
- A literal load rebased backwards changes its opcode, and a rebased ADR its register
  (`A64Meaning.NearLitDecodes`, `A64Meaning.NearAdrDecodes`, `A64Meaning.NearFormsGoWrong`).
- Thumb B.W, BL and B<cond>.W at an address of 2 modulo 4 land 2 bytes short (`ThumbMeaning.WideBranchMoves`,
  `ThumbMeaning.CallMoves`, `ThumbMeaning.WideCondMoves`, `ThumbMoves.WideBranchLandsShort`).
- Thumb ADR is right on the first page only, ADR.W for an immediate of 0 only, MOV for low registers, BX PC never
  (`ThumbMoves.AdrValue`, `ThumbMoves.AdrWideValue`, `ThumbMoves.AdrLoadsTheWrongAddress`,
  `ThumbMoves.MovOfHighRegister`, `ThumbMoves.BxStaysInThumb`).
- The fragment of TBB and TBH never saves its spare register, R7 or R6, and changes the flags: both are lost unless they
  held the result already (`ThumbMoves.TableJumpLoses`, `ThumbMoves.TableJumpLosesR7`, `ThumbMoves.TableSample`).
- NOP.W, MRS and the other words with condition 14 or 15 are taken for B<cond>.W; their fragment begins with an undefined
  instruction or a supervisor call (`ThumbMeaning.WideCondMoves`, `ThumbMoves.WideNopBreaks`).
- A failed allocation during a refresh lets a later line of the library decide its base; the next refresh rebases the
  entry and hooks again (`XhCore.RefreshTwice`, `XhCore.RefreshTwiceAfterFailure`).
- The free stack is ABA-prone: it is good exactly while no pop is stale (`FreeStack.GoodUnlessStale`,
  `FreeStack.AbaHandsOutTwice`).
- The tracker keeps 32 bits of a size: a call keeps the records right exactly for sizes below 2^32 or a null result
  (`Tracking.CallTracksIff`).
- Place-relative offsets decode to their target exactly within 1 GiB (`Exidx.PrelRoundTrip`).
- The frame comparator is antisymmetric exactly when equal pcs come with equal paths (`Report.FrameSubAntisymmetric`,
  `Report.FrameSubCounterexample`).

## Model

| member | source | states |
|---|---|---|
| `A64Relocator.Context.FixInstructions` | library/src/main/inline64/And64InlineHook.cpp:433-479 | The one-pass relocator, patching its own output in place, leaves exactly the two-pass layout and the jump back: every in-window reference holds its final distance, all reference slots are empty, `dat[j]` is the place of instruction j, and the code has at most 9 words per instruction plus 5 (50 for a full window) |
| `A64Relocator.Context.InsertFixMap` | library/src/main/inline64/And64InlineHook.cpp:88-97 | A reference goes into the first free of the ten slots of its index, after the earlier ones, and no other index changes; a slot is always free |
| `A64Relocator.Context.ProcessFixMap` | library/src/main/inline64/And64InlineHook.cpp:99-105 | Every pending reference of an index is applied, in slot order, to the word it points at, and the index is empty afterwards |
| `A64Relocator.DrainResolves` | library/src/main/inline64/And64InlineHook.cpp:99-105 | Applying the pending entries of an index turns every earlier reference to it into the encoding of its real distance |
| `A64Relocator.PatchResolves` | library/src/main/inline64/And64InlineHook.cpp:151-164 | ORing the shifted and masked distance into a zero field gives the branch or ADR with that distance |
| `A64Relocator.PatchFragment` | library/src/main/inline64/And64InlineHook.cpp:99-105 | One patched entry changes exactly the referring word to its resolved form |
| `A64Relocator.Context.FixBranchImm` | library/src/main/inline64/And64InlineHook.cpp:110-172 | B and BL: near form, far form with aligned literal, or in-window reference, as the layout predicts |
| `A64Relocator.Context.FixCondCompTestBranch` | library/src/main/inline64/And64InlineHook.cpp:175-234 | B.cond, CBZ, CBNZ, TBZ and TBNZ: as the layout predicts |
| `A64Relocator.Context.FixLoadLit` | library/src/main/inline64/And64InlineHook.cpp:238-313 | Literal loads and prefetches: skipped, rebased, or inlined with alignment NOPs, as the layout predicts |
| `A64Relocator.Context.FixPcRelAddr` | library/src/main/inline64/And64InlineHook.cpp:317-407 | ADR and ADRP: as the layout predicts |
| `A64Layout.SourceTargetIsTrueIffNonNegative` | library/src/main/inline64/And64InlineHook.cpp:125-126 | The target that the source computes (lines 125, 203, 282, 338 and 372) is the architecture's exactly for B, BL and non-negative displacements; otherwise it is too high by the weight of the lost sign |
| `A64Layout.BackwardTargetsAreLost` | library/src/main/inline64/And64InlineHook.cpp:203 | Failing words: B.EQ, TBZ, LDR X0 and ADR X0 to the word before them |
| `A64Meaning.NearLitDecodes` | library/src/main/inline64/And64InlineHook.cpp:305-309 | A rebased literal load reads the intended address; it is the intended load exactly when the distance is not negative or the load is LDR Xt or LDRSW |
| `A64Meaning.NearAdrDecodes` | library/src/main/inline64/And64InlineHook.cpp:360-365 | A rebased ADR writes the register whose number is the intended one ORed with the low address bits |
| `A64Meaning.NearFormsGoWrong` | library/src/main/inline64/And64InlineHook.cpp:307 | Failing words: LDR W0 rebased backwards loads X0; ADR X0 to an odd address computes X8 |
| `A64Meaning.StepPreserved` | library/src/main/inline64/And64InlineHook.cpp:433-479 | One step of any supported instruction, on any processor and state, is matched by a run of its fragment: same registers but X17, LR and in-window ADR moved to the fragments, branches moved or absolute |
| `A64Meaning.RunPreserved` | library/src/main/inline64/And64InlineHook.cpp:433-479 | Whole runs through the window, loops included and ending in a call if it likes, are matched by the relocated code |
| `A64Meaning.TrampolineEntry` | library/src/main/inline64/And64InlineHook.cpp:514-570 | Entering the trampoline at its first word behaves as the original function did before it was hooked |
| `A64Meaning.StubReachesReplacement` | library/src/main/inline64/And64InlineHook.cpp:521-565 | The stub fills exactly the instructions relocated first and sends every call to the replacement, X17 lost at most |
| `A64Meaning.LiteralsAligned` | library/src/main/inline64/And64InlineHook.cpp:286-303 | Inlined addresses are 8-byte aligned and inlined literals aligned to their size |
| `A64Encodings.ClassifiersAreTheSources` | library/src/main/inline64/And64InlineHook.cpp:112-325 | Each class of instruction words, and the size of a literal, is what the mask tests of the source make it, for every word |
| `A64Encodings.BranchEncoding` | library/src/main/inline64/And64InlineHook.cpp:115-116 | The words of B and BL decode to their signed 26-bit word offset |
| `A64Encodings.CondEncoding` | library/src/main/inline64/And64InlineHook.cpp:180-183 | The words of B.cond, CBZ and CBNZ of both widths decode to their condition and signed 19-bit word offset |
| `A64Encodings.TestEncoding` | library/src/main/inline64/And64InlineHook.cpp:186-187 | The words of TBZ and TBNZ of either half decode to their test and signed 14-bit word offset |
| `A64Encodings.LiteralEncoding` | library/src/main/inline64/And64InlineHook.cpp:244-259 | The words of LDR, LDRSW and vector literal loads decode to their register and offset, those of PRFM to a prefetch |
| `A64Encodings.AddressEncoding` | library/src/main/inline64/And64InlineHook.cpp:323-329 | The words of ADR and ADRP decode to their register and signed 21-bit displacement, from all four values of its low field |
| `A64Encodings.RegisterEncoding` | library/src/main/inline64/And64InlineHook.cpp:137-148 | The words of NOP, BR and BLR |
| `A64Encodings.BranchesGo` | library/src/main/inline64/And64InlineHook.cpp:125 | B and BL go to the word at their signed distance, modulo 2^64, and BL leaves the next address in X30 |
| `A64Encodings.RegisterBranchesGo` | library/src/main/inline64/And64InlineHook.cpp:137-148 | BR and BLR go to the address in their register, and BLR leaves the next address in X30 |
| `A64Encodings.AddressesGo` | library/src/main/inline64/And64InlineHook.cpp:338-372 | ADR leaves the address at its distance, ADRP the page at its distance, and a 64-bit literal load the two words at its distance |
| `A64Encodings.PageIs` | library/src/main/inline64/And64InlineHook.cpp:372 | Pages are 4 KiB blocks |
| `A64Encodings.ReachIsLargest` | library/src/main/inline64/And64InlineHook.cpp:129 | The reach of a one-word form is the largest distance that its field holds |
| `A64Encodings.AddressReach` | library/src/main/inline64/And64InlineHook.cpp:341 | That of ADR, in bytes |
| `A64Encodings.FormsByReach` | library/src/main/inline64/And64InlineHook.cpp:129-341 | Outside the window the one-word form is chosen exactly when the distance, either way, is below the reach |
| `A64Encodings.JumpsByReach` | library/src/main/inline64/And64InlineHook.cpp:463-557 | The jump back and the hook stub are one B exactly when their distance, either way, is below the reach |
| `A64Encodings.LiteralSizes` | library/src/main/inline64/And64InlineHook.cpp:261-303 | A literal gets the bytes that its load reads, LDRSW twice as many; a rebased load keeps a distance of whole literals |
| `RbTree.Head.RotateLeft` | library/src/main/xHook/tree.h:343-361 | The pointer rotation shows the rotated tree and changes no other link |
| `RbTree.Head.RotateRight` | library/src/main/xHook/tree.h:363-381 | Mirror image |
| `RbTree.Head.InsertColor` | library/src/main/xHook/tree.h:409-450 | From a single red-red violation: a red-black tree with a black root and the same order of nodes |
| `RbTree.Head.Insert` | library/src/main/xHook/tree.h:599-626 | Keeps links, order, colours and black heights; the node is put at one place of the order, or the tree is unchanged and the equal node returned exactly when the key is present |
| `RbTree.Head.Find` | library/src/main/xHook/tree.h:630-645 | Finds the node of a key exactly when one exists |
| `RbTree.Head.RemoveColor` | library/src/main/xHook/tree.h:453-528 | From one missing black: a red-black tree with a black root and the same order of nodes |
| `RbTree.Head.Remove` | library/src/main/xHook/tree.h:531-595 | Keeps links, order, colours and black heights; exactly the given node leaves the order |
| `RbTree.Head.Next` | library/src/main/xHook/tree.h:669-687 | The successor in key order, null at the end |
| `RbTree.Head.MinMax` | library/src/main/xHook/tree.h:712-724 | The first or the last node in key order |
| `RbShape.HeightBound` | library/src/main/xHook/tree.h:407-626 | A coloured tree of n nodes has height h with 2^h <= (n+1)^2 |
| `XhCore.Core.Match` | library/src/main/xHook/xh_core.c:356-381 | The first matching hook decides, and an ignore of its symbol or of all symbols vetoes |
| `XhCore.WantedHasHook` | library/src/main/xHook/xh_core.c:356-381 | A path is wanted exactly when its first matching hook exists and is not ignored |
| `XhCore.BlockedIs` | library/src/main/xHook/xh_core.c:363-375 | An ignore of all symbols vetoes every hook, one of a symbol the hooks of that symbol only |
| `XhCore.Core.Refresh` | library/src/main/xHook/xh_core.c:303-454 | Afterwards the tree holds exactly the accepted pathnames with the base of their first accepted line, kept entries are the old nodes, hooking ran for exactly the new or rebased ones, and every other old or duplicate node was freed once |
| `XhCore.Core.Keep` | library/src/main/xHook/xh_core.c:389-412 | An old entry moves to the new tree; the two trees keep disjoint keys |
| `XhCore.Core.Create` | library/src/main/xHook/xh_core.c:413-438 | A new entry is added, or freed when an earlier line had its pathname |
| `XhCore.Core.FreeAll` | library/src/main/xHook/xh_core.c:606-613 | Iterating with removal visits each node once in key order and ends empty |
| `XhCore.BasesAreFirst` | library/src/main/xHook/xh_core.c:389-438 | The base of a pathname is that of the first line naming it |
| `XhCore.HookedIffNewOrRebased` | library/src/main/xHook/xh_core.c:406-411 | Each pathname is hooked at most once per refresh: when it is new or rebased |
| `XhCore.EffectiveIs` | library/src/main/xHook/xh_core.c:330-386 | A line counts exactly if it is readable and private, at offset 0, names a file not in brackets that is wanted and an ELF file, and its entry exists or can be allocated |
| `XhCore.RefreshTwice` | library/src/main/xHook/xh_core.c:303-454 | A second refresh over the same map, with the same allocation outcomes, changes no base and hooks nothing exactly when every entry has the base of the first accepted line of its pathname |
| `XhCore.RefreshTwiceWithMemory` | library/src/main/xHook/xh_core.c:303-454 | When every allocation succeeds, the second refresh changes nothing and hooks nothing |
| `XhCore.RefreshTwiceAfterFailure` | library/src/main/xHook/xh_core.c:413-438 | Failing lines: the first line of a new library cannot be allocated, a later one at another base can; the second refresh rebases and hooks |
| `Unwinder.BytesAreBigEndian` | library/src/main/unwind32/backtrace-arm.c:210-237 | The stream yields the bytes in address order, most significant byte of each word first |
| `Unwinder.ByteStream.TryNextByte` | library/src/main/unwind32/backtrace-arm.c:210-237 | One byte and the cursor after it; nothing changes on an unreadable word |
| `Unwinder.UnwindState.TryPopRegisters` | library/src/main/unwind32/backtrace-arm.c:244-264 | Registers are popped in ascending order from ascending addresses; a failure leaves those popped so far |
| `Unwinder.PopRestores` | library/src/main/unwind32/backtrace-arm.c:244-264 | Popping a mask reads back what a push of that mask stored, and moves SP past it |
| `Unwinder.PrologueSaves` | library/src/main/unwind32/backtrace-arm.c:321-487 | After a prologue every pushed register is found at its place of the frame |
| `Unwinder.RangeMaskBits` | library/src/main/unwind32/backtrace-arm.c:386-397 | The short pops restore exactly r4 to r[4+n] |
| `Unwinder.UlebDecodes` | library/src/main/unwind32/backtrace-arm.c:415-427 | The operand of 0xb2 is decoded by the value it encodes |
| `Unwinder.Unwinds` | library/src/main/unwind32/backtrace-arm.c:321-487 | Any stream that undoes the steps in reverse restores SP and every pushed register, whatever the other registers hold |
| `Unwinder.UnwindInvertsPrologue` | library/src/main/unwind32/backtrace-arm.c:321-487 | From any later state with the post-prologue SP and the words of the pushed registers, whatever became of locals: entry SP, pushed registers and PC equal to the entry LR |
| `Unwinder.UnwindFromFramePointer` | library/src/main/unwind32/backtrace-arm.c:371-385 | The same when SP is first taken from a frame pointer |
| `Unwinder.UnwindFromFrameOffset` | library/src/main/unwind32/backtrace-arm.c:350-352 | The same when the frame pointer lies 4 to 256 bytes above that SP and an opcode 0x40 to 0x7f lowers it |
| `Unwinder.FrameFromIp` | library/src/main/unwind32/backtrace-arm.c:371-379 | 0x97 takes SP from r12 when r7 cannot be a stack pointer |
| `Unwinder.PoppedPcStays` | library/src/main/unwind32/backtrace-arm.c:353-370 | A popped r15 is the PC of the caller, whatever LR holds |
| `Unwinder.Refusals` | library/src/main/unwind32/backtrace-arm.c:353-487 | Refused with all registers as they were: a pop of nothing, 0x9d, 0x9f and the spare opcodes, bad masks of r0 to r3, and missing operands |
| `Unwinder.CoprocessorSkips` | library/src/main/unwind32/backtrace-arm.c:442-469 | 0xc0 to 0xc7 skip 8 to 64 bytes |
| `Unwinder.FrameRefuses` | library/src/main/unwind32/backtrace-arm.c:566-581 | A handler that does not begin with routine 0, 1 or 2 of the compact model is refused |
| `Unwinder.EncodableIff` | library/src/main/unwind32/backtrace-arm.c:345-487 | Exactly the steps with encodable masks and sizes have an instruction that undoes them |
| `Unwinder.Encodes` | library/src/main/unwind32/backtrace-arm.c:345-487 | Every prologue of encodable steps has a matching stream |
| `Unwinder.UnwindState.ExecutePersonalityRoutine` | library/src/main/unwind32/backtrace-arm.c:321-487 | The interpreter does what the specification does on exactly the declared bytes |
| `Unwinder.UnwindState.UnwindFrame` | library/src/main/unwind32/backtrace-arm.c:566-586 | One frame through a handler, as specified from the words of memory |
| `Unwinder.TableUndoesPrologue` | library/src/main/unwind32/backtrace-arm.c:566-586 | End to end: if the words at the handler hold a matching entry, unwinding the frame restores entry SP, pushed registers and return address |
| `Exidx.PrelRoundTrip` | library/src/main/unwind32/backtrace-arm.c:117-119 | 31-bit place-relative decoding inverts encoding exactly for targets within 1 GiB, and always modulo 2^31 |
| `Exidx.GetExceptionHandler` | library/src/main/unwind32/backtrace-arm.c:121-203 | The binary search terminates and returns what the specified search returns |
| `Exidx.HandlerOfTheCoveringEntry` | library/src/main/unwind32/backtrace-arm.c:146-192 | On a sorted table: the data of the one entry that covers pc, and 0 exactly when pc precedes the table or that entry names no data (it says so, or its data is at address 0) |
| `Exidx.LaidReads` | library/src/main/unwind32/backtrace-arm.c:146-192 | The two words of an entry, laid out by the ABI with 1 for a function that cannot be unwound, are read back as its function and its data |
| `Exidx.TableFinds` | library/src/main/unwind32/backtrace-arm.c:121-203 | In a table laid out so, of functions in ascending order, the search finds the data of the last one at or before pc, and 0 before them all |
| `Exidx.UnwindPc` | library/src/main/unwind32/backtrace-arm.c:551-586 | One frame: the handler of a pc is looked up and its entry executed, as specified from the words of memory |
| `Exidx.PcUnwinds` | library/src/main/unwind32/backtrace-arm.c:121-203 | From a sorted table and a pc to the registers: if the entry that covers pc names matching data, one frame is unwound to the entry SP, the pushed registers and the return address |
| `Exidx.InPlaceData` | library/src/main/unwind32/backtrace-arm.c:184-188 | Data of routine 0 in the second word of an entry is found there |
| `FreeStack.GoodUnlessStale` | library/src/main/cpp/AllocPool.hpp:40-65 | Over every interleaving, the stack list and the holders share out the nodes given so far, each in exactly one place, in every state of the run, if and only if no pop of the run is stale |
| `FreeStack.StepKeeps` | library/src/main/cpp/AllocPool.hpp:40-65 | Every step but a stale pop keeps that |
| `FreeStack.StaleBreaks` | library/src/main/cpp/AllocPool.hpp:40-46 | A stale pop loses a node or puts one in two places |
| `FreeStack.PoolIsSafe` | library/src/main/cpp/AllocPool.hpp:40-65 | No pop is stale when no node is put back while another thread is between its load of that node and its CAS |
| `FreeStack.OneAtATimeIsSafe` | library/src/main/cpp/AllocPool.hpp:40-65 | With operations that do not overlap no condition is needed, for any number of threads |
| `FreeStack.FreshOnce` | library/src/main/cpp/AllocPool.hpp:48-54 | Fresh nodes are handed out once each and in order, on every run |
| `FreeStack.AbaHandsOutTwice` | library/src/main/cpp/AllocPool.hpp:40-46 | Failing run: two threads, two nodes, after which both threads hold node 1 |
| `MemoryCache.Cache.Insert` | library/src/main/cpp/MemoryCache.cpp:126-144 | Adds the newest record of its bucket, its return addresses those from the third captured one on; dropped exactly when every node of the pool is in a chain |
| `MemoryCache.Cache.RemoveAlloc` | library/src/main/cpp/MemoryCache.cpp:29-46 | Unlinks the first node with the address, or none if there is none |
| `MemoryCache.Cache.Remove` | library/src/main/cpp/MemoryCache.cpp:146-159 | Deletes the newest record of the address and keeps all other order; the node goes back to the pool |
| `MemoryCache.Cache.Reset` | library/src/main/cpp/MemoryCache.cpp:119-124 | No records; every node of the pool is available |
| `MemoryCache.Cache.Print` | library/src/main/cpp/MemoryCache.cpp:172-178 | Walks every record of every chain once, in order |
| `MemoryCache.Cache.FullIff` | library/src/main/cpp/MemoryCache.cpp:126-131 | The pool is exhausted exactly when there are as many records as nodes |
| `MemoryCache.NodesAreCounted` | library/src/main/cpp/AllocPool.hpp:35-65 | Every node given out is free or in a chain, once |
| `MemoryCache.ChainCut` | library/src/main/cpp/MemoryCache.cpp:38-44 | Making the predecessor skip a node cuts just that node out of the chain |
| `MemoryCache.Pool.Apply` | library/src/main/cpp/AllocPool.hpp:40-54 | The top of the stack, else the next fresh node, else null |
| `MemoryCache.Pool.Recycle` | library/src/main/cpp/AllocPool.hpp:57-65 | The node becomes the top of the stack |
| `Tracking.DroppedNewest` | library/src/main/cpp/MemoryCache.cpp:29-46 | Removal refines a per-address LIFO: the newest record of the address goes, other addresses keep theirs |
| `Tracking.DroppedAt` | library/src/main/cpp/MemoryCache.cpp:29-46 | Exactly one position leaves the chain, the first with the address |
| `Tracking.WalkOf` | library/src/main/cpp/MemoryCache.cpp:172-178 | The records of an address in the whole walk are those of its own bucket |
| `Tracking.HashIs` | library/src/main/cpp/MemoryCache.cpp:139 | The bucket of an address is its bits 6 to 21 on 64-bit targets and 4 to 19 on 32-bit ones |
| `Tracking.CallTracksIff` | library/src/main/cpp/HookProxy.h:94-164 | One call keeps the records equal to the live blocks of at least `limit` bytes if and only if its size is below 2^32 or it returned null |
| `Tracking.RecordsAreCounted` | library/src/main/cpp/MemoryCache.cpp:126-144 | There are as many records as tracked live blocks |
| `Tracking.ReportIsTheLiveBlocks` | library/src/main/cpp/HookProxy.h:94-164 | After any run of calls the walk names every live block of at least `limit` bytes once, with the size and the stored return addresses of the call that last allocated it, and nothing else |
| `HookProxy.Proxy.UpdateConfigs` | library/src/main/cpp/HookProxy.h:52-58 | The packed parameters are split into limit, depth and mode bits that add up to them again |
| `HookProxy.Proxy.MallocProxy` | library/src/main/cpp/HookProxy.h:94-106 | The record is added exactly when tracking is on, the guard clear, the size at least `limit` and the result not null |
| `HookProxy.Proxy.CallocProxy` | library/src/main/cpp/HookProxy.h:108-121 | As malloc, with the product kept in 32 bits |
| `HookProxy.Proxy.ReallocProxy` | library/src/main/cpp/HookProxy.h:123-140 | The old record goes when the block went (also for size 0), the new one is added |
| `HookProxy.Proxy.MemalignProxy` | library/src/main/cpp/HookProxy.h:142-154 | As malloc |
| `HookProxy.Proxy.FreeProxy` | library/src/main/cpp/HookProxy.h:156-165 | The newest record of the address goes |
| `HookProxy.Proxy.RunAndPrint` | library/src/main/cpp/HookProxy.h:94-165 | Any run on the real chains, then the report: while fewer blocks are tracked than the pool has nodes, it names every tracked live block exactly once, with its size and the return addresses kept for the call that last allocated it |
| `PackedReloc.Decodes` | library/src/main/xHook/xh_elf.c:110-134 | Any signed LEB128 encoding of a value, padded or not, decodes to it modulo the word, advancing by its length, for 32- and 64-bit words |
| `PackedReloc.FieldRoundTrip` | library/src/main/xHook/xh_elf.c:110-134 | Every word read back as it was written |
| `PackedReloc.EntryRoundTrip` | library/src/main/xHook/xh_elf.c:207-255 | One entry is read back as it was encoded, whichever fields its group shares |
| `PackedReloc.GroupRoundTrip` | library/src/main/xHook/xh_elf.c:173-205 | A group header is read back as it was encoded |
| `PackedReloc.PackedRoundTrip` | library/src/main/xHook/xh_elf.c:159-255 | Iterating over an encoded section yields exactly its relocations, in order, then nothing, for any grouping into non-empty groups and any flags |
| `PackedReloc.FlagsAreBits` | library/src/main/xHook/xh_elf.c:154-157 | The four group flags are the bits 1, 2, 4 and 8 |
| `PackedReloc.PackedSample` | library/src/main/xHook/xh_elf.c:159-255 | The bytes of a section of two groups, and the three relocations that iterating over it yields |
| `PackedReloc.Decoder.Next` | library/src/main/xHook/xh_elf.c:110-134 | The loop computes the specified value, cursor and end condition |
| `PackedReloc.Iterator.Initialise` | library/src/main/xHook/xh_elf.c:159-171 | Count and first offset are read |
| `PackedReloc.Iterator.ReadGroupFields` | library/src/main/xHook/xh_elf.c:173-205 | The fields of a group, as specified |
| `PackedReloc.Iterator.Next` | library/src/main/xHook/xh_elf.c:207-255 | The next relocation, as specified; null at the end and on a truncated section |
| `SymbolHash.GnuLookup` | library/src/main/xHook/xh_elf.c:432-437 | On a well-formed table with unique names: the scan of the whole symbol table |
| `SymbolHash.GnuLookupDef` | library/src/main/xHook/xh_elf.c:376-413 | Finds a hashed symbol exactly when one has the name; the two Bloom bits are tested with one mask |
| `SymbolHash.GnuLookupUndef` | library/src/main/xHook/xh_elf.c:415-430 | The scan of the symbols that are not hashed |
| `SymbolHash.BloomNeverRejects` | library/src/main/xHook/xh_elf.c:383-390 | A name whose Bloom bits are missing is no hashed symbol |
| `SymbolHash.BucketReaches` | library/src/main/xHook/xh_elf.c:392-411 | A symbol lies in the run of its bucket |
| `SymbolHash.SysvLookup` | library/src/main/xHook/xh_elf.c:355-374 | On a well-formed table with unique names: the scan past the null symbol |
| `SymbolHash.BuiltIsListed` | library/src/main/xHook/xh_elf.c:355-374 | Tables built by adding symbols at the heads of chains are well-formed |
| `SymbolHash.GnuBuiltIsWellFormed` | library/src/main/xHook/xh_elf.c:376-413 | Tables built bucket by bucket, each symbol setting its Bloom bits and ending the run of its bucket, are well-formed |
| `SymbolHash.GnuAddKeeps` | library/src/main/xHook/xh_elf.c:376-413 | Adding one symbol in bucket order keeps the table well-formed |
| `SymbolHash.GnuHashIs` | library/src/main/xHook/xh_elf.c:316-325 | The hash is 5381 * 33^n plus the sum of the bytes weighed by powers of 33, modulo 2^32 |
| `SymbolHash.SysvHashAppends` | library/src/main/xHook/xh_elf.c:301-313 | What one more byte does to the hash, in integer arithmetic; it stays below 2^28 |
| `SymbolHash.BloomTest` | library/src/main/xHook/xh_elf.c:380-390 | The mask of the two bits is in the Bloom word exactly when both bits are |
| `SymbolHash.GnuTableSample` | library/src/main/xHook/xh_elf.c:376-413 | A table in numbers: the Bloom word and its bits, the bucket and the chain value of a name |
| `SymbolHash.SysvTableSample` | library/src/main/xHook/xh_elf.c:355-374 | A table in numbers: two names of one bucket, the later one first |
| `HookTable.HookInfo.Register` | library/src/main/inline32/inlineHook.c:252-289 | The window's bytes are saved and the item appended, or the precise refusal |
| `HookTable.HookInfo.Hook` | library/src/main/inline32/inlineHook.c:374-408 | Only the registered item becomes hooked, and its stub, which jumps to the replacement, is the only change of the code |
| `HookTable.HookInfo.Unhook` | library/src/main/inline32/inlineHook.c:304-323 | The hooked item is swap-deleted and its original bytes are back |
| `HookTable.HookInfo.HookAll` | library/src/main/inline32/inlineHook.c:410-424 | Every registered item is hooked |
| `HookTable.HookInfo.UnhookAll` | library/src/main/inline32/inlineHook.c:325-340 | Although deletion moves the last item into the place just visited: no hooked item is left, every registered one stays, and the code is the original |
| `HookTable.HookShows` | library/src/main/inline32/inlineHook.c:342-372 | Writing one stub keeps code memory equal to the original with exactly the hooked stubs |
| `HookTable.UnhookShows` | library/src/main/inline32/inlineHook.c:291-302 | Restoring one window keeps that, with the item deleted |
| `HookTable.SwapDeletedItems` | library/src/main/inline32/inlineHook.c:246-250 | Swap-deletion removes exactly one item |
| `HookTable.DistinctTargets` | library/src/main/inline32/inlineHook.c:252-289 | Target addresses stay distinct |
| `HookMeaning.HookedThumbReaches` | library/src/main/inline32/inlineHook.c:350-361 | A call of a hooked Thumb target, at either alignment, reaches the replacement in the instruction set of its bit 0, with all registers and flags as they were |
| `HookMeaning.HookedArmReaches` | library/src/main/inline32/inlineHook.c:362-365 | The first word of a hooked ARM target is LDR PC, [PC, #-4], and the word that it loads is the replacement |
| `HookMeaning.StubHalves` | library/src/main/inline32/inlineHook.c:350-361 | The half words of a Thumb stub: a NOP where the address is not a multiple of 4, LDR.W PC, [PC] and the replacement, low half first |
| `HookMeaning.WindowSizes` | library/src/main/inline32/inlineHook.c:252-289 | 12 bytes are saved for Thumb and 8 for ARM, and the stub of 8 or 10 bytes fits |
| `HandleCache.Cache.Addr` | library/src/main/xDL/xdl.c:704-744 | Whatever is cached, the answer is the one from an empty cache, and at most one handle is added |
| `HandleCache.Cache.Clean` | library/src/main/xDL/xdl.c:746-758 | Closes each handle once and empties the cache |
| `HandleCache.OnlyModule` | library/src/main/xDL/xdl.c:570-584 | With disjoint modules the one that matches is the first that matches |
| `HandleCache.Handle.IsMatch` | library/src/main/xDL/xdl.c:570-584 | True exactly for the addresses in a module, as decided by its loadable segments |
| `HandleCache.Handle.Scan` | library/src/main/xDL/xdl.c:642-702 | The first symbol, in visiting order, that matches the offset |
| `HandleCache.FirstMatchIs` | library/src/main/xDL/xdl.c:626-640 | The first symbol that is not thread-local and whose extent, from its value up to but not including value plus size, holds the offset; none exactly if no symbol does |
| `HandleCache.InModuleIs` | library/src/main/xDL/xdl.c:570-584 | An address is in a module exactly if a loadable segment, moved by the load bias, holds it |
| `HandleCache.AnswerIs` | library/src/main/xDL/xdl.c:704-744 | The answer is the base and path of the module, and the name and run-time address of the symbol of .dynsym or, failing that, .symtab |
| `Thumb.RelocateInThumb` | library/src/main/inline32/relocate.c:447-492 | The loop writes exactly the fragments and the jump back, and the instruction boundaries |
| `Thumb.Layout` | library/src/main/inline32/relocate.c:447-492 | Every fragment starts on a 4-byte boundary, with its code in place |
| `Thumb.JumpsPastTheStub` | library/src/main/inline32/inlineHook.c:350-361 | The jump back goes to an instruction start at or past every byte the stub overwrites |
| `ThumbTrampoline.Consecutive` | library/src/main/inline32/relocate.c:447-492 | A fragment ends where the next one starts, or at the jump back after the last instruction that fits |
| `ThumbTrampoline.LoadWideRuns` | library/src/main/inline32/relocate.c:384-393 | LDR.W reads its own literal and goes on at the end of the fragment |
| `ThumbTrampoline.AddRuns` | library/src/main/inline32/relocate.c:211-232 | ADD Rd, PC: the spare register is loaded from the literal, added and restored |
| `ThumbTrampoline.TableRuns` | library/src/main/inline32/relocate.c:396-436 | TBB and TBH jump to the entry the original would have used |
| `ThumbMeaning.CondBranchMoves` | library/src/main/inline32/relocate.c:186-209 | B<cond> runs to the original target or on to the next fragment |
| `ThumbMeaning.BranchMoves` | library/src/main/inline32/relocate.c:195-209 | B runs to the original target |
| `ThumbMeaning.CompareBranchMoves` | library/src/main/inline32/relocate.c:257-272 | CBZ and CBNZ run to the original target or on to the next fragment |
| `ThumbMeaning.WideBranchMoves` | library/src/main/inline32/relocate.c:334-337 | B.W is right exactly at a 4-aligned address; otherwise it lands 2 bytes short |
| `ThumbMeaning.CallMoves` | library/src/main/inline32/relocate.c:324-327 | BL is right exactly at a 4-aligned address, LR naming the next fragment |
| `ThumbMeaning.ExchangeMoves` | library/src/main/inline32/relocate.c:319-322 | BLX is always right |
| `ThumbMeaning.WideCondMoves` | library/src/main/inline32/relocate.c:329-332 | B<cond>.W of a real condition is right exactly when it falls through or sits at a 4-aligned address; the words taken for conditions 14 and 15 never are: their fragment begins with an undefined instruction or a supervisor call |
| `ThumbMeaning.JumpsBack` | library/src/main/inline32/relocate.c:487-491 | After the last fragment execution goes on behind the relocated instructions |
| `ThumbEncodings.Type16IsTheSources` | library/src/main/inline32/relocate.c:75-102 | Every 16-bit class is what the mask tests of the source make it, for every half word |
| `ThumbEncodings.Type32IsTheSources` | library/src/main/inline32/relocate.c:104-139 | Every 32-bit class likewise, for every word |
| `ThumbEncodings.WideAndAligned` | library/src/main/inline32/relocate.c:464 | A 32-bit instruction begins with a half word from 0xE800 on; an aligned PC is the multiple of 4 at or before it |
| `ThumbEncodings.CondBranchEncoding` | library/src/main/inline32/relocate.c:186-194 | B<cond> by its fields: the condition decides, the displacement is signed |
| `ThumbEncodings.BranchEncoding` | library/src/main/inline32/relocate.c:195-199 | B by its field |
| `ThumbEncodings.CompareEncoding` | library/src/main/inline32/relocate.c:257-263 | CBZ and CBNZ by their fields, always forwards |
| `ThumbEncodings.LiteralEncoding` | library/src/main/inline32/relocate.c:248-255 | LDR of a literal by its fields |
| `ThumbEncodings.HighRegisterEncoding` | library/src/main/inline32/relocate.c:211-241 | ADD and MOV of any registers but PC as the destination, by their fields |
| `ThumbEncodings.WideBranchEncoding` | library/src/main/inline32/relocate.c:297-337 | B.W, BL and BLX by S, I1, I2 and the two immediates: the displacement, the link and the instruction set |
| `ThumbEncodings.WideCondEncoding` | library/src/main/inline32/relocate.c:297-332 | B<cond>.W by its fields |
| `ThumbEncodings.WideLoadEncoding` | library/src/main/inline32/relocate.c:384-393 | LDR.W of a literal above and below by its fields; into PC it selects the instruction set |
| `ThumbEncodings.WideAddressEncoding` | library/src/main/inline32/relocate.c:340-365 | ADR.W above and below by its fields |
| `ThumbEncodings.TableEncoding` | library/src/main/inline32/relocate.c:396-414 | TBB and TBH of any register: the entry is read after the PC and doubled |
| `ThumbMoves.ShortMoves` | library/src/main/inline32/relocate.c:173-281 | Every kept 16-bit instruction: one step of the original is matched by its fragment |
| `ThumbMoves.WideMoves` | library/src/main/inline32/relocate.c:283-445 | Every kept 32-bit instruction likewise; TBB and TBH leave the target address with bit 0 set in the spare register, the flags of that sum, and a changed word below SP |
| `ThumbMoves.FragmentMoves` | library/src/main/inline32/relocate.c:447-492 | For every kept instruction: the run of its fragment matches the original step, up to the absolute target or the place of the next fragment or the jump back, exactly but for the losses of ADD, TBB and TBH |
| `ThumbMoves.CopiedFalls` | library/src/main/inline32/relocate.c:273-278 | Copied instructions stand at the start of their fragment and fall through to the next one |
| `ThumbMoves.TableJumpLoses` | library/src/main/inline32/relocate.c:396-436 | After TBB and TBH the registers are right exactly when the spare register already held the target with bit 0 set, and the flags when they were those of that sum |
| `ThumbMoves.TableJumpLosesR7` | library/src/main/inline32/relocate.c:396-436 | Failing state: a table jump indexed by R0 while R7 is 0 |
| `ThumbMoves.TableSample` | library/src/main/inline32/relocate.c:398-414 | Failing word: 0xE8DF 0xF000 is TBB [PC, R0], its spare register R7 |
| `ThumbMoves.NoBranchSamples` | library/src/main/inline32/relocate.c:104-119 | The words 0xF3AF 0x8000 (NOP.W) and 0xF3EF 0x8000 (MRS) are classified as conditional branches of conditions 14 and 15 |
| `ThumbMoves.WideNopBreaks` | library/src/main/inline32/relocate.c:104-119 | Failing word: NOP.W (0xF3AF 0x8000) is taken for a conditional branch, and its fragment begins with the undefined 0xDE00 |
| `ThumbRuns.RunsThrough` | library/src/main/inline32/relocate.c:447-492 | As long as the original stays on the straight line, kept and copied instructions mixed, the trampoline arrives at the fragment of the same instruction with the same registers and flags |
| `ThumbRuns.TrampolineRuns` | library/src/main/inline32/relocate.c:447-492 | Entered at its first word, the trampoline follows the original to the branch, call or jump that ends the run |
| `ThumbRuns.TrampolineReturns` | library/src/main/inline32/relocate.c:447-492 | When the original runs through all its relocated instructions, the trampoline arrives where the original does, with the same registers, flags and live stack |
| `ThumbMoves.AdrValue` | library/src/main/inline32/relocate.c:244 | The value for ADR is right exactly when the aligned PC is 0 |
| `ThumbMoves.AdrWideValue` | library/src/main/inline32/relocate.c:358-365 | The value for ADR.W is right exactly when the immediate is 0 |
| `ThumbMoves.AdrLoadsTheWrongAddress` | library/src/main/inline32/relocate.c:244 | Failing words: ADR R0, PC+0 and ADR.W R0, PC+4 |
| `ThumbMoves.WideBranchLandsShort` | library/src/main/inline32/relocate.c:337 | Failing word: B.W at an address of 2 modulo 4 |
| `ThumbMoves.MovOfHighRegister` | library/src/main/inline32/relocate.c:239-240 | MOV Rd, PC is right exactly for a low register, or when both registers hold PC already |
| `ThumbMoves.BxStaysInThumb` | library/src/main/inline32/relocate.c:201-203 | BX PC is never right: the fragment stays in Thumb |
| `Report.FrameSubAntisymmetric` | library/src/main/python/raphael.py:57-58 | Swapping two frames flips the sign exactly when equal pcs come with equal paths |
| `Report.FrameSubCounterexample` | library/src/main/python/raphael.py:57-58 | Failing frames: same pc, different path |
| `Report.TraceSubZero` | library/src/main/python/raphael.py:76-82 | Zero exactly on equal stacks |
| `Report.TraceSubIs` | library/src/main/python/raphael.py:76-82 | Longer stacks come first; at the first differing frame the greater pc does |
| `Report.TraceSubFlip` | library/src/main/python/raphael.py:76-82 | Swapping two traces flips the sign |
| `Report.TraceSubTransitive` | library/src/main/python/raphael.py:76-82 | The order of traces is transitive |
| `Report.MergeReport` | library/src/main/python/raphael.py:160-174 | The loop over the sorted report computes the merge |
| `Report.MergeConserves` | library/src/main/python/raphael.py:160-174 | Total size is conserved for every report, total count when every count is 1 |
| `Report.EachStackOnce` | library/src/main/python/raphael.py:160-174 | Each distinct stack comes out once with its summed size, in descending size |
| `Report.Totals` | library/src/main/python/raphael.py:131-138 | Each group has the summed size of its records, and the groups sum to the total |
| `Report.AppGroup` | library/src/main/python/raphael.py:118-128 | The group is the library of the first application frame that is not the tracker itself |
| `Report.SystemGroup` | library/src/main/python/raphael.py:118-128 | Without one it is the library of the first frame in a named system library |
| `Report.ExtraGroup` | library/src/main/python/raphael.py:118-128 | Without either it is `extras` |

## Left out

- Operating-system effects: mprotect, cache flushes, the atomics of the trampoline pool, freezing of threads, signal
  recovery. The 32-bit hook flushes the cache for the item that swap-deletion moved; code memory here has no cache.
- Mapping events: mmap, munmap and pthread_exit tracking, and configured depths above 15.
- The stack heuristics and the final LR frame of the unwinder, the walk over several frames, and rewinding the pc.
- ARM-mode relocation (it ignores condition codes), IT blocks, and copied Thumb instructions other than NOP, ADD.W and
  MOV, ADD, ADDS, BX, LDRB, LDRH, PUSH and POP of one register.
- ADD with SP or PC as its destination, and TBB and TBH indexed by SP or PC, in Thumb: `ThumbMoves.ShortMoves` and
  `ThumbMoves.WideMoves` do not cover them.
- AArch64 windows with mixed code and data, and ADRP to a page inside the window unless it stays on the same page.
- The plain relocation iterator, and which relocations a hook visits.
- Reading files and /proc/self/maps, logging, demangling, the Java layer, the printing of the report and the second
  sorting of the groups by size.
- The splay half of `tree.h` and `MapData.cpp`, which the program never uses; `mmap.py`, a separate script; `queue.h`, whose
  lists are sequences here; and the 64-bit frame walk, which only follows frame pointers.
- MemoryCache.Cache.Insert: one call at a time; interleaved pool operations are in `FreeStack`, without the chains.
- HandleCache.Cache.Addr: loaded modules are pairwise disjoint and do not change; a module that cannot be opened for lack
  of memory gives no answer. The section tests of the symbol match have no effect in the source and none here.
- Report.MergeReport: works on values, while the source adds to its records in place; an empty report has no first record
  in the source either. Sorting is a stable insertion sort; the count of an absorbed record is taken as 1, as the source
  does.
- SymbolHash.GnuLookup: the same algorithm of `xdl.c` (lines 437-513) is not modelled a second time.
- A64Meaning.NearAdrDecodes: the condition for the right register is that its number has the low address bits set.

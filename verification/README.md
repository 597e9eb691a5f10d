# Verified models of the Dobby hooking library and the IL2CPP dumper

The project models the parts of the repository where a mistake is hardest to see: code that rewrites code,
code that reads serialized data, and allocators and lists that other parts rely on. Everything is proved for
all inputs or all runs; nothing was executed.

- **A64 relocation** (`A64*.dfy`). A machine with registers, flags and memory, the relocator as an object
  that emits into an assembler buffer, and a simulation between a window in the program before the hook and its
  relocated block in the hooked program.
- **x64 relocation** (`X64Relocator.dfy`). Variable instruction lengths, displacement arithmetic, and the
  loop that retries with larger chunks.
- **Thumb labels** (`ThumbLabels.dfy`, `CodeBuffer.dfy`). Back-patching of literal loads in a growable buffer.
- **Export tries** (`Leb128.dfy`, `ExportTrie.dfy`, `TrieLookup.dfy`). The byte-level walk and its meaning as
  a map. `TrieLookup.PremisesMet` gives a trie that meets the premises of the theorems.
- **Hooks** (`HookRing.dfy`, `HookLifecycle.dfy`). The intrusive ring, and restoration over whole runs.
- **Allocators** (`MemoryArena.dfy`, `NearArena.dfy`, `Memmem.dfy`).
- **Logger, cache and listing** (`AsyncLogger.dfy`, `VariableCache.dfy`, `DumpStream.dfy`).

Words, bytes and addresses are integers in their ranges, and every wrap-around or truncation is written out.
Operating-system answers, the x86 decoder and the runtime's metadata are parameters. So is the effect of A64
instructions that the relocator copies and the model does not interpret: it may depend on the code, the address,
the word and the CPU, and the theorem asks of each one executed that it does not depend on its address, on the
overwritten window, or on X17 once the block has changed it. Loops of the source are loops here, specified by
functions; the theorems are about those functions. Functions that would be expensive to unfold in an induction
over a window, a trie path or a region list are passed to it as function parameters.

Results that go against what a reader might expect of the source:

- A literal load is relocated to a 64-bit load whatever its width (`A64Simulation.NarrowLiteralExact`,
  `A64Windows.NarrowWindowFails`), and a relocated b.al or b.nv falls through (`A64Simulation.BCondExact`).
- A relocated bl, and a blr that is copied, leave a return address in the block
  (`A64Windows.RelocatedRunsAlike`).
- Near conditional jumps on x64 are copied and miss their targets (`X64Relocator.NearJccExact`), and relocated
  rel8 jumps miss theirs (`X64Relocator.ShortConditionalExact`, `X64Relocator.ShortJumpExact`).
- A Thumb load of a label that is already bound never reaches it (`ThumbLabels.BoundLoadMisses`).
- Without memory for the relocated code a hook crashes on ARM64 and is installed on x64, where destroying it
  restores nothing (`HookLifecycle.FailedRelocation`).
- The near arena pushes pages for ever when asked for a page or more and pages are granted
  (`NearArena.NeverServed`), a region ending at 2^64 can lead it out of range (`NearArena.SearchExact`), and a
  list of one region makes it read behind the list (`NearArena.SearchNearBlankPage`).
- The bump arena lets a chunk larger than a page run over the end of a new page (`MemoryArena.AllocateExact`).
- `read_sleb128` shifts by 64 or more below -2^62 (`Leb128.SlebRoundTrip`).
- The one-pass `memmem` misses occurrences of any needle that is not one repeated byte (`Memmem.ExactNeedles`).
- Saving and loading a cache that holds a key twice can bring back an old value (`VariableCache.StaleValue`).

## Model

| member | source | states |
|---|---|---|
| `A64Windows.RelocatedRunsAlike` | module/src/main/cpp/Dobby/source/InstructionRelocation/arm64/ARM64InstructionRelocation.cc:124-307 | For every window, place of its block, entry at any instruction i, and related start states in which every instruction the original executes is supported: the program before the hook leaves the window after j steps by instruction x or at the end, and the hooked program, whose window may hold anything, comes from the place of i in the block to the same address with the same registers (except X17), flags and memory; if x is a call, X30 is the address behind the call before the hook and the place of instruction x+1 in the block after it, so that the theorem applies again when the call returns |
| `A64Windows.RelocationPreservesMeaning` | module/src/main/cpp/Dobby/source/InstructionRelocation/arm64/ARM64InstructionRelocation.cc:124-307 | The same with the exit of the original as a state; it needs nothing of the original code in memory |
| `A64Windows.WindowFollows` | module/src/main/cpp/Dobby/source/InstructionRelocation/arm64/ARM64InstructionRelocation.cc:136-288 | The simulation by induction over the window, from any instruction on, for any functions that describe effects, support and return addresses |
| `A64Simulation.InstructionFollows` | module/src/main/cpp/Dobby/source/InstructionRelocation/arm64/ARM64InstructionRelocation.cc:139-270 | One instruction of each kind, calls included: running its words in the hooked program ends where the original goes, in a related state, with the return address behind the words for a call, and behind the words if the original falls through |
| `A64Simulation.BlFollows` | module/src/main/cpp/Dobby/source/InstructionRelocation/arm64/ARM64InstructionRelocation.cc:177-191 | A relocated bl goes to the original target with the return address behind its words in the block |
| `A64Simulation.CopiedSame` | module/src/main/cpp/Dobby/source/InstructionRelocation/arm64/ARM64InstructionRelocation.cc:267-270 | A copied instruction, among them br, blr and loads, has the same effect at any address of the hooked program, up to the return address of a blr and to X17 |
| `A64Simulation.BCondExact` | module/src/main/cpp/Dobby/source/InstructionRelocation/arm64/ARM64InstructionRelocation.cc:242-266 | A relocated b.cond follows the original if its condition is not AL or NV; otherwise the original branches and the block falls through |
| `A64Simulation.InvertedFollows` | module/src/main/cpp/Dobby/source/InstructionRelocation/arm64/ARM64InstructionRelocation.cc:192-266 | The inverted branch skips exactly the ldr and br pair when the original branch is not taken, and otherwise the pair goes to the original target |
| `A64Encodings.OffsetsDecode` | module/src/main/cpp/Dobby/source/InstructionRelocation/arm64/ARM64InstructionRelocation.cc:57-108 | The shifting and sign-extending decoders compute the immediates of section C6.2 of the Arm Architecture Reference Manual (DDI 0487) for every word |
| `A64Encodings.MasksAgree` | module/src/main/cpp/Dobby/source/InstructionRelocation/arm64/ARM64InstructionRelocation.cc:139-242 | The masks the relocator tests an instruction with select exactly the classes of the encoding diagrams of DDI 0487 |
| `A64Encodings.DecodeInvertedTest` | module/src/main/cpp/Dobby/source/InstructionRelocation/arm64/ARM64InstructionRelocation.cc:197-205 | Rewriting bit 24 and imm14 of tbz/tbnz gives the opposite test of the same bit and register, 12 bytes ahead |
| `A64Encodings.DecodeInvertedCompare` | module/src/main/cpp/Dobby/source/InstructionRelocation/arm64/ARM64InstructionRelocation.cc:220-228 | The same for cbz/cbnz with imm19 |
| `A64Encodings.DecodeInvertedCondition` | module/src/main/cpp/Dobby/source/InstructionRelocation/arm64/ARM64InstructionRelocation.cc:245-253 | The same for b.cond with the condition field |
| `A64Encodings.InvertedConditionHolds` | module/src/main/cpp/Dobby/source/InstructionRelocation/arm64/ARM64InstructionRelocation.cc:247-249 | Flipping the low bit negates a condition exactly for the fourteen conditions other than AL and NV |
| `A64Simulation.NarrowLiteralExact` | module/src/main/cpp/Dobby/source/core/modules/assembler/assembler-arm64.h:472-474 | A relocated literal load is a 64-bit load; where it does not read the window it gives the right state exactly if it was one, its register does not matter, or the word behind the literal is zero |
| `A64Simulation.LiteralExact` | module/src/main/cpp/Dobby/source/InstructionRelocation/arm64/ARM64InstructionRelocation.cc:139-155 | A relocated literal load of either width gives the right state if and only if its register does not matter or the 64-bit value the hooked program reads is the value the original loads |
| `A64Windows.NarrowWindowFails` | module/src/main/cpp/Dobby/source/InstructionRelocation/arm64/ARM64InstructionRelocation.cc:139-155 | For every window of one 32-bit literal load outside the window with a non-zero word behind it, the block leaves to the same place with another value in the register |
| `A64Simulation.RunMov` | module/src/main/cpp/Dobby/source/core/modules/assembler/assembler-arm64.h:641-652 | Four steps of the emitted Mov leave the full 64-bit constant in the register and nothing else changed |
| `A64Simulation.RunLdrBr` | module/src/main/cpp/Dobby/source/core/modules/codegen/codegen-arm64.cc:10-19 | A linked literal load and br go to the address stored in the pool |
| `A64Simulation.RunLdrBlr` | module/src/main/cpp/Dobby/source/InstructionRelocation/arm64/ARM64InstructionRelocation.cc:182-190 | A linked literal load and blr go to the address stored in the pool, with the return address behind them |
| `A64Windows.LeaveIsRun` | module/src/main/cpp/Dobby/source/InstructionRelocation/arm64/ARM64InstructionRelocation.cc:136-288 | The exit state of the window used in the theorem is the state the machine reaches on the original code |
| `A64Windows.CallLinks` | module/src/main/cpp/Dobby/source/InstructionRelocation/arm64/ARM64InstructionRelocation.cc:136-288 | A window left by a call holds the address behind the call in X30 |
| `A64Layout.BindLinks` | module/src/main/cpp/Dobby/source/core/modules/assembler/assembler-arm64.h:666-683 | After all labels are bound, the load of label k is linked to the place where the data of label k stands |
| `A64Layout.BindKeeps` | module/src/main/cpp/Dobby/source/core/modules/assembler/assembler-arm64.h:675-683 | Binding changes no word that is not a recorded load |
| `A64Layout.EmittedExtends` | module/src/main/cpp/Dobby/source/InstructionRelocation/arm64/ARM64InstructionRelocation.cc:136-288 | Code and label uses emitted for a prefix of the window are never changed by the instructions after it |
| `A64Layout.RelocateDefined` | module/src/main/cpp/Dobby/source/InstructionRelocation/arm64/ARM64InstructionRelocation.cc:139-155 | Relocation aborts exactly if the window holds an LDRSW, PRFM or 128-bit literal load |
| `A64Layout.RelocatedSize` | module/src/main/cpp/Dobby/source/InstructionRelocation/arm64/ARM64InstructionRelocation.cc:124-307 | The relocated block has at most five words per instruction and four for the branch back |
| `A64Relocator.GenRelocateCodeAndBranch` | module/src/main/cpp/Dobby/source/InstructionRelocation/arm64/ARM64InstructionRelocation.cc:124-307 | The loop over the window, with its assembler object, emits and binds exactly the block the theorems are about, or aborts |
| `A64Relocator.TurboAssembler.RelocateInstruction` | module/src/main/cpp/Dobby/source/InstructionRelocation/arm64/ARM64InstructionRelocation.cc:139-270 | One turn of the loop leaves the assembler as RelocateOne says, or aborts |
| `A64Relocator.TurboAssembler.RelocBind` | module/src/main/cpp/Dobby/source/core/modules/assembler/assembler-arm64.h:675-683 | Binds every label at the growing end of the buffer |
| `A64Relocator.TurboAssembler.PseudoBind` | module/src/main/cpp/Dobby/source/core/modules/assembler/assembler-arm64.h:666-673 | Links every recorded load of a label to the end of the buffer |
| `TrieLookup.LookupIsMap` | module/src/main/cpp/Dobby/builtin-plugin/SymbolResolver/macho/dobby_symbol_resolver.cc:98-184 | On the bytes of every well-formed trie (prefix-free edge names, height at most 126, below 4 GB) the walk finds a terminal for a name if and only if the trie maps the name to one, and points at its payload |
| `TrieLookup.ExportIsFound` | module/src/main/cpp/Dobby/builtin-plugin/SymbolResolver/macho/dobby_symbol_resolver.cc:232-245 | For such a trie, a name exported with given flags and address is reported with both, and with bit 3 of the flags set as missing |
| `TrieLookup.WalkAnswers` | module/src/main/cpp/Dobby/builtin-plugin/SymbolResolver/macho/dobby_symbol_resolver.cc:103-182 | The walk from any node, with the ancestors it has recorded, answers as the subtrie of that node |
| `TrieLookup.ScanTakes` | module/src/main/cpp/Dobby/builtin-plugin/SymbolResolver/macho/dobby_symbol_resolver.cc:124-162 | The edge loop takes the first edge whose name is a prefix of the symbol, with its offset and the rest of the symbol, and none if there is no such edge |
| `TrieLookup.HoldsOnce` | module/src/main/cpp/Dobby/builtin-plugin/SymbolResolver/macho/dobby_symbol_resolver.cc:104-123 | A position of a buffer serializes at most one trie |
| `ExportTrie.WalkExportedTrie` | module/src/main/cpp/Dobby/builtin-plugin/SymbolResolver/macho/dobby_symbol_resolver.cc:98-184 | The nested loops with the visited array terminate and stay inside the array for arbitrary bytes, compute Walk, and record at most 127 offsets, all different in a trie below 4 GB |
| `ExportTrie.WalkNodes` | module/src/main/cpp/Dobby/builtin-plugin/SymbolResolver/macho/dobby_symbol_resolver.cc:99-182 | The outer loop, its cycle check and its depth guard, over an array of 128 entries; the offsets it records are Trail |
| `ExportTrie.MatchEdge` | module/src/main/cpp/Dobby/builtin-plugin/SymbolResolver/macho/dobby_symbol_resolver.cc:125-138 | The label loop ends at the terminator and reports a wrong edge exactly if the label is not a prefix of the symbol |
| `ExportTrie.ScanChildren` | module/src/main/cpp/Dobby/builtin-plugin/SymbolResolver/macho/dobby_symbol_resolver.cc:124-162 | The edge loop computes ScanEdges, including both malformed cases |
| `ExportTrie.TrailIsSimple` | module/src/main/cpp/Dobby/builtin-plugin/SymbolResolver/macho/dobby_symbol_resolver.cc:163-179 | For arbitrary bytes below 4 GB, cyclic or not, no node offset is recorded twice and at most 126 edges are followed |
| `ExportTrie.IterateExportedSymbol` | module/src/main/cpp/Dobby/builtin-plugin/SymbolResolver/macho/dobby_symbol_resolver.cc:232-245 | The trie-reading part of the lookup: flags, the re-export test, then the address |
| `Leb128.ReadUleb128` | module/src/main/cpp/Dobby/builtin-plugin/SymbolResolver/macho/dobby_symbol_resolver.cc:51-72 | Computes the 7-bit groups up to the first byte without continuation bit, modulo 2^64, and moves behind it |
| `Leb128.ReadSleb128` | module/src/main/cpp/Dobby/builtin-plugin/SymbolResolver/macho/dobby_symbol_resolver.cc:74-94 | The same with sign extension; undefined where a shift reaches 64 |
| `Leb128.UlebRoundTrip` | module/src/main/cpp/Dobby/builtin-plugin/SymbolResolver/macho/dobby_symbol_resolver.cc:51-72 | Reading inverts encoding for every value below 2^64, wherever it stands and whatever follows |
| `Leb128.SlebRoundTrip` | module/src/main/cpp/Dobby/builtin-plugin/SymbolResolver/macho/dobby_symbol_resolver.cc:74-94 | Reading inverts encoding of a 64-bit value exactly if it is at least -2^62 |
| `Leb128.SlebSize` | module/src/main/cpp/Dobby/builtin-plugin/SymbolResolver/macho/dobby_symbol_resolver.cc:74-94 | Which signed values fit nine and ten bytes, the bound behind the round trip |
| `HookLifecycle.RunRestores` | module/src/main/cpp/Dobby/source/InterceptRouting/InterceptRouting.cpp:12-74 | Over every run of installs on clear windows and destroys in any order: memory differs from the original only inside live windows, the oldest hook on each address holds the original bytes, and with no hook left memory is the original |
| `HookLifecycle.RunIntercepts` | module/src/main/cpp/Dobby/source/InterceptRouting/InterceptRouting.cpp:64-74 | In every run, an accepted hook with no later operation on its address has its trampoline in code memory at the end |
| `HookLifecycle.TrampolineStays` | module/src/main/cpp/Dobby/source/InterceptRouting/InterceptRouting.cpp:64-74 | Operations on other addresses never change the bytes a hook guards |
| `HookLifecycle.RunKeeps` | module/src/main/cpp/Dobby/source/dobby.cpp:21-36 | Every step of such a run keeps the invariant that undoing the live hooks newest first gives the original memory |
| `HookLifecycle.UndoEarly` | module/src/main/cpp/Dobby/source/dobby.cpp:21-36 | Restoring a hook out of turn is the same as restoring it in turn, if no newer hook is on its address |
| `HookLifecycle.FailedRelocation` | module/src/main/cpp/Dobby/source/InterceptRouting/Routing/FunctionInlineReplace/function-inline-replace.cc:5-10 | An accepted hook without memory for its relocated code crashes on ARM64, where the null chunk is used; on x64 it is installed, and destroying it gives back the memory if and only if relocation succeeded or the trampoline was there already |
| `HookLifecycle.Dobby.DobbyHook` | module/src/main/cpp/Dobby/source/InterceptRouting/Routing/FunctionInlineReplace/FunctionInlineReplaceExport.cc:7-42 | Refuses exactly address 0 and a target equal to that of the newest hook on the address; crashes as above; otherwise the trampoline stands at the address, every other byte of code is as before, and the list begins with an entry that holds the bytes of the window |
| `HookLifecycle.Dobby.DobbyDestroy` | module/src/main/cpp/Dobby/source/dobby.cpp:21-36 | Succeeds exactly if there is a hook on the address; then the bytes saved by the newest one stand there, every other byte is as before, and exactly that entry is gone |
| `HookRing.Interceptor.constructor` | module/src/main/cpp/Dobby/source/include/list_structure.h:13-17 | A head linked to itself is the empty ring |
| `HookRing.Interceptor.AddHookEntry` | module/src/main/cpp/Dobby/source/include/list_structure.h:23-32 | The ring stays one cycle with mutually inverse links and represents the new entry followed by the old ones |
| `HookRing.Unlink` | module/src/main/cpp/Dobby/source/include/list_structure.h:34-37 | Linking the neighbours of a node gives a ring through all other nodes in order |
| `HookRing.Interceptor.FindNode` | module/src/main/cpp/Dobby/source/Interceptor.cpp:15-33 | The traversal terminates and returns the node of the newest entry for the address, or null |
| `HookRing.Interceptor.FindHookEntry` | module/src/main/cpp/Dobby/source/Interceptor.cpp:35-43 | Returns the newest entry for the address, if there is one |
| `HookRing.Interceptor.RemoveHookEntry` | module/src/main/cpp/Dobby/source/Interceptor.cpp:52-56 | Removes exactly the newest entry for the address; the ring stays a ring |
| `HookRing.Interceptor.GetHookEntryCount` | module/src/main/cpp/Dobby/source/Interceptor.cpp:58-71 | Terminates and returns the number of entries |
| `MemoryArena.RunChunksApart` | module/src/main/cpp/Dobby/source/MemoryAllocator/MemoryArena.cc:11-61 | Over every run of requests of at most a page, all chunks ever returned are pairwise disjoint |
| `MemoryArena.RunKeeps` | module/src/main/cpp/Dobby/source/MemoryAllocator/MemoryArena.cc:11-61 | Over such a run, the chunks of each page tile exactly the page up to its cursor, pages stay disjoint, and no chunk is lost or moved |
| `MemoryArena.AllocateExact` | module/src/main/cpp/Dobby/source/MemoryAllocator/MemoryArena.cc:29-57 | An allocation keeps that invariant if and only if its size is at most a page or no page was granted |
| `MemoryArena.AllocatedAnswers` | module/src/main/cpp/Dobby/source/MemoryAllocator/MemoryArena.cc:18-57 | The same of the functions the other theorems are about: room is used where there is some |
| `MemoryArena.ChunksApart` | module/src/main/cpp/Dobby/source/MemoryAllocator/MemoryArena.cc:48-57 | In any state with the invariant two chunks are disjoint and each lies inside its page |
| `MemoryArena.Arena.AllocateChunk` | module/src/main/cpp/Dobby/source/MemoryAllocator/MemoryArena.cc:11-61 | The first page of the permission with more bytes left than the size serves the request from its cursor and no other page changes; only if none has room, the answer is the start of a new page, or nothing if no page is granted |
| `NearArena.SearchExact` | module/src/main/cpp/Dobby/source/MemoryAllocator/NearMemoryArena.cc:67-144 | For every non-empty region list in address order and every range above a page: whatever pages the system grants, what is found is strictly within the range, if and only if the last region does not end at 2^64 behind an untried blank out of range |
| `NearArena.SearchComplete` | module/src/main/cpp/Dobby/source/MemoryAllocator/NearMemoryArena.cc:67-144 | Where grants depend on the address, the search finds a page if and only if one of these is granted, and it is one of them: the lowest page if it lies before the first region or the last region reaches over the upper limit, the page behind each region with a blank behind it, the page in the blank before a region as long as no other blank was tried |
| `NearArena.SearchGranted` | module/src/main/cpp/Dobby/source/MemoryAllocator/NearMemoryArena.cc:67-144 | Whatever the grants, what is found is one of those pages and was granted |
| `NearArena.LimitsExact` | module/src/main/cpp/Dobby/source/MemoryAllocator/NearMemoryArena.cc:46-70 | No page start within the range, above 0 and below the end of the address space is outside the limits of the search |
| `NearArena.SearchSafe` | module/src/main/cpp/Dobby/source/MemoryAllocator/NearMemoryArena.cc:67-144 | Without such a region, a page found is strictly within the range in spite of saturation at both ends of the address space |
| `NearArena.WrappedRegionEscapes` | module/src/main/cpp/Dobby/source/MemoryAllocator/NearMemoryArena.cc:103-126 | A region that ends at 2^64 makes the search return a page 2^46 bytes away for a range of 2^27 |
| `NearArena.MinPageWithin` | module/src/main/cpp/Dobby/source/MemoryAllocator/NearMemoryArena.cc:46-69 | The lowest page is within the range and not 0, whether or not the subtraction saturates |
| `NearArena.MaxPageBelow` | module/src/main/cpp/Dobby/source/MemoryAllocator/NearMemoryArena.cc:50-70 | The upper limit is a page start below the end of the range, whether or not the addition saturates |
| `NearArena.SearchNearBlankPage` | module/src/main/cpp/Dobby/source/MemoryAllocator/NearMemoryArena.cc:67-144 | The checks and the loop over the regions compute Search for every grant pattern, except that a single region between the limits makes the loop read behind its list |
| `NearArena.StraysExactly` | module/src/main/cpp/Dobby/source/MemoryAllocator/NearMemoryArena.cc:80-128 | The loop reads behind its list exactly for a single region between the limits, unless the request before the loop is honoured |
| `NearArena.PushedServes` | module/src/main/cpp/Dobby/source/MemoryAllocator/NearMemoryArena.cc:191-224 | A page pushed after a search serves the request if and only if the size is below a page |
| `NearArena.NeverServed` | module/src/main/cpp/Dobby/source/MemoryAllocator/NearMemoryArena.cc:218-249 | For a size of a page or more that no present page serves, the request is never served, and the goto loop goes on exactly as long as every search finds a page |
| `NearArena.AttemptsAnswer` | module/src/main/cpp/Dobby/source/MemoryAllocator/NearMemoryArena.cc:218-249 | What AllocateChunk states, of the function the other theorems are about, for any results of the searches |
| `NearArena.TwoScans` | module/src/main/cpp/Dobby/source/MemoryAllocator/NearMemoryArena.cc:218-249 | For a size below a page and a first search that is safe, one search and two scans decide, with exactly these pages and this chunk |
| `NearArena.NearChunk` | module/src/main/cpp/Dobby/source/MemoryAllocator/NearMemoryArena.cc:210-249 | Search and arena together: below a page, in a layout that does not escape, the loop ends after the first search and a chunk on a new page is within the range |
| `NearArena.NearMemoryArena.AllocateChunk` | module/src/main/cpp/Dobby/source/MemoryAllocator/NearMemoryArena.cc:210-254 | For every size and whatever the successive searches find: the first page of the permission whose cursor is less than the range away modulo 2^64, with room, serves the request; a page is pushed only if there is none; every chunk, on an old or a new page, is near the position, on a page of the permission, and before its end |
| `X64Relocator.GenRelocateCodeAndBranch` | module/src/main/cpp/Dobby/source/InstructionRelocation/x64/X64InstructionRelocation.cc:134-160 | The retry loop terminates for every window; it succeeds with the first chunk size 32+16k that holds the code, which the size before does not, and the code is that of the rounded window at the chunk it was given |
| `X64Relocator.GenRelocateCodeFixed` | module/src/main/cpp/Dobby/source/InstructionRelocation/x64/X64InstructionRelocation.cc:35-131 | One pass computes Pass0 with the jump back behind it, and reports whether the code fits the chunk |
| `X64Relocator.ScanSize` | module/src/main/cpp/Dobby/source/InstructionRelocation/x64/X64InstructionRelocation.cc:35-104 | Consumed and emitted sizes of a pass depend on the instructions alone, not on the addresses |
| `X64Relocator.RoundedWindow` | module/src/main/cpp/Dobby/source/InstructionRelocation/x64/X64InstructionRelocation.cc:114-121 | After the window is rounded up to an instruction boundary a later pass sees the same instructions and emits the same size |
| `X64Relocator.SizeBounds` | module/src/main/cpp/Dobby/source/InstructionRelocation/x64/X64InstructionRelocation.cc:35-121 | The code has at most three times the window plus 14 bytes; the window is less than 15 bytes above the request |
| `X64Relocator.PassKeepsTargets` | module/src/main/cpp/Dobby/source/InstructionRelocation/x64/X64InstructionRelocation.cc:61-80 | In the code of a whole window, whatever the drift before it: every instruction with opcode E8 or E9, and every RIP-relative one that is no rel8 jump, changes only in its displacement, and points to its original target modulo 2^64 if and only if a 32-bit displacement reaches it |
| `X64Relocator.EmitKeepsTarget` | module/src/main/cpp/Dobby/source/InstructionRelocation/x64/X64InstructionRelocation.cc:61-80 | The same for one instruction; all its other bytes are unchanged |
| `X64Relocator.PassCopies` | module/src/main/cpp/Dobby/source/InstructionRelocation/x64/X64InstructionRelocation.cc:87-90 | Every instruction that is not RIP-relative and whose opcode is none of 70 to 7F, E0 to E3, E8, E9 and EB stands in the output byte for byte |
| `X64Relocator.NearJccExact` | module/src/main/cpp/Dobby/source/InstructionRelocation/x64/X64InstructionRelocation.cc:87-90 | A near conditional jump, reported by the second byte of its opcode, is copied through a whole pass and keeps its target if and only if it stands where it stood |
| `X64Relocator.CopiedTarget` | module/src/main/cpp/Dobby/source/InstructionRelocation/x64/X64InstructionRelocation.cc:87-90 | A copied instruction that ends in a 32-bit displacement keeps its target if and only if its old and new address agree modulo 2^64 |
| `X64Relocator.JumpsBack` | module/src/main/cpp/Dobby/source/InstructionRelocation/x64/X64InstructionRelocation.cc:107-112 | The code ends in a jump through a pointer, and that pointer holds the address of the first original instruction that was not moved |
| `X64Relocator.ShortConditionalExact` | module/src/main/cpp/Dobby/source/InstructionRelocation/x64/X64InstructionRelocation.cc:43-52 | A jcc rel8 keeps its condition, and its target if and only if it was six bytes long and the target is in reach, so the two-byte form never does |
| `X64Relocator.ShortJumpExact` | module/src/main/cpp/Dobby/source/InstructionRelocation/x64/X64InstructionRelocation.cc:53-60 | A jmp rel8 keeps its target if and only if it was five bytes long and an 8-bit displacement reaches it |
| `X64Relocator.PassShortConditional` | module/src/main/cpp/Dobby/source/InstructionRelocation/x64/X64InstructionRelocation.cc:43-52 | The same for opcodes 70 to 7F through a whole pass: the six bytes at its place, its condition and its target |
| `X64Relocator.PassShortJump` | module/src/main/cpp/Dobby/source/InstructionRelocation/x64/X64InstructionRelocation.cc:53-60 | The same for opcode EB through a whole pass |
| `X64Relocator.RelocatableExact` | module/src/main/cpp/Dobby/source/InstructionRelocation/x64/X64InstructionRelocation.cc:82-86 | The relocator gives up exactly on windows with an instruction of opcode E0 to E3 that is not RIP-relative |
| `ThumbLabels.LoadsReachTheirLabels` | module/src/main/cpp/Dobby/source/InstructionRelocation/arm/ARMInstructionRelocation.h:19-51 | After binding, every recorded load has its register and, read as Align(PC,4) plus imm12, addresses exactly the word of its own label, which holds that label's data |
| `ThumbLabels.LinkableExact` | module/src/main/cpp/Dobby/source/InstructionRelocation/arm/ARMInstructionRelocation.h:36-39 | Binding aborts exactly if some recorded load, counted from Align(PC,4), is not 0 to 4095 bytes before its label's word |
| `ThumbLabels.OnlyLoadsChange` | module/src/main/cpp/Dobby/source/InstructionRelocation/arm/ARMInstructionRelocation.h:327-336 | Binding changes no byte outside the recorded loads |
| `ThumbLabels.BoundLoadMisses` | module/src/main/cpp/Dobby/source/InstructionRelocation/arm/ARMInstructionRelocation.h:291-293 | A load of a label that is already bound never loads from its label; within 4096 bytes it misses by one to four bytes |
| `ThumbLabels.ThumbTurboAssembler.T2Ldr` | module/src/main/cpp/Dobby/source/InstructionRelocation/arm/ARMInstructionRelocation.h:290-299 | Of an unbound label, records the position and emits the unlinked load; all recorded loads stay unlinked and apart from each other, also across growth. Of a bound label, emits a backward load by the distance to the label |
| `ThumbLabels.ThumbTurboAssembler.LinkConfused` | module/src/main/cpp/Dobby/source/InstructionRelocation/arm/ARMInstructionRelocation.h:19-51 | Rewrites every recorded load in place, or aborts exactly if some displacement does not have 12 bits |
| `ThumbLabels.ThumbTurboAssembler.RelocBind` | module/src/main/cpp/Dobby/source/InstructionRelocation/arm/ARMInstructionRelocation.h:327-336 | Binds, links and emits every label, one behind the other; aborts exactly if some label cannot be linked |
| `ThumbLabels.ThumbTurboAssembler.RelocBindFixup` | module/src/main/cpp/Dobby/source/InstructionRelocation/arm/ARMInstructionRelocation.h:323-325 | Changes only the word at the label |
| `CodeBuffer.Buffer.EnsureCapacity` | module/src/main/cpp/Dobby/external/xnucxx/LiteMutableBuffer.cc:14-45 | Growth keeps the contents and makes room, with capacity one and a half times the need |
| `CodeBuffer.Buffer.Emit` | module/src/main/cpp/Dobby/source/MemoryAllocator/CodeBuffer/CodeBufferBase.cc:11-50 | Appends the bytes across reallocation; all growths so far have copied at most three times the present size |
| `CodeBuffer.Buffer.Rewrite` | module/src/main/cpp/Dobby/source/MemoryAllocator/CodeBuffer/code-buffer-arm.cc:20-37 | Overwrites in place and changes nothing else |
| `CodeBuffer.GrowthPays` | module/src/main/cpp/Dobby/external/xnucxx/LiteMutableBuffer.cc:14-33 | The cost of a growth is paid by the increase of the size asked for |
| `Memmem.Find` | module/src/main/cpp/Dobby/source/MemoryAllocator/NearMemoryArena.cc:19-39 | For any needle an answer is an occurrence; for a needle of one repeated byte it is the leftmost one, or null if there is none |
| `Memmem.ExactNeedles` | module/src/main/cpp/Dobby/source/MemoryAllocator/NearMemoryArena.cc:19-39 | The search is right on every haystack if and only if the needle repeats one byte |
| `Memmem.Misses` | module/src/main/cpp/Dobby/source/MemoryAllocator/NearMemoryArena.cc:28-35 | Any other needle is missed behind one more copy of its first byte |
| `VariableCache.SaveLoad` | module/src/main/cpp/Dobby/external/misc-helper/variable_cache.c:66-118 | Loading a saved cache puts the saved entries in front in the opposite order; every lookup is that of the old map overridden by the saved one if and only if each key's first and last saved entries have the same value, as when keys are unique |
| `VariableCache.SaveAndReload` | module/src/main/cpp/Dobby/external/misc-helper/variable_cache.c:38-118 | Any run of sets on an empty cache, saved and loaded into an empty cache, gives unique keys and exactly the map the run builds |
| `VariableCache.StaleValue` | module/src/main/cpp/Dobby/external/misc-helper/variable_cache.c:92-118 | After loading over an entry the key is there twice, and saving and loading again brings back the overridden value |
| `VariableCache.Cache.Set` | module/src/main/cpp/Dobby/external/misc-helper/variable_cache.c:38-51 | Updates the map the list stands for at one key, and keeps keys unique |
| `VariableCache.Cache.Get` | module/src/main/cpp/Dobby/external/misc-helper/variable_cache.c:53-59 | Looks the map up; 0 for a missing key |
| `VariableCache.Cache.GetEntry` | module/src/main/cpp/Dobby/external/misc-helper/variable_cache.c:26-36 | Finds the first entry of the key exactly if the map has it |
| `VariableCache.Cache.SerializedToFile` | module/src/main/cpp/Dobby/external/misc-helper/variable_cache.c:66-90 | Writes header, key and value of every entry in list order |
| `VariableCache.RecordLayout` | module/src/main/cpp/Dobby/external/misc-helper/variable_cache.c:75-84 | The bytes of an entry: key length with terminator and value length in 32 bits, the key, a zero, the 64-bit value |
| `VariableCache.Cache.UnserializedFromFile` | module/src/main/cpp/Dobby/external/misc-helper/variable_cache.c:92-118 | Loads any bytes, with short reads and a header buffer kept across turns, or reports undefined behaviour |
| `VariableCache.LoadAfterSave` | module/src/main/cpp/Dobby/external/misc-helper/variable_cache.c:66-118 | Reading inverts writing for every well-formed list, up to the order |
| `DumpStream.DumpMethod` | module/src/main/cpp/il2cpp_dump.cpp:117-178 | The text equals the pure listing with parameters joined by a comma and a space; nothing of the overwritten separators is left |
| `AsyncLogger.InterleavingsLog` | module/src/main/cpp/Dobby/external/misc-helper/async_logger.cc:20-43 | In every interleaving of the single steps of any number of printing and flushing threads: one thread at a time is in a critical section, the bytes handed to write are at every moment a prefix of the printed strings in lock order, and whenever the mutex is free they and the live part of the buffer are exactly those strings |
| `AsyncLogger.NextKeeps` | module/src/main/cpp/Dobby/external/misc-helper/async_logger.cc:20-43 | Every step of every thread keeps the invariant behind that |
| `AsyncLogger.NoDeadlock` | module/src/main/cpp/Dobby/external/misc-helper/async_logger.cc:20-43 | While the mutex is free every thread can print or flush, and the thread that holds it has a next step exactly unless its string does not fit |
| `AsyncLogger.PrintAppends` | module/src/main/cpp/Dobby/external/misc-helper/async_logger.cc:20-31 | A print that fits can go through and appends exactly its string to the live buffer |
| `AsyncLogger.FlushWrites` | module/src/main/cpp/Dobby/external/misc-helper/async_logger.cc:33-43 | A flush can go through, hands out exactly the live buffer and empties it |
| `DumpStream.WriteParams` | module/src/main/cpp/il2cpp_dump.cpp:146-173 | After the loop and the step back, the text before the put position is the joined list and exactly two characters, or none, are behind it |

## Left out

- A64Windows.RelocatedRunsAlike: literal loads of SIMD registers, LDRSW and PRFM literals, BC.cond and authenticated calls are not supported, and the block must stay below 2^18 words, the reach of a literal load.
- A64Windows.RelocatedRunsAlike: code memory is constant while the window runs, and instructions that read X17 after the relocator overwrote it are excluded, because the relocator does not preserve X17.
- A64Simulation.BCondExact: for AL and NV it states that the block falls through where the original branches, not that the block never comes to the target later.
- A64Relocator.GenRelocateCodeAndBranch: the buffer is a sequence of words; byte-level growth is modelled in CodeBuffer, and the nops of debug builds are not emitted.
- TrieLookup.LookupIsMap: tries of 4 GB and more, where recorded offsets are cut to 32 bits, are not covered.
- Leb128.ReadUleb128: the end-of-buffer assertions are empty in the source; memory ends where the modelled buffer ends, and reading beyond is reported.
- HookLifecycle.RunRestores: requests must find memory for their relocated code and keep windows of different addresses apart; the windows of at most 64 bytes are what the save buffer holds.
- HookLifecycle.Dobby.DobbyHook: CodePatch is a write to a byte range; page protection and cache flushing are not modelled, nor is the 32-bit ARM adjustment of the address, nor the near-branch plugin.
- NearArena.NearMemoryArena.AllocateChunk: it follows the loop for a given number of searches; what search_near_blank_memory_chunk finds is a parameter; whether a granted page is disjoint from mapped regions is up to the operating system.
- NearArena.SearchNearBlankPage: the list of regions is not empty, as the source asserts; page rounding is any function that behaves like clearing the low bits, and FloorInstance gives it for every page size.
- MemoryArena.RunKeeps: negative sizes and address overflow of the 64-bit cursor are not modelled.
- X64Relocator.PassKeepsTargets: the decoder is a parameter that reports lengths of 1 to 15 and a displacement equal to the bytes it stands for; two-byte opcodes whose second byte looks like one of the handled opcodes are taken as the source takes them.
- ThumbLabels.ThumbTurboAssembler.RelocBind: a second call, which emits the data of all labels again, is not modelled.
- CodeBuffer.Buffer.Emit: allocation failure and sizes where the capacity would pass 2^32 are excluded.
- AsyncLogger.InterleavingsLog: writes are complete, and a run in which a string does not fit the rest of the buffer is not followed further, because the source then writes behind the buffer.
- Memmem.Find: null arguments, which are returned as they are, are not modelled.
- VariableCache.Cache.Set: names of 128 bytes and more overflow the key field and are excluded; opening and closing the file is not modelled.
- DumpStream.DumpMethod: number formatting and what the runtime reports are parameters.
- Translation of single 32-bit ARM and Thumb instructions, and the x86 relocator, which repeats the x64 loop.
- Parsing of Mach-O load commands, the ELF and PE resolvers, shared caches and dlsym.
- The growable object arrays and their iterators, which the arenas here hold as sequences, and the copying of an assembler buffer into its chunk.
- Zygisk and JNI entry points, plugins, and the rest of the dumper's output.

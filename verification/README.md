# HookZz, modelled and proved in Dafny

HookZz hooks native functions in place. It copies the first words of a function elsewhere and rewrites the PC-relative
ones, patches a jump over the original, and routes every call through handlers by swapping return addresses against a
shadow stack per thread. The project models that pipeline on arm64, the Thumb-2 rewriter, and the containers and the
symbol rebinder underneath, and proves what each promises.

To verify the whole project: `dafny verify dfyconfig.toml`.

How the files fit together:

- **Relocation, arm64.** `A64Machine` is a small machine after section C6.2 of the Arm Architecture Reference Manual
  for A-profile (DDI 0487); an instruction that is neither a branch nor PC-relative is one abstract step. `A64Encoding`
  and `A64Relocation` say what is emitted per instruction. `A64Simulation` proves that a relocated window of any length,
  anywhere, does what the original does; `A64Exactness` proves that the domain of that theorem is exact.
  `A64AssemblyCore`, `BufferArray`, `A64Writer`, `A64Reader` and `A64Relocator` are the imperative code, proved against
  these functions. `A64NearBranch` is about the 4-byte redirect.
- **Installation.** `ProcessMemory`, `MemoryManager`, `ClosureBridge` and `HookEngine` are the memory HookZz owns and
  patches; `HookInstaller` builds and activates hooks; `HookBehaviour` runs the machine on what is then in memory.
- **Routing.** `ThreadStack` and `InterceptorRouting` are the code; `Routing` is a state machine of it, with call stacks
  reached through pointers, and a reference machine that never touches return addresses; `RoutingSystem` proves that any
  interleaving of threads runs alike on both. `RoutingCalls` says what that is for a whole call and for what handlers
  read from its context. `HookedRouting` shows that installation leaves what routing starts from, and follows a whole
  hooked call.
- **Thumb-2.** `ThumbMachine` follows sections A8.8.18, A8.8.25, A8.8.29, A8.8.64 and their neighbours of the
  ARMv7-A/R Architecture Reference Manual (DDI 0406); what it does not open is an abstract step that is told the PC only
  if it reads it. `ThumbExpansion`, `ThumbRelocation`, `ThumbWindow`, `ThumbExactness` are the functions and theorems,
  `ThumbBranch` the encoder of B.W, BL and BLX, `ThumbReader`, `ThumbWriter` and `ThumbRelocator` the imperative code.
- **Containers and rebinding.** `HashMap`, `LinkedList`, `Fishhook`.

What the proofs found about the code:

- Branch displacements, and the offsets of arm64 literal loads, are added without sign extension: a relocated backward
  branch goes too far by a power of two (`A64Exactness.BackwardOff`, `ThumbRelocation.BackwardOff`). The exact conditions
  are `A64Exactness.DomainIsExact` and
  `ThumbExactness.DomainIsExact`.
- On arm64 every literal load is rewritten to a 64-bit integer load, so LDR Wt, LDRSW and the SIMD forms are changed;
  ADR, ADRP, TBZ and TBNZ are copied as they are.
- In Thumb, B.W and BL are right only for forward offsets below 4 MiB, BLX only where the bits I1 and I2 agree (they are
  swapped), ADR only at a multiple of four, an LDR literal not into the PC, and the rewrite of an ADD of the PC never,
  as it writes below the stack pointer. Instructions that read the PC in other ways are copied as they are.
- The Thumb classifier takes miscellaneous control instructions, such as `dmb ish`, for wide conditional branches
  (`ThumbReader.BarrierMistaken`). The rewrite keeps the meaning of exactly two of them, whose encoding it leaves
  unchanged (`ThumbRelocation.ControlKept`).
- `try_relocate` looks for a class the classifier's table does not hold, so it never finds an early end. The window is
  always 4 or 16 bytes (`HookInstaller.Prepare`).
- `arm64_relocator_reset` empties the reader as well, so `double_write` relocates nothing the second time and writes
  back the bytes it saved (`A64Relocator.Relocator.DoubleWrite`).
- A chain of saved `replaced` pointers is complete exactly if each replacement asks to be saved and differs from what it
  replaced (`Fishhook.RebindingsChain`). An image loaded later leaves a chain of one as it is and in general cuts a
  longer one down to its newest replacement; `Fishhook.LateImage` says exactly when.

## Model

| member | source | states |
|---|---|---|
| A64Simulation.RelocationSimulates | src/platforms/arch-arm64/relocator-arm64.c:111-245 | From any instruction of a window of any length, at any placement, for any run that stays in the domain until it leaves the window: the relocated words and the jump behind them fetch only instructions, never a literal, and leave for the same address with the same memory, flags and registers, except X17 and what differed before: memory and registers that no instruction of the run may read before it has written them; after a call, with a return address standing for the original one |
| A64Simulation.LiteralsApart | src/platforms/arch-arm64/relocator-arm64.c:154-245 | No instruction address the theorem speaks of lies in an inline literal of any expansion or of the jump behind them |
| A64Simulation.StraightRun | src/platforms/arch-arm64/relocator-arm64.c:111-127 | A window of any instructions that are neither branches nor PC-relative meets the condition of the theorem, run to its end |
| A64Simulation.CallReturns | src/platforms/arch-arm64/relocator-arm64.c:230-245 | When the callee of a relocated BL or BLR returns, execution goes on, in an unchanged state, with the block of the next instruction |
| A64Simulation.CallResumes | src/platforms/arch-arm64/relocator-arm64.c:230-245 | Behind a call, once its callee has returned to both: for any run of the rest of the window that does not read X17, X30 or the dead memory where the callee saved X30 before writing them, the trampoline again leaves for the same place in the same state |
| A64Exactness.DomainIsExact | src/platforms/arch-arm64/relocator-arm64.c:129-245 | For every one of the 2^32 words: running its block comes to the same as stepping the word, from every state of every memory that holds both and at every aligned placement, if and only if it is in the stated domain (forward displacement, 64-bit integer literal load, no ADR, ADRP, TBZ or TBNZ that does anything) |
| A64Exactness.BackwardOff | src/platforms/arch-arm64/relocator-arm64.c:171-245 | A relocated backward B or BL goes 2^28 too far, a backward B.cond, CBZ or CBNZ 2^21 |
| A64Relocation.BlockRuns | src/platforms/arch-arm64/relocator-arm64.c:154-245 | Running the block emitted for one word, anywhere, has the stated result after the stated number of steps and fetches only its instruction words |
| A64Relocation.DecodeRetargeted | src/platforms/arch-arm64/ARM64AssemblyCore.c:10-15 | BIT32SET on the displacement field gives the same compare or condition with displacement two words, for every word of these classes |
| A64AssemblyCore.EntryMatchesClass | src/platforms/arch-arm64/ARM64AssemblyCore.c:197-204 | Each table entry matches exactly the words that decode to its class |
| A64AssemblyCore.EntriesDisjoint | src/platforms/arch-arm64/ARM64AssemblyCore.c:182-204 | No word matches two entries |
| A64AssemblyCore.InstTable.constructor | src/platforms/arch-arm64/ARM64AssemblyCore.c:180-204 | The table holds the five entries and is unused elsewhere |
| A64AssemblyCore.InstTable.GetInstType | src/platforms/arch-arm64/ARM64AssemblyCore.c:182-195 | The loop returns the class of what the word decodes as, for all 2^32 words |
| BufferArray.Buffer.constructor | src/std_kit/std_buffer_array.c:3-19 | An empty buffer of the asked or the default capacity |
| BufferArray.Buffer.Put | src/std_kit/std_buffer_array.c:21-32 | Contents grow by exactly the bytes put, across a reallocation or not; the capacity doubles when they do not fit |
| BufferArray.Buffer.Clear | src/std_kit/std_buffer_array.c:34-38 | The buffer is empty and keeps its capacity's memory |
| A64Writer.ContextsAppend | src/platforms/arch-arm64/writer-arm64.c:42-55 | Appending a word and its context keeps: one context per word, the i-th at start_pc + 4i and holding the i-th word of the bytes |
| A64Writer.Writer.constructor | src/platforms/arch-arm64/writer-arm64.c:10-16 | An empty writer for the given pc |
| A64Writer.Writer.Reset | src/platforms/arch-arm64/writer-arm64.c:20-28 | Empty again, for the new pc |
| A64Writer.Writer.PutBytes | src/platforms/arch-arm64/writer-arm64.c:42-55 | Any number of words is appended, with one context per word, whatever the writer's start_pc |
| A64Writer.Writer.PutLdrRegImm | src/platforms/arch-arm64/writer-arm64.c:57-67 | Appends one word, the literal load of the encoding function, whose decoding is A64Relocation.DecodeEmitted |
| A64Writer.Writer.PutLdrRegRegOffset | src/platforms/arch-arm64/writer-arm64.c:86-103 | Appends one word, the 64-bit load at a register |
| A64Writer.Writer.PutBrReg | src/platforms/arch-arm64/writer-arm64.c:104-112 | Appends BR |
| A64Writer.Writer.PutBlrReg | src/platforms/arch-arm64/writer-arm64.c:113-122 | Appends BLR |
| A64Writer.Writer.PutBImm | src/platforms/arch-arm64/writer-arm64.c:123-127 | Appends B with the low 26 bits of the word offset |
| A64Relocation.DecodeEmitted | src/platforms/arch-arm64/writer-arm64.c:57-122 | The emitted load, BR and BLR words decode, for every register, to the instruction and literal offset meant |
| A64NearBranch.NearBranchReaches | src/platforms/arch-arm64/writer-arm64.c:123-127 | put_b_imm of any word-aligned distance within 128 MiB, negative ones included, read back with sign extension, goes exactly to the destination |
| A64Reader.Reader.constructor | src/platforms/arch-arm64/reader-arm64.c:9-16 | Nothing read yet |
| A64Reader.Reader.Reset | src/platforms/arch-arm64/reader-arm64.c:18-27 | Nothing read, at the new address and pc |
| A64Reader.Reader.ReadInst | src/platforms/arch-arm64/reader-arm64.c:29-41 | The n-th read yields the n-th word at the start address, with pc start_pc + 4n |
| A64Relocator.OutIndexBounds | src/platforms/arch-arm64/relocator-arm64.c:111-152 | n inputs give between n and 6n output words |
| A64Relocator.ReadKeepsInStep | src/platforms/arch-arm64/reader-arm64.c:29-41 | Reading another word keeps: the output is the expansion of the inputs relocated so far, and io_indexs holds the prefix sums of their lengths |
| A64Relocator.WriteKeepsInStep | src/platforms/arch-arm64/relocator-arm64.c:111-152 | So does relocating one more |
| A64Relocator.ExpandConsecutive | src/platforms/arch-arm64/relocator-arm64.c:105-152 | What is emitted for words read in a row is the block sequence the simulation theorem is about |
| A64Relocator.Relocator.constructor | src/platforms/arch-arm64/relocator-arm64.c:8-15 | Nothing relocated and no literal noted |
| A64Relocator.Relocator.RegisterLiteralInstCTX | src/platforms/arch-arm64/relocator-arm64.c:101-103 | One literal context more |
| A64Relocator.Relocator.RewriteLoadLiteral | src/platforms/arch-arm64/relocator-arm64.c:154-169 | Appends five words, the block of BlockRuns, and notes the high word of its literal |
| A64Relocator.Relocator.RewriteBaseCmpBranch | src/platforms/arch-arm64/relocator-arm64.c:171-191 | The same for CBZ and CBNZ, six words |
| A64Relocator.Relocator.RewriteBranchCond | src/platforms/arch-arm64/relocator-arm64.c:193-213 | The same for B.cond, six words |
| A64Relocator.Relocator.RewriteB | src/platforms/arch-arm64/relocator-arm64.c:215-228 | The same for B, four words |
| A64Relocator.Relocator.RewriteBL | src/platforms/arch-arm64/relocator-arm64.c:230-245 | The same for BL, five words |
| A64Relocator.Relocator.WriteReplacement | src/platforms/arch-arm64/relocator-arm64.c:129-151 | The switch over the classifier's answer appends, for every word, the block of what the word decodes as |
| A64Relocator.Relocator.RelocateWrite | src/platforms/arch-arm64/relocator-arm64.c:111-152 | Relocates exactly the next unrelocated input and records where; does nothing when there is none |
| A64Relocator.Relocator.RelocateWriteAll | src/platforms/arch-arm64/relocator-arm64.c:105-109 | Terminates with every input relocated, in order; the bytes do not depend on the writer's start_pc |
| A64Relocator.Relocator.Reset | src/platforms/arch-arm64/relocator-arm64.c:17-25 | Everything is forgotten, the words read included |
| A64Relocator.Relocator.DoubleWrite | src/platforms/arch-arm64/relocator-arm64.c:81-99 | The writer ends with exactly the bytes it began with, although the reset has emptied the input |
| A64Relocator.Relocator.TryRelocate | src/platforms/arch-arm64/relocator-arm64.c:27-51 | Leaves the out-parameter as it was, for all code: no early end is ever found |
| MemoryManager.CutKeeps | src/memory_manager.c:23-42 | Cutting a slice from a block with room keeps: each block's used size is the sum of its slices, within its page |
| MemoryManager.PageKeeps | src/memory_manager.c:43-56 | So does adding a page |
| MemoryManager.Manager.constructor | src/memory_manager.c:12-21 | No blocks and no slices |
| MemoryManager.SliceInside | src/memory_manager.c:23-56 | Every slice lies in the used part of its block |
| MemoryManager.SlicesDisjoint | src/memory_manager.c:23-56 | Any two slices ever handed out are disjoint |
| MemoryManager.SlicesAligned | src/memory_manager.c:23-56 | Slices of whole words are word-aligned, which double_write asserts |
| MemoryManager.Manager.AllocateCodeSlice | src/memory_manager.c:23-56 | The slice is cut from the first block with strictly more room, and a page is taken only when there is none; only that block changes |
| MemoryManager.SearchDummyCodeCave | src/memory_manager.c:58-73 | The lowest address, of those a multiple of the size above the start and below the end, where that many bytes are zero; none if and only if there is none |
| MemoryManager.SearchCodeCave | src/memory_manager.c:75-109 | The first block, in layout order, that has such an address between the greater of its start and target minus range and the lesser of its end and target plus range minus size, and the lowest such address in it; none only if no block has one |
| MemoryManager.CaveInRange | src/memory_manager.c:75-109 | A cave found lies wholly within the range of the target and is word-aligned if the bounds are |
| ProcessMemory.Process.PatchCode | src/platforms/backend-posix/memory-helper-posix.c:48-90 | Copying the page, patching the copy and copying back sets exactly the patched bytes |
| ProcessMemory.BytesKept | src/platforms/backend-posix/memory-helper-posix.c:48-90 | Code elsewhere is untouched by a patch |
| ClosureBridge.SlotRuns | src/platforms/arch-arm64/closure-trampoline-template-arm64.S:12-20 | Executing a bound slot loads X14 with its info and jumps to the bridge |
| ClosureBridge.BindNext | src/platforms/arch-arm64/closure-bridge-arm64.c:28-55 | Writing the two literals of the next blank slot binds it and no other slot changes |
| ClosureBridge.Bridge.constructor | src/closure_bridge.c:5-12 | No tables and no infos |
| ClosureBridge.Bridge.InitializeTablePage | src/platforms/arch-arm64/closure-bridge-arm64.c:7-26 | The page holds the template in every slot; used + free is the number of slots of a page |
| ClosureBridge.Bridge.InitializeClosureBridgeInfo | src/platforms/arch-arm64/closure-bridge-arm64.c:28-55 | The next free slot is bound to the info, the counts move, only its 28 bytes change |
| ClosureBridge.Bridge.AllocateClosureBridgeTrampolineTable | src/closure_bridge.c:14-28 | One table more, on its page, with page size / 28 free slots, no other memory changed |
| ClosureBridge.Bridge.AllocateClosureBridge | src/closure_bridge.c:30-52 | A slot bound to the new info, 28 bytes for each slot before it into the page of the last table with a free slot or, when none has one, of a new page; every slot handed out before keeps its info |
| ClosureBridge.Bridge.SlotsDisjoint | src/closure_bridge.c:30-52 | Slots handed out are disjoint 28-byte ranges |
| ClosureBridge.Bridge.EverySlotRuns | src/platforms/arch-arm64/closure-trampoline-template-arm64.S:12-20 | However many slots were handed out since, each still passes its own info to the bridge |
| HookEngine.Engine.ApplyPatch | src/platforms/backend-posix/memory-helper-posix.c:48-90 | A patch of memory that is neither owned nor patched leaves every slice, slot and earlier patch as written |
| HookEngine.Engine.AllocateSlice | src/memory_manager.c:23-56 | A word-aligned slice apart from everything written before |
| HookEngine.Engine.PatchSlice | src/platforms/arch-arm64/writer-arm64.c:30-36 | Filling the slice taken last leaves everything written before |
| HookEngine.Engine.AllocateSlot | src/closure_bridge.c:30-52 | A slot bound, everything written or bound before still so |
| HookEngine.StaysWritten | src/platforms/backend-posix/memory-helper-posix.c:48-90 | What was written stays written however the memory HookZz owns grows |
| HookEngine.StaysBound | src/closure_bridge.c:30-52 | A bound slot stays bound |
| HookInstaller.Prepare | src/platforms/arch-arm64/interceptor-routing-trampoline-arm64.c:31-56 | For all code at the target the window is 4 bytes for a near jump and 16 otherwise, exactly the window is saved, and a hook never becomes a near jump by itself |
| HookInstaller.HookEntry.constructor | src/hookzz.c:28-71 | An entry of the given type, target and replacement, not yet prepared |
| HookInstaller.EmitWindow | src/platforms/arch-arm64/interceptor-routing-trampoline-arm64.c:210-219 | The loop reads exactly window/4 words, so its assert holds, and emits their expansion in order |
| HookInstaller.EmitInvoke | src/platforms/arch-arm64/interceptor-routing-trampoline-arm64.c:206-224 | The code of on_invoke_trampoline is the window relocated and a jump to target + window |
| HookInstaller.FinalBytes | src/platforms/arch-arm64/interceptor-routing-trampoline-arm64.c:229-232 | double_write and patch_to copy that code unchanged |
| HookInstaller.EmitTransfer | src/platforms/arch-arm64/interceptor-routing-trampoline-arm64.c:125-139 | The transfer jumps to replace_call for a replaced function, to the instrumentation slot for an instrumented one, and else to the enter slot |
| HookInstaller.EmitRedirect | src/platforms/arch-arm64/interceptor-routing-trampoline-arm64.c:58-82 | 4 bytes for a near jump; else 16, to the transfer of a replaced function, the instrumentation slot, or the enter slot, by type |
| HookInstaller.Installer.BuildForEnterTransfer | src/platforms/arch-arm64/interceptor-routing-trampoline-arm64.c:125-159 | The transfer is written in a cave within the reach of B or in a slice; the target is untouched and everything earlier stays |
| HookInstaller.Installer.FindCave | src/platforms/arch-arm64/interceptor-routing-trampoline-arm64.c:142-150 | The cave is the first 16 zero bytes within 32 MiB of the target, 16 by 16 through the blocks; it may be written and is within the reach of B |
| HookInstaller.FoundCaveUsable | src/platforms/arch-arm64/interceptor-routing-trampoline-arm64.c:142-150 | A cave the search finds is word-aligned, apart from the target and within the reach of B |
| HookInstaller.ZeroMissesPatch | src/memory_manager.c:58-73 | 16 zero bytes overlap no patch that begins and ends with a word that is not zero |
| HookInstaller.RedirectSolid | src/platforms/arch-arm64/interceptor-routing-trampoline-arm64.c:125-139 | A written jump begins and ends with a word that is not zero if and only if it goes to 2^32 or above |
| HookInstaller.NearSolid | src/platforms/arch-arm64/interceptor-routing-trampoline-arm64.c:64-67 | The 4-byte redirect always does |
| HookInstaller.Installer.StaysSolid | src/platforms/arch-arm64/interceptor-routing-trampoline-arm64.c:58-139 | Both jumps of a hook, to 2^32 or above, leave all patches beginning and ending with a word that is not zero |
| HookInstaller.Installer.BuildForEnter | src/platforms/arch-arm64/interceptor-routing-trampoline-arm64.c:161-204 | on_enter_trampoline is a slot bound to the entry's begin handler, with a transfer to it for the near jump of a wrapped function |
| HookInstaller.Installer.BuildForInvoke | src/platforms/arch-arm64/interceptor-routing-trampoline-arm64.c:206-235 | on_invoke_trampoline holds the relocated saved prologue and the jump behind it |
| HookInstaller.Installer.BuildForLeave | src/platforms/arch-arm64/interceptor-routing-trampoline-arm64.c:237-272 | on_leave_trampoline is a slot bound to the entry's end handler |
| HookInstaller.Installer.BuildForDbi | src/platforms/arch-arm64/interceptor-routing-trampoline-arm64.c:274-293 | The instrumentation slot, and its transfer for a near jump |
| HookInstaller.Installer.BuildPrePost | src/interceptor_routing_trampoline.c:3-23 | A wrapped entry gets begin and end slots, the infos handed out say so, and on_invoke_trampoline |
| HookInstaller.Installer.BuildReplace | src/interceptor_routing_trampoline.c:3-23 | A replaced entry gets the transfer to its replacement and on_invoke_trampoline, and no closure slot |
| HookInstaller.Installer.BuildDbi | src/interceptor_routing_trampoline.c:3-23 | An instrumented entry gets its slot and on_invoke_trampoline |
| HookInstaller.Installer.BuildGot | src/interceptor_routing_trampoline.c:13-16 | An import gets begin and end slots, its target is not prepared, and no cave is looked for |
| HookInstaller.Installer.BuildAll | src/interceptor_routing_trampoline.c:3-23 | The trampolines of the entry's type, for all four types, built from the still unpatched target |
| HookInstaller.Installer.Active | src/platforms/arch-arm64/interceptor-routing-trampoline-arm64.c:58-83 | The redirect covers exactly the window; all trampolines stay as built |
| HookInstaller.Installer.InitializeHookEntry | src/hookzz.c:16-26 | Add, build, activate: every hook installed before is still whole, every closure slot handed out belongs to a hook whose type its handler fits, the bytes saved are the target's before the patch, and with jumps to 2^32 or above the caves taken stay told from free ones, so that any number of near hooks can follow |
| HookBehaviour.HookedCall | src/platforms/arch-arm64/interceptor-routing-trampoline-arm64.c:58-159 | In every installed state, calling a replaced function ends at replace_call, an instrumented one at its instrumentation slot and a wrapped one at its enter slot, with only X17 changed, after 3 steps by the 4-byte redirect and 4 or 2 by the 16-byte one |
| HookBehaviour.HookedCallReachesHandler | src/platforms/arch-arm64/interceptor-routing-trampoline-arm64.c:161-204 | Calling a wrapped or instrumented target reaches the bridge with X14 at an info that names this entry and its handler |
| HookBehaviour.HookedReturnReachesHandler | src/platforms/arch-arm64/interceptor-routing-trampoline-arm64.c:237-272 | Returning to a wrapped call's leave slot reaches the bridge with this entry's end handler |
| HookBehaviour.OriginalRuns | src/platforms/arch-arm64/interceptor-routing-trampoline-arm64.c:206-235 | Wherever the code of on_invoke_trampoline is in memory, entering it does what entering the unpatched target did, though memory and registers the window does not read may differ |
| HookBehaviour.OriginalSimulated | src/platforms/arch-arm64/interceptor-routing-trampoline-arm64.c:206-235 | So it does in the process as it is after any number of later hooks |
| HookedRouting.SlotHasOneInfo | src/closure_bridge.c:30-52 | Two infos bound to one slot are one allocation |
| HookedRouting.LeaveSlotsApart | src/interceptor_routing_trampoline.c:3-23 | No two wrapped entries share a leave slot |
| HookedRouting.RoutingReady | src/interceptor_routing_trampoline.c:3-23 | After any installations the leave slots identify the hooks: the table of hooks routing assumes exists |
| HookedRouting.HandlersFit | src/interceptor_routing.c:30-33 | After any installations a slot that runs the begin handler is the enter slot of a hook whose calls have their return address exchanged, one that runs the end handler the address it is exchanged for, and one that runs the instrumentation handler belongs to a hook that leaves it alone |
| HookedRouting.InfoNamesHook | src/closure_bridge.c:30-52 | The user data of every closure slot is the id of an installed hook |
| HookedRouting.InstrumentedTarget | src/interceptor_routing.c:61-74 | A whole instrumented call: the target reaches the bridge with its own info, and from whatever registers and memory dbi_call leaves, the next hop leaves the window for the same place and in the same state as the unhooked target entered there; with the registers restored, as the target called with them, if the window does not read X14, X15 and X17 before it writes them |
| HookedRouting.WrappedTarget | src/interceptor_routing.c:4-33 | The same for a wrapped call and pre_call, the original called with the entry's own leave slot as return address, which its window may save; the next hop is the replacement if there is one |
| ThreadStack.CallStack.constructor | src/thread_support/thread_stack.c:27-33 | A call stack with an empty context |
| ThreadStack.CallStack.KvSet | src/thread_support/thread_stack.c:40-46 | One key of this call's context, and nothing else |
| ThreadStack.CallStack.KvGet | src/thread_support/thread_stack.c:48-54 | The value of the key in this call's context, 0 if it has none |
| ThreadStack.ThreadStackManager.PushCallStack | src/thread_support/thread_stack.c:18-20 | One more on top |
| ThreadStack.ThreadStackManager.PopCallStack | src/thread_support/thread_stack.c:22-25 | The top one removed |
| ThreadStack.ThreadStackManager.constructor | src/thread_support/thread_stack.c:8-12 | An empty shadow stack |
| ThreadStack.Threads.SharedInstance | src/thread_support/thread_stack.c:6-16 | The thread's own manager, made on first use, shared with no other thread; no shadow stack changes |
| InterceptorRouting.Interceptor.RoutingBegin | src/interceptor_routing.c:4-20 | Up to pre_call: a step of the machine, for a call and for a tail call whose return address is already a leave slot; other threads untouched |
| InterceptorRouting.Interceptor.RoutingBeginDone | src/interceptor_routing.c:22-33 | After pre_call: the next hop is the replacement or else the original; for wrapped functions and imports the return address is saved and exchanged for the leave slot, a step of the machine, and for the others nothing changes |
| InterceptorRouting.Interceptor.KvSet | src/thread_support/thread_stack.c:40-46 | Called by a handler of the call, a step of the machine |
| InterceptorRouting.Interceptor.KvGet | src/thread_support/thread_stack.c:48-54 | So is this, its output the value read |
| InterceptorRouting.Interceptor.RoutingEnd | src/interceptor_routing.c:36-52 | Up to post_call: this thread's top call stack popped; a step of the machine |
| InterceptorRouting.Interceptor.RoutingEndDone | src/interceptor_routing.c:54-58 | Control goes where the machine's step goes, the saved return address, and the call stack is freed |
| InterceptorRouting.Interceptor.RoutingDbi | src/interceptor_routing.c:61-74 | However many hooks were installed since, the address it goes on to holds the relocated original of this entry |
| Routing.ArriveMatches | src/interceptor_routing.c:36-58 | Arriving at any return address means the same on both machines: a leave slot starts the post_call of the innermost pending activation |
| Routing.EnterMatches | src/interceptor_routing.c:4-20 | Entering a wrapped function means the same on both machines |
| Routing.PreDoneMatches | src/interceptor_routing.c:22-33 | Swapping the return address means leaving the pre_call of the reference machine |
| Routing.PostDoneMatches | src/interceptor_routing.c:54-58 | Going to the saved address means returning to the true caller or to the next pending post_call |
| Routing.KvMatches | src/thread_support/thread_stack.c:40-54 | kv_set and kv_get through a call stack pointer act on the one activation they belong to |
| Routing.StepMatches | src/interceptor_routing.c:4-58 | Every event gives the same output on the hooked and on the reference machine, or neither can take it, and the correspondence is kept |
| Routing.StepLocal | src/thread_support/thread_stack.c:6-38 | A step touches and frees only call stacks its own thread holds and never leaves one held twice |
| RoutingSystem.SystemStepMatches | src/interceptor_routing.c:4-58 | One step of one thread among many, with all other threads as they were |
| RoutingSystem.RunMatches | src/interceptor_routing.c:4-58 | Every run, of any interleaving of threads with any nesting, recursion and tail calls, has the outputs of the reference run, step for step |
| RoutingSystem.InitiallyRelated | src/thread_support/thread_stack.c:6-16 | The empty start corresponds |
| RoutingSystem.DepthMatches | src/thread_support/thread_stack.c:18-25 | The shadow stack is as deep as there are wrapped activations waiting |
| RoutingSystem.StepInside | src/interceptor_routing.c:4-58 | A function can be left only to the post_call of its innermost activation or, with none, to its own caller |
| RoutingSystem.WrappedCallReturns | src/interceptor_routing.c:4-58 | A wrapped call made anywhere in any run comes back, if it does, to exactly the address it was called from, with the shadow stack as deep as before, whatever its handlers, callees and other threads do |
| RoutingSystem.ContextSurvives | src/thread_support/thread_stack.c:27-54 | What a pre_call left in its context, and the return address saved, are exactly what its post_call finds |
| RoutingSystem.NothingLeft | src/thread_support/thread_stack.c:35-38 | When all functions have returned, every call stack has been freed |
| RoutingCalls.PlainCall | src/interceptor_routing.c:36-58 | A call of a function that is not hooked returns to where it was made |
| RoutingCalls.WholeCall | src/interceptor_routing.c:4-58 | A whole wrapped call from any state: pre_call puts a value into the context, the function is entered at its next hop, its return starts post_call, which reads that value back, control arrives where the call was made, and stacks and heap are as before |
| RoutingCalls.TailCall | src/interceptor_routing.c:4-58 | A wrapped function reached by a tail call: its post_call first, then exactly what the return of its caller would have done, another post_call included |
| RoutingCalls.SetThenGet | src/thread_support/thread_stack.c:40-54 | What a handler sets, any later handler of the same call reads, its post_call above all, whatever all threads do in between but set that key of that call again |
| RoutingCalls.NeverSet | src/thread_support/thread_stack.c:27-54 | A key no handler of the call has set reads as 0 |
| ThumbExpansion.LdrRegImmLoads | src/platforms/arch-arm/writer-thumb.c:212-228 | For every register and offset: the load emitted is the one asked for if and only if the offset is within 4095 and, in the narrow encoding, a multiple of four |
| ThumbExpansion.LdrRegBlockLoads | src/platforms/arch-arm/writer-thumb.c:76-97 | For every register, value and both alignments the load reads the literal behind it, or jumps there when the register is the PC |
| ThumbExpansion.LdrBRegBlockLoads | src/platforms/arch-arm/writer-thumb.c:49-74 | The same with the literal jumped over: runs on just past it with nothing else changed |
| ThumbExpansion.TransferT1Exact | src/platforms/arch-arm/writer-thumb.c:230-250 | For all registers and offsets, the load or store emitted is the one asked for if and only if both registers are low and the offset is a multiple of four below 128 |
| ThumbExpansion.TransferT3Exact | src/platforms/arch-arm/writer-thumb.c:274-296 | The same if and only if the offset is below 4096, the base is not the PC and a store is not of the PC |
| ThumbBranch.BranchImmReaches | src/platforms/arch-arm/writer-thumb.c:174-208 | For every 32-bit offset the halfwords decode, with S, J1 and J2 as the manual prescribes, to it if and only if it is even, within 16 MiB and, for BLX, a multiple of four |
| ThumbRelocation.ExpansionSimulates | src/platforms/arch-arm/relocator-thumb.c:444-516 | At either alignment of instruction and output, from every state: what write_one emits for an instruction of the domain, rewritten or copied, does to registers, flags and memory what the instruction does and goes to the same target in the same instruction set, or falls out just past its end |
| ThumbRelocation.AddressExact | src/platforms/arch-arm/relocator-thumb.c:288-442 | The target computed is the branch's own if and only if it is a forward branch, for B.W and BL one of less than 4 MiB, and for BLX one whose I1 and I2 agree |
| ThumbRelocation.BackwardOff | src/platforms/arch-arm/relocator-thumb.c:288-356 | A relocated backward branch goes 2^9, 2^12 or 2^21 too far, by its encoding |
| ThumbRelocation.CmpBrSimulates | src/platforms/arch-arm/relocator-thumb.c:146-174 | ExpansionSimulates for CBZ and CBNZ, all encodings |
| ThumbRelocation.CondBrNarrowSimulates | src/platforms/arch-arm/relocator-thumb.c:288-308 | For forward B T1 |
| ThumbRelocation.BrNarrowSimulates | src/platforms/arch-arm/relocator-thumb.c:311-321 | For forward B T2, in one step |
| ThumbRelocation.CondBrWideSimulates | src/platforms/arch-arm/relocator-thumb.c:330-355 | For forward B T3 |
| ThumbRelocation.LdrLitSimulates | src/platforms/arch-arm/relocator-thumb.c:199-235 | For LDR literal T1 and T2, not into the PC |
| ThumbRelocation.AdrSimulates | src/platforms/arch-arm/relocator-thumb.c:238-279 | For ADR T1, T2 and T3 at a multiple of four |
| ThumbRelocation.JumpSimulates | src/platforms/arch-arm/relocator-thumb.c:358-377 | For B T4 in the domain |
| ThumbRelocation.LinkSimulates | src/platforms/arch-arm/relocator-thumb.c:380-442 | For BL and BLX in the domain, LR included |
| ThumbRelocation.ControlSimulates | src/platforms/arch-arm/relocator-thumb.c:330-355 | For a miscellaneous control instruction taken for B T3 whose fields the rewrite leaves as they are |
| ThumbRelocation.ControlKept | src/platforms/arch-arm/relocator-thumb.c:350-351 | There are exactly two of these |
| ThumbRelocation.CopySimulates | src/platforms/arch-arm/relocator-thumb.c:506-508 | For a copied instruction that does not read the PC |
| ThumbWindow.WindowSimulates | src/platforms/arch-arm/relocator-thumb.c:125-131 | From the first instruction of a window of any length, in the domain, at any even address, for any run until it leaves the window: what write_all emitted leaves for the same place, or falls out behind its own end, with the same registers, flags and memory |
| ThumbWindow.ReadsConsecutive | src/platforms/arch-arm/reader-thumb.c:43-68 | Instructions as read lie one behind the other, and are those in memory |
| ThumbExactness.DomainIsExact | src/platforms/arch-arm/relocator-thumb.c:444-516 | For every pair of halfwords but ADD PC, PC, at every even address: what write_one emits keeps the meaning from every state, wherever it is placed and whatever the unopened instructions do, if and only if the stated domain holds; misclassified and copied encodings included |
| ThumbExactness.AddPcFails | src/platforms/arch-arm/relocator-thumb.c:177-196 | The rewrite of ADD of the PC never keeps the meaning: it writes below the stack pointer |
| ThumbExactness.AddPcRuns | src/platforms/arch-arm/relocator-thumb.c:177-196 | But for that word the rewrite does right: into any register but R7, SP and PC it adds the original PC value, changes no other register and goes on behind itself |
| ThumbReader.InsnEqual | src/platforms/arch-arm/instructions.c:6-21 | The backward loop compares exactly the bits the pattern fixes |
| ThumbReader.InsnIsThumb2 | src/platforms/arch-arm/reader-thumb.c:3-13 | True exactly for the first halfwords of 32-bit instructions |
| ThumbReader.GetThumbInsnType | src/platforms/arch-arm/reader-thumb.c:73-130 | For all pairs of halfwords, the type of what the pair decodes as in the manual's terms; control instructions, unpredictable ADRs and undefined BLXs share the type of the real ones |
| ThumbReader.NarrowIsType | src/platforms/arch-arm/reader-thumb.c:73-130 | The tests for 16-bit instructions agree with decoding |
| ThumbReader.WideIsType | src/platforms/arch-arm/reader-thumb.c:73-130 | So do those for 32-bit ones |
| ThumbReader.ConditionalBranches | src/platforms/arch-arm/reader-thumb.c:73-130 | What is classified as B T3 is one if and only if its condition is not 0b111x |
| ThumbReader.BarrierMistaken | src/platforms/arch-arm/reader-thumb.c:73-130 | dmb ish, a miscellaneous control instruction, is classified as B T3 |
| ThumbReader.Reader.constructor | src/platforms/arch-arm/reader-thumb.c:15-23 | Nothing read yet, start_pc four past the first instruction |
| ThumbReader.Reader.ReadOneInstruction | src/platforms/arch-arm/reader-thumb.c:43-68 | Reads the next instruction whole and not a byte more; the sizes read add up |
| ThumbWriter.Writer.constructor | src/platforms/arch-arm/writer-thumb.c:15-33 | An empty writer for the target address |
| ThumbWriter.Writer.Reset | src/platforms/arch-arm/writer-thumb.c:19-33 | Empty again |
| ThumbWriter.Writer.PutBytes | src/platforms/arch-arm/writer-thumb.c:105-122 | The bytes and one context of their size are appended in place |
| ThumbWriter.Writer.PutInstruction | src/platforms/arch-arm/writer-thumb.c:124-141 | The halfword, little-endian, and its context |
| ThumbWriter.Writer.PutNop | src/platforms/arch-arm/writer-thumb.c:100-103 | Appends a NOP |
| ThumbWriter.Writer.PutBImm | src/platforms/arch-arm/writer-thumb.c:143-147 | Appends B T2 |
| ThumbWriter.Writer.PutBranchImm | src/platforms/arch-arm/writer-thumb.c:174-193 | Appends the halfwords BranchImmReaches is about |
| ThumbWriter.Writer.PutLdrRegImm | src/platforms/arch-arm/writer-thumb.c:212-228 | Appends the load LdrRegImmLoads is about; nothing for 4096 or more |
| ThumbWriter.Writer.PutLdrRegAddress | src/platforms/arch-arm/writer-thumb.c:76-97 | Appends the block LdrRegBlockLoads is about, at both alignments, its literal last |
| ThumbWriter.Writer.PutLdrBRegAddress | src/platforms/arch-arm/writer-thumb.c:49-74 | Appends the block LdrBRegBlockLoads is about, its literal last |
| ThumbWriter.Writer.PutTransferT1 | src/platforms/arch-arm/writer-thumb.c:230-250 | Appends the transfer, or nothing and FALSE out of the encoding's reach |
| ThumbWriter.Writer.PutTransferT3 | src/platforms/arch-arm/writer-thumb.c:274-296 | The same for the wide form |
| ThumbWriter.Writer.PutPushReg | src/platforms/arch-arm/writer-thumb.c:461-470 | Appends the halfword made from any one register, for R0 to R7 its PUSH |
| ThumbWriter.Writer.PutPopReg | src/platforms/arch-arm/writer-thumb.c:472-481 | Appends the halfword made from any one register, for R0 to R7 its POP |
| ThumbRelocator.Displacements | src/platforms/arch-arm/relocator-thumb.c:146-442 | The shifts and masks of the rewrites take the decoded fields apart exactly: without their sign, and for the wide branches with I1, I2 and S where the field functions say |
| ThumbRelocator.TypeOfRewritten | src/platforms/arch-arm/relocator-thumb.c:461-504 | The classifier sends every instruction to its own rewrite, or leaves it to be copied |
| ThumbRelocator.Relocator.RegisterLiteral | src/platforms/arch-arm/relocator-thumb.c:133-138 | The context written last is noted |
| ThumbRelocator.Relocator.RewriteCbz | src/platforms/arch-arm/relocator-thumb.c:146-174 | Appends the expansion ExpansionSimulates is about and notes its literal |
| ThumbRelocator.Relocator.RewriteBT1 | src/platforms/arch-arm/relocator-thumb.c:288-308 | Appends the expansion and notes its literal |
| ThumbRelocator.Relocator.RewriteBT2 | src/platforms/arch-arm/relocator-thumb.c:311-321 | Appends the expansion and notes its literal |
| ThumbRelocator.Relocator.RewriteBT3 | src/platforms/arch-arm/relocator-thumb.c:330-355 | Appends the expansion of a wide conditional branch, or of a control instruction taken for one, and notes no literal |
| ThumbRelocator.Relocator.RewriteBT4 | src/platforms/arch-arm/relocator-thumb.c:358-377 | Appends the expansion and notes its literal |
| ThumbRelocator.Relocator.RewriteBl | src/platforms/arch-arm/relocator-thumb.c:380-405 | Appends the expansion and notes the literal of the return address twice |
| ThumbRelocator.Relocator.RewriteBlx | src/platforms/arch-arm/relocator-thumb.c:408-442 | Appends the expansion, of an undefined BLX as well, and notes both literals |
| ThumbRelocator.Relocator.RewriteAddRegister | src/platforms/arch-arm/relocator-thumb.c:177-196 | Appends the expansion of an ADD of the PC; leaves any other to be copied |
| ThumbRelocator.Relocator.PutCopy | src/platforms/arch-arm/relocator-thumb.c:506-508 | Appends the instruction's own bytes |
| ThumbRelocator.Relocator.RewriteLdrLiteralT1 | src/platforms/arch-arm/relocator-thumb.c:199-212 | Appends the expansion of the narrow literal load and notes the literal before its second load |
| ThumbRelocator.Relocator.RewriteLdrLiteralT2 | src/platforms/arch-arm/relocator-thumb.c:215-235 | The same for the wide one, either direction |
| ThumbRelocator.Relocator.RewriteAdrT1 | src/platforms/arch-arm/relocator-thumb.c:238-248 | Appends the expansion of ADR T1 |
| ThumbRelocator.Relocator.RewriteAdrWide | src/platforms/arch-arm/relocator-thumb.c:251-279 | Appends the expansion of ADR T2 and T3, unpredictable ones included |
| ThumbRelocator.Relocator.RewriteOrCopy | src/platforms/arch-arm/relocator-thumb.c:461-509 | For every instruction, classifying and dispatching appends the expansion of what it decodes as, or a copy |
| ThumbRelocator.Relocator.WriteOne | src/platforms/arch-arm/relocator-thumb.c:444-516 | The next unwritten instruction, and FALSE with nothing written when there is none |
| ThumbRelocator.Relocator.WriteAll | src/platforms/arch-arm/relocator-thumb.c:125-131 | Terminates with every instruction written, each expansion made for where the one before it ended |
| ThumbRelocator.Relocator.DoubleWrite | src/platforms/arch-arm/relocator-thumb.c:518-527 | Everything again for its final address: the bytes WindowSimulates is about |
| ThumbRelocator.Relocator.ReadOne | src/platforms/arch-arm/relocator-thumb.c:33-44 | One instruction more, the next in memory |
| ThumbRelocator.Relocator.constructor | src/platforms/arch-arm/relocator-thumb.c:9-16 | Nothing read and nothing written |
| HashMap.BucketIsRemainder | src/std_kit/std_map.c:34-38 | Masking the hash is taking its remainder, for every power-of-two bucket count |
| HashMap.AndMask | src/std_kit/std_map.c:34-38 | The same for all numbers and exponents, bit by bit |
| HashMap.HashGrows | src/std_kit/std_map.c:12-18 | The hash starts from 5381, and one more byte c makes of h the low 32 bits of 33 h xor c, bit by bit |
| HashMap.Node.constructor | src/std_kit/std_map.c:20-32 | A node with its key, its value and the key's hash |
| HashMap.ResizeConserves | src/std_kit/std_map.c:46-80 | Unchaining and redistributing keeps the multiset of nodes, each in the bucket of its hash |
| HashMap.Map.AddNode | src/std_kit/std_map.c:40-44 | The node is first in its bucket's chain, all other chains as they were |
| HashMap.PushAll | src/std_kit/std_map.c:51-60 | The inner loop moves a whole chain, in place, to the front of the list |
| HashMap.Map.Gather | src/std_kit/std_map.c:50-61 | All chains end up in one list |
| HashMap.Map.AddAll | src/std_kit/std_map.c:71-78 | Every node of the list goes to its bucket |
| HashMap.Map.ResetBuckets | src/std_kit/std_map.c:62-70 | Empty buckets, of the old number when realloc fails |
| HashMap.Map.Resize | src/std_kit/std_map.c:46-80 | Whether or not realloc succeeds, the same nodes, each well placed, reachable in place |
| HashMap.Map.constructor | src/std_kit/std_map.c:105-109 | The empty map, without buckets |
| HashMap.Map.GetNode | src/std_kit/std_map.c:82-95 | The node of the key, and null if and only if the key is absent |
| HashMap.Map.GetValue | src/std_kit/std_map.c:97-103 | A lookup in the mathematical map |
| HashMap.Map.SetValue | src/std_kit/std_map.c:126-155 | An update of the mathematical map; on a failed growth nothing is added and -1 returned |
| HashMap.Map.Grow | src/std_kit/std_map.c:140-147 | Twice the buckets, or one for none, when realloc succeeds, and as many as before when not; the nodes are kept |
| HashMap.Shape | src/std_kit/std_map.c:34-155 | After any updates: no buckets or a power of two, every node in bucket hash mod nbuckets, nnodes the number of keys and at most nbuckets |
| LinkedList.List.constructor | src/std_kit/std_list.c:5-15 | The empty list |
| LinkedList.List.RPush | src/std_kit/std_list.c:33-49 | Appends to the sequence; prev and next stay inverse, head, tail and len consistent; a null node changes nothing |
| LinkedList.List.RPop | src/std_kit/std_list.c:51-65 | Removes the last, detached, or null from an empty list |
| LinkedList.List.LPop | src/std_kit/std_list.c:67-81 | Removes the first, detached, or null from an empty list |
| LinkedList.List.LPush | src/std_kit/std_list.c:83-99 | Prepends to the sequence |
| LinkedList.List.Find | src/std_kit/std_list.c:101-121 | The first node whose value is the one asked for, or that the matcher takes for it, and null only if there is none |
| LinkedList.List.ListAt | src/std_kit/std_list.c:123-141 | Element i, element len + i for a negative i, null outside |
| LinkedList.List.Remove | src/std_kit/std_list.c:143-153 | Exactly the i-th element leaves the sequence, ends and middle alike |
| LinkedList.Node.constructor | src/std_kit/std_list.c:156-164 | A detached node |
| LinkedList.Iterator.constructor | src/std_kit/std_list.c:167-179 | Starts at the given node |
| LinkedList.Iterator.Next | src/std_kit/std_list.c:181-187 | Yields the current node and moves on in its direction |
| Fishhook.PassEffect | src/deps/fishhook/fishhook.c:77-108 | A pass sets every matched slot, keeps every other word, and saves to a cell only what a slot matched to it held |
| Fishhook.PassTwice | src/deps/fishhook/fishhook.c:77-108 | A second pass changes neither slots nor cells, from any state |
| Fishhook.MatchIsNewest | src/deps/fishhook/fishhook.c:60-103 | The rebinding found is the newest one of the name |
| Fishhook.MatchFound | src/deps/fishhook/fishhook.c:92-105 | A rebinding of the name anywhere in any call is found, and the one found is the first of the name in the newest call that has one |
| Fishhook.WordAfter | src/deps/fishhook/fishhook.c:77-108 | What a pass leaves in a symbol pointer, by its index and symbol alone |
| Fishhook.WordOutside | src/deps/fishhook/fishhook.c:77-108 | Words in no section are left alone |
| Fishhook.RebindingsChain | src/deps/fishhook/fishhook.c:60-108 | After any number of calls each slot holds the newest replacement, and following the saved pointers visits the replacements newest to oldest and ends at the original if and only if each asks to be saved and differs from what it replaced |
| Fishhook.UnmatchedKept | src/deps/fishhook/fishhook.c:77-108 | Words without a rebinding never change over any number of calls |
| Fishhook.LateImage | src/deps/fishhook/fishhook.c:180-195 | A pass over any slots of an image loaded later, still at their originals, leaves the complete chain of a name complete if and only if none of them has the name, or the newest replacement is the original, or what it replaced is |
| Fishhook.LateImageCuts | src/deps/fishhook/fishhook.c:180-195 | Two rebindings and such an image: the chain is complete before and not after |
| Fishhook.Process.FindMatch | src/deps/fishhook/fishhook.c:92-105 | The nested loops find the first rebinding of the name in the newest call that has one, and none only if no call has |
| Fishhook.Process.Rebind | src/deps/fishhook/fishhook.c:94-103 | One slot replaced in place and its old value saved if it is a change |
| Fishhook.Process.PerformRebindingWithSection | src/deps/fishhook/fishhook.c:77-108 | In a section each word whose index is none of the three special values and whose symbol has a character c and a name behind it holds the newest replacement of that name, and every other word what it did |
| Fishhook.Process.RebindImages | src/deps/fishhook/fishhook.c:180-195 | The loop over images is the pass over the slots of all their sections |
| Fishhook.Process.RebindSymbols | src/deps/fishhook/fishhook.c:180-195 | Prepends the new rebindings; then, over all sections, by symbol table index and symbol: a word holds the first rebinding of its name in the newest call that has one, and words with a special index, a symbol of fewer than two characters or an unknown name, or in no section, are as they were |

## Left out

- `arm64_relocator` relocate_to: nothing calls it and its loop indices are uninitialised; that no branch of the window targets the window is a condition of the simulation instead.
- map_remove_value, map_iter and map_iter_next: removal steps through a link after unlinking it and iteration never starts.
- reader-arm.c, relocator-arm.c and interceptor-arm.c: the ARM reader never sets an instruction's size, so its loops do not advance.
- thumb_relocator_relocate_writer: it looks up targets inside the window by comparing odd literals with even addresses.
- Thumb try_relocate and the transfer encodings T2 and T4.
- ThumbExactness.DomainIsExact: ADD PC, PC is left out, as the manual gives it no meaning.
- IT blocks: the Thumb machine is outside them.
- GOT hooks: ZzWrapGOT and ZzReplaceGOT have no body here; build_all gives an import its slots, and nothing patches a table.
- Dynamic closure bridges and the assembly that saves and restores registers around a handler: HookedRouting.InstrumentedTarget and HookedRouting.WrappedTarget take the state in which on_invoke_trampoline is reached as given, arbitrary in the first half of the statement and with all registers but X14, X15, X17 and X30 as at the call in the second; the assembly saves neither the flags nor Q8 to Q31, so there the handler has to.
- mmap, mprotect, Mach calls, /proc parsing, cache flushing and logging: pages are supplied fresh and disjoint, the memory layout is a parameter.
- Mach-O header walking, rebind_symbols_image and the dyld callback: the sections of all loaded images are a fixed list, except in Fishhook.LateImage.
- Allocation failure outside map_resize, and memory leaks.
- srcxx, arch-x86 and backend-x86: unfinished or empty.
- CommonKit, which holds the ZZ_INT masks, is not part of this model; the masks are taken at the widths their names say.
- ProcessMemory.Process.PatchCode: the patch must lie within one page, which is what callers guarantee for words and slices; a patch across a page boundary is not modelled.
- BufferArray.Buffer.Put: one doubling must make room, as the source doubles once; no caller puts more than 8 bytes.
- A64Relocator.Relocator.RelocateWrite: literal contexts are recorded but the host address inside a context is not; nothing modelled reads it.
- A64Relocator.Relocator.TryRelocate: the out-parameter is uninitialised only if its caller leaves it so; here it is an argument, 0 in prepare().
- HookInstaller.Installer.InitializeHookEntry: hooks are of fresh windows (not yet patched, in one page, word-aligned) and not of type GOT, for which active() reads a backend that was never made; for near jumps a cave is assumed to exist, earlier jumps to go to 2^32 or above (what this one then keeps, if its own do), and every place the search may look to be memory HookZz may write unless it has, since the layout is cached once and later slices may land in it.
- MemoryManager.Manager.AllocateCodeSlice: no slice is larger than a page; the source would hand out memory behind the page.
- MemoryManager.SearchCodeCave: no block may meet the search range in exactly one point, where the assert of search_dummy_code_cave fails.
- MemoryManager.CaveInRange: candidates may run past a block's end, as in the source; only the distance to the target is bounded.
- A64Simulation.CallResumes: a window that reads X17, X30 or what the callee saved of X30, and has not written it since the call, is not covered; there the original and the trampoline differ.
- ThumbWindow.WindowSimulates: the run ends with the first branch taken, a call included, wherever it goes; the original window is still in place beside what became of it.
- A64Simulation.RelocationSimulates: addresses of placed code do not wrap around; stack-alignment faults and pointer authentication are inside the abstract step.
- ThreadStack.CallStack.constructor: the saved return address is uninitialised memory in the source and 0 here; it is overwritten before it is read.
- ThreadStack.Threads.SharedInstance: the list and the map inside a thread's state are a sequence and a mathematical map here; that the containers behave as such is LinkedList and HashMap.
- RoutingSystem.RunMatches: the set of hooks is fixed during a run; longjmp and exceptions past wrapped calls are not events. A step is stuck where the program could not take it.
- InterceptorRouting.Interceptor.RoutingDbi: the user's dbi_call is left out.
- HashMap.Map.SetValue: bucket counts stay below 2^31 and characters are unsigned in the hash; the width of the hash itself is 32 bits.
- Fishhook.Process.RebindSymbols: failure of the allocation in prepend_rebindings is not modelled.
- HookedRouting.RoutingReady: infos at distinct addresses and entries with distinct ids are assumed of the allocator and of the caller.

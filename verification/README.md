# Pointer Lab: a verified model

Pointer Lab attaches to a running process, finds values and pointers in its memory, patches and breakpoints its
code, runs auto-assembler scripts against it, changes the speed of its clocks, and keeps what it found in project
files. This project models the parts of it whose correctness is hard to see from one function, and proves what
they promise. Target memory is a map from mapped addresses to bytes; calls into Windows become parameters that
say whether the call succeeded; each mutex-protected handler is one atomic step.

`dafny verify dfyconfig.toml` checks everything.

| component | files |
|---|---|
| debug event pump: breakpoints, single steps, late traps, debug registers | `PumpState`, `PumpInvariants`, `PumpRuns`, `PumpClaims`, `PumpTable`, `HardwareSlots`, `DebugPump` |
| patch registry: applies in flight at once | `PatchState`, `PatchRanges`, `PatchInvariants`, `PatchSwitch`, `PatchRegistry` |
| auto-assembler: layout to a fixed point | `Layout`, `LayoutConsistency`, `Emission`, `PlaceholderClash`, `Convergence`, `ConvergenceLimit`, `Oscillation` |
| auto-assembler: enable, rollback, disable | `ScriptRun`, `ScriptEffect`, `ScriptUndo`, `ScriptRestores`, `ScriptGuarantee` |
| pointer scanner: reverse search and forward walk | `PointerSpace`, `PointerReading`, `PointerScanner` |
| memory scanner: chunked scans | `MemoryScanner` |
| project files | `ProjectText`, `ProjectValues`, `ProjectStore`, `ProjectRoundTrip`, `ProjectLossless` |
| HTTP request parser and receive loop | `McpHttp`, `McpReceive`, `McpHeaders`, `McpRequests` |
| structure dissector and its region index | `Structures`, `StructureLayout`, `Dissector`, `RegionIndex` |
| speed hook clocks | `SpeedHook` |
| allocation near a jump | `NearAllocation` |
| shared | `Common`, `Text`, `Numerals` |

Code that changes state in the source is a class or a method with loops here, proved equal to a function on
values; the theorems are about those functions and about whole runs of them.

## Where the code falls short of the plain claim

Each of these is a property that reads well and is false of the code. The model keeps the code as it is, a lemma
shows the input, and another states the exact condition under which the property holds.

- `handleSoftwareStep` re-arms without asking whether another thread is mid-step over the address, though
  `handleThreadExit` asks (`SecondStepperLeavesInt3`, `ExactStep`).
- `handleBreakpoint` does not look at the kind of the entry: a late trap under a hardware breakpoint writes that
  entry's unset saved byte (`LateTrapZeroesCodeUnderHardware`).
- A failed re-arm forgets the address while a trap may be in flight (`LostRearmDropsTrap`, `ClaimsMove`).
- The overlap test misses ranges that reach 2^64 or wrap past it (`WrappedReservationsOverlap`, `RangesMeetExactly`,
  `SeenByAllExactly`).
- A label whose true address is the placeholder is reported as undefined (`DefinedYetRefused`,
  `RefusedOnlyAtPlaceholder`, and `RefusedOnLines` on the lines alone).
- Eight labels can reach the pass limit although one more pass would settle them (`EightLabelsReachTheLimit`,
  `GivenUpExactly`).
- A block that starts in an allocation and runs past its end is never undone (`OverrunIsKept`, `RestoredExactly`,
  and `AlwaysRestoredExactly` on the blocks alone).
- The comment at `src/payload/SpeedHook.cpp:123-125` says a backwards reading costs one wrong frame; the clock
  falls back to its last rebase and stays behind (`BackwardsReadingLosesProgress`).
- A hint at or below 0x7FF00000, or in the last 64 KiB, can be answered with a block out of reach
  (`GuaranteedExactly`, `LastGranuleEscapes`).
- Whether a header block that ends up to 8 KiB past the 64 KiB limit is refused depends on how it arrives
  (`SplitDecides`, `OneAnswerExactly`).
- A field length of 2^63 or more wraps the signed end of the field (`HugeFieldIsOverlapped`, `SetFieldExactly`).

## Model

| member | source | states |
|---|---|---|
| PumpInvariants.OneWayStep | src/platform_win32/Win32Platform.cpp:1119-1462 | for any number of threads mid-step: every byte is the target's own or int3, every saved original is genuine and never int3, every enabled software breakpoint nobody steps over holds int3; one event keeps this if and only if it is not a hit on a hardware entry or a hit that abandons the last step over another live breakpoint |
| PumpInvariants.ExactStep | src/platform_win32/Win32Platform.cpp:1119-1500 | one event keeps "a byte is int3 exactly under an enabled breakpoint no thread steps over" if and only if it is none of the named hazards: re-arming under a second stepper, adding while a step is pending, a hit on a hardware entry, a refused restore at removal or disarming |
| PumpRuns.RunOneWay | src/platform_win32/Win32Platform.cpp:1119-1462 | over every run, the one-way invariant holds throughout exactly when no hit of the run is hazardous |
| PumpRuns.RunExact | src/platform_win32/Win32Platform.cpp:1119-1555 | over every run, memory is determined by the table and the threads mid-step throughout exactly when the run meets no hazard |
| PumpRuns.ArmedByteFollowsSteppers | src/platform_win32/Win32Platform.cpp:1119-1462 | from attach through any hazard-free run a byte is int3 exactly when it is armed and not stepped over, and the original exactly otherwise |
| PumpRuns.RemoveRestores | src/platform_win32/Win32Platform.cpp:1425-1462 | a removal whose write succeeds gives the byte back unless it had been re-armed under a thread mid-step |
| PumpRuns.DetachRestores | src/platform_win32/Win32Platform.cpp:1474-1555 | disarming and draining any queued events returns all of memory to the target's own exactly when no stray int3 was left earlier |
| PumpRuns.CleanDetach | src/platform_win32/Win32Platform.cpp:1474-1555 | after a hazard-free run, detaching leaves the target as it was before attach, whatever the queue still holds |
| PumpRuns.SecondStepperLeavesInt3 | src/platform_win32/Win32Platform.cpp:1295-1304 | the concrete run the exact invariant has to exclude: two threads over one breakpoint, the first one's step re-arms, removal skips the restore, detaching never repairs it |
| PumpRuns.LateTrapZeroesCodeUnderHardware | src/platform_win32/Win32Platform.cpp:1119-1187 | a trap still in flight from a removed software breakpoint, landing after a hardware one was set there, writes a zero over the target's code |
| PumpClaims.ClaimsMove | src/platform_win32/Win32Platform.cpp:1123-1137 | with traps in flight as part of the state, one move keeps every address that may still raise an int3 of the pump's in the table or the disarmed set, if and only if it is not a failed re-arm of an address still live |
| PumpClaims.EveryPumpTrapIsClaimed | src/platform_win32/Win32Platform.cpp:1119-1187 | however late it is delivered, a trap caused by an int3 the pump wrote during this attach is claimed, in every run without a lost re-arm |
| PumpClaims.LostRearmDropsTrap | src/platform_win32/Win32Platform.cpp:1331-1341 | the excepted case: after a failed re-arm a trap still in flight is handed to the target |
| PumpClaims.LostRearmIsReachable | src/platform_win32/Win32Platform.cpp:1331-1341 | that case is reached by a five-event run from attach |
| PumpClaims.OnlyAddedAddressesAreClaimed | src/platform_win32/Win32Platform.cpp:1123-1137 | conversely nothing is claimed at an address no breakpoint was ever set at |
| PumpTable.HardwareAdded | src/platform_win32/Win32Platform.cpp:1386-1423 | an accepted hardware breakpoint is stored with the kind asked for, its length (one byte for execute), no hits and a register no live one holds; the flag that debug registers are in use is set and memory, steps and other addresses are untouched |
| PumpTable.SoftwareAdded | src/platform_win32/Win32Platform.cpp:1343-1384 | an accepted software breakpoint is stored with the byte it replaced and no hits, int3 takes that byte's place, and nothing else but its disarmed mark changes |
| PumpTable.EntersExactly | src/platform_win32/Win32Platform.cpp:1343-1423 | an address enters the table exactly by an accepted add: for software an unlisted mapped byte that reads, writes and is not int3, for hardware a supported aligned length and fewer than four live ones; having been there before does not matter |
| PumpTable.LeavesExactly | src/platform_win32/Win32Platform.cpp:1119-1500 | a live entry leaves the table exactly by removal, disarming, a hit whose thread cannot be stepped, or a re-arm that is due and refused |
| PumpTable.EntryStep | src/platform_win32/Win32Platform.cpp:1119-1324 | an entry that stays changes in its hit count alone, and by one exactly when the event completes a hit on it |
| PumpTable.HitCountExactly | src/platform_win32/Win32Platform.cpp:1119-1293 | over any run an entry that stays listed has gained exactly the hits completed on it and kept its saved byte, kind, length and register |
| PumpTable.HardwareUsedExactly | src/platform_win32/Win32Platform.cpp:1386-1423 | over any run the flag holds exactly when it did or some hardware breakpoint has been accepted; it is never taken back |
| PumpTable.WatchHitIsCounted | src/platform_win32/Win32Platform.cpp:1189-1293 | after any run from attach, a single step for which a register of a live hardware breakpoint fired is handled, and the lowest-addressed such breakpoint gains one hit, unless the same event drops it |
| HardwareSlots.SlotsStep | src/platform_win32/Win32Platform.cpp:1386-1423 | every event keeps live hardware breakpoints in pairwise distinct registers 0..3 |
| HardwareSlots.LiveHardwareFitsRegisters | src/platform_win32/Win32Platform.cpp:1053-1066 | over any run at most four are live, and a free register is reported exactly when fewer than four are |
| HardwareSlots.WriteDebugRegisters | src/platform_win32/Win32Platform.cpp:1068-1093 | whatever order the table is walked in, the control word decodes register by register to precisely the live kinds and lengths, unused registers decode to off, and no other bit is set |
| DebugPump.DebugEventPump.HandleBreakpoint | src/platform_win32/Win32Platform.cpp:1119-1187 | the handler does exactly the modelled hit and claims exactly the traps the model claims |
| DebugPump.DebugEventPump.HandleSingleStep | src/platform_win32/Win32Platform.cpp:1189-1228 | hardware hits are counted first, then a pending software step is finished |
| DebugPump.DebugEventPump.HandleHardwareHit | src/platform_win32/Win32Platform.cpp:1232-1293 | walking the table upwards and stopping at the first match gives exactly the lowest-addressed live hardware entry whose register fired one more hit and changes nothing else; the verdict is a hit exactly when there is such an entry, and not ours exactly when the context is unread or no register fired |
| DebugPump.DebugEventPump.HandleSoftwareStep | src/platform_win32/Win32Platform.cpp:1295-1304 | ends the step and re-arms, whoever else is over the address |
| DebugPump.DebugEventPump.HandleThreadExit | src/platform_win32/Win32Platform.cpp:1306-1324 | a dying thread's step is finished unless another thread is over the same address |
| DebugPump.DebugEventPump.RearmLocked | src/platform_win32/Win32Platform.cpp:1331-1341 | re-arms, or forgets the breakpoint when the write fails |
| DebugPump.DebugEventPump.FreeDebugSlot | src/platform_win32/Win32Platform.cpp:1053-1066 | the lowest register no live hardware breakpoint holds, or none |
| DebugPump.DebugEventPump.AddSoftwareBreakpoint | src/platform_win32/Win32Platform.cpp:1343-1384 | accepted exactly when the address has no breakpoint and its byte is mapped, reads, writes and is not int3; saves the byte it replaces and takes the address off the disarmed set |
| DebugPump.DebugEventPump.AddHardwareBreakpoint | src/platform_win32/Win32Platform.cpp:1386-1423 | accepted exactly when the address has no breakpoint, the length is supported and aligned and a register is free; stores the kind and length asked for in such a register and marks debug registers as used |
| DebugPump.DebugEventPump.RemoveBreakpoint | src/platform_win32/Win32Platform.cpp:1425-1462 | forgets the breakpoint, keeps its address claimable, restores the byte unless a thread is mid-step over it, and reports failure exactly when there was none or the restore failed |
| DebugPump.DebugEventPump.DisarmEverything | src/platform_win32/Win32Platform.cpp:1474-1500 | restores every software byte no thread is stepping over whose write goes through, moves every software address to the disarmed set, and empties the table |
| PatchRanges.RangesMeetExactly | src/engine_patch/PatchRegistry.cpp:17-26 | for any two non-empty 64-bit ranges the overlap test agrees with "they share an address modulo 2^64" if and only if both end below 2^64, or one does and the two comparisons of the test have the same answer; about two ranges that do not it is always wrong |
| PatchRanges.SeenByAllExactly | src/engine_patch/PatchRegistry.cpp:17-26 | the test is right about a range and every other that ends below 2^64 if and only if the range does so too, or is the topmost byte alone |
| PatchInvariants.StepSound | src/engine_patch/PatchRegistry.cpp:32-191 | every step of every caller (reserve, read, write, record, with failures; enable, disable, remove, restore all) keeps recorded patches and reservations disjoint, originals genuine, and memory the exact overlay |
| PatchInvariants.OriginalsAreGenuine | src/engine_patch/PatchRegistry.cpp:32-111 | under every interleaving of applies from a fresh registry every recorded original is what the unpatched target held, patches are disjoint, and memory is the base overlaid with exactly the enabled patches and the written, unrecorded applies |
| PatchInvariants.DisableSucceeds | src/engine_patch/PatchRegistry.cpp:113-150 | a disable reports success exactly when the patch is recorded and it is off already or the write goes through |
| PatchSwitch.SwitchExactly | src/engine_patch/PatchRegistry.cpp:113-150 | enabling or disabling a recorded patch succeeds exactly when it already is so or the write goes through; the record then has the flag asked for, memory over its range holds the patched bytes, or the originals when disabled, and nothing else changes; on failure nothing changes at all |
| PatchSwitch.RecordsHold | src/engine_patch/PatchRegistry.cpp:32-191 | in every sound state memory over a recorded patch holds its patched bytes when it is enabled and the originals when not |
| PatchSwitch.SwitchBack | src/engine_patch/PatchRegistry.cpp:113-150 | switching a patch off and on again, or on and off, gives the same state back |
| PatchSwitch.RemoveExactly | src/engine_patch/PatchRegistry.cpp:152-163 | removal succeeds exactly when the patch is off or the write goes through; then only its record is gone and its range holds the originals, otherwise nothing changes |
| PatchSwitch.UnknownIsRefused | src/engine_patch/PatchRegistry.cpp:113-163 | an id that is not recorded is refused and nothing changes |
| PatchInvariants.RestoreAllRestores | src/engine_patch/PatchRegistry.cpp:165-191 | with no apply between its write and its record, restore all leaves the target different from its own bytes only inside patches whose write was refused, and equal to it when none was |
| PatchInvariants.FailuresAreLeftEnabled | src/engine_patch/PatchRegistry.cpp:165-191 | restore all reports as many failures as it leaves patches enabled, so it succeeds exactly when none is left |
| PatchInvariants.OverlayDeterminesMemory | src/engine_patch/PatchRegistry.cpp:32-111 | two sound registries over one target that put the same bytes hold the same memory, so the invariant leaves nothing open |
| PatchRanges.WrappedReservationsOverlap | src/engine_patch/PatchRegistry.cpp:17-26 | a range that wraps at the top of the address space is invisible to the overlap test: two identical reservations are both granted |
| PatchRegistry.Registry.OverlapsLocked | src/engine_patch/PatchRegistry.cpp:17-26 | the two searches compute the overlap test |
| PatchRegistry.Registry.BeginApply | src/engine_patch/PatchRegistry.cpp:32-59 | grants a reservation exactly when the range is non-empty and overlaps nothing recorded or reserved |
| PatchRegistry.Registry.ReadStep | src/engine_patch/PatchRegistry.cpp:73-86 | keeps the originals when they were read in full, otherwise gives the reservation back |
| PatchRegistry.Registry.WriteStep | src/engine_patch/PatchRegistry.cpp:88-90 | writes the patch, or gives the reservation back |
| PatchRegistry.Registry.RecordStep | src/engine_patch/PatchRegistry.cpp:92-110 | releases the reservation and records the patch in one step |
| PatchRegistry.Registry.ApplyAlone | src/engine_patch/PatchRegistry.cpp:32-111 | a whole apply is its four sections in order, giving the reservation back at the first failure |
| PatchRegistry.Registry.EnablePatch | src/engine_patch/PatchRegistry.cpp:113-150 | finds the patch, writes the bytes of the wanted state and records it only when the write succeeded (what that means is SwitchExactly) |
| PatchRegistry.Registry.RemovePatch | src/engine_patch/PatchRegistry.cpp:152-163 | restores, then forgets; a patch that could not be restored keeps its record |
| PatchRegistry.Registry.RestoreEverything | src/engine_patch/PatchRegistry.cpp:165-191 | disables every enabled patch in order, carries on past refusals and counts them |
| Layout.LayOutLine | src/engine_aa/AutoAssembler.cpp:532-593 | one line of a pass, taken as anchor, label, origin, data or instruction in that order |
| Layout.CompileSection | src/engine_aa/AutoAssembler.cpp:525-637 | the pass loop settles, gives up or fails exactly as iterating one whole pass does |
| LayoutConsistency.CompiledIsConsistent | src/engine_aa/AutoAssembler.cpp:518-637 | a settled script is self-consistent: every code line assembles at its own address under the final labels, blocks are flagged by the allocation they start in, none is empty, and every declared label is defined |
| Emission.CompiledBytes | src/engine_aa/AutoAssembler.cpp:532-637 | in every successful compile a data line's own bytes, and an instruction's own code under the final labels, lie in a block at the address the lines before it give; the blocks hold nothing that some line does not put there, and concatenate to what the lines emit in order; every label is where its last definition stands |
| LayoutConsistency.LabelIsItsAddress | src/engine_aa/AutoAssembler.cpp:538-555 | a label defined once equals, in the final layout, the address of its definition |
| LayoutConsistency.RefusedOnlyAtPlaceholder | src/engine_aa/AutoAssembler.cpp:615-622 | a settled layout is refused exactly when some declared label is never defined or its true address equals the placeholder |
| PlaceholderClash.RefusedOnLines | src/engine_aa/AutoAssembler.cpp:499-622 | when instruction lengths do not depend on labels the lines alone decide it: no such section reaches the pass limit, and it is refused if and only if some declared label is never defined or its last definition stands at the placeholder, counting fixed lengths from the origins |
| PlaceholderClash.DefinedYetRefused | src/engine_aa/AutoAssembler.cpp:516-622 | an origin at 0x20000000 followed by a label is refused under every assembler, though the label is defined |
| Convergence.PassKFixesKLabels | src/engine_aa/AutoAssembler.cpp:525-606 | when, under the layouts the passes run through, every instruction assembles where it stands to a length that only earlier labels decide, after k passes the first k labels have one value whatever the pass started from |
| Convergence.LabelsSettle | src/engine_aa/AutoAssembler.cpp:525-613 | then n labels settle within any number of passes above n, and at most seven labels never reach the limit of eight |
| Convergence.SettledLayoutIsUnique | src/engine_aa/AutoAssembler.cpp:499-521 | then the settled labels do not depend on the placeholder |
| ConvergenceLimit.ChainIsUnsettled | src/engine_aa/AutoAssembler.cpp:525-613 | for every n there are n labels, each after a jump to the one before that fits two bytes only once that label is final, and no n passes settle them |
| ConvergenceLimit.PassesNeededExactly | src/engine_aa/AutoAssembler.cpp:525-613 | the bound is exact: every section of n labels as in LabelsSettle settles within a given number of passes if and only if that number is above n |
| ConvergenceLimit.GivenUpExactly | src/engine_aa/AutoAssembler.h:137-141 | so no such section of n labels is given up if and only if n is below the limit of eight |
| ConvergenceLimit.EightLabelsReachTheLimit | src/engine_aa/AutoAssembler.h:137-141 | eight such labels in blocks that do not overlap are unsettled after eight passes and settled after nine |
| Oscillation.NeverSettles | src/engine_aa/AutoAssembler.cpp:492-496 | when a length depends on a later label nothing of this holds: one instruction and one label never settle, however many passes are allowed |
| ScriptRun.Enable | src/engine_aa/AutoAssembler.cpp:651-714 | blocks in order, direct or through the registry, and a rollback in reverse at the first failure |
| ScriptEffect.EnableLeaves | src/engine_aa/AutoAssembler.cpp:672-699 | after an enable that succeeds each address holds the byte of the last block written over it, the block's own and past its end the padding's, and an address no block reaches is as it was |
| ScriptEffect.EnableSucceedsExactly | src/engine_aa/AutoAssembler.cpp:672-699 | enable succeeds exactly when every block goes through: mapped and written, and as a patch non-empty, read and overlapping neither what is recorded or reserved nor an earlier patch of the script |
| ScriptRun.UndoPatches | src/engine_aa/AutoAssembler.cpp:659-665 | removal of the recorded patches, last first, carrying on past refusals and counting them |
| ScriptUndo.ProblemsAreLeftRecorded | src/engine_aa/AutoAssembler.cpp:719-727 | undoing a run reports as many problems as it leaves patches of the run recorded |
| ScriptRun.Disable | src/engine_aa/AutoAssembler.cpp:716-743 | the recorded patches in reverse, then the section's own bytes, carrying on past refusals; the problems are the refused removals and the blocks refused or not mapped |
| ScriptEffect.DisableLeaves | src/engine_aa/AutoAssembler.cpp:731-743 | after a disable each address holds the byte of the last block of the section whose write went through over it, and where there is none what undoing the patches left |
| ScriptRestores.ApplyPatchLeaves | src/engine_patch/PatchRegistry.cpp:32-111 | an apply on its own either changes nothing but the next id or adds one record whose original is what memory held |
| ScriptRestores.SoundIdsBelow | src/engine_patch/PatchRegistry.cpp:32-111 | every sound registry state meets the one precondition of the script theorems |
| ScriptRestores.FailedEnableRestores | src/engine_aa/AutoAssembler.cpp:657-702 | an enable that fails at any block leaves every byte outside the script's allocations as it was, save under a refused restore |
| ScriptRestores.DisableRestores | src/engine_aa/AutoAssembler.cpp:716-743 | enable then disable leaves every byte outside the allocations and outside the [DISABLE] section's own writes as it was, save under a refused restore |
| ScriptRestores.RestoredExactly | src/engine_aa/AutoAssembler.cpp:674-701 | for any script, a byte comes back exactly unless the last direct write over it, before any patch of the script covered it, was a different byte |
| ScriptRestores.OverrunIsKept | src/engine_aa/AutoAssembler.cpp:674-686 | a block one byte longer than its allocation changes the target for good |
| ScriptGuarantee.AlwaysRestoredExactly | src/engine_aa/AutoAssembler.cpp:674-701 | read off the blocks alone: every run of a compiled script, whatever the registry, the target, the padding and the refusals, gives a byte back if and only if each block that can be written straight over it (it and the blocks before it in user memory, the patches among those disjoint) comes after a patch of the script that covers it |
| PointerSpace.ResolveChain | src/engine_pointer/PointerScanner.cpp:349-394 | the walking loop computes the recursive walk, with every way a chain fails to resolve |
| PointerReading.DigitsOfBytes | src/domain/TargetSession.cpp:184-195 | the number read from a byte string is below 256^n and has the bytes for base-256 digits, lowest first |
| PointerReading.ReadPointerExactly | src/domain/TargetSession.cpp:173-196 | a pointer is read as p exactly when memory stores the base-256 digits of p over the target's pointer width, lowest first |
| PointerReading.ResolvedExactly | src/engine_pointer/PointerScanner.cpp:349-394 | a chain resolves to x exactly when a path leads there from its start (a fixed address other than zero, or an offset into the first module of its name, letter case aside, with a base), each hop adding its offset modulo 2^64 to the non-null pointer stored where the last one ended |
| PointerSpace.VisitedIsReachable | src/engine_pointer/PointerScanner.cpp:128-237 | the unindexed reverse search visits exactly the places that reach the target in at most d hops |
| PointerSpace.LevelIsShortest | src/engine_pointer/PointerScanner.cpp:128-237 | and finds each at its shortest distance |
| PointerScanner.LowerBound | src/engine_pointer/PointerScanner.cpp:184-185 | the sorted search |
| PointerScanner.SortOrder | src/engine_pointer/PointerScanner.cpp:145-157 | the order that sorts the frontier by address, a permutation of its positions |
| PointerScanner.VisitSlot | src/engine_pointer/PointerScanner.cpp:176-229 | one slot against the sorted frontier: a slot that points at most maxOffset below some frontier address is recorded unless seen before, its first offset leads to the nearest frontier address at or above what it points to, and nothing else changes |
| PointerScanner.Scan | src/engine_pointer/PointerScanner.cpp:107-237 | every reported chain has offsets in 0..maxOffset, at most maxDepth of them, and resolves to the target; with full reads and no cap hit the roots are exactly the aligned module addresses that reach the target, each once and by a shortest chain; no cap is hit when results and frontier may hold as many as there are mapped addresses |
| PointerScanner.SoundChainResolves | src/engine_pointer/PointerScanner.cpp:349-394 | a sound chain resolves, on the same memory and with unique modules, to exactly the scan target, for both pointer widths |
| PointerScanner.RescanKeepsSoundChains | src/engine_pointer/PointerScanner.cpp:261-347 | a rescan for the same target on unchanged memory drops nothing |
| PointerScanner.Filter | src/engine_pointer/PointerScanner.cpp:261-347 | a rescan keeps, in order, exactly the chains that still resolve to the target |
| SpeedHook.Clock.Query | src/payload/SpeedHook.cpp:116-131 | one query: start, rebase on a backwards reading, or base plus the truncated scaled time |
| SpeedHook.Payload.ApplyScale | src/payload/SpeedHook.cpp:391-407 | every started clock is frozen at its own reading under the old rate before the new one applies |
| SpeedHook.ChangeKeepsTheInstant | src/payload/SpeedHook.cpp:391-407 | a rate change leaves the value at that instant unchanged, whatever the reading and the rates |
| SpeedHook.FirstAnswerIsReal | src/payload/SpeedHook.cpp:116-122 | whatever the rates were before it, a clock's first answer is the real reading |
| SpeedHook.NormalSpeedIsTransparent | src/payload/SpeedHook.cpp:116-131 | at normal speed every answer is the real reading, over every ordered run |
| SpeedHook.ClockNeverDecreases | src/payload/SpeedHook.cpp:116-131 | over every run of calls and rate changes with ordered readings and positive rates the reported values never decrease |
| SpeedHook.DriftIsBounded | src/payload/SpeedHook.cpp:391-407 | after n rate changes the reported value lies in (exact - (n + 1), exact] |
| SpeedHook.BackwardsReadingLosesProgress | src/payload/SpeedHook.cpp:123-128 | a reading below the base runs the clock backwards exactly when at least one whole unit had been shown since, and it stays behind |
| NearAllocation.Search | src/platform_win32/Win32Platform.cpp:353-377 | the loop in 64-bit arithmetic is the walk over regions, offering the slots of each free one, from any address |
| NearAllocation.FoundIsNearest | src/platform_win32/Win32Platform.cpp:339-390 | below the last granule the two walks find exactly what offering every aligned slot in turn would find, above the hint first and then below |
| NearAllocation.OfferRegion | src/platform_win32/Win32Platform.cpp:362-370 | the slots of one free region, in 64-bit arithmetic |
| NearAllocation.AllocateNear | src/platform_win32/Win32Platform.cpp:328-390 | for every hint the block is what the two walks find, so below the last granule it is the first slot above the hint, else the first from the lowest reachable address |
| NearAllocation.ProbeFindsFirst | src/platform_win32/Win32Platform.cpp:362-370 | the result is the lowest free slot that is granted, and no result means every free slot was refused |
| NearAllocation.FoundExactly | src/platform_win32/Win32Platform.cpp:339-390 | the block is the first granted slot at or above the hint within the reach; without one, the first from the lowest reachable address up to the hint; nothing is found only when every free slot of both is refused |
| NearAllocation.ReachIsTheMargin | src/platform_win32/Win32Platform.cpp:342-343 | the reach, 2 GiB less a mebibyte, is the largest distance at which every block of up to a mebibyte is reachable both ways |
| NearAllocation.NearestIsPlaced | src/platform_win32/Win32Platform.cpp:339-344 | a block of at most 1 MiB is aligned, inside a free region, and within a signed 32-bit displacement both from the jump at the hint and back from anywhere in it to the hint plus less than 1 MiB |
| NearAllocation.GuaranteedExactly | src/platform_win32/Win32Platform.cpp:339-348 | that guarantee holds for every target if and only if the hint is above the reach and below the last granule; elsewhere a request at zero may be answered anywhere |
| NearAllocation.LastGranuleEscapes | src/platform_win32/Win32Platform.cpp:346-348 | a hint in the last 64 KiB rounds up to zero: the search offers the bottom of the address space and can find a block far out of reach |
| MemoryScanner.MatchesPattern | src/engine_scan/MemoryScanner.cpp:165-174 | zero mask bytes are wildcards, and a mask of another length is no mask |
| MemoryScanner.MaskDecides | src/engine_scan/MemoryScanner.cpp:165-174 | a pattern matches itself, and one byte of a match may be changed without losing it exactly where the mask is zero |
| MemoryScanner.FindPattern | src/engine_scan/MemoryScanner.cpp:517-545 | the first maxResults of the position-by-position matches, as far as the reads reach |
| MemoryScanner.PatternSearchIsNaive | src/engine_scan/MemoryScanner.cpp:517-545 | with full reads that is the naive search, for every region size, needle, mask and limit |
| MemoryScanner.ScanFirst | src/engine_scan/MemoryScanner.cpp:287-367 | the first maxResults of every eligible region's hits in order, for strides 1, 2, 4 and 8, and truncated says whether the limit was met; with full reads, the first maxResults of the naive hits |
| MemoryScanner.FirstScanIsNaive | src/engine_scan/MemoryScanner.cpp:287-367 | with full reads of the eligible regions the hits are exactly those of a position-by-position scan, values included |
| MemoryScanner.ScanBuffer | src/engine_scan/MemoryScanner.cpp:337-354 | stepping by the stride finds exactly the hits of one buffer |
| MemoryScanner.FullReadsSeeEverything | src/engine_scan/MemoryScanner.cpp:322-338 | no hit is missed at a chunk edge |
| MemoryScanner.RegionResultsAscend | src/engine_scan/MemoryScanner.cpp:311-367 | within a region addresses ascend strictly, so none is found twice, and every result is a hit of the naive scan, whatever the reads return |
| MemoryScanner.LostExactly | src/engine_scan/MemoryScanner.cpp:322-335 | a hit is lost to a short read exactly when its own chunk's read stops before the hit ends |
| ProjectText.EscapeText | src/storage/ProjectStore.cpp:61-74 | the escaping loop |
| ProjectText.UnescapeText | src/storage/ProjectStore.cpp:76-89 | the unescaping loop, a final lone backslash included |
| ProjectText.SplitLine | src/storage/ProjectStore.cpp:91-111 | the splitting loop |
| ProjectText.UnescapeEscape | src/storage/ProjectStore.cpp:61-89 | unescaping undoes escaping for every text |
| ProjectText.SplitJoin | src/storage/ProjectStore.cpp:91-111 | splitting the bar-join of escaped fields gives the fields back, whatever characters they hold |
| ProjectValues.WriteOffsets | src/storage/ProjectStore.cpp:22-35 | the comma-separated bit patterns |
| ProjectValues.ReadOffsetList | src/storage/ProjectStore.cpp:37-59 | every field a whole base-sixteen number, or nothing |
| ProjectValues.OffsetsRoundTrip | src/storage/ProjectStore.cpp:22-59 | signed offsets survive their unsigned hexadecimal form, however many there are |
| ProjectValues.BytesRoundTrip | src/domain/Domain.cpp:225-256 | byte strings survive hexadecimal |
| ProjectValues.TypesRoundTrip | src/domain/Domain.cpp:197-205 | every value type is read back from its name |
| ProjectValues.TypeNamesSpell | src/domain/Domain.cpp:64-81 | a numeric type is named by a letter (i signed, u unsigned, f floating) and its width in bits |
| Numerals.ParsePrinted | src/storage/ProjectStore.cpp:118-135 | every 64-bit number is read back from its decimal and its hexadecimal digits |
| ProjectStore.WriteTable | src/storage/ProjectStore.cpp:159-204 | the whole file, in order |
| ProjectStore.LoadTable | src/storage/ProjectStore.cpp:208-403 | header check, then record by record |
| ProjectRoundTrip.LoadOfSave | src/storage/ProjectStore.cpp:159-403 | for every table, loading what was saved succeeds and gives exactly its loaded form: incomplete symbols, empty scripts, zero-width fields and chains that lead nowhere are dropped, missing names are filled in, structures are renumbered |
| ProjectRoundTrip.EntryLineSays | src/storage/ProjectStore.cpp:188-203 | an entry's line splits into its columns in the format's order, whatever characters the texts hold |
| ProjectRoundTrip.FieldLineSays | src/storage/ProjectStore.cpp:182-187 | and so does a field's |
| ProjectRoundTrip.HeaderDecides | src/storage/ProjectStore.cpp:208-240 | a file of any of the three versions is read line by line, and any other first line refuses it |
| ProjectRoundTrip.UnknownIsIgnored | src/storage/ProjectStore.cpp:163-167 | a record type the reader does not know changes nothing |
| ProjectLossless.LosslessExactly | src/storage/ProjectStore.cpp:159-403 | loading gives back the same table, up to structure numbers, chain moduleBase and resolved flags, if and only if the table is well formed |
| ProjectLossless.LoadedIsWellFormed | src/storage/ProjectStore.cpp:208-403 | whatever text a table was loaded from it is well formed, so it survives every later save and load unchanged |
| McpHttp.ParseHttpRequest | src/mcp/McpHttp.cpp:54-156 | the parser computes the verdict of the header block and then of the body length |
| McpHttp.ReadFieldLines | src/mcp/McpHttp.cpp:74-108 | the line loop, stopping at the first line that does not read |
| McpReceive.ExtensionsKeepTheRequest | src/mcp/McpHttp.cpp:146-155 | a complete request stays complete, the same and as long, under every extension |
| McpReceive.ShorterPrefixesAreIncomplete | src/mcp/McpHttp.cpp:57-67 | every shorter prefix of a complete request is incomplete if and only if its header block and all but the last byte of the terminator fit 64 KiB |
| McpReceive.HandleConnection | src/mcp/McpServer.cpp:220-234 | the receive loop answers with the first verdict that is not incomplete |
| McpReceive.SplitSafeAnswers | src/mcp/McpServer.cpp:220-234 | a split-safe stream gets one named answer however it arrives |
| McpReceive.OneAnswerExactly | src/mcp/McpServer.cpp:220-234 | the loop gives one answer for every way of splitting a stream if and only if the header block ends within 64 KiB, or more than one receive past it, or not at all |
| McpReceive.SplitDecides | src/mcp/McpServer.cpp:220-234 | the streams that depend on it: 65,534 plain characters and a terminator, and up to 8,190 more, are refused as too large byte by byte and not refused so in full receives |
| McpRequests.WrittenIsParsed | src/mcp/McpHttp.cpp:54-156 | a request written out with a Content-Length that tells the body's length is parsed back: verb, target, every field under its lower-case name, the body, and the whole text consumed, whatever follows; only a body over 4 MiB (413) or a chunked Transfer-Encoding (411) is refused |
| McpRequests.CutShortIsIncomplete | src/mcp/McpHttp.cpp:146-155 | and it is incomplete until its last byte is in |
| McpRequests.BadLinesAreRefused | src/mcp/McpHttp.cpp:74-108 | a first line without a space, or a field line without a colon, is refused with 400 |
| McpRequests.RequestLineReads | src/mcp/McpHttp.cpp:80-96 | verb and target are what stands before the first space and between it and the second |
| McpHeaders.LengthReads | src/mcp/McpHttp.cpp:110-125 | a length is the digits after an optional sign, whatever follows them, when it fits 64 signed bits |
| McpHeaders.LinesRejoin | src/mcp/McpHttp.cpp:74-80 | the lines joined with CRLF are the header block |
| McpHeaders.LinesHaveNoBreak | src/mcp/McpHttp.cpp:74-80 | and no line has a break inside |
| McpHeaders.LastFieldCounts | src/mcp/McpHttp.cpp:101-107 | a field has the value of the last line naming it in any letter case, and unnamed fields are absent |
| McpHeaders.NamesIgnoreCase | src/mcp/McpHttp.cpp:49-52 | field names compare without regard to letter case |
| McpHeaders.ContentLengthReads | src/mcp/McpHttp.cpp:110-125 | a plainly written Content-Length frames a body of exactly that many bytes |
| StructureLayout.AcceptedExactly | src/engine_struct/Dissector.cpp:205-219 | a field that fits is accepted exactly when it has a width and no field at another offset owns one of its bytes |
| StructureLayout.SetFieldExactly | src/engine_struct/Dissector.cpp:197-238 | a sorted, positive-width, disjoint layout stays so after an accepted field if and only if the field's end fits a signed 64-bit offset |
| StructureLayout.SetFieldContents | src/engine_struct/Dissector.cpp:220-237 | the new layout holds the named field and every field at another offset, and nothing else |
| StructureLayout.SetFieldsContents | src/engine_struct/Dissector.cpp:259-286 | an accepted layout holds each given field, named, in ascending order, and nothing else |
| StructureLayout.SetFieldsExactly | src/engine_struct/Dissector.cpp:259-286 | an accepted layout is sorted, positive-width and disjoint if and only if each of its fields fits |
| StructureLayout.SetFieldsAcceptedExactly | src/engine_struct/Dissector.cpp:259-286 | comparing neighbours decides it: fields that fit are accepted exactly when each has a width and no two of them overlap |
| StructureLayout.SortSorts | src/engine_struct/Dissector.cpp:260-263 | the sorted layout is ascending and a permutation of what was given |
| StructureLayout.HugeFieldIsOverlapped | src/domain/Structure.h:28-30 | a length of 2^63 wraps the computed end below the field, and another field may then be put inside it |
| Dissector.EditExactly | src/engine_struct/Dissector.cpp:160-292 | one edit of any kind keeps every structure's layout sound if and only if it is refused or brings no oversized field |
| Dissector.RunKeepsLayouts | src/engine_struct/Dissector.cpp:160-292 | so does every run of edits whose fields fit |
| Dissector.RunKeepsIds | src/engine_struct/Dissector.cpp:160-168 | over every run of fewer than 2^64 edits no structure id is handed out twice |
| Dissector.EditTouchesOne | src/engine_struct/Dissector.cpp:184-292 | a rename or a layout edit leaves every other structure, and the rest of its own, as it was |
| Dissector.SlotTypeExactly | src/engine_struct/Dissector.cpp:510-537 | which type each slot is guessed to be, told from the sample bytes, as one condition per type |
| Dissector.GuessExactly | src/engine_struct/Dissector.cpp:459-546 | a guess is refused only for its size or for want of a readable sample; otherwise its fields tile [0, size) and are accepted |
| Dissector.TilingCovers | src/engine_struct/Dissector.cpp:506-539 | every byte of the tiled range belongs to a field |
| Dissector.GuessFields | src/engine_struct/Dissector.cpp:506-539 | the slot loop |
| Dissector.Dissector.PutField | src/engine_struct/Dissector.cpp:197-238 | the edit in place, its overlap loop and its replace-or-insert |
| Dissector.Dissector.PutFields | src/engine_struct/Dissector.cpp:259-286 | sort, one walk comparing neighbours and naming, then replace |
| Dissector.Dissector.GuessStructure | src/engine_struct/Dissector.cpp:459-546 | the guess in place: refused, or the structure is given the guessed tiling |
| Dissector.Dissector.DropField | src/engine_struct/Dissector.cpp:240-257 | forgets the field at an offset, or refuses when there is none |
| RegionIndex.Contains | src/engine_struct/Dissector.cpp:43-57 | the binary search answers as a search of every indexed range, and false below 0x10000 |
| RegionIndex.BuildIndexes | src/engine_struct/Dissector.cpp:34-41 | the index of disjoint regions is in order and holds exactly the committed readable ones |
| RegionIndex.LooksUp | src/engine_struct/Dissector.cpp:31-62 | so over disjoint regions it answers as a linear search of the regions, except below 0x10000 |

## Left out

- Win32 calls, thread contexts, sockets, files, crash dumps and logging: only their success or failure and their effect on memory, as parameters.
- Locks: each critical section is one step; setEnabled and remove of the patch registry are single steps because the user interface serialises them (`src/services/UiCommands.h:29-36`).
- Memory other than the pump's or the registry's own writes changing between steps: the target does not write the modelled bytes itself.
- Mid-step threads that hit another breakpoint before their step is reported: allowed, and named as a hazard of `OneWayStep` where it breaks the invariant.
- Freeing allocations and pages that disappear: mapped addresses stay mapped.
- The assembler and the disassembler: an arbitrary function of text, address and label values, and an arbitrary padding function; the sections that reach the limit use the x86 encodings of jmp, xor and add; addresses in the layout are unbounded integers.
- Directives, symbol resolution and text substitution before pass two, and registering symbols: lines arrive classified and names case-normalised; the placeholder is an arbitrary value.
- Convergence of layouts whose lengths depend on later labels: false in general (`Oscillation.NeverSettles`); for which of them the passes settle is not modelled.
- Undo of a compile that fails after allocating, and a second enable over a state a failed one left behind.
- Cancellation and progress of scans; module names are folded as ASCII; Unicode conversion is the identity.
- scanNext and the value comparisons: the scan's test is an arbitrary function of the candidate's bytes; floating-point tolerance, string case folding and their modes are not modelled.
- Reads of the memory scanner return a prefix of what they ask for; regions do not change during a scan.
- MemoryScanner.ScanFirst: does not model cancellation, so it says nothing about a scan stopped half-way.
- Speed hook: 32-bit tick wrap and rounding of doubles; the hooks' installation.
- NearAllocation.Search: the address space is taken to be constant during one search, with user addresses below 2^47 and a granularity of 64 KiB.
- Project files: file handling, atomic replacement and the count of skipped lines; wide strings are taken to be read back as written.
- HTTP responses, token comparison and request dispatch.
- Structure dissector: snapshots, float recognition and the search for pointers in samples are functions the guess is given; equal offsets keep their order when sorted.
- Floating-point comparison and the preceding-instruction vote, which are heuristics; the user interface, tutorial, trainer text, JSON, Lua and tool handlers, which have no invariant of this kind.

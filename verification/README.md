# A verified model of WinHookUp++

WinHookUp++ redirects functions of a running process. This project models its x64 internal build (the one without
`WINHOOKUPP_EXTERNAL_USAGE`) in Dafny and proves what the library is for: a call of a hooked function reaches the
detour, a call of `*origin` still runs the original function, and disabling every hook restores every code byte. Where
the code falls short of that, there is a lemma at an input that shows it, and the exact condition under which it holds.

`dafny verify dfyconfig.toml` checks the whole project.

## How it is built

| file | what it models |
|---|---|
| `Words.dfy` | bytes, truncation and sign extension, little-endian words, the flat memory of the process |
| `Hde64.dfy`, `Disasm.dfy`, `Hde64Laws.dfy`, `DecodedFields.dfy` | the length decoder: its specification, the imperative decoder, its laws, every field that it reports in terms of the code bytes |
| `Table64.dfy`, `OpcodeMap.dfy` | the shipped table, and the opcode maps, prefixes and operands that it stands for |
| `Instructions.dfy`, `X64.dfy` | the instruction templates, and a small-step machine for x86-64 code |
| `Relocation.dfy`, `Acceptance.dfy`, `Layout.dfy`, `Simulation.dfy`, `Limits.dfy` | the relocation loop, what it accepts, where it puts things, that it preserves meaning, where it does not |
| `Patching.dfy`, `TrampolineHook.dfy`, `Hooks.dfy`, `Stacking.dfy`, `Restoration.dfy` | the patch; class `Trampoline`; one hook; a stack of hooks; whole runs of `Enable` and `Disable` |
| `Runs.dfy`, `Failures.dfy`, `Samples.dfy` | programs that call `Enable` and `Disable` any number of times; where `Enable` and `Disable` fall short; code bytes and what becomes of them |
| `AddressSpace.dfy`, `SlotHeap.dfy`, `Allocator.dfy` | the searches for a free page; the free lists in byte memory; class `Memory` |
| `Int3Veh.dfy` | breakpoint hooks |

**Memory** is a total function from addresses to bytes, and two memories are compared byte by byte. Objects whose
methods update their fields are classes (`Memory`, `Trampoline`, and `Globals` and `Hook` for the breakpoint hooks); the
decoder, the searches and the relocation loop are methods with loops. Each is proved against a function or a predicate
on values, and the theorems are about those.

**The decoder** takes its table as a parameter. `Decode` describes the result; `Disassemble` is the decoder with its
moving pointer and table scans. The laws hold for every table that is `Consistent`; `Table64` carries the shipped bytes
and shows that they are. `DecodedFields` says of each reported field which bytes of the code it is and when it is there,
and `OpcodeMap` says what the shipped table makes of every opcode, prefix and operand, so together they determine the
decoder without its tables and phases.

**The machine** has explicit control transfers and RIP-relative operands. Every other instruction is an uninterpreted
function of its bytes and the data, so it does not depend on its own address. A call, direct or indirect, is one step
that returns to the next instruction; what the called function does to the data is an uninterpreted function, and a
different one in the patched process than in the unpatched one. The machine gives no meaning to operand-size prefixes
on relative branches, address-size prefixes on memory operands, the memory forms of system-register moves, and XBEGIN
(`X64.Covered`). The program's data is abstract; it does not overlap the library's slots (`frozen`), so what an
absolute jump loads is what the library wrote.

**The operating system** is a sequence of pages with an allocation granularity. `VirtualQuery` reports runs of pages.
`VirtualAlloc` may fail at will: the parameter `grants` is the set of places where it would succeed. `GetSystemInfo`
is the parameter `si`. What lies on the stack behind a fixed buffer is the parameter `stack`; no result depends on it.

**The main theorems.** `Simulation.SimulateRun` and `Simulation.OnlySimulates` say that the trampoline and the
unpatched target simulate each other over runs of any length, under `Faithful`; the `Simulation.Step...` lemmas say what
the machine does at each kind of instruction, by opcode. `Acceptance.OutcomeIff` says which code the relocation loop
accepts, and with which bytes, without the loop. `Simulation.SimulatePatched` compares
the trampoline in the patched process with the target in the unpatched one, under `KeepsOff`, a condition on the
unpatched target's run alone. `Hooks` and `Stacking` lift this to the memory that `Enable` really leaves, for one hook
and for any number of hooks on one target; `Runs.EnableAll` shows that calling `Enable` that often leaves such a stack.
`Restoration` covers any sequence of `Enable` and `Disable`; `Runs.Serve` shows that a program which calls them on any
objects in any order goes through such a sequence. `SlotHeap.HeapRun` covers any sequence of allocator operations mixed
with client writes. `Hde64Laws` proves the facts about the decoder on which the relocator depends.

## What the code does that its authors may not expect

- With `patchAbove_`, the operand of the long jump is computed before `patchedPos_` is moved back by five
  (src/trampoline.cpp:377-391), so the jump lands five bytes before the relay, and with fewer than five bytes of
  trampoline below the slot. `Patching.MissesRelay` proves this of every such hook, `Failures.HotPatchMisses` and
  `Failures.LoneRetLeavesSlot` give code bytes.
- A copied branch is only guarded forwards (src/trampoline.cpp:160-166, 230). A branch back over an instruction that
  was lengthened is accepted and lands inside it: `Limits.BackwardBranchMisses` gives code bytes, and
  `Limits.InsideLandsIff` the exact condition.
- The new displacement of a RIP-relative operand is truncated without a check (src/trampoline.cpp:130-131). The operand
  is kept exactly when it fits (`Simulation.OperandKept`), which `Hooks.NearOperandFits` shows for every operand less
  than 2^30 away; `Limits.FarOperandMisses` gives code bytes where it does not.
- The test for a RIP-relative operand (src/trampoline.cpp:111) also accepts moves to and from system registers and code
  with an address-size prefix, where the decoder has seen no 32-bit displacement. `Limits.RipStore` says exactly where
  the four bytes are then stored: the last of them is the ModR/M byte itself. For 0F 20 05 and 67 8B 05 the first is
  one byte below the 16-byte buffer on the stack (`Limits.SystemMoveOverruns`, `Limits.AddressSizeOverruns`), so the
  C++ program has no defined behaviour; the model reports that (`Overrun`, `Undefined`) and promises nothing more.
  For 66 67 8B 05 the store is inside and replaces the whole instruction (`Limits.AddressSizeReplaced`).
- A function that calls itself, directly or through another one, enters the detour when it is run through `*origin`:
  only the function's own instructions are relocated. `Limits.RecursionEntersDetour` shows for
  74 05 E8 F9 FF FF FF C3 that `KeepsOff` fails there, unless the detour does what the function does;
  `Limits.CallSeesPatch` is the exact condition for any relocated call.
- The lookup of a registered block starts over on the same block when that is out of range (src/memory.cpp:227-228), so
  an out-of-range block met before a usable one makes it loop for ever. `Allocator.LookupEndsIff` has the exact
  condition, and `Allocator.FarOriginHangs` a way to get there: hook one function, then another one more than 2 GiB
  away. `AllocateBuffer` returns `Hangs` and `Enable` returns `NeverReturns` in that case.
- The searches for a new block go one address further than the lookup of registered ones (src/memory.cpp:227, 273): a
  block that ends at the last address of the range is used once, and then every allocation for the same origin loops
  for ever. `Allocator.EdgeBlockHangsIff` has the exact condition.
- The decoder looks for TEST with an immediate at the last opcode byte (src/hde/hde64.c:226-231), and so takes an
  immediate behind 0F F6 and 0F F7 with register field 0 or 1: `OpcodeMap.TestBehind0F`. `Samples.PsadbwTooLong` decodes
  0F F6 C1 with length 4. The table gives 0F B8 no ModR/M byte, so F3 0F B8 C1 (POPCNT) has length 3
  (`Samples.PopcntTooShort`).
- `FreeBuffer` checks nothing. Freeing an address in a registered block that is no live slot, a slot freed twice say,
  breaks the block's free list or releases a block in use; `Allocator.Memory.FreeBuffer` says exactly when the
  allocator stays in order.
- The comment at src/memory.cpp:209 says 512 MB; the constant (include/memory.h:28-29) is 2^30. The model has 2^30.
- `Trampoline::Enable` does not check whether the hook is in force already. After enabling it twice and disabling it the
  first patch is still in force (`Failures.EnabledTwice`, `Failures.StillHooked`), and disabling overlapping hooks in
  the wrong order leaves the older patch (`Failures.WrongOrder`).
- A failing `CreateTrampolineFunction` keeps the slot: `TrampolineHook.Trampoline.Enable` says that it is in use
  whatever comes of it. `Disable` does not touch the allocator and keeps it too.
- The relocator copies sixteen bytes before it decodes. An error-free decode reads no further
  (`Disasm.Disassemble`), but a failing one may, past the end of the copy on the stack.
- When `RemoveVectoredExceptionHandler` fails, `Int3Veh::Disable` returns false with the object still enabled although
  its breakpoint is gone (src/int3veh.cpp:126-129). `Int3Veh.Hook.Disable` says so.

## Model

| member | source | states |
|---|---|---|
| Disasm.Disassemble | src/hde/hde64.c:14-333 | the pointer-and-table decoder computes `Decode`: length, prefixes, REX, opcodes, ModR/M, SIB, displacement, immediate, every flag and error flag; an error-free decode has read nothing behind the first sixteen bytes, lookahead included |
| Disasm.ReadPrefixes | src/hde/hde64.c:22-57 | the prefix loop stops at the first byte that is no prefix or after sixteen bytes, with the last byte read and the collected set |
| Disasm.DecodeHead | src/hde/hde64.c:59-83 | REX, the second opcode byte, the error on a second REX, and the changed operand size of A0-A3 |
| Disasm.CheckModRm | src/hde/hde64.c:115-223 | the opcode, LOCK and operand errors of a ModR/M byte, the FPU map and both table scans included |
| Disasm.ReadAttributes | src/hde/hde64.c:83-106 | the two-step opcode lookup, the group, the error attribute and the forbidden prefixes, as the attributes of the specification |
| Disasm.FpuUndefined | src/hde/hde64.c:118-129 | the two FPU maps decide whether the instruction is undefined |
| Disasm.AcceptsLock | src/hde/hde64.c:135-151 | the table scan for LOCK finds the first entry of the opcode and tests its register bit |
| Disasm.NeedsMemory | src/hde/hde64.c:187-203 | the table scan for memory-only opcodes finds the first entry and tests prefixes and register |
| Disasm.DecodeOperand | src/hde/hde64.c:108-279 | ModR/M, SIB and displacement, read with one byte of lookahead that is given back |
| Disasm.DecodeImmediate | src/hde/hde64.c:281-323 | immediates and branch displacements, with their widths and where they end |
| Hde64Laws.DecodeLocal | src/hde/hde64.c:225-262 | memories that agree on the first `len` bytes of an error-free instruction decode it identically, at any two addresses |
| Hde64Laws.SixteenBytesSuffice | src/hde/hde64.c:22-333 | memories that agree on sixteen bytes agree on whether decoding fails and, if not, on the whole result |
| Hde64Laws.PrefixCount | src/hde/hde64.c:22-52 | the scan's length is the number of prefix bytes, plus the byte behind them |
| DecodedFields.ReportedPrefixes | src/hde/hde64.c:22-57 | the reported prefixes are the bytes F0, F2, F3, 66, 67 and 26, 2E, 36, 3E, 64, 65 in front of the instruction, all of them and no others; of several segment prefixes the last |
| DecodedFields.ReportedOpcode | src/hde/hde64.c:59-83 | REX is the byte 40-4F behind the prefixes, the opcode the next one, the second opcode byte the one behind 0F |
| DecodedFields.ReportedOperand | src/hde/hde64.c:108-279 | of every legible decode, error-free ones included: ModR/M where attribute bit 0 is set; SIB iff mod is not 3 and r/m is 4; an 8-bit displacement iff mod is 1, a 16-bit or 32-bit one exactly as mod, r/m, SIB base and 67 say; where they stand and what they are; 0F 20-23 count as mod 3 |
| DecodedFields.ReportedImmediate | src/hde/hde64.c:281-323 | which immediates there are and how wide, by attribute bits, REX.W with B8-BF, 66, and for A0-A3 by 67 |
| DecodedFields.ReportedBranch | src/hde/hde64.c:315-323 | the operand of a relative branch is its last byte or its last four |
| DecodedFields.TooLongIff | src/hde/hde64.c:325-330 | the length error is reported iff the parts of an instruction of a defined opcode take more than fifteen bytes, and `len` is their sum, or 15 |
| Hde64Laws.LengthDecomposition | src/hde/hde64.c:22-327 | of every error-free decode: `len` is prefixes + REX + opcode bytes (two iff 0F) + ModR/M + SIB + displacement + (flags & 0x3C) >> 2 |
| Hde64Laws.Retarget | src/trampoline.cpp:128-131 | the relocator's formula finds the displacement: code that differs only in those four bytes decodes to the same instruction with the new displacement and no other change |
| Table64.LookupsInside | src/hde/hde64.c:84-100 | both steps of every opcode lookup, and the group that it leads to, stay inside the shipped table |
| Table64.ListsInside | src/hde/hde64.c:118-203 | FPU reads stay in their maps, and the scanned lists consist of whole entries up to the end of the table |
| Table64.TableConsistent | src/hde/table64.h:37-74 | no opcode of the shipped table takes both an 8-bit immediate and an 8-bit branch displacement |
| Table64.TableKnowsTemplates | src/hde/table64.h:37-74 | the attributes of the opcodes the library emits (FF, EB, 70-7F, E9) in the shipped table |
| OpcodeMap.FollowsMap | src/hde/table64.h:37-74 | the shipped bytes give each of the 256 one-byte and 256 two-byte opcodes exactly the attributes of the opcode map, or call it undefined |
| OpcodeMap.DecodesByMap | src/hde/hde64.c:83-100 | the attributes by which an instruction is decoded are the opcode map's |
| OpcodeMap.OpcodeErrorIff | src/hde/hde64.c:66-129 | an opcode error is reported iff there are two REX bytes, the opcode is undefined, it does not take the prefixes, its group has no such member, or the FPU has no such form |
| OpcodeMap.OtherErrorsIff | src/hde/hde64.c:131-279 | the LOCK error and the operand error, each iff, by opcode, prefix, mod and register field |
| OpcodeMap.TestBehind0F | src/hde/hde64.c:226-231 | 0F F6 and 0F F7 take TEST's immediate iff the register field is 0 or 1 |
| Samples.LoadFromFrame | src/hde/hde64.c:242-277 | 8B 45 08 decodes with length 3 and an 8-bit displacement 8 |
| Samples.PsadbwTooLong | src/hde/hde64.c:226-231 | 0F F6 C1 decodes without error, with length 4 |
| Samples.PopcntTooShort | src/hde/table64.h:37-74 | F3 0F B8 C1 decodes without error, with length 3 |
| Instructions.DecodeGroup5 | include/instructions.h:28-46 | FF 25 and FF 15 decode as six-byte RIP-relative instructions with that displacement |
| Instructions.DecodeShort | include/instructions.h:14-19 | EB and 7x decode as two-byte branches with that operand |
| Instructions.DecodeJmpRel | include/instructions.h:21-26 | E9 decodes as a five-byte jump with that operand |
| Simulation.StepJmpAbs | src/trampoline.cpp:34-37 | the absolute jump template, as bytes in memory, jumps to its address field and keeps the data |
| Simulation.RunCallAbs | src/trampoline.cpp:29-33 | the absolute call template calls its address field and goes on behind the template, inside the slot |
| Simulation.RunJccAbs | src/trampoline.cpp:38-42 | the conditional template goes on behind itself if its condition holds, and to its address field otherwise |
| X64.StepLocal | src/trampoline.cpp:82-93 | a step depends on the code memory only through the instruction it executes, the library's slots and the function it calls |
| Simulation.StepConditional | src/trampoline.cpp:181-193 | the machine at 7x and 0F 8x: condition x, odd ones the negations of even ones, decides between the next instruction and the displaced one |
| Simulation.StepDirect | src/trampoline.cpp:138-158 | the machine at EB, E9 and E8 |
| Simulation.StepByBytes | src/trampoline.cpp:181-227 | the machine at E0-E3, C2, C3 and the indirect calls FF /2 and FF /3 |
| Simulation.StepThrough | src/trampoline.cpp:111-136 | the machine at FF /2, /3 and /4 with a RIP-relative operand: the pointer is at the next address plus the displacement |
| Simulation.StepElse | src/trampoline.cpp:82-93 | the machine at every other instruction without a RIP-relative operand depends on its bytes and the data alone |
| Simulation.StepOperand | src/trampoline.cpp:111-131 | with one, on the bytes around the displacement, the address and the data |
| Acceptance.EntryMeans | src/trampoline.cpp:95-227 | the code that stands for each instruction, byte by byte: by opcode, by offset, by where it branches; 7x and 0F 8x to the outside with the opposite condition |
| Acceptance.OutcomeIff | src/trampoline.cpp:75-254 | which code the loop accepts, in both directions and without the loop: it lays out p iff p stands for the instructions from the target on, none of them failing, a LOOP to the outside, lengthened under a pending branch or beyond byte 50, and the last one, only, ends the function; it fails, or misses its buffer, iff it comes to an instruction that makes it |
| Acceptance.NoneBehindEnd | src/trampoline.cpp:133-135 | no entry before the last is FF /4 through a RIP-relative pointer, and a RET or a JMP out that is not the last stands before the destination of a branch that comes no later |
| Samples.NearBranchRelocates | src/trampoline.cpp:206-218 | 0F 84 00 01 00 00 becomes 75 0E FF 25 00 00 00 00 and the destination |
| Samples.ShortFunction | src/trampoline.cpp:221-275 | 31 C0 C3: relocation ends behind the RET; two bytes of padding behind make room for the jump, and there is none without that or five above |
| Relocation.RelocateLays | src/trampoline.cpp:75-254 | whatever the loop accepts is laid out back to back in at most 50 bytes, in at most six rounds (so the eight-entry arrays never fill), with lengths kept inside every pending branch |
| Layout.DestinationEmitted | src/trampoline.cpp:133-135 | every destination of a copied branch that is an instruction boundary has been emitted when the loop ends, also when it ended unconditionally at FF /4 |
| Layout.ForwardDistance | src/trampoline.cpp:160-166 | the length guard keeps the distance of every forward branch |
| Layout.BackwardDistance | src/trampoline.cpp:194-200 | a backward distance never shrinks, and is kept iff nothing in between was lengthened |
| Simulation.OperandKept | src/trampoline.cpp:128-131 | the rewritten operand addresses what the original addressed iff the exact displacement fits in 32 signed bits |
| Simulation.RipDecodes | src/trampoline.cpp:111-136 | what stands in the trampoline decodes to the original instruction with the new displacement, and only those four bytes differ |
| Simulation.SimulateStep | src/trampoline.cpp:96-227 | every instruction of the target is matched by one or two steps of the trampoline, inside its slot, with the same data and a corresponding address |
| Simulation.JumpBackLands | src/trampoline.cpp:96-109 | the closing jump leads to the very instruction where relocation stopped |
| Simulation.SimulateRun | src/trampoline.cpp:75-254 | for runs of any length: whatever state the target reaches, the trampoline started on the same data reaches a related one |
| Simulation.SameExit | src/trampoline.cpp:241-254 | once the target's run is at no relocated instruction, the trampoline's run is in the very same state |
| Simulation.OnlySimulates | src/trampoline.cpp:75-254 | the converse: every state outside the slot that the trampoline reaches is one that the target reaches |
| Simulation.PatchedRun | src/trampoline.cpp:397-407 | a run that executes no patched byte, and whose calls have the same effect in both processes, is the same with and without the patch |
| Simulation.ConfinedAvoids | src/trampoline.cpp:246-254 | steps inside the slot execute no patched byte and call only what the target's instruction calls |
| Simulation.SimulatePatched | src/trampoline.cpp:75-254 | the trampoline in the patched process simulates the target in the unpatched one, for every run of the target that executes no patched byte after leaving the relocated instructions, and whose calls have the same effect in both processes |
| Limits.InsideLandsIff | src/trampoline.cpp:160-166 | a copied branch lands on the relocation of its destination iff it goes forward or nothing it jumps back over was lengthened |
| Limits.FaithfulIff | src/trampoline.cpp:111-166 | `Faithful` asks, of instructions with a RIP-relative operand and of branches into the patched bytes, for reach, boundaries and kept lengths, and of the others nothing |
| Limits.BackwardBranchMisses | src/trampoline.cpp:194-200 | the code 74 10 EB FC EB 20 is accepted, and its copied branch lands 14 bytes into the trampoline, where no instruction stands |
| Limits.RipStore | src/trampoline.cpp:111-131 | of every error-free instruction that passes the RIP test: the store is the displacement iff the decoder has seen one of 32 bits, else its last byte is ModR/M; it is inside the buffer iff len less the immediate is at least 4 |
| Limits.SystemMoveOverruns | src/trampoline.cpp:111-131 | with the shipped table, 0F 20 05 makes the store start one byte below the buffer |
| Limits.AddressSizeOverruns | src/trampoline.cpp:111-131 | with the shipped table, so does 67 8B 05 |
| Limits.AddressSizeReplaced | src/trampoline.cpp:111-131 | with the shipped table, 66 67 8B 05 is accepted, and all four bytes are replaced |
| Limits.FarOperandMisses | src/trampoline.cpp:130-135 | FF 25 FF FF FF 7F is accepted for every trampoline below the target, and its operand changes |
| Limits.CallSeesPatch | src/trampoline.cpp:138-149 | a relocated call, reached before the target has left the relocated instructions: the data after it is what the call does in the patched process, and `KeepsOff` goes on holding iff that is what it does in the unpatched one |
| Limits.RecursiveRelocates | src/trampoline.cpp:138-149 | with the shipped table, 74 05 E8 F9 FF FF FF C3 is accepted with 46 bytes of trampoline, faithfully |
| Limits.RecursionEntersDetour | src/trampoline.cpp:138-149 | for this function, where its branch is not taken, the recursive call through `*origin` is a call of the detour, and `KeepsOff` fails unless that does what the function does |
| Patching.PlacementIff | src/trampoline.cpp:256-275 | where the jump goes, by the bytes: at the target iff the rest of its five bytes is one byte 00, 90 or CC over and over; else above it iff the rest of two is and the five bytes above are, in an executable page; else nowhere |
| Patching.NoLiveByteLost | src/trampoline.cpp:256-275 | every byte the patch overwrites belongs to a relocated instruction that no end of the function precedes, or to five bytes 00, 90 or CC, all alike, above the target, or to such bytes that fill all the rest of the jump at the target behind the end of the function |
| Patching.LongJumpDest | src/trampoline.cpp:379-399 | the distance bound makes the truncation harmless: the jump leads to the relay, or five bytes before it with `patchAbove_` |
| Patching.Redirects | src/trampoline.cpp:277-287 | without `patchAbove_` two steps lead from the target to the detour, data untouched |
| Patching.MissesRelay | src/trampoline.cpp:388-407 | with `patchAbove_` two steps lead from the target to five bytes before the relay |
| Failures.HotPatchAccepted | src/trampoline.cpp:256-275 | five CC and EB 20 without padding behind is accepted, with the long jump above the target |
| Failures.HotPatchMisses | src/trampoline.cpp:377-407 | hooked, entering it leads into the address field of its own trampoline |
| Failures.LoneRetLeavesSlot | src/trampoline.cpp:377-407 | a RET with one byte of padding behind, hooked, leads four bytes below its slot |
| TrampolineHook.Trampoline.Translate | src/trampoline.cpp:95-227 | the branches of the loop emit the code, the new `jmpDest` and the end condition that `Relocate` prescribes (which `Acceptance.EntryMeans` and `OutcomeIff` give by opcode and byte), refuse exactly a LOOPcc to the outside, and report exactly the stores that miss the buffer |
| TrampolineHook.Trampoline.DecodeAt | src/trampoline.cpp:82-93 | disassembling a sixteen-byte copy on the stack gives what stands in the target, whatever lies behind the copy |
| TrampolineHook.Trampoline.Redisplace | src/trampoline.cpp:63-131 | in a buffer of sixteen bytes: reports whether the store is inside it, and if so leaves the instruction with only those four bytes replaced |
| TrampolineHook.Trampoline.RelocateLoop | src/trampoline.cpp:75-254 | the loop terminates with one-byte counters that never wrap, and comes to what `Relocate` comes to; on success it has written exactly its plan into the slot and both arrays, and unless a store missed its buffer nothing elsewhere |
| Allocator.Memory.IsCodePadding | src/memory.cpp:350-378 | true iff the first byte is 00, 90 or CC and all the others equal it |
| TrampolineHook.Trampoline.DecidePlace | src/trampoline.cpp:256-275 | refuses exactly where there is no place for the jump, else says whether it goes above the target |
| TrampolineHook.Trampoline.CreateTrampolineFunction | src/trampoline.cpp:26-292 | success iff the code can be relocated and there is a place for the jump; then trampoline and relay stand in the slot; unless a store missed its buffer, nothing outside the slot is written |
| TrampolineHook.Trampoline.PlacePatch | src/trampoline.cpp:377-407 | backs up exactly the bytes of the window and then stores the patch there, and nothing else |
| TrampolineHook.Trampoline.PatchTarget | src/trampoline.cpp:377-407 | behind that, the slot is still filled, the patch stands, the backup is what stood there before the trampoline was built, and the allocator stays valid |
| TrampolineHook.SlotIsAway | src/trampoline.cpp:367-370 | the slot that the allocator hands out overlaps neither the code that is read nor the window that is patched |
| TrampolineHook.AllocateKeeps | src/trampoline.cpp:367-370 | an allocation keeps the granularity, the mapped pages, the slots in use and the code, so that `Enable` may be called again |
| TrampolineHook.Trampoline.EnableIn | src/trampoline.cpp:370-412 | comes to exactly what the code, the slot and the padding decide (`Creates`); on success the memory is related by `Enables`, the slot is well placed and the backup is what stood there; on failure only slot bytes have changed; in both cases the allocator stays valid |
| TrampolineHook.Trampoline.Enable | src/trampoline.cpp:360-413 | the result in every case (`Verdict`): refused and nothing changed where target or detour is not code, never returning where the allocator's lookup spins, refused without a slot, and with one enabled iff the code can be relocated and there is a place for the jump; slots in use stay in use with their bytes, the new one too, mapped pages and code stay, and `Enable` may be called again; a hook in force has its window in code and in no block; after a failure no byte outside the blocks has changed and an earlier patch can still be undone |
| TrampolineHook.VerdictIff | src/trampoline.cpp:360-413 | what `Enable` comes to, by code, pages and bytes: in force iff target and detour are in executable pages, the allocator has given a slot, the code makes a complete sequence and there is room for the jump; never returning iff the lookup spins; undefined iff the relocator comes to a store outside its buffer |
| TrampolineHook.Trampoline.Disable | src/trampoline.cpp:415-421 | writes the backup over the window and nothing else, marks the hook disabled, and leaves the allocator valid if the window is in no block |
| Hooks.DisableRestores | src/trampoline.cpp:394-421 | `Enable` then `Disable` leaves every byte outside the slot as it was |
| Hooks.NearOperandFits | src/memory.cpp:209-217 | because slots are within 2^30 of the target, every RIP-relative operand less than 2^30 away stays in reach |
| Hooks.TargetReachesDetour | src/trampoline.cpp:360-413 | after `Enable`, entering the target reaches the detour, or five bytes before the relay with `patchAbove_` |
| Hooks.OriginRunsOriginal | src/trampoline.cpp:360-413 | after `Enable`, running `*origin` in the patched process does what the target does in the unpatched one, for every run of that target under `KeepsOff` |
| Hooks.FaithfulTransfers | src/trampoline.cpp:75-254 | a plan that is faithful stays so in every memory with the same 35 bytes at the target |
| Hooks.EnableIsStep | src/trampoline.cpp:394-407 | what `Enable` leaves is a step of the runs that `Restoration` is about |
| Hooks.DisableIsStep | src/trampoline.cpp:415-421 | what `Disable` leaves is a step of those runs, where no later patch overlaps |
| Stacking.PatchIsRelocated | src/trampoline.cpp:150-180 | the planted E9 is accepted and relocated, faithfully, as a single jump to where it leads |
| Stacking.LayeredIsStack | src/trampoline.cpp:256-275 | if the first hook on a target has its jump there, so have all hooks on top of it |
| Stacking.TrampolineJumpsToRelay | src/trampoline.cpp:150-180 | the trampoline of a hook on top of another one is one jump, to the relay below |
| Stacking.SlotStays | src/trampoline.cpp:360-413 | a slot, once filled, stays as it is through all later `Enable`s |
| Stacking.TargetReachesNewest | src/trampoline.cpp:360-413 | with any number of hooks stacked on one target, entering it reaches the newest detour |
| Stacking.OriginReachesDetourBelow | src/trampoline.cpp:360-413 | the origin of each hook but the first reaches the detour of the hook below |
| Stacking.FirstOriginRunsOriginal | src/trampoline.cpp:360-413 | the origin of the first hook runs the original function, whatever has been stacked on top, for every run of the unpatched target under `KeepsOff` |
| Runs.EnableAll | src/trampoline.cpp:360-413 | any number of objects enabled one after the other on one target: the first finds the code that stood there, each is on top of the ones before, slots apart and in use; what the call that ends the sequence came to, exactly; if the first jump is at the target, a stack, which only the allocator or a detour that is not code can end |
| Runs.OnTopSucceeds | src/trampoline.cpp:256-275 | on top of a jump at the target, given a slot, `Enable` succeeds |
| Runs.AddLayer | src/trampoline.cpp:360-413 | what `Enable` promises of slots in use and of code makes one more layer |
| Restoration.UnwindAhead | src/trampoline.cpp:415-421 | a backup that no later patch overlaps may be written back out of order |
| Restoration.StepKeepsOriginal | src/trampoline.cpp:360-421 | every `Enable`, failing `Enable` and `Disable` keeps the code that undoing all patches would give |
| Restoration.AllDisabledRestores | src/trampoline.cpp:360-421 | after any run that starts and ends with no hook in force, disjoint patches undone in any order and overlapping ones newest first, every code byte is what it was |
| Restoration.UncoveredIsOriginal | src/trampoline.cpp:360-421 | at every moment of such a run, code bytes that no patch covers are original |
| Runs.Serve | src/trampoline.cpp:360-421 | a program that enables and disables any objects on any targets, in any order but that it leaves objects in force alone and undoes overlapping patches newest first: every other request takes effect exactly as `Serves` says, point by point; the code goes through such a run; when no object is in force, every code byte is what it was |
| Failures.WrongOrder | src/trampoline.cpp:360-421 | two hooks disabled oldest first: a code byte in both windows is left with the first patch, every other one is restored; newest first, all are |
| Failures.EnabledTwice | src/trampoline.cpp:360-421 | enabled twice and disabled, wherever the two jumps were: the whole first patch is still in force, and a byte is restored iff that patch had not changed it |
| Failures.SecondWindow | src/trampoline.cpp:256-275 | the second window: the first one if the jump was at the target; after a jump above it there is a second `Enable` iff three bytes of padding follow the target's first two, and its window is at the target |
| Failures.NotRestoredAbove | src/trampoline.cpp:377-407 | with the jump above the target its first byte has certainly changed |
| Failures.StillHooked | src/trampoline.cpp:360-421 | and the target, disabled, still reaches the first detour |
| AddressSpace.FindPrevFreeRegion | src/memory.cpp:122-156 | the skipping search terminates with the greatest free aligned address from minAddr to one granule below, or NULL iff there is none; NULL too if it starts beyond the address space |
| AddressSpace.FindNextFreeRegion | src/memory.cpp:158-194 | the skipping search terminates with the least free aligned address from one granule above to maxAddr, or NULL iff there is none |
| AddressSpace.AllocateBelow | src/memory.cpp:247-267 | the retry loop terminates with the nearest place below where `VirtualAlloc` succeeds, having tried every candidate from the top down to it, each once |
| AddressSpace.AllocateAbove | src/memory.cpp:269-289 | the retry loop terminates with the nearest place above where `VirtualAlloc` succeeds, having tried every candidate from the bottom up to it, each once |
| SlotHeap.PopKeeps | src/memory.cpp:44-46 | the two stores of `AllocateBuffer` take the first free slot off, and all lists and counters in memory stay well-formed |
| SlotHeap.PushKeeps | src/memory.cpp:72-74 | the three stores of `FreeBuffer` put the slot in front, and all lists and counters in memory stay well-formed |
| SlotHeap.FreeingTwiceBreaks | src/memory.cpp:60-75 | the same stores for an address of the block that is no live slot leave no list of distinct slots |
| SlotHeap.UnlinkKeeps | src/memory.cpp:84-102 | storing one link, or the head, takes the block off the list and leaves the other blocks |
| SlotHeap.LinkKeeps | src/memory.cpp:328-330 | a new block in front of the list leaves the other blocks |
| SlotHeap.BuildStep | src/memory.cpp:312-323 | each round of the building loop extends the free list by the next slot |
| SlotHeap.ClientWriteKeeps | include/memory.h:38-45 | whatever a client writes into its slot, block list, free lists and counters stand, although free slots keep their links in the same bytes |
| SlotHeap.LiveAndFree | include/memory.h:47-53 | live and free slots partition the 63 slots of a block, and `usedCount` is the number of live ones |
| SlotHeap.BlockLayout | include/memory.h:38-53 | a block in memory: next at 0, free at 8, usedCount at 16, then 63 slots of 64 bytes, the free ones linked |
| SlotHeap.HeapRun | src/memory.cpp:28-119 | after any run of allocator steps mixed with arbitrary writes into live slots and outside the blocks, the bytes still make up acyclic lists, and live plus free is 63 in every block |
| Allocator.LookupEndsIff | src/memory.cpp:220-245 | the lookup ends iff no out-of-range block comes before the first usable one, and then with the first registered block that is in range and has a free slot |
| Allocator.RangeIff | src/memory.cpp:201-217 | the lookup's limits admit a block iff every byte of it is an application address less than 2^30 from origin |
| Allocator.LookupByReach | src/memory.cpp:220-245 | the lookup finds the first block with a free slot if all blocks up to it are reachable, and spins iff an unreachable block follows full ones only |
| Allocator.NewBlockNearest | src/memory.cpp:247-334 | where all registered blocks are reachable and full, the slot is the last of a new block at the nearest place on offer below, else above; none iff nothing is on offer |
| Allocator.EdgeBlockHangsIff | src/memory.cpp:227-275 | after one allocation into an empty allocator the next one for the same origin loops for ever iff the block ends at the last address of the range |
| Allocator.FarOriginHangs | src/memory.cpp:220-245 | after one allocation into an empty allocator, every allocation for an origin more than twice the range away loops for ever |
| Allocator.WithinReach | src/memory.cpp:209-217 | every byte of an allocated slot is within 2^30 of origin |
| Allocator.AllocateThenFree | src/memory.cpp:28-119 | allocating and freeing is the identity: the exact free list if the block was registered, block list and address space if it was new |
| Allocator.Memory.Patch | include/memory.h:143-155 | copies the bytes to the address and changes nothing else |
| Allocator.Memory.FindRegistered | src/memory.cpp:199-245 | the walk over the links in memory finds the first usable block of the list |
| Allocator.Memory.BuildBlock | src/memory.cpp:303-328 | leaves a block whose free list holds all 63 slots once, highest first, and writes nowhere else |
| Allocator.Memory.GetMemoryBlock | src/memory.cpp:197-334 | the first registered block with a free slot if all blocks up to it have every byte in range, never returning iff one out of range follows full ones only; else a new one registered at the nearest place below, else above, else nothing changed |
| Allocator.Memory.AllocateBuffer | src/memory.cpp:28-50 | hands out a slot that was not live, by the rule of `Allocates`: the first free slot of the first registered block with one, if all blocks up to it are reachable (`Serving`), and none for ever iff an unreachable block is in the way; keeps the bytes of all live slots; every registered block has a slot in use |
| Allocator.Memory.FreeBuffer | src/memory.cpp:52-119 | of a live slot: gives back exactly that slot, releases its block iff it was the last one, keeps the bytes of all other live slots; ignores addresses outside the blocks; the allocator stays in order iff the address is one of these, and otherwise the block has lost its free list, or its page with slots in use |
| Int3Veh.Globals.Activate | src/int3veh.cpp:81-98 | plants the breakpoint, saves the original byte once, installs the handler; the invariant over all code bytes stands |
| Int3Veh.Globals.Deactivate | src/int3veh.cpp:114-124 | restores the original byte, also after the target was hooked before |
| Int3Veh.Globals.VehHandler | src/int3veh.cpp:24-55 | a breakpoint at the target of an enabled hook resumes at its detour with the trap flag set; other exceptions go as in the source |
| Int3Veh.Hook.Enable | src/int3veh.cpp:69-105 | succeeds iff the object is disabled, the addresses are executable and the target is free; then it owns the target; failure changes nothing global; all other hooks stay as they are |
| Int3Veh.Hook.Disable | src/int3veh.cpp:107-140 | frees the target and restores its byte; the handler goes with the last hook; all other hooks stay as they are |
| Int3Veh.Serve | src/int3veh.cpp:18-140 | any requests on any objects: which are enabled on which targets, exactly; active targets are theirs, with their detours, code bytes are INT 3 there and original elsewhere, and the handler is installed iff there is one |
| Int3Veh.ActiveIsTaken | src/int3veh.cpp:18-22 | the module's targets are exactly those of enabled objects, with their detours |

## Left out

- Hooks.OriginRunsOriginal: says nothing about a run of the target that comes back to the patched bytes, or calls a function that behaves otherwise in the patched process, because there the patched code does differ from the original.
- Simulation.OnlySimulates: asks that the machine give the target's code a meaning for as many steps as the trampoline took.
- TrampolineHook.Trampoline.Enable: asks that the 35 bytes from the target on, the most that relocation reads, be mapped and outside the allocator's blocks, so hooking a trampoline is not modelled; and that the allocation granularity be more than a page, as it is on Windows.
- TrampolineHook.Trampoline.RelocateLoop: promises nothing about memory once a store has missed its buffer, because the C++ program does not.
- Allocator.Memory.AllocateBuffer: origin is a user-mode address, so adding the range to it does not wrap.
- Allocator.Memory.FreeBuffer: `VirtualFree` always succeeds.
- Int3Veh.Hook.Enable: assumes that only the module writes the hooked bytes and that `AddVectoredExceptionHandler` succeeds.
- Disasm.Disassemble: is proved to follow `OpcodeMap`, which is what the shipped table says and not what the Intel manuals do; they differ where the table is older than the processors (0F 38, 0F 3A and VEX are undefined in it, 0F B8 has no operand).
- The external build (`WINHOOKUPP_EXTERNAL_USAGE`): the same algorithms through cross-process reads and writes.
- The x86 build and the 32-bit decoder: the same shape with fewer cases.
- src/veh.cpp: guard pages are the operating system's semantics, and its map logic is a weaker form of the breakpoint hooks.
- src/vmt.cpp: one store into a table after a linear scan.
- Page protection in `Read` and `Patch`, instruction-cache flushing, exception dispatch: byte reads and writes take effect as written.
- Concurrency: all runs are sequential.
- The destructors of `Memory` and `Trampoline`, and `queueEnable_` beyond its being cleared.
- Code that inspects its own return address, that reads the patched bytes as data, or that a system call calls back into, and instructions outside `X64.Covered`.
- The address that a CALL pushes: a call in the trampoline returns into the trampoline.

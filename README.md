# x86rs core, modelled in Dafny

x86rs simulates a small x86-64-style processor. The repository holds two generations of it:

- the simulator (`simulator/`), whose decoder is generated from an opcode table by a procedural macro (`simulator-macros/`);
- the older tree (`src/`), with a hand-written decoder.

This project models the core of both trees and proves properties of the model.

- **Physical memory** (`Physical`). The ordered range table routes each access to a RAM or ROM module. The simulator's RAM is sparse 4 KiB pages; the older tree's RAM is flat. The `PhysicalMemoryManagementUnit` class owns the modules and updates them in place.
- **Virtual memory** (`Paging`, `FrameMemory`). The canonical-address check, the four-level page walk with 9-bit indices, entries tested only on bit 0 and masked with `0x7FFF_FFFF_FFFF_F000`, byte-wise little-endian multi-byte reads and writes, and `swi4`. The `MemoryManagementUnit` class holds the page-table root.
- **Interrupts** (`Interrupts`, `Cpu`, `FrameReturn`). Fault kinds and their vectors, the canonical check, the `Display` text and the 16-byte descriptor layout. Interrupt delivery: descriptor read at `idt + 16 * vector`, the present and privilege checks, the stack choice, the four-word frame, the commit, and the escalation to a double fault and then a halt. `iret` reads back the frame.
- **The simulator's processor** (`Simulator`, `StepProperties`). Register reads and writes at every width, operand addresses, every instruction of the opcode table plus the push/pop arms of the step, the pending IRQ line, and `step_instruction`. A `ProcessorState` class executes each step in place and is proved equal to a value-level step function.
- **The simulator's decoder** (`Decoder`, `Macros`, `Dispatch`). REX, ModR/M and SIB parsing with displacements and immediates, the parsing of the opcode table by the macro, the grouping of table lines by opcode byte, and the dispatch rules of the generated decoder: prefixes, reg-field extensions, and the choice by REX.W and 0x66.
- **Port devices** (`Devices`). The port map, byte and double-word routing, and the timer's counter loaded one byte lane at a time.
- **The older tree** (`LegacyDecode`, `LegacyState`, `LegacyFrames`). The prefix loop decoder, `read_rm`/`write_rm` with their byte mask, and `step_instruction`.

Machine words are bounded integers. Arithmetic that wraps is written out modulo 2^64, as in a release build of the source. Bitwise operators are defined bit by bit. Behaviour the code has that looks unintended is kept as written and stated as such. Examples:

- the 16-bit register write masks with `0xFF`, so it XORs the value's high byte into bits 8..15 (`Simulator.RegWrite16Merge`);
- 64-bit `pop` adds 2 to rsp;
- an 8-bit displacement is zero-extended;
- the address-size override masks to 16 bits;
- the older decoder swaps the names of the 2E and 3E prefixes;
- the older `mov r/m32, r32` keeps the upper half of a register target.

Outside inputs are parameters:

- for the simulator, the pending IRQ line is a field of the processor;
- for the older tree, the byte a port answers an `in` with is an input to the step, and the port access the step makes is part of its result.

A stop of the simulator (`fatal`, a triple fault, a `todo!` or an index panic) is a halt outcome.

The simulator's step matches `PopReg16`, `PopReg64`, `PushReg16` and `PushReg64`, which the opcode table does not define. The model's instruction type holds the table's thirty variants plus these four. The decoder never yields the four; the step gives them the meaning the step's arms have. The older step is modelled without `Swi4` and `Wrcr`, which its decoder never produces.

## Model

| member | source | states |
|---|---|---|
| Interrupts.IsCanonical | src/interupt.rs:33-40 | a rejected address fails with GeneralProtection |
| Interrupts.HighBitsIsQuotient | src/interupt.rs:34 | `address >> 47` is the quotient by 2^47 |
| Interrupts.IsCanonicalIffSignExtended | src/interupt.rs:33-40 | the check accepts exactly the addresses equal to the sign extension of their low 48 bits (bits 63..47 all equal) |
| Interrupts.QuotientHalves | src/interupt.rs:34-35 | `address >> 47` is 0 exactly below 2^47 and 0x1FFFF exactly from 0xFFFF_8000_0000_0000 up |
| Interrupts.SignExtendedHalves | src/interupt.rs:33-40 | the sign-extended addresses are the two canonical halves |
| Interrupts.CanonicalBoundaries | src/interupt.rs:34-38 | 0x0000_7FFF_FFFF_FFFF and 0xFFFF_8000_0000_0000 are accepted; 0x0000_8000_0000_0000 and 0xFFFF_7FFF_FFFF_FFFF are GeneralProtection |
| Interrupts.Hex | src/interupt.rs:26 | `{:X}` is a non-empty string of upper-case hex digits with no leading zero |
| Interrupts.ParseHexOfHex | src/interupt.rs:26 | reading the hex digits back gives the number |
| Interrupts.DisplayPageFault | src/interupt.rs:26 | a page fault prints as `PF(code, cr2)` with both fields in upper-case hex |
| Interrupts.ParseDisplayOfDisplay | src/interupt.rs:22-31 | the printed form determines the interrupt: parsing inverts `Display` for GP, UD, DF and PF |
| Interrupts.Display | src/interupt.rs:22-31 | the `Display` text of an interrupt; `ParseDisplayOfDisplay` inverts it, `DisplayInjective` shows distinct interrupts print differently and `DisplayPageFault` gives the page-fault text |
| Interrupts.DisplayInjective | src/interupt.rs:22-31 | distinct interrupts print differently |
| Interrupts.EncodeDescriptor | src/interupt.rs:42-56 | the byte image of a descriptor is 16 bytes |
| Interrupts.DecodeDescriptor | simulator/src/state.rs:185 | the `transmute` of the 16 descriptor bytes; `DecodeEncodeDescriptor` proves it inverts the byte image and `DescriptorIgnoresPadding` that bytes 3..7 do not matter |
| Interrupts.DecodeEncodeDescriptor | src/interupt.rs:42-56 | decoding the byte image (present byte 0, disable_interrupt byte 1, rpl byte 2 as i8, service routine bytes 8..15 little-endian) gives the entry back |
| Interrupts.DescriptorIgnoresPadding | src/interupt.rs:42-56 | the padding bytes 3..7 do not affect the decoded entry |
| Interrupts.VectorAndError | simulator/src/state.rs:171-180 | an IRQ uses its line and error 0; a page fault uses vector 0x0E and its error code; every other kind pushes error 0 |
| Physical.CreateSparseRam | simulator/src/memory.rs:26-31 | the simulator's RAM ignores its size argument; the new module serves any offset of that size |
| Physical.CreateFlatRam | src/memory.rs:22-33 | the older tree's RAM halts exactly when the size exceeds `isize::MAX`; otherwise it is `size` zero bytes |
| Physical.CreateRom | simulator/src/memory.rs:53-70 | a ROM halts exactly when the size exceeds `isize::MAX` or the prefix is longer than the size; otherwise it has `size` bytes |
| Physical.PageKeyAndIndex | simulator/src/memory.rs:33-46 | the page key is the address with its low 12 bits cleared and the in-page index is the address modulo 4096 |
| Physical.PageSlotInjective | simulator/src/memory.rs:33-46 | two addresses with the same page key and the same in-page index are equal, so sparse pages never alias |
| Physical.ModuleWrite | simulator/src/memory.rs:44-46 | a byte write keeps the kind of the module and the size of a flat RAM or ROM |
| Physical.FreshRamReadsZero | simulator/src/memory.rs:26-42 | fresh RAM of either tree reads 0 at every offset |
| Physical.RomContents | simulator/src/memory.rs:53-75 | a ROM reads its prefix, then zeros |
| Physical.ModuleReadWrite | simulator/src/memory.rs:39-77 | after a write, RAM returns the written byte at that offset, a ROM is unchanged, and every other offset keeps its byte |
| Physical.AtMostBound | simulator/src/memory.rs:116-120 | a key is at most `(address, u64::MAX)` exactly when its begin is at most the address |
| Physical.Floor | simulator/src/memory.rs:116-120 | the entry found has a key at most `(address, u64::MAX)` and every such key is at most it; none is found only when no key qualifies |
| Physical.Serving | simulator/src/memory.rs:116-123 | a serving entry's range covers the address: `begin <= address < end` |
| Physical.ServingInBounds | src/memory.rs:113-121 | the lookup only passes a module an offset below its range size, so the "in bounds due to MMU check" indexing holds |
| Physical.PhysWrite | simulator/src/memory.rs:130-140 | a physical write keeps the number of entries and that every module fits its range |
| Physical.PhysReadBytes | simulator/src/memory.rs:126-128 | byte `i` of an `n`-byte physical read is the byte at `address + i`, wrapping |
| Physical.PhysWriteBytes | simulator/src/memory.rs:142-148 | the byte-wise physical write keeps every key and the fit of every module |
| Physical.PhysWriteBytesStep | simulator/src/memory.rs:142-148 | writing `n + 1` bytes is writing `n` bytes, then byte `n` at `address + n` |
| Physical.PhysReadAfterWrite | simulator/src/memory.rs:116-140 | a physical write changes the byte it targets when RAM serves it, and no other address |
| Physical.PhysReadAfterWriteSame | simulator/src/memory.rs:116-140 | reading back the written address gives the value on RAM and the old byte on ROM or an unmapped address |
| Physical.PhysReadAfterWriteOther | simulator/src/memory.rs:116-140 | a physical write leaves every other address's byte unchanged |
| Physical.OtherOffsetSameModule | simulator/src/memory.rs:116-140 | a write through a module leaves the module's other offsets unchanged |
| Physical.FloorSameKeys | simulator/src/memory.rs:116-120 | the range lookup depends only on the keys, so writes never change which module serves an address |
| Physical.PhysReadAt | simulator/src/memory.rs:116-124 | a read of a served address is the module's read at `address - begin` |
| Physical.PhysRead | simulator/src/memory.rs:116-124 | the PMU's `read_u8`; `PhysReadAt` states the serving module's byte or 0xFF, and `PhysReadAfterWrite` relates it to `PhysWrite` |
| Physical.PhysWriteAt | simulator/src/memory.rs:130-140 | a write to a served address replaces only that module by its write at `address - begin` |
| Physical.Insert | simulator/src/memory.rs:112-113 | after `BTreeMap::insert` the map holds the new entry |
| Physical.PhysicalMemoryManagementUnit.constructor | simulator/src/memory.rs:97-101 | a new unit has no ranges |
| Physical.PhysicalMemoryManagementUnit.Add | simulator/src/memory.rs:103-114 | `add` halts exactly when `base + size` overflows 64 bits; otherwise it inserts the module under `(base, base + size)`, replacing one added before under that key |
| Physical.PhysicalMemoryManagementUnit.WriteU8 | simulator/src/memory.rs:130-140 | the new entries are the physical write of the old ones |
| Physical.PhysicalMemoryManagementUnit.WriteU64 | simulator/src/memory.rs:142-148 | the eight little-endian bytes are written at `address + i`, in order |
| Physical.WriteWellFormed | simulator/src/memory.rs:130-140 | a byte write keeps the keys distinct |
| Physical.InsertWellFormed | simulator/src/memory.rs:112-113 | inserting a fitting module keeps the keys distinct and every module fitting |
| Physical.InsertEntries | simulator/src/memory.rs:113 | every entry after an insertion is either the new entry or the entry at the same position before |
| Physical.InsertedServes | simulator/src/memory.rs:103-124 | after adding a module, an address inside its range reaches that module when no other key lies between |
| Paging.ExtractAddress | simulator/src/memory.rs:164-180 | a successful `extract_address` yields at most the frame mask `0x7FFF_FFFF_FFFF_F000` |
| Paging.Levels | simulator/src/memory.rs:189-193 | the four chained `extract_address` calls end at most at the frame mask |
| Paging.ByteAddressSmall | simulator/src/memory.rs:212-215 | the address of byte `i` is `va + i` when that does not wrap |
| Paging.ByteReads | simulator/src/memory.rs:212-215 | an `n`-byte read issues exactly `n` single-byte reads |
| Paging.VirtWrite | simulator/src/memory.rs:217-220 | a successful virtual write keeps the number of entries and every module fitting |
| Paging.WriteFrom | simulator/src/memory.rs:238-244 | the byte loop keeps the number of entries and every module fitting, also when it stops at a fault |
| Paging.MemoryManagementUnit.constructor | simulator/src/memory.rs:157-162 | a new unit owns the given physical unit and its page-table root is 0 |
| Paging.MemoryManagementUnit.WriteU8 | simulator/src/memory.rs:217-220 | on a fault memory is unchanged and the fault is returned; otherwise memory is the physical write at the translated address |
| Paging.MemoryManagementUnit.WriteBytes | simulator/src/memory.rs:238-244 | the new memory and the result are those of the byte-wise write from byte 0 |
| Paging.MemoryManagementUnit.WriteU16 | simulator/src/memory.rs:222-228 | the two little-endian bytes are written one by one, stopping at the first fault |
| Paging.MemoryManagementUnit.WriteU32 | simulator/src/memory.rs:230-236 | the four little-endian bytes are written one by one, stopping at the first fault |
| Paging.MemoryManagementUnit.WriteU64 | simulator/src/memory.rs:238-244 | the eight little-endian bytes are written one by one, stopping at the first fault |
| Paging.MemoryManagementUnit.Swi4 | simulator/src/memory.rs:246-248 | `swi4` replaces the page-table root used by later walks |
| Paging.TableIndexIsField | simulator/src/memory.rs:184-187 | the index `(va >> shift) & 0x1FF` is bits `shift + 8` down to `shift` of the address |
| Paging.PageOffsetIsField | simulator/src/memory.rs:188 | the offset `va & 0xFFF` is bits 11..0 of the address |
| Paging.EntryPresence | simulator/src/memory.rs:172-177 | an entry faults exactly when bit 0 is clear, with `PageFault{error_code: 0, cr2: va}` |
| Paging.EntryFrame | simulator/src/memory.rs:179 | a present entry yields `entry & 0x7FFF_FFFF_FFFF_F000` |
| Paging.FrameBounds | simulator/src/memory.rs:179 | that address is 4 KiB aligned and at most the frame mask |
| Paging.EntryIgnoresFlagBits | simulator/src/memory.rs:172-179 | entries that agree in bit 0 and in bits 62..12 say the same thing: no other bit affects translation |
| Paging.NonCanonicalFaults | simulator/src/memory.rs:182-183 | an address in the non-canonical hole faults with GeneralProtection for translate, read and write, whatever memory holds |
| Paging.ExtractIsStep | simulator/src/memory.rs:164-180 | one `extract_address` is one step of the reference walk: entry at `table + 8 * index` |
| Paging.WalkTail | simulator/src/memory.rs:191-193 | the last three levels of the walk chain the steps over bits 38..30, 29..21 and 20..12 |
| Paging.Step | simulator/src/memory.rs:164-180 | one level of the reference walk, reading the entry at `table + 8 * index` and stated with arithmetic (`entry % 2`, the frame bits) rather than masks; `ExtractIsStep` proves `extract_address` equal to it |
| Paging.LevelsAreWalk | simulator/src/memory.rs:184-193 | the four levels of `translate` are the reference walk over bits 47..39, 38..30, 29..21 and 20..12 |
| Paging.TranslateIsWalk | simulator/src/memory.rs:182-195 | `translate` is GeneralProtection for a non-canonical address, else the walk's fault, else the walk's frame plus bits 11..0 |
| Paging.Translate | simulator/src/memory.rs:182-195 | `translate`: the canonical check, the four `extract_address` levels and the page offset; `TranslateIsWalk` equates it with the reference `Walk`, `TranslateFaults` says when it faults and `TranslateKeepsOffset` that it keeps the low 12 bits |
| Paging.WalkOutcome | simulator/src/memory.rs:172-179 | the walk fails only with a page fault for the walked address, and each level lands on a page boundary at most the frame mask |
| Paging.AlignedPlusOffset | simulator/src/memory.rs:194 | a page-aligned frame plus the page offset keeps that offset and stays below 2^63 |
| Paging.TranslateKeepsOffset | simulator/src/memory.rs:182-195 | a successful translation keeps bits 11..0 and lands below 2^63 |
| Paging.TranslateFaults | simulator/src/memory.rs:182-195 | a failed translation is GeneralProtection for a non-canonical address and otherwise `PageFault(0, va)` |
| Paging.FirstPageStep | src/memory.rs:161-177 | in the first page every index is 0, so a present entry at `table` leads to the frame it names |
| Paging.FirstPageIndex | src/memory.rs:181-184 | every level's index of an address below 4096 is 0 |
| Paging.ChainedTablesExample | src/decode.rs:293-307 | with entries 0x1001, 0x2001, 0x3001 and 0x4001 at physical 0, 0x1000, 0x2000 and 0x3000, virtual `k` in the first page maps to physical `0x4000 + k` |
| Paging.LowHalfIsCanonical | src/interupt.rs:33-40 | every address below 2^47 is canonical |
| Paging.TranslateOfLevels | src/memory.rs:179-192 | a canonical address whose four levels reach `page` translates to `page` plus its offset |
| Paging.FirstPageLevels | src/memory.rs:186-190 | with the four chained entries at 0, 0x1000, 0x2000 and 0x3000, the levels of a first-page address reach 0x4000 |
| Paging.FrameOfPresent | src/memory.rs:176 | a present entry `0x1000 k + 1` names page `k` |
| Paging.ByteReadsAt | simulator/src/memory.rs:212-215 | entry `i` of the byte reads is the single-byte read at `va + i` |
| Paging.TryCollectOk | simulator/src/memory.rs:212-215 | `try_from_fn` succeeds exactly when every byte read does, and then yields those bytes in order |
| Paging.TryCollectFirstError | simulator/src/memory.rs:212-215 | a failed `try_from_fn` reports the error of the first byte that has one |
| Paging.VirtReadBytesOk | simulator/src/memory.rs:212-215 | `n` bytes are read exactly when each of the `n` byte addresses translates, and byte `i` is the read at `va + i` |
| Paging.VirtReadBytes | simulator/src/memory.rs:202-215 | the bytes of `try_from_fn(read_u8(va + i))`; `VirtReadBytesOk` and `VirtReadBytesFirstFault` state the result and the fault in full |
| Paging.VirtReadBytesFirstFault | simulator/src/memory.rs:212-215 | a failed multi-byte read reports the fault of the first byte address that does not translate |
| Paging.VirtReadNValue | simulator/src/memory.rs:202-215 | a successful `n`-byte read returns the value below 256^n whose little-endian bytes are the bytes read |
| Paging.WriteFromFault | simulator/src/memory.rs:238-244 | a multi-byte write that faults at byte `k` leaves the memory of the successful write of bytes `0..k-1`, and byte `k` faults in that memory |
| Paging.PrefixDone | simulator/src/memory.rs:238-244 | a byte loop that starts at the end of its bytes writes nothing |
| Paging.PrefixStep | simulator/src/memory.rs:238-244 | a successful first byte hands the remaining loop the memory that byte left |
| Paging.WriteFromOne | simulator/src/memory.rs:217-244 | a one-byte loop is `write_u8` |
| Paging.VirtWriteThenPhysRead | simulator/src/memory.rs:217-220 | after a single-byte write to an address that translates, its physical byte holds the value when RAM serves it |
| Paging.ReadShrinksRun | simulator/src/memory.rs:197-200 | a byte that can be read lies in the canonical run, and the next address has one address less left in it |
| Paging.VirtReadBytesFaultAt | simulator/src/memory.rs:212-215 | a read whose bytes before `i` translate and whose byte `i` does not fails with the fault of byte `i` |
| Paging.VirtReadBytesOf | simulator/src/memory.rs:212-215 | when byte `i` reads as `bs[i]` for every `i`, the multi-byte read yields `bs` |
| Paging.VirtReadBytesOfRun | simulator/src/memory.rs:212-215 | the same, for addresses that do not wrap past the top of the address space |
| Paging.VirtReadBytesStep | simulator/src/memory.rs:212-215 | a successful read of `i` bytes followed by a successful byte `i` is the read of `i + 1` bytes |
| Paging.VirtReadBytesFaultAfter | simulator/src/memory.rs:212-215 | a successful read of `i` bytes followed by a fault at byte `i` makes every longer read fail with that fault |
| Paging.ReadBytesInto | src/state.rs:183-186 | the byte loop at `ip + size` returns the first fault, or fills the first `n` buffer slots with the bytes read and leaves the rest |
| FrameMemory.WalkEntries | simulator/src/memory.rs:182-195 | the walk reads at most one entry per level, the first at `table + 8 * index` |
| FrameMemory.WriteKeepsEntry | simulator/src/memory.rs:126-140 | a byte write outside an 8-byte entry leaves the entry's value as it was |
| FrameMemory.WalkStable | simulator/src/memory.rs:164-195 | a walk depends only on the entries it reads: equal values there give the same walk |
| FrameMemory.WriteKeepsTranslation | simulator/src/memory.rs:182-220 | a physical write to a byte no entry of the walk covers changes neither where the address translates to nor the entries read |
| FrameMemory.WriteKeepsWalk | simulator/src/memory.rs:182-220 | the same, for the four-level walk itself |
| FrameMemory.SameWalkSamePage | simulator/src/memory.rs:182-195 | two memories whose walks agree translate the address to the same byte |
| FrameMemory.WriteKeepsKinds | simulator/src/memory.rs:130-140 | a physical write keeps every module's range and kind |
| FrameMemory.RamSameKinds | simulator/src/memory.rs:116-140 | whether a byte is RAM depends only on the ranges and kinds |
| FrameMemory.StillMapped | simulator/src/memory.rs:182-220 | where only a mapped run was written, each byte of the run still translates to its physical byte, which is still RAM |
| FrameMemory.WriteOther | simulator/src/memory.rs:130-140 | writing one byte of a run of distinct physical bytes leaves the other bytes of the run alone |
| FrameMemory.WriteSame | simulator/src/memory.rs:130-140 | writing a RAM byte of a run stores the value |
| FrameMemory.Planned | simulator/src/memory.rs:238-244 | the planned physical writes of a byte sequence keep every module fitting |
| FrameMemory.PlannedOutside | simulator/src/memory.rs:238-244 | the planned writes leave the run's bytes outside their span as they were |
| FrameMemory.PlannedInside | simulator/src/memory.rs:238-244 | the planned writes leave each byte of their span holding its byte of the sequence |
| FrameMemory.WriteRun | simulator/src/memory.rs:238-244 | bytes written from a byte of a mapped run that has room for them do not fault, and leave the memory of the planned physical writes |
| FrameMemory.RunStep | simulator/src/memory.rs:238-244 | one byte of that write is the physical write of the matching byte of the run |
| FrameMemory.WriteFromStep | simulator/src/memory.rs:238-244 | a successful byte `i` hands the rest of the loop the memory that byte left |
| FrameReturn.SlotOfWord | simulator/src/state.rs:195-204 | frame word `k` is written `24 - 8 k` bytes above the frame base `S - 32` |
| FrameReturn.PushStep | simulator/src/state.rs:195-204 | pushing word `k` of the frame is the planned physical writes of its eight bytes, and writes only the frame |
| FrameReturn.PushWrites | simulator/src/state.rs:195-204 | the pushes of words `k..3` onto a mapped frame do not fault and write only the frame |
| FrameReturn.PushKeeps | simulator/src/state.rs:195-204 | the pushes of words `k..3` leave the frame bytes above word `k` as they were |
| FrameReturn.PushStoresFirst | simulator/src/state.rs:195-204 | pushing words `k..3` leaves the bytes of word `k` holding that word |
| FrameReturn.PushStores | simulator/src/state.rs:195-204 | once words `k..3` are pushed, the bytes of every word `m >= k` hold that word |
| FrameReturn.ReadBackByte | simulator/src/memory.rs:197-200 | a byte of the run holding a word's byte reads back through the page tables as that byte |
| FrameReturn.ReadBack | simulator/src/memory.rs:212-215 | eight bytes of the run holding a word read back through the page tables as its bytes |
| FrameReturn.ReadWord | simulator/src/memory.rs:212-215 | a 64-bit read of eight bytes that are a word's little-endian bytes gives the word |
| FrameReturn.FramePushed | simulator/src/state.rs:195-204 | the four pushes of a frame mapped to distinct RAM bytes succeed and write only the frame |
| FrameReturn.FrameHolds | simulator/src/state.rs:195-204 | after the four pushes the eight bytes of each word's slot hold that word |
| FrameReturn.FrameBytesRead | simulator/src/state.rs:195-204 | after the four pushes the bytes of each frame word read back through the page tables |
| FrameReturn.FrameWordReads | simulator/src/state.rs:326-329 | in the core after the pushes, frame word `k` reads back from its slot |
| FrameReturn.SlotAbove | simulator/src/state.rs:326-329 | bytes 8, 16 and 24 of the frame are `rsp + 8`, `rsp + 16` and `rsp + 24`, wrapping, as `iret` computes them |
| FrameReturn.FrameWordsRead | simulator/src/state.rs:195-204 | in the core after the pushes every frame word reads back from its slot |
| FrameReturn.ReturnFrameOf | simulator/src/state.rs:326-329 | when the three reads of `iret` give frame words 2, 1 and 0, the frame it reads is rip, the flags word and the old rsp |
| FrameReturn.FrameReadBack | simulator/src/state.rs:326-333 | with rsp at the frame base, `iret` reads back rip, the flags word and the old rsp |
| FrameReturn.ReturnAfterEntry | simulator/src/state.rs:195-207 | `iret` right after a successful entry, with the frame mapped to distinct RAM bytes outside the page tables, restores rip, every register and the level, and sets rflags to the pushed flags word, unmasked |
| Cpu.PushFrom | simulator/src/state.rs:195-204 | the frame writes keep the number of entries and every module fitting, also when one faults |
| Cpu.EnterHandler | simulator/src/state.rs:182-208 | a missing, non-present or `rpl < cpl` descriptor fails with nothing written; a failed entry changes only memory; a successful one commits rip = service routine, rsp = frame base, cpl = 0 and keeps everything else |
| Cpu.Deliver | simulator/src/state.rs:166-217 | delivery ends at level 0, records cr2 only for a page fault, keeps flags, interrupt stack, table and root; a double fault halts exactly when its own entry fails |
| Cpu.RejectedBecomesDoubleFault | simulator/src/state.rs:186-188 | an unreadable, non-present or `rpl < cpl` descriptor turns any other interrupt into a double fault, with only a page fault's cr2 kept |
| Cpu.HaltsOnlyAfterDoubleFault | simulator/src/state.rs:209-215 | an interrupt other than a double fault halts exactly when both its own entry and the double fault's entry fail |
| Cpu.EnteredStack | simulator/src/state.rs:189-206 | after entry rsp is the frame base below the chosen stack (current rsp at level 0 or below, the interrupt stack above) and no other register changes |
| Cpu.FlagsWordRoundTrip | simulator/src/state.rs:197-200 | with flags below 2^32 the pushed word carries the level in bits 32..39 and the flags below them |
| Cpu.FlagsWord | simulator/src/state.rs:199 | the pushed word `((cpl as i64 as u64) << 32) | rflags`; `FlagsWordRoundTrip` recovers the level and the flags from it, and `FlagsWordAtLevelZero` shows it is the flags at level 0 |
| Cpu.I8LowByte | simulator/src/state.rs:199 | the low byte of a sign-extended i8, read back as an i8, is the i8 |
| Cpu.FlagsWordAtLevelZero | simulator/src/state.rs:197-200 | at level 0 the pushed word is the flags themselves, so `iret` takes the new level from bits 32..39 of the flags |
| Cpu.FlagsWordHighBits | simulator/src/state.rs:325-337 | flags `k * 2^32` pushed at level 0, for `k < 0x80`, come back as level `k` |
| Cpu.Core.constructor | simulator/src/state.rs:153-164 | a new processor has every register and field zero |
| Cpu.Core.Interrupt | simulator/src/state.rs:166-217 | `interrupt` halts exactly when delivery does, and otherwise leaves the delivered state |
| Cpu.Core.ReadDescriptor | simulator/src/state.rs:181-185 | the sixteen byte reads at `idt + 16 * vector` give the decoded descriptor, or none on a fault |
| Cpu.Core.Enter | simulator/src/state.rs:186-207 | the checks, the frame and the commit leave exactly the state of the functional entry |
| Cpu.Core.PushFrame | simulator/src/state.rs:195-204 | the four frame writes leave the memory of the functional push and succeed exactly when it does |
| Devices.NewTimer | simulator/src/device.rs:44-50 | a new timer has counter 0, mode 0 and the given IRQ line |
| Devices.DeviceOut | simulator/src/device.rs:65-77 | a device write stops the simulator (the `unreachable!()` arm) exactly for a timer at a local port above 4, and keeps the device a timer or a console; the lane loads are `PortOutTimer` and `LoadLaneReplacesByte` |
| Devices.DeviceIn | simulator/src/device.rs:28-34 | the console hands out its queued input bytes and 0xFF once they run out, changing nothing then; a timer answers 0xFF and is unchanged (`TimerReadsAllOnes`) |
| Devices.LoadLane | simulator/src/device.rs:67-70 | the XOR update of one byte lane of the counter; `LoadLaneReplacesByte` proves it replaces exactly byte `k` and `LoadLaneArith` gives its arithmetic value |
| Devices.LastIndex | simulator/src/device.rs:102-104 | the position of the last occurrence of a port in a list: it holds that port and no later entry does |
| Devices.PortOut | simulator/src/device.rs:107-111 | a byte write keeps which registered devices are timers; it stops the simulator exactly when the port is routed to a timer at a local port above 4, and then changes no device |
| Devices.PortOutBytes | simulator/src/device.rs:113-119 | the bytes of `out_u32` keep which devices are timers; when they stop the simulator is `PortOutBytesHalts` |
| Devices.PortIn | simulator/src/device.rs:121-126 | routing a byte read keeps the number of registered devices |
| Devices.PortDevices.constructor | simulator/src/device.rs:89-94 | a new bus has no devices and no port mappings |
| Devices.PortDevices.Add | simulator/src/device.rs:96-105 | the device is appended, every listed port is mapped to its index, and the bus keeps routing only to registered devices |
| Devices.PortDevices.OutU8 | simulator/src/device.rs:107-111 | the port map is unchanged; the devices and whether the simulator stops are those of the routed byte write |
| Devices.PortDevices.OutU32 | simulator/src/device.rs:113-119 | the port map is unchanged; the devices and whether the simulator stops are those of writing the value's four little-endian bytes to four consecutive (wrapping) ports, the loop ending at the first byte that stops it |
| Devices.PortDevices.InU8 | simulator/src/device.rs:121-126 | the port map is unchanged; the byte and the new devices are those of the routed read |
| Devices.LoadLaneReplacesByte | simulator/src/device.rs:66-70 | a timer byte write to lane `k` replaces exactly byte `k` of the counter's little-endian bytes |
| Devices.LoadLaneArith | simulator/src/device.rs:66-70 | a lane load adds `(byte - old lane) * 256^k` to the counter |
| Devices.LoadLaneField | simulator/src/device.rs:66-70 | a lane load replaces bits `8k..8k+7` of the counter by the byte and keeps the other bits |
| Devices.LaneMasks | simulator/src/device.rs:66-70 | the lane mask `0xFF << 8k` equals `2^(8k+8) - 2^(8k)` |
| Devices.AddPortsLookup | simulator/src/device.rs:100-104 | after `add`, a listed port maps to the new device at the position of its last occurrence (a re-listed port is overwritten), and every other port keeps its old mapping or stays unmapped |
| Devices.AddPortsRouted | simulator/src/device.rs:100-104 | after `add`, every mapping points to a registered device |
| Devices.UnmappedPort | simulator/src/device.rs:107-126 | a write to an unmapped port changes no device and does not stop the simulator; a read from one returns 0xFF and changes no device |
| Devices.TimerReadsAllOnes | simulator/src/device.rs:79-81 | a timer read returns 0xFF and leaves the timer unchanged |
| Devices.TimerLoadU32 | simulator/src/device.rs:113-119 | `out_u32` to a timer mapped on four consecutive ports as lanes 0..3 does not stop the simulator and loads the counter with the whole value |
| Devices.TimerLoadPrefix | simulator/src/device.rs:113-119 | after the first `n` bytes of `out_u32` the simulator has not stopped, the timer's low `n` counter bytes are the value's and the rest are unchanged |
| Devices.HaltedStays | simulator/src/device.rs:113-119 | once a byte of `out_u32` has stopped the simulator, the later bytes change nothing |
| Devices.PortOutBytesHalts | simulator/src/device.rs:113-119 | `out_u32` stops the simulator exactly when one of its ports is routed to a timer at a local port above 4 |
| Devices.PortOutTimer | simulator/src/device.rs:66-70 | a byte written to a port mapped to lane `k` of a timer does not stop the simulator and loads that lane |
| Simulator.Limit | simulator/src/state.rs:237-251 | the bound of a width is `256` to the width's byte count |
| Simulator.WrappingInc | simulator/src/state.rs:309-324 | `wrapping_add(1)` stays below the width's bound and is zero exactly from the largest value, otherwise one more |
| Simulator.RegRead | simulator/src/state.rs:237-251 | reading a register at a width is the register modulo the width's bound (the `as u8`/`as u16`/`as u32` truncation) |
| Simulator.RegWriteRead | simulator/src/state.rs:219-235 | an 8-bit write keeps bits 8..63 and replaces the low byte; a 32-bit write clears the upper half; reading back at the width (8, 32, 64 bits) gives the value written |
| Simulator.RegWrite16Merge | simulator/src/state.rs:224-227 | for every register and 16-bit value, `write_reg_u16` (the 8-bit mask `h ^= (h & 0xFF) ^ value`) leaves the value's low byte in bits 0..7, the old bits 8..15 XOR the value's high byte in bits 8..15, and bits 16..63 unchanged; so it reads back as the value exactly when the old bits 8..15 were zero |
| Simulator.RegWrite16Merges | simulator/src/state.rs:224-227 | an instance of `RegWrite16Merge`: writing 0x100 over a register holding 0x100 reads back 0, not the value written |
| Simulator.SetReg | simulator/src/state.rs:219-235 | a register write keeps the register file well formed (16 registers, all 64-bit) |
| Simulator.MemOverride | simulator/src/state.rs:76-100 | with the address-size override a base/index operand address is the full address modulo 2^16 |
| Simulator.RipRelOverride | simulator/src/state.rs:65-74 | with the override a rip-relative address truncates only rip to 16 bits and then adds the displacement |
| Simulator.ReadMem | simulator/src/memory.rs:197-215 | a memory read at a width succeeds exactly when the byte read through the memory unit does, and its value is the little-endian reading of those bytes, below the width's bound |
| Simulator.WriteMem | simulator/src/memory.rs:217-244 | a memory write changes only the physical memory of the state |
| Simulator.ReadRm | simulator/src/state.rs:106-148 | an operand read is below the width's bound, and a register operand reads the register truncated to the width |
| Simulator.WriteRm | simulator/src/state.rs:62-104 | a register operand is a register write that cannot fail; a memory operand changes only physical memory |
| Simulator.Execute | simulator/src/state.rs:267-449 | executing an instruction keeps the state well formed and the number of devices |
| Simulator.Increment | simulator/src/state.rs:309-324 | `inc r/m`; `StepProperties.IncrementRegister` proves a register operand of 8, 32 or 64 bits afterwards holds the old value plus one, wrapped at the width |
| Simulator.Return | simulator/src/state.rs:325-337 | `iret`; `FrameReturn.ReturnAfterEntry` proves that after interrupt entry it restores rip, rsp, the flags word and the level |
| Simulator.Pop | simulator/src/state.rs:414-425 | `pop`; `PopMovesStack` proves it raises rsp by 2 at either width, as written |
| Simulator.Push | simulator/src/state.rs:426-437 | `push`; `PushMovesStack` proves rsp moves down by the width even when the write faults |
| Simulator.Move | simulator/src/state.rs:348-391 | the `mov` arms; `MoveImmediate` gives the register after an immediate move and `ProcessorState.MoveInstruction` executes them in place |
| Simulator.Control | simulator/src/state.rs:309-447 | the `inc`, `iret`, `jmp`, `pop`, `push`, `swi4` and `wrcr` arms; `ExecuteControl` routes them here and `JumpRun` states the jump target |
| Simulator.Run | simulator/src/state.rs:266-453 | after decoding, the machine stays well formed and no IRQ is left pending |
| Simulator.StepMachine | simulator/src/state.rs:259-454 | a step keeps the machine well formed and always clears the pending IRQ |
| Simulator.ProcessorState.constructor | simulator/src/state.rs:153-164 | a new processor has all registers, privilege level, interrupt stack, table base, rip and flags zero, over the given memory unit and devices |
| Simulator.ProcessorState.ScheduleInterrupt | simulator/src/state.rs:468-470 | the pending IRQ line becomes the given one |
| Simulator.ProcessorState.StepInstruction | simulator/src/state.rs:259-454 | the processor stops exactly when the step of the value model stops, and otherwise its registers, memory, devices and IRQ are the step's result; the port map is unchanged |
| Simulator.ProcessorState.InterruptMachine | simulator/src/state.rs:166-217 | delivering an interrupt leaves the state that interrupt delivery in the value model gives, or stops exactly when it stops |
| Simulator.ProcessorState.RunDecoded | simulator/src/state.rs:266-453 | executing a decoded instruction (or delivering its decode fault) leaves the state of the value model's run |
| Simulator.ProcessorState.Finish | simulator/src/state.rs:450-453 | after execution rip advances by the size unless the instruction set rip itself, and a fault is delivered |
| Simulator.ProcessorState.ExecuteInstruction | simulator/src/state.rs:267-449 | each instruction leaves the state and status of the value model's execution |
| Simulator.ProcessorState.PortInstruction | simulator/src/state.rs:268-413 | `in` and `out` leave the state of the value model: a general protection fault above level 0, the accumulator's low byte from the device for 8-bit `in`, the byte or the four bytes to the devices for `out` with a stop when a device stops the simulator, and a stop for the unimplemented widths |
| Simulator.ProcessorState.MoveInstruction | simulator/src/state.rs:348-391 | each `mov` form leaves the state of the value model: a truncated immediate, a load from the operand, or a store to it |
| Simulator.ProcessorState.ControlInstruction | simulator/src/state.rs:309-447 | `inc`, `iret`, `jmp`, `pop`, `push`, `swi4` and `wrcr` leave the state of the value model |
| Simulator.ProcessorState.JumpBy | simulator/src/state.rs:338-347 | a jump adds the sign-extended offset to rip, wrapping |
| Simulator.ProcessorState.WriteConfigOperand | simulator/src/state.rs:442-447 | `wrcr` changes nothing; it faults exactly when reading its operand faults |
| Simulator.ProcessorState.SwitchRootOperand | simulator/src/state.rs:438-441 | `swi4` makes the 64-bit operand the page-table root, or raises its read fault and changes nothing |
| Simulator.ProcessorState.WriteReg | simulator/src/state.rs:219-235 | the register file after the write is that of the value model's register write |
| Simulator.ProcessorState.ReadOperand | simulator/src/state.rs:106-148 | an operand read returns the value model's operand read and changes nothing |
| Simulator.ProcessorState.WriteMemory | simulator/src/memory.rs:217-244 | the memory and the result after a write are the value model's, bytes written before a fault kept |
| Simulator.ProcessorState.WriteOperand | simulator/src/state.rs:62-104 | an operand write leaves the state and result of the value model's operand write |
| Simulator.ProcessorState.StoreOperand | simulator/src/state.rs:376-391 | a store leaves the state of the value model and raises its fault |
| Simulator.ProcessorState.InputByte | simulator/src/state.rs:268-274 | `in` stores the device's byte in the low byte of the accumulator |
| Simulator.ProcessorState.IncrementRm | simulator/src/state.rs:309-324 | `inc` reads the operand, adds one wrapping at the width and writes it back; a read fault changes nothing |
| Simulator.ProcessorState.LoadRegister | simulator/src/state.rs:360-375 | `mov reg, r/m` writes the operand's value to the register; a read fault changes nothing |
| Simulator.ProcessorState.StoreRegister | simulator/src/state.rs:376-391 | `mov r/m, reg` writes the register truncated to the width to the operand |
| Simulator.ProcessorState.InterruptReturn | simulator/src/state.rs:325-337 | `iret` takes rip, the flags and rsp from rsp+8, rsp+16 and rsp+24, the privilege level from bits 32..39 of the flags, and does not advance rip; a read fault changes nothing |
| Simulator.ProcessorState.PopRegister | simulator/src/state.rs:414-425 | `pop` reads at rsp, moves rsp up by 2 for both widths, then writes the register; a read fault changes nothing |
| Simulator.ProcessorState.PushRegister | simulator/src/state.rs:426-437 | `push` moves rsp down by the width before writing, so a write fault leaves rsp moved |
| StepProperties.PendingIrqFirst | simulator/src/state.rs:259-265 | a pending IRQ line `n` is taken before any fetch: the step is the delivery of vector `n` with error code 0, the devices are untouched and the line is cleared |
| StepProperties.PortIoNeedsLevelZero | simulator/src/state.rs:268-274 | above privilege level 0 a decoded `in` or `out` raises a general protection fault on the unchanged state, rip still at the instruction |
| StepProperties.PortIoRun | simulator/src/state.rs:268-413 | every port instruction executed above level 0 ends in the delivery of a general protection fault |
| StepProperties.OutToHaltingPortStops | simulator/src/state.rs:392-399 | at level 0, `out` to a port routed to a timer at a local port above 4 reaches the timer's `unreachable!()` and the simulator stops |
| StepProperties.JumpRel8Target | simulator/src/state.rs:338-342 | `jmp rel8` lands at rip plus the sign-extended byte plus the instruction size, wrapping |
| StepProperties.JumpRel32Target | simulator/src/state.rs:343-347 | `jmp rel32` lands at rip plus the sign-extended double word plus the instruction size, wrapping |
| StepProperties.ExecuteControl | simulator/src/state.rs:309-447 | an instruction that is neither port I/O nor a move executes as its control-flow meaning |
| StepProperties.JumpRun | simulator/src/state.rs:338-347 | a jump by `offset` ends at rip + offset + size with nothing else changed |
| StepProperties.InByteKeepsHighBits | simulator/src/state.rs:268-274 | `in al, port` replaces bits 0..7 of rax with the device's byte, keeps bits 8..63 and every other register |
| StepProperties.IncrementRegister | simulator/src/state.rs:309-324 | `inc` on an 8-, 32- or 64-bit register leaves the old value plus one modulo the width's bound and advances |
| StepProperties.MoveImmediate | simulator/src/state.rs:348-359 | `mov reg, imm` at 8, 32 and 64 bits leaves the immediate truncated to the width; the 32-bit form clears bits 32..63 and the 64-bit form sets the whole register; the 16-bit form sets the low byte to the immediate's and keeps bits 16..63 |
| StepProperties.PushMovesStack | simulator/src/state.rs:426-437 | `push` moves rsp down by the width whether or not the write faults and changes no other register or device |
| StepProperties.PopMovesStack | simulator/src/state.rs:414-425 | a `pop` that reads its value moves rsp up by 2 at either width |
| StepProperties.StackDrift | simulator/src/state.rs:420-437 | moving rsp down by 8 and then up by 2 leaves it 6 below, wrapping |
| StepProperties.PushPopDrift | simulator/src/state.rs:420-437 | a 64-bit `push` followed by a 64-bit `pop` leaves rsp 6 below where it started, not where it started |
| Decoder.RexOf | simulator/src/instruction.rs:19-26 | the low nibble of the REX byte is `8w + 4r + 2x + b`: w, r, x and b are bits 3, 2, 1 and 0 |
| Decoder.RexOfW | simulator/src/instruction.rs:19-26 | among the REX bytes 0x40..0x4F, W is set exactly in 0x48..0x4F |
| Decoder.RegField | simulator/src/instruction.rs:260-263 | a 3-bit field extended by a REX flag keeps the field as its low three bits and is 8 or more exactly when the flag is set |
| Decoder.ParseSuffix | simulator/src/instruction.rs:90-93 | the register of an opcode suffix is the opcode's low three bits, 8 or more exactly when REX.B is set |
| Decoder.ParseSib | simulator/src/instruction.rs:106-124 | the SIB byte is `64 scale + 8 index + base` (low three bits of index and base), the high bits of index and base are REX.X and REX.B, and the displacement and overrides pass through |
| Decoder.ParseSibNoBase | simulator/src/instruction.rs:126-144 | as `parse_sib`, but the base is the no-base marker 0xFF |
| Decoder.FetchLe | simulator/src/instruction.rs:272-277 | `n` fetched bytes read little-endian are below `256^n` |
| Decoder.ModrmConsumes | simulator/src/instruction.rs:154-263 | a successful `read_modrm` consumes exactly the ModR/M encoding (ModR/M, optional SIB, 0/1/4 displacement bytes), the reg field is bits 5..3 extended by REX.R, mod 3 exactly gives a register extended by REX.B, rip-relative exactly for mod 0 and rm 5, and an 8-bit displacement is zero-extended |
| Decoder.ModrmReg | simulator/src/instruction.rs:263 | the reg field returned is 8 or more exactly when REX.R is set |
| Decoder.Mode0Consumes | simulator/src/instruction.rs:159-199 | mod 0 consumes a SIB byte for rm 4 (plus four displacement bytes when the SIB base is 5) and four displacement bytes for rm 5; it is rip-relative exactly for rm 5 |
| Decoder.Mode1Consumes | simulator/src/instruction.rs:200-225 | mod 1 consumes one displacement byte, plus the SIB byte for rm 4, and gives a memory operand with a displacement below 0x100 |
| Decoder.Mode2Consumes | simulator/src/instruction.rs:226-259 | mod 2 consumes four displacement bytes, plus the SIB byte for rm 4, and gives a memory operand |
| Decoder.ReadDisplacement32 | simulator/src/instruction.rs:181-187 | the four-byte displacement loop returns the little-endian value of the four fetched bytes, or the first fetch fault |
| Decoder.FromLeZeroPadded | simulator/src/instruction.rs:272-277 | zero bytes above the first `n` add nothing to a little-endian value |
| Decoder.ReadImmediate | simulator/src/instruction.rs:266-278 | `read_immediate` returns the little-endian value of the `nbytes` fetched bytes, or the first fetch fault, and the size grows by exactly `nbytes` |
| Decoder.ReadModrm | simulator/src/instruction.rs:146-264 | `read_modrm` returns the value model's decoding of the ModR/M encoding |
| Decoder.ReadMode0 | simulator/src/instruction.rs:159-199 | the mod 0 arm returns the value model's operand |
| Decoder.ReadMode1 | simulator/src/instruction.rs:200-225 | the mod 1 arm returns the value model's operand |
| Decoder.ReadMode2 | simulator/src/instruction.rs:226-259 | the mod 2 arm returns the value model's operand |
| Macros.ImmediateSize | simulator-macros/src/lib.rs:90-98 | the byte width of the first immediate operand, or 0 when neither operand is an immediate |
| Macros.WordLength | simulator-macros/src/lib.rs:117 | the first word of a text holds no space and ends at a space or at the end |
| Macros.Words | simulator-macros/src/lib.rs:117 | `split_whitespace` yields non-empty words with no space in them |
| Macros.SplitOnce | simulator-macros/src/lib.rs:116 | `split_once` fails exactly when the separator is absent; otherwise the text is the part before, the separator and the part after, and the part before holds no separator |
| Macros.ParseInstruction | simulator-macros/src/lib.rs:115-154 | the loop over the modifier words yields the encoding the line's words define |
| Macros.WordsOfUnwords | simulator-macros/src/lib.rs:117 | `split_whitespace` recovers the words of a single-space join |
| Macros.ModifierWords | simulator-macros/src/lib.rs:146-152 | the words after the colon of a line are its modifiers |
| Macros.LineFields | simulator-macros/src/lib.rs:115-133 | parsing a line splits it at its colon and takes the name, the opcode and the two operands from the words before it and the flags from the words after it |
| Macros.Assemble | simulator-macros/src/lib.rs:117-153 | the encoding built from the words of a line; `EncodingOfLine` and `TableParses` state the result for every table line |
| Macros.EncodingOf | simulator-macros/src/lib.rs:115-154 | `parse_instruction` as a function; `ParseInstruction`'s loop is proved equal to it and `TableParses` gives its value on the thirty table lines |
| Macros.EncodingOfLine | simulator-macros/src/lib.rs:115-154 | a line made of words parses to the encoding assembled from those words |
| Macros.TableParses | simulator/src/instruction.rs:282-313 | every line of the opcode table parses to the corresponding entry of the encoding table |
| Macros.ParseOperandOfText | simulator-macros/src/lib.rs:101-113 | `parse_operand` reads back the token of every operand encoding the table can contain |
| Macros.OperandTextOfParse | simulator-macros/src/lib.rs:101-113 | every token `parse_operand` accepts is the token of the encoding it yields |
| Macros.RangeEnd | simulator-macros/src/lib.rs:288 | `opcode0 + 8` on `u8` is the plain sum up to 0xF7 and wraps below `opcode0` above it, leaving the range empty |
| Macros.RegisteredSnoc | simulator-macros/src/lib.rs:284-297 | appending an encoding to the table appends it to exactly the groups it is registered under |
| Macros.Registered | simulator-macros/src/lib.rs:284-297 | the group of an opcode byte in table order; `GroupByOpcode` proves the macro's map holds exactly these groups and `RegisteredSnoc` how a line extends them |
| Macros.GroupByOpcode | simulator-macros/src/lib.rs:284-297 | the grouping map holds exactly the non-empty groups, each the encodings registered under its byte in table order |
| Macros.Push | simulator-macros/src/lib.rs:292-295 | `entry(code).or_default().push(e)` appends `e` to group `code` and leaves every other group |
| Macros.PushOne | simulator-macros/src/lib.rs:291-296 | pushing an encoding without a suffix register onto the group of its `opcode0` keeps the map equal to the grouping of the table so far |
| Macros.PushRange | simulator-macros/src/lib.rs:287-290 | the loop over `opcode0 .. opcode0 + 8` keeps the map equal to the grouping of the table so far |
| Dispatch.OperandFor | simulator-macros/src/lib.rs:16-24 | an operand exists exactly when it does not need a ModR/M byte or one was read; a suffix register is `parse_suffix` of the opcode byte, a reg operand the ModR/M reg field, an r/m operand the ModR/M operand, an immediate the immediate; the operand has the kind its encoding names |
| Dispatch.Build | simulator-macros/src/lib.rs:164-168 | no table name builds `PopReg16`, `PopReg64`, `PushReg16` or `PushReg64` |
| Dispatch.BuildsTable | simulator-macros/src/lib.rs:156-169 | every table line builds its instruction variant from operands of the kinds its two encodings produce |
| Dispatch.RegisteredIn | simulator-macros/src/lib.rs:284-297 | every member of the group of byte `b` is a table line registered under `b` |
| Dispatch.GroupUniform | simulator-macros/src/lib.rs:171-174 | within one opcode group every line agrees on being a reg-field extension: exactly the groups of 0x3F, 0xFE and 0xFF are |
| Dispatch.Extension | simulator-macros/src/lib.rs:176-183 | the sub-group of a reg value holds exactly the group's lines whose second opcode byte is that value |
| Dispatch.First | simulator-macros/src/lib.rs:201-232 | `find` returns nothing exactly when no line of the group is the variant, and otherwise the earliest line that is |
| Dispatch.Choose | simulator-macros/src/lib.rs:199-239 | the arm takes the wide line when REX.W is set and one exists, else the size-override line when 0x66 was seen and one exists, else the line with neither flag, else Undefined |
| Dispatch.AfterPrefix | simulator-macros/src/lib.rs:309-344 | a REX byte 0x40..0x4F sets the REX (bits W, R, X, B) and every other prefix drops it; 0x64 and 0x65 select FS and GS; 0x66 and 0x67 set the operand- and address-size overrides; the other flags carry over |
| Dispatch.Decode | simulator-macros/src/lib.rs:278-282 | `decode` starts `decode_internal` with no prefixes; `DecodeNeverStack` proves that whatever the bytes, a successful decode is a table variant and never a push or pop, and `DecodeMovR15Zero`, `DecodeMovRdx` and `DecodeRexMov` give its result on concrete encodings |
| Dispatch.DecodeInternal | simulator-macros/src/lib.rs:304-351 | the prefix arms and the opcode `match`; `PrefixAddsOne` proves a prefix adds one byte and passes through the rest, and `UnknownOpcode` that an unregistered byte is Undefined |
| Dispatch.OpcodeArm | simulator-macros/src/lib.rs:171-240 | one generated opcode arm; `ExtensionArmUndefined` proves the reg-field extension groups Undefined under REX.R, `PlainArm` reduces the other groups to the variant choice and `MovWideArm` the 64-bit move |
| Dispatch.VariantArm | simulator-macros/src/lib.rs:199-239 | the choice among the group's lines by REX.W and 0x66 (the contract of `Choose`), then the chosen line decoded, or Undefined when there is none |
| Dispatch.DecodeNeverStack | simulator-macros/src/lib.rs:278-351 | a successful decode of any bytes is never `PopReg16`, `PopReg64`, `PushReg16` or `PushReg64`, which the opcode table does not define |
| Dispatch.OpcodeArmNeverStack | simulator-macros/src/lib.rs:171-240 | no opcode arm yields a push or pop |
| Dispatch.VariantArmNeverStack | simulator-macros/src/lib.rs:199-239 | the line a variant arm decodes is never a push or pop |
| Dispatch.DecodeEncoding | simulator-macros/src/lib.rs:156-169 | a decoded table line is never a push or pop; `MovWideEncoding` gives the 64-bit move line's ModR/M-free decoding with its eight-byte immediate |
| Dispatch.PrefixAddsOne | simulator-macros/src/lib.rs:309-344 | a prefix byte decodes exactly as the bytes after it with the updated prefixes, one byte longer, with the same fault |
| Dispatch.UnknownOpcode | simulator-macros/src/lib.rs:347-350 | a byte that is neither a prefix nor registered in the table is Undefined |
| Dispatch.UnknownExtension | simulator-macros/src/lib.rs:190-196 | in the extension groups 0x3F, 0xFE and 0xFF a REX.R-extended reg field names no line, so decoding is Undefined |
| Dispatch.ExtensionArmUndefined | simulator-macros/src/lib.rs:190-196 | the extension arm of 0x3F, 0xFE or 0xFF is Undefined when REX.R is set |
| Dispatch.ExtensionEmpty | simulator/src/instruction.rs:282-313 | no line of the table has a second opcode byte from 8 to 15 |
| Dispatch.GroupB8 | simulator-macros/src/lib.rs:286-290 | each of 0xB8..0xBF is registered with the 16-, 32- and 64-bit moves of an immediate to a register, in table order |
| Dispatch.ChainedCodeAt | simulator/src/instruction.rs:325-340 | with the four chained tables of the decoder test, code loaded at physical 0x4000 is read at virtual address 0 under root 0 |
| Dispatch.BytesAt | simulator/src/instruction.rs:325-340 | the `n` bytes of the loaded code from an offset are read from the base address plus that offset |
| Dispatch.ImmediateAtCode | simulator/src/instruction.rs:266-278 | an immediate of `n` bytes in the loaded code is those bytes, little-endian |
| Dispatch.DecodeMovR15Zero | simulator/src/instruction.rs:367-375 | `mov r15, 0` (49 BF and eight zero bytes) decodes to a 64-bit move of 0 into register 15, ten bytes long |
| Dispatch.DecodeMovRdx | simulator/src/instruction.rs:376-382 | `mov rdx, 9993` (48 BA 09 27 and six zero bytes) decodes to a 64-bit move of 9993 into register 2, ten bytes long |
| Dispatch.RexMovAt | simulator-macros/src/lib.rs:341-343 | ten code bytes of a REX.W prefix, an opcode in 0xB8..0xBF and an eight-byte immediate decode to a 64-bit move of the immediate into the suffix register |
| Dispatch.DecodeRexMov | simulator-macros/src/lib.rs:341-343 | a REX.W prefix, an opcode in 0xB8..0xBF and an eight-byte immediate decode to the 64-bit move into the register of the opcode's low bits and REX.B, ten bytes long |
| Dispatch.MovWideArm | simulator-macros/src/lib.rs:201-211 | under REX.W the arm of 0xB8..0xBF decodes the 64-bit move with its eight-byte immediate, nine bytes after the prefix |
| Dispatch.MovGroupLines | simulator/src/instruction.rs:297-299 | the moves of an immediate to a register are no reg-field extension and only the 64-bit one is wide |
| Dispatch.PlainArm | simulator-macros/src/lib.rs:199-239 | an opcode whose group has no reg-field extension chooses among the whole group, one byte in |
| Dispatch.MovWideEncoding | simulator-macros/src/lib.rs:156-169 | decoding the 64-bit move line reads no ModR/M byte and an eight-byte immediate after the opcode |
| LegacyDecode.IntoBytes | src/instruction.rs:23-31 | a displacement size in bytes is its named width in bits divided by 8: 0, 1 or 4 |
| LegacyDecode.ModRmOf | src/decode.rs:53-61 | the ModR/M fields are bits 7..6, 5..3 and 2..0: `64 mod + 8 reg + rm` is the byte |
| LegacyDecode.AfterPrefix | src/decode.rs:209-245 | a prefix byte drops any earlier REX and a REX byte sets it; 0xF0/F2/F3 set group 1, the segment and branch bytes set group 2, 0x66 and 0x67 set the size prefixes, and every other part carries over |
| LegacyDecode.ImmediateSizeOf | src/decode.rs:121-139 | the immediate is at most 8 bytes: 8 or 4 for 0xB8..0xBF by REX.W, 1 for 0xE4 and 0xE6, none otherwise |
| LegacyDecode.IntoInstruction | src/decode.rs:141-184 | every failure is Undefined and every multi-byte opcode fails; 0xB8..0xBF is a 64-bit move exactly under REX.W (else a 32-bit move of the truncated immediate) into the opcode's low bits extended by REX.B; 0xFF decodes exactly with reg field 0 and mod 3, to a 32-bit increment of rm |
| LegacyDecode.OpcodeAt | src/decode.rs:246-263 | a byte other than 0x0F is a one-byte opcode; after 0x0F, 0x38 and 0x3A take a third byte and any other second byte is a two-byte opcode |
| LegacyDecode.RunShrinks | src/decode.rs:204-207 | each byte the loop reads moves it one step further along a finite run of canonical addresses, so the loop ends |
| LegacyDecode.ScanStep | src/decode.rs:205-264 | one pass reads one byte: a prefix updates the parts and moves on one byte; any other byte starts the opcode, the size counting its bytes, and nothing else in the parts changes |
| LegacyDecode.Scan | src/decode.rs:204-265 | when the loop ends without a fault an opcode has been read |
| LegacyDecode.Complete | src/decode.rs:266-280 | the decoded size counts the ModR/M byte when the opcode needs one, then the displacement and immediate bytes |
| LegacyDecode.Operands | src/decode.rs:270-280 | the decoded size counts the displacement and immediate bytes after the given offset |
| LegacyDecode.OrLane | src/decode.rs:273 | ORing a byte shifted to lane `i` into a value below `256^i` adds the byte times `256^i` |
| LegacyDecode.ShiftLane | src/decode.rs:278 | shifting a byte left by `8i` for a lane below 8 neither wraps nor reaches past the next lane |
| LegacyDecode.OrCommutes | src/decode.rs:273 | bitwise OR is commutative |
| LegacyDecode.ReadLe | src/decode.rs:270-279 | the displacement and immediate loops return the `n`-byte little-endian value at `rip + at`, or the first fetch fault |
| LegacyDecode.Decode | src/decode.rs:187-281 | `decode` returns the value model's decoding of the bytes at rip |
| LegacyDecode.ScanPrefixes | src/decode.rs:204-265 | the prefix loop returns the value model's parts and size, or the first fault |
| LegacyDecode.ScanByte | src/decode.rs:205-264 | one pass of the loop gives the value model's pass |
| LegacyDecode.ReadOpcode | src/decode.rs:246-263 | the opcode read after its first byte is the value model's opcode |
| LegacyDecode.DecodeRest | src/decode.rs:266-280 | the part after the loop gives the value model's completion |
| LegacyDecode.ReadOperands | src/decode.rs:270-280 | the displacement and immediate loops and `into_instruction` give the value model's result |
| LegacyDecode.ScanConsumes | src/decode.rs:204-265 | the loop consumes some prefix bytes and then the opcode, the size counting exactly those, and only a REX that is the last prefix is kept |
| LegacyDecodeExamples.LegacyDecodeMovR15Zero | src/decode.rs:338-346 | `mov r15, 0` behind the test's page tables decodes at address 0 to a 64-bit move of 0 into register 15, ten bytes long |
| LegacyDecodeExamples.LegacyDecodeMovRdx | src/decode.rs:347-353 | `mov rdx, 9993` behind the test's page tables decodes at address 0 to a 64-bit move of 9993 into register 2, ten bytes long |
| LegacyDecodeExamples.RexMov | src/decode.rs:144-147 | a REX.W byte, an opcode in 0xB8..0xBF and eight immediate bytes decode to a 64-bit move of the immediate into the register of the opcode's low bits and REX.B, ten bytes long |
| LegacyDecodeExamples.ImmediateBytes | src/decode.rs:275-279 | the eight code bytes after the first two are the immediate read at size 2 |
| LegacyDecodeExamples.RexOpcodeScan | src/decode.rs:204-265 | a REX byte followed by an opcode in 0xB8..0xBF ends the loop after two bytes with that REX and a one-byte opcode |
| LegacyDecodeExamples.RexPrefixStep | src/decode.rs:235-242 | a REX byte is recorded as a prefix and the loop moves on one byte |
| LegacyDecodeExamples.MovOpcodeStep | src/decode.rs:263 | a byte in 0xB8..0xBF ends the loop as a one-byte opcode |
| LegacyDecodeExamples.MovImm64Operands | src/decode.rs:266-280 | a wide 0xB8..0xBF opcode read at size 2 completes with its eight immediate bytes to a 64-bit move, ten bytes long |
| LegacyDecodeExamples.MovLayout | src/decode.rs:121-151 | opcode 0xB8..0xBF under REX.W has no ModR/M byte, no displacement and an eight-byte immediate and builds a 64-bit move |
| LegacyState.MaskOf | src/state.rs:130-133 | the mask loop ORs `0xFF << 8i` for `i < bytes` and yields the mask of the low `bytes` bytes |
| LegacyState.MaskIsLow | src/state.rs:163-166 | a register ANDed with the mask of `bytes` bytes is the register modulo `256^bytes` |
| LegacyState.RegisterRead | src/state.rs:161-167 | a register read through `read_rm` is its low `bytes` bytes |
| LegacyState.RegisterWrite | src/state.rs:129-137 | a register write through `write_rm` replaces the low `bytes` bytes by those of the value and keeps the rest |
| LegacyState.MergeBytes | src/state.rs:134-135 | `reg ^= (reg & mask) ^ (value & mask)` equals the register with its low bytes replaced by the value's |
| LegacyState.RegisterWriteRead | src/state.rs:129-167 | reading a register back at the width it was written gives the value's low bytes, and the bytes above are the old ones |
| LegacyState.SibWithoutIndex | src/state.rs:169-180 | a SIB operand with index 4 is its base plus the displacement: rip-relative for base 0xFE, the register for a register base |
| LegacyState.SibAbsolute | src/state.rs:169-180 | a SIB operand with neither index nor base (0xFF) is the displacement itself |
| LegacyState.RmAddress | src/state.rs:138-151 | the address of a memory operand, wrapping; `SibWithoutIndex` and `SibAbsolute` pin the index-4 and base-0xFF cases |
| LegacyState.ReadRm | src/state.rs:159-188 | `read_rm` is below `256^bytes`; a register operand gives its low bytes; a memory operand succeeds exactly when its bytes can be read and is their little-endian value |
| LegacyState.ReadRmMemory | src/state.rs:183-187 | a memory operand fails with the first fault of its byte reads, and otherwise is the little-endian value of the bytes |
| LegacyState.WriteRm | src/state.rs:120-157 | a register operand is merged under the mask and never fails; a memory operand changes only memory, writing the value's low bytes one by one from the operand address and keeping those written before a fault |
| LegacyState.PortOf | src/state.rs:201 | `imm as u16` sign-extends the port byte: non-negative bytes are themselves, negative ones are `0xFF00` plus the byte |
| LegacyState.Store | src/state.rs:252-259 | `mov r/m32, r32` keeps the state well formed |
| LegacyState.Execute | src/state.rs:194-267 | execution keeps the state well formed and the root; only `iret` changes the level or the flags, and it leaves them below 2^32 |
| LegacyState.IncRegister | src/state.rs:203-212 | `inc r32`; `IncrementsLowHalf` proves the low half is incremented wrapping, and the other sizes stop at `todo!()` |
| LegacyState.Return | src/state.rs:213-230 | `iret`; `LegacyFrames.LegacyReturnAfterEntry` proves it undoes interrupt entry when the flags fit in 32 bits, and `FlagsStayLow` that the flags stay below 2^32 |
| LegacyState.JumpRel | src/state.rs:231-237 | `jmp rel8`; `JumpTarget` proves it lands at rip + rel + size, wrapping |
| LegacyState.Load | src/state.rs:241-248 | `mov r32, r/m32`; `LoadZeroExtends` proves it zero-extends a register source |
| LegacyState.FaultChangesNothing | src/state.rs:192-271 | a faulting or panicking instruction changes no register, rip, flag or level and touches no port; only bytes written before a fault stay written |
| LegacyState.PortsNeedLevelZero | src/state.rs:195-202 | `in` and `out` above level 0 raise a general protection fault on the unchanged state with no port access, and only they, at level 0 or below, access a port |
| LegacyState.Conclude | src/state.rs:267-271 | concluding an instruction keeps the flags and the root; the state stays well formed |
| LegacyState.LegacyStep | src/state.rs:190-272 | a step keeps the state well formed and the page-table root |
| LegacyState.Run | src/state.rs:192-271 | after decoding the state stays well formed and keeps its root |
| LegacyState.InReplacesLowByte | src/state.rs:195-202 | at level 0 or below `in` replaces the low byte of rax by the byte read, keeps bits 8..63, and reads the sign-extended port |
| LegacyState.InByte | src/state.rs:199-201 | `(h & 0xFFFF_FFFF_FFFF_FF00) \| b` is `h` with its low byte replaced by `b` |
| LegacyState.IncrementsLowHalf | src/state.rs:203-212 | a 32-bit `inc` leaves the low half plus one, wrapping at 2^32, with the upper half cleared; any other register size is a panic |
| LegacyState.LoadZeroExtends | src/state.rs:241-248 | `mov r32, r/m32` from a register stores its low half zero-extended |
| LegacyState.StoreKeepsUpperHalf | src/state.rs:252-259 | `mov r/m32, r32` to a register goes through `write_rm`, which keeps the upper half of the target |
| LegacyState.StoreToRegister | src/state.rs:252-259 | `mov r/m32, r32` to a register merges the source's low half into the low four bytes and advances |
| LegacyState.StoreHalf | src/state.rs:257-258 | merging the masked low half into four bytes keeps the upper half and replaces the lower |
| LegacyState.LowHalf | src/state.rs:257 | `x & 0xFFFF_FFFF` is `x` modulo 2^32 |
| LegacyState.JumpTarget | src/state.rs:231-237 | `jmp rel8` lands at rip plus the signed offset plus the size, modulo 2^64, and rip is not advanced again |
| LegacyState.SignedWrap | src/state.rs:232-235 | adding the sign-extended offset with wrapping and then the size is adding the signed offset and the size modulo 2^64 |
| LegacyState.JumpToSelf | src/state.rs:231-237 | `EB FE`, a two-byte jump by -2, leaves the state unchanged |
| LegacyState.HighPortBytes | src/state.rs:201 | port bytes 0x80..0xFF are negative and address ports 0xFF80..0xFFFF |
| LegacyState.RunMove64 | src/state.rs:249-251 | a decoded `mov r64, imm64` sets the register, moves rip past the instruction and touches no port |
| LegacyState.FlagsStayLow | src/state.rs:224 | flags below 2^32 stay below 2^32 from one step to the next |
| LegacyState.LegacyProcessor.constructor | src/state.rs:55-66 | a new processor has registers, level, interrupt stack, table, rip and flags all zero |
| LegacyState.LegacyProcessor.StepInstruction | src/state.rs:190-272 | the processor stops exactly when the value model's step stops, and otherwise its state and port access are the step's |
| LegacyState.LegacyProcessor.Finish | src/state.rs:267-271 | the end of a step advances rip, keeps it, or delivers the fault, as the value model concludes |
| LegacyState.LegacyProcessor.ExecuteInstruction | src/state.rs:194-267 | each instruction leaves the state, status and port access of the value model's execution |
| LegacyState.LegacyProcessor.IncrementRegister | src/state.rs:203-212 | `inc` leaves the state of the value model's increment |
| LegacyState.LegacyProcessor.SetRegisterTo | src/state.rs:238-251 | the move of an immediate leaves the state of the value model's register write |
| LegacyState.LegacyProcessor.InterruptReturn | src/state.rs:213-230 | `iret` reads rip, flags and rsp above rsp, cuts the flags to 32 bits, takes the level from bits 32..39 and does not advance rip, as the value model does |
| LegacyState.LegacyProcessor.LoadRegister | src/state.rs:241-248 | `mov r32, r/m32` leaves the state of the value model's load |
| LegacyState.LegacyProcessor.StoreRegister | src/state.rs:252-259 | `mov r/m32, r32` leaves the state of the value model's store |
| LegacyState.LegacyProcessor.ReadOperand | src/state.rs:159-188 | `read_rm` returns the value model's operand read and changes nothing |
| LegacyState.LegacyProcessor.ReadMemory | src/state.rs:183-187 | the byte loop into a zeroed buffer returns the first read fault, or the little-endian value of the bytes |
| LegacyState.LegacyProcessor.WriteOperand | src/state.rs:120-157 | `write_rm` leaves the state and result of the value model's operand write |
| LegacyFrames.LegacyReturnAfterEntry | src/state.rs:213-226 | `iret` right after a successful entry with flags below 2^32 restores rip, flags, registers and level to those before the entry |
| LegacyFrames.FlagsCut | src/state.rs:224-226 | the pushed flags word cut to 32 bits is the flags, and its bits 32..39 are the level |
| Bits.FromLeToLeMod | src/state.rs:127-187 | encoding a value to `n` little-endian bytes and decoding them keeps the value modulo `256^n` |
| Bits.FromLeToLe | src/state.rs:127-187 | for a value below `256^n`, `from_le_bytes` of `to_le_bytes` is the value |
| Bits.ToLeFromLe | src/state.rs:183-187 | `to_le_bytes` of `from_le_bytes` gives back the bytes |
| Bits.ToLePrefix | src/state.rs:153 | the first `n` of the `m` encoded bytes are the `n`-byte encoding |
| Bits.FromLeAppend | src/state.rs:183-187 | the little-endian value of `a + b` is that of `a` plus that of `b` shifted past `a` |
| Bits.ToLeReplace | simulator/src/device.rs:66-70 | adding `(b - lane_k) * 256^k` replaces byte `k` of the encoding by `b` and keeps the others |
| Bits.MergeLowBits | simulator/src/state.rs:219-222 | `h ^= (h & (2^k - 1)) ^ v` replaces the low `k` bits of `h` by `v` and keeps the rest |
| Bits.AndLowMask | src/state.rs:257 | `x & (2^k - 1)` is `x` modulo `2^k` |
| Bits.AndMaskRange | simulator/src/device.rs:66-70 | `x & (2^hi - 2^lo)` keeps bits `lo` to `hi - 1` of `x` |
| Bits.OrDisjoint | src/decode.rs:273 | a value shifted left by `k` ORed with a value below `2^k` is their sum |
| Bits.MergeField | simulator/src/device.rs:66-70 | `h ^ ((h & field_mask) ^ (v << lo))` replaces bits `lo .. lo + w` of `h` by `v` |
| Bits.Shr64 | simulator/src/memory.rs:183-187 | `a >> s` is `a` divided by `2^(s mod 64)` |
| Bits.OrShifted32 | src/state.rs:100 | a value shifted left by 32 ORed with a value below 2^32 is the low half of the first moved up plus the second |

## Left out

- The sparse RAM's read of an untouched page inserts a zero page (`or_insert`). The model reads 0 without inserting. The difference is not observable through reads or writes.
- The older tree's port devices are not part of this model. The byte an `in` reads is an input, and the port an `in` or `out` uses (with the byte written) is returned.
- `UTF8Console` is modelled with its standard streams abstracted: stdout is a log of the bytes written, and stdin is a queue of bytes to read that gives 0xFF once it is empty. `run_timer` and the thread that timer port 4 starts are left out, because they sleep and then raise an IRQ from another thread. The model keeps port 4's store of the mode byte. The IRQ global atomic is a field of the processor rather than shared state.
- `simulator/src/temp.rs` is not part of this model (it is not compiled). Neither are `main.rs`, `args.rs`, the configuration reading, the driver loop, or the printing and exit of `error.rs`.
- Logging is left out: `info`, `dbg!`, `eprint_primary_registers` and the text `wrcr` prints. The model's `wrcr` only reads its operand.
- The `quote!`/`syn` token generation is left out. The generated decoder is modelled by the rules its templates fix. The `nasm` test harness, which spawns processes, is also left out.
- The simulator's decode test is left out: it names `Instruction` fields the simulator does not have. The two encodings it uses are proved to decode as intended.
- Several arms stop the simulator instead of modelling behaviour: the `todo!` arms of the older `inc`, the unimplemented 16- and 32-bit port arms of the simulator, the `unreachable!` arms, and indexing past the sixteen registers. Among the `unreachable!` arms is the timer's arm for a local port above 4, which `add` can produce by giving a timer more than five ports (`StepProperties.OutToHaltingPortStops`).
- Overflow panics of a debug build are not modelled. Every `+` and `-` on u64 wraps, and `<<` drops the bits shifted out and takes its shift amount modulo 64 (`Bits.Shl64`), as in a release build. So does each successor of a `RangeFrom` that is zipped with bytes: the u16 ports `port..` of `out_u32` (`Devices.PortAt`) and the u64 addresses `address..` of the older `read_rm`/`write_rm` (`Paging.ByteAddress`, shared with the simulator's `virtual_address + i`).
- The older step is stated through `Run` on an already decoded instruction (`LegacyState.RunMove64`). No lemma follows `step_instruction` on literal code bytes from decode through execution.
- LegacyState.ReadRm: requires `bytes <= 8`. Every call in `step_instruction` passes at most 8. For more than 8 bytes, the source's memory path stops silently after eight bytes, because the zip ends with the 8-byte buffer. Its register path overflows the shift `0xFF << (i * 8)` once `i` reaches 8.
- LegacyState.WriteRm: requires `bytes <= 8`. Every call in `step_instruction` passes at most 8. For more than 8 bytes, the source's memory path stops after the eight bytes of `to_le_bytes`, and its register path overflows the shift `0xFF << (i * 8)` as `read_rm` does.
- Interrupts.DecodeDescriptor: a `bool` byte other than 0 or 1 makes the source's `transmute` undefined behaviour. The model reads any nonzero byte as `true`.
- TLB, permission bits, 5-level paging and privilege rings other than the level byte are not modelled, because the code does not implement them.

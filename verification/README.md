# rshyve, modelled in Dafny

rshyve is a virtual machine monitor. This project models the parts of it that
decide what a guest can rely on, and proves what they promise.

- **Guest physical memory** (`GuestSpace`, `TrackedRuns`, `PhysMap`,
  `ClaimProtocol`): the map's two lists as an object with loops and binary
  searches, and the claim, commit and rollback protocol as a state machine
  whose steps interleave freely, with every kernel call free to fail.
- **Interrupt lines** (`IntrLines`, `IntrPins`, `AcpiGpe`): shared level counts,
  the pins that move them, and the general-purpose event block that drives one.
- **Address index and walks** (`ASpace`, `Msix`, `DirtyChunks`).
- **Rates** (`TokenBucket`, `Reboot`): bounds over whole call sequences and
  chains of re-execs.
- **Boot** (`ElfNotes`, `PvhBoot`, `GuestMemory`, `PageTables`, `DirectBoot`):
  image parsing, initrd placement, and what memory holds after a load, down to
  a page walk over the written bytes.
- **Wire formats** (`FwCfg`, `MdataText`, `MdataFrame`, `MdataSession`): the
  fw_cfg directory read back through its ports, and the metadata protocol.

Classes and methods follow code that updates state in place; functions and
lemmas follow pure code and carry the specifications. What the kernel, the
clock, other crates and the environment answer are parameters. `usize` is 64
bits wide. A step of the claim protocol is one lock section or one kernel call.
A 16-bit or 64-bit increment that overflows wraps, as in a release build.

Some promises hold only under a condition. Each has a lemma with a failing input
and one with the exact condition, stated over what a caller knows before the call:

- A PCI pulse over a disabled route is two calls, and refusing the second leaves
  the GSI high (`PulseCanStick`, `AgreesWhateverAnswered`).
- The token bucket's window law fails once a call comes more than 2^32 - 1
  periods after the one before (`ClampBreaksWindow`, `WindowLawExactly`).
- An ELF segment with more file than memory can be overlapped by the initrd
  (`OversizedFilePart`, `InitrdClearExactly`).
- A kernel that asks to be loaded below 0x21000 may be overwritten by the loader
  (`LowKernelLost`, `KernelSurvivesExactly`).
- A range search over an empty range can panic or answer too much
  (`EmptyRangeFails`, `AnswerExactly`); registration never asks for one.
- The 65505th named fw_cfg file takes the signature's selector (`SlotsExactly`).

A fresh re-exec chain is held to nineteen resets a minute, one fewer than two full
budget windows; twenty need an inherited window (`FreshMinuteBound`,
`NineteenReached`, `TwentyReached`). The V1 KEYS reply is not dot-stuffed; that
limits which keys a store may hold (`KeysReplyExactly`), and the keys rshyve sets
are all within the limit (`ZoneKeysDecode`).

## Model

| member | source | states |
|---|---|---|
| `ClaimProtocol.StepKeeps` | crates/vmm-core/src/mem.rs:702-760 | every step of a claim, a drop or a commit, by any actor and with any kernel call refused, keeps the whole invariant: lists sorted and disjoint, claims held once, the gate held by one commit, the kernel mapping exactly the published regions and the claims past their map call, runs maximal |
| `ClaimProtocol.RunSafe` | crates/vmm-core/src/mem.rs:340-395 | that invariant in every state of every interleaved run from the empty map |
| `ClaimProtocol.NeverMappedTwice` | crates/vmm-core/src/mem.rs:702-760 | in every run, a map call that is accepted adds a range that meets nothing the kernel maps |
| `ClaimProtocol.KeptForGood` | crates/vmm-core/src/mem.rs:748-760 | once an undo is refused, its claim stays on the list for the rest of the run, so its range is never free again |
| `ClaimProtocol.RunLookup` | crates/vmm-core/src/mem.rs:585-602 | in every reachable state the run of the region at an address decides exactly which ranges from there are covered, and a RAM run is maximal |
| `ClaimProtocol.MapKeeps` | crates/vmm-core/src/mem.rs:711-724 | the map call adds exactly the claim's own range to what the kernel maps, and the invariant survives |
| `ClaimProtocol.UnmapKeeps` | crates/vmm-core/src/mem.rs:748-759 | the undo takes exactly that range out again |
| `ClaimProtocol.GiveBackKeeps` | crates/vmm-core/src/mem.rs:815-821 | dropping a live claim frees its range and nothing else |
| `GuestSpace.DropClaimExact` | crates/vmm-core/src/mem.rs:390-395 | a release by start address, `swap_remove` and all, removes exactly the one claim that starts there |
| `GuestSpace.PublishKeepsSpace` | crates/vmm-core/src/mem.rs:473-503 | turning a claim into a region keeps regions sorted and disjoint and disjoint from every other claim |
| `TrackedRuns.PublishKeepsRuns` | crates/vmm-core/src/mem.rs:479-502 | after every publish each RAM region's run is exactly the maximal unbroken stretch of RAM around it, shared by all its regions, and every other region's run is itself |
| `TrackedRuns.NewRunMaximal` | crates/vmm-core/src/mem.rs:515-547 | the run a new RAM region brings is maximal once the region is in the list |
| `TrackedRuns.RunWithUnique` | crates/vmm-core/src/mem.rs:515-547 | the run around a new region has only one pair of bounds |
| `PhysMapModel.PhysMap.CheckFree` | crates/vmm-core/src/mem.rs:173-186 | free exactly when no region and no claim overlaps; an overlap with a region is reported before one with a claim |
| `PhysMapModel.PhysMap.Claim` | crates/vmm-core/src/mem.rs:340-387 | success exactly when the range is well placed and free; then the claim is on the list; otherwise nothing changes |
| `PhysMapModel.PhysMap.ReleaseClaim` | crates/vmm-core/src/mem.rs:390-395 | the list loses exactly that claim |
| `PhysMapModel.PhysMap.RunStart` | crates/vmm-core/src/mem.rs:515-547 | the downward walk terminates at the start of the unbroken RAM below a new region |
| `PhysMapModel.PhysMap.RunEnd` | crates/vmm-core/src/mem.rs:515-547 | the upward walk terminates at the end of the unbroken RAM above it |
| `PhysMapModel.PhysMap.RunBounds` | crates/vmm-core/src/mem.rs:515-547 | start and length are those of the maximal run around the new region; a region that is not RAM is its own |
| `PhysMapModel.PhysMap.AdoptRun` | crates/vmm-core/src/mem.rs:553-560 | every region inside the run, and no other, takes the run's mapping |
| `PhysMapModel.PhysMap.PublishClaim` | crates/vmm-core/src/mem.rs:473-503 | the object invariant is kept, the lists become the published ones and the kernel maps one range more |
| `PhysMapModel.PhysMap.Commit` | crates/vmm-core/src/mem.rs:702-760 | the outcome is a function of what the kernel answered: published; or rolled back to lists without the claim and the kernel as before; or the claim and its mapping kept for good when the undo was refused |
| `PhysMapModel.PhysMap.RegionAt` | crates/vmm-core/src/mem.rs:629-642 | the binary search finds a region exactly when one holds the address |
| `PhysMapModel.PhysMap.Lookup` | crates/vmm-core/src/mem.rs:585-602 | for a non-zero length, success exactly when every byte is published RAM or one other region holds the range, at offset `gpa - run.gpa`, with the guest's protection |
| `PhysMapModel.PhysMap.LookupUntracked` | crates/vmm-core/src/mem.rs:614-626 | success exactly when one region holds the range, at its offset in the segment |
| `PhysMapModel.RunDecides` | crates/vmm-core/src/mem.rs:585-602 | one region's run decides byte-wise coverage of a range |
| `IntrLines.StepKeepsLevels` | crates/vmm-core/src/intr_pins.rs:84-122 | every step of every pin, with any call refused, keeps each level equal to the number of pins that hold its line |
| `IntrLines.RunLevels` | crates/vmm-core/src/intr_pins.rs:174-194 | that equality in every state of every run, with pin flags and controller calls interleaved |
| `IntrLines.RunAgrees` | crates/vmm-core/src/intr_pins.rs:411-452 | in every run without a half-delivered pulse the kernel's line is high exactly when some pin holds it, also across routing register writes |
| `IntrLines.StepAgrees` | crates/vmm-core/src/intr_pins.rs:411-452 | one step keeps level and kernel agreed exactly when it is not a pulse over a disabled route whose lowering call is refused |
| `IntrLines.AgreesExactly` | crates/vmm-core/src/intr_pins.rs:174-194 | for one operation on one line and the answers it got, agreement is kept exactly when the pulse is not left half delivered |
| `IntrLines.AgreesWhateverAnswered` | crates/vmm-core/src/intr_pins.rs:411-452 | before the call: agreement is safe whatever the kernel will answer exactly when an idle line is not pulsed over a disabled route |
| `IntrLines.PulseCanStick` | crates/vmm-core/src/intr_pins.rs:437-439 | the failing input: an idle line pulsed over a disabled route, raise accepted and lowering refused, stays high with level zero |
| `IntrLines.AcceptedHeals` | crates/vmm-core/src/intr_pins.rs:174-194 | any operation that reaches the kernel and is accepted brings level and line back together |
| `IntrLines.NeverSaturates` | crates/vmm-core/src/intr_pins.rs:84-106 | a deassert never meets level zero, so the saturating branch is dead |
| `IntrPins.LegacyPIC.PinHandle` | crates/vmm-core/src/intr_pins.rs:151-156 | no pin for the cascade line or beyond 16; otherwise a fresh, lowered pin |
| `IntrPins.LegacyPIC.DoIrq` | crates/vmm-core/src/intr_pins.rs:174-194 | level and kernel line move as the line model says, and no other line moves |
| `IntrPins.LegacyPin.Assert` | crates/vmm-core/src/intr_pins.rs:220-229 | the pin stays low only when the kernel refuses the first holder; levels keep counting holders and the kernel's lines agree with them |
| `IntrPins.LegacyPin.Deassert` | crates/vmm-core/src/intr_pins.rs:231-240 | the pin stays high only when the kernel refuses the last holder; the same invariant |
| `IntrPins.LegacyPin.Pulse` | crates/vmm-core/src/intr_pins.rs:242-249 | whatever the kernel answers, no level changes and the lines still agree |
| `IntrPins.LegacyPin.SetState` | crates/vmm-core/src/intr_pins.rs:54-60 | an accepted call leaves the pin at the asked level, a refused one leaves it as it was or as asked |
| `IntrPins.PciIntrRoutes.SetPir` | crates/vmm-core/src/intr_pins.rs:346-347 | a routing register write moves no holder and no GSI: every line agrees with its level after it exactly if it did before |
| `IntrPins.PciIntrRoutes.DoIrq` | crates/vmm-core/src/intr_pins.rs:411-452 | level and GSI move as the line model says for the route programmed at that moment |
| `IntrPins.PciIntrPin.Assert` | crates/vmm-core/src/intr_pins.rs:497-506 | as for an ISA pin, and every GSI that agreed with its level still does |
| `IntrPins.PciIntrPin.Deassert` | crates/vmm-core/src/intr_pins.rs:508-517 | as for an ISA pin, and every GSI that agreed with its level still does |
| `IntrPins.PciIntrPin.Pulse` | crates/vmm-core/src/intr_pins.rs:519-526 | levels never change, and the GSI still agrees exactly when the pulse was not left half delivered |
| `IntrPins.AliasesShareRoute` | crates/vmm-core/src/intr_pins.rs:484-493 | device pins that share a GSI share the routing register, so one PIC line |
| `AcpiGpeModel.StepLatch` | crates/vmm-devices/src/acpi_gpe.rs:160-201 | a bit is latched after an event exactly when the event set it, or it was latched and the event did not clear it; invalid bits never appear |
| `AcpiGpeModel.LatchedExactly` | crates/vmm-devices/src/acpi_gpe.rs:160-201 | over every history of writes, raises, resets and imports a bit is latched exactly when something set it and nothing since cleared it |
| `AcpiGpeModel.AcpiGpe.PinSettles` | crates/vmm-devices/src/acpi_gpe.rs:154-157 | a pin that follows the registers makes IRQ 9 high exactly when status and enable meet or another pin holds the line |
| `AcpiGpeModel.AcpiGpe.RecomputeSci` | crates/vmm-devices/src/acpi_gpe.rs:154-157 | the pin follows the registers exactly unless the kernel refused a change nobody else holds up; an accepted recompute heals any earlier refusal |
| `AcpiGpeModel.AcpiGpe.RaiseEvent` | crates/vmm-devices/src/acpi_gpe.rs:277-283 | the bit is latched and an accepted call settles the line |
| `AcpiGpeModel.AcpiGpe.ResetRegisters` | crates/vmm-devices/src/acpi_gpe.rs:243-248 | both registers are empty and an accepted call settles the line |
| `AcpiGpeModel.AcpiGpe.ImportRegisters` | crates/vmm-devices/src/acpi_gpe.rs:217-222 | the valid bits of the migrated registers replace the old ones and an accepted call settles the line |
| `AcpiGpeModel.AcpiGpe.Handle` | crates/vmm-devices/src/acpi_gpe.rs:160-201 | one-byte writes act as the register events, reads return the byte, and wide or stray accesses change nothing |
| `AcpiGpeModel.OtherCall` | crates/vmm-devices/src/acpi_gpe.rs:154-157 | any call of another pin on the controller moves no register, and IRQ 9 stays right while the SCI pin follows the registers |
| `AcpiGpeModel.Replay` | crates/vmm-devices/src/acpi_gpe.rs:154-222 | over any run of register events and calls of other pins, with any answers, the registers are what the events make of them, and whenever the last event was accepted IRQ 9 is high exactly while status and enable meet or another pin holds it |
| `AddressIndex.SafeEnd` | crates/vmm-core/src/aspace.rs:168-176 | an end exists exactly when the length is positive and the last address is representable, at the boundary too |
| `AddressIndex.OwnerUnique` | crates/vmm-core/src/aspace.rs:103-115 | at most one stored region contains a point |
| `AddressIndex.ASpace.RegionAt` | crates/vmm-core/src/aspace.rs:103-115 | one predecessor search returns the unique region that contains the point, or none when none does |
| `AddressIndex.ASpace.CoveredBy` | crates/vmm-core/src/aspace.rs:126-158 | for every pair of bounds, when the ordered map's range search panics, and that the answer is exactly the regions with a point in the range if and only if the range holds an address or is one of the served empty ones |
| `AddressIndex.AnswerExactly` | crates/vmm-core/src/aspace.rs:126-158 | the search over the adjusted bounds is exact on every range with an address, and on an empty one exactly when it has no front bound, or its first address has no owner and the bounds are in order, or it ends right before the start of that owner |
| `AddressIndex.EmptyRangeFails` | crates/vmm-core/src/aspace.rs:126-158 | the failing inputs: 5..5 panics in an empty space, and answers with a region that holds 5 |
| `AddressIndex.ASpace.Register` | crates/vmm-core/src/aspace.rs:69-92 | success exactly when the length is positive, the end representable, the range in bounds and disjoint from all stored; every point's owner is then as expected; failure changes nothing, and neither the range search nor the overlap assertion can panic |
| `AddressIndex.ASpace.Unregister` | crates/vmm-core/src/aspace.rs:95-100 | exactly the region that begins there is removed and returned |
| `AddressIndex.ASpace.Clear` | crates/vmm-core/src/aspace.rs:161-163 | nothing is left and the invariant holds |
| `AddressIndex.FrontExact` | crates/vmm-core/src/aspace.rs:126-158 | moving the front bound to the predecessor's key picks exactly the regions with a point at or above the bound |
| `AddressIndex.OwnerAfterInsert` | crates/vmm-core/src/aspace.rs:69-92 | after an insert the new region owns its points and every other point keeps its owner |
| `AddressIndex.OwnerAfterRemove` | crates/vmm-core/src/aspace.rs:95-100 | after a removal its points have no owner and every other point keeps its owner |
| `Msix.FuelSuffices` | bin/rshyve/src/msix.rs:22-55 | if the first 48 capabilities exist and none is MSI-X, no later one of the chain is, however it loops |
| `Msix.VisitedEarly` | bin/rshyve/src/msix.rs:22-55 | every offset an unbounded chain ever visits is visited in its first 48 hops (pigeonhole over the aligned offsets of section 6.8.2 of PCI Local Bus 3.0) |
| `Msix.VectorCount` | bin/rshyve/src/msix.rs:36-55 | the size of the first MSI-X capability of the unbounded chain; none exactly when the chain holds none or there is no list |
| `DirtyChunks.Split` | crates/vmm-core/src/hdl.rs:681-726 | each refusal exactly on its condition; otherwise pieces that tile the range in order, page aligned, at most 1 GiB, bitmap slices adjacent and inside the buffer, and page k's bit at overall bit k |
| `DirtyChunks.InOnePiece` | crates/vmm-core/src/hdl.rs:695-726 | every address of the range lies in exactly one piece |
| `DirtyChunks.SliceFits` | crates/vmm-core/src/hdl.rs:700-720 | the slice of every piece ends inside a bitmap with one bit per page |
| `RateLimit.TotalBound` | crates/vmm-core/src/ratelimit.rs:44-63 | over every call sequence in any clock order, at most burst + floor((latest - creation) / period) are admitted; with a zero period at most the burst |
| `RateLimit.Conserved` | crates/vmm-core/src/ratelimit.rs:44-63 | what is admitted and what is left never exceeds what there was and what was credited |
| `RateLimit.MarkMoves` | crates/vmm-core/src/ratelimit.rs:44-63 | the refill mark moves by whole credited periods, so remainders are never lost |
| `RateLimit.WindowBound` | crates/vmm-core/src/ratelimit.rs:44-63 | with a clock that does not go back, calls i to j admit at most the burst and one per period or part of a period between them, if call i earned no more than 32 bits hold |
| `RateLimit.GapsEarn` | crates/vmm-core/src/ratelimit.rs:50-60 | calls at most 2^32 - 1 periods apart never meet the 32-bit clamp |
| `RateLimit.ClampBreaksWindow` | crates/vmm-core/src/ratelimit.rs:50-60 | the failing run: one call just before the first period is up, then burst + 1 at one instant all admitted, with gaps one nanosecond over the limit |
| `RateLimit.WindowLawExactly` | crates/vmm-core/src/ratelimit.rs:44-63 | the window law holds of all runs whose calls are at most g apart exactly when g is at most 2^32 - 1 periods (or the bucket holds nothing) |
| `RateLimit.TokenBucket.TakeAt` | crates/vmm-core/src/ratelimit.rs:44-63 | the object steps as the model the bounds are proved of |
| `Reboot.BackwardsKeepsWindow` | bin/rshyve/src/reboot.rs:44-58 | a clock before the window's start never opens a new window: the count goes on or the reset is refused |
| `Reboot.WindowCap` | bin/rshyve/src/reboot.rs:44-58 | under any clock, resets of a chain that carry the same window start are at most ten |
| `Reboot.WindowOrder` | bin/rshyve/src/reboot.rs:44-58 | under any clock window starts never fall along a chain, and within a window the carried count counts every reset |
| `Reboot.MinuteBound` | bin/rshyve/src/reboot.rs:119-144 | in every chain of re-execs with a clock that does not go back, any 60 000 ms hold at most twenty resets |
| `Reboot.FreshMinuteBound` | bin/rshyve/src/reboot.rs:119-144 | a chain that starts without an inherited window has at most nineteen |
| `Reboot.NineteenReached` | bin/rshyve/src/reboot.rs:119-144 | a fresh chain with nineteen resets inside a minute exists |
| `Reboot.TwentyReached` | bin/rshyve/src/reboot.rs:119-144 | a chain that inherits a window has twenty |
| `ElfNotes.NotesDecide` | crates/vmm-boot/src/elf.rs:217-257 | for every list of notes with 4-byte padding, and up to eleven stray bytes, the first Xen type-18 note decides: its first word, a short-descriptor error, or none |
| `ElfNotes.TurnOfNote` | crates/vmm-boot/src/elf.rs:225-255 | at the start of a note, one turn of the walk reads exactly that note |
| `ElfNotes.FindXenPhys32Entry` | crates/vmm-boot/src/elf.rs:217-257 | on every byte string the loop terminates in bounds and answers what the walk from offset zero does |
| `PvhBoot.FromBytes` | crates/vmm-boot/src/elf.rs:79-181 | acceptance exactly of the images whose every header is in bounds and whose notes name an entry; then segments, load end and entry are those of the header table |
| `PvhBoot.TakeHeaders` | crates/vmm-boot/src/elf.rs:109-164 | the loop gathers exactly what the headers say or the table is one no acceptable reading exists for |
| `PvhBoot.SegmentsInside` | crates/vmm-boot/src/elf.rs:109-164 | every segment of an accepted image lies inside the file, and below the load end where its file part does not exceed its memory part |
| `PvhBoot.PlacedHighest` | crates/vmm-boot/src/initrd.rs:18-33 | a place is found exactly when some page-aligned address in low memory above the load end fits, and it is the highest such |
| `PvhBoot.InitrdClear` | crates/vmm-boot/src/initrd.rs:18-33 | with file parts no longer than memory parts, every placed initrd misses every segment |
| `PvhBoot.InitrdClearExactly` | crates/vmm-boot/src/initrd.rs:18-33 | for any segment at or below the load end, every placement misses it exactly when it ends by the first page at or above the load end, or no low memory is left there |
| `PvhBoot.OversizedFilePart` | crates/vmm-boot/src/elf.rs:137-151 | the failing images: 32 bytes of file for 16 bytes of memory below a page boundary are accepted, and an initrd is placed over the segment's tail |
| `PvhBoot.PhdrRoundTrip` | crates/vmm-boot/src/elf.rs:109-131 | an encoded program header reads back wherever it stands in the file |
| `PvhBoot.LoadImage` | crates/vmm-boot/src/elf.rs:79-181 | the loader accepts every image of one loadable header and one Xen entry note, the failing ones among them, with exactly its segment, load end and entry |
| `PageTables.WritePageTables` | crates/vmm-boot/src/direct.rs:388-419 | the six table pages are written, in order, on top of what was written before, exactly when the map lets all of them through |
| `PageTables.IdentityMapped` | crates/vmm-boot/src/direct.rs:388-419 | walking the written bytes from CR3 by section 4.5 of the Intel SDM volume 3A, every address below 4 GiB translates to itself through a writable 2 MiB page |
| `PageTables.RestUnmapped` | crates/vmm-boot/src/direct.rs:499-502 | every lower-half address from 4 GiB up meets an entry that is not present |
| `PageTables.EntryRead` | crates/vmm-boot/src/direct.rs:388-419 | each 64-bit entry is read back from memory that holds the table pages |
| `DirectBoot.AcceptedExactly` | crates/vmm-boot/src/direct.rs:184-261 | an image is accepted exactly when it has the magic, protocol 2.12 or later, a 64-bit entry and bytes after its setup sectors |
| `DirectBoot.BuildBootParams` | crates/vmm-boot/src/direct.rs:438-483 | the page assembled in place is the one the field writes, in order, make of zeros |
| `DirectBoot.FieldRead` | crates/vmm-boot/src/direct.rs:438-483 | a zero page field that no later field overlaps reads back as stored |
| `DirectBoot.LoadKernel` | crates/vmm-boot/src/direct.rs:332-380 | success exactly when the command line is short enough, the initrd has a place and the physical map lets every write through; memory is then as the kernel, command line, initrd, table, GDT and zero page writes make it |
| `DirectBoot.BootReadsBack` | crates/vmm-boot/src/direct.rs:332-380 | after every successful load at or above 0x21000 all six read back intact |
| `DirectBoot.RamdiskFields` | crates/vmm-boot/src/direct.rs:438-483 | the 32-bit ramdisk fields hold the whole address and size |
| `DirectBoot.FixedFields` | crates/vmm-boot/src/direct.rs:438-483 | loader type, command line address and the number of memory map entries read back from the zero page |
| `DirectBoot.RsdpField` | crates/vmm-boot/src/direct.rs:438-483 | the ACPI root pointer reads back where the protocol has the field |
| `DirectBoot.E820Fields` | crates/vmm-boot/src/direct.rs:438-483 | each of the first 128 memory map entries reads back from the zero page |
| `DirectBoot.KernelSurvivesExactly` | crates/vmm-boot/src/direct.rs:67-72 | at any load address, all kernels of a length survive the load exactly when none of their addresses is one the loader itself writes |
| `DirectBoot.LowKernelLost` | crates/vmm-boot/src/direct.rs:332-380 | the failing input: some kernel of every length, loaded at 0x9000, is overwritten by the page tables |
| `GuestMemory.WrittenSurvives` | crates/vmm-core/src/mem/ctx.rs:80-86 | a write that no later one touches reads back whole |
| `GuestMemory.MemCtx.WriteBytes` | crates/vmm-core/src/mem/ctx.rs:64-70 | a write through the tracked view succeeds exactly when every byte is published RAM or one region that is not read-only holds the range; it then changes exactly those bytes, and otherwise none |
| `GuestMemory.MemCtx.WriteBulk` | crates/vmm-core/src/mem/ctx.rs:80-86 | a boot-time write succeeds exactly when a single region holds the range, read-only ones included |
| `FwCfgModel.HistoryListing` | crates/vmm-devices/src/fwcfg.rs:201-231 | after any history of named inserts whose names fit, a listing is what the directory decodes to exactly when it holds the inserted files, each once, by name and then by insertion |
| `FwCfgModel.NamesFitExactly` | crates/vmm-devices/src/fwcfg.rs:201-231 | the directory decodes to the sorted files exactly when every name has at most 55 bytes and no NUL |
| `FwCfgModel.OrderedUnique` | crates/vmm-devices/src/fwcfg.rs:210-211 | there is only one ordered arrangement of given files, whatever stable sort produced it |
| `FwCfgModel.SortOrders` | crates/vmm-devices/src/fwcfg.rs:210-211 | files inserted in selector order come out ordered |
| `FwCfgModel.SlotsExactly` | crates/vmm-devices/src/fwcfg.rs:116-133 | inserts get selectors apart from each other and from the built-in ones exactly up to 65504 of them; the next one takes the signature's |
| `FwCfgModel.DirectoryDecodes` | crates/vmm-devices/src/fwcfg.rs:201-231 | the serialised directory decodes to the sorted entries with names cut as the format cuts them |
| `FwCfgModel.FwCfg.constructor` | crates/vmm-devices/src/fwcfg.rs:90-110 | a new device holds signature, interface ID and an empty directory |
| `FwCfgModel.FwCfg.RebuildFileDir` | crates/vmm-devices/src/fwcfg.rs:201-231 | the loop stores exactly the directory of the current files and touches no other item |
| `FwCfgModel.FwCfg.InsertNamed` | crates/vmm-devices/src/fwcfg.rs:116-133 | the history grows by the insert, its selector and the directory are rewritten, and the items stay what the history says; the selector counter wraps |
| `FwCfgModel.FwCfg.InsertLegacy` | crates/vmm-devices/src/fwcfg.rs:138-141 | exactly that item changes, and the directory list does not |
| `FwCfgModel.FwCfg.ReadDataByte` | crates/vmm-devices/src/fwcfg.rs:185-197 | the byte at the offset, zero past the end or without an item, and the offset advances and saturates |
| `FwCfgModel.FwCfg.Handle` | crates/vmm-devices/src/fwcfg.rs:150-175 | selector and data ports, with ignored writes and stray offsets |
| `FwCfgModel.ReadItem` | crates/vmm-devices/src/fwcfg.rs:154-170 | selecting an item and reading any number of bytes yields the item and then zeros |
| `FwCfgModel.ReadFile` | crates/vmm-devices/src/fwcfg.rs:116-133 | after any history each file's selector reads back as exactly its data and then zeros |
| `FwCfgModel.ListFiles` | crates/vmm-devices/src/fwcfg.rs:154-231 | reading selector 0x19 byte by byte and decoding gives the sorted files of the history |
| `MdataText.LengthRoundTrip` | bin/rshyve/src/mdata.rs:267-270 | a printed length parses back to itself |
| `MdataText.ChecksumRoundTrip` | bin/rshyve/src/mdata.rs:271-274 | a checksum printed as eight hex digits parses back to itself |
| `MdataFrame.RoundTrip` | bin/rshyve/src/mdata.rs:344-353 | parsing undoes building for every eight-hex-digit id, space-free status and payload, under any checksum and encoding |
| `MdataFrame.AcceptedExactly` | bin/rshyve/src/mdata.rs:259-286 | a line is accepted exactly when it has a body behind three space-free fields, with the body's length and checksum, that starts with a request id |
| `MdataFrame.ReplyParses` | bin/rshyve/src/mdata.rs:294-341 | every reply to any line is a well-formed frame under the request's id, or under the zero id for a refused line, and carries data only on success |
| `MdataFrame.GetAnswered` | bin/rshyve/src/mdata.rs:311-326 | a client's GET for any key is answered with what the store holds for it, or NOTFOUND |
| `MdataSession.Session.Push` | bin/rshyve/src/mdata.rs:133-155 | the buffer is always the printable bytes since the last newline, cut at 4096, and the flag says whether there were more; a newline delivers and clears both |
| `MdataSession.Session.PushAll` | bin/rshyve/src/mdata.rs:163-188 | any byte stream yields exactly one request per newline, of the bytes since the one before |
| `MdataSession.Session.Answer` | bin/rshyve/src/mdata.rs:193-224 | the session's V2 flag and reply are those of the reply function, of which the conversation lemmas hold |
| `MdataSession.Session.Serve` | bin/rshyve/src/mdata.rs:163-188 | the loop gives, for any byte stream, exactly one reply to each request it completes, in order, with V2 entered where it is negotiated |
| `MdataSession.Ask` | bin/rshyve/src/mdata.rs:163-224 | a guest that sends a GET for each of any list of keys reads one reply a key, and each decodes to the lines of the stored value or is NOTFOUND |
| `MdataSession.GetReply` | bin/rshyve/src/mdata.rs:373-384 | the loop builds the success line, the value's lines with leading dots doubled, and the lone dot |
| `MdataSession.GetReplyDecodes` | bin/rshyve/src/mdata.rs:373-384 | a guest that takes lines up to the lone dot and one dot off each gets back the value's lines, and only the last line is a lone dot |
| `MdataSession.V1GetAnswered` | bin/rshyve/src/mdata.rs:365-387 | an unframed GET of any trimmed key is answered by a text that decodes to the lines of the stored value, or by NOTFOUND, in V2 sessions too |
| `MdataSession.V2GetAnswered` | bin/rshyve/src/mdata.rs:193-224 | a framed GET in a V2 session is answered by a frame under its id that carries what the store holds |
| `MdataSession.OverlongRefused` | bin/rshyve/src/mdata.rs:193-208 | an overlong request is refused whole: by a FAILURE frame under the zero id in V2, by the V1 error otherwise |
| `MdataSession.KeysReply` | bin/rshyve/src/mdata.rs:388-396 | the loop builds the success line, the keys as they are, and the lone dot |
| `MdataSession.KeysReplyExactly` | bin/rshyve/src/mdata.rs:388-396 | a KEYS reply decodes to the keys exactly when no key holds a newline or starts with a dot: keys are not dot-stuffed |
| `MdataSession.ZoneKeysDecode` | bin/rshyve/src/mdata.rs:443-474 | whatever the zone configures, the KEYS reply of the store rshyve builds decodes to its keys |
| `MdataSession.DotKeyLost` | bin/rshyve/src/mdata.rs:388-396 | a limit of the store interface: the one key `.a`, which rshyve never sets, would not be what its reply decodes to |

## Left out

- IntrPins.PciIntrRoutes.DoIrq: says nothing of the ATPIC line, which a routing register write can leave raised on the old route.
- DirectBoot.AcceptedExactly: says which images are accepted, not which of several faults is reported.
- FwCfgModel.FwCfg.InsertNamed: wraps the selector counter as a release build does, where a debug build panics; asks for fewer than 2^32 inserts; concurrent inserts, between which the directory rebuild releases the lock, are not modelled.
- GuestMemory.MemCtx.WriteBytes: a write happens at once; what a running vCPU sees of it half done is not modelled.
- `PhysMap`'s `add_ram`, `add_region` and `add_rom_with_ram_tail`: compositions of claim and commit with segment numbering.
- `add_region_anon` and `add_region_split_anon`: test doubles.
- `IoApicPin` and the no-op pin.
- Mapping and volatile access code under `crates/vmm-core/src/mem/`: a mapping is an identity, an offset, a length and a protection.
- The e820 table's contents, CRC32 and base64: parameters with the facts stated where they are used.
- Flag bits in page table entries are added rather than or-ed; all addresses used have them clear.
- The sort in the fw_cfg directory is a library call; it is modelled by a stable insertion sort and shown to have only one possible result.
- The re-exec's argument list, sockets, serial back ends, logging, command line, BSP registers, exit decoding and CPUID tables.

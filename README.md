# Verified model of the EDK II microcode loader, AHCI device paths, HDD password unlock and 8259 services

This project models five pieces of EDK II firmware in Dafny and proves properties of them:

- **Microcode updates** (`UefiCpuPkg/Library/MpInitLib/Microcode.c`). The code implements the update format of section 9.11 of the Intel 64 and IA-32 Architectures Software Developer's Manual, Volume 3A.
  - `MicrocodeDetect` walks the published region record by record. It skips padding in 1 KiB steps. It validates records with the 32-bit wrapping word sum and the "incomplete checksum" shortcut for extended signature entries. It keeps the newest record that names the processor, writes the update trigger, and caches the BSP's result for the APs.
  - `LoadMicrocodePatch` scans the flash region and keeps the records its selection picks. It keeps them in a doubling `PatchInfoBuffer`, with the same overflow checks as the source. The selection is a parameter of the loader: as written, a record is kept only when its base header names some processor; corrected, one of its extended entries may name the processor instead (see "## Findings").
  - `LoadMicrocodePatchWorker` packs the kept records into a fresh buffer, each one 1 KiB aligned and zero padded, and publishes that buffer.
- **Device paths of the AHCI PEI driver** (`MdeModulePkg/Bus/Ata/AhciPei/DevicePath.c`), over the node format of section 10.3.1 of the UEFI Specification. The model covers node length and next node, path size, splitting a multi-instance path, the controller path check, and building a SATA device path.
- **S3 port enumeration** (`MdeModulePkg/Bus/Ata/AhciPei/AhciPeiS3.c`): which SATA ports of a controller are listed in the LockBox's device list.
- **HDD password S3 unlock** (`SecurityPkg/HddPassword/HddPasswordPei.c`). This covers the table of handled ATA pass-through PPI instances, the search of the saved `HDD_PASSWORD_DEVICE_INFO` records, and the SECURITY UNLOCK and FREEZE LOCK commands with their status mapping. It also covers the zeroing of the password payload and of the restored buffer.
- **The 8259 PIC services** (`PcAtChipsetPkg/8254TimerDxe/8259Services.c`): the `mIntMask`/`mEdgeLevel` globals and the byte port writes, kept as an appended trace.

## How the model is built

Memory is a `seq<byte>` indexed by address. A read past its end gives 0. 16-bit and 32-bit reads are little-endian. UINT32 arithmetic wraps explicitly (`Add32`, `Sub32`).

Each loop of the source is a `method` with a `while` or `for` loop. Each loop is proved equal to a recursive specification function:

| loop | specification function |
|---|---|
| microcode scan | `Scan` |
| microcode collection | `Collect` |
| packing | `Pack` |
| node walk | `FindEnd` |
| instance split | `InstanceCopy` / `NextInstance` |
| port enumeration | `Ports` |
| record walk | `FindDevice` |
| instance loop | `RunUpTo` |

The properties the source promises are then proved about those functions. Each one is also connected to an independent view of the data:

- a record list `Walk` shared by both microcode scans;
- device paths as lists of `Node` values with an `Encode` function;
- device records as `DeviceInfo` values with `EncodeInfo`.

State that the source changes in place is a `class`:

- `MpData.CpuMpData` for `CPU_MP_DATA`;
- `HddPassword.HddPasswordPrivate` for the driver's private data;
- `Pic8259.Legacy8259` for the two globals and the write trace.

Buffers that the source fills are `array`s: the packed microcode buffer, `PatchInfoBuffer`, a device path instance copy, the built device path, the unlock payload and the restored LockBox buffer.

Everything outside the code is an input:

- hardware (CPUID, MSRs, APIC topology, the revision read back after the update write);
- PCDs;
- allocation success;
- LockBox results;
- PPI results.

## Model

| member | source | states |
|---|---|---|
| MicrocodeFormat.ResolvedSumIsSubstitutedSum | UefiCpuPkg/Library/MpInitLib/Microcode.c:192-198 | Adding an identity's signature, flags and checksum to InCompleteCheckSum32 gives exactly the wrapping word sum of the record with those three fields substituted into its header. This makes the incomplete-checksum shortcut sound. |
| MicrocodeFormat.BaseResolvedSumIsSum32 | UefiCpuPkg/Library/MpInitLib/Microcode.c:213-216 | With the record's own fields added back (CheckSum Part1), the incomplete sum is the plain CalculateSum32 of the scanned range. |
| MicrocodeFormat.InCompleteSumUnfolded | UefiCpuPkg/Library/MpInitLib/Microcode.c:192-198 | The incomplete sum is the unbounded word sum minus the three header fields, reduced modulo 2^32. |
| MicrocodeFormat.WrapChain | UefiCpuPkg/Library/MpInitLib/Microcode.c:196-198 | Three wrapping subtractions and then three wrapping additions equal the unbounded computation reduced once. |
| MicrocodeFormat.ResolveChain | UefiCpuPkg/Library/MpInitLib/Microcode.c:249-252 | CheckSum Part3 on the incomplete sum equals the substituted sum modulo 2^32. |
| MicrocodeFormat.SumOfSubstituted | UefiCpuPkg/Library/MpInitLib/Microcode.c:249-252 | Replacing words 3, 4 and 6 of the record changes its unbounded sum by exactly the differences. |
| MicrocodeFormat.FirstEntryMatch | UefiCpuPkg/Library/MpInitLib/Microcode.c:245-268 | The extended-entry search returns an index inside the range it searched. |
| MicrocodeFormat.FirstEntryMatchIsFirst | UefiCpuPkg/Library/MpInitLib/Microcode.c:245-268 | The search returns the first entry whose CheckSum Part3 is zero and that names the processor; every earlier entry fails the test. It returns none only when no entry in the range passes. |
| MicrocodeFormat.MatchAtBase | UefiCpuPkg/Library/MpInitLib/Microcode.c:206-220 | When the base header names the processor, the record is accepted exactly when the wrapping word sum of its scanned range is zero, and the flags are the header's ProcessorFlags. |
| MicrocodeFormat.MatchAtExtended | UefiCpuPkg/Library/MpInitLib/Microcode.c:221-272 | A record whose base header does not name the processor is accepted only if all of these hold: DataSize is non-zero; the extended length is non-zero and a multiple of 4; the table's word sum is zero; an entry names the processor, and that entry's fields make the record's sum zero. The accepted flags are that entry's. `MatchAtExtendedComplete` states the converse. |
| MicrocodeFormat.ExtendedMatchComplete | UefiCpuPkg/Library/MpInitLib/Microcode.c:236-268 | The extended-table search accepts whenever the table is intact and some entry within its count matches. |
| MicrocodeFormat.MatchAtExtendedComplete | UefiCpuPkg/Library/MpInitLib/Microcode.c:221-272 | Conversely, such a record is accepted whenever DataSize is non-zero, the extended table is intact, and one of its entries names the processor and makes the record's sum zero. |
| MicrocodeFormat.ExtendedMatchChecks | UefiCpuPkg/Library/MpInitLib/Microcode.c:223-264 | When the extended test accepts, the table conditions held and the flags come from the first matching entry. |
| MicrocodeFormat.ExtendedMatchMeaning | UefiCpuPkg/Library/MpInitLib/Microcode.c:238-264 | The extended test accepts only through an entry whose substituted record sums to zero. |
| MicrocodeFormat.EntryProves | UefiCpuPkg/Library/MpInitLib/Microcode.c:249-258 | An entry that passes CheckSum Part3 against the incomplete sum names the processor and makes the substituted record sum to zero. |
| MicrocodeFormat.MatchedFlagsCoverPlatform | UefiCpuPkg/Library/MpInitLib/Microcode.c:206-268 | The flags an accepted record is accepted under always have the processor's platform bit set. |
| MicrocodeFormat.PaddingNeverRecord | UefiCpuPkg/Library/MpInitLib/Microcode.c:273-283 | A header version other than 1 is never a record, and the cursor moves by exactly 1 KiB. |
| MicrocodeFormat.WalkStep | UefiCpuPkg/Library/MpInitLib/Microcode.c:160-299 | The walk from a cursor is the cursor (when it is a record) followed by the walk from the cursor plus its advance. The walk is stuck where the advance is 0. |
| MicrocodeFormat.WalkRecords | UefiCpuPkg/Library/MpInitLib/Microcode.c:160-187 | Every position the walk visits is a record: header version 1, sizes that pass the checks, inside the region, at or after the start. |
| MicrocodeFormat.PaddingOnlyHasNoRecords | UefiCpuPkg/Library/MpInitLib/Microcode.c:273-283 | A region holding only padding contains no record, and the walk over it, 1 KiB at a time, ends. |
| MicrocodeDetect.Candidates | UefiCpuPkg/Library/MpInitLib/Microcode.c:160-299 | The candidates of a walk's records are, in order, the candidate of each record. |
| MicrocodeDetect.ScanIsFoldOfWalk | UefiCpuPkg/Library/MpInitLib/Microcode.c:160-299 | The scan loop hangs exactly when the record walk gets stuck. Otherwise it is the walk's candidates considered in region order. |
| MicrocodeDetect.ScanAgreesLast | UefiCpuPkg/Library/MpInitLib/Microcode.c:287-299 | The last cursor of a walk (stuck, or the next cursor past the region) gives the same result in the scan and in the fold. |
| MicrocodeDetect.ScanAgreesStep | UefiCpuPkg/Library/MpInitLib/Microcode.c:160-299 | If the scan agrees with the fold from the next cursor, it agrees from the current one. |
| MicrocodeDetect.FoldHere | UefiCpuPkg/Library/MpInitLib/Microcode.c:293-298 | Considering the cursor's own record first, then the later records, is the fold of the record list. |
| MicrocodeDetect.CandidatesCons | UefiCpuPkg/Library/MpInitLib/Microcode.c:160-299 | The candidates of a record followed by others are its candidate followed by theirs. |
| MicrocodeDetect.FoldMonotone | UefiCpuPkg/Library/MpInitLib/Microcode.c:293-296 | LatestRevision never decreases during the scan. |
| MicrocodeDetect.FoldIsUpperBound | UefiCpuPkg/Library/MpInitLib/Microcode.c:200-296 | No accepted record has a revision above the final LatestRevision. |
| MicrocodeDetect.FoldWitness | UefiCpuPkg/Library/MpInitLib/Microcode.c:293-296 | The final result is either the starting one, or the first accepted candidate with the final revision. Earlier accepted candidates are strictly older. MicrocodeData is that record's address plus the header size, and ProcessorFlags are the flags it matched under. |
| MicrocodeDetect.ScanSelectsNewest | UefiCpuPkg/Library/MpInitLib/Microcode.c:155-299 | From LatestRevision 0 and MicrocodeData NULL, a scan that ends yields either 0/NULL when no record is accepted, or the first accepted record of maximal revision, with no accepted record newer. |
| MicrocodeDetect.ScanFlagsCoverPlatform | UefiCpuPkg/Library/MpInitLib/Microcode.c:332-339 | When the scan finds an update, the flags the BSP caches carry its own platform bit. |
| MicrocodeDetect.ApReusesBspResult | UefiCpuPkg/Library/MpInitLib/Microcode.c:146-153 | After the BSP's scan has found and cached an update, an AP with the same signature and platform gets the same revision and address without scanning. |
| MicrocodeDetect.SearchExtendedTable | UefiCpuPkg/Library/MpInitLib/Microcode.c:243-268 | The extended-table loop finds a match exactly when the first-match search does, and returns that entry's ProcessorFlag. |
| MicrocodeDetect.CheckRecord | UefiCpuPkg/Library/MpInitLib/Microcode.c:192-272 | CorrectMicrocode is set exactly when the record is newer than LatestRevision and accepted for the processor, with the flags it was accepted under. |
| MicrocodeDetect.StepOnce | UefiCpuPkg/Library/MpInitLib/Microcode.c:165-298 | One body pass moves the cursor by the record's advance. The best-so-far is updated only at a record. |
| MicrocodeDetect.ScanRegion | UefiCpuPkg/Library/MpInitLib/Microcode.c:155-299 | The do-while loop computes the scan of the region from LatestRevision 0 and MicrocodeData NULL. |
| MicrocodeDetect.Decide | UefiCpuPkg/Library/MpInitLib/Microcode.c:105-158 | Returns the outcome before the Done label: skip on region size 0, skip for an AP that already has an update or for a thread other than 0, reuse the BSP cache for a matching AP, and otherwise scan. |
| MicrocodeDetect.Finish | UefiCpuPkg/Library/MpInitLib/Microcode.c:301-342 | The trigger is written only when LatestRevision is above the current revision. CpuData[n].MicrocodeData is set only when the revision read back equals LatestRevision. The BSP caches signature, flags, address and revision only when it found an update. Nothing else changes. |
| MicrocodeDetect.Detect | UefiCpuPkg/Library/MpInitLib/Microcode.c:74-343 | MicrocodeDetect as a whole: the trigger, the per-processor MicrocodeData and the BSP cache, each as a function of the decided outcome. The published region and BspNumber are unchanged, and the run hangs exactly when the scan does. |
| MpData.CpuMpData.constructor | UefiCpuPkg/Library/MpInitLib/Microcode.c:146-158 | A CPU_MP_DATA with the given region, BSP and processors, and an empty BSP cache. |
| MicrocodeLoad.AlignUp1K | UefiCpuPkg/Library/MpInitLib/Microcode.c:543-548 | ALIGN_VALUE(x, SIZE_1KB) is the least multiple of 1024 not below x. |
| MicrocodeLoad.BaseNamesSomeFromMeaning | UefiCpuPkg/Library/MpInitLib/Microcode.c:502-512 | The processor loop as written finds a processor from index k on exactly when one has the header's signature and its platform bit set in the header's flags. |
| MicrocodeLoad.NeedLoadAsWrittenMeaning | UefiCpuPkg/Library/MpInitLib/Microcode.c:502-512 | The selection as written keeps a record exactly when its base header names some processor. |
| MicrocodeLoad.EntryNamesFromMeaning | UefiCpuPkg/Library/MpInitLib/Microcode.c:243-268 | The corrected entry loop finds an entry from index i on exactly when one names the processor. |
| MicrocodeLoad.NamesSomeFromMeaning | UefiCpuPkg/Library/MpInitLib/Microcode.c:505-512 | The corrected processor loop finds a processor from index k on exactly when the record names one, in its base header or its extended table. |
| MicrocodeLoad.NeedLoadMeaning | UefiCpuPkg/Library/MpInitLib/Microcode.c:502-512 | The corrected selection keeps a record exactly when its base header, or an entry of a non-empty extended table, names some processor. |
| MicrocodeLoad.AcceptedIsNeeded | UefiCpuPkg/Library/MpInitLib/Microcode.c:502-512 | Every record that MicrocodeDetect could accept for one of the processors is kept by the corrected selection. |
| MicrocodeLoad.AsWrittenIsIncluded | UefiCpuPkg/Library/MpInitLib/Microcode.c:502-512 | The correction only adds records: every record the code as written keeps is still kept. |
| MicrocodeLoad.ExtendedOnlyRecordIsDropped | UefiCpuPkg/Library/MpInitLib/Microcode.c:502-512 | A record that MicrocodeDetect accepts for some processor, but whose base header names none of them, is skipped by the selection as written and kept by the correction. |
| MicrocodeLoad.ExtendedOnlyPatchIsDropped | UefiCpuPkg/Library/MpInitLib/Microcode.c:502-512 | On memory holding the 84-byte patch `ExtendedOnlyWords`, MicrocodeDetect accepts the patch for the single processor (signature 1, platform 0), the selection as written skips it, and the correction keeps it. |
| MicrocodeLoad.ExtendedOnlyPatchMatches | UefiCpuPkg/Library/MpInitLib/Microcode.c:200-272 | The 84-byte patch is a record, and it is accepted for signature 1 on platform 0 under flags 1, through its only extended entry. |
| MicrocodeLoad.ExtendedOnlyTableMatch | UefiCpuPkg/Library/MpInitLib/Microcode.c:223-264 | The patch's extended table is intact, and its only entry matches with flags 1. |
| MicrocodeLoad.ExtendedOnlyHeaderSum | UefiCpuPkg/Library/MpInitLib/Microcode.c:192-195 | The word sum over the patch's header and data is 90. |
| MicrocodeLoad.ExtendedOnlyTableSum | UefiCpuPkg/Library/MpInitLib/Microcode.c:238-239 | The word sum over the patch's extended table wraps to 0. |
| MicrocodeLoad.ExtendedOnlyPatchFields | UefiCpuPkg/Library/MpInitLib/Microcode.c:200-230 | The patch's header fields and extended-table words read back as laid out. |
| MicrocodeLoad.EntryChecksumWraps | UefiCpuPkg/Library/MpInitLib/Microcode.c:249-253 | CheckSum Part3 of the patch's entry wraps to 0. |
| MicrocodeLoad.ExtendedOnlyPatchExists | UefiCpuPkg/Library/MpInitLib/Microcode.c:502-512 | A memory holding the patch exists: its words laid out little-endian, 84 bytes. |
| MicrocodeLoad.TwoPatchFields | UefiCpuPkg/Library/MpInitLib/Microcode.c:469-495 | On the two-patch region, the second patch's header at address 84 reads back as laid out in `BaseNamedWords`. |
| MicrocodeLoad.TwoPatchSelection | UefiCpuPkg/Library/MpInitLib/Microcode.c:469-512 | On the two-patch region, both positions are records of 84 and 52 bytes. The selection as written skips the first and keeps the second; the correction keeps both. |
| MicrocodeLoad.StepSkips | UefiCpuPkg/Library/MpInitLib/Microcode.c:514-555 | A pass over a position the selection does not pick, with a non-zero advance, moves the cursor by that advance and leaves the table as it was. |
| MicrocodeLoad.StepStores | UefiCpuPkg/Library/MpInitLib/Microcode.c:514-555 | A pass over a record the selection picks, when the store succeeds, moves the cursor by the record's size and yields the stored table. |
| MicrocodeLoad.AsWrittenPacksSecond | UefiCpuPkg/Library/MpInitLib/Microcode.c:469-556 | On a region [0, 136) whose position 0 advances by 84 and is skipped by the selection as written, and whose position 84 is a 52-byte record it picks, loading as written reaches the worker with the second patch only, in a 1 KiB slot. |
| MicrocodeLoad.CorrectedPacksBoth | UefiCpuPkg/Library/MpInitLib/Microcode.c:469-556 | On a region [0, 136) holding an 84-byte and a 52-byte record that the corrected selection both picks, loading reaches the worker with both patches in region order, 2 KiB in all. |
| MicrocodeLoad.ExtendedOnlyPatchIsNotPacked | UefiCpuPkg/Library/MpInitLib/Microcode.c:469-556 | On the two-patch region with one processor (signature 1, platform 0), MicrocodeDetect accepts the first patch for that processor, yet loading as written packs only the second; the correction packs both. |
| MicrocodeLoad.TwoPatchRegionExists | UefiCpuPkg/Library/MpInitLib/Microcode.c:502-512 | A memory holding both patches exists: their words laid out little-endian, 136 bytes. |
| MicrocodeLoad.LeWordsRead | UefiCpuPkg/Library/MpInitLib/Microcode.c:192-195 | Words laid out little-endian read back as the same words. |
| MicrocodeLoad.NeedLoadScanAsWritten | UefiCpuPkg/Library/MpInitLib/Microcode.c:502-512 | The processor loop as written computes the as-written selection. |
| MicrocodeLoad.ExtendedTableNames | UefiCpuPkg/Library/MpInitLib/Microcode.c:223-268 | The corrected extended-table loop finds an entry exactly when the table is present and one of its entries names the processor. |
| MicrocodeLoad.NeedLoadScan | UefiCpuPkg/Library/MpInitLib/Microcode.c:502-512 | The corrected processor loop computes the corrected selection. |
| MicrocodeLoad.GrownCapacity | UefiCpuPkg/Library/MpInitLib/Microcode.c:515-537 | After PatchNumber++ the capacity is strictly above the new PatchNumber and at most twice the overflow bound. Growth fails exactly when the table is full and either doubling would overflow or ReallocatePool fails. |
| MicrocodeLoad.Store | UefiCpuPkg/Library/MpInitLib/Microcode.c:514-550 | A successful store appends `{address, TotalSize, ALIGN_VALUE(TotalSize, 1 KiB)}` and keeps the table invariant. It fails exactly when the capacity cannot grow or TotalLoadSize would overflow. |
| MicrocodeLoad.StepAt | UefiCpuPkg/Library/MpInitLib/Microcode.c:468-555 | One loop pass, under either selection, keeps the table invariant. The cursor either moves forward, or stays only after a record of size 0 was stored. |
| MicrocodeLoad.CollectInventory | UefiCpuPkg/Library/MpInitLib/Microcode.c:468-556 | When the scan reaches the worker, the record walk ends, and the table holds exactly the records of the walk that the selection picks, in order, appended to the starting table. Both selections. |
| MicrocodeLoad.InventoryStep | UefiCpuPkg/Library/MpInitLib/Microcode.c:468-556 | The inductive step of the inventory claim. |
| MicrocodeLoad.InventoryNext | UefiCpuPkg/Library/MpInitLib/Microcode.c:555-556 | The inventory claim carries over when the loop goes on inside the region. |
| MicrocodeLoad.InventoryLast | UefiCpuPkg/Library/MpInitLib/Microcode.c:555-556 | The inventory claim holds when the cursor leaves the region. |
| MicrocodeLoad.CollectTable | UefiCpuPkg/Library/MpInitLib/Microcode.c:558-571 | The worker is given at least one patch. Every slot is its size rounded up to 1 KiB, and TotalLoadSize is their sum. |
| MicrocodeLoad.StepAtShape | UefiCpuPkg/Library/MpInitLib/Microcode.c:469-555 | A pass that goes on stores exactly the slot of a record the selection picks, and moves by the record's advance. |
| MicrocodeLoad.SelectedAppend | UefiCpuPkg/Library/MpInitLib/Microcode.c:514-550 | Selecting from two lists of records one after the other is selecting from their concatenation. |
| MicrocodeLoad.SelectedMembers | UefiCpuPkg/Library/MpInitLib/Microcode.c:514-550 | Every record of the list that the selection picks has its slot selected, and every selected slot belongs to such a record of the list. |
| MicrocodeLoad.LoadInventory | UefiCpuPkg/Library/MpInitLib/Microcode.c:456-571 | From the start of the region and the initial table, what reaches the worker is exactly the walk's records that the selection picks, in region order, each with its size and 1 KiB slot. TotalLoadSize is the sum of the slots. This holds for the selection as written and for the corrected one. |
| MicrocodeLoad.LoadKeepsAccepted | UefiCpuPkg/Library/MpInitLib/Microcode.c:502-550 | With the corrected selection, a record of the flash region that MicrocodeDetect accepts for one of the processors is among the packed patches. With the selection as written, this holds only when the record's base header names that processor. |
| MicrocodeLoad.LoadsOnlyNeeded | UefiCpuPkg/Library/MpInitLib/Microcode.c:502-550 | Under either selection, every packed patch is a record of the region that the selection picks, with its own slot. |
| MicrocodeLoad.PackLength | UefiCpuPkg/Library/MpInitLib/Microcode.c:371-396 | The packed buffer is TotalLoadSize bytes long. |
| MicrocodeLoad.PackPrefix | UefiCpuPkg/Library/MpInitLib/Microcode.c:379-397 | Packing the first m patches gives the first Offset(m) bytes of the full packing. |
| MicrocodeLoad.PrefixAligned | UefiCpuPkg/Library/MpInitLib/Microcode.c:548 | A prefix of a table with aligned slots has aligned slots. |
| MicrocodeLoad.OffsetAligned | UefiCpuPkg/Library/MpInitLib/Microcode.c:396 | Every slot starts at a multiple of 1 KiB. |
| MicrocodeLoad.PackLayout | UefiCpuPkg/Library/MpInitLib/Microcode.c:379-397 | At its 1 KiB-aligned offset the packed buffer holds patch j verbatim for Size bytes, then zeros up to AlignedSize. |
| MicrocodeLoad.SlotAt | UefiCpuPkg/Library/MpInitLib/Microcode.c:380-394 | One slot holds the patch's bytes and then zeros, AlignedSize bytes in all. |
| MicrocodeLoad.PackSnoc | UefiCpuPkg/Library/MpInitLib/Microcode.c:396 | Packing one more patch appends its slot, and the walker moves by its AlignedSize. |
| MicrocodeLoad.LoadMicrocodePatchWorker | UefiCpuPkg/Library/MpInitLib/Microcode.c:358-412 | If AllocatePages fails, the published address and size are unchanged. Otherwise the fresh buffer is the packing of the table, and the published address and size become that buffer and TotalLoadSize. |
| MicrocodeLoad.PackNext | UefiCpuPkg/Library/MpInitLib/Microcode.c:380-396 | One pass of the worker loop extends the packed prefix by one slot. |
| MicrocodeLoad.FillSlot | UefiCpuPkg/Library/MpInitLib/Microcode.c:380-394 | The CopyMem and ZeroMem calls write the slot at the walker and touch nothing else. |
| MicrocodeLoad.ReallocatePatchInfo | UefiCpuPkg/Library/MpInitLib/Microcode.c:528-532 | ReallocatePool gives a fresh table of the new capacity that starts with the old entries. |
| MicrocodeLoad.LoadStep | UefiCpuPkg/Library/MpInitLib/Microcode.c:469-555 | The body pass on the array table computes StepAt under the chosen selection: the new cursor and table, or the exit. |
| MicrocodeLoad.StorePatch | UefiCpuPkg/Library/MpInitLib/Microcode.c:514-550 | The needed-record branch on the array table computes Store. |
| MicrocodeLoad.CollectPatches | UefiCpuPkg/Library/MpInitLib/Microcode.c:456-556 | The do-while loop computes Collect from the initial table, under the chosen selection. When it packs, the array holds the collected entries. |
| MicrocodeLoad.LoadMicrocodePatch | UefiCpuPkg/Library/MpInitLib/Microcode.c:420-578 | Under the chosen selection, the PCD region is published first. It is replaced by the packed buffer and TotalLoadSize only when the scan reaches the worker and AllocatePages succeeds. A NULL or empty region, a failed AllocatePool, an overflow, a failed ReallocatePool or zero patches leave the PCD region published. |
| DevicePath.FindEnd | MdeModulePkg/Bus/Ata/AhciPei/DevicePath.c:120-123 | The node walk stops inside the buffer, at or after its start, at a node where it should stop. |
| DevicePath.EncodeNode | MdeModulePkg/Bus/Ata/AhciPei/DevicePath.c:63-70 | An encoded node is as long as its Length field says. |
| DevicePath.NodeRoundTrip | MdeModulePkg/Bus/Ata/AhciPei/DevicePath.c:63-90 | DevicePathNodeLength reads back the 16-bit little-endian length an encoded node was written with. NextDevicePathNode lands right after the node. |
| DevicePath.EncodeAppend | MdeModulePkg/Bus/Ata/AhciPei/DevicePath.c:83-90 | Encoding two node lists one after the other is encoding their concatenation. |
| DevicePath.EncodeOne | MdeModulePkg/Bus/Ata/AhciPei/DevicePath.c:83-90 | Encoding one node is that node's bytes. |
| DevicePath.FindEndOfEncoding | MdeModulePkg/Bus/Ata/AhciPei/DevicePath.c:120-123 | On an encoded path the walk stops exactly at the first node it should stop at. |
| DevicePath.GetDevicePathSize | MdeModulePkg/Bus/Ata/AhciPei/DevicePath.c:106-129 | The size is 0 for NULL. Otherwise it is the offset of the first End-Entire node plus that node's own length. |
| DevicePath.EncodedPathSize | MdeModulePkg/Bus/Ata/AhciPei/DevicePath.c:106-129 | The size of an encoded single-instance path is its length in bytes. |
| DevicePath.MarkedEnd | MdeModulePkg/Bus/Ata/AhciPei/DevicePath.c:182-184 | Setting an instance's first End node to End-Entire makes the whole-path walk stop there. |
| DevicePath.FindEndShift | MdeModulePkg/Bus/Ata/AhciPei/DevicePath.c:170-172 | The walk depends only on the bytes it reads, so a copy of them elsewhere walks the same way. |
| DevicePath.InstanceCopyBytes | MdeModulePkg/Bus/Ata/AhciPei/DevicePath.c:182-186 | The copy holds the instance's bytes, except the End node's SubType, which is End-Entire. |
| DevicePath.MarkedCopy | MdeModulePkg/Bus/Ata/AhciPei/DevicePath.c:182-185 | The copy is the instance's bytes taken from the marked buffer. |
| DevicePath.InstanceCopyOk | MdeModulePkg/Bus/Ata/AhciPei/DevicePath.c:184-185 | The copy is a well-formed path: its whole-path walk stops at its last node, and its size is the instance size. |
| DevicePath.CopyWalk | MdeModulePkg/Bus/Ata/AhciPei/DevicePath.c:170-186 | Bytes that agree with the instance, except for an End-Entire SubType on its End node, walk like the instance. |
| DevicePath.CopyInstance | MdeModulePkg/Bus/Ata/AhciPei/DevicePath.c:182-186 | The input buffer ends byte-identical to how it began. The copy, when AllocateCopyPool succeeds, is the instance with its End node made End-Entire. |
| DevicePath.GetNextDevicePathInstance | MdeModulePkg/Bus/Ata/AhciPei/DevicePath.c:149-199 | A NULL cursor gives NULL, a NULL cursor and size 0. Otherwise the size is the offset of the first End node plus 4, the copy is the instance made End-Entire, and the buffer is unchanged. The cursor becomes NULL after End-Entire, and otherwise the node after the End-Instance node. |
| DevicePath.InstanceOfEncoding | MdeModulePkg/Bus/Ata/AhciPei/DevicePath.c:170-196 | On an encoded instance the copy is its nodes closed by an End-Entire node. The cursor moves past the End node only if it ended one instance. |
| DevicePath.CopyMarksEnd | MdeModulePkg/Bus/Ata/AhciPei/DevicePath.c:182-186 | A copy of a node list and a node, with that node's SubType byte replaced, is the list followed by the marked node. |
| DevicePath.EncodedInstanceEnd | MdeModulePkg/Bus/Ata/AhciPei/DevicePath.c:170-177 | On an encoded instance the walk stops right after its nodes, at an End node of length 4 with the given SubType. |
| DevicePath.AhciCheckHcDevicePath | MdeModulePkg/Bus/Ata/AhciPei/DevicePath.c:213-240 | SUCCESS exactly when the path is not NULL and the offset of its End-Entire node plus 4 is the given length. INVALID_PARAMETER otherwise. |
| DevicePath.WriteSataNode | MdeModulePkg/Bus/Ata/AhciPei/DevicePath.c:296-303 | The SATA template is written at the walker with the port and port multiplier port filled in, and nothing else changes. |
| DevicePath.AhciBuildDevicePath | MdeModulePkg/Bus/Ata/AhciPei/DevicePath.c:259-317 | NULL outputs give INVALID_PARAMETER. A failed allocation gives OUT_OF_RESOURCES and length 0. Otherwise the length is the controller length plus 10, and the bytes are the controller path without its End node, the SATA node (Port, PortMultiplierPort, Lun 0) and an End-Entire node. |
| DevicePath.BuildOfEncoding | MdeModulePkg/Bus/Ata/AhciPei/DevicePath.c:259-317 | Built on an encoded controller path, the device path is that path with the SATA node inserted before its End node. It passes AhciCheckHcDevicePath with the returned length. |
| DevicePath.BuiltIsEncoding | MdeModulePkg/Bus/Ata/AhciPei/DevicePath.c:285-314 | The built bytes are the encoding of the controller's nodes, the SATA node and an End-Entire node. |
| AhciS3.SataPortOf | MdeModulePkg/Bus/Ata/AhciPei/AhciPeiS3.c:107-123 | A port found by the node walk is below AHCI_MAX_PORTS. |
| AhciS3.Contribution | MdeModulePkg/Bus/Ata/AhciPei/AhciPeiS3.c:90-124 | A port an instance contributes is below AHCI_MAX_PORTS. |
| AhciS3.PortsBelowMax | MdeModulePkg/Bus/Ata/AhciPei/AhciPeiS3.c:115-119 | Every enumerated port is one the driver supports. |
| AhciS3.FindSataPort | MdeModulePkg/Bus/Ata/AhciPei/AhciPeiS3.c:107-123 | The inner loop examines only the first SATA node before an End node. It yields its port only if the port is below 32 and the port multiplier port is 0xFFFF. |
| AhciS3.InstancePort | MdeModulePkg/Bus/Ata/AhciPei/AhciPeiS3.c:90-124 | An instance no longer than the controller path, or a controller path of at most 4 bytes, contributes nothing. Otherwise the instance contributes only if its first length-4 bytes equal the controller's. |
| AhciS3.VisitInstance | MdeModulePkg/Bus/Ata/AhciPei/AhciPeiS3.c:85-124 | One pass stops the loop when the copy cannot be made. Otherwise it moves the cursor as GetNextDevicePathInstance does and returns the instance's port. The buffer is unchanged. |
| AhciS3.GetEnumeratePorts | MdeModulePkg/Bus/Ata/AhciPei/AhciPeiS3.c:37-131 | No port unless the first restore reports BUFFER_TOO_SMALL and both the allocation and the second restore succeed. Otherwise the bitmap is the union of the ports of the instances, taken in order until a copy fails or the list ends. |
| AhciS3.SataNodeRead | MdeModulePkg/Bus/Ata/AhciPei/AhciPeiS3.c:108-119 | The walk at an encoded SATA node reads back its port numbers. |
| AhciS3.SataPortOfEncoding | MdeModulePkg/Bus/Ata/AhciPei/AhciPeiS3.c:107-123 | On encoded nodes that are neither End nor SATA, followed by a SATA node, the walk reads that node's port numbers. |
| AhciS3.EnumeratesBuiltPath | MdeModulePkg/Bus/Ata/AhciPei/AhciPeiS3.c:81-125 | An instance built by AhciBuildDevicePath from a controller path makes that controller enumerate exactly the instance's port, unless the port is at least 32 or behind a port multiplier. |
| AhciS3.BuiltInstance | MdeModulePkg/Bus/Ata/AhciPei/AhciPeiS3.c:85 | A built path stored in the list is one instance, copied whole, with nothing after it. |
| AhciS3.BuiltContribution | MdeModulePkg/Bus/Ata/AhciPei/AhciPeiS3.c:90-121 | A built path passes the length and prefix tests against its controller, and then yields its SATA port. |
| AhciS3.BuiltPrefix | MdeModulePkg/Bus/Ata/AhciPei/AhciPeiS3.c:99-103 | A built path is 10 bytes longer than the controller path, and starts with all of the controller path except its End node. |
| AhciS3.BuiltSataPort | MdeModulePkg/Bus/Ata/AhciPei/AhciPeiS3.c:107-121 | The walk of a built path passes the controller's nodes and reads the SATA node. |
| HddPassword.HddPasswordPrivate.constructor | SecurityPkg/HddPassword/HddPasswordPei.c:405-414 | The template private data has an empty handled table. |
| HddPassword.HddPasswordPrivate.IsPassThruInstanceHandled | SecurityPkg/HddPassword/HddPasswordPei.c:32-47 | True exactly when the instance is one of the first AtaPassThruPpiInstanceNum entries. |
| HddPassword.HddPasswordPrivate.HandleInstance | SecurityPkg/HddPassword/HddPasswordPei.c:290-303 | A handled instance leaves the table unchanged. A new instance is stored at index AtaPassThruPpiInstanceNum, and the count grows by one. |
| HddPassword.HddPasswordPrivate.VisitPpi | SecurityPkg/HddPassword/HddPasswordPei.c:274-366 | One pass of the instance loop: a handled instance makes no call. A new one is appended and its devices are served. The table stays within MAX_ATA_PASSTHRU_PPI. |
| HddPassword.HddPasswordPrivate.ServeInstances | SecurityPkg/HddPassword/HddPasswordPei.c:271-367 | The instance loop makes exactly the specified calls and leaves the specified table, and no instance appears twice. |
| HddPassword.HddPasswordPrivate.UnlockHddPassword | SecurityPkg/HddPassword/HddPasswordPei.c:233-372 | Nothing happens unless the first restore reports BUFFER_TOO_SMALL, AllocatePages succeeds and the second restore succeeds. Otherwise the calls are those of the instance loop over the restored records, and the buffer is all zeros before it is freed. |
| HddPassword.FindDevice | SecurityPkg/HddPassword/HddPasswordPei.c:337-364 | The record walk finds a record only inside the buffer, at or after its start. |
| HddPassword.FindDeviceMatches | SecurityPkg/HddPassword/HddPasswordPei.c:338-363 | The walk stops at a record that matches, and only there. Every record it steps over does not match. |
| HddPassword.FindDeviceInfo | SecurityPkg/HddPassword/HddPasswordPei.c:337-364 | The DevInfo loop computes the record walk from the buffer start, stepping 46 + DevicePathLength, while below Buffer + Length. |
| HddPassword.MatchesAt | SecurityPkg/HddPassword/HddPasswordPei.c:342-348 | A record matches exactly when Port and PortMultiplierPort are equal, the stored DevicePathLength is at least the live length, and the first live length minus 4 path bytes are equal. |
| HddPassword.EncodeInfo | SecurityPkg/HddPassword/HddPasswordPei.c:362-363 | A saved record is 46 bytes plus its device path. |
| HddPassword.Lookup | SecurityPkg/HddPassword/HddPasswordPei.c:338-360 | Lookup over record values returns an index inside the list. |
| HddPassword.LookupFirst | SecurityPkg/HddPassword/HddPasswordPei.c:338-360 | Lookup finds the first record that matches; it finds none only when none matches. |
| HddPassword.InfoRead | SecurityPkg/HddPassword/HddPasswordPei.c:342-363 | Each field of a saved record reads back as the value it was saved from, and the walk steps right past the record. |
| HddPassword.InfoHeaderRead | SecurityPkg/HddPassword/HddPasswordPei.c:342-363 | Port, PortMultiplierPort and DevicePathLength read back, and the next record starts right after this one. |
| HddPassword.InfoPasswordRead | SecurityPkg/HddPassword/HddPasswordPei.c:352-353 | The password reads back as saved. |
| HddPassword.InfoPathRead | SecurityPkg/HddPassword/HddPasswordPei.c:345-348 | Every prefix of the stored device path reads back as saved. |
| HddPassword.FindDeviceOfEncoding | SecurityPkg/HddPassword/HddPasswordPei.c:337-364 | On a buffer that holds exactly the saved records, the walk stops at the first matching record, at the sum of the sizes before it, or finds none when none matches. |
| HddPassword.WalkOfEncoding | SecurityPkg/HddPassword/HddPasswordPei.c:337-364 | On saved records the byte walk agrees with the walk over record values. |
| HddPassword.RecordsFindLookup | SecurityPkg/HddPassword/HddPasswordPei.c:338-363 | The walk over record values finds the offset of the record Lookup finds. |
| HddPassword.LookupHead | SecurityPkg/HddPassword/HddPasswordPei.c:342-363 | Lookup is the head when it matches, and otherwise one past the Lookup in the tail. |
| HddPassword.OffsetHead | SecurityPkg/HddPassword/HddPasswordPei.c:362-363 | A record's offset is the first record's size plus its offset in the tail. |
| HddPassword.PasswordAtOffset | SecurityPkg/HddPassword/HddPasswordPei.c:352-353 | The password of record i reads back at its offset. |
| HddPassword.HeadRecord | SecurityPkg/HddPassword/HddPasswordPei.c:338-363 | At a saved record, the walk stops if the record matches and otherwise goes on past it. Its password reads back. |
| HddPassword.SecurityCommands | SecurityPkg/HddPassword/HddPasswordPei.c:352-359 | No call without a matching record. With one, an unlock with identifier 0 and the saved password is sent exactly when the password is not all zero, and a freeze lock is always the last call. |
| HddPassword.SavedPasswordOfEncoding | SecurityPkg/HddPassword/HddPasswordPei.c:337-360 | On saved records, the walk yields the password of the first matching record, and nothing when none matches. |
| HddPassword.CommandsOfEncoding | SecurityPkg/HddPassword/HddPasswordPei.c:337-360 | On saved records, a device gets the calls for its first matching record. |
| HddPassword.DevicesCommandsNext | SecurityPkg/HddPassword/HddPasswordPei.c:313-366 | Serving one more device appends its calls. |
| HddPassword.RunUpToNext | SecurityPkg/HddPassword/HddPasswordPei.c:271-367 | One more pass of the instance loop extends the calls and the table as the loop body does. |
| HddPassword.RunUpToTable | SecurityPkg/HddPassword/HddPasswordPei.c:290-303 | The loop never appends an instance twice, and appends only instances it located. |
| HddPassword.DistinctCard | SecurityPkg/HddPassword/HddPasswordPei.c:290-303 | A table without repeats has as many distinct entries as slots. |
| HddPassword.LocatedIdsCard | SecurityPkg/HddPassword/HddPasswordPei.c:271-279 | The loop locates at most one instance per index it tries. |
| HddPassword.TableHasRoom | SecurityPkg/HddPassword/HddPasswordPei.c:271-302 | A located instance that is not yet in the table leaves room for it below MAX_ATA_PASSTHRU_PPI. |
| HddPassword.ServeDevice | SecurityPkg/HddPassword/HddPasswordPei.c:337-364 | One device: its record is searched in the restored buffer, and the calls for it are made. |
| HddPassword.ServePpi | SecurityPkg/HddPassword/HddPasswordPei.c:305-366 | A new instance makes no call when GetDevicePath fails or returns at most 4 bytes. Otherwise it makes the calls of its devices, in order. |
| HddPassword.DeviceHead | SecurityPkg/HddPassword/HddPasswordPei.c:106 | AtaDeviceHead is 0 for port multiplier port 0xFFFF, and otherwise (UINT8)(PortMultiplierPort << 4). |
| HddPassword.DeviceHeadNibble | SecurityPkg/HddPassword/HddPasswordPei.c:106 | Behind a port multiplier, the head register holds the low four bits of the port in its high nibble. |
| HddPassword.CommandStatus | SecurityPkg/HddPassword/HddPasswordPei.c:130-134 | DEVICE_ERROR exactly when the pass-through reports DEVICE_ERROR itself, or succeeds with ERR in the status and ABRT in the error register. Otherwise the pass-through status. |
| HddPassword.UnlockDevice | SecurityPkg/HddPassword/HddPasswordPei.c:65-142 | INVALID_PARAMETER for a NULL PPI or password, and OUT_OF_RESOURCES when the status block cannot be allocated; the payload is untouched in both cases. Otherwise a PIO data-out SECURITY UNLOCK packet is sent: head register as DeviceHead, first word `Identifier & BIT0`, then the 32 password bytes. The status is mapped, and the 512-byte payload is all zeros on return. |
| HddPassword.FreezeLockDevice | SecurityPkg/HddPassword/HddPasswordPei.c:158-224 | INVALID_PARAMETER for a NULL PPI, and OUT_OF_RESOURCES when the status block cannot be allocated. Otherwise a non-data SECURITY FREEZE LOCK packet is sent, and the status is mapped. |
| Pic8259.Legacy8259.constructor | PcAtChipsetPkg/8254TimerDxe/8259Services.c:21-22 | mIntMask starts at 0xFFFF, mEdgeLevel at 0x0000, and the trace is empty. |
| Pic8259.MaskWritesRoundTrip | PcAtChipsetPkg/8254TimerDxe/8259Services.c:40-43 | The four writes go to 0x21, 0xA1, 0x4D0 and 0x4D1 in that order. They carry the low and high bytes of both values, so the values come back whole. |
| Pic8259.Legacy8259.WriteMask | PcAtChipsetPkg/8254TimerDxe/8259Services.c:35-44 | Legacy8259WriteMask appends its four writes to the trace. |
| Pic8259.Legacy8259.GetMask | PcAtChipsetPkg/8254TimerDxe/8259Services.c:121-130 | Returns SUCCESS and yields mIntMask only when a place is given. It changes nothing. |
| Pic8259.Legacy8259.GetIrq0Vector | PcAtChipsetPkg/8254TimerDxe/8259Services.c:141-148 | Returns SUCCESS and vector 0x68. It changes nothing. |
| Pic8259.Irq0Bits | PcAtChipsetPkg/8254TimerDxe/8259Services.c:161-182 | Clearing IRQ0 unsets bit 0 and setting it sets bit 0. Every other bit is kept. |
| Pic8259.Irq0Idempotent | PcAtChipsetPkg/8254TimerDxe/8259Services.c:161-182 | Enabling or disabling IRQ0 twice is the same as doing it once. |
| Pic8259.Legacy8259.EnableIrq0 | PcAtChipsetPkg/8254TimerDxe/8259Services.c:157-167 | Clears bit 0 of both globals, writes them out and returns SUCCESS. |
| Pic8259.Legacy8259.DisableIrq0 | PcAtChipsetPkg/8254TimerDxe/8259Services.c:176-187 | Sets bit 0 of mIntMask, clears bit 0 of mEdgeLevel, writes them out and returns SUCCESS. |
| Pic8259.Legacy8259.EndOfInterrupt | PcAtChipsetPkg/8254TimerDxe/8259Services.c:196-205 | Writes EOI to 0xA0 only for IRQ 8 and up, then always writes EOI to 0x20. |
| Pic8259.WritesToAppend | PcAtChipsetPkg/8254TimerDxe/8259Services.c:223-225 | The writes to a port in a concatenated trace are those of each part. |
| Pic8259.EoisAreEoiCommands | PcAtChipsetPkg/8254TimerDxe/8259Services.c:200-204 | Every EOI write is the EOI command to a control register. |
| Pic8259.EoiCounts | PcAtChipsetPkg/8254TimerDxe/8259Services.c:200-225 | EOIs for IRQs 0 to n-1 reach the master n times, and the slave once for each IRQ from 8 on. |
| Pic8259.InitialEois | PcAtChipsetPkg/8254TimerDxe/8259Services.c:223-225 | The loop over IRQs 0 to 15 gives 16 master EOIs and 8 slave EOIs, 24 writes in all. |
| Pic8259.Legacy8259.EndOfInterrupts | PcAtChipsetPkg/8254TimerDxe/8259Services.c:223-225 | The loop issues the EOIs of IRQs 0 to n-1, in order. |
| Pic8259.Legacy8259.Initialize | PcAtChipsetPkg/8254TimerDxe/8259Services.c:214-241 | Initialize8259 writes the 24 EOIs, then the base-address writes, then the current globals, and returns SUCCESS. |
| Bytes.CopyMem | UefiCpuPkg/Library/MpInitLib/Microcode.c:380-384 | The destination range receives the source bytes, and the rest of the destination is unchanged. |
| Bytes.ZeroMem | UefiCpuPkg/Library/MpInitLib/Microcode.c:390-393 | The range becomes zero, and the rest is unchanged. |
| Bytes.CompareMem | MdeModulePkg/Bus/Ata/AhciPei/AhciPeiS3.c:99-103 | CompareMem returns 0 exactly when the two ranges hold the same bytes. |
| Bytes.AllocateCopyPool | MdeModulePkg/Bus/Ata/AhciPei/DevicePath.c:185 | A fresh buffer holding a copy of the bytes. |
| Bytes.SameBytesIff | SecurityPkg/HddPassword/HddPasswordPei.c:345-348 | The byte-by-byte comparison agrees with equality of the ranges. |

## Left out

- Hardware access is not performed. CPUID, MSR IA32_PLATFORM_ID, the APIC thread id, the loaded revision and the revision read back after the trigger write are inputs (the `Processor` datatype). The write to MSR IA32_BIOS_UPDT_TRIG is returned as the address written.
- The spin lock and every DEBUG message are left out; no concurrency is modelled.
- PCDs, allocation success (`poolOk`, `reallocFails`, `pages`, `allocOk`, `asbAllocOk`), LockBox results and PPI results (`PassThru`, `GetDevicePath`, `GetNextPort`, `GetNextDevice`, `PeiServicesLocatePpi`) are inputs.
- FreePool, FreePages and FreeAlignedPages are not modelled.
- The GetNextPort/GetNextDevice nesting of UnlockHddPassword is flattened into the list of devices an instance enumerates, in order.
- `AhciGetNumberOfPortsFromMap` is not part of this model. `AhciS3.GetEnumeratePorts` returns the port bitmap, as the set of its bits, instead of the count.
- `Legacy8259SetBaseAddress` (ICW programming under RaiseTPL/RestoreTPL) is left out. `Pic8259.Legacy8259.Initialize` takes its writes as an input trace.
- HddPasswordPeiInit, HddPasswordAtaPassThruNotify, the LockBox test drivers and the DumpPartInfo application are left out.
- Constants from headers that are not part of this model are assumed:
  - DEFAULT_MAX_MICROCODE_PATCH_NUM = 8 and sizeof (MICROCODE_PATCH_INFO) = 24 (MpLib.h, X64);
  - AHCI_MAX_PORTS = 32 (AhciPei.h);
  - the packed HDD_PASSWORD_DEVICE_INFO layout (HddPasswordCommon.h): Port at 6, PortMultiplierPort at 8, Password at 10, DevicePathLength at 42, device path at 46;
  - HDD_PAYLOAD = 512 and HDD_PASSWORD_MAX_LENGTH = 32;
  - the ATA command and register bits.
- X64 is assumed: MAX_ADDRESS = MAX_UINTN = 2^64 - 1. The region must lie at least 4 GiB below the top of the address space (`MpData.RegionFits`), so no cursor step wraps.
- A record with a non-zero DataSize and a TotalSize of 0 never moves the cursor, so the source loops forever. The model reports this as a `Hangs` (or `Hung`) outcome instead of looping.
- Device path walks on malformed paths are excluded by preconditions (`PathOk`, `InstanceOk`): a node header that leaves the buffer, or a node length below 4. On such paths the source reads outside the buffer or never ends.
- Reads past the end of the modelled memory return 0.
- Bytes.Sum32: of the ASSERTs of CalculateSum32 (BaseLib, not part of this model) only the multiple-of-4 length is kept, as a precondition the callers meet. The 4-byte alignment of the address and the bound on the length are not modelled, so where a debug build would halt the model goes on summing.
- HddPassword.HddPasswordPrivate.UnlockHddPassword: requires `TableFits` of the handled table, a property of the table that holds across notify calls but is not shown to hold for every possible state.
- HddPassword.FindDeviceInfo: the restored buffer is passed as a `seq`, since the walk only reads it.
- HddPassword.UnlockDevice: the stack payload bytes after the password are stale in the source. The model states they are the buffer's old contents, not their values.
- DevicePath.GetNextDevicePathInstance: the DevicePath == NULL case (as opposed to *DevicePath == NULL) is merged into the NULL cursor.
- Frees and leaks of allocated buffers are not modelled. For example, UnlockHddPassword frees the buffer on the error path, and AhciS3GetEumeratePorts never frees its copies.

## Findings

| source | as written | input that shows it | evidently intended | confidence | as-written member | corrected member |
|---|---|---|---|---|---|---|
| UefiCpuPkg/Library/MpInitLib/Microcode.c:502-512 | LoadMicrocodePatch keeps a record only when its base header's ProcessorSignature and ProcessorFlags name some processor; the extended signature table is never consulted. | The 84-byte patch `ExtendedOnlyWords`: base signature 0 and flags 0, DataSize 4, TotalSize 84, one extended entry for signature 1, flags 1. The system has one processor, with signature 1 on platform 0. MicrocodeDetect (lines 221-272) accepts the patch for that processor, but the selection as written skips it. Alone in the flash region it leaves PatchNumber at 0, and the flash region stays published (lines 558-562). Followed by the 52-byte patch `BaseNamedWords`, whose base header names the processor, the loader packs only that second patch, so the packed region the processor scans lacks the first. | A record is needed when any processor is named by its base header or by an entry of its extended table. The CPU's own scan accepts records by either identity. | not executed | MicrocodeLoad.NeedLoadScanAsWritten, MicrocodeLoad.ExtendedOnlyPatchIsNotPacked | MicrocodeLoad.NeedLoadScan, MicrocodeLoad.LoadKeepsAccepted |

The model's loader (`MicrocodeLoad.StepAt`, `MicrocodeLoad.Collect`, `MicrocodeLoad.LoadStep`, `MicrocodeLoad.CollectPatches`, `MicrocodeLoad.LoadMicrocodePatch`) takes the selection as a parameter `asWritten`. With `asWritten` it follows lines 502-512 as they are; without it, it uses the corrected selection. `MicrocodeLoad.LoadInventory` and `MicrocodeLoad.LoadsOnlyNeeded` hold for both. `MicrocodeLoad.LoadKeepsAccepted` proves that with the corrected selection every record MicrocodeDetect accepts for one of the processors is packed. `MicrocodeLoad.AsWrittenIsIncluded` proves that the correction only adds records.

/**
 * LoadMicrocodePatch and LoadMicrocodePatchWorker
 * (UefiCpuPkg/Library/MpInitLib/Microcode.c): walk the flash region, record
 * every patch some processor of the system may need, and pack those patches
 * 1 KiB-aligned into a fresh memory buffer, which then becomes the published
 * region that MicrocodeDetect scans.
 */
module MicrocodeLoad {
  import opened Bytes
  import opened MicrocodeFormat
  import opened MpData

  /** DEFAULT_MAX_MICROCODE_PATCH_NUM (MpLib.h): initial capacity of the patch table. */
  const DEFAULT_MAX_MICROCODE_PATCH_NUM: nat := 8
  /** sizeof (MICROCODE_PATCH_INFO) on X64: three UINTN fields. */
  const PATCH_INFO_SIZE: nat := 24
  /** The capacity above which the table is not doubled any more (overflow check). */
  const MAX_PATCH_CAPACITY: nat := MAX_UINTN / 2 / PATCH_INFO_SIZE

  /** MICROCODE_PATCH_INFO: where a patch is, how many bytes to copy, and its slot size. */
  datatype PatchInfo = PatchInfo(address: nat, size: nat, alignedSize: nat)

  /** ALIGN_VALUE (x, SIZE_1KB): the padding is (1024 - x) & 1023, i.e. (1024 - x) mod 1024. */
  function AlignUp1K(x: nat): (r: nat)
    ensures r % SIZE_1KB == 0 && x <= r < x + SIZE_1KB
  {
    x + (SIZE_1KB - x) % SIZE_1KB
  }

  function IdOf(d: CpuApData): CpuId
  {
    CpuId(d.processorSignature, d.platformId)
  }

  // ------------------------------------------------------- which patches load

  /**
   * The selection as written: a patch is loaded when its base header's
   * signature and flags name one of the processors `k..`; the extended
   * signature table is not consulted.
   */
  predicate BaseNamesSomeFrom(mem: seq<byte>, a: nat, cpus: seq<CpuApData>, k: nat)
    decreases |cpus| - k
  {
    k < |cpus| && (BaseNames(ReadHeader(mem, a), IdOf(cpus[k])) || BaseNamesSomeFrom(mem, a, cpus, k + 1))
  }

  predicate NeedLoadAsWritten(mem: seq<byte>, a: nat, cpus: seq<CpuApData>)
  {
    BaseNamesSomeFrom(mem, a, cpus, 0)
  }

  /** Extended entry `i` of the table at `t` carries the processor's signature and platform bit. */
  predicate EntryNames(mem: seq<byte>, t: nat, i: nat, cpu: CpuId)
  {
    var e := EntryAddress(t, i);
    Read32(mem, e) == cpu.signature && BitSet(Read32(mem, e + 4), cpu.platformId)
  }

  /** One of the entries `i .. count` names the processor. */
  predicate EntryNamesFrom(mem: seq<byte>, t: nat, count: nat, i: nat, cpu: CpuId)
    decreases count - i
  {
    i < count && (EntryNames(mem, t, i, cpu) || EntryNamesFrom(mem, t, count, i + 1, cpu))
  }

  /** The record has an extended table, and one of its entries names the processor. */
  predicate ExtendedNames(mem: seq<byte>, a: nat, cpu: CpuId)
  {
    var h := ReadHeader(mem, a);
    var t := ExtendedTableAddress(a, h);
    h.dataSize != 0 && ExtendedTableLength(h) != 0 && EntryNamesFrom(mem, t, Read32(mem, t), 0, cpu)
  }

  /** The record names the processor, in its base header or its extended table. */
  predicate NamesProcessor(mem: seq<byte>, a: nat, cpu: CpuId)
  {
    BaseNames(ReadHeader(mem, a), cpu) || ExtendedNames(mem, a, cpu)
  }

  /** One of the processors `k..` is named by the record. */
  predicate NamesSomeFrom(mem: seq<byte>, a: nat, cpus: seq<CpuApData>, k: nat)
    decreases |cpus| - k
  {
    k < |cpus| && (NamesProcessor(mem, a, IdOf(cpus[k])) || NamesSomeFrom(mem, a, cpus, k + 1))
  }

  /** The corrected selection: some processor of the system is named by the record. */
  predicate NeedLoad(mem: seq<byte>, a: nat, cpus: seq<CpuApData>)
  {
    NamesSomeFrom(mem, a, cpus, 0)
  }

  /**
   * The selection the loading loop applies: the one the code writes when
   * `asWritten` holds, the corrected one otherwise.
   */
  predicate Needed(mem: seq<byte>, a: nat, cpus: seq<CpuApData>, asWritten: bool)
  {
    if asWritten then NeedLoadAsWritten(mem, a, cpus) else NeedLoad(mem, a, cpus)
  }

  lemma {:induction false} BaseNamesSomeFromMeaning(mem: seq<byte>, a: nat, cpus: seq<CpuApData>, k: nat)
    ensures BaseNamesSomeFrom(mem, a, cpus, k) <==>
            exists j :: k <= j < |cpus| && BaseNames(ReadHeader(mem, a), IdOf(cpus[j]))
    decreases |cpus| - k
  {
    if k < |cpus| {
      BaseNamesSomeFromMeaning(mem, a, cpus, k + 1);
    }
  }

  lemma {:induction false} EntryNamesFromMeaning(mem: seq<byte>, t: nat, count: nat, i: nat, cpu: CpuId)
    ensures EntryNamesFrom(mem, t, count, i, cpu) <==> exists j :: i <= j < count && EntryNames(mem, t, j, cpu)
    decreases count - i
  {
    if i < count {
      EntryNamesFromMeaning(mem, t, count, i + 1, cpu);
    }
  }

  lemma {:induction false} NamesSomeFromMeaning(mem: seq<byte>, a: nat, cpus: seq<CpuApData>, k: nat)
    ensures NamesSomeFrom(mem, a, cpus, k) <==>
            exists j :: k <= j < |cpus| && NamesProcessor(mem, a, IdOf(cpus[j]))
    decreases |cpus| - k
  {
    if k < |cpus| {
      NamesSomeFromMeaning(mem, a, cpus, k + 1);
    }
  }

  /** The selection as written loads a record exactly when its base header names some processor. */
  lemma {:induction false} NeedLoadAsWrittenMeaning(mem: seq<byte>, a: nat, cpus: seq<CpuApData>)
    ensures NeedLoadAsWritten(mem, a, cpus) <==>
            exists k :: 0 <= k < |cpus| && BaseNames(ReadHeader(mem, a), IdOf(cpus[k]))
  {
    BaseNamesSomeFromMeaning(mem, a, cpus, 0);
  }

  /**
   * The corrected selection loads a record exactly when its base header or
   * one of the entries of its extended table names some processor.
   */
  lemma {:induction false} NeedLoadMeaning(mem: seq<byte>, a: nat, cpus: seq<CpuApData>)
    ensures NeedLoad(mem, a, cpus) <==>
            exists k :: 0 <= k < |cpus| &&
              (BaseNames(ReadHeader(mem, a), IdOf(cpus[k])) ||
               var h := ReadHeader(mem, a);
               var t := ExtendedTableAddress(a, h);
               h.dataSize != 0 && ExtendedTableLength(h) != 0 &&
               exists i :: 0 <= i < Read32(mem, t) && EntryNames(mem, t, i, IdOf(cpus[k])))
  {
    NamesSomeFromMeaning(mem, a, cpus, 0);
    var t := ExtendedTableAddress(a, ReadHeader(mem, a));
    forall k | 0 <= k < |cpus|
      ensures EntryNamesFrom(mem, t, Read32(mem, t), 0, IdOf(cpus[k])) <==>
              exists i :: 0 <= i < Read32(mem, t) && EntryNames(mem, t, i, IdOf(cpus[k]))
    {
      EntryNamesFromMeaning(mem, t, Read32(mem, t), 0, IdOf(cpus[k]));
    }
  }

  /** Every record MicrocodeDetect could accept for one of the processors is loaded. */
  lemma {:induction false} AcceptedIsNeeded(mem: seq<byte>, regionEnd: nat, a: nat, cpus: seq<CpuApData>, k: nat)
    requires IsRecord(mem, regionEnd, a) && k < |cpus|
    requires MatchAt(mem, regionEnd, a, IdOf(cpus[k])).Some?
    ensures NeedLoad(mem, a, cpus)
  {
    var cpu := IdOf(cpus[k]);
    var h := ReadHeader(mem, a);
    if !BaseNames(h, cpu) {
      MatchAtExtended(mem, regionEnd, a, cpu);
      var t := ExtendedTableAddress(a, h);
      var i :| 0 <= i < Read32(mem, t) && ExtendedEntryProves(mem, a, t, i, cpu, MatchAt(mem, regionEnd, a, cpu).value);
      assert EntryNames(mem, t, i, cpu);
      EntryNamesFromMeaning(mem, t, Read32(mem, t), 0, cpu);
    }
    assert NamesProcessor(mem, a, cpu);
    NamesSomeFromMeaning(mem, a, cpus, 0);
  }

  /**
   * The selection as written skips a record that MicrocodeDetect accepts for
   * one of the processors whenever its base header names none of them, so
   * the loop never stores it in the patch table. Whether the processors then
   * miss it depends on the rest of the region: alone, it leaves the table
   * empty and the flash region stays published; beside a stored record, the
   * packed copy is published without it (ExtendedOnlyPatchIsNotPacked).
   */
  lemma {:induction false} ExtendedOnlyRecordIsDropped(mem: seq<byte>, regionEnd: nat, a: nat, cpus: seq<CpuApData>, k: nat)
    requires IsRecord(mem, regionEnd, a) && k < |cpus|
    requires MatchAt(mem, regionEnd, a, IdOf(cpus[k])).Some?
    requires forall j :: 0 <= j < |cpus| ==> !BaseNames(ReadHeader(mem, a), IdOf(cpus[j]))
    ensures !NeedLoadAsWritten(mem, a, cpus) && NeedLoad(mem, a, cpus)
  {
    NeedLoadAsWrittenMeaning(mem, a, cpus);
    AcceptedIsNeeded(mem, regionEnd, a, cpus, k);
  }

  /**
   * An 84-byte patch for signature 1 on platform 0, as 21 little-endian
   * words, listed only in its extended signature table: base signature 0 and
   * flags 0, DataSize 4, TotalSize 84, and one extended entry (signature 1,
   * flags 1) whose checksum makes the substituted record sum to zero.
   */
  const ExtendedOnlyWords: seq<u32> := [
    1, 1, 0, 0,            // HeaderVersion, UpdateRevision, Date, ProcessorSignature
    0, 0, 0, 4,            // Checksum, LoaderRevision, ProcessorFlags, DataSize
    84, 0, 0, 0,           // TotalSize, Reserved
    0,                     // the 4 data bytes
    1, 89, 0, 0, 0,        // ExtendedSignatureCount, ExtendedChecksum, Reserved
    1, 1, 0xFFFF_FFA4      // the entry's ProcessorSignature, ProcessorFlag, Checksum
  ]

  /** Words laid out little-endian, one after the other. */
  function LeWords(ws: seq<u32>): seq<byte>
  {
    if ws == [] then [] else LeWords(ws[..|ws| - 1]) + Le32(ws[|ws| - 1])
  }

  /** Memory from address 0 on holds the words `ws`. */
  predicate HoldsWords(mem: seq<byte>, ws: seq<u32>)
  {
    forall i :: 0 <= i < |ws| ==> Read32(mem, 4 * i) == ws[i]
  }

  lemma {:induction false} LeWordsRead(ws: seq<u32>)
    ensures |LeWords(ws)| == 4 * |ws| && HoldsWords(LeWords(ws), ws)
  {
    if ws != [] {
      var n := |ws|;
      var p := LeWords(ws[..n - 1]);
      var x := ws[n - 1];
      LeWordsRead(ws[..n - 1]);
      Le32Read(x);
      ByteAtAppend(p, Le32(x));
      forall i | 0 <= i < n
        ensures Read32(LeWords(ws), 4 * i) == ws[i]
      {
        if i < n - 1 {
          assert ws[..n - 1][i] == ws[i];
        }
      }
    }
  }

  lemma {:induction false} WordsOfHeld(mem: seq<byte>, ws: seq<u32>, j: nat, n: nat)
    requires HoldsWords(mem, ws) && j + n <= |ws|
    ensures Words(mem, 4 * j, n) == ws[j..j + n]
  {
    var r := Words(mem, 4 * j, n);
    forall i | 0 <= i < n ensures r[i] == ws[j..j + n][i] {
      assert r[i] == Read32(mem, 4 * (j + i));
    }
  }

  lemma {:induction false} SumStep(ws: seq<int>, k: nat)
    requires k < |ws|
    ensures Sum(ws[..k + 1]) == Sum(ws[..k]) + ws[k]
  {
    assert ws[..k + 1][..k] == ws[..k];
  }

  /** The sum of all the words of a sequence, one word at a time. */
  lemma {:induction false} SumByWord(ws: seq<int>)
    ensures forall k {:trigger Sum(ws[..k])} :: 0 <= k < |ws| ==> Sum(ws[..k + 1]) == Sum(ws[..k]) + ws[k]
    ensures Sum(ws[..0]) == 0 && ws[..|ws|] == ws
  {
    forall k | 0 <= k < |ws| ensures Sum(ws[..k + 1]) == Sum(ws[..k]) + ws[k] {
      SumStep(ws, k);
    }
  }

  lemma {:induction false} HeaderWordsSum()
    ensures Sum([1, 1, 0, 0, 0, 0, 0, 4, 84, 0, 0, 0, 0]) == 90
  {
    SumByWord([1, 1, 0, 0, 0, 0, 0, 4, 84, 0, 0, 0, 0]);
  }

  lemma {:induction false} TableWordsSum()
    ensures Sum([1, 89, 0, 0, 0, 1, 1, 0xFFFF_FFA4]) == U32
  {
    SumByWord([1, 89, 0, 0, 0, 1, 1, 0xFFFF_FFA4]);
  }

  /** The word sum over the patch's header and data: 90. */
  lemma {:induction false} ExtendedOnlyHeaderSum(mem: seq<byte>)
    requires HoldsWords(mem, ExtendedOnlyWords)
    ensures Sum32(mem, 0, 52) == 90
  {
    WordsOfHeld(mem, ExtendedOnlyWords, 0, 13);
    assert ExtendedOnlyWords[0..13] == [1, 1, 0, 0, 0, 0, 0, 4, 84, 0, 0, 0, 0];
    HeaderWordsSum();
  }

  /** The word sum over the patch's extended table: 2^32, which wraps to 0. */
  lemma {:induction false} ExtendedOnlyTableSum(mem: seq<byte>)
    requires HoldsWords(mem, ExtendedOnlyWords)
    ensures Sum32(mem, 52, 32) == 0
  {
    WordsOfHeld(mem, ExtendedOnlyWords, 13, 8);
    assert ExtendedOnlyWords[13..21] == [1, 89, 0, 0, 0, 1, 1, 0xFFFF_FFA4];
    TableWordsSum();
  }

  /** The header fields and extended-table words of the patch. */
  lemma {:induction false} ExtendedOnlyPatchFields(mem: seq<byte>)
    requires HoldsWords(mem, ExtendedOnlyWords)
    ensures ReadHeader(mem, 0) == Header(1, 1, 0, 0, 0, 4, 84)
    ensures Read32(mem, 52) == 1 && Read32(mem, 72) == 1 && Read32(mem, 76) == 1 && Read32(mem, 80) == 0xFFFF_FFA4
  {
    var ws := ExtendedOnlyWords;
    assert Read32(mem, 4 * 0) == ws[0] && Read32(mem, 4 * 1) == ws[1] && Read32(mem, 4 * 3) == ws[3];
    assert Read32(mem, 4 * 4) == ws[4] && Read32(mem, 4 * 6) == ws[6] && Read32(mem, 4 * 7) == ws[7];
    assert Read32(mem, 4 * 8) == ws[8] && Read32(mem, 4 * 13) == ws[13];
    assert Read32(mem, 4 * 18) == ws[18] && Read32(mem, 4 * 19) == ws[19] && Read32(mem, 4 * 20) == ws[20];
  }

  /** CheckSum Part3 of the entry: 90 + 1 + 1 + 0xFFFFFFA4 wraps to 0. */
  lemma {:induction false} EntryChecksumWraps()
    ensures ResolvedSum(90, 1, 1, 0xFFFF_FFA4) == 0
  {
    assert Add32(90, 1) == 91 && Add32(91, 1) == 92;
    ModShift(0, 1);
  }

  /** The extended table of the patch is intact and its only entry names signature 1 on platform 0. */
  lemma {:induction false} ExtendedOnlyTableMatch(mem: seq<byte>)
    requires HoldsWords(mem, ExtendedOnlyWords)
    ensures ExtendedMatch(mem, 0, 90, CpuId(1, 0)) == Some(1)
  {
    var cpu := CpuId(1, 0);
    ExtendedOnlyPatchFields(mem);
    ExtendedOnlyTableSum(mem);
    var h := ReadHeader(mem, 0);
    assert ExtendedTableLength(h) == 32 && ExtendedTableAddress(0, h) == 52;
    EntryChecksumWraps();
    assert EntryAddress(52, 0) == 72 && BitSet(1, 0);
    assert EntryMatches(mem, 52, 0, 90, cpu);
    assert FirstEntryMatch(mem, 52, 1, 90, cpu, 0) == Some(0);
  }

  /** MicrocodeDetect accepts the patch for signature 1 on platform 0, through its only extended entry. */
  lemma {:induction false} ExtendedOnlyPatchMatches(mem: seq<byte>)
    requires HoldsWords(mem, ExtendedOnlyWords)
    ensures IsRecord(mem, 84, 0) && MatchAt(mem, 84, 0, CpuId(1, 0)) == Some(1)
  {
    ExtendedOnlyPatchFields(mem);
    ExtendedOnlyHeaderSum(mem);
    ExtendedOnlyTableMatch(mem);
    assert ScanSize(ReadHeader(mem, 0)) == 52;
    assert InCompleteSum(mem, 0, 52) == 90;
  }

  /**
   * On any memory holding that patch, MicrocodeDetect accepts the record for
   * the only processor, and the selection as written drops it.
   */
  lemma {:induction false} ExtendedOnlyPatchIsDropped(mem: seq<byte>)
    requires HoldsWords(mem, ExtendedOnlyWords)
    ensures IsRecord(mem, 84, 0) && MatchAt(mem, 84, 0, CpuId(1, 0)).Some?
    ensures !NeedLoadAsWritten(mem, 0, [CpuApData(1, 0, 0)])
    ensures NeedLoad(mem, 0, [CpuApData(1, 0, 0)])
  {
    var cpus := [CpuApData(1, 0, 0)];
    ExtendedOnlyPatchFields(mem);
    ExtendedOnlyPatchMatches(mem);
    assert IdOf(cpus[0]) == CpuId(1, 0);
    assert !BaseNames(ReadHeader(mem, 0), IdOf(cpus[0]));
    ExtendedOnlyRecordIsDropped(mem, 84, 0, cpus, 0);
  }

  /** Such a memory exists: the patch's words laid out little-endian. */
  lemma {:induction false} ExtendedOnlyPatchExists()
    ensures HoldsWords(LeWords(ExtendedOnlyWords), ExtendedOnlyWords)
    ensures |LeWords(ExtendedOnlyWords)| == 84
  {
    LeWordsRead(ExtendedOnlyWords);
  }

  /** The correction only adds records: whatever the code as written loads is still loaded. */
  lemma {:induction false} AsWrittenIsIncluded(mem: seq<byte>, a: nat, cpus: seq<CpuApData>)
    requires NeedLoadAsWritten(mem, a, cpus)
    ensures NeedLoad(mem, a, cpus)
  {
    NeedLoadAsWrittenMeaning(mem, a, cpus);
    var k :| 0 <= k < |cpus| && BaseNames(ReadHeader(mem, a), IdOf(cpus[k]));
    assert NamesProcessor(mem, a, IdOf(cpus[k]));
    NamesSomeFromMeaning(mem, a, cpus, 0);
  }

  /** The base-header loop over the processors, as the code writes it. */
  method NeedLoadScanAsWritten(mem: seq<byte>, a: nat, cpus: seq<CpuApData>) returns (needLoad: bool)
    ensures needLoad == NeedLoadAsWritten(mem, a, cpus)
  {
    var h := ReadHeader(mem, a);
    var processorSignature, processorFlags := h.processorSignature, h.processorFlags;
    needLoad := false;
    var index := 0;
    while index < |cpus|
      invariant index <= |cpus|
      invariant BaseNamesSomeFrom(mem, a, cpus, 0) == BaseNamesSomeFrom(mem, a, cpus, index)
    {
      if processorSignature == cpus[index].processorSignature && BitSet(processorFlags, cpus[index].platformId) {
        needLoad := true;
        return;
      }
      index := index + 1;
    }
  }

  /** Search the extended table of the record at `a` for an entry naming `cpu`. */
  method ExtendedTableNames(mem: seq<byte>, a: nat, cpu: CpuId) returns (found: bool)
    ensures found == ExtendedNames(mem, a, cpu)
  {
    var h := ReadHeader(mem, a);
    if h.dataSize == 0 || ExtendedTableLength(h) == 0 {
      return false;
    }
    var t := ExtendedTableAddress(a, h);
    var count := Read32(mem, t);
    var index := 0;
    while index < count
      invariant index <= count
      invariant EntryNamesFrom(mem, t, count, 0, cpu) == EntryNamesFrom(mem, t, count, index, cpu)
    {
      var e := EntryAddress(t, index);
      if Read32(mem, e) == cpu.signature && BitSet(Read32(mem, e + 4), cpu.platformId) {
        return true;
      }
      index := index + 1;
    }
    return false;
  }

  /** The corrected processor loop: base header first, then the extended table. */
  method NeedLoadScan(mem: seq<byte>, a: nat, cpus: seq<CpuApData>) returns (needLoad: bool)
    ensures needLoad == NeedLoad(mem, a, cpus)
  {
    var h := ReadHeader(mem, a);
    var index := 0;
    while index < |cpus|
      invariant index <= |cpus|
      invariant NamesSomeFrom(mem, a, cpus, 0) == NamesSomeFrom(mem, a, cpus, index)
    {
      var cpu := IdOf(cpus[index]);
      if h.processorSignature == cpu.signature && BitSet(h.processorFlags, cpu.platformId) {
        return true;
      }
      var viaTable := ExtendedTableNames(mem, a, cpu);
      if viaTable {
        return true;
      }
      index := index + 1;
    }
    return false;
  }

  // ------------------------------------------------------- the collection loop

  /** The slots packed so far: each slot's size is its copy size rounded up to 1 KiB. */
  function SumAligned(ps: seq<PatchInfo>): nat
  {
    if ps == [] then 0 else SumAligned(ps[..|ps| - 1]) + ps[|ps| - 1].alignedSize
  }

  predicate SlotsAligned(ps: seq<PatchInfo>)
  {
    forall j :: 0 <= j < |ps| ==> ps[j].alignedSize == AlignUp1K(ps[j].size)
  }

  /** PatchInfoBuffer[0 .. PatchNumber), MaxPatchNumber and TotalLoadSize. */
  datatype Table = Table(patches: seq<PatchInfo>, cap: nat, total: nat)

  /**
   * What the loop keeps: the entries fit below the capacity (one slot is
   * always free), the capacity never exceeds twice the overflow bound, and
   * TotalLoadSize is the sum of the slot sizes and fits a UINTN.
   */
  predicate TableOk(t: Table)
  {
    |t.patches| < t.cap <= 2 * MAX_PATCH_CAPACITY &&
    t.total == SumAligned(t.patches) && t.total <= MAX_UINTN && SlotsAligned(t.patches)
  }

  const InitialTable: Table := Table([], DEFAULT_MAX_MICROCODE_PATCH_NUM, 0)

  /**
   * The capacity after PatchNumber++: doubled when the new count reaches
   * it, None (goto OnExit) when doubling would overflow or ReallocatePool
   * fails. `reallocFails` holds the capacities whose allocation fails.
   */
  function GrownCapacity(t: Table, reallocFails: set<nat>): (r: Option<nat>)
    requires TableOk(t)
    ensures r.Some? ==> |t.patches| + 1 < r.value <= 2 * MAX_PATCH_CAPACITY
    ensures r.None? <==> |t.patches| + 1 >= t.cap && (t.cap > MAX_PATCH_CAPACITY || 2 * t.cap in reallocFails)
  {
    if |t.patches| + 1 < t.cap then Some(t.cap)
    else if t.cap > MAX_PATCH_CAPACITY then None
    else if 2 * t.cap in reallocFails then None
    else Some(2 * t.cap)
  }

  /**
   * Storing a needed patch of `size` bytes at `a`: None when the table
   * cannot grow or TotalLoadSize would overflow.
   */
  function Store(a: nat, size: nat, t: Table, reallocFails: set<nat>): (r: Option<Table>)
    requires TableOk(t)
    ensures r.Some? ==> TableOk(r.value)
    ensures r.Some? ==> r.value.patches == t.patches + [PatchInfo(a, size, AlignUp1K(size))]
    ensures r.None? <==> GrownCapacity(t, reallocFails).None? ||
                         size > MAX_UINTN - t.total || AlignUp1K(size) > MAX_UINTN - t.total
  {
    match GrownCapacity(t, reallocFails)
    case None => None
    case Some(cap) =>
      if size > MAX_UINTN - t.total || AlignUp1K(size) > MAX_UINTN - t.total then None
      else
        var ps := t.patches + [PatchInfo(a, size, AlignUp1K(size))];
        assert ps[..|ps| - 1] == t.patches;
        Some(Table(ps, cap, t.total + AlignUp1K(size)))
  }

  /** How the loading ends: the loop never leaves, OnExit without loading, or the patches to pack. */
  datatype LoadResult = Hangs | Exits | Packs(patches: seq<PatchInfo>, total: nat)

  datatype Step = Stop(result: LoadResult) | Next(cursor: nat, table: Table)

  /**
   * One pass of the do-while body at cursor `c`: padding and rejected
   * headers are skipped, a needed record is stored, and the cursor moves
   * on by the record's size. An unneeded record of size 0 never moves it.
   */
  function StepAt(mem: seq<byte>, regionEnd: nat, cpus: seq<CpuApData>, asWritten: bool, reallocFails: set<nat>, c: nat, t: Table): (r: Step)
    requires TableOk(t)
    ensures r.Next? ==> TableOk(r.table)
    ensures r.Next? ==> r.cursor > c || (r.cursor == c && |r.table.patches| == |t.patches| + 1)
  {
    var size := Advance(mem, regionEnd, c);
    if IsRecord(mem, regionEnd, c) && Needed(mem, c, cpus, asWritten) then
      match Store(c, size, t, reallocFails)
      case None => Stop(Exits)
      case Some(t') => Next(c + size, t')
    else if size == 0 then Stop(Hangs)
    else Next(c + size, t)
  }

  /** After the loop: no patch means OnExit, otherwise the worker packs them. */
  function Finished(t: Table): LoadResult
  {
    if t.patches == [] then Exits else Packs(t.patches, t.total)
  }

  /** The collection loop from cursor `c` with table `t`. */
  function Collect(mem: seq<byte>, regionEnd: nat, cpus: seq<CpuApData>, asWritten: bool, reallocFails: set<nat>, c: nat, t: Table): LoadResult
    requires c < regionEnd && TableOk(t)
    decreases regionEnd - c, 2 * MAX_PATCH_CAPACITY - |t.patches|
  {
    match StepAt(mem, regionEnd, cpus, asWritten, reallocFails, c, t)
    case Stop(r) => r
    case Next(c', t') =>
      if c' < regionEnd then Collect(mem, regionEnd, cpus, asWritten, reallocFails, c', t') else Finished(t')
  }

  /** The slot the loop records for the record at `a`. */
  function SlotFor(mem: seq<byte>, regionEnd: nat, a: nat): PatchInfo
  {
    var size := Advance(mem, regionEnd, a);
    PatchInfo(a, size, AlignUp1K(size))
  }

  /** The slots of the needed records among `rs`, in order. */
  function Selected(mem: seq<byte>, regionEnd: nat, cpus: seq<CpuApData>, asWritten: bool, rs: seq<nat>): seq<PatchInfo>
  {
    if rs == [] then []
    else (if Needed(mem, rs[0], cpus, asWritten) then [SlotFor(mem, regionEnd, rs[0])] else []) +
         Selected(mem, regionEnd, cpus, asWritten, rs[1..])
  }

  /**
   * When loading gets as far as the worker, the walk of the region ends and
   * the table holds exactly the needed records the walk visits, in order,
   * each with its size and 1 KiB-rounded slot; TotalLoadSize is their sum.
   */
  lemma {:induction false} CollectInventory(mem: seq<byte>, regionEnd: nat, cpus: seq<CpuApData>, asWritten: bool, reallocFails: set<nat>, c: nat, t: Table)
    requires c < regionEnd && TableOk(t)
    requires Collect(mem, regionEnd, cpus, asWritten, reallocFails, c, t).Packs?
    ensures Walk(mem, regionEnd, c).Ends?
    ensures Collect(mem, regionEnd, cpus, asWritten, reallocFails, c, t).patches ==
            t.patches + Selected(mem, regionEnd, cpus, asWritten, Walk(mem, regionEnd, c).records)
    decreases regionEnd - c, 2 * MAX_PATCH_CAPACITY - |t.patches|
  {
    var s := StepAt(mem, regionEnd, cpus, asWritten, reallocFails, c, t);
    if s.Next? && s.cursor < regionEnd {
      CollectInventory(mem, regionEnd, cpus, asWritten, reallocFails, s.cursor, s.table);
    }
    InventoryStep(mem, regionEnd, cpus, asWritten, reallocFails, c, t);
  }

  /** The inductive step of CollectInventory, given the claim for the next cursor. */
  lemma {:induction false} InventoryStep(mem: seq<byte>, regionEnd: nat, cpus: seq<CpuApData>, asWritten: bool, reallocFails: set<nat>, c: nat, t: Table)
    requires c < regionEnd && TableOk(t)
    requires Collect(mem, regionEnd, cpus, asWritten, reallocFails, c, t).Packs?
    requires var s := StepAt(mem, regionEnd, cpus, asWritten, reallocFails, c, t);
             s.Next? && s.cursor < regionEnd ==>
               Walk(mem, regionEnd, s.cursor).Ends? &&
               Collect(mem, regionEnd, cpus, asWritten, reallocFails, s.cursor, s.table).patches ==
               s.table.patches + Selected(mem, regionEnd, cpus, asWritten, Walk(mem, regionEnd, s.cursor).records)
    ensures Walk(mem, regionEnd, c).Ends?
    ensures Collect(mem, regionEnd, cpus, asWritten, reallocFails, c, t).patches ==
            t.patches + Selected(mem, regionEnd, cpus, asWritten, Walk(mem, regionEnd, c).records)
  {
    var s := StepAt(mem, regionEnd, cpus, asWritten, reallocFails, c, t);
    StepAtShape(mem, regionEnd, cpus, asWritten, reallocFails, c, t);
    WalkStep(mem, regionEnd, c);
    if s.Next? && s.cursor < regionEnd {
      InventoryNext(mem, regionEnd, cpus, asWritten, reallocFails, c, t, s.cursor, s.table);
    } else if s.Next? {
      InventoryLast(mem, regionEnd, cpus, asWritten, c, t, s.cursor, s.table);
    }
  }

  /** The step case where the loop goes on at `c' < regionEnd` with table `t'`. */
  lemma {:induction false} InventoryNext(mem: seq<byte>, regionEnd: nat, cpus: seq<CpuApData>, asWritten: bool, reallocFails: set<nat>, c: nat, t: Table,
                      c': nat, t': Table)
    requires c < c' < regionEnd && TableOk(t) && TableOk(t')
    requires c' == c + Advance(mem, regionEnd, c)
    requires t'.patches == t.patches + Selected(mem, regionEnd, cpus, asWritten, if IsRecord(mem, regionEnd, c) then [c] else [])
    requires Walk(mem, regionEnd, c).Ends? == Walk(mem, regionEnd, c').Ends?
    requires Walk(mem, regionEnd, c).records ==
             (if IsRecord(mem, regionEnd, c) then [c] else []) + Walk(mem, regionEnd, c').records
    requires Walk(mem, regionEnd, c').Ends?
    requires Collect(mem, regionEnd, cpus, asWritten, reallocFails, c', t').Packs?
    requires Collect(mem, regionEnd, cpus, asWritten, reallocFails, c', t').patches ==
             t'.patches + Selected(mem, regionEnd, cpus, asWritten, Walk(mem, regionEnd, c').records)
    ensures Walk(mem, regionEnd, c).Ends?
    ensures Collect(mem, regionEnd, cpus, asWritten, reallocFails, c', t').patches ==
            t.patches + Selected(mem, regionEnd, cpus, asWritten, Walk(mem, regionEnd, c).records)
  {
    var here := if IsRecord(mem, regionEnd, c) then [c] else [];
    var rs := Walk(mem, regionEnd, c').records;
    SelectedAppend(mem, regionEnd, cpus, asWritten, here, rs);
    ConcatAssoc(t.patches, Selected(mem, regionEnd, cpus, asWritten, here), Selected(mem, regionEnd, cpus, asWritten, rs));
  }

  /** The step case where the cursor leaves the region with table `t'`. */
  lemma {:induction false} InventoryLast(mem: seq<byte>, regionEnd: nat, cpus: seq<CpuApData>, asWritten: bool, c: nat, t: Table, c': nat, t': Table)
    requires c < regionEnd <= c'
    requires c' == c + Advance(mem, regionEnd, c)
    requires t'.patches == t.patches + Selected(mem, regionEnd, cpus, asWritten, if IsRecord(mem, regionEnd, c) then [c] else [])
    requires Walk(mem, regionEnd, c) == Ends(if IsRecord(mem, regionEnd, c) then [c] else [])
    ensures t'.patches == t.patches + Selected(mem, regionEnd, cpus, asWritten, Walk(mem, regionEnd, c).records)
  {
  }

  lemma {:induction false} ConcatAssoc(xs: seq<PatchInfo>, ys: seq<PatchInfo>, zs: seq<PatchInfo>)
    ensures (xs + ys) + zs == xs + (ys + zs)
  {
  }

  /**
   * What the worker is given is a consistent table: at least one patch,
   * every slot the 1 KiB rounding of its size, and TotalLoadSize their sum.
   */
  lemma {:induction false} CollectTable(mem: seq<byte>, regionEnd: nat, cpus: seq<CpuApData>, asWritten: bool, reallocFails: set<nat>, c: nat, t: Table)
    requires c < regionEnd && TableOk(t)
    requires Collect(mem, regionEnd, cpus, asWritten, reallocFails, c, t).Packs?
    ensures var r := Collect(mem, regionEnd, cpus, asWritten, reallocFails, c, t);
            r.patches != [] && SlotsAligned(r.patches) && r.total == SumAligned(r.patches) && r.total <= MAX_UINTN
    decreases regionEnd - c, 2 * MAX_PATCH_CAPACITY - |t.patches|
  {
    var s := StepAt(mem, regionEnd, cpus, asWritten, reallocFails, c, t);
    if s.Next? && s.cursor < regionEnd {
      CollectTable(mem, regionEnd, cpus, asWritten, reallocFails, s.cursor, s.table);
    }
  }

  /** A step that goes on stores exactly the slot of a needed record and moves by the record's advance. */
  lemma {:induction false} StepAtShape(mem: seq<byte>, regionEnd: nat, cpus: seq<CpuApData>, asWritten: bool, reallocFails: set<nat>, c: nat, t: Table)
    requires TableOk(t)
    ensures var s := StepAt(mem, regionEnd, cpus, asWritten, reallocFails, c, t);
            s.Next? ==> s.cursor == c + Advance(mem, regionEnd, c) &&
                        s.table.patches == t.patches +
                          Selected(mem, regionEnd, cpus, asWritten, if IsRecord(mem, regionEnd, c) then [c] else [])
    ensures var s := StepAt(mem, regionEnd, cpus, asWritten, reallocFails, c, t);
            s.Stop? ==> s.result.Exits? || s.result.Hangs?
  {
    var here := if IsRecord(mem, regionEnd, c) then [c] else [];
    if here != [] {
      assert here[1..] == [];
    }
  }

  lemma {:induction false} SelectedAppend(mem: seq<byte>, regionEnd: nat, cpus: seq<CpuApData>, asWritten: bool, xs: seq<nat>, ys: seq<nat>)
    ensures Selected(mem, regionEnd, cpus, asWritten, xs + ys) ==
            Selected(mem, regionEnd, cpus, asWritten, xs) + Selected(mem, regionEnd, cpus, asWritten, ys)
  {
    if xs == [] {
      assert xs + ys == ys;
    } else {
      var zs := xs + ys;
      assert zs[0] == xs[0] && zs[1..] == xs[1..] + ys;
      SelectedAppend(mem, regionEnd, cpus, asWritten, xs[1..], ys);
      var h := if Needed(mem, xs[0], cpus, asWritten) then [SlotFor(mem, regionEnd, xs[0])] else [];
      assert Selected(mem, regionEnd, cpus, asWritten, zs) == h + Selected(mem, regionEnd, cpus, asWritten, zs[1..]);
      ConcatAssoc(h, Selected(mem, regionEnd, cpus, asWritten, xs[1..]), Selected(mem, regionEnd, cpus, asWritten, ys));
    }
  }

  lemma {:induction false} SelectedMembers(mem: seq<byte>, regionEnd: nat, cpus: seq<CpuApData>, asWritten: bool, rs: seq<nat>, r: nat)
    ensures SlotFor(mem, regionEnd, r) in Selected(mem, regionEnd, cpus, asWritten, rs) <== r in rs && Needed(mem, r, cpus, asWritten)
    ensures forall p :: p in Selected(mem, regionEnd, cpus, asWritten, rs) ==>
              p.address in rs && Needed(mem, p.address, cpus, asWritten) && p == SlotFor(mem, regionEnd, p.address)
  {
    if rs != [] {
      SelectedMembers(mem, regionEnd, cpus, asWritten, rs[1..], r);
    }
  }

  /**
   * What LoadMicrocodePatch hands to the worker, from the start of the
   * region with the initial table: the walk of the region ends, and the
   * patches are exactly the needed records it visits, in region order,
   * each with its size and its 1 KiB slot.
   */
  lemma {:induction false} LoadInventory(mem: seq<byte>, regionEnd: nat, cpus: seq<CpuApData>, asWritten: bool, reallocFails: set<nat>, start: nat)
    requires start < regionEnd
    requires Collect(mem, regionEnd, cpus, asWritten, reallocFails, start, InitialTable).Packs?
    ensures Walk(mem, regionEnd, start).Ends?
    ensures var r := Collect(mem, regionEnd, cpus, asWritten, reallocFails, start, InitialTable);
            r.patches == Selected(mem, regionEnd, cpus, asWritten, Walk(mem, regionEnd, start).records) &&
            r.patches != [] && SlotsAligned(r.patches) && r.total == SumAligned(r.patches)
  {
    CollectInventory(mem, regionEnd, cpus, asWritten, reallocFails, start, InitialTable);
    CollectTable(mem, regionEnd, cpus, asWritten, reallocFails, start, InitialTable);
    assert [] + Selected(mem, regionEnd, cpus, asWritten, Walk(mem, regionEnd, start).records)
           == Selected(mem, regionEnd, cpus, asWritten, Walk(mem, regionEnd, start).records);
  }

  /**
   * With the corrected selection, loading keeps every update the processors
   * can use: a record of the flash region that MicrocodeDetect accepts for
   * one of the processors is among the packed patches. The selection as
   * written keeps such a record only when its base header names that processor.
   */
  lemma {:induction false} LoadKeepsAccepted(mem: seq<byte>, regionEnd: nat, cpus: seq<CpuApData>, asWritten: bool, reallocFails: set<nat>, start: nat,
                          r: nat, k: nat)
    requires start < regionEnd && k < |cpus|
    requires Collect(mem, regionEnd, cpus, asWritten, reallocFails, start, InitialTable).Packs?
    requires r in Walk(mem, regionEnd, start).records
    ensures IsRecord(mem, regionEnd, r)
    ensures MatchAt(mem, regionEnd, r, IdOf(cpus[k])).Some? && (!asWritten || BaseNames(ReadHeader(mem, r), IdOf(cpus[k]))) ==>
            SlotFor(mem, regionEnd, r) in Collect(mem, regionEnd, cpus, asWritten, reallocFails, start, InitialTable).patches
  {
    var rs := Walk(mem, regionEnd, start).records;
    LoadInventory(mem, regionEnd, cpus, asWritten, reallocFails, start);
    WalkRecords(mem, regionEnd, start);
    if MatchAt(mem, regionEnd, r, IdOf(cpus[k])).Some? && (!asWritten || BaseNames(ReadHeader(mem, r), IdOf(cpus[k]))) {
      if asWritten {
        NeedLoadAsWrittenMeaning(mem, r, cpus);
      } else {
        AcceptedIsNeeded(mem, regionEnd, r, cpus, k);
      }
      SelectedMembers(mem, regionEnd, cpus, asWritten, rs, r);
    }
  }

  lemma {:induction false} LoadsOnlyNeeded(mem: seq<byte>, regionEnd: nat, cpus: seq<CpuApData>, asWritten: bool, reallocFails: set<nat>, start: nat)
    requires start < regionEnd
    requires Collect(mem, regionEnd, cpus, asWritten, reallocFails, start, InitialTable).Packs?
    ensures forall p :: p in Collect(mem, regionEnd, cpus, asWritten, reallocFails, start, InitialTable).patches ==>
              p.address in Walk(mem, regionEnd, start).records && IsRecord(mem, regionEnd, p.address) &&
              Needed(mem, p.address, cpus, asWritten) && p == SlotFor(mem, regionEnd, p.address)
  {
    var rs := Walk(mem, regionEnd, start).records;
    LoadInventory(mem, regionEnd, cpus, asWritten, reallocFails, start);
    WalkRecords(mem, regionEnd, start);
    SelectedMembers(mem, regionEnd, cpus, asWritten, rs, start);
  }

  /**
   * A second, 52-byte patch placed right after the extended-only one, at
   * address 84: its base header names signature 1 on platform 0 (flags 1),
   * DataSize 4, TotalSize 52, and its checksum makes its words sum to zero.
   */
  const BaseNamedWords: seq<u32> := [
    1, 1, 0, 1,            // HeaderVersion, UpdateRevision, Date, ProcessorSignature
    0xFFFF_FFC4, 0, 1, 4,  // Checksum, LoaderRevision, ProcessorFlags, DataSize
    52, 0, 0, 0,           // TotalSize, Reserved
    0                      // the 4 data bytes
  ]

  lemma {:induction false} HoldsPrefix(mem: seq<byte>, ws: seq<u32>, vs: seq<u32>)
    requires HoldsWords(mem, ws + vs)
    ensures HoldsWords(mem, ws)
  {
    forall i | 0 <= i < |ws| ensures Read32(mem, 4 * i) == ws[i] {
      assert (ws + vs)[i] == ws[i];
    }
  }

  /** The header of the second patch, and the first one still read as before. */
  lemma {:induction false} TwoPatchFields(mem: seq<byte>)
    requires HoldsWords(mem, ExtendedOnlyWords + BaseNamedWords)
    ensures HoldsWords(mem, ExtendedOnlyWords)
    ensures ReadHeader(mem, 84) == Header(1, 1, 1, 0xFFFF_FFC4, 1, 4, 52)
  {
    var ws := ExtendedOnlyWords + BaseNamedWords;
    HoldsPrefix(mem, ExtendedOnlyWords, BaseNamedWords);
    assert Read32(mem, 4 * 21) == ws[21] && Read32(mem, 4 * 22) == ws[22] && Read32(mem, 4 * 24) == ws[24];
    assert Read32(mem, 4 * 25) == ws[25] && Read32(mem, 4 * 27) == ws[27] && Read32(mem, 4 * 28) == ws[28];
    assert Read32(mem, 4 * 29) == ws[29];
  }

  /** How both selections see the two records of the region [0, 136). */
  lemma {:induction false} TwoPatchSelection(mem: seq<byte>)
    requires HoldsWords(mem, ExtendedOnlyWords + BaseNamedWords)
    ensures IsRecord(mem, 136, 0) && Advance(mem, 136, 0) == 84
    ensures IsRecord(mem, 136, 84) && Advance(mem, 136, 84) == 52
    ensures !NeedLoadAsWritten(mem, 0, [CpuApData(1, 0, 0)]) && NeedLoad(mem, 0, [CpuApData(1, 0, 0)])
    ensures NeedLoadAsWritten(mem, 84, [CpuApData(1, 0, 0)]) && NeedLoad(mem, 84, [CpuApData(1, 0, 0)])
  {
    var cpus := [CpuApData(1, 0, 0)];
    TwoPatchFields(mem);
    ExtendedOnlyPatchIsDropped(mem);
    ExtendedOnlyPatchFields(mem);
    assert IdOf(cpus[0]) == CpuId(1, 0) && BaseNames(ReadHeader(mem, 84), IdOf(cpus[0]));
    NeedLoadAsWrittenMeaning(mem, 84, cpus);
    AsWrittenIsIncluded(mem, 84, cpus);
  }

  /** A pass over a record the selection skips moves past it and keeps the table. */
  lemma {:induction false} StepSkips(mem: seq<byte>, regionEnd: nat, cpus: seq<CpuApData>, asWritten: bool, reallocFails: set<nat>,
                                     c: nat, t: Table)
    requires TableOk(t) && !Needed(mem, c, cpus, asWritten) && Advance(mem, regionEnd, c) != 0
    ensures StepAt(mem, regionEnd, cpus, asWritten, reallocFails, c, t) == Next(c + Advance(mem, regionEnd, c), t)
  {
  }

  /** A pass over a record the selection picks stores it, when the store succeeds. */
  lemma {:induction false} StepStores(mem: seq<byte>, regionEnd: nat, cpus: seq<CpuApData>, asWritten: bool, reallocFails: set<nat>,
                                      c: nat, t: Table, t': Table)
    requires TableOk(t) && IsRecord(mem, regionEnd, c) && Needed(mem, c, cpus, asWritten)
    requires Store(c, Advance(mem, regionEnd, c), t, reallocFails) == Some(t')
    ensures StepAt(mem, regionEnd, cpus, asWritten, reallocFails, c, t) == Next(c + Advance(mem, regionEnd, c), t')
  {
  }

  /** The first two stores of the exhibit, into the initial table. */
  lemma {:induction false} ExhibitStores()
    ensures Store(84, 52, InitialTable, {}) == Some(Table([PatchInfo(84, 52, 1024)], 8, 1024))
    ensures Store(0, 84, InitialTable, {}) == Some(Table([PatchInfo(0, 84, 1024)], 8, 1024))
    ensures Store(84, 52, Table([PatchInfo(0, 84, 1024)], 8, 1024), {}) ==
            Some(Table([PatchInfo(0, 84, 1024), PatchInfo(84, 52, 1024)], 8, 2048))
  {
    assert AlignUp1K(84) == 1024 && AlignUp1K(52) == 1024;
    assert [PatchInfo(0, 84, 1024)] + [PatchInfo(84, 52, 1024)] == [PatchInfo(0, 84, 1024), PatchInfo(84, 52, 1024)];
  }

  /** Loading as written skips the first record and packs the second. */
  lemma {:induction false} AsWrittenPacksSecond(mem: seq<byte>, cpus: seq<CpuApData>)
    requires Advance(mem, 136, 0) == 84
    requires IsRecord(mem, 136, 84) && Advance(mem, 136, 84) == 52
    requires !NeedLoadAsWritten(mem, 0, cpus) && NeedLoadAsWritten(mem, 84, cpus)
    ensures Collect(mem, 136, cpus, true, {}, 0, InitialTable) == Packs([PatchInfo(84, 52, 1024)], 1024)
  {
    var one := Table([PatchInfo(84, 52, 1024)], 8, 1024);
    ExhibitStores();
    StepSkips(mem, 136, cpus, true, {}, 0, InitialTable);
    StepStores(mem, 136, cpus, true, {}, 84, InitialTable, one);
    assert Collect(mem, 136, cpus, true, {}, 84, InitialTable) == Finished(one);
  }

  /** The corrected selection packs both records, in region order. */
  lemma {:induction false} CorrectedPacksBoth(mem: seq<byte>, cpus: seq<CpuApData>)
    requires IsRecord(mem, 136, 0) && Advance(mem, 136, 0) == 84
    requires IsRecord(mem, 136, 84) && Advance(mem, 136, 84) == 52
    requires NeedLoad(mem, 0, cpus) && NeedLoad(mem, 84, cpus)
    ensures Collect(mem, 136, cpus, false, {}, 0, InitialTable) ==
            Packs([PatchInfo(0, 84, 1024), PatchInfo(84, 52, 1024)], 2048)
  {
    var first := Table([PatchInfo(0, 84, 1024)], 8, 1024);
    var both := Table([PatchInfo(0, 84, 1024), PatchInfo(84, 52, 1024)], 8, 2048);
    ExhibitStores();
    StepStores(mem, 136, cpus, false, {}, 0, InitialTable, first);
    StepStores(mem, 136, cpus, false, {}, 84, first, both);
    assert Collect(mem, 136, cpus, false, {}, 84, first) == Finished(both);
  }

  /**
   * The finding end to end, on the region [0, 136) holding both patches and
   * one processor with signature 1 on platform 0. MicrocodeDetect accepts
   * the first patch for that processor; loading as written reaches the worker
   * with the second patch only, so the packed region MicrocodeDetect then
   * scans lacks the first, while the corrected selection packs both.
   */
  lemma {:induction false} ExtendedOnlyPatchIsNotPacked(mem: seq<byte>)
    requires HoldsWords(mem, ExtendedOnlyWords + BaseNamedWords)
    ensures IsRecord(mem, 136, 0) && MatchAt(mem, 136, 0, CpuId(1, 0)) == Some(1)
    ensures Collect(mem, 136, [CpuApData(1, 0, 0)], true, {}, 0, InitialTable) ==
            Packs([PatchInfo(84, 52, 1024)], 1024)
    ensures Collect(mem, 136, [CpuApData(1, 0, 0)], false, {}, 0, InitialTable) ==
            Packs([PatchInfo(0, 84, 1024), PatchInfo(84, 52, 1024)], 2048)
  {
    TwoPatchFields(mem);
    ExtendedOnlyPatchMatches(mem);
    TwoPatchSelection(mem);
    AsWrittenPacksSecond(mem, [CpuApData(1, 0, 0)]);
    CorrectedPacksBoth(mem, [CpuApData(1, 0, 0)]);
  }

  /** Such a memory exists: the words of both patches laid out little-endian. */
  lemma {:induction false} TwoPatchRegionExists()
    ensures HoldsWords(LeWords(ExtendedOnlyWords + BaseNamedWords), ExtendedOnlyWords + BaseNamedWords)
    ensures |LeWords(ExtendedOnlyWords + BaseNamedWords)| == 136
  {
    LeWordsRead(ExtendedOnlyWords + BaseNamedWords);
  }

  // ------------------------------------------------------------ the packing

  /** One slot of the packed buffer: the patch's bytes, then zero padding up to its aligned size. */
  function Slot(mem: seq<byte>, p: PatchInfo): seq<byte>
  {
    BytesAt(mem, p.address, p.size) + Zeros(if p.alignedSize > p.size then p.alignedSize - p.size else 0)
  }

  /** The buffer LoadMicrocodePatchWorker fills: the slots back to back, in table order. */
  function Pack(mem: seq<byte>, ps: seq<PatchInfo>): seq<byte>
  {
    if ps == [] then [] else Pack(mem, ps[..|ps| - 1]) + Slot(mem, ps[|ps| - 1])
  }

  /** Where slot `j` starts in the packed buffer. */
  function Offset(ps: seq<PatchInfo>, j: nat): nat
    requires j <= |ps|
  {
    SumAligned(ps[..j])
  }

  lemma {:induction false} PackLength(mem: seq<byte>, ps: seq<PatchInfo>)
    requires SlotsAligned(ps)
    ensures |Pack(mem, ps)| == SumAligned(ps)
  {
    if ps != [] {
      var p := ps[|ps| - 1];
      assert SlotsAligned(ps[..|ps| - 1]) by {
        forall j | 0 <= j < |ps| - 1 ensures ps[..|ps| - 1][j] == ps[j] { }
      }
      PackLength(mem, ps[..|ps| - 1]);
      assert |Slot(mem, p)| == p.alignedSize;
    }
  }

  /** The packing of a prefix of the table is a prefix of the packing. */
  lemma {:induction false} PackPrefix(mem: seq<byte>, ps: seq<PatchInfo>, m: nat)
    requires m <= |ps| && SlotsAligned(ps)
    ensures |Pack(mem, ps[..m])| == Offset(ps, m) <= |Pack(mem, ps)|
    ensures Pack(mem, ps[..m]) == Pack(mem, ps)[..Offset(ps, m)]
  {
    PrefixAligned(ps, m);
    PackLength(mem, ps[..m]);
    PackLength(mem, ps);
    if m < |ps| {
      var q := ps[..|ps| - 1];
      assert q[..m] == ps[..m];
      PrefixAligned(ps, |ps| - 1);
      PackPrefix(mem, q, m);
      PackLength(mem, q);
      assert ps[..|ps|] == ps;
    } else {
      assert ps[..m] == ps;
    }
  }

  lemma {:induction false} PrefixAligned(ps: seq<PatchInfo>, m: nat)
    requires m <= |ps| && SlotsAligned(ps)
    ensures SlotsAligned(ps[..m])
  {
    forall j | 0 <= j < m ensures ps[..m][j] == ps[j] { }
  }

  /** Slot sizes are multiples of 1 KiB, so every slot starts on a 1 KiB boundary of the buffer. */
  lemma {:induction false} OffsetAligned(ps: seq<PatchInfo>, j: nat)
    requires j <= |ps| && SlotsAligned(ps)
    ensures Offset(ps, j) % SIZE_1KB == 0
  {
    if j > 0 {
      var q := ps[..j];
      assert q[..j - 1] == ps[..j - 1];
      OffsetAligned(ps, j - 1);
      assert q[j - 1] == ps[j - 1];
    }
  }

  /**
   * The packed buffer holds patch `j` verbatim at its 1 KiB-aligned offset,
   * and nothing but zeros in the padding after it.
   */
  lemma {:induction false} PackLayout(mem: seq<byte>, ps: seq<PatchInfo>, j: nat, k: nat)
    requires j < |ps| && SlotsAligned(ps) && k < ps[j].alignedSize
    ensures Offset(ps, j) % SIZE_1KB == 0
    ensures Offset(ps, j) + k < |Pack(mem, ps)|
    ensures Pack(mem, ps)[Offset(ps, j) + k] == if k < ps[j].size then ByteAt(mem, ps[j].address + k) else 0
  {
    OffsetAligned(ps, j);
    PackPrefix(mem, ps, j + 1);
    PackPrefix(mem, ps, j);
    var q := ps[..j + 1];
    assert q[..j] == ps[..j] && q[j] == ps[j] && q[..|q| - 1] == ps[..j];
    var head, slot := Pack(mem, ps[..j]), Slot(mem, ps[j]);
    assert Pack(mem, q) == head + slot;
    assert Offset(ps, j + 1) == Offset(ps, j) + ps[j].alignedSize;
    SlotAt(mem, ps[j], k);
    assert Pack(mem, q)[Offset(ps, j) + k] == slot[k];
  }

  lemma {:induction false} SlotAt(mem: seq<byte>, p: PatchInfo, k: nat)
    requires p.alignedSize == AlignUp1K(p.size) && k < p.alignedSize
    ensures |Slot(mem, p)| == p.alignedSize
    ensures Slot(mem, p)[k] == if k < p.size then ByteAt(mem, p.address + k) else 0
  {
  }

  /** Appending slot `j` to the packing of the first `j` slots. */
  lemma {:induction false} PackSnoc(mem: seq<byte>, ps: seq<PatchInfo>, j: nat)
    requires j < |ps| && SlotsAligned(ps)
    ensures Pack(mem, ps[..j + 1]) == Pack(mem, ps[..j]) + Slot(mem, ps[j])
    ensures |Pack(mem, ps[..j])| == Offset(ps, j) && Offset(ps, j + 1) == Offset(ps, j) + ps[j].alignedSize
    ensures Offset(ps, j + 1) <= SumAligned(ps)
  {
    var q := ps[..j + 1];
    assert q[..|q| - 1] == ps[..j] && q[|q| - 1] == ps[j];
    PackPrefix(mem, ps, j);
    PackPrefix(mem, ps, j + 1);
    PackLength(mem, ps);
  }

  // ------------------------------------------------------------ the methods

  /**
   * LoadMicrocodePatchWorker: allocate the pages (`pages` is the address
   * AllocatePages returns, None for NULL), copy every patch into its slot,
   * zero the padding, and publish the buffer as the microcode region.
   */
  method LoadMicrocodePatchWorker(mp: CpuMpData, mem: seq<byte>, infos: array<PatchInfo>, n: nat, total: nat,
                                  pages: Option<nat>) returns (ram: array?<byte>)
    requires 0 < n <= infos.Length
    requires SlotsAligned(infos[..n]) && total == SumAligned(infos[..n])
    modifies mp`microcodePatchAddress, mp`microcodePatchRegionSize
    ensures pages.None? ==> (ram == null &&
                             mp.microcodePatchAddress == old(mp.microcodePatchAddress) &&
                             mp.microcodePatchRegionSize == old(mp.microcodePatchRegionSize))
    ensures pages.Some? ==> (ram != null && fresh(ram) && ram[..] == Pack(mem, infos[..n]) &&
                             mp.microcodePatchAddress == pages.value && mp.microcodePatchRegionSize == total)
  {
    if pages.None? {
      return null;
    }
    ghost var ps := infos[..n];
    var buffer := new byte[total];
    var walker := 0;
    for index := 0 to n
      invariant walker == Offset(ps, index) && walker <= total
      invariant |Pack(mem, ps[..index])| == walker
      invariant forall k :: 0 <= k < walker ==> buffer[k] == Pack(mem, ps[..index])[k]
    {
      walker := PackNext(buffer, mem, ps, index, infos[index], walker);
    }
    PackLength(mem, ps);
    assert ps[..n] == ps;
    mp.microcodePatchAddress := pages.value;
    mp.microcodePatchRegionSize := total;
    ram := buffer;
  }

  /** One iteration of the worker's loop: the packed prefix grows by the slot of `ps[index]`. */
  method PackNext(buffer: array<byte>, mem: seq<byte>, ghost ps: seq<PatchInfo>, index: nat, p: PatchInfo, walker: nat)
    returns (walker': nat)
    requires index < |ps| && p == ps[index] && SlotsAligned(ps) && SumAligned(ps) <= buffer.Length
    requires walker == Offset(ps, index) && walker <= buffer.Length && |Pack(mem, ps[..index])| == walker
    requires forall k :: 0 <= k < walker ==> buffer[k] == Pack(mem, ps[..index])[k]
    modifies buffer
    ensures walker' == Offset(ps, index + 1) && walker' <= SumAligned(ps) && |Pack(mem, ps[..index + 1])| == walker'
    ensures forall k :: 0 <= k < walker' ==> buffer[k] == Pack(mem, ps[..index + 1])[k]
  {
    PackSnoc(mem, ps, index);
    FillSlot(buffer, walker, mem, p);
    walker' := walker + p.alignedSize;
  }

  /** Slot `p` is written at `walker`, nothing else changes. */
  method FillSlot(buffer: array<byte>, walker: nat, mem: seq<byte>, p: PatchInfo)
    requires p.alignedSize == AlignUp1K(p.size) && walker + p.alignedSize <= buffer.Length
    modifies buffer
    ensures forall k :: 0 <= k < buffer.Length ==>
              buffer[k] == if walker <= k < walker + p.alignedSize then Slot(mem, p)[k - walker] else old(buffer[k])
  {
    CopyMem(buffer, walker, mem, p.address, p.size);
    if p.alignedSize > p.size {
      ZeroMem(buffer, walker + p.size, p.alignedSize - p.size);
    }
    forall k | walker <= k < walker + p.alignedSize
      ensures buffer[k] == Slot(mem, p)[k - walker]
    {
      SlotAt(mem, p, k - walker);
    }
  }

  /** ReallocatePool to `cap` entries: a fresh table holding the old entries first. */
  method ReallocatePatchInfo(buf: array<PatchInfo>, cap: nat) returns (nb: array<PatchInfo>)
    requires buf.Length <= cap
    ensures fresh(nb) && nb.Length == cap && nb[..buf.Length] == buf[..]
  {
    nb := new PatchInfo[cap];
    for i := 0 to buf.Length
      invariant nb[..i] == buf[..i]
    {
      nb[i] := buf[i];
    }
  }

  /**
   * One pass of the do-while body of LoadMicrocodePatch on the table
   * `buf[0 .. n)` of capacity `buf.Length` (it may move to a fresh, doubled
   * table): `stop` reports the goto OnExit, or an unneeded record of size 0
   * at which the loop never advances.
   */
  method LoadStep(mem: seq<byte>, regionEnd: nat, cpus: seq<CpuApData>, asWritten: bool, reallocFails: set<nat>, entry: nat,
                  buf: array<PatchInfo>, n: nat, total: nat)
    returns (stop: Option<LoadResult>, buf': array<PatchInfo>, n': nat, total': nat, next: nat)
    requires n <= buf.Length && TableOk(Table(buf[..n], buf.Length, total))
    modifies buf
    ensures buf' == buf || fresh(buf')
    ensures var s := StepAt(mem, regionEnd, cpus, asWritten, reallocFails, entry, Table(old(buf[..n]), buf.Length, total));
            (stop.Some? <==> s.Stop?) && (s.Stop? ==> stop.value == s.result) &&
            (s.Next? ==> next == s.cursor && n' <= buf'.Length && Table(buf'[..n'], buf'.Length, total') == s.table)
  {
    buf', n', total', next := buf, n, total, entry;
    var h := ReadHeader(mem, entry);
    if h.headerVersion != 1 {
      next := entry + SIZE_1KB;
      return None, buf', n', total', next;
    }
    var totalSize := ScanSize(h);
    if entry > MAX_UINTN - totalSize || entry + totalSize > regionEnd || totalSize % 4 != 0 {
      next := entry + SIZE_1KB;
      return None, buf', n', total', next;
    }
    totalSize := if h.dataSize == 0 then LEGACY_TOTAL_SIZE else h.totalSize;
    var needLoad;
    if asWritten {
      needLoad := NeedLoadScanAsWritten(mem, entry, cpus);
    } else {
      needLoad := NeedLoadScan(mem, entry, cpus);
    }
    if needLoad {
      var stored;
      stored, buf', n', total' := StorePatch(buf, n, total, entry, totalSize, reallocFails);
      if !stored {
        return Some(Exits), buf', n', total', next;
      }
    } else if totalSize == 0 {
      return Some(Hangs), buf', n', total', next;
    }
    next := entry + totalSize;
    stop := None;
  }

  /**
   * The needed-record branch of the loop body: grow the table when it is
   * full, check TotalLoadSize for overflow, and store the entry at index
   * n; `stored` is false where the source takes goto OnExit.
   */
  method StorePatch(buf: array<PatchInfo>, n: nat, total: nat, entry: nat, totalSize: nat, reallocFails: set<nat>)
    returns (stored: bool, buf': array<PatchInfo>, n': nat, total': nat)
    requires n <= buf.Length && TableOk(Table(buf[..n], buf.Length, total))
    modifies buf
    ensures buf' == buf || fresh(buf')
    ensures var r := Store(entry, totalSize, Table(old(buf[..n]), buf.Length, total), reallocFails);
            (stored <==> r.Some?) && (stored ==> n' <= buf'.Length && Table(buf'[..n'], buf'.Length, total') == r.value)
  {
    buf', n', total' := buf, n + 1, total;
    if n' >= buf.Length {
      if buf.Length > MAX_PATCH_CAPACITY {
        return false, buf', n', total';
      }
      if 2 * buf.Length in reallocFails {
        return false, buf', n', total';
      }
      buf' := ReallocatePatchInfo(buf, 2 * buf.Length);
    }
    if totalSize > MAX_UINTN - total || AlignUp1K(totalSize) > MAX_UINTN - total {
      return false, buf', n', total';
    }
    ghost var kept := buf'[..n];
    buf'[n' - 1] := PatchInfo(entry, totalSize, AlignUp1K(totalSize));
    assert buf'[..n'] == kept + [PatchInfo(entry, totalSize, AlignUp1K(totalSize))];
    total' := total + AlignUp1K(totalSize);
    stored := true;
  }

  /**
   * What LoadMicrocodePatch decides for the region [address, address + size)
   * given by the PCDs: nothing without a region or when AllocatePool
   * fails (`poolOk` false), otherwise the collection loop from the start of
   * the region with the initial table.
   */
  function LoadOutcome(mem: seq<byte>, address: nat, size: nat, cpus: seq<CpuApData>, asWritten: bool, poolOk: bool,
                       reallocFails: set<nat>): LoadResult
  {
    if address == 0 || size == 0 then Exits
    else if !poolOk then Exits
    else Collect(mem, address + size, cpus, asWritten, reallocFails, address, InitialTable)
  }

  /**
   * LoadMicrocodePatch: publish the PCD region first, then collect the
   * needed patches and, when there are some and AllocatePages succeeds,
   * publish the packed copy instead. `hangs` reports an unneeded record of
   * size 0, at which the loop never advances.
   */
  method LoadMicrocodePatch(mp: CpuMpData, mem: seq<byte>, pcdAddress: nat, pcdSize: nat, asWritten: bool, poolOk: bool,
                            reallocFails: set<nat>, pages: Option<nat>) returns (ram: array?<byte>, hangs: bool)
    requires RegionFits(pcdAddress, pcdSize)
    modifies mp`microcodePatchAddress, mp`microcodePatchRegionSize
    ensures var r := LoadOutcome(mem, pcdAddress, pcdSize, mp.cpuData, asWritten, poolOk, reallocFails);
            && hangs == r.Hangs?
            && (if r.Packs? && pages.Some?
                then ram != null && fresh(ram) && ram[..] == Pack(mem, r.patches) &&
                     mp.microcodePatchAddress == pages.value && mp.microcodePatchRegionSize == r.total
                else ram == null && mp.microcodePatchAddress == pcdAddress && mp.microcodePatchRegionSize == pcdSize)
  {
    mp.microcodePatchAddress := pcdAddress;
    mp.microcodePatchRegionSize := pcdSize;
    ram, hangs := null, false;
    var start := pcdAddress;
    var regionEnd := pcdAddress + pcdSize;
    if start == 0 || start == regionEnd {
      return;
    }
    if !poolOk {
      return;
    }
    var cpus := mp.cpuData;
    var r, buf, n := CollectPatches(mem, regionEnd, cpus, asWritten, reallocFails, start);
    assert r == LoadOutcome(mem, pcdAddress, pcdSize, cpus, asWritten, poolOk, reallocFails);
    if !r.Packs? {
      hangs := r.Hangs?;
      return;
    }
    LoadInventory(mem, regionEnd, cpus, asWritten, reallocFails, start);
    ram := LoadMicrocodePatchWorker(mp, mem, buf, n, r.total, pages);
    assert ram != null ==> ram[..] == Pack(mem, r.patches);
  }

  /**
   * The loop of LoadMicrocodePatch over the region, one LoadStep per
   * iteration; on Packs the buffer holds the collected slots.
   */
  method CollectPatches(mem: seq<byte>, regionEnd: nat, cpus: seq<CpuApData>, asWritten: bool, reallocFails: set<nat>, start: nat)
    returns (r: LoadResult, buf: array<PatchInfo>, n: nat)
    requires start < regionEnd
    ensures r == Collect(mem, regionEnd, cpus, asWritten, reallocFails, start, InitialTable)
    ensures fresh(buf) && n <= buf.Length && (r.Packs? ==> buf[..n] == r.patches)
  {
    buf := new PatchInfo[DEFAULT_MAX_MICROCODE_PATCH_NUM];
    n := 0;
    var total: nat := 0;
    var entry := start;
    assert buf[..0] == [];
    while true
      invariant start <= entry < regionEnd
      invariant fresh(buf) && n <= buf.Length
      invariant TableOk(Table(buf[..n], buf.Length, total))
      invariant Collect(mem, regionEnd, cpus, asWritten, reallocFails, entry, Table(buf[..n], buf.Length, total))
                == Collect(mem, regionEnd, cpus, asWritten, reallocFails, start, InitialTable)
      decreases regionEnd - entry, 2 * MAX_PATCH_CAPACITY - n
    {
      var stop, buf', n', total', next := LoadStep(mem, regionEnd, cpus, asWritten, reallocFails, entry, buf, n, total);
      if stop.Some? {
        return stop.value, buf, n;
      }
      buf, n, total, entry := buf', n', total', next;
      if entry >= regionEnd {
        r := Finished(Table(buf[..n], buf.Length, total));
        return;
      }
    }
  }
}

/**
 * The microcode update container format of section 9.11 of the Intel 64 and
 * IA-32 Architectures Software Developer's Manual, Volume 3A, as
 * UefiCpuPkg/Library/MpInitLib/Microcode.c reads it: the 48-byte update
 * header, the optional extended signature table, the checksum rules, and the
 * record walk shared by MicrocodeDetect and LoadMicrocodePatch.
 */
module MicrocodeFormat {
  import opened Bytes

  // CPU_MICROCODE_HEADER (48 bytes) field offsets.
  const HEADER_SIZE: nat := 48
  const OFF_HEADER_VERSION: nat := 0
  const OFF_UPDATE_REVISION: nat := 4
  const OFF_PROCESSOR_SIGNATURE: nat := 12
  const OFF_CHECKSUM: nat := 16
  const OFF_PROCESSOR_FLAGS: nat := 24
  const OFF_DATA_SIZE: nat := 28
  const OFF_TOTAL_SIZE: nat := 32

  // CPU_MICROCODE_EXTENDED_TABLE_HEADER (20 bytes) and CPU_MICROCODE_EXTENDED_TABLE (12 bytes).
  const EXT_HEADER_SIZE: nat := 20
  const EXT_ENTRY_SIZE: nat := 12

  const SIZE_1KB: nat := 1024
  /** Data size assumed when the header's DataSize is 0, and the record size then used to advance. */
  const LEGACY_DATA_SIZE: nat := 2000
  const LEGACY_TOTAL_SIZE: nat := 2048

  /** The platform index: bits 50:52 of MSR IA32_PLATFORM_ID. */
  type PlatformId = x: nat | x < 8

  /** The identity a record is matched against: CPUID(1).EAX and the platform index. */
  datatype CpuId = CpuId(signature: u32, platformId: PlatformId)

  /** The header fields the code reads, at address `a`. */
  datatype Header = Header(
    headerVersion: u32, updateRevision: u32, processorSignature: u32, checksum: u32,
    processorFlags: u32, dataSize: u32, totalSize: u32)

  function ReadHeader(mem: seq<byte>, a: nat): Header
  {
    Header(Read32(mem, a + OFF_HEADER_VERSION), Read32(mem, a + OFF_UPDATE_REVISION),
           Read32(mem, a + OFF_PROCESSOR_SIGNATURE), Read32(mem, a + OFF_CHECKSUM),
           Read32(mem, a + OFF_PROCESSOR_FLAGS), Read32(mem, a + OFF_DATA_SIZE),
           Read32(mem, a + OFF_TOTAL_SIZE))
  }

  /** The size the checks and CheckSum Part1 cover: header plus data, 2000 data bytes when DataSize is 0. */
  function ScanSize(h: Header): nat
  {
    HEADER_SIZE + (if h.dataSize == 0 then LEGACY_DATA_SIZE else h.dataSize)
  }

  /**
   * The size check of both scans: the scanned range must not overflow the
   * address space, must end inside the region, and must be a multiple of 4.
   */
  predicate SizeOk(mem: seq<byte>, regionEnd: nat, a: nat)
  {
    var size := ScanSize(ReadHeader(mem, a));
    !(a > MAX_UINTN - size || a + size > regionEnd || size % 4 != 0)
  }

  /** A position holds a record (not padding) when its header version is 1 and its size checks pass. */
  predicate IsRecord(mem: seq<byte>, regionEnd: nat, a: nat)
  {
    ReadHeader(mem, a).headerVersion == 1 && SizeOk(mem, regionEnd, a)
  }

  /**
   * How far the cursor moves from `a`: 1 KiB past padding or a rejected
   * header, else 2048 for a legacy record and the header's TotalSize otherwise.
   */
  function Advance(mem: seq<byte>, regionEnd: nat, a: nat): nat
  {
    if !IsRecord(mem, regionEnd, a) then SIZE_1KB
    else
      var h := ReadHeader(mem, a);
      if h.dataSize == 0 then LEGACY_TOTAL_SIZE else h.totalSize
  }

  // ---------------------------------------------------------------- checksums

  /**
   * InCompleteCheckSum32: the wrapping word sum of the scanned range with the
   * base header's signature, flags and checksum taken back out.
   */
  function InCompleteSum(mem: seq<byte>, a: nat, size: nat): u32
    requires size % 4 == 0
  {
    var h := ReadHeader(mem, a);
    Sub32(Sub32(Sub32(Sum32(mem, a, size), h.processorSignature), h.processorFlags), h.checksum)
  }

  /** CheckSum Part1 / Part3: the incomplete sum with one identity's three fields added back. */
  function ResolvedSum(inc: u32, signature: u32, flags: u32, checksum: u32): u32
  {
    Add32(Add32(Add32(inc, signature), flags), checksum)
  }

  /**
   * The word sum of the scanned range as it would be if its header carried
   * `signature`, `flags` and `checksum`: the checksum an extended entry claims.
   * Words 3, 4 and 6 are the header fields at offsets 12, 16 and 24.
   */
  function SubstitutedSum(mem: seq<byte>, a: nat, size: nat, signature: u32, flags: u32, checksum: u32): u32
    requires size % 4 == 0 && size >= HEADER_SIZE
  {
    var ws := Words(mem, a, size / 4);
    Sum(ws[3 := signature][4 := checksum][6 := flags]) % U32
  }

  /**
   * The incomplete-checksum shortcut is sound: adding an identity's fields to
   * InCompleteCheckSum32 gives exactly the checksum of the record with those
   * fields substituted into its header.
   */
  lemma {:induction false} ResolvedSumIsSubstitutedSum(mem: seq<byte>, a: nat, size: nat, signature: u32, flags: u32, checksum: u32)
    requires size % 4 == 0 && size >= HEADER_SIZE
    ensures ResolvedSum(InCompleteSum(mem, a, size), signature, flags, checksum)
            == SubstitutedSum(mem, a, size, signature, flags, checksum)
  {
    var h := ReadHeader(mem, a);
    var ws := Words(mem, a, size / 4);
    InCompleteSumUnfolded(mem, a, size);
    assert ws[3] == h.processorSignature && ws[4] == h.checksum && ws[6] == h.processorFlags;
    SumOfSubstituted(ws, signature, checksum, flags);
    ResolveChain(InCompleteSum(mem, a, size), Sum(ws), ws[3], ws[6], ws[4], signature, flags, checksum,
                 Sum(ws[3 := signature][4 := checksum][6 := flags]));
  }

  /** InCompleteSum in terms of the unreduced word sum. */
  lemma {:induction false} InCompleteSumUnfolded(mem: seq<byte>, a: nat, size: nat)
    requires size % 4 == 0 && size >= HEADER_SIZE
    ensures var h := ReadHeader(mem, a);
            InCompleteSum(mem, a, size) ==
            Sub32(Sub32(Sub32(Sum(Words(mem, a, size / 4)) % U32, h.processorSignature), h.processorFlags), h.checksum)
  {
  }

  /** WrapChain with the incomplete sum and the substituted sum given by name. */
  lemma {:induction false} ResolveChain(inc: u32, s: int, x1: u32, x2: u32, x3: u32, y1: u32, y2: u32, y3: u32, t: int)
    requires inc == Sub32(Sub32(Sub32(s % U32, x1), x2), x3)
    requires t == s - x1 - x2 - x3 + y1 + y2 + y3
    ensures ResolvedSum(inc, y1, y2, y3) == t % U32
  {
    WrapChain(s, x1, x2, x3, y1, y2, y3);
  }

  /** Replacing words 3, 4 and 6 changes the unbounded sum by the differences. */
  lemma {:induction false} SumOfSubstituted(ws: seq<int>, signature: int, checksum: int, flags: int)
    requires |ws| > 6
    ensures Sum(ws[3 := signature][4 := checksum][6 := flags])
            == Sum(ws) - ws[3] - ws[6] - ws[4] + signature + flags + checksum
  {
    var w1 := ws[3 := signature];
    var w2 := w1[4 := checksum];
    SumUpdate(ws, 3, signature);
    SumUpdate(w1, 4, checksum);
    SumUpdate(w2, 6, flags);
  }

  /**
   * Taking three values out of a wrapping sum and adding three others back,
   * step by step modulo 2^32, is the unbounded computation reduced once.
   */
  lemma {:induction false} WrapChain(s: int, x1: u32, x2: u32, x3: u32, y1: u32, y2: u32, y3: u32)
    ensures ResolvedSum(Sub32(Sub32(Sub32(s % U32, x1), x2), x3), y1, y2, y3)
            == (s - x1 - x2 - x3 + y1 + y2 + y3) % U32
  {
    SubReduced(s, x1);
    SubReduced(s - x1, x2);
    SubReduced(s - x1 - x2, x3);
    var t := s - x1 - x2 - x3;
    AddReduced(t, y1);
    AddReduced(t + y1, y2);
    AddReduced(t + y1 + y2, y3);
  }

  /**
   * With a record's own fields added back, the incomplete sum is the plain
   * wrapping word sum of the scanned range (CheckSum Part1).
   */
  lemma {:induction false} BaseResolvedSumIsSum32(mem: seq<byte>, a: nat, size: nat)
    requires size % 4 == 0 && size >= HEADER_SIZE
    ensures var h := ReadHeader(mem, a);
            ResolvedSum(InCompleteSum(mem, a, size), h.processorSignature, h.processorFlags, h.checksum)
            == Sum32(mem, a, size)
  {
    var h := ReadHeader(mem, a);
    var ws := Words(mem, a, size / 4);
    ResolvedSumIsSubstitutedSum(mem, a, size, h.processorSignature, h.processorFlags, h.checksum);
    assert ws[3 := h.processorSignature][4 := h.checksum][6 := h.processorFlags] == ws;
  }

  // ------------------------------------------------------ extended signatures

  /** ExtendedTableLength: the UINT32 difference TotalSize - (DataSize + 48), which wraps. */
  function ExtendedTableLength(h: Header): u32
  {
    Sub32(h.totalSize, h.dataSize + HEADER_SIZE)
  }

  /** Address of the extended table header: right after the header and data. */
  function ExtendedTableAddress(a: nat, h: Header): nat
  {
    a + HEADER_SIZE + h.dataSize
  }

  /** Address of extended entry `i` behind the extended table header at `t`. */
  function EntryAddress(t: nat, i: nat): nat
  {
    t + EXT_HEADER_SIZE + EXT_ENTRY_SIZE * i
  }

  /** Extended entry `i` is valid (CheckSum Part3 is zero) and names this processor. */
  predicate EntryMatches(mem: seq<byte>, t: nat, i: nat, inc: u32, cpu: CpuId)
  {
    var e := EntryAddress(t, i);
    var signature := Read32(mem, e);
    var flag := Read32(mem, e + 4);
    ResolvedSum(inc, signature, flag, Read32(mem, e + 8)) == 0
    && signature == cpu.signature && BitSet(flag, cpu.platformId)
  }

  /** First-match-wins search of entries `[i, count)`; entries after the first match are never examined. */
  function FirstEntryMatch(mem: seq<byte>, t: nat, count: nat, inc: u32, cpu: CpuId, i: nat): (r: Option<nat>)
    requires i <= count
    ensures r.Some? ==> i <= r.value < count
    decreases count - i
  {
    if i == count then None
    else if EntryMatches(mem, t, i, inc, cpu) then Some(i)
    else FirstEntryMatch(mem, t, count, inc, cpu, i + 1)
  }

  /** The search finds the first matching entry of `[i, count)`, and finds none only when none matches. */
  lemma {:induction false} FirstEntryMatchIsFirst(mem: seq<byte>, t: nat, count: nat, inc: u32, cpu: CpuId, i: nat)
    requires i <= count
    ensures var r := FirstEntryMatch(mem, t, count, inc, cpu, i);
            r.Some? ==> EntryMatches(mem, t, r.value, inc, cpu) &&
                        forall j :: i <= j < r.value ==> !EntryMatches(mem, t, j, inc, cpu)
    ensures FirstEntryMatch(mem, t, count, inc, cpu, i).None? ==>
              forall j :: i <= j < count ==> !EntryMatches(mem, t, j, inc, cpu)
    decreases count - i
  {
    if i < count && !EntryMatches(mem, t, i, inc, cpu) {
      FirstEntryMatchIsFirst(mem, t, count, inc, cpu, i + 1);
    }
  }

  /**
   * The extended-table test, consulted when the base header does not name
   * the processor: the table must be present (non-zero length), 4-aligned and
   * have a zero word sum; then the first matching entry gives the flags.
   */
  function ExtendedMatch(mem: seq<byte>, a: nat, inc: u32, cpu: CpuId): Option<u32>
  {
    var h := ReadHeader(mem, a);
    var len := ExtendedTableLength(h);
    var t := ExtendedTableAddress(a, h);
    if len == 0 || len % 4 != 0 || Sum32(mem, t, len) != 0 then None
    else
      match FirstEntryMatch(mem, t, Read32(mem, t), inc, cpu, 0)
      case None => None
      case Some(i) => Some(Read32(mem, EntryAddress(t, i) + 4))
  }

  /** The base header names this processor (signature and platform bit). */
  predicate BaseNames(h: Header, cpu: CpuId)
  {
    h.processorSignature == cpu.signature && BitSet(h.processorFlags, cpu.platformId)
  }

  /**
   * Whether the record at `a` is accepted for `cpu`, ignoring the revision
   * test, and the ProcessorFlags it is accepted under. When the base header
   * names the processor only CheckSum Part1 decides; otherwise a record with
   * non-zero DataSize may match through its extended table.
   */
  function MatchAt(mem: seq<byte>, regionEnd: nat, a: nat, cpu: CpuId): Option<u32>
    requires IsRecord(mem, regionEnd, a)
  {
    var h := ReadHeader(mem, a);
    var inc := InCompleteSum(mem, a, ScanSize(h));
    if BaseNames(h, cpu) then
      if ResolvedSum(inc, h.processorSignature, h.processorFlags, h.checksum) == 0
      then Some(h.processorFlags) else None
    else if h.dataSize != 0 then ExtendedMatch(mem, a, inc, cpu)
    else None
  }

  /**
   * What acceptance under the base header means, without the incomplete-sum
   * shortcut: when the base header names the processor, the record is
   * accepted exactly when the wrapping word sum of its scanned range is zero.
   */
  lemma {:induction false} MatchAtBase(mem: seq<byte>, regionEnd: nat, a: nat, cpu: CpuId)
    requires IsRecord(mem, regionEnd, a)
    requires BaseNames(ReadHeader(mem, a), cpu)
    ensures MatchAt(mem, regionEnd, a, cpu).Some? <==> Sum32(mem, a, ScanSize(ReadHeader(mem, a))) == 0
    ensures MatchAt(mem, regionEnd, a, cpu).Some? ==>
              MatchAt(mem, regionEnd, a, cpu).value == ReadHeader(mem, a).processorFlags
  {
    BaseResolvedSumIsSum32(mem, a, ScanSize(ReadHeader(mem, a)));
  }

  /**
   * What acceptance through the extended table means: a record whose base
   * header does not name the processor is accepted only with non-zero
   * DataSize and a non-empty, 4-aligned, zero-sum extended table holding an
   * entry that names the processor and makes the record's word sum zero once
   * its fields are substituted into the header; the accepted flags are that
   * entry's.
   */
  lemma {:induction false} MatchAtExtended(mem: seq<byte>, regionEnd: nat, a: nat, cpu: CpuId)
    requires IsRecord(mem, regionEnd, a)
    requires !BaseNames(ReadHeader(mem, a), cpu)
    requires MatchAt(mem, regionEnd, a, cpu).Some?
    ensures ReadHeader(mem, a).dataSize != 0
    ensures var h := ReadHeader(mem, a);
            var len := ExtendedTableLength(h);
            len != 0 && len % 4 == 0 && Sum32(mem, ExtendedTableAddress(a, h), len) == 0
    ensures var h := ReadHeader(mem, a);
            var t := ExtendedTableAddress(a, h);
            exists i :: 0 <= i < Read32(mem, t) && ExtendedEntryProves(mem, a, t, i, cpu, MatchAt(mem, regionEnd, a, cpu).value)
  {
    var h := ReadHeader(mem, a);
    var inc := InCompleteSum(mem, a, ScanSize(h));
    assert MatchAt(mem, regionEnd, a, cpu) == ExtendedMatch(mem, a, inc, cpu);
    ExtendedMatchMeaning(mem, a, cpu);
  }

  /**
   * The converse of MatchAtExtended: a record whose base header does not
   * name the processor is accepted once its extended table is intact and
   * one of its entries proves the record for the processor.
   */
  lemma {:induction false} MatchAtExtendedComplete(mem: seq<byte>, regionEnd: nat, a: nat, cpu: CpuId, i: nat, flags: u32)
    requires IsRecord(mem, regionEnd, a)
    requires !BaseNames(ReadHeader(mem, a), cpu) && ReadHeader(mem, a).dataSize != 0
    requires var h := ReadHeader(mem, a);
             var len := ExtendedTableLength(h);
             len != 0 && len % 4 == 0 && Sum32(mem, ExtendedTableAddress(a, h), len) == 0
    requires var t := ExtendedTableAddress(a, ReadHeader(mem, a));
             i < Read32(mem, t) && ExtendedEntryProves(mem, a, t, i, cpu, flags)
    ensures MatchAt(mem, regionEnd, a, cpu).Some?
  {
    var h := ReadHeader(mem, a);
    var size := ScanSize(h);
    var inc := InCompleteSum(mem, a, size);
    var t := ExtendedTableAddress(a, h);
    var e := EntryAddress(t, i);
    ResolvedSumIsSubstitutedSum(mem, a, size, Read32(mem, e), flags, Read32(mem, e + 8));
    ExtendedMatchComplete(mem, a, inc, cpu, i);
  }

  /** ExtendedMatch accepts once the table is intact and some entry matches. */
  lemma {:induction false} ExtendedMatchComplete(mem: seq<byte>, a: nat, inc: u32, cpu: CpuId, i: nat)
    requires var h := ReadHeader(mem, a);
             var len := ExtendedTableLength(h);
             len != 0 && len % 4 == 0 && Sum32(mem, ExtendedTableAddress(a, h), len) == 0
    requires var t := ExtendedTableAddress(a, ReadHeader(mem, a));
             i < Read32(mem, t) && EntryMatches(mem, t, i, inc, cpu)
    ensures ExtendedMatch(mem, a, inc, cpu).Some?
  {
    var t := ExtendedTableAddress(a, ReadHeader(mem, a));
    FirstEntryMatchIsFirst(mem, t, Read32(mem, t), inc, cpu, 0);
  }

  /** What ExtendedMatch checked when it accepts: the table conditions and the first matching entry. */
  lemma {:induction false} ExtendedMatchChecks(mem: seq<byte>, a: nat, inc: u32, cpu: CpuId)
    requires ExtendedMatch(mem, a, inc, cpu).Some?
    ensures var h := ReadHeader(mem, a);
            var len := ExtendedTableLength(h);
            len != 0 && len % 4 == 0 && Sum32(mem, ExtendedTableAddress(a, h), len) == 0
    ensures var t := ExtendedTableAddress(a, ReadHeader(mem, a));
            var r := FirstEntryMatch(mem, t, Read32(mem, t), inc, cpu, 0);
            r.Some? && ExtendedMatch(mem, a, inc, cpu).value == Read32(mem, EntryAddress(t, r.value) + 4)
  {
  }

  /** ExtendedMatch accepts only through an entry whose substituted record sums to zero. */
  lemma {:induction false} ExtendedMatchMeaning(mem: seq<byte>, a: nat, cpu: CpuId)
    requires ScanSize(ReadHeader(mem, a)) % 4 == 0
    requires ExtendedMatch(mem, a, InCompleteSum(mem, a, ScanSize(ReadHeader(mem, a))), cpu).Some?
    ensures var h := ReadHeader(mem, a);
            var len := ExtendedTableLength(h);
            len != 0 && len % 4 == 0 && Sum32(mem, ExtendedTableAddress(a, h), len) == 0
    ensures var h := ReadHeader(mem, a);
            var t := ExtendedTableAddress(a, h);
            exists i :: 0 <= i < Read32(mem, t) &&
              ExtendedEntryProves(mem, a, t, i, cpu, ExtendedMatch(mem, a, InCompleteSum(mem, a, ScanSize(h)), cpu).value)
  {
    var h := ReadHeader(mem, a);
    var size := ScanSize(h);
    var t := ExtendedTableAddress(a, h);
    var inc := InCompleteSum(mem, a, size);
    ExtendedMatchChecks(mem, a, inc, cpu);
    FirstEntryMatchIsFirst(mem, t, Read32(mem, t), inc, cpu, 0);
    var i := FirstEntryMatch(mem, t, Read32(mem, t), inc, cpu, 0).value;
    EntryProves(mem, a, t, i, cpu);
  }

  /** A matching entry, checked against the incomplete sum, proves the record for the processor. */
  lemma {:induction false} EntryProves(mem: seq<byte>, a: nat, t: nat, i: nat, cpu: CpuId)
    requires ScanSize(ReadHeader(mem, a)) % 4 == 0
    requires EntryMatches(mem, t, i, InCompleteSum(mem, a, ScanSize(ReadHeader(mem, a))), cpu)
    ensures ExtendedEntryProves(mem, a, t, i, cpu, Read32(mem, EntryAddress(t, i) + 4))
  {
    var e := EntryAddress(t, i);
    ResolvedSumIsSubstitutedSum(mem, a, ScanSize(ReadHeader(mem, a)), Read32(mem, e), Read32(mem, e + 4), Read32(mem, e + 8));
  }

  /**
   * Extended entry `i` of the table at `t` names the processor, carries
   * `flags`, and makes the record at `a` sum to zero when substituted.
   */
  predicate ExtendedEntryProves(mem: seq<byte>, a: nat, t: nat, i: nat, cpu: CpuId, flags: u32)
    requires ScanSize(ReadHeader(mem, a)) % 4 == 0
  {
    var e := EntryAddress(t, i);
    flags == Read32(mem, e + 4) && Read32(mem, e) == cpu.signature && BitSet(flags, cpu.platformId) &&
    SubstitutedSum(mem, a, ScanSize(ReadHeader(mem, a)), Read32(mem, e), flags, Read32(mem, e + 8)) == 0
  }

  /** An accepted record's flags always carry the processor's own platform bit. */
  lemma {:induction false} MatchedFlagsCoverPlatform(mem: seq<byte>, regionEnd: nat, a: nat, cpu: CpuId)
    requires IsRecord(mem, regionEnd, a) && MatchAt(mem, regionEnd, a, cpu).Some?
    ensures BitSet(MatchAt(mem, regionEnd, a, cpu).value, cpu.platformId)
  {
    if !BaseNames(ReadHeader(mem, a), cpu) {
      MatchAtExtended(mem, regionEnd, a, cpu);
    }
  }

  /** Record selection never depends on the header's HeaderVersion beyond it being 1: padding is never accepted. */
  lemma {:induction false} PaddingNeverRecord(mem: seq<byte>, regionEnd: nat, a: nat)
    requires ReadHeader(mem, a).headerVersion != 1
    ensures !IsRecord(mem, regionEnd, a) && Advance(mem, regionEnd, a) == SIZE_1KB
  {
  }

  // ------------------------------------------------------------------- walk

  /** The record positions one scan visits, or where it stops making progress. */
  datatype Walked = Ends(records: seq<nat>) | Stuck(records: seq<nat>, at: nat)

  /**
   * The walk of both scans from cursor `c` (a do-while: the body runs, then
   * the cursor is compared with the region end). It gets stuck at a record
   * whose advance is 0, where the C loop never leaves.
   */
  function Walk(mem: seq<byte>, regionEnd: nat, c: nat): Walked
    requires c < regionEnd
    decreases regionEnd - c
  {
    var next := c + Advance(mem, regionEnd, c);
    var here := if IsRecord(mem, regionEnd, c) then [c] else [];
    if next == c then Stuck(here, c)
    else if next < regionEnd then
      match Walk(mem, regionEnd, next)
      case Ends(rs) => Ends(here + rs)
      case Stuck(rs, at) => Stuck(here + rs, at)
    else Ends(here)
  }

  /** One step of the walk. */
  lemma {:induction false} WalkStep(mem: seq<byte>, regionEnd: nat, c: nat)
    requires c < regionEnd
    ensures var next := c + Advance(mem, regionEnd, c);
            var here := if IsRecord(mem, regionEnd, c) then [c] else [];
            (next == c ==> Walk(mem, regionEnd, c).Stuck?) &&
            (next != c && next < regionEnd ==>
               Walk(mem, regionEnd, c).Ends? == Walk(mem, regionEnd, next).Ends? &&
               Walk(mem, regionEnd, c).records == here + Walk(mem, regionEnd, next).records) &&
            (next != c && next >= regionEnd ==> Walk(mem, regionEnd, c) == Ends(here))
  {
  }

  /** Every visited position is a record inside the region, at or after the start. */
  lemma {:induction false} WalkRecords(mem: seq<byte>, regionEnd: nat, c: nat)
    requires c < regionEnd
    ensures forall i :: 0 <= i < |Walk(mem, regionEnd, c).records| ==>
              c <= Walk(mem, regionEnd, c).records[i] < regionEnd &&
              IsRecord(mem, regionEnd, Walk(mem, regionEnd, c).records[i])
    decreases regionEnd - c
  {
    var next := c + Advance(mem, regionEnd, c);
    if next != c && next < regionEnd {
      WalkRecords(mem, regionEnd, next);
      var here := if IsRecord(mem, regionEnd, c) then [c] else [];
      var rs' := Walk(mem, regionEnd, next).records;
      assert Walk(mem, regionEnd, c).records == here + rs';
    }
  }

  /** A region of padding only holds no record, and the walk over it ends. */
  lemma {:induction false} PaddingOnlyHasNoRecords(mem: seq<byte>, regionEnd: nat, c: nat)
    requires c < regionEnd
    requires forall k :: c <= k < regionEnd ==> ReadHeader(mem, k).headerVersion != 1
    ensures Walk(mem, regionEnd, c) == Ends([])
    decreases regionEnd - c
  {
    var next := c + SIZE_1KB;
    if next < regionEnd {
      PaddingOnlyHasNoRecords(mem, regionEnd, next);
    }
  }
}

/**
 * MicrocodeDetect (UefiCpuPkg/Library/MpInitLib/Microcode.c): scan the
 * published region for the newest record that names the calling processor,
 * trigger the update when it beats the loaded revision, and cache the BSP's
 * result for the APs.
 */
module MicrocodeDetect {
  import opened Bytes
  import opened MicrocodeFormat
  import opened MpData

  /** LatestRevision, MicrocodeData (0 is NULL) and ProcessorFlags during the scan. */
  datatype Best = Best(latest: u32, data: nat, flags: u32)

  const NoneFound: Best := Best(0, 0, 0)

  /** What the scan needs of one record: where it is, its revision, and the flags it matched under. */
  datatype Candidate = Candidate(address: nat, revision: u32, matched: Option<u32>)

  /** The candidate of the record at `a`, for the processor `cpu`. */
  function CandidateAt(mem: seq<byte>, regionEnd: nat, a: nat, cpu: CpuId): Candidate
    requires IsRecord(mem, regionEnd, a)
  {
    Candidate(a, ReadHeader(mem, a).updateRevision, MatchAt(mem, regionEnd, a, cpu))
  }

  /** The loop body on one record: it replaces the best so far when newer and accepted. */
  function Consider(c: Candidate, b: Best): Best
  {
    if c.revision > b.latest && c.matched.Some?
    then Best(c.revision, c.address + HEADER_SIZE, c.matched.value)
    else b
  }

  datatype ScanResult = Hangs | Done(best: Best)

  /** The scan loop from cursor `c` with `b` found so far; cursors that are not records change nothing. */
  function Scan(mem: seq<byte>, regionEnd: nat, cpu: CpuId, c: nat, b: Best): ScanResult
    requires c < regionEnd
    decreases regionEnd - c
  {
    var b' := if IsRecord(mem, regionEnd, c) then Consider(CandidateAt(mem, regionEnd, c, cpu), b) else b;
    var next := c + Advance(mem, regionEnd, c);
    if next == c then Hangs
    else if next < regionEnd then Scan(mem, regionEnd, cpu, next, b')
    else Done(b')
  }

  /** The candidates of the records a walk visits, in order. */
  function Candidates(mem: seq<byte>, regionEnd: nat, cpu: CpuId, rs: seq<nat>): (r: seq<Candidate>)
    requires forall i :: 0 <= i < |rs| ==> IsRecord(mem, regionEnd, rs[i])
    ensures |r| == |rs|
    ensures forall i :: 0 <= i < |rs| ==> r[i] == CandidateAt(mem, regionEnd, rs[i], cpu)
  {
    if rs == [] then []
    else [CandidateAt(mem, regionEnd, rs[0], cpu)] + Candidates(mem, regionEnd, cpu, rs[1..])
  }

  /** Considering candidates in order. */
  function Fold(cs: seq<Candidate>, b: Best): Best
  {
    if cs == [] then b else Fold(cs[1..], Consider(cs[0], b))
  }

  /** Every cursor a walk collects is a record. */
  predicate WalkRecordsOk(mem: seq<byte>, regionEnd: nat, c: nat)
    requires c < regionEnd
  {
    forall i :: 0 <= i < |Walk(mem, regionEnd, c).records| ==>
      IsRecord(mem, regionEnd, Walk(mem, regionEnd, c).records[i])
  }

  /** The scan from `c` agrees with the walk from `c`: it hangs exactly where the walk is stuck, else it is the fold. */
  predicate ScanAgrees(mem: seq<byte>, regionEnd: nat, cpu: CpuId, c: nat, b: Best)
    requires c < regionEnd
  {
    && WalkRecordsOk(mem, regionEnd, c)
    && Scan(mem, regionEnd, cpu, c, b) ==
       if Walk(mem, regionEnd, c).Stuck? then Hangs
       else Done(Fold(Candidates(mem, regionEnd, cpu, Walk(mem, regionEnd, c).records), b))
  }

  /** The scan is the walk's records considered in order; it hangs exactly where the walk is stuck. */
  lemma {:induction false} ScanIsFoldOfWalk(mem: seq<byte>, regionEnd: nat, cpu: CpuId, c: nat, b: Best)
    requires c < regionEnd
    ensures ScanAgrees(mem, regionEnd, cpu, c, b)
    decreases regionEnd - c
  {
    var next := c + Advance(mem, regionEnd, c);
    var b' := if IsRecord(mem, regionEnd, c) then Consider(CandidateAt(mem, regionEnd, c, cpu), b) else b;
    if next != c && next < regionEnd {
      ScanIsFoldOfWalk(mem, regionEnd, cpu, next, b');
      ScanAgreesStep(mem, regionEnd, cpu, c, b, next, b');
    } else {
      ScanAgreesLast(mem, regionEnd, cpu, c, b);
    }
  }

  /** A cursor whose walk stops there: stuck, or the next cursor is past the region. */
  lemma {:induction false} ScanAgreesLast(mem: seq<byte>, regionEnd: nat, cpu: CpuId, c: nat, b: Best)
    requires c < regionEnd
    requires var next := c + Advance(mem, regionEnd, c); next == c || next >= regionEnd
    ensures ScanAgrees(mem, regionEnd, cpu, c, b)
  {
    WalkRecords(mem, regionEnd, c);
    WalkStep(mem, regionEnd, c);
    var next := c + Advance(mem, regionEnd, c);
    var here := if IsRecord(mem, regionEnd, c) then [c] else [];
    if next != c {
      FoldHere(mem, regionEnd, cpu, c, [], b);
      assert here + [] == here;
    }
  }

  /** A cursor whose walk goes on: the scan from it agrees when the scan from the next cursor does. */
  lemma {:induction false} ScanAgreesStep(mem: seq<byte>, regionEnd: nat, cpu: CpuId, c: nat, b: Best, next: nat, b': Best)
    requires c < regionEnd && next == c + Advance(mem, regionEnd, c) && next != c && next < regionEnd
    requires b' == if IsRecord(mem, regionEnd, c) then Consider(CandidateAt(mem, regionEnd, c, cpu), b) else b
    requires ScanAgrees(mem, regionEnd, cpu, next, b')
    ensures ScanAgrees(mem, regionEnd, cpu, c, b)
  {
    WalkRecords(mem, regionEnd, c);
    WalkStep(mem, regionEnd, c);
    var rs := Walk(mem, regionEnd, next).records;
    FoldHere(mem, regionEnd, cpu, c, rs, b);
    assert Scan(mem, regionEnd, cpu, c, b) == Scan(mem, regionEnd, cpu, next, b');
  }

  /** Considering the cursor's own record, if it is one, before the records after it. */
  lemma {:induction false} FoldHere(mem: seq<byte>, regionEnd: nat, cpu: CpuId, c: nat, rs: seq<nat>, b: Best)
    requires forall i :: 0 <= i < |rs| ==> IsRecord(mem, regionEnd, rs[i])
    ensures var here := if IsRecord(mem, regionEnd, c) then [c] else [];
            var b' := if IsRecord(mem, regionEnd, c) then Consider(CandidateAt(mem, regionEnd, c, cpu), b) else b;
            && (forall i :: 0 <= i < |here + rs| ==> IsRecord(mem, regionEnd, (here + rs)[i]))
            && Fold(Candidates(mem, regionEnd, cpu, here + rs), b) == Fold(Candidates(mem, regionEnd, cpu, rs), b')
  {
    if IsRecord(mem, regionEnd, c) {
      CandidatesCons(mem, regionEnd, cpu, c, rs);
      FoldCons(CandidateAt(mem, regionEnd, c, cpu), Candidates(mem, regionEnd, cpu, rs), b);
    } else {
      assert [] + rs == rs;
    }
  }

  lemma {:induction false} FoldCons(x: Candidate, cs: seq<Candidate>, b: Best)
    ensures Fold([x] + cs, b) == Fold(cs, Consider(x, b))
  {
    assert ([x] + cs)[1..] == cs;
  }

  lemma {:induction false} CandidatesCons(mem: seq<byte>, regionEnd: nat, cpu: CpuId, a: nat, rs: seq<nat>)
    requires IsRecord(mem, regionEnd, a)
    requires forall i :: 0 <= i < |rs| ==> IsRecord(mem, regionEnd, rs[i])
    ensures forall i :: 0 <= i < |[a] + rs| ==> IsRecord(mem, regionEnd, ([a] + rs)[i])
    ensures Candidates(mem, regionEnd, cpu, [a] + rs) ==
            [CandidateAt(mem, regionEnd, a, cpu)] + Candidates(mem, regionEnd, cpu, rs)
  {
    assert ([a] + rs)[1..] == rs;
  }

  /** LatestRevision never decreases. */
  lemma {:induction false} FoldMonotone(cs: seq<Candidate>, b: Best)
    ensures Fold(cs, b).latest >= b.latest
  {
    if cs != [] {
      FoldMonotone(cs[1..], Consider(cs[0], b));
    }
  }

  /** No accepted record is newer than the final LatestRevision. */
  lemma {:induction false} FoldIsUpperBound(cs: seq<Candidate>, b: Best, i: nat)
    requires i < |cs| && cs[i].matched.Some?
    ensures cs[i].revision <= Fold(cs, b).latest
  {
    var b' := Consider(cs[0], b);
    if i == 0 {
      FoldMonotone(cs[1..], b');
    } else {
      assert cs[1..][i - 1] == cs[i];
      FoldIsUpperBound(cs[1..], b', i - 1);
    }
  }

  /**
   * The final result is either the starting one, or comes from the first
   * accepted candidate with the final (maximum) revision: MicrocodeData is
   * its address plus the header size and ProcessorFlags the flags it matched under.
   */
  lemma {:induction false} FoldWitness(cs: seq<Candidate>, b: Best)
    ensures var r := Fold(cs, b);
            r == b ||
            exists i :: 0 <= i < |cs| && SelectedAt(cs, i, r) && r.latest > b.latest
  {
    if cs != [] {
      var b' := Consider(cs[0], b);
      var tail := cs[1..];
      FoldWitness(tail, b');
      var r := Fold(cs, b);
      if r == b' {
        if b' != b {
          assert SelectedAt(cs, 0, r);
        }
      } else {
        var i :| 0 <= i < |tail| && SelectedAt(tail, i, r) && r.latest > b'.latest;
        assert cs[i + 1] == tail[i];
        FoldMonotone([cs[0]], b);
        forall j | 0 <= j < i + 1 && cs[j].matched.Some?
          ensures cs[j].revision < r.latest
        {
          if j > 0 {
            assert cs[j] == tail[j - 1];
          }
        }
        assert SelectedAt(cs, i + 1, r);
      }
    }
  }

  /** `r` comes from candidate `i`, which is the first accepted one with revision `r.latest`. */
  predicate SelectedAt(cs: seq<Candidate>, i: nat, r: Best)
    requires i < |cs|
  {
    cs[i].matched.Some? && r.latest == cs[i].revision &&
    r.data == cs[i].address + HEADER_SIZE && r.flags == cs[i].matched.value &&
    forall j :: 0 <= j < i && cs[j].matched.Some? ==> cs[j].revision < r.latest
  }

  /** The scan from the start of the region finds the newest accepted record, the first one when tied. */
  lemma {:induction false} ScanSelectsNewest(mem: seq<byte>, regionEnd: nat, cpu: CpuId, start: nat)
    requires start < regionEnd
    requires Scan(mem, regionEnd, cpu, start, NoneFound).Done?
    ensures WalkRecordsOk(mem, regionEnd, start)
    ensures var cs := Candidates(mem, regionEnd, cpu, Walk(mem, regionEnd, start).records);
            var b := Scan(mem, regionEnd, cpu, start, NoneFound).best;
            (forall i :: 0 <= i < |cs| && cs[i].matched.Some? ==> cs[i].revision <= b.latest) &&
            (b == NoneFound || exists i :: 0 <= i < |cs| && SelectedAt(cs, i, b) && b.latest > 0)
  {
    ScanIsFoldOfWalk(mem, regionEnd, cpu, start, NoneFound);
    var cs := Candidates(mem, regionEnd, cpu, Walk(mem, regionEnd, start).records);
    forall i | 0 <= i < |cs| && cs[i].matched.Some?
      ensures cs[i].revision <= Fold(cs, NoneFound).latest
    {
      FoldIsUpperBound(cs, NoneFound, i);
    }
    FoldWitness(cs, NoneFound);
  }

  /** What the BSP caches always covers its own platform: an identical AP hits the cache. */
  lemma {:induction false} ScanFlagsCoverPlatform(mem: seq<byte>, regionEnd: nat, cpu: CpuId, start: nat)
    requires start < regionEnd
    requires Scan(mem, regionEnd, cpu, start, NoneFound).Done?
    requires Scan(mem, regionEnd, cpu, start, NoneFound).best.latest != 0
    ensures BitSet(Scan(mem, regionEnd, cpu, start, NoneFound).best.flags, cpu.platformId)
  {
    ScanSelectsNewest(mem, regionEnd, cpu, start);
    var rs := Walk(mem, regionEnd, start).records;
    var cs := Candidates(mem, regionEnd, cpu, rs);
    var b := Scan(mem, regionEnd, cpu, start, NoneFound).best;
    var i :| 0 <= i < |cs| && SelectedAt(cs, i, b) && b.latest > 0;
    WalkRecords(mem, regionEnd, start);
    MatchedFlagsCoverPlatform(mem, regionEnd, rs[i], cpu);
  }

  // ------------------------------------------------------------- the method

  /** What the processor reports; the model's stand-ins for CPUID, MSRs and APIC topology. */
  datatype Processor = Processor(
    currentRevision: u32,      // GetCurrentMicrocodeSignature before the scan
    threadId: nat,             // thread index within its core
    cpu: CpuId,                // CPUID leaf 1 EAX and MSR IA32_PLATFORM_ID bits 52:50
    revisionAfterUpdate: u32)  // GetCurrentMicrocodeSignature after the trigger write

  /** The BSP's cached result in CPU_MP_DATA. */
  datatype BspCache = BspCache(signature: u32, flags: u32, dataAddress: nat, revision: u32)

  function CacheOf(mp: CpuMpData): BspCache
    reads mp
  {
    BspCache(mp.processorSignature, mp.processorFlags, mp.microcodeDataAddress, mp.microcodeRevision)
  }

  datatype Outcome = Skipped | Hung | Found(best: Best)

  /**
   * What MicrocodeDetect decides before its Done label: skip (no region, an
   * AP that already has an update, a non-first thread), reuse the BSP's
   * cached result for an AP with the same signature whose platform bit the
   * cached flags carry, or scan the region.
   */
  function DetectOutcome(mem: seq<byte>, address: nat, size: nat, isBsp: bool, cache: BspCache, p: Processor): Outcome
  {
    if size == 0 then Skipped
    else if p.currentRevision != 0 && !isBsp then Skipped
    else if p.threadId != 0 then Skipped
    else if !isBsp && cache.signature == p.cpu.signature && BitSet(cache.flags, p.cpu.platformId)
    then Found(Best(cache.revision, cache.dataAddress, 0))
    else Scanned(Scan(mem, address + size, p.cpu, address, NoneFound))
  }

  function Scanned(r: ScanResult): Outcome
  {
    if r.Hangs? then Hung else Found(r.best)
  }

  /**
   * Caching is transparent for identical processors: once the BSP's scan has
   * found an update and cached it, an AP with the same signature and platform
   * gets the same revision and address without scanning.
   */
  lemma {:induction false} ApReusesBspResult(mem: seq<byte>, address: nat, size: nat, cpu: CpuId, b: Best, ap: Processor)
    requires size > 0 && Scan(mem, address + size, cpu, address, NoneFound) == Done(b) && b.latest != 0
    requires ap.threadId == 0 && ap.currentRevision == 0 && ap.cpu == cpu
    ensures DetectOutcome(mem, address, size, false, BspCache(cpu.signature, b.flags, b.data, b.latest), ap)
            == Found(Best(b.latest, b.data, 0))
  {
    ScanFlagsCoverPlatform(mem, address + size, cpu, address);
  }

  /**
   * The extended signature table loop: entries are checked in order and
   * the first one whose CheckSum Part3 is zero and that names the processor
   * gives the flags.
   */
  method SearchExtendedTable(mem: seq<byte>, t: nat, count: nat, inc: u32, cpu: CpuId) returns (flags: Option<u32>)
    ensures flags.Some? <==> FirstEntryMatch(mem, t, count, inc, cpu, 0).Some?
    ensures flags.Some? ==> flags.value == Read32(mem, EntryAddress(t, FirstEntryMatch(mem, t, count, inc, cpu, 0).value) + 4)
  {
    var index := 0;
    var entry := t + EXT_HEADER_SIZE;
    while index < count
      invariant index <= count && entry == EntryAddress(t, index)
      invariant FirstEntryMatch(mem, t, count, inc, cpu, 0) == FirstEntryMatch(mem, t, count, inc, cpu, index)
    {
      var signature := Read32(mem, entry);
      var flag := Read32(mem, entry + 4);
      var checkSum := ResolvedSum(inc, signature, flag, Read32(mem, entry + 8));
      if checkSum == 0 {
        if signature == cpu.signature && BitSet(flag, cpu.platformId) {
          return Some(flag);
        }
      }
      entry := entry + EXT_ENTRY_SIZE;
      index := index + 1;
    }
    return None;
  }

  /**
   * The checks on one record (header version 1, sizes in range): it is the
   * correct microcode when it is newer than `latest` and accepted for `cpu`.
   */
  method CheckRecord(mem: seq<byte>, regionEnd: nat, entry: nat, cpu: CpuId, latest: u32)
    returns (correct: bool, flags: u32)
    requires IsRecord(mem, regionEnd, entry)
    ensures correct <==> ReadHeader(mem, entry).updateRevision > latest && MatchAt(mem, regionEnd, entry, cpu).Some?
    ensures correct ==> flags == MatchAt(mem, regionEnd, entry, cpu).value
  {
    var h := ReadHeader(mem, entry);
    var totalSize := ScanSize(h);
    var inComplete := Sum32(mem, entry, totalSize);
    inComplete := Sub32(inComplete, h.processorSignature);
    inComplete := Sub32(inComplete, h.processorFlags);
    inComplete := Sub32(inComplete, h.checksum);
    correct, flags := false, 0;
    if h.processorSignature == cpu.signature && h.updateRevision > latest && BitSet(h.processorFlags, cpu.platformId) {
      var checkSum := ResolvedSum(inComplete, h.processorSignature, h.processorFlags, h.checksum);
      if checkSum == 0 {
        correct, flags := true, h.processorFlags;
      }
    } else if h.dataSize != 0 && h.updateRevision > latest {
      var extendedLength := ExtendedTableLength(h);
      if extendedLength != 0 {
        var t := ExtendedTableAddress(entry, h);
        if extendedLength % 4 == 0 {
          var checkSum := Sum32(mem, t, extendedLength);
          if checkSum == 0 {
            var found := SearchExtendedTable(mem, t, Read32(mem, t), inComplete, cpu);
            if found.Some? {
              correct, flags := true, found.value;
            }
          }
        }
      }
    }
  }

  /**
   * One pass of the do-while body at `entry`: the size checks, the header
   * version test, the record checks and the cursor step.
   */
  method StepOnce(mem: seq<byte>, regionEnd: nat, entry: nat, cpu: CpuId, b: Best) returns (next: nat, b': Best)
    requires entry < regionEnd && regionEnd + U32 <= U64
    ensures next == entry + Advance(mem, regionEnd, entry)
    ensures b' == if IsRecord(mem, regionEnd, entry) then Consider(CandidateAt(mem, regionEnd, entry, cpu), b) else b
  {
    var h := ReadHeader(mem, entry);
    var totalSize := ScanSize(h);
    if entry > MAX_UINTN - totalSize || entry + totalSize > regionEnd || totalSize % 4 != 0 {
      return entry + SIZE_1KB, b;
    }
    if h.headerVersion != 1 {
      return entry + SIZE_1KB, b;
    }
    var correct, flags := CheckRecord(mem, regionEnd, entry, cpu, b.latest);
    b' := b;
    if correct {
      b' := b'.(flags := flags);
    }
    totalSize := if h.dataSize == 0 then LEGACY_TOTAL_SIZE else h.totalSize;
    if correct {
      b' := b'.(latest := h.updateRevision, data := entry + HEADER_SIZE);
    }
    next := entry + totalSize;
  }

  /** The do-while loop over the region [start, regionEnd), from LatestRevision 0 and MicrocodeData NULL. */
  method ScanRegion(mem: seq<byte>, start: nat, regionEnd: nat, cpu: CpuId) returns (r: ScanResult)
    requires start < regionEnd && regionEnd + U32 <= U64
    ensures r == Scan(mem, regionEnd, cpu, start, NoneFound)
  {
    var found := NoneFound;
    var entry := start;
    while true
      invariant start <= entry < regionEnd
      invariant Scan(mem, regionEnd, cpu, entry, found) == Scan(mem, regionEnd, cpu, start, NoneFound)
      decreases regionEnd - entry
    {
      var next, found' := StepOnce(mem, regionEnd, entry, cpu, found);
      if next == entry {
        return Hangs;
      }
      entry, found := next, found';
      if entry >= regionEnd { break; }
    }
    return Done(found);
  }

  /** Everything up to the Done label: which record, if any, the processor should load. */
  method Decide(mem: seq<byte>, address: nat, size: nat, isBspCallIn: bool, cache: BspCache, p: Processor)
    returns (o: Outcome)
    requires RegionFits(address, size)
    ensures o == DetectOutcome(mem, address, size, isBspCallIn, cache, p)
  {
    if size == 0 {
      return Skipped;
    }
    if p.currentRevision != 0 && !isBspCallIn {
      return Skipped;
    }
    if p.threadId != 0 {
      return Skipped;
    }
    var cpu := p.cpu;
    if !isBspCallIn && cache.signature == cpu.signature && BitSet(cache.flags, cpu.platformId) {
      return Found(Best(cache.revision, cache.dataAddress, 0));
    }
    var r := ScanRegion(mem, address, address + size, cpu);
    o := Scanned(r);
  }

  /**
   * From the Done label: trigger the update when the record found is newer
   * than the loaded revision, record its address for processor `n` when the
   * processor then reports that revision, and let the BSP cache what it found.
   */
  method Finish(mp: CpuMpData, n: nat, p: Processor, isBspCallIn: bool, found: Best) returns (trigger: Option<nat>)
    requires n < |mp.cpuData|
    modifies mp
    ensures mp.microcodePatchAddress == old(mp.microcodePatchAddress)
    ensures mp.microcodePatchRegionSize == old(mp.microcodePatchRegionSize)
    ensures mp.bspNumber == old(mp.bspNumber)
    ensures trigger == (if found.latest > p.currentRevision then Some(found.data) else None)
    ensures mp.cpuData == (if trigger.Some? && p.revisionAfterUpdate == found.latest
                           then old(mp.cpuData)[n := old(mp.cpuData)[n].(microcodeData := found.data)]
                           else old(mp.cpuData))
    ensures CacheOf(mp) == (if isBspCallIn && found.latest != 0
                            then BspCache(p.cpu.signature, found.flags, found.data, found.latest)
                            else old(CacheOf(mp)))
  {
    trigger := None;
    var latestRevision, microcodeData := found.latest, found.data;
    if latestRevision > p.currentRevision {
      trigger := Some(microcodeData);
      if p.revisionAfterUpdate == latestRevision {
        mp.cpuData := mp.cpuData[n := mp.cpuData[n].(microcodeData := microcodeData)];
      }
    }
    if isBspCallIn && latestRevision != 0 {
      mp.processorSignature := p.cpu.signature;
      mp.processorFlags := found.flags;
      mp.microcodeDataAddress := microcodeData;
      mp.microcodeRevision := latestRevision;
    }
  }

  /**
   * MicrocodeDetect for processor `n`. `trigger` is the address written to
   * MSR IA32_BIOS_UPDT_TRIG, and `hangs` reports a record with TotalSize 0,
   * on which the scan loop would never advance (the state is then left as it was).
   */
  method Detect(mp: CpuMpData, mem: seq<byte>, n: nat, p: Processor) returns (trigger: Option<nat>, hangs: bool)
    requires n < |mp.cpuData|
    requires RegionFits(mp.microcodePatchAddress, mp.microcodePatchRegionSize)
    modifies mp
    ensures mp.microcodePatchAddress == old(mp.microcodePatchAddress)
    ensures mp.microcodePatchRegionSize == old(mp.microcodePatchRegionSize)
    ensures mp.bspNumber == old(mp.bspNumber)
    ensures var o := DetectOutcome(mem, mp.microcodePatchAddress, mp.microcodePatchRegionSize,
                                   n == mp.bspNumber, old(CacheOf(mp)), p);
            && hangs == o.Hung?
            && trigger == (if o.Found? && o.best.latest > p.currentRevision then Some(o.best.data) else None)
            && mp.cpuData == (if trigger.Some? && p.revisionAfterUpdate == o.best.latest
                              then old(mp.cpuData)[n := old(mp.cpuData)[n].(microcodeData := o.best.data)]
                              else old(mp.cpuData))
            && CacheOf(mp) == (if o.Found? && n == mp.bspNumber && o.best.latest != 0
                               then BspCache(p.cpu.signature, o.best.flags, o.best.data, o.best.latest)
                               else old(CacheOf(mp)))
  {
    var o := Decide(mem, mp.microcodePatchAddress, mp.microcodePatchRegionSize, n == mp.bspNumber, CacheOf(mp), p);
    trigger, hangs := None, o.Hung?;
    if o.Found? {
      trigger := Finish(mp, n, p, n == mp.bspNumber, o.best);
    }
  }
}

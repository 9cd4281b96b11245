/**
 * The parts of CPU_MP_DATA and CPU_AP_DATA (MpLib.h) that the microcode code
 * reads and writes. MpLib.h is not part of this model; only these fields are.
 */
module MpData {
  import opened Bytes
  import opened MicrocodeFormat

  /** Per-processor data: identity collected at startup and the detected patch address. */
  datatype CpuApData = CpuApData(processorSignature: u32, platformId: PlatformId, microcodeData: nat)

  class CpuMpData {
    /** The published microcode region (address 0 is NULL). */
    var microcodePatchAddress: nat
    var microcodePatchRegionSize: nat
    var bspNumber: nat
    /** What the BSP found, cached for the APs. */
    var processorSignature: u32
    var processorFlags: u32
    var microcodeDataAddress: nat
    var microcodeRevision: u32
    var cpuData: seq<CpuApData>

    constructor (address: nat, size: nat, bsp: nat, cpus: seq<CpuApData>)
      ensures microcodePatchAddress == address && microcodePatchRegionSize == size
      ensures bspNumber == bsp && cpuData == cpus
      ensures processorSignature == 0 && processorFlags == 0
      ensures microcodeDataAddress == 0 && microcodeRevision == 0
    {
      microcodePatchAddress, microcodePatchRegionSize := address, size;
      bspNumber, cpuData := bsp, cpus;
      processorSignature, processorFlags, microcodeDataAddress, microcodeRevision := 0, 0, 0, 0;
    }
  }

  /**
   * The region lies at least 4 GiB below the top of the 64-bit address
   * space, so no cursor step (at most 2^32 - 1 bytes) wraps around.
   */
  predicate RegionFits(address: nat, size: nat)
  {
    address + size + U32 <= U64
  }
}

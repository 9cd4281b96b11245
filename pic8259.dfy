/**
 * The 8259 PIC services of the 8254 timer driver
 * (PcAtChipsetPkg/8254TimerDxe/8259Services.c): the module globals mIntMask
 * and mEdgeLevel, and the byte port writes each service issues, recorded in
 * order as a trace.
 */
module Pic8259 {
  import opened Bytes
  import opened EfiStatus

  // Port and vector constants of 8259Services.h.
  const LEGACY_8259_BASE_VECTOR_MASTER: byte := 0x68
  const LEGACY_8259_BASE_VECTOR_SLAVE: byte := 0x70
  const LEGACY_8259_CONTROL_REGISTER_MASTER: nat := 0x20
  const LEGACY_8259_MASK_REGISTER_MASTER: nat := 0x21
  const LEGACY_8259_CONTROL_REGISTER_SLAVE: nat := 0xA0
  const LEGACY_8259_MASK_REGISTER_SLAVE: nat := 0xA1
  const LEGACY_8259_EDGE_LEVEL_TRIGGERED_REGISTER_MASTER: nat := 0x4D0
  const LEGACY_8259_EDGE_LEVEL_TRIGGERED_REGISTER_SLAVE: nat := 0x4D1
  const LEGACY_8259_EOI: byte := 0x20
  const LEGACY_8259_IRQ0: nat := 0
  const LEGACY_8259_IRQ8: nat := 8
  const LEGACY_8259_IRQ15: nat := 15

  /** One IoWrite8 call. */
  datatype IoWrite = IoWrite(port: nat, value: byte)

  /** (UINT8) x and (UINT8) (x >> 8). */
  function LowByte(x: u16): byte
  {
    x % 0x100
  }

  function HighByte(x: u16): byte
  {
    x / 0x100
  }

  /** Legacy8259WriteMask: both bytes of the mask, then both bytes of the edge/level value. */
  function MaskWrites(mask: u16, edgeLevel: u16): seq<IoWrite>
  {
    [IoWrite(LEGACY_8259_MASK_REGISTER_MASTER, LowByte(mask)),
     IoWrite(LEGACY_8259_MASK_REGISTER_SLAVE, HighByte(mask)),
     IoWrite(LEGACY_8259_EDGE_LEVEL_TRIGGERED_REGISTER_MASTER, LowByte(edgeLevel)),
     IoWrite(LEGACY_8259_EDGE_LEVEL_TRIGGERED_REGISTER_SLAVE, HighByte(edgeLevel))]
  }

  /** The two 16-bit values a device reassembles from the bytes it received. */
  function Received(w: seq<IoWrite>): (u16, u16)
    requires |w| == 4
  {
    (w[1].value * 0x100 + w[0].value, w[3].value * 0x100 + w[2].value)
  }

  /** The four writes go to the mask and edge/level registers, master first, and carry both values whole. */
  lemma {:induction false} MaskWritesRoundTrip(mask: u16, edgeLevel: u16)
    ensures var w := MaskWrites(mask, edgeLevel);
            |w| == 4 &&
            w[0].port == 0x21 && w[1].port == 0xA1 && w[2].port == 0x4D0 && w[3].port == 0x4D1 &&
            Received(w) == (mask, edgeLevel)
  {
  }

  /** Legacy8259EndOfInterrupt: the slave EOI only for IRQ 8 and up, then always the master EOI. */
  function EoiWrites(irq: nat): seq<IoWrite>
  {
    (if irq >= LEGACY_8259_IRQ8 then [IoWrite(LEGACY_8259_CONTROL_REGISTER_SLAVE, LEGACY_8259_EOI)] else []) +
    [IoWrite(LEGACY_8259_CONTROL_REGISTER_MASTER, LEGACY_8259_EOI)]
  }

  /** The EOIs for IRQs 0 .. n-1, in order. */
  function EoisUpTo(n: nat): seq<IoWrite>
  {
    if n == 0 then [] else EoisUpTo(n - 1) + EoiWrites(n - 1)
  }

  /** How many writes of the trace go to `port`. */
  function WritesTo(w: seq<IoWrite>, port: nat): nat
  {
    if w == [] then 0 else WritesTo(w[..|w| - 1], port) + (if w[|w| - 1].port == port then 1 else 0)
  }

  lemma {:induction false} WritesToAppend(a: seq<IoWrite>, b: seq<IoWrite>, port: nat)
    ensures WritesTo(a + b, port) == WritesTo(a, port) + WritesTo(b, port)
    decreases |b|
  {
    if b == [] {
      assert a + b == a;
    } else {
      assert (a + b)[..|a + b| - 1] == a + b[..|b| - 1];
      WritesToAppend(a, b[..|b| - 1], port);
    }
  }

  /** Every EOI write is the EOI command to a control register. */
  lemma {:induction false} EoisAreEoiCommands(n: nat)
    ensures forall i :: 0 <= i < |EoisUpTo(n)| ==>
              EoisUpTo(n)[i].value == LEGACY_8259_EOI &&
              EoisUpTo(n)[i].port in {LEGACY_8259_CONTROL_REGISTER_MASTER, LEGACY_8259_CONTROL_REGISTER_SLAVE}
  {
    if n > 0 {
      EoisAreEoiCommands(n - 1);
    }
  }

  /** The EOIs for IRQs 0 .. n-1 reach the master n times and the slave once per IRQ from 8 on. */
  lemma {:induction false} EoiCounts(n: nat)
    ensures WritesTo(EoisUpTo(n), LEGACY_8259_CONTROL_REGISTER_MASTER) == n
    ensures WritesTo(EoisUpTo(n), LEGACY_8259_CONTROL_REGISTER_SLAVE) == if n > 8 then n - 8 else 0
    ensures |EoisUpTo(n)| == n + (if n > 8 then n - 8 else 0)
  {
    if n > 0 {
      EoiCounts(n - 1);
      var s := if n - 1 >= LEGACY_8259_IRQ8 then [IoWrite(LEGACY_8259_CONTROL_REGISTER_SLAVE, LEGACY_8259_EOI)] else [];
      var m := [IoWrite(LEGACY_8259_CONTROL_REGISTER_MASTER, LEGACY_8259_EOI)];
      WritesToAppend(EoisUpTo(n - 1), EoiWrites(n - 1), LEGACY_8259_CONTROL_REGISTER_MASTER);
      WritesToAppend(EoisUpTo(n - 1), EoiWrites(n - 1), LEGACY_8259_CONTROL_REGISTER_SLAVE);
      WritesToAppend(s, m, LEGACY_8259_CONTROL_REGISTER_MASTER);
      WritesToAppend(s, m, LEGACY_8259_CONTROL_REGISTER_SLAVE);
      assert m[..0] == [];
      if s != [] {
        assert s[..0] == [];
      }
    }
  }

  /** Initialize8259's loop over IRQs 0 .. 15: 16 master and 8 slave EOIs. */
  lemma {:induction false} InitialEois()
    ensures WritesTo(EoisUpTo(LEGACY_8259_IRQ15 + 1), LEGACY_8259_CONTROL_REGISTER_MASTER) == 16
    ensures WritesTo(EoisUpTo(LEGACY_8259_IRQ15 + 1), LEGACY_8259_CONTROL_REGISTER_SLAVE) == 8
    ensures |EoisUpTo(LEGACY_8259_IRQ15 + 1)| == 24
  {
    EoiCounts(16);
  }

  /** Bit 0 cleared, all other bits kept. */
  function ClearIrq0(m: u16): u16
  {
    m - m % 2
  }

  /** Bit 0 set, all other bits kept. */
  function SetIrq0(m: u16): u16
  {
    m - m % 2 + 1
  }

  /** ClearIrq0 and SetIrq0 decide bit 0 and keep every other bit. */
  lemma {:induction false} Irq0Bits(m: u16)
    ensures !BitSet(ClearIrq0(m), LEGACY_8259_IRQ0) && BitSet(SetIrq0(m), LEGACY_8259_IRQ0)
    ensures forall k: nat :: k != LEGACY_8259_IRQ0 ==> BitSet(ClearIrq0(m), k) == BitSet(m, k)
    ensures forall k: nat :: k != LEGACY_8259_IRQ0 ==> BitSet(SetIrq0(m), k) == BitSet(m, k)
  {
    forall k: nat | k != LEGACY_8259_IRQ0
      ensures BitSet(ClearIrq0(m), k) == BitSet(m, k) && BitSet(SetIrq0(m), k) == BitSet(m, k)
    {
      assert ClearIrq0(m) / 2 == m / 2 && SetIrq0(m) / 2 == m / 2;
    }
  }

  /** Enabling or disabling IRQ0 twice is the same as once. */
  lemma {:induction false} Irq0Idempotent(m: u16)
    ensures ClearIrq0(ClearIrq0(m)) == ClearIrq0(m) && SetIrq0(SetIrq0(m)) == SetIrq0(m)
  {
  }

  /** The driver's view of the PIC: the two globals and the writes issued so far. */
  class Legacy8259 {
    var intMask: u16
    var edgeLevel: u16
    var trace: seq<IoWrite>

    /** The globals' initial values: every IRQ masked, every IRQ edge-triggered. */
    constructor ()
      ensures intMask == 0xFFFF && edgeLevel == 0x0000 && trace == []
    {
      intMask := 0xFFFF;
      edgeLevel := 0x0000;
      trace := [];
    }

    method WriteMask(mask: u16, edge: u16)
      modifies this`trace
      ensures trace == old(trace) + MaskWrites(mask, edge)
    {
      trace := trace + [IoWrite(LEGACY_8259_MASK_REGISTER_MASTER, LowByte(mask))];
      trace := trace + [IoWrite(LEGACY_8259_MASK_REGISTER_SLAVE, HighByte(mask))];
      trace := trace + [IoWrite(LEGACY_8259_EDGE_LEVEL_TRIGGERED_REGISTER_MASTER, LowByte(edge))];
      trace := trace + [IoWrite(LEGACY_8259_EDGE_LEVEL_TRIGGERED_REGISTER_SLAVE, HighByte(edge))];
    }

    /** Legacy8259GetMask: the mask is stored only when the caller gave a place for it. */
    method GetMask(wanted: bool) returns (s: Status, intMaskOut: Option<u16>)
      ensures s == Success
      ensures intMaskOut == if wanted then Some(intMask) else None
    {
      s := Success;
      intMaskOut := if wanted then Some(intMask) else None;
    }

    /** Legacy8259GetIrq0Vector: IRQ0 is delivered at the master's base vector. */
    method GetIrq0Vector() returns (s: Status, vector: byte)
      ensures s == Success && vector == 0x68
    {
      vector := (LEGACY_8259_BASE_VECTOR_MASTER as int + LEGACY_8259_IRQ0) % 0x100;
      s := Success;
    }

    /** Legacy8259EnableIrq0: unmask IRQ0, make it edge-triggered, and write both values out. */
    method EnableIrq0() returns (s: Status)
      modifies this
      ensures intMask == ClearIrq0(old(intMask)) && edgeLevel == ClearIrq0(old(edgeLevel))
      ensures trace == old(trace) + MaskWrites(intMask, edgeLevel)
      ensures s == Success
    {
      intMask := ClearIrq0(intMask);
      edgeLevel := ClearIrq0(edgeLevel);
      WriteMask(intMask, edgeLevel);
      s := Success;
    }

    /** Legacy8259DisableIrq0: mask IRQ0, make it edge-triggered, and write both values out. */
    method DisableIrq0() returns (s: Status)
      modifies this
      ensures intMask == SetIrq0(old(intMask)) && edgeLevel == ClearIrq0(old(edgeLevel))
      ensures trace == old(trace) + MaskWrites(intMask, edgeLevel)
      ensures s == Success
    {
      intMask := SetIrq0(intMask);
      edgeLevel := ClearIrq0(edgeLevel);
      WriteMask(intMask, edgeLevel);
      s := Success;
    }

    method EndOfInterrupt(irq: byte)
      modifies this`trace
      ensures trace == old(trace) + EoiWrites(irq)
    {
      if irq >= LEGACY_8259_IRQ8 {
        trace := trace + [IoWrite(LEGACY_8259_CONTROL_REGISTER_SLAVE, LEGACY_8259_EOI)];
      }
      trace := trace + [IoWrite(LEGACY_8259_CONTROL_REGISTER_MASTER, LEGACY_8259_EOI)];
    }

    /** Initialize8259's loop: an EOI for each of IRQs 0 .. n-1, in order. */
    method EndOfInterrupts(n: nat)
      requires n <= 0x100
      modifies this`trace
      ensures trace == old(trace) + EoisUpTo(n)
    {
      for irq := 0 to n
        invariant trace == old(trace) + EoisUpTo(irq)
      {
        EndOfInterrupt(irq);
      }
    }

    /**
     * Initialize8259: EOIs for IRQs 0 .. 15, then Legacy8259SetBaseAddress
     * for the vector bases 0x68 and 0x70, whose writes `baseAddressWrites`
     * stand for, then the current globals, which it does not change.
     */
    method Initialize(baseAddressWrites: seq<IoWrite>) returns (s: Status)
      modifies this`trace
      ensures trace == old(trace) + EoisUpTo(LEGACY_8259_IRQ15 + 1) + baseAddressWrites + MaskWrites(intMask, edgeLevel)
      ensures s == Success
    {
      EndOfInterrupts(LEGACY_8259_IRQ15 + 1);
      trace := trace + baseAddressWrites;
      WriteMask(intMask, edgeLevel);
      s := Success;
    }
  }
}

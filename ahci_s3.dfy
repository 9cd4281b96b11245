/**
 * S3 port enumeration of the AHCI PEI driver
 * (MdeModulePkg/Bus/Ata/AhciPei/AhciPeiS3.c): the LockBox holds a
 * multi-instance device path listing the storage devices to bring up on S3
 * resume; a controller enumerates the ports of the SATA devices listed
 * under its own device path.
 *
 * The port bitmap is modelled as the set of its set bits.
 */
module AhciS3 {
  import opened Bytes
  import opened EfiStatus
  import opened DevicePath

  /** The driver handles ports 0 .. AHCI_MAX_PORTS - 1. */
  const AHCI_MAX_PORTS: nat := 32

  /** SATA_DEVICE_PATH fields after the node header. */
  const HBA_PORT_NUMBER_OFFSET: nat := 4
  const PORT_MULTIPLIER_PORT_NUMBER_OFFSET: nat := 6
  /** A device connected directly to the HBA has no port multiplier port. */
  const NO_PORT_MULTIPLIER: u16 := 0xFFFF

  /** The port a SATA node contributes: none beyond AHCI_MAX_PORTS or behind a port multiplier. */
  function SataPortNumber(hbaPort: u16, portMultiplierPort: u16): Option<nat>
  {
    if hbaPort >= AHCI_MAX_PORTS || portMultiplierPort != NO_PORT_MULTIPLIER then None else Some(hbaPort)
  }

  /**
   * The node walk of an instance copy from `q`: the first SATA messaging
   * node before an End node decides the port. None when no SATA node comes
   * first, and on a malformed walk.
   */
  function SataPortOf(c: seq<byte>, q: nat): (r: Option<nat>)
    ensures r.Some? ==> r.value < AHCI_MAX_PORTS
    decreases |c| - q
  {
    if q + NODE_HEADER_SIZE > |c| || IsEnd(c, q) then None
    else if NodeType(c, q) == MESSAGING_DEVICE_PATH && SubType(c, q) == MSG_SATA_DP then
      SataPortNumber(Read16(c, q + HBA_PORT_NUMBER_OFFSET), Read16(c, q + PORT_MULTIPLIER_PORT_NUMBER_OFFSET))
    else if NodeLength(c, q) < NODE_HEADER_SIZE then None
    else SataPortOf(c, NextNode(c, q))
  }

  /**
   * The port one instance copy of `size` bytes contributes: none unless it is
   * longer than the controller path and starts with all of it but its End node.
   */
  function Contribution(c: seq<byte>, size: nat, hc: seq<byte>, hcLength: nat): (r: Option<nat>)
    requires size <= |c|
    ensures r.Some? ==> r.value < AHCI_MAX_PORTS
  {
    if hcLength >= size || hcLength <= NODE_HEADER_SIZE then None
    else if c[..hcLength - NODE_HEADER_SIZE] == BytesAt(hc, 0, hcLength - NODE_HEADER_SIZE) then SataPortOf(c, 0)
    else None
  }

  /** No port from a node walk that finds nothing; otherwise the one port. */
  function AsSet(x: Option<nat>): set<nat>
  {
    if x.Some? then {x.value} else {}
  }

  /** Every instance from `p` on is well formed: the loop over the list stays in the buffer. */
  predicate InstancesOk(mem: seq<byte>, p: nat)
    decreases |mem| - p
  {
    && InstanceOk(mem, p)
    && (NextInstance(mem, p).Some? ==> p < NextInstance(mem, p).value && InstancesOk(mem, NextInstance(mem, p).value))
  }

  function InstanceSize(mem: seq<byte>, p: nat): nat
    requires InstanceOk(mem, p)
  {
    FindEnd(mem, p, false).value - p + NODE_HEADER_SIZE
  }

  /**
   * The ports enumerated from the instance at `p` on. `copyFails` holds the
   * instances whose copy AllocateCopyPool fails to make; the loop stops at
   * the first of them.
   */
  function Ports(mem: seq<byte>, p: nat, hc: seq<byte>, hcLength: nat, copyFails: set<nat>): set<nat>
    requires InstancesOk(mem, p)
    decreases |mem| - p
  {
    if p in copyFails then {}
    else
      AsSet(Contribution(InstanceCopy(mem, p), InstanceSize(mem, p), hc, hcLength)) +
      (if NextInstance(mem, p).Some? then Ports(mem, NextInstance(mem, p).value, hc, hcLength, copyFails) else {})
  }

  /** Every enumerated port is one the driver supports. */
  lemma {:induction false} PortsBelowMax(mem: seq<byte>, p: nat, hc: seq<byte>, hcLength: nat, copyFails: set<nat>)
    requires InstancesOk(mem, p)
    ensures forall k :: k in Ports(mem, p, hc, hcLength, copyFails) ==> k < AHCI_MAX_PORTS
    decreases |mem| - p
  {
    if p !in copyFails && NextInstance(mem, p).Some? {
      PortsBelowMax(mem, NextInstance(mem, p).value, hc, hcLength, copyFails);
    }
  }

  /** The inner loop: walk the copy's nodes up to its End node and read the first SATA node. */
  method FindSataPort(inst: array<byte>) returns (port: Option<nat>)
    requires FindEnd(inst[..], 0, false).Some?
    ensures port == SataPortOf(inst[..], 0)
  {
    var q := 0;
    while inst[q] != END_DEVICE_PATH_TYPE
      invariant FindEnd(inst[..], q, false).Some? && SataPortOf(inst[..], q) == SataPortOf(inst[..], 0)
      decreases inst.Length - q
    {
      if inst[q] == MESSAGING_DEVICE_PATH && inst[q + 1] == MSG_SATA_DP {
        var hbaPort := Read16(inst[..], q + HBA_PORT_NUMBER_OFFSET);
        var portMultiplierPort := Read16(inst[..], q + PORT_MULTIPLIER_PORT_NUMBER_OFFSET);
        if hbaPort >= AHCI_MAX_PORTS || portMultiplierPort != NO_PORT_MULTIPLIER {
          return None;
        }
        return Some(hbaPort);
      }
      q := NextNode(inst[..], q);
    }
    port := None;
  }

  /** The body of the loop over the instances, once the copy is taken. */
  method InstancePort(inst: array<byte>, size: nat, hc: seq<byte>, hcLength: nat) returns (port: Option<nat>)
    requires size <= inst.Length && FindEnd(inst[..], 0, false).Some?
    ensures port == Contribution(inst[..], size, hc, hcLength)
  {
    if hcLength >= size || hcLength <= NODE_HEADER_SIZE {
      return None;
    }
    var same := CompareMem(inst[..], 0, hc, 0, hcLength - NODE_HEADER_SIZE);
    BytesAtPrefix(inst[..], hcLength - NODE_HEADER_SIZE);
    if !same {
      return None;
    }
    port := FindSataPort(inst);
  }

  /**
   * One pass of the loop over the instances: GetNextDevicePathInstance, with
   * `stop` when its copy could not be made (the loop ends there), then the
   * instance's port if the controller path matches.
   */
  method VisitInstance(buf: array<byte>, p: nat, hc: seq<byte>, hcLength: nat, copyFails: set<nat>)
    returns (stop: bool, next: Option<nat>, port: Option<nat>)
    requires InstanceOk(buf[..], p)
    modifies buf
    ensures buf[..] == old(buf[..])
    ensures stop == (p in copyFails)
    ensures !stop ==> next == NextInstance(old(buf[..]), p) &&
                      port == Contribution(InstanceCopy(old(buf[..]), p), InstanceSize(old(buf[..]), p), hc, hcLength)
  {
    ghost var mem := buf[..];
    var inst, size;
    inst, next, size := GetNextDevicePathInstance(buf, Some(p), p !in copyFails);
    if inst == null {
      return true, next, None;
    }
    InstanceCopyOk(mem, p);
    stop := false;
    port := InstancePort(inst, size, hc, hcLength);
  }

  /**
   * AhciS3GetEumeratePorts for the controller path `hc` of `hcLength` bytes.
   * The LockBox is an input: `firstRestore` is what RestoreLockBox returns
   * into a one-byte buffer, `allocOk` whether AllocatePool succeeds,
   * `secondRestore` what the full RestoreLockBox returns and `devices` the
   * bytes it stores. The result is the port bitmap as the set of its bits.
   */
  method GetEnumeratePorts(hc: seq<byte>, hcLength: nat, firstRestore: Status, allocOk: bool,
                           secondRestore: Status, devices: seq<byte>, copyFails: set<nat>)
    returns (ports: set<nat>)
    requires firstRestore == BufferTooSmall && allocOk && !IsError(secondRestore) ==> InstancesOk(devices, 0)
    ensures ports == if firstRestore != BufferTooSmall || !allocOk || IsError(secondRestore) then {}
                     else Ports(devices, 0, hc, hcLength, copyFails)
  {
    ports := {};
    if firstRestore != BufferTooSmall || !allocOk || IsError(secondRestore) {
      return;
    }
    var buf := AllocateCopyPool(devices, 0, |devices|);
    assert buf[..] == devices;
    var cursor: Option<nat> := Some(0);
    while cursor.Some?
      invariant buf[..] == devices
      invariant cursor.Some? ==> InstancesOk(devices, cursor.value) && cursor.value < |devices|
      invariant Ports(devices, 0, hc, hcLength, copyFails) ==
                ports + (if cursor.Some? then Ports(devices, cursor.value, hc, hcLength, copyFails) else {})
      decreases if cursor.Some? then |devices| - cursor.value else 0
    {
      var stop, next, port := VisitInstance(buf, cursor.value, hc, hcLength, copyFails);
      if stop {
        break;
      }
      cursor := next;
      ports := ports + AsSet(port);
    }
  }

  /** A node the S3 walk passes over: neither an End node nor a SATA node. */
  predicate Passed(n: Node)
  {
    n.kind != END_DEVICE_PATH_TYPE && !(n.kind == MESSAGING_DEVICE_PATH && n.subType == MSG_SATA_DP)
  }

  /** An encoded SATA node reads back as its port numbers. */
  lemma {:induction false} SataNodeRead(c: seq<byte>, q: nat, port: u16, portMultiplierPort: u16)
    requires At(c, q, EncodeNode(SataNode(port, portMultiplierPort)))
    ensures SataPortOf(c, q) == SataPortNumber(port, portMultiplierPort)
  {
    var bs := EncodeNode(SataNode(port, portMultiplierPort));
    assert c[q] == bs[0] && c[q + 1] == bs[1];
    assert c[q + 4] == bs[4] && c[q + 5] == bs[5] && c[q + 6] == bs[6] && c[q + 7] == bs[7];
    assert Read16(c, q + 4) == port && Read16(c, q + 6) == portMultiplierPort;
  }

  /** On encoded nodes followed by a SATA node, the walk reads that node's port numbers. */
  lemma {:induction false} SataPortOfEncoding(c: seq<byte>, q: nat, ns: seq<Node>, port: u16, portMultiplierPort: u16)
    requires NodesOk(ns) && forall i :: 0 <= i < |ns| ==> Passed(ns[i])
    requires At(c, q, Encode(ns) + EncodeNode(SataNode(port, portMultiplierPort)))
    ensures SataPortOf(c, q) == SataPortNumber(port, portMultiplierPort)
    decreases |ns|
  {
    var sata := SataNode(port, portMultiplierPort);
    if ns == [] {
      assert Encode(ns) + EncodeNode(sata) == EncodeNode(sata);
      SataNodeRead(c, q, port, portMultiplierPort);
    } else {
      var n := ns[0];
      var rest := Encode(ns[1..]) + EncodeNode(sata);
      assert Encode(ns) + EncodeNode(sata) == EncodeNode(n) + rest;
      AtSplit(c, q, EncodeNode(n), rest);
      NodeRoundTrip(c, q, n);
      SataPortOfEncoding(c, q + NodeSize(n), ns[1..], port, portMultiplierPort);
    }
  }

  /**
   * The S3 walk finds what AhciBuildDevicePath built: an instance that is
   * the controller's path with a SATA node for `port` behind
   * `portMultiplierPort` makes that controller enumerate exactly the port,
   * unless the port is out of range or behind a port multiplier.
   */
  lemma {:induction false} EnumeratesBuiltPath(mem: seq<byte>, p: nat, hc: seq<byte>, ns: seq<Node>,
                                               port: u16, portMultiplierPort: u16, copyFails: set<nat>)
    requires ns != [] && NodesOk(ns) && forall i :: 0 <= i < |ns| ==> Passed(ns[i])
    requires At(hc, 0, Encode(ns) + EndTemplate())
    requires At(mem, p, BuiltPath(hc, |Encode(ns) + EndTemplate()|, port, portMultiplierPort))
    requires p !in copyFails
    ensures InstancesOk(mem, p)
    ensures Ports(mem, p, hc, |Encode(ns) + EndTemplate()|, copyFails) == AsSet(SataPortNumber(port, portMultiplierPort))
  {
    BuiltInstance(mem, p, hc, ns, port, portMultiplierPort);
    BuiltContribution(hc, ns, port, portMultiplierPort);
  }

  /** A built path stored in the list is one instance, copied whole. */
  lemma {:induction false} BuiltInstance(mem: seq<byte>, p: nat, hc: seq<byte>, ns: seq<Node>,
                                         port: u16, portMultiplierPort: u16)
    requires NodesOk(ns) && forall i :: 0 <= i < |ns| ==> Passed(ns[i])
    requires At(hc, 0, Encode(ns) + EndTemplate())
    requires At(mem, p, BuiltPath(hc, |Encode(ns) + EndTemplate()|, port, portMultiplierPort))
    ensures var built := BuiltPath(hc, |Encode(ns) + EndTemplate()|, port, portMultiplierPort);
            && InstancesOk(mem, p) && NextInstance(mem, p).None?
            && InstanceCopy(mem, p) == built && InstanceSize(mem, p) == |built|
  {
    var sata := SataNode(port, portMultiplierPort);
    BuiltIsEncoding(hc, ns, port, portMultiplierPort);
    assert forall i :: 0 <= i < |ns + [sata]| ==> (ns + [sata])[i].kind != END_DEVICE_PATH_TYPE by {
      forall i | 0 <= i < |ns + [sata]|
        ensures (ns + [sata])[i].kind != END_DEVICE_PATH_TYPE
      {
        if i < |ns| {
          assert (ns + [sata])[i] == ns[i];
        }
      }
    }
    InstanceOfEncoding(mem, p, ns + [sata], END_ENTIRE_DEVICE_PATH_SUBTYPE);
  }

  /** The controller compares equal to the start of a path built from it, and the walk reads the SATA node. */
  lemma {:induction false} BuiltContribution(hc: seq<byte>, ns: seq<Node>, port: u16, portMultiplierPort: u16)
    requires ns != [] && NodesOk(ns) && forall i :: 0 <= i < |ns| ==> Passed(ns[i])
    requires At(hc, 0, Encode(ns) + EndTemplate())
    ensures var hcLength := |Encode(ns) + EndTemplate()|;
            var built := BuiltPath(hc, hcLength, port, portMultiplierPort);
            Contribution(built, |built|, hc, hcLength) == SataPortNumber(port, portMultiplierPort)
  {
    assert |Encode(ns)| >= NODE_HEADER_SIZE by {
      assert Encode(ns) == EncodeNode(ns[0]) + Encode(ns[1..]);
    }
    BuiltPrefix(hc, |Encode(ns) + EndTemplate()|, port, portMultiplierPort);
    BuiltSataPort(hc, ns, port, portMultiplierPort);
  }

  /** A built path is 10 bytes longer than the controller path and starts with all of it but its End node. */
  lemma {:induction false} BuiltPrefix(hc: seq<byte>, hcLength: nat, port: u16, portMultiplierPort: u16)
    requires hcLength >= NODE_HEADER_SIZE
    ensures var built := BuiltPath(hc, hcLength, port, portMultiplierPort);
            |built| == hcLength + SATA_DEVICE_PATH_SIZE &&
            built[..hcLength - NODE_HEADER_SIZE] == BytesAt(hc, 0, hcLength - NODE_HEADER_SIZE)
  {
  }

  /** The walk of a built path passes the controller's nodes and reads the SATA node. */
  lemma {:induction false} BuiltSataPort(hc: seq<byte>, ns: seq<Node>, port: u16, portMultiplierPort: u16)
    requires NodesOk(ns) && forall i :: 0 <= i < |ns| ==> Passed(ns[i])
    requires At(hc, 0, Encode(ns) + EndTemplate())
    ensures SataPortOf(BuiltPath(hc, |Encode(ns) + EndTemplate()|, port, portMultiplierPort), 0) ==
            SataPortNumber(port, portMultiplierPort)
  {
    var hcLength := |Encode(ns) + EndTemplate()|;
    var sata := SataNode(port, portMultiplierPort);
    var built := BuiltPath(hc, hcLength, port, portMultiplierPort);
    AtSplit(hc, 0, Encode(ns), EndTemplate());
    assert BytesAt(hc, 0, hcLength - NODE_HEADER_SIZE) == Encode(ns);
    var pre := Encode(ns) + EncodeNode(sata);
    assert built == pre + EndTemplate();
    assert At(built, 0, pre) by {
      forall k | 0 <= k < |pre|
        ensures built[0 + k] == pre[k]
      {
      }
    }
    SataPortOfEncoding(built, 0, ns, port, portMultiplierPort);
  }
}

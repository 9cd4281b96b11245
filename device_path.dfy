/**
 * Device path walking and construction of the AHCI PEI driver
 * (MdeModulePkg/Bus/Ata/AhciPei/DevicePath.c), over the node format of
 * section 10.3.1 of the UEFI Specification: every node starts with a Type
 * byte, a SubType byte and a 16-bit little-endian Length that counts the
 * whole node; a path ends with an End node (Type 0x7F), whose SubType 0xFF
 * ends the entire path and 0x01 ends one instance of a multi-instance path.
 *
 * Paths live in a byte buffer and are addressed by offset, with None for a
 * NULL pointer. `FindEnd` is the node walk; `Node` and `Encode` give an
 * independent view of a path as a list of nodes, against which the walk is
 * proved.
 */
module DevicePath {
  import opened Bytes
  import opened EfiStatus

  const END_DEVICE_PATH_TYPE: byte := 0x7F
  const END_ENTIRE_DEVICE_PATH_SUBTYPE: byte := 0xFF
  const END_INSTANCE_DEVICE_PATH_SUBTYPE: byte := 0x01
  const MESSAGING_DEVICE_PATH: byte := 0x03
  const MSG_SATA_DP: byte := 0x12

  /** sizeof (EFI_DEVICE_PATH_PROTOCOL): the node header. */
  const NODE_HEADER_SIZE: nat := 4
  /** sizeof (SATA_DEVICE_PATH): header, HBAPortNumber, PortMultiplierPortNumber, Lun (section 10.3.4.6). */
  const SATA_DEVICE_PATH_SIZE: nat := 10

  // ------------------------------------------------------------ the byte view

  function NodeType(mem: seq<byte>, p: nat): byte { ByteAt(mem, p) }

  function SubType(mem: seq<byte>, p: nat): byte { ByteAt(mem, p + 1) }

  /** DevicePathNodeLength. */
  function NodeLength(mem: seq<byte>, p: nat): u16 { Read16(mem, p + 2) }

  /** NextDevicePathNode. */
  function NextNode(mem: seq<byte>, p: nat): nat { p + NodeLength(mem, p) }

  predicate IsEnd(mem: seq<byte>, p: nat)
  {
    NodeType(mem, p) == END_DEVICE_PATH_TYPE
  }

  predicate IsEndEntire(mem: seq<byte>, p: nat)
  {
    NodeType(mem, p) == END_DEVICE_PATH_TYPE && SubType(mem, p) == END_ENTIRE_DEVICE_PATH_SUBTYPE
  }

  /** Where a walk stops: at the End-Entire node when `entire`, else at any End node. */
  predicate StopsAt(mem: seq<byte>, p: nat, entire: bool)
  {
    if entire then IsEndEntire(mem, p) else IsEnd(mem, p)
  }

  /**
   * The node walk from `p`: the offset of the first node at which it stops.
   * None when a node header leaves the buffer or a node shorter than its
   * header comes first; on such a path the C loops read outside the buffer
   * or never finish (a Length of 0).
   */
  function FindEnd(mem: seq<byte>, p: nat, entire: bool): (r: Option<nat>)
    ensures r.Some? ==> p <= r.value && r.value + NODE_HEADER_SIZE <= |mem| && StopsAt(mem, r.value, entire)
    decreases |mem| - p
  {
    if p + NODE_HEADER_SIZE > |mem| then None
    else if StopsAt(mem, p, entire) then Some(p)
    else if NodeLength(mem, p) < NODE_HEADER_SIZE then None
    else FindEnd(mem, NextNode(mem, p), entire)
  }

  /** A path whose walk to the End-Entire node stays inside the buffer. */
  predicate PathOk(mem: seq<byte>, path: Option<nat>)
  {
    path.Some? ==> FindEnd(mem, path.value, true).Some?
  }

  /** An instance whose walk reaches an End node with a whole header inside the buffer. */
  predicate InstanceOk(mem: seq<byte>, p: nat)
  {
    && FindEnd(mem, p, false).Some?
    && var e := FindEnd(mem, p, false).value;
       NodeLength(mem, e) >= NODE_HEADER_SIZE && e + NodeLength(mem, e) <= |mem|
  }

  // ------------------------------------------------------------ the node view

  datatype Node = Node(kind: byte, subType: byte, data: seq<byte>)

  predicate NodeOk(n: Node)
  {
    NODE_HEADER_SIZE + |n.data| < U16
  }

  predicate NodesOk(ns: seq<Node>)
  {
    forall i :: 0 <= i < |ns| ==> NodeOk(ns[i])
  }

  function NodeSize(n: Node): nat
  {
    NODE_HEADER_SIZE + |n.data|
  }

  function EndNode(subType: byte): Node
  {
    Node(END_DEVICE_PATH_TYPE, subType, [])
  }

  function EncodeNode(n: Node): (r: seq<byte>)
    requires NodeOk(n)
    ensures |r| == NodeSize(n)
  {
    [n.kind, n.subType, NodeSize(n) % 0x100, NodeSize(n) / 0x100] + n.data
  }

  function Encode(ns: seq<Node>): seq<byte>
    requires NodesOk(ns)
  {
    if ns == [] then [] else EncodeNode(ns[0]) + Encode(ns[1..])
  }

  /** Encoding two node lists one after the other is encoding their concatenation. */
  lemma {:induction false} EncodeAppend(a: seq<Node>, b: seq<Node>)
    requires NodesOk(a) && NodesOk(b)
    ensures NodesOk(a + b) && Encode(a + b) == Encode(a) + Encode(b)
  {
    if a == [] {
      assert a + b == b;
    } else {
      assert (a + b)[0] == a[0] && (a + b)[1..] == a[1..] + b;
      EncodeAppend(a[1..], b);
    }
  }

  lemma {:induction false} EncodeOne(n: Node)
    requires NodeOk(n)
    ensures Encode([n]) == EncodeNode(n)
  {
    assert [n][1..] == [];
  }

  /** DevicePathNodeLength and NextDevicePathNode read back the header an encoded node was written with. */
  lemma {:induction false} NodeRoundTrip(mem: seq<byte>, p: nat, n: Node)
    requires NodeOk(n) && At(mem, p, EncodeNode(n))
    ensures NodeType(mem, p) == n.kind && SubType(mem, p) == n.subType
    ensures NodeLength(mem, p) == NodeSize(n) && NextNode(mem, p) == p + |EncodeNode(n)|
  {
    var bs := EncodeNode(n);
    assert mem[p] == bs[0] && mem[p + 1] == bs[1] && mem[p + 2] == bs[2] && mem[p + 3] == bs[3];
  }

  /** How a walk treats a node: it stops there when `entire` and it is End-Entire, or when not and it is any End node. */
  predicate Stops(n: Node, entire: bool)
  {
    n.kind == END_DEVICE_PATH_TYPE && (!entire || n.subType == END_ENTIRE_DEVICE_PATH_SUBTYPE)
  }

  /** On an encoded path the walk stops exactly at the first node where it should: right after `ns`. */
  lemma {:induction false} FindEndOfEncoding(mem: seq<byte>, p: nat, ns: seq<Node>, e: Node, entire: bool)
    requires NodesOk(ns) && NodeOk(e) && Stops(e, entire)
    requires forall i :: 0 <= i < |ns| ==> !Stops(ns[i], entire)
    requires At(mem, p, Encode(ns) + EncodeNode(e))
    ensures FindEnd(mem, p, entire) == Some(p + |Encode(ns)|)
    decreases |ns|
  {
    if ns == [] {
      AtSplit(mem, p, Encode(ns), EncodeNode(e));
      NodeRoundTrip(mem, p, e);
    } else {
      var n := ns[0];
      var rest := Encode(ns[1..]) + EncodeNode(e);
      assert Encode(ns) + EncodeNode(e) == EncodeNode(n) + rest;
      AtSplit(mem, p, EncodeNode(n), rest);
      NodeRoundTrip(mem, p, n);
      FindEndOfEncoding(mem, p + NodeSize(n), ns[1..], e, entire);
    }
  }

  // ------------------------------------------------------------ GetDevicePathSize

  /**
   * GetDevicePathSize: 0 for NULL, else the offset of the End-Entire node
   * plus that node's own Length.
   */
  method GetDevicePathSize(mem: seq<byte>, path: Option<nat>) returns (size: nat)
    requires PathOk(mem, path)
    ensures path.None? ==> size == 0
    ensures path.Some? ==> var e := FindEnd(mem, path.value, true).value;
                           size == e - path.value + NodeLength(mem, e)
  {
    if path.None? {
      return 0;
    }
    var start := path.value;
    var p := start;
    while !(NodeType(mem, p) == END_DEVICE_PATH_TYPE && SubType(mem, p) == END_ENTIRE_DEVICE_PATH_SUBTYPE)
      invariant start <= p && FindEnd(mem, p, true) == FindEnd(mem, start, true)
      decreases |mem| - p
    {
      p := NextNode(mem, p);
    }
    size := (p - start) + NodeLength(mem, p);
  }

  /** The size of an encoded single-instance path is its length in bytes. */
  lemma {:induction false} EncodedPathSize(mem: seq<byte>, p: nat, ns: seq<Node>, e: Node)
    requires NodesOk(ns) && NodeOk(e) && Stops(e, true)
    requires forall i :: 0 <= i < |ns| ==> !Stops(ns[i], true)
    requires At(mem, p, Encode(ns) + EncodeNode(e))
    ensures PathOk(mem, Some(p))
    ensures var end := FindEnd(mem, p, true).value;
            end - p + NodeLength(mem, end) == |Encode(ns) + EncodeNode(e)|
  {
    FindEndOfEncoding(mem, p, ns, e, true);
    AtSplit(mem, p, Encode(ns), EncodeNode(e));
    NodeRoundTrip(mem, p + |Encode(ns)|, e);
  }

  // ------------------------------------------------------------ GetNextDevicePathInstance

  /**
   * The copy GetNextDevicePathInstance returns for the instance at `p`: the
   * nodes up to and including its End node, that node's SubType turned into
   * End-Entire.
   */
  function InstanceCopy(mem: seq<byte>, p: nat): (r: seq<byte>)
    requires InstanceOk(mem, p)
  {
    var e := FindEnd(mem, p, false).value;
    mem[p .. e + NodeLength(mem, e)][e - p + 1 := END_ENTIRE_DEVICE_PATH_SUBTYPE]
  }

  /** Where the cursor goes: NULL after the End-Entire node, else the node after the End-Instance node. */
  function NextInstance(mem: seq<byte>, p: nat): Option<nat>
    requires InstanceOk(mem, p)
  {
    var e := FindEnd(mem, p, false).value;
    if SubType(mem, e) == END_ENTIRE_DEVICE_PATH_SUBTYPE then None else Some(NextNode(mem, e))
  }

  /** Marking the first End node of an instance End-Entire makes it the end of the whole walk. */
  lemma {:induction false} MarkedEnd(mem: seq<byte>, p: nat, e: nat)
    requires FindEnd(mem, p, false) == Some(e)
    ensures e + 1 < |mem| && FindEnd(mem[e + 1 := END_ENTIRE_DEVICE_PATH_SUBTYPE], p, true) == Some(e)
    decreases |mem| - p
  {
    var m := mem[e + 1 := END_ENTIRE_DEVICE_PATH_SUBTYPE];
    if p != e {
      assert ByteAt(m, p) == ByteAt(mem, p) && ByteAt(m, p + 2) == ByteAt(mem, p + 2) && ByteAt(m, p + 3) == ByteAt(mem, p + 3);
      MarkedEnd(mem, NextNode(mem, p), e);
    }
  }

  /** The walk depends only on the bytes it reads: a copy of them elsewhere walks the same way. */
  lemma {:induction false} FindEndShift(mem: seq<byte>, p: nat, m: seq<byte>, q: nat)
    requires FindEnd(mem, p, false).Some?
    requires var e := FindEnd(mem, p, false).value;
             q + (e - p) + NODE_HEADER_SIZE <= |m| &&
             forall j :: q <= j <= q + (e - p) + 3 && j != q + (e - p) + 1 ==> ByteAt(m, j) == ByteAt(mem, p + (j - q))
    ensures FindEnd(m, q, false) == Some(q + (FindEnd(mem, p, false).value - p))
    decreases |mem| - p
  {
    var e := FindEnd(mem, p, false).value;
    assert ByteAt(m, q) == ByteAt(mem, p + (q - q));
    if p != e {
      assert ByteAt(m, q + 2) == ByteAt(mem, p + (q + 2 - q)) && ByteAt(m, q + 3) == ByteAt(mem, p + (q + 3 - q));
      FindEndShift(mem, NextNode(mem, p), m, q + NodeLength(mem, p));
    }
  }

  /** The copy holds the instance's bytes, except the End node's SubType, which is End-Entire. */
  lemma {:induction false} InstanceCopyBytes(mem: seq<byte>, p: nat)
    requires InstanceOk(mem, p)
    ensures var e := FindEnd(mem, p, false).value;
            var c := InstanceCopy(mem, p);
            |c| == e - p + NodeLength(mem, e) &&
            forall j :: 0 <= j < |c| ==> c[j] == if j == e - p + 1 then END_ENTIRE_DEVICE_PATH_SUBTYPE else mem[p + j]
  {
  }

  /** The copy is the marked buffer's bytes of the instance. */
  lemma {:induction false} MarkedCopy(mem: seq<byte>, p: nat)
    requires InstanceOk(mem, p)
    ensures var e := FindEnd(mem, p, false).value;
            var m := mem[e + 1 := END_ENTIRE_DEVICE_PATH_SUBTYPE];
            e + NodeLength(mem, e) <= |m| && InstanceCopy(mem, p) == m[p .. e + NodeLength(mem, e)]
  {
    var e := FindEnd(mem, p, false).value;
    var m := mem[e + 1 := END_ENTIRE_DEVICE_PATH_SUBTYPE];
    var c := InstanceCopy(mem, p);
    InstanceCopyBytes(mem, p);
    forall j | 0 <= j < |c|
      ensures c[j] == m[p + j]
    {
    }
  }

  /** The copy is itself a well-formed path: its walk stops at its last node, now End-Entire. */
  lemma {:induction false} InstanceCopyOk(mem: seq<byte>, p: nat)
    requires InstanceOk(mem, p)
    ensures var e := FindEnd(mem, p, false).value;
            var c := InstanceCopy(mem, p);
            FindEnd(c, 0, false) == Some(e - p) && NodeLength(c, e - p) == NodeLength(mem, e) &&
            |c| == e - p + NodeLength(mem, e) && IsEndEntire(c, e - p)
  {
    InstanceCopyBytes(mem, p);
    CopyWalk(mem, p, InstanceCopy(mem, p));
  }

  /** Any bytes that agree with the instance except for the End node's SubType, made End-Entire, walk like it. */
  lemma {:induction false} CopyWalk(mem: seq<byte>, p: nat, c: seq<byte>)
    requires InstanceOk(mem, p)
    requires var e := FindEnd(mem, p, false).value;
             |c| == e - p + NodeLength(mem, e) &&
             forall j :: 0 <= j < |c| ==> c[j] == if j == e - p + 1 then END_ENTIRE_DEVICE_PATH_SUBTYPE else mem[p + j]
    ensures var e := FindEnd(mem, p, false).value;
            FindEnd(c, 0, false) == Some(e - p) && NodeLength(c, e - p) == NodeLength(mem, e) && IsEndEntire(c, e - p)
  {
    var e := FindEnd(mem, p, false).value;
    assert ByteAt(c, e - p + 2) == ByteAt(mem, e + 2) && ByteAt(c, e - p + 3) == ByteAt(mem, e + 3);
    assert ByteAt(c, e - p) == ByteAt(mem, e) && ByteAt(c, e - p + 1) == END_ENTIRE_DEVICE_PATH_SUBTYPE;
    forall j | 0 <= j <= e - p + 3 && j != e - p + 1
      ensures ByteAt(c, j) == ByteAt(mem, p + (j - 0))
    {
    }
    FindEndShift(mem, p, c, 0);
  }

  /**
   * The copy step of GetNextDevicePathInstance: the End node at `e` is
   * marked End-Entire, GetDevicePathSize measures the instance, the
   * AllocateCopyPool result is taken from the marked buffer (`allocOk` says
   * whether it succeeds), and the SubType is put back.
   */
  method CopyInstance(buf: array<byte>, start: nat, e: nat, allocOk: bool) returns (inst: array?<byte>)
    requires InstanceOk(buf[..], start) && FindEnd(buf[..], start, false) == Some(e)
    modifies buf
    ensures buf[..] == old(buf[..])
    ensures if allocOk then inst != null && fresh(inst) && inst[..] == InstanceCopy(old(buf[..]), start)
            else inst == null
  {
    ghost var mem := buf[..];
    var temp := buf[e + 1];
    MarkedEnd(mem, start, e);
    buf[e + 1] := END_ENTIRE_DEVICE_PATH_SUBTYPE;
    var marked := buf[..];
    assert marked == mem[e + 1 := END_ENTIRE_DEVICE_PATH_SUBTYPE];
    assert NodeLength(marked, e) == NodeLength(mem, e);
    var pathSize := GetDevicePathSize(marked, Some(start));
    if pathSize == 0 || !allocOk {
      inst := null;
    } else {
      MarkedCopy(mem, start);
      inst := AllocateCopyPool(marked, start, pathSize);
    }
    buf[e + 1] := temp;
    assert buf[..] == marked[e + 1 := temp];
  }

  /**
   * GetNextDevicePathInstance on the buffer `buf`, the cursor `cursor`:
   * `allocOk` says whether AllocateCopyPool succeeds. The End node's SubType
   * is overwritten only while the copy is taken, so the buffer ends as it
   * began.
   */
  method GetNextDevicePathInstance(buf: array<byte>, cursor: Option<nat>, allocOk: bool)
    returns (inst: array?<byte>, next: Option<nat>, size: nat)
    requires cursor.Some? ==> InstanceOk(buf[..], cursor.value)
    modifies buf
    ensures buf[..] == old(buf[..])
    ensures cursor.None? ==> inst == null && next.None? && size == 0
    ensures cursor.Some? ==>
              var p := cursor.value;
              && size == FindEnd(buf[..], p, false).value - p + NODE_HEADER_SIZE
              && next == NextInstance(buf[..], p)
              && (if allocOk then inst != null && fresh(inst) && inst[..] == InstanceCopy(buf[..], p)
                  else inst == null)
  {
    if cursor.None? {
      return null, None, 0;
    }
    ghost var mem := buf[..];
    var start := cursor.value;
    var devPath := start;
    while buf[devPath] != END_DEVICE_PATH_TYPE
      invariant start <= devPath && FindEnd(buf[..], devPath, false) == FindEnd(buf[..], start, false)
      decreases buf.Length - devPath
    {
      devPath := NextNode(buf[..], devPath);
    }
    size := (devPath - start) + NODE_HEADER_SIZE;
    inst := CopyInstance(buf, start, devPath, allocOk);
    var temp := buf[devPath + 1];
    if temp == END_ENTIRE_DEVICE_PATH_SUBTYPE {
      next := None;
    } else {
      next := Some(NextNode(buf[..], devPath));
    }
  }

  /**
   * On an encoded instance the copy is the instance's nodes closed by an
   * End-Entire node, and the cursor moves past the End node unless it was
   * End-Entire.
   */
  lemma {:induction false} InstanceOfEncoding(mem: seq<byte>, p: nat, ns: seq<Node>, endSub: byte)
    requires NodesOk(ns) && forall i :: 0 <= i < |ns| ==> ns[i].kind != END_DEVICE_PATH_TYPE
    requires At(mem, p, Encode(ns) + EncodeNode(EndNode(endSub)))
    ensures InstanceOk(mem, p)
    ensures FindEnd(mem, p, false).value - p + NODE_HEADER_SIZE == |Encode(ns) + EncodeNode(EndNode(endSub))|
    ensures InstanceCopy(mem, p) == Encode(ns) + EncodeNode(EndNode(END_ENTIRE_DEVICE_PATH_SUBTYPE))
    ensures NextInstance(mem, p) ==
            if endSub == END_ENTIRE_DEVICE_PATH_SUBTYPE then None
            else Some(p + |Encode(ns) + EncodeNode(EndNode(endSub))|)
  {
    EncodedInstanceEnd(mem, p, ns, endSub);
    InstanceCopyBytes(mem, p);
    var old_ := EncodeNode(EndNode(endSub));
    CopyMarksEnd(mem, p, Encode(ns), old_, InstanceCopy(mem, p), END_ENTIRE_DEVICE_PATH_SUBTYPE);
    assert old_[1 := END_ENTIRE_DEVICE_PATH_SUBTYPE] == EncodeNode(EndNode(END_ENTIRE_DEVICE_PATH_SUBTYPE));
  }

  /** A copy of `a + x` laid at `p` whose byte `|a| + 1` is replaced by `v` is `a` followed by `x` so marked. */
  lemma {:induction false} CopyMarksEnd(mem: seq<byte>, p: nat, a: seq<byte>, x: seq<byte>, c: seq<byte>, v: byte)
    requires At(mem, p, a + x) && |x| > 1 && |c| == |a| + |x|
    requires forall j :: 0 <= j < |c| ==> c[j] == if j == |a| + 1 then v else mem[p + j]
    ensures c == a + x[1 := v]
  {
    var want := a + x[1 := v];
    forall k | 0 <= k < |c|
      ensures c[k] == want[k]
    {
      if k < |a| {
        assert want[k] == a[k] == (a + x)[k];
      } else if k != |a| + 1 {
        assert want[k] == x[k - |a|] == (a + x)[k];
      }
    }
  }

  /** Where the walk of an encoded instance stops, and what the End node there holds. */
  lemma {:induction false} EncodedInstanceEnd(mem: seq<byte>, p: nat, ns: seq<Node>, endSub: byte)
    requires NodesOk(ns) && forall i :: 0 <= i < |ns| ==> ns[i].kind != END_DEVICE_PATH_TYPE
    requires At(mem, p, Encode(ns) + EncodeNode(EndNode(endSub)))
    ensures FindEnd(mem, p, false) == Some(p + |Encode(ns)|)
    ensures At(mem, p, Encode(ns)) && At(mem, p + |Encode(ns)|, EncodeNode(EndNode(endSub)))
    ensures NodeLength(mem, p + |Encode(ns)|) == NODE_HEADER_SIZE && SubType(mem, p + |Encode(ns)|) == endSub
  {
    var e := EndNode(endSub);
    FindEndOfEncoding(mem, p, ns, e, false);
    AtSplit(mem, p, Encode(ns), EncodeNode(e));
    NodeRoundTrip(mem, p + |Encode(ns)|, e);
  }

  // ------------------------------------------------------------ AhciCheckHcDevicePath

  /**
   * AhciCheckHcDevicePath: INVALID_PARAMETER for NULL, and unless the offset
   * of the End-Entire node plus a node header is the given length.
   */
  method AhciCheckHcDevicePath(mem: seq<byte>, path: Option<nat>, length: nat) returns (s: Status)
    requires PathOk(mem, path)
    ensures s == Success || s == InvalidParameter
    ensures s == Success <==>
              path.Some? && FindEnd(mem, path.value, true).value - path.value + NODE_HEADER_SIZE == length
  {
    if path.None? {
      return InvalidParameter;
    }
    var start := path.value;
    var p := start;
    while !(NodeType(mem, p) == END_DEVICE_PATH_TYPE && SubType(mem, p) == END_ENTIRE_DEVICE_PATH_SUBTYPE)
      invariant start <= p && FindEnd(mem, p, true) == FindEnd(mem, start, true)
      decreases |mem| - p
    {
      p := NextNode(mem, p);
    }
    var size := (p - start) + NODE_HEADER_SIZE;
    if size != length {
      return InvalidParameter;
    }
    return Success;
  }

  // ------------------------------------------------------------ AhciBuildDevicePath

  function U16Bytes(x: u16): seq<byte>
  {
    [x % 0x100, x / 0x100]
  }

  /** The SATA messaging node for a port behind a port multiplier port, logical unit 0. */
  function SataNode(port: u16, portMultiplierPort: u16): Node
  {
    Node(MESSAGING_DEVICE_PATH, MSG_SATA_DP, U16Bytes(port) + U16Bytes(portMultiplierPort) + [0, 0])
  }

  /** mAhciSataDevicePathNodeTemplate: port 0, no port multiplier (0xFFFF), Lun 0. */
  function SataTemplate(): seq<byte>
  {
    EncodeNode(SataNode(0, 0xFFFF))
  }

  /** mAhciEndDevicePathNodeTemplate. */
  function EndTemplate(): seq<byte>
  {
    EncodeNode(EndNode(END_ENTIRE_DEVICE_PATH_SUBTYPE))
  }

  /** The path AhciBuildDevicePath writes: the controller path without its End node, the SATA node, an End node. */
  function BuiltPath(hc: seq<byte>, hcLength: nat, port: u16, portMultiplierPort: u16): seq<byte>
    requires hcLength >= NODE_HEADER_SIZE
  {
    BytesAt(hc, 0, hcLength - NODE_HEADER_SIZE) + EncodeNode(SataNode(port, portMultiplierPort)) + EndTemplate()
  }

  /** The SATA node is written from its template, then its port numbers are filled in. */
  method WriteSataNode(path: array<byte>, w: nat, port: u16, portMultiplierPort: u16)
    requires w + SATA_DEVICE_PATH_SIZE <= path.Length
    modifies path
    ensures forall k :: 0 <= k < path.Length ==>
              path[k] == if w <= k < w + SATA_DEVICE_PATH_SIZE then EncodeNode(SataNode(port, portMultiplierPort))[k - w]
                         else old(path[k])
  {
    CopyMem(path, w, SataTemplate(), 0, SATA_DEVICE_PATH_SIZE);
    path[w + 4] := port % 0x100;
    path[w + 5] := port / 0x100;
    path[w + 6] := portMultiplierPort % 0x100;
    path[w + 7] := portMultiplierPort / 0x100;
  }

  /**
   * AhciBuildDevicePath for the controller path `hc` of `hcLength` bytes
   * (checked by AhciCheckHcDevicePath when the controller was found).
   * `outputsGiven` is false when either output pointer is NULL, and
   * `allocOk` says whether AllocatePool succeeds.
   */
  method AhciBuildDevicePath(hc: seq<byte>, hcLength: nat, port: u16, portMultiplierPort: u16,
                             outputsGiven: bool, allocOk: bool)
    returns (s: Status, length: nat, path: array?<byte>)
    requires hcLength >= NODE_HEADER_SIZE
    ensures !outputsGiven ==> s == InvalidParameter && path == null
    ensures outputsGiven && !allocOk ==> s == OutOfResources && length == 0 && path == null
    ensures outputsGiven && allocOk ==>
              s == Success && length == hcLength + SATA_DEVICE_PATH_SIZE && path != null && fresh(path) &&
              path[..] == BuiltPath(hc, hcLength, port, portMultiplierPort)
  {
    if !outputsGiven {
      return InvalidParameter, 0, null;
    }
    length := hcLength + SATA_DEVICE_PATH_SIZE;
    if !allocOk {
      return OutOfResources, 0, null;
    }
    path := new byte[length];
    ghost var h := BytesAt(hc, 0, hcLength - NODE_HEADER_SIZE);
    ghost var sn := EncodeNode(SataNode(port, portMultiplierPort));
    ghost var b := BuiltPath(hc, hcLength, port, portMultiplierPort);
    var walker := 0;
    CopyMem(path, walker, hc, 0, hcLength - NODE_HEADER_SIZE);
    walker := walker + (hcLength - NODE_HEADER_SIZE);
    WriteSataNode(path, walker, port, portMultiplierPort);
    walker := walker + SATA_DEVICE_PATH_SIZE;
    CopyMem(path, walker, EndTemplate(), 0, NODE_HEADER_SIZE);
    forall k | 0 <= k < length
      ensures path[k] == b[k]
    {
      if k < hcLength - NODE_HEADER_SIZE {
        assert b[k] == h[k];
      } else if k < hcLength + SATA_DEVICE_PATH_SIZE - NODE_HEADER_SIZE {
        assert b[k] == sn[k - (hcLength - NODE_HEADER_SIZE)];
      } else {
        assert b[k] == EndTemplate()[k - (hcLength + SATA_DEVICE_PATH_SIZE - NODE_HEADER_SIZE)];
      }
    }
    assert path[..] == b;
    s := Success;
  }

  /**
   * Built on an encoded controller path, the device path is that path with
   * the SATA node inserted before its End node, and it passes
   * AhciCheckHcDevicePath with the returned length.
   */
  lemma {:induction false} BuildOfEncoding(hc: seq<byte>, ns: seq<Node>, port: u16, portMultiplierPort: u16)
    requires NodesOk(ns) && forall i :: 0 <= i < |ns| ==> !Stops(ns[i], true)
    requires At(hc, 0, Encode(ns) + EndTemplate())
    ensures var hcLength := |Encode(ns) + EndTemplate()|;
            var built := BuiltPath(hc, hcLength, port, portMultiplierPort);
            && built == Encode(ns + [SataNode(port, portMultiplierPort), EndNode(END_ENTIRE_DEVICE_PATH_SUBTYPE)])
            && PathOk(built, Some(0))
            && FindEnd(built, 0, true).value + NODE_HEADER_SIZE == hcLength + SATA_DEVICE_PATH_SIZE
  {
    var sata := SataNode(port, portMultiplierPort);
    var end := EndNode(END_ENTIRE_DEVICE_PATH_SUBTYPE);
    var hcLength := |Encode(ns) + EndTemplate()|;
    BuiltIsEncoding(hc, ns, port, portMultiplierPort);
    var built := BuiltPath(hc, hcLength, port, portMultiplierPort);
    assert forall i :: 0 <= i < |ns + [sata]| ==> !Stops((ns + [sata])[i], true) by {
      forall i | 0 <= i < |ns + [sata]|
        ensures !Stops((ns + [sata])[i], true)
      {
        if i < |ns| {
          assert (ns + [sata])[i] == ns[i];
        }
      }
    }
    assert At(built, 0, Encode(ns + [sata]) + EncodeNode(end)) by {
      assert forall k :: 0 <= k < |built| ==> built[0 + k] == built[k];
    }
    FindEndOfEncoding(built, 0, ns + [sata], end, true);
  }

  /** The built bytes are the controller's nodes, the SATA node and an End-Entire node, encoded. */
  lemma {:induction false} BuiltIsEncoding(hc: seq<byte>, ns: seq<Node>, port: u16, portMultiplierPort: u16)
    requires NodesOk(ns)
    requires At(hc, 0, Encode(ns) + EndTemplate())
    ensures var sata := SataNode(port, portMultiplierPort);
            var end := EndNode(END_ENTIRE_DEVICE_PATH_SUBTYPE);
            var built := BuiltPath(hc, |Encode(ns) + EndTemplate()|, port, portMultiplierPort);
            && NodesOk(ns + [sata])
            && built == Encode(ns + [sata]) + EncodeNode(end)
            && built == Encode(ns + [sata, end])
            && |Encode(ns + [sata])| == |Encode(ns)| + SATA_DEVICE_PATH_SIZE
  {
    var sata := SataNode(port, portMultiplierPort);
    var end := EndNode(END_ENTIRE_DEVICE_PATH_SUBTYPE);
    var hcLength := |Encode(ns) + EndTemplate()|;
    AtSplit(hc, 0, Encode(ns), EndTemplate());
    assert BytesAt(hc, 0, hcLength - NODE_HEADER_SIZE) == Encode(ns);
    EncodeAppend(ns, [sata]);
    EncodeAppend(ns + [sata], [end]);
    EncodeOne(sata);
    EncodeOne(end);
    assert ns + [sata] + [end] == ns + [sata, end];
  }
}

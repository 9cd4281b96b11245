/**
 * The S3 unlock of the HDD password PEI driver
 * (SecurityPkg/HddPassword/HddPasswordPei.c): the table of ATA pass-through
 * PPI instances already handled, the search of the device records restored
 * from the LockBox, and the two ATA security commands it sends.
 *
 * Device records are HDD_PASSWORD_DEVICE_INFO values packed back to back:
 * a 46-byte fixed part (Segment, Bus, Device, Function, Reserved, Port,
 * PortMultiplierPort, a 32-byte Password, a 32-bit DevicePathLength)
 * followed by DevicePathLength bytes of device path.
 */
module HddPassword {
  import opened Bytes
  import opened EfiStatus

  /** The most pass-through PPI instances the driver keeps track of. */
  const MAX_ATA_PASSTHRU_PPI: nat := 32
  /** Time out of an ATA pass-through command, in 100 ns units. */
  const ATA_TIMEOUT: nat := 30000000
  /** Size of the SECURITY UNLOCK data block. */
  const HDD_PAYLOAD: nat := 512
  const HDD_PASSWORD_MAX_LENGTH: nat := 32

  /** ATA command codes (SECURITY UNLOCK, SECURITY FREEZE LOCK). */
  const ATA_SECURITY_UNLOCK_CMD: byte := 0xF2
  const ATA_SECURITY_FREEZE_LOCK_CMD: byte := 0xF5
  /** EFI_ATA_PASS_THRU_COMMAND_PACKET Protocol and Length values. */
  const EFI_ATA_PASS_THRU_PROTOCOL_ATA_NON_DATA: byte := 0x02
  const EFI_ATA_PASS_THRU_PROTOCOL_PIO_DATA_OUT: byte := 0x05
  const EFI_ATA_PASS_THRU_LENGTH_NO_DATA_TRANSFER: byte := 0x00
  const EFI_ATA_PASS_THRU_LENGTH_BYTES: byte := 0x80
  /** ERR is bit 0 of the status register, ABRT bit 2 of the error register. */
  const ATA_STSREG_ERR_BIT: nat := 0
  const ATA_ERRREG_ABRT_BIT: nat := 2

  /** Offsets in HDD_PASSWORD_DEVICE_INFO. */
  const PORT_OFFSET: nat := 6
  const PORT_MULTIPLIER_PORT_OFFSET: nat := 8
  const PASSWORD_OFFSET: nat := 10
  const DEVICE_PATH_LENGTH_OFFSET: nat := 42
  /** sizeof (HDD_PASSWORD_DEVICE_INFO): the device path follows the fixed part. */
  const DEVICE_INFO_SIZE: nat := 46
  /** sizeof (EFI_DEVICE_PATH_PROTOCOL), the End node left out of the comparison. */
  const END_NODE_SIZE: nat := 4

  // ------------------------------------------------------------ device records, as bytes

  function RecordPort(buf: seq<byte>, d: nat): u16 { Read16(buf, d + PORT_OFFSET) }

  function RecordPortMultiplierPort(buf: seq<byte>, d: nat): u16 { Read16(buf, d + PORT_MULTIPLIER_PORT_OFFSET) }

  function RecordPassword(buf: seq<byte>, d: nat): seq<byte> { BytesAt(buf, d + PASSWORD_OFFSET, HDD_PASSWORD_MAX_LENGTH) }

  function RecordPathLength(buf: seq<byte>, d: nat): u32 { Read32(buf, d + DEVICE_PATH_LENGTH_OFFSET) }

  /** Where the next record starts. */
  function NextRecord(buf: seq<byte>, d: nat): nat { d + DEVICE_INFO_SIZE + RecordPathLength(buf, d) }

  /**
   * The match test: the same port and port multiplier port, a stored path
   * at least as long as the live one, and equal paths once the live path's
   * End node is left out.
   */
  predicate Matches(buf: seq<byte>, d: nat, port: u16, portMultiplierPort: u16, path: seq<byte>)
    requires |path| > END_NODE_SIZE
  {
    && RecordPort(buf, d) == port
    && RecordPortMultiplierPort(buf, d) == portMultiplierPort
    && RecordPathLength(buf, d) >= |path|
    && SameBytes(buf, d + DEVICE_INFO_SIZE, path, 0, |path| - END_NODE_SIZE)
  }

  /** The record walk from `d` while it stays below the buffer's end: the first record that matches. */
  function FindDevice(buf: seq<byte>, d: nat, port: u16, portMultiplierPort: u16, path: seq<byte>): (r: Option<nat>)
    requires |path| > END_NODE_SIZE
    ensures r.Some? ==> d <= r.value < |buf|
    decreases |buf| - d
  {
    if d >= |buf| then None
    else if Matches(buf, d, port, portMultiplierPort, path) then Some(d)
    else FindDevice(buf, NextRecord(buf, d), port, portMultiplierPort, path)
  }

  /**
   * The walk stops at a record that matches, and only there: every record
   * it steps over before does not match.
   */
  lemma {:induction false} FindDeviceMatches(buf: seq<byte>, d: nat, port: u16, portMultiplierPort: u16, path: seq<byte>)
    requires |path| > END_NODE_SIZE
    ensures var r := FindDevice(buf, d, port, portMultiplierPort, path);
            && (r.Some? ==> Matches(buf, r.value, port, portMultiplierPort, path))
            && (d < |buf| && !Matches(buf, d, port, portMultiplierPort, path) ==>
                  r == FindDevice(buf, NextRecord(buf, d), port, portMultiplierPort, path))
    decreases |buf| - d
  {
    if d < |buf| && !Matches(buf, d, port, portMultiplierPort, path) {
      FindDeviceMatches(buf, NextRecord(buf, d), port, portMultiplierPort, path);
    }
  }

  // ------------------------------------------------------------ device records, as values

  datatype DeviceInfo = DeviceInfo(segment: u16, bus: byte, device: byte, func: byte,
                                   port: u16, portMultiplierPort: u16,
                                   password: seq<byte>, devicePath: seq<byte>)

  predicate InfoOk(r: DeviceInfo)
  {
    |r.password| == HDD_PASSWORD_MAX_LENGTH && |r.devicePath| < U32
  }

  predicate InfosOk(rs: seq<DeviceInfo>)
  {
    forall i :: 0 <= i < |rs| ==> InfoOk(rs[i])
  }

  /** The record as the DXE driver saves it; Reserved is 0. */
  function EncodeInfo(r: DeviceInfo): (bs: seq<byte>)
    requires InfoOk(r)
    ensures |bs| == DEVICE_INFO_SIZE + |r.devicePath|
  {
    Le16(r.segment) + [r.bus, r.device, r.func, 0] + Le16(r.port) + Le16(r.portMultiplierPort) +
    r.password + Le32(|r.devicePath|) + r.devicePath
  }

  /** The size of a record: the fixed header and the path after it. */
  function InfoSize(r: DeviceInfo): nat { DEVICE_INFO_SIZE + |r.devicePath| }

  function EncodeInfos(rs: seq<DeviceInfo>): seq<byte>
    requires InfosOk(rs)
  {
    if rs == [] then [] else EncodeInfo(rs[0]) + EncodeInfos(rs[1..])
  }

  /** The match test on a record value. */
  predicate InfoMatches(r: DeviceInfo, port: u16, portMultiplierPort: u16, path: seq<byte>)
    requires |path| > END_NODE_SIZE
  {
    && r.port == port && r.portMultiplierPort == portMultiplierPort
    && |r.devicePath| >= |path|
    && SameBytes(r.devicePath, 0, path, 0, |path| - END_NODE_SIZE)
  }

  /** The index of the first record that matches. */
  function Lookup(rs: seq<DeviceInfo>, port: u16, portMultiplierPort: u16, path: seq<byte>): (r: Option<nat>)
    requires |path| > END_NODE_SIZE
    ensures r.Some? ==> r.value < |rs|
  {
    if rs == [] then None
    else if InfoMatches(rs[0], port, portMultiplierPort, path) then Some(0)
    else
      var t := Lookup(rs[1..], port, portMultiplierPort, path);
      if t.Some? then Some(t.value + 1) else None
  }

  /** Lookup finds the first record that matches, and none when no record matches. */
  lemma {:induction false} LookupFirst(rs: seq<DeviceInfo>, port: u16, portMultiplierPort: u16, path: seq<byte>)
    requires |path| > END_NODE_SIZE
    ensures var r := Lookup(rs, port, portMultiplierPort, path);
            && (r.Some? ==> InfoMatches(rs[r.value], port, portMultiplierPort, path))
            && (r.Some? ==> forall j :: 0 <= j < r.value ==> !InfoMatches(rs[j], port, portMultiplierPort, path))
            && (r.None? ==> forall j :: 0 <= j < |rs| ==> !InfoMatches(rs[j], port, portMultiplierPort, path))
  {
    if rs != [] && !InfoMatches(rs[0], port, portMultiplierPort, path) {
      LookupFirst(rs[1..], port, portMultiplierPort, path);
      var t := Lookup(rs[1..], port, portMultiplierPort, path);
      forall j | 0 < j < |rs| && (t.None? || j < t.value + 1)
        ensures !InfoMatches(rs[j], port, portMultiplierPort, path)
      {
        assert rs[j] == rs[1..][j - 1];
      }
      if t.Some? {
        assert rs[t.value + 1] == rs[1..][t.value];
      }
    }
  }

  /** Where record `i` starts in the encoding. */
  function Offset(rs: seq<DeviceInfo>, i: nat): nat
    requires InfosOk(rs) && i <= |rs|
  {
    if i == 0 then 0 else InfoSize(rs[0]) + Offset(rs[1..], i - 1)
  }

  /** Each field of a stored record reads back as the value it was saved from. */
  lemma {:induction false} InfoRead(buf: seq<byte>, d: nat, r: DeviceInfo)
    requires InfoOk(r) && At(buf, d, EncodeInfo(r))
    ensures RecordPort(buf, d) == r.port && RecordPortMultiplierPort(buf, d) == r.portMultiplierPort
    ensures RecordPathLength(buf, d) == |r.devicePath| && RecordPassword(buf, d) == r.password
    ensures NextRecord(buf, d) == d + |EncodeInfo(r)|
    ensures forall n :: 0 <= n <= |r.devicePath| ==> BytesAt(buf, d + DEVICE_INFO_SIZE, n) == r.devicePath[..n]
  {
    InfoHeaderRead(buf, d, r);
    InfoPasswordRead(buf, d, r);
    InfoPathRead(buf, d, r);
  }

  lemma {:induction false} InfoHeaderRead(buf: seq<byte>, d: nat, r: DeviceInfo)
    requires InfoOk(r) && At(buf, d, EncodeInfo(r))
    ensures RecordPort(buf, d) == r.port && RecordPortMultiplierPort(buf, d) == r.portMultiplierPort
    ensures RecordPathLength(buf, d) == |r.devicePath|
    ensures NextRecord(buf, d) == d + |EncodeInfo(r)|
  {
    var bs := EncodeInfo(r);
    assert buf[d + 6] == bs[6] && buf[d + 7] == bs[7] && buf[d + 8] == bs[8] && buf[d + 9] == bs[9];
    assert buf[d + 42] == bs[42] && buf[d + 43] == bs[43] && buf[d + 44] == bs[44] && buf[d + 45] == bs[45];
    Le32Read(|r.devicePath|);
  }

  lemma {:induction false} InfoPasswordRead(buf: seq<byte>, d: nat, r: DeviceInfo)
    requires InfoOk(r) && At(buf, d, EncodeInfo(r))
    ensures RecordPassword(buf, d) == r.password
  {
    var bs := EncodeInfo(r);
    forall k | 0 <= k < HDD_PASSWORD_MAX_LENGTH
      ensures RecordPassword(buf, d)[k] == r.password[k]
    {
      assert buf[d + (PASSWORD_OFFSET + k)] == bs[PASSWORD_OFFSET + k];
    }
  }

  lemma {:induction false} InfoPathRead(buf: seq<byte>, d: nat, r: DeviceInfo)
    requires InfoOk(r) && At(buf, d, EncodeInfo(r))
    ensures forall n :: 0 <= n <= |r.devicePath| ==> BytesAt(buf, d + DEVICE_INFO_SIZE, n) == r.devicePath[..n]
  {
    var bs := EncodeInfo(r);
    forall n | 0 <= n <= |r.devicePath|
      ensures BytesAt(buf, d + DEVICE_INFO_SIZE, n) == r.devicePath[..n]
    {
      forall k | 0 <= k < n
        ensures BytesAt(buf, d + DEVICE_INFO_SIZE, n)[k] == r.devicePath[k]
      {
        assert buf[d + (DEVICE_INFO_SIZE + k)] == bs[DEVICE_INFO_SIZE + k];
      }
    }
  }

  /**
   * Where the walk over the encoded records `rs`, laid out from `d` on,
   * stops: the first record that matches, at the sum of the sizes before it.
   */
  function RecordsFind(rs: seq<DeviceInfo>, d: nat, port: u16, portMultiplierPort: u16, path: seq<byte>): Option<nat>
    requires |path| > END_NODE_SIZE
  {
    if rs == [] then None
    else if InfoMatches(rs[0], port, portMultiplierPort, path) then Some(d)
    else RecordsFind(rs[1..], d + InfoSize(rs[0]), port, portMultiplierPort, path)
  }

  /**
   * On a buffer that holds exactly the saved records from `d` on, the walk
   * stops at the first record that matches, or finds none when none does.
   */
  lemma {:induction false} FindDeviceOfEncoding(buf: seq<byte>, d: nat, rs: seq<DeviceInfo>,
                                                port: u16, portMultiplierPort: u16, path: seq<byte>)
    requires |path| > END_NODE_SIZE && InfosOk(rs)
    requires At(buf, d, EncodeInfos(rs)) && d + |EncodeInfos(rs)| == |buf|
    ensures var i := Lookup(rs, port, portMultiplierPort, path);
            FindDevice(buf, d, port, portMultiplierPort, path) == if i.Some? then Some(d + Offset(rs, i.value)) else None
  {
    WalkOfEncoding(buf, d, rs, port, portMultiplierPort, path);
    RecordsFindLookup(rs, d, port, portMultiplierPort, path);
  }

  lemma {:induction false} WalkOfEncoding(buf: seq<byte>, d: nat, rs: seq<DeviceInfo>,
                                          port: u16, portMultiplierPort: u16, path: seq<byte>)
    requires |path| > END_NODE_SIZE && InfosOk(rs)
    requires At(buf, d, EncodeInfos(rs)) && d + |EncodeInfos(rs)| == |buf|
    ensures FindDevice(buf, d, port, portMultiplierPort, path) == RecordsFind(rs, d, port, portMultiplierPort, path)
    decreases |rs|
  {
    if rs != [] {
      var r := rs[0];
      AtSplit(buf, d, EncodeInfo(r), EncodeInfos(rs[1..]));
      assert InfosOk(rs[1..]);
      WalkOfEncoding(buf, d + InfoSize(r), rs[1..], port, portMultiplierPort, path);
      HeadRecord(buf, d, r, port, portMultiplierPort, path);
    }
  }

  lemma {:induction false} RecordsFindLookup(rs: seq<DeviceInfo>, d: nat, port: u16, portMultiplierPort: u16, path: seq<byte>)
    requires |path| > END_NODE_SIZE && InfosOk(rs)
    ensures var i := Lookup(rs, port, portMultiplierPort, path);
            RecordsFind(rs, d, port, portMultiplierPort, path) == if i.Some? then Some(d + Offset(rs, i.value)) else None
    decreases |rs|
  {
    if rs != [] {
      assert InfosOk(rs[1..]);
      RecordsFindLookup(rs[1..], d + InfoSize(rs[0]), port, portMultiplierPort, path);
      var t := Lookup(rs[1..], port, portMultiplierPort, path);
      LookupHead(rs, port, portMultiplierPort, path);
      if t.Some? {
        OffsetHead(rs, t.value);
      }
    }
  }

  lemma {:induction false} LookupHead(rs: seq<DeviceInfo>, port: u16, portMultiplierPort: u16, path: seq<byte>)
    requires |path| > END_NODE_SIZE && rs != []
    ensures var t := Lookup(rs[1..], port, portMultiplierPort, path);
            Lookup(rs, port, portMultiplierPort, path) ==
            if InfoMatches(rs[0], port, portMultiplierPort, path) then Some(0)
            else if t.Some? then Some(t.value + 1) else None
  {
  }

  lemma {:induction false} OffsetHead(rs: seq<DeviceInfo>, i: nat)
    requires InfosOk(rs) && i < |rs| - 1
    ensures InfosOk(rs[1..]) && Offset(rs, i + 1) == InfoSize(rs[0]) + Offset(rs[1..], i)
  {
  }

  /** Record `i` of the saved records starts at `d + Offset(rs, i)` and its password reads back there. */
  lemma {:induction false} PasswordAtOffset(buf: seq<byte>, d: nat, rs: seq<DeviceInfo>, i: nat)
    requires InfosOk(rs) && i < |rs| && At(buf, d, EncodeInfos(rs))
    ensures RecordPassword(buf, d + Offset(rs, i)) == rs[i].password
    decreases i
  {
    AtSplit(buf, d, EncodeInfo(rs[0]), EncodeInfos(rs[1..]));
    if i == 0 {
      InfoPasswordRead(buf, d, rs[0]);
    } else {
      assert InfosOk(rs[1..]);
      PasswordAtOffset(buf, d + InfoSize(rs[0]), rs[1..], i - 1);
      assert rs[1..][i - 1] == rs[i];
    }
  }

  /** The walk's test on the record saved at `d`, and where it goes next. */
  lemma {:induction false} HeadRecord(buf: seq<byte>, d: nat, r: DeviceInfo, port: u16, portMultiplierPort: u16, path: seq<byte>)
    requires |path| > END_NODE_SIZE && InfoOk(r) && At(buf, d, EncodeInfo(r)) && d < |buf|
    ensures FindDevice(buf, d, port, portMultiplierPort, path) ==
            if InfoMatches(r, port, portMultiplierPort, path) then Some(d)
            else FindDevice(buf, d + InfoSize(r), port, portMultiplierPort, path)
    ensures RecordPassword(buf, d) == r.password
  {
    InfoRead(buf, d, r);
    SameBytesIff(buf, d + DEVICE_INFO_SIZE, path, 0, |path| - END_NODE_SIZE);
    SameBytesIff(r.devicePath, 0, path, 0, |path| - END_NODE_SIZE);
    if |r.devicePath| >= |path| {
      BytesAtPrefix(r.devicePath, |path| - END_NODE_SIZE);
    }
    assert Matches(buf, d, port, portMultiplierPort, path) == InfoMatches(r, port, portMultiplierPort, path);
  }

  // ------------------------------------------------------------ the record walk

  /** The DevInfo loop of UnlockHddPassword over the bytes restored from the LockBox. */
  method FindDeviceInfo(buf: seq<byte>, port: u16, portMultiplierPort: u16, path: seq<byte>)
    returns (found: Option<nat>)
    requires |path| > END_NODE_SIZE
    ensures found == FindDevice(buf, 0, port, portMultiplierPort, path)
  {
    var d := 0;
    while d < |buf|
      invariant FindDevice(buf, d, port, portMultiplierPort, path) == FindDevice(buf, 0, port, portMultiplierPort, path)
      decreases |buf| - d
    {
      var matches := MatchesAt(buf, d, port, portMultiplierPort, path);
      if matches {
        return Some(d);
      }
      d := NextRecord(buf, d);
    }
    return None;
  }

  /** The test of one record in the loop, with the path compared by CompareMem. */
  method MatchesAt(buf: seq<byte>, d: nat, port: u16, portMultiplierPort: u16, path: seq<byte>) returns (m: bool)
    requires |path| > END_NODE_SIZE
    ensures m == Matches(buf, d, port, portMultiplierPort, path)
  {
    var same := CompareMem(buf, d + DEVICE_INFO_SIZE, path, 0, |path| - END_NODE_SIZE);
    SameBytesIff(buf, d + DEVICE_INFO_SIZE, path, 0, |path| - END_NODE_SIZE);
    m := RecordPort(buf, d) == port && RecordPortMultiplierPort(buf, d) == portMultiplierPort &&
         RecordPathLength(buf, d) >= |path| && same;
  }

  // ------------------------------------------------------------ the ATA security commands

  /** The fields of an EFI_ATA_PASS_THRU_COMMAND_PACKET and its command block that the driver sets. */
  datatype AtaPacket = AtaPacket(protocol: byte, length: byte, command: byte, deviceHead: byte,
                                 timeout: nat, outData: seq<byte>)

  /** AtaDeviceHead: 0 for a device on the port itself, else (UINT8) (PortMultiplierPort << 4). */
  function DeviceHead(portMultiplierPort: u16): (r: byte)
    ensures portMultiplierPort == 0xFFFF ==> r == 0
    ensures portMultiplierPort != 0xFFFF ==> r == (portMultiplierPort * 16) % 0x100
  {
    if portMultiplierPort == 0xFFFF then 0 else (portMultiplierPort * 16) % 0x100
  }

  /** The head register holds the low four bits of the port multiplier port in its high nibble. */
  lemma {:induction false} DeviceHeadNibble(portMultiplierPort: u16)
    requires portMultiplierPort != 0xFFFF
    ensures DeviceHead(portMultiplierPort) % 16 == 0
    ensures DeviceHead(portMultiplierPort) / 16 == portMultiplierPort % 16
  {
    var q := portMultiplierPort / 16;
    var n := portMultiplierPort % 16;
    assert portMultiplierPort * 16 == 256 * q + 16 * n;
    assert (256 * q + 16 * n) % 0x100 == 16 * n;
  }

  /**
   * What the caller sees: DEVICE_ERROR when the pass-through succeeded but
   * the device set ERR in its status and ABRT in its error register,
   * otherwise the pass-through status.
   */
  function CommandStatus(passThru: Status, ataStatus: byte, ataError: byte): (r: Status)
    ensures r == DeviceError <==>
              passThru == DeviceError || (!IsError(passThru) && BitSet(ataStatus, ATA_STSREG_ERR_BIT) && BitSet(ataError, ATA_ERRREG_ABRT_BIT))
    ensures r != DeviceError ==> r == passThru
  {
    if !IsError(passThru) && BitSet(ataStatus, ATA_STSREG_ERR_BIT) && BitSet(ataError, ATA_ERRREG_ABRT_BIT) then DeviceError
    else passThru
  }

  /**
   * UnlockDevice. `ppiGiven` is false for a NULL PPI, `password` None for a
   * NULL password; `asbAllocOk` says whether AllocateAlignedPages succeeds;
   * the pass-through's status and the status and error bytes it leaves in
   * the status block are inputs. `buffer` is the 512-byte stack buffer: only
   * its first 34 bytes are set before the packet is sent, and it is zeroed
   * before return.
   */
  method UnlockDevice(ppiGiven: bool, portMultiplierPort: u16, identifier: byte, password: Option<seq<byte>>,
                      asbAllocOk: bool, passThru: Status, ataStatus: byte, ataError: byte, buffer: array<byte>)
    returns (s: Status, sent: Option<AtaPacket>)
    requires buffer.Length == HDD_PAYLOAD
    modifies buffer
    ensures !ppiGiven || password.None? ==> s == InvalidParameter && sent.None? && unchanged(buffer)
    ensures ppiGiven && password.Some? && !asbAllocOk ==> s == OutOfResources && sent.None? && unchanged(buffer)
    ensures ppiGiven && password.Some? && asbAllocOk ==>
              && s == CommandStatus(passThru, ataStatus, ataError)
              && sent.Some?
              && (var p := sent.value;
                 && p.protocol == EFI_ATA_PASS_THRU_PROTOCOL_PIO_DATA_OUT && p.length == EFI_ATA_PASS_THRU_LENGTH_BYTES
                 && p.command == ATA_SECURITY_UNLOCK_CMD && p.deviceHead == DeviceHead(portMultiplierPort)
                 && p.timeout == ATA_TIMEOUT && |p.outData| == HDD_PAYLOAD
                 && p.outData[..2] == [identifier % 2, 0]
                 && p.outData[2..2 + HDD_PASSWORD_MAX_LENGTH] == BytesAt(password.value, 0, HDD_PASSWORD_MAX_LENGTH)
                 && p.outData[2 + HDD_PASSWORD_MAX_LENGTH..] == old(buffer[2 + HDD_PASSWORD_MAX_LENGTH..]))
              && buffer[..] == Zeros(HDD_PAYLOAD)
  {
    if !ppiGiven || password.None? {
      return InvalidParameter, None;
    }
    if !asbAllocOk {
      return OutOfResources, None;
    }
    buffer[0] := identifier % 2;
    buffer[1] := 0;
    CopyMem(buffer, 2, password.value, 0, HDD_PASSWORD_MAX_LENGTH);
    var packet := AtaPacket(EFI_ATA_PASS_THRU_PROTOCOL_PIO_DATA_OUT, EFI_ATA_PASS_THRU_LENGTH_BYTES,
                            ATA_SECURITY_UNLOCK_CMD, DeviceHead(portMultiplierPort), ATA_TIMEOUT, buffer[..]);
    sent := Some(packet);
    s := CommandStatus(passThru, ataStatus, ataError);
    ZeroMem(buffer, 0, HDD_PAYLOAD);
    assert packet.outData[..2] == [identifier % 2, 0];
    assert packet.outData[2..2 + HDD_PASSWORD_MAX_LENGTH] == BytesAt(password.value, 0, HDD_PASSWORD_MAX_LENGTH);
  }

  /** FreezeLockDevice: the same checks and status mapping, a command with no data. */
  method FreezeLockDevice(ppiGiven: bool, portMultiplierPort: u16, asbAllocOk: bool,
                          passThru: Status, ataStatus: byte, ataError: byte)
    returns (s: Status, sent: Option<AtaPacket>)
    ensures !ppiGiven ==> s == InvalidParameter && sent.None?
    ensures ppiGiven && !asbAllocOk ==> s == OutOfResources && sent.None?
    ensures ppiGiven && asbAllocOk ==>
              s == CommandStatus(passThru, ataStatus, ataError) &&
              sent == Some(AtaPacket(EFI_ATA_PASS_THRU_PROTOCOL_ATA_NON_DATA, EFI_ATA_PASS_THRU_LENGTH_NO_DATA_TRANSFER,
                                     ATA_SECURITY_FREEZE_LOCK_CMD, DeviceHead(portMultiplierPort), ATA_TIMEOUT, []))
  {
    if !ppiGiven {
      return InvalidParameter, None;
    }
    if !asbAllocOk {
      return OutOfResources, None;
    }
    sent := Some(AtaPacket(EFI_ATA_PASS_THRU_PROTOCOL_ATA_NON_DATA, EFI_ATA_PASS_THRU_LENGTH_NO_DATA_TRANSFER,
                           ATA_SECURITY_FREEZE_LOCK_CMD, DeviceHead(portMultiplierPort), ATA_TIMEOUT, []));
    s := CommandStatus(passThru, ataStatus, ataError);
  }

  // ------------------------------------------------------------ UnlockHddPassword

  /** A call UnlockHddPassword makes on a pass-through PPI instance. */
  datatype Command =
    | Unlock(ppi: nat, port: u16, portMultiplierPort: u16, identifier: byte, password: seq<byte>)
    | FreezeLock(ppi: nat, port: u16, portMultiplierPort: u16)

  /** The password of the first record the walk matches, if any. */
  function SavedPassword(buf: seq<byte>, port: u16, portMultiplierPort: u16, path: seq<byte>): Option<seq<byte>>
    requires |path| > END_NODE_SIZE
  {
    match FindDevice(buf, 0, port, portMultiplierPort, path)
    case None => None
    case Some(d) => Some(RecordPassword(buf, d))
  }

  /**
   * The calls for a device: none without a matching record; otherwise an
   * unlock with the user password (identifier 0) when the saved password is
   * not all zero, then always a freeze lock.
   */
  function SecurityCommands(ppi: nat, port: u16, portMultiplierPort: u16, password: Option<seq<byte>>): (cs: seq<Command>)
    ensures password.None? <==> cs == []
    ensures password.Some? ==> cs[|cs| - 1] == FreezeLock(ppi, port, portMultiplierPort)
    ensures password.Some? ==> (|cs| == 2 <==> !AllZero(password.value))
    ensures |cs| == 2 ==> cs[0] == Unlock(ppi, port, portMultiplierPort, 0, password.value)
  {
    match password
    case None => []
    case Some(pw) =>
      (if !AllZero(pw) then [Unlock(ppi, port, portMultiplierPort, 0, pw)] else []) +
      [FreezeLock(ppi, port, portMultiplierPort)]
  }

  function DeviceCommands(ppi: nat, buf: seq<byte>, port: u16, portMultiplierPort: u16, path: seq<byte>): seq<Command>
    requires |path| > END_NODE_SIZE
  {
    SecurityCommands(ppi, port, portMultiplierPort, SavedPassword(buf, port, portMultiplierPort, path))
  }

  /** The password of the first saved record that matches, if any. */
  function LookupPassword(rs: seq<DeviceInfo>, port: u16, portMultiplierPort: u16, path: seq<byte>): Option<seq<byte>>
    requires |path| > END_NODE_SIZE
  {
    match Lookup(rs, port, portMultiplierPort, path)
    case None => None
    case Some(i) => Some(rs[i].password)
  }

  /**
   * On saved records, the walk over the bytes yields the password of the
   * first matching record, and nothing when no record matches.
   */
  lemma {:induction false} SavedPasswordOfEncoding(buf: seq<byte>, rs: seq<DeviceInfo>, port: u16, portMultiplierPort: u16, path: seq<byte>)
    requires |path| > END_NODE_SIZE && InfosOk(rs) && buf == EncodeInfos(rs)
    ensures SavedPassword(buf, port, portMultiplierPort, path) == LookupPassword(rs, port, portMultiplierPort, path)
  {
    assert At(buf, 0, EncodeInfos(rs));
    FindDeviceOfEncoding(buf, 0, rs, port, portMultiplierPort, path);
    var i := Lookup(rs, port, portMultiplierPort, path);
    if i.Some? {
      PasswordAtOffset(buf, 0, rs, i.value);
    }
  }

  /** On saved records, a device gets the commands of its first matching record. */
  lemma {:induction false} CommandsOfEncoding(buf: seq<byte>, rs: seq<DeviceInfo>, ppi: nat, port: u16, portMultiplierPort: u16, path: seq<byte>)
    requires |path| > END_NODE_SIZE && InfosOk(rs) && buf == EncodeInfos(rs)
    ensures DeviceCommands(ppi, buf, port, portMultiplierPort, path) ==
            SecurityCommands(ppi, port, portMultiplierPort, LookupPassword(rs, port, portMultiplierPort, path))
  {
    SavedPasswordOfEncoding(buf, rs, port, portMultiplierPort, path);
  }

  /** A device GetNextPort and GetNextDevice enumerate. */
  datatype AtaDevice = AtaDevice(port: u16, portMultiplierPort: u16)

  /**
   * A pass-through PPI instance as UnlockHddPassword sees it: its address,
   * what GetDevicePath returns, and the devices it enumerates, in order.
   */
  datatype Ppi = Ppi(id: nat, pathStatus: Status, devicePath: seq<byte>, devices: seq<AtaDevice>)

  /** The calls for the first `n` devices of an instance. */
  function DevicesCommands(ppi: nat, buf: seq<byte>, path: seq<byte>, ds: seq<AtaDevice>, n: nat): seq<Command>
    requires |path| > END_NODE_SIZE && n <= |ds|
  {
    if n == 0 then []
    else DevicesCommands(ppi, buf, path, ds, n - 1) + DeviceCommands(ppi, buf, ds[n - 1].port, ds[n - 1].portMultiplierPort, path)
  }

  lemma {:induction false} DevicesCommandsNext(ppi: nat, buf: seq<byte>, path: seq<byte>, ds: seq<AtaDevice>, n: nat)
    requires |path| > END_NODE_SIZE && n < |ds|
    ensures DevicesCommands(ppi, buf, path, ds, n + 1) ==
            DevicesCommands(ppi, buf, path, ds, n) + DeviceCommands(ppi, buf, ds[n].port, ds[n].portMultiplierPort, path)
  {
  }

  /** The calls for a new instance: none when its device path is unavailable or no longer than an End node. */
  function PpiCommands(p: Ppi, buf: seq<byte>): seq<Command>
  {
    if IsError(p.pathStatus) || |p.devicePath| <= END_NODE_SIZE then []
    else DevicesCommands(p.id, buf, p.devicePath, p.devices, |p.devices|)
  }

  /** How many instances PeiServicesLocatePpi finds for the indices the loop tries. */
  function Located(ppis: seq<Ppi>): nat
  {
    if |ppis| < MAX_ATA_PASSTHRU_PPI then |ppis| else MAX_ATA_PASSTHRU_PPI
  }

  function LocatedIds(ppis: seq<Ppi>): set<nat>
  {
    set i | 0 <= i < Located(ppis) :: ppis[i].id
  }

  /**
   * The first `k` passes of the instance loop from the handled table `h0`:
   * the calls made and the table after them. A handled instance is skipped;
   * a new one is appended to the table before its devices are served.
   */
  function RunUpTo(ppis: seq<Ppi>, buf: seq<byte>, k: nat, h0: seq<nat>): (seq<Command>, seq<nat>)
    requires k <= |ppis|
  {
    if k == 0 then ([], h0)
    else
      var r := RunUpTo(ppis, buf, k - 1, h0);
      if ppis[k - 1].id in r.1 then r else (r.0 + PpiCommands(ppis[k - 1], buf), r.1 + [ppis[k - 1].id])
  }

  /** One more pass of the instance loop: the calls and the table after it, from those before it. */
  lemma {:induction false} RunUpToNext(ppis: seq<Ppi>, buf: seq<byte>, k: nat, h0: seq<nat>,
                    cmds: seq<Command>, h: seq<nat>, more: seq<Command>, h': seq<nat>)
    requires k < |ppis| && cmds == RunUpTo(ppis, buf, k, h0).0 && h == RunUpTo(ppis, buf, k, h0).1
    requires ppis[k].id in h ==> more == [] && h' == h
    requires ppis[k].id !in h ==> more == PpiCommands(ppis[k], buf) && h' == h + [ppis[k].id]
    ensures cmds + more == RunUpTo(ppis, buf, k + 1, h0).0 && h' == RunUpTo(ppis, buf, k + 1, h0).1
  {
    if ppis[k].id in h {
      assert cmds + [] == cmds;
    }
  }

  predicate Distinct(s: seq<nat>)
  {
    forall i, j :: 0 <= i < j < |s| ==> s[i] != s[j]
  }

  /** The loop never appends an instance twice, and only instances it located. */
  lemma {:induction false} RunUpToTable(ppis: seq<Ppi>, buf: seq<byte>, k: nat, h0: seq<nat>)
    requires k <= |ppis| && Distinct(h0)
    ensures var h := RunUpTo(ppis, buf, k, h0).1;
            && Distinct(h) && |h0| <= |h| && h[..|h0|] == h0
            && forall j :: |h0| <= j < |h| ==> exists i :: 0 <= i < k && ppis[i].id == h[j]
  {
    if k > 0 {
      RunUpToTable(ppis, buf, k - 1, h0);
      var h := RunUpTo(ppis, buf, k - 1, h0).1;
      if ppis[k - 1].id !in h {
        var h' := h + [ppis[k - 1].id];
        assert h'[..|h0|] == h[..|h0|];
        forall j | |h0| <= j < |h'|
          ensures exists i :: 0 <= i < k && ppis[i].id == h'[j]
        {
          if j < |h| {
            assert h'[j] == h[j];
          } else {
            assert ppis[k - 1].id == h'[j];
          }
        }
      }
    }
  }

  function Elements(s: seq<nat>): set<nat>
  {
    set x | x in s
  }

  lemma {:induction false} CardAddOne(a: set<nat>, y: nat)
    requires y !in a
    ensures |a + {y}| == |a| + 1
  {
    assert a * {y} == {};
  }

  lemma {:induction false} DistinctCard(s: seq<nat>)
    requires Distinct(s)
    ensures |Elements(s)| == |s|
  {
    if s != [] {
      var t := s[..|s| - 1];
      var y := s[|s| - 1];
      assert Distinct(t);
      DistinctCard(t);
      assert s == t + [y];
      assert Elements(s) == Elements(t) + {y};
      assert y !in t by {
        forall i | 0 <= i < |t|
          ensures t[i] != y
        {
          assert t[i] == s[i];
        }
      }
      CardAddOne(Elements(t), y);
    } else {
      assert Elements(s) == {};
    }
  }

  lemma {:induction false} SubsetCard(a: set<nat>, b: set<nat>)
    requires a <= b
    ensures |a| <= |b|
    decreases |a|
  {
    if a != {} {
      var x :| x in a;
      SubsetCard(a - {x}, b - {x});
    }
  }

  lemma {:induction false} LocatedIdsCard(ppis: seq<Ppi>, m: nat)
    requires m <= |ppis|
    ensures |set i | 0 <= i < m :: ppis[i].id| <= m
  {
    if m > 0 {
      LocatedIdsCard(ppis, m - 1);
      assert (set i | 0 <= i < m :: ppis[i].id) == (set i | 0 <= i < m - 1 :: ppis[i].id) + {ppis[m - 1].id};
    }
  }

  /**
   * What the handled table keeps across calls: no instance twice, and only
   * instances PeiServicesLocatePpi finds. Since those are located at indices
   * below MAX_ATA_PASSTHRU_PPI, a located instance not yet in the table
   * leaves room for one more, so the table never overflows.
   */
  predicate TableFits(h: seq<nat>, ppis: seq<Ppi>)
  {
    Distinct(h) && Elements(h) <= LocatedIds(ppis)
  }

  lemma {:induction false} TableHasRoom(ppis: seq<Ppi>, h: seq<nat>, x: nat)
    requires TableFits(h, ppis)
    requires x in LocatedIds(ppis) && x !in h
    ensures |h| < MAX_ATA_PASSTHRU_PPI
  {
    DistinctCard(h);
    CardAddOne(Elements(h), x);
    SubsetCard(Elements(h) + {x}, LocatedIds(ppis));
    LocatedIdsCard(ppis, Located(ppis));
  }

  /** One device: its record searched for in the restored buffer, then the calls for it. */
  method ServeDevice(ppi: nat, buf: seq<byte>, dev: AtaDevice, path: seq<byte>) returns (cmds: seq<Command>)
    requires |path| > END_NODE_SIZE
    ensures cmds == DeviceCommands(ppi, buf, dev.port, dev.portMultiplierPort, path)
  {
    var found := FindDeviceInfo(buf, dev.port, dev.portMultiplierPort, path);
    cmds := [];
    if found.Some? {
      var password := RecordPassword(buf, found.value);
      if !AllZero(password) {
        cmds := [Unlock(ppi, dev.port, dev.portMultiplierPort, 0, password)];
      }
      cmds := cmds + [FreezeLock(ppi, dev.port, dev.portMultiplierPort)];
      assert SavedPassword(buf, dev.port, dev.portMultiplierPort, path) == Some(password);
    } else {
      assert SavedPassword(buf, dev.port, dev.portMultiplierPort, path) == None;
    }
  }

  /** One new instance: its devices, each searched in the restored records and served. */
  method ServePpi(p: Ppi, buf: seq<byte>) returns (cmds: seq<Command>)
    ensures cmds == PpiCommands(p, buf)
  {
    if IsError(p.pathStatus) || |p.devicePath| <= END_NODE_SIZE {
      return [];
    }
    cmds := [];
    for n := 0 to |p.devices|
      invariant cmds == DevicesCommands(p.id, buf, p.devicePath, p.devices, n)
    {
      var more := ServeDevice(p.id, buf, p.devices[n], p.devicePath);
      DevicesCommandsNext(p.id, buf, p.devicePath, p.devices, n);
      cmds := cmds + more;
    }
  }

  /** The driver's private data: the pass-through PPI instances handled so far. */
  class HddPasswordPrivate {
    var instanceNum: nat
    const instances: array<nat>

    ghost predicate Valid()
      reads this
    {
      instances.Length == MAX_ATA_PASSTHRU_PPI && instanceNum <= MAX_ATA_PASSTHRU_PPI
    }

    /** AtaPassThruPpiInstances [0 .. AtaPassThruPpiInstanceNum). */
    function Handled(): seq<nat>
      reads this, instances
      requires Valid()
    {
      instances[..instanceNum]
    }

    /** The template: no instance handled. */
    constructor ()
      ensures Valid() && Handled() == []
    {
      instanceNum := 0;
      instances := new nat[MAX_ATA_PASSTHRU_PPI](_ => 0);
    }

    /** IsPassThruInstanceHandled: whether the instance is among the first AtaPassThruPpiInstanceNum entries. */
    method IsPassThruInstanceHandled(ppi: nat) returns (r: bool)
      requires Valid()
      ensures r <==> ppi in Handled()
    {
      for index := 0 to instanceNum
        invariant ppi !in instances[..index]
      {
        if ppi == instances[index] {
          assert instances[..instanceNum][index] == ppi;
          return true;
        }
        assert instances[..index + 1] == instances[..index] + [instances[index]];
      }
      assert instances[..instanceNum] == Handled();
      return false;
    }

    /** A handled instance is skipped; a new one is stored at AtaPassThruPpiInstanceNum, which grows by one. */
    method HandleInstance(ppi: nat) returns (isNew: bool)
      requires Valid() && (instanceNum < MAX_ATA_PASSTHRU_PPI || ppi in Handled())
      modifies this`instanceNum, instances
      ensures Valid()
      ensures isNew <==> ppi !in old(Handled())
      ensures Handled() == if isNew then old(Handled()) + [ppi] else old(Handled())
    {
      var handled := IsPassThruInstanceHandled(ppi);
      if handled {
        return false;
      }
      instances[instanceNum] := ppi;
      instanceNum := instanceNum + 1;
      assert instances[..instanceNum] == old(instances[..instanceNum]) + [ppi];
      return true;
    }

    /**
     * One pass of the instance loop on the instance located at index `k`:
     * skipped when already handled, otherwise recorded and served.
     */
    method VisitPpi(ppis: seq<Ppi>, k: nat, buf: seq<byte>) returns (cmds: seq<Command>)
      requires k < Located(ppis) && Valid()
      requires TableFits(Handled(), ppis)
      modifies this`instanceNum, instances
      ensures Valid() && TableFits(Handled(), ppis)
      ensures ppis[k].id in old(Handled()) ==> cmds == [] && Handled() == old(Handled())
      ensures ppis[k].id !in old(Handled()) ==>
                cmds == PpiCommands(ppis[k], buf) && Handled() == old(Handled()) + [ppis[k].id]
    {
      var p := ppis[k];
      assert p.id in LocatedIds(ppis);
      if p.id !in Handled() {
        TableHasRoom(ppis, Handled(), p.id);
      }
      ghost var before := Handled();
      var isNew := HandleInstance(p.id);
      if !isNew {
        return [];
      }
      assert Elements(Handled()) == Elements(before) + {p.id};
      assert Distinct(Handled()) by {
        forall i, j | 0 <= i < j < |Handled()|
          ensures Handled()[i] != Handled()[j]
        {
          if j < |before| {
            assert Handled()[i] == before[i] && Handled()[j] == before[j];
          } else {
            assert Handled()[i] == before[i] && before[i] in before;
          }
        }
      }
      cmds := ServePpi(p, buf);
    }

    /** The instance loop of UnlockHddPassword over the restored records `buf`. */
    method ServeInstances(ppis: seq<Ppi>, buf: seq<byte>) returns (cmds: seq<Command>)
      requires Valid() && TableFits(Handled(), ppis)
      modifies this`instanceNum, instances
      ensures Valid() && Distinct(Handled())
      ensures cmds == RunUpTo(ppis, buf, Located(ppis), old(Handled())).0
      ensures Handled() == RunUpTo(ppis, buf, Located(ppis), old(Handled())).1
    {
      ghost var h0 := Handled();
      cmds := [];
      var k := 0;
      while k < MAX_ATA_PASSTHRU_PPI
        invariant k <= Located(ppis) && Valid()
        invariant TableFits(Handled(), ppis)
        invariant cmds == RunUpTo(ppis, buf, k, h0).0 && Handled() == RunUpTo(ppis, buf, k, h0).1
      {
        if k >= |ppis| {
          break;
        }
        ghost var before := Handled();
        var more := VisitPpi(ppis, k, buf);
        RunUpToNext(ppis, buf, k, h0, cmds, before, more, Handled());
        cmds := cmds + more;
        k := k + 1;
      }
      assert k == Located(ppis);
    }

    /**
     * UnlockHddPassword. The LockBox is an input: `firstRestore` is what
     * RestoreLockBox returns into a one-byte buffer, `allocOk` whether
     * AllocatePages succeeds, `secondRestore` what the full RestoreLockBox
     * returns and `stored` the bytes it restores. `ppis` are the instances
     * PeiServicesLocatePpi finds at indices 0, 1, ... On the path that walks
     * the records, `buffer` is the restored buffer as left before it is freed.
     */
    method UnlockHddPassword(firstRestore: Status, allocOk: bool, secondRestore: Status, stored: seq<byte>,
                             ppis: seq<Ppi>)
      returns (cmds: seq<Command>, buffer: array?<byte>)
      requires Valid() && TableFits(Handled(), ppis)
      modifies this`instanceNum, instances
      ensures Valid() && Distinct(Handled())
      ensures firstRestore != BufferTooSmall || !allocOk || IsError(secondRestore) ==>
                cmds == [] && buffer == null && Handled() == old(Handled())
      ensures firstRestore == BufferTooSmall && allocOk && !IsError(secondRestore) ==>
                && cmds == RunUpTo(ppis, stored, Located(ppis), old(Handled())).0
                && Handled() == RunUpTo(ppis, stored, Located(ppis), old(Handled())).1
                && buffer != null && fresh(buffer) && buffer[..] == Zeros(|stored|)
    {
      if firstRestore != BufferTooSmall || !allocOk || IsError(secondRestore) {
        return [], null;
      }
      buffer := AllocateCopyPool(stored, 0, |stored|);
      assert buffer[..] == stored;
      cmds := ServeInstances(ppis, buffer[..]);
      ZeroMem(buffer, 0, buffer.Length);
      assert buffer[..] == Zeros(|stored|);
    }
  }
}

/**
  Packets between the controller and the device: the 12-byte CPU header on the stream channel and
  the 8-byte device header on the UDP socket.
 */
module Hostpath {
  import opened Prelude

  type uint16 = w: int | 0 <= w < 65536

  /** Network byte order. */
  function Net16(w: uint16): seq<byte> {
    [w / 256, w % 256]
  }

  function Host16(a: byte, b: byte): uint16 {
    a * 256 + b
  }

  // ----- What each stage computes -----

  const CPU_HEADER_SIZE := 12
  const HEADER_SIZE := 8
  const RECEIVE_BUFFER := 2000

  function CpuHeader(port: uint16): (h: seq<byte>)
    ensures |h| == CPU_HEADER_SIZE
  {
    [0, 0, 0, 0, 0, 0, 0, 0, 0, 0] + Net16(port)
  }

  predicate HasCpuHeader(p: seq<byte>) {
    |p| > CPU_HEADER_SIZE && forall i :: 0 <= i < 8 ==> p[i] == 0
  }

  /** The port and the frame behind a CPU header; nothing if the packet is malformed. */
  function Decapsulated(p: seq<byte>): Option<(uint16, seq<byte>)> {
    if HasCpuHeader(p) then Some((Host16(p[10], p[11]), p[CPU_HEADER_SIZE..])) else None
  }

  /** Version 0, direction transmit, reserved bits zero, length, sandbox, port. */
  function DeviceHeader(total: uint16, sandbox: uint16, port: uint16): (h: seq<byte>)
    ensures |h| == HEADER_SIZE
  {
    [8, 0] + Net16(total) + Net16(sandbox) + Net16(port)
  }

  /** What is sent to the device for a packet-out payload. */
  function Injected(payload: seq<byte>): Option<seq<byte>>
    requires |payload| <= CPU_HEADER_SIZE + 65535 - HEADER_SIZE
  {
    match Decapsulated(payload)
    case Some((port, frame)) => Some(DeviceHeader(HEADER_SIZE + |frame|, 0, port) + frame)
    case None => None
  }

  /** What fits the receive buffer. */
  function Received(datagram: seq<byte>): seq<byte> {
    if |datagram| <= RECEIVE_BUFFER then datagram else datagram[..RECEIVE_BUFFER]
  }

  /** The packet-in payload made from a datagram. */
  function Punted(datagram: seq<byte>): Option<seq<byte>> {
    var buf := Received(datagram);
    if |buf| <= HEADER_SIZE then None else Some(CpuHeader(Host16(buf[6], buf[7])) + buf[HEADER_SIZE..])
  }

  // ----- The device packet -----

  datatype PacketDir = Receive | Transmit
  datatype PacketType = L2 | L3

  class DeviceHPPacket {
    var totalLength: uint16
    var sandboxId: uint16
    var portIndex: uint16
    var pktDir: PacketDir
    var innerPktType: PacketType
    var buffer: array<byte>

    ghost predicate Valid()
      reads this
    {
      buffer.Length == totalLength >= HEADER_SIZE
    }

    /** `createTransmit`: the buffer holds the serialized header and zeros. */
    constructor CreateTransmit(dataSize: uint16, sandbox: uint16, port: uint16, packetType: PacketType)
      requires dataSize <= 65535 - HEADER_SIZE
      ensures Valid() && fresh(buffer) && totalLength == HEADER_SIZE + dataSize
      ensures sandboxId == sandbox && portIndex == port && pktDir == Transmit && innerPktType == packetType
      ensures buffer[..HEADER_SIZE] == DeviceHeader(HEADER_SIZE + dataSize, sandbox, port)
      ensures forall i :: HEADER_SIZE <= i < buffer.Length ==> buffer[i] == 0
    {
      sandboxId, portIndex, pktDir, innerPktType := sandbox, port, Transmit, packetType;
      totalLength := HEADER_SIZE + dataSize;
      buffer := new byte[HEADER_SIZE + dataSize](_ => 0);
      new;
      HeaderSerialize();
    }

    /** `createReceive`: an empty buffer for a header and `dataSize` bytes. */
    constructor CreateReceive(dataSize: uint16)
      requires dataSize <= 65535 - HEADER_SIZE
      ensures Valid() && fresh(buffer) && totalLength == HEADER_SIZE + dataSize
    {
      sandboxId, portIndex, pktDir, innerPktType := 0, 0, Receive, L2;
      totalLength := HEADER_SIZE + dataSize;
      buffer := new byte[HEADER_SIZE + dataSize](_ => 0);
    }

    /** The version nibble and the direction bit are masked into byte 0, keeping its other bits. */
    method HeaderSerialize()
      requires Valid()
      modifies buffer
      ensures buffer[..HEADER_SIZE] == [old(buffer[0]) % 8 + 8, 0] + Net16(totalLength) + Net16(sandboxId) + Net16(portIndex)
      ensures forall i :: HEADER_SIZE <= i < buffer.Length ==> buffer[i] == old(buffer[i])
    {
      var version, direction := 0, 1;
      var first: int := buffer[0] % 16;
      first := first + version * 16;
      first := first - first / 8 % 2 * 8;
      first := first + direction % 2 * 8;
      buffer[0] := first;
      buffer[1] := 0;
      buffer[2], buffer[3] := totalLength / 256, totalLength % 256;
      buffer[4], buffer[5] := sandboxId / 256, sandboxId % 256;
      buffer[6], buffer[7] := portIndex / 256, portIndex % 256;
    }

    /** The length field is read but not used: the packet keeps the size it was received with. */
    method HeaderParse()
      requires Valid()
      modifies this`sandboxId, this`portIndex, this`pktDir, this`innerPktType
      ensures sandboxId == Host16(buffer[4], buffer[5]) && portIndex == Host16(buffer[6], buffer[7])
      ensures pktDir == (if buffer[0] / 8 % 2 == 0 then Receive else Transmit) && innerPktType == L2
    {
      var direction := buffer[0] / 8 % 2;
      sandboxId := Host16(buffer[4], buffer[5]);
      portIndex := Host16(buffer[6], buffer[7]);
      pktDir := if direction == 0 then Receive else Transmit;
      innerPktType := L2;
    }
  }

  // ----- The agent -----

  /** `injectL2Packet`: the datagram handed to the socket. */
  method InjectL2Packet(sandbox: uint16, port: uint16, frame: seq<byte>) returns (datagram: seq<byte>)
    requires |frame| <= 65535 - HEADER_SIZE
    ensures datagram == DeviceHeader(HEADER_SIZE + |frame|, sandbox, port) + frame
  {
    var pkt := new DeviceHPPacket.CreateTransmit(|frame|, sandbox, port, L2);
    CopyInto(pkt.buffer, HEADER_SIZE, frame);
    assert pkt.buffer[..HEADER_SIZE] == DeviceHeader(HEADER_SIZE + |frame|, sandbox, port);
    assert pkt.buffer[HEADER_SIZE..] == frame;
    datagram := pkt.buffer[..];
  }

  method SendPacketOut(payload: seq<byte>) returns (datagram: Option<seq<byte>>)
    requires |payload| <= CPU_HEADER_SIZE + 65535 - HEADER_SIZE
    ensures datagram == Injected(payload)
  {
    if |payload| <= CPU_HEADER_SIZE || exists i :: 0 <= i < 8 && payload[i] != 0 {
      return None;
    }
    var port := Host16(payload[10], payload[11]);
    var d := InjectL2Packet(0, port, payload[CPU_HEADER_SIZE..]);
    return Some(d);
  }

  /** One datagram from the device, up to the packet-in payload; empty and short ones are dropped. */
  method HandlePacketFromDevice(datagram: seq<byte>) returns (payload: Option<seq<byte>>)
    ensures payload == Punted(datagram)
  {
    var buf := Received(datagram);
    if |buf| == 0 {
      return None;
    } else if |buf| <= HEADER_SIZE {
      return None;
    }
    var pkt := new DeviceHPPacket.CreateReceive(|buf| - HEADER_SIZE);
    CopyInto(pkt.buffer, 0, buf);
    assert pkt.buffer[..] == buf;
    pkt.HeaderParse();
    assert pkt.buffer[6] == buf[6] && pkt.buffer[7] == buf[7];
    var p := CpuHeader(pkt.portIndex) + pkt.buffer[HEADER_SIZE..];
    assert pkt.buffer[HEADER_SIZE..] == buf[HEADER_SIZE..];
    return Some(p);
  }

  // ----- The controller -----

  method ControllerEncapsulate(frame: seq<byte>, egressPort: uint16) returns (payload: seq<byte>)
    ensures payload == CpuHeader(egressPort) + frame
  {
    var header := new byte[CPU_HEADER_SIZE](_ => 0);
    header[10], header[11] := egressPort / 256, egressPort % 256;
    assert header[..] == CpuHeader(egressPort);
    payload := header[..] + frame;
  }

  method ControllerDecapsulate(payload: seq<byte>) returns (r: Option<(uint16, seq<byte>)>)
    ensures r == Decapsulated(payload)
  {
    if |payload| <= CPU_HEADER_SIZE || exists i :: 0 <= i < 8 && payload[i] != 0 {
      return None;
    }
    return Some((Host16(payload[10], payload[11]), payload[CPU_HEADER_SIZE..]));
  }

  // ----- Loopback -----

  lemma NetHost(w: uint16)
    ensures Host16(Net16(w)[0], Net16(w)[1]) == w
  {
  }

  lemma EncapsulationRoundTrip(port: uint16, frame: seq<byte>)
    ensures Decapsulated(CpuHeader(port) + frame) == if frame == [] then None else Some((port, frame))
  {
    var p := CpuHeader(port) + frame;
    NetHost(port);
    assert p[CPU_HEADER_SIZE..] == frame;
  }

  /** What comes back to the controller when the device returns the datagram it was sent. */
  function Loopback(port: uint16, frame: seq<byte>): Option<(uint16, seq<byte>)>
    requires |frame| <= 65535 - HEADER_SIZE
  {
    match Injected(CpuHeader(port) + frame)
    case None => None
    case Some(datagram) =>
      match Punted(datagram)
      case None => None
      case Some(payload) => Decapsulated(payload)
  }

  /** A payload is taken as one with a CPU header exactly when a frame follows it and its first eight bytes are zero. */
  lemma WellFormedIff(payload: seq<byte>)
    ensures Decapsulated(payload).Some? <==> |payload| > 12 && payload[..8] == [0, 0, 0, 0, 0, 0, 0, 0]
  {
    if |payload| > 12 {
      assert forall i :: 0 <= i < 8 ==> payload[..8][i] == payload[i];
      if Decapsulated(payload).Some? {
        assert forall i :: 0 <= i < 8 ==> [0, 0, 0, 0, 0, 0, 0, 0][i] == 0;
      }
      if payload[..8] == [0, 0, 0, 0, 0, 0, 0, 0] {
        assert forall i :: 0 <= i < 8 ==> payload[i] == [0, 0, 0, 0, 0, 0, 0, 0][i] == 0;
      }
    }
  }

  /** A datagram is punted exactly when something follows its header. */
  lemma PuntedIff(datagram: seq<byte>)
    ensures Punted(datagram).Some? <==> |datagram| > 8
  {
  }

  /** The datagram's header survives and as much of the frame as the receive buffer holds. */
  lemma PuntedDatagram(port: uint16, frame: seq<byte>)
    requires 0 < |frame| <= 65535 - HEADER_SIZE
    ensures Punted(DeviceHeader(HEADER_SIZE + |frame|, 0, port) + frame) ==
            Some(CpuHeader(port) + if |frame| <= 1992 then frame else frame[..1992])
  {
    hide CpuHeader;
    var d := DeviceHeader(HEADER_SIZE + |frame|, 0, port) + frame;
    var buf := Received(d);
    NetHost(port);
    assert buf[6] == Net16(port)[0] && buf[7] == Net16(port)[1];
    assert buf[HEADER_SIZE..] == if |frame| <= 1992 then frame else frame[..1992];
  }

  /** The frame comes back cut to 1992 bytes; an empty frame does not come back. */
  lemma LoopbackIs(port: uint16, frame: seq<byte>)
    requires |frame| <= 65535 - HEADER_SIZE
    ensures Loopback(port, frame) ==
            if frame == [] then None else Some((port, if |frame| <= 1992 then frame else frame[..1992]))
  {
    hide CpuHeader, Decapsulated, DeviceHeader, Punted;
    EncapsulationRoundTrip(port, frame);
    if frame != [] {
      PuntedDatagram(port, frame);
      EncapsulationRoundTrip(port, if |frame| <= 1992 then frame else frame[..1992]);
    }
  }

  /** Port and frame come back unchanged exactly for frames of 1 to 1992 bytes. */
  lemma LoopbackReturnsFrame(port: uint16, frame: seq<byte>)
    requires |frame| <= 65535 - HEADER_SIZE
    ensures Loopback(port, frame) == Some((port, frame)) <==> 1 <= |frame| <= 1992
  {
    hide Loopback;
    LoopbackIs(port, frame);
  }

  // ----- The documented header layout -----

  /** A byte string as one number, most significant byte first. */
  function Number(h: seq<byte>): (n: nat) {
    if h == [] then 0 else 256 * Number(h[..|h| - 1]) + h[|h| - 1]
  }

  lemma HeaderNumber(total: uint16, sandbox: uint16, port: uint16)
    ensures Number(DeviceHeader(total, sandbox, port)) ==
            0x800_0000_0000_0000 + 0x1_0000_0000 * total + 0x1_0000 * sandbox + port
  {
    Number16([8, 0] + Net16(total) + Net16(sandbox), port);
    Number16([8, 0] + Net16(total), sandbox);
    Number16([8, 0], total);
    assert [8, 0][..1] == [8] && [8][..0] == [];
    assert Number([8, 0]) == 0x800;
  }

  lemma Number16(h: seq<byte>, w: uint16)
    ensures Number(h + Net16(w)) == 0x1_0000 * Number(h) + w
  {
    var t := h + Net16(w);
    assert t[..|t| - 1] == h + [w / 256];
    assert (h + [w / 256])[..|h|] == h;
  }

  /** The CPU header is twelve bytes that hold the port as one number, most significant byte first. */
  lemma CpuHeaderLayout(port: uint16)
    ensures |CpuHeader(port)| == 12 && Number(CpuHeader(port)) == port
  {
    var zeros: seq<byte> := [0, 0, 0, 0, 0, 0, 0, 0, 0, 0];
    Number16(zeros, port);
    ZeroNumber(zeros);
  }

  lemma {:induction false} ZeroNumber(h: seq<byte>)
    requires forall i :: 0 <= i < |h| ==> h[i] == 0
    ensures Number(h) == 0
  {
    if h == [] {
    } else {
      ZeroNumber(h[..|h| - 1]);
    }
  }

  /**
    Read as 64 bits, the header is: version (4 bits), direction (1), reserved (11), total length (16),
    sandbox index (16), port index (16).
   */
  lemma HeaderLayout(total: uint16, sandbox: uint16, port: uint16)
    ensures var n := Number(DeviceHeader(total, sandbox, port));
            n / 0x1000_0000_0000_0000 == 0 &&
            n / 0x800_0000_0000_0000 % 2 == 1 &&
            n / 0x1_0000_0000_0000 % 0x800 == 0 &&
            n / 0x1_0000_0000 % 0x1_0000 == total &&
            n / 0x1_0000 % 0x1_0000 == sandbox &&
            n % 0x1_0000 == port
  {
    HeaderNumber(total, sandbox, port);
    hide *;
    var n := Number(DeviceHeader(total, sandbox, port));
    Divide(n, 0x800_0000_0000 + 0x1_0000 * total + sandbox, port);
    Divide(n / 0x1_0000, 0x800_0000 + total, sandbox);
    assert n / 0x1_0000_0000 == n / 0x1_0000 / 0x1_0000;
  }

  lemma Divide(n: nat, q: nat, r: nat)
    requires r < 0x1_0000 && n == 0x1_0000 * q + r
    ensures n / 0x1_0000 == q && n % 0x1_0000 == r
  {
  }
}

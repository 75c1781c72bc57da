/** `ControllerConnection` and the two threads that use it, one operation at a time. */
module ControllerConnection {
  import opened Prelude
  import H = Hostpath

  datatype Response = ArbitrationReply | PacketIn(payload: seq<byte>)

  datatype Request = Arbitration | PacketOut(payload: seq<byte>) | OtherRequest

  /** The server side of one stream: what has been written to the controller. */
  class Stream {
    var written: seq<Response>
  }

  class Connection {
    var stream: Stream?

    constructor ()
      ensures stream == null
    {
      stream := null;
    }

    method SetStream(s: Stream)
      modifies this
      ensures stream == s
    {
      stream := s;
    }

    method ClearStream()
      modifies this
      ensures stream == null
    {
      stream := null;
    }

    /** Writes to the registered stream and to no other, or reports that there is none. */
    method SendPktIn(payload: seq<byte>) returns (sent: bool)
      modifies if stream == null then {} else {stream}
      ensures sent <==> stream != null
      ensures sent ==> stream.written == old(if stream == null then [] else stream.written) + [PacketIn(payload)]
    {
      sent := false;
      if stream != null {
        stream.written := stream.written + [PacketIn(payload)];
        sent := true;
      }
    }
  }

  function Replies(requests: seq<Request>): seq<Response> {
    if requests == [] then []
    else (if requests[0].Arbitration? then [ArbitrationReply] else []) + Replies(requests[1..])
  }

  /** One reply for each arbitration request, and nothing else. */
  lemma {:induction false} OneReplyEach(requests: seq<Request>)
    ensures |Replies(requests)| == multiset(requests)[Arbitration]
    ensures forall i :: 0 <= i < |Replies(requests)| ==> Replies(requests)[i] == ArbitrationReply
  {
    if requests == [] {
    } else {
      OneReplyEach(requests[1..]);
      assert requests == [requests[0]] + requests[1..];
    }
  }

  predicate Small(r: Request) {
    r.PacketOut? ==> |r.payload| <= H.CPU_HEADER_SIZE + 65535 - H.HEADER_SIZE
  }

  function Datagrams(requests: seq<Request>): seq<seq<byte>>
    requires forall i :: 0 <= i < |requests| ==> Small(requests[i])
  {
    if requests == [] then []
    else
      assert Small(requests[0]);
      var first := if requests[0].PacketOut? then H.Injected(requests[0].payload) else None;
      (if first.Some? then [first.value] else []) + Datagrams(requests[1..])
  }

  /**
    `StreamChannel` when nothing else runs: it registers the stream, answers arbitration, forwards
    well-formed packets to the device in order, and leaves no stream registered.
   */
  method StreamChannel(conn: Connection, stream: Stream, requests: seq<Request>) returns (datagrams: seq<seq<byte>>)
    requires forall i :: 0 <= i < |requests| ==> Small(requests[i])
    modifies conn, stream
    ensures conn.stream == null
    ensures stream.written == old(stream.written) + Replies(requests)
    ensures datagrams == Datagrams(requests)
  {
    hide H.Injected;
    conn.SetStream(stream);
    datagrams := [];
    for i := 0 to |requests|
      invariant conn.stream == stream
      invariant stream.written + Replies(requests[i..]) == old(stream.written) + Replies(requests)
      invariant datagrams + Datagrams(requests[i..]) == Datagrams(requests)
    {
      assert requests[i..][1..] == requests[i + 1..];
      match requests[i]
      case Arbitration =>
        stream.written := stream.written + [ArbitrationReply];
      case PacketOut(payload) =>
        var d := H.SendPacketOut(payload);
        if d.Some? {
          datagrams := datagrams + [d.value];
        }
      case OtherRequest =>
    }
    conn.ClearStream();
  }

  /** `handlePacketFromDevice` up to the result of `send_pkt_in`. */
  method PuntPacket(conn: Connection, datagram: seq<byte>) returns (sent: bool)
    modifies if conn.stream == null then {} else {conn.stream}
    ensures sent <==> H.Punted(datagram).Some? && conn.stream != null
    ensures conn.stream != null ==>
              conn.stream.written == old(if conn.stream == null then [] else conn.stream.written) +
                (if sent then [PacketIn(H.Punted(datagram).value)] else [])
  {
    hide H.Punted;
    sent := false;
    var payload := H.HandlePacketFromDevice(datagram);
    if payload.Some? {
      sent := conn.SendPktIn(payload.value);
    }
  }

  /** The datagrams of a longer stream are those of its parts, in order. */
  lemma {:induction false} DatagramsConcat(a: seq<Request>, b: seq<Request>)
    requires forall i :: 0 <= i < |a + b| ==> Small((a + b)[i])
    ensures (forall i :: 0 <= i < |a| ==> Small(a[i])) && (forall i :: 0 <= i < |b| ==> Small(b[i]))
    ensures Datagrams(a + b) == Datagrams(a) + Datagrams(b)
    decreases |a|
  {
    hide H.Injected, Small;
    assert forall i :: 0 <= i < |a| ==> (a + b)[i] == a[i];
    assert forall i :: 0 <= i < |b| ==> (a + b)[|a| + i] == b[i];
    if a == [] {
      assert a + b == b;
    } else {
      assert (a + b)[1..] == a[1..] + b;
      DatagramsConcat(a[1..], b);
    }
  }

  /** A packet-out request of the controller becomes one datagram: the device header and the frame. */
  lemma DatagramOf(port: H.uint16, frame: seq<byte>)
    requires |frame| <= 65535 - H.HEADER_SIZE
    ensures var r := PacketOut(H.CpuHeader(port) + frame);
            Small(r) && Datagrams([r]) == if frame == [] then [] else [H.DeviceHeader(H.HEADER_SIZE + |frame|, 0, port) + frame]
  {
    var r := PacketOut(H.CpuHeader(port) + frame);
    H.EncapsulationRoundTrip(port, frame);
    hide H.CpuHeader, H.DeviceHeader, H.Decapsulated;
    assert [r][1..] == [];
  }

  lemma NoDatagramOf(r: Request)
    requires !r.PacketOut?
    ensures Datagrams([r]) == []
  {
    assert [r][1..] == [];
  }
}

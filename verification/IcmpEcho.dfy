/** The echo reply that `ControllerICMPEcho` builds in a copy of the request. */
module IcmpEcho {
  import opened Prelude
  import opened Checksum

  // Offsets in the punted packet: CPU header, Ethernet header, 20-byte IP header, ICMP message.
  const ETHERNET := 12
  const IP := 26
  const ICMP := 46
  const MIN_LENGTH := 54

  /** Five bytes are cut off the end of the punted packet when it has more than five. */
  function Trimmed(p: seq<byte>): seq<byte> {
    if |p| > 5 then p[..|p| - 5] else p
  }

  /** The code's test: it refuses only when neither the protocol nor the type is that of an echo request. */
  predicate Accepted(p: seq<byte>) {
    Framed(p) && (p[IP + 9] == 1 || p[ICMP] == 8)
  }

  /** Long enough, and with the first eight bytes of the CPU header zero. */
  predicate Framed(p: seq<byte>) {
    |p| >= MIN_LENGTH && forall i :: 0 <= i < 8 ==> p[i] == 0
  }

  /** Protocol ICMP and type echo request. */
  predicate IsEchoRequest(p: seq<byte>) {
    Framed(p) && p[IP + 9] == 1 && p[ICMP] == 8
  }

  /** The replies go to echo requests only, exactly when protocol and type are both right or both wrong. */
  lemma AnswersEchoIff(p: seq<byte>)
    requires Framed(p)
    ensures (Accepted(p) ==> IsEchoRequest(p)) <==> (p[IP + 9] == 1 <==> p[ICMP] == 8)
    ensures IsEchoRequest(p) ==> Accepted(p)
  {
  }

  /** So a UDP packet with the byte 8 behind its IP header is answered. */
  lemma UdpIsAnswered()
    ensures var p: seq<byte> := seq(MIN_LENGTH, i => if i == IP + 9 then 17 else if i == ICMP then 8 else 0);
            Accepted(p) && !IsEchoRequest(p)
  {
  }

  /** The reply to `p`: addresses swapped on both layers, type and code cleared, both checksums right. */
  ghost predicate IsReply(o: Order, p: seq<byte>, q: seq<byte>)
    requires |p| >= MIN_LENGTH
  {
    |q| == |p|
    && q[..ETHERNET] == p[..ETHERNET]
    && q[ETHERNET..ETHERNET + 6] == p[ETHERNET + 6..ETHERNET + 12]
    && q[ETHERNET + 6..ETHERNET + 12] == p[ETHERNET..ETHERNET + 6]
    && q[ETHERNET + 12..IP + 10] == p[ETHERNET + 12..IP + 10]
    && q[IP + 12..IP + 16] == p[IP + 16..ICMP]
    && q[IP + 16..ICMP] == p[IP + 12..IP + 16]
    && q[ICMP] == 0 && q[ICMP + 1] == 0 && q[ICMP + 4..] == p[ICMP + 4..]
    && Sum(o, q[IP..ICMP]) == 0
    && Sum(o, q[ICMP..]) == 0
  }

  /** Clears the 16-bit field at `field`, sums `[from, to)` and stores the result in the field. */
  method FillChecksum(o: Order, pkt: array<byte>, from: nat, to: nat, field: nat)
    requires from + 1 <= field + 1 < to <= pkt.Length && (field - from) % 2 == 0 && to - from <= 65536
    modifies pkt
    ensures Sum(o, pkt[from..to]) == 0
    ensures forall i :: 0 <= i < pkt.Length && i != field && i != field + 1 ==> pkt[i] == old(pkt[i])
  {
    hide Sum, Store;
    pkt[field], pkt[field + 1] := 0, 0;
    ghost var zeroed: seq<byte> := pkt[from..to];
    var c := Csum(o, pkt[from..to]);
    FilledFieldVerifies(o, zeroed, field - from);
    var (a, b) := Store(o, c);
    pkt[field], pkt[field + 1] := a, b;
    ghost var filled: seq<byte> := zeroed[field - from := a];
    assert pkt[from..to] == filled[field - from + 1 := b];
  }

  method EchoReply(o: Order, received: seq<byte>) returns (reply: Option<seq<byte>>)
    requires |Trimmed(received)| - ICMP <= 65536
    ensures reply.Some? <==> Accepted(Trimmed(received))
    ensures reply.Some? ==> |reply.value| + 5 == |received| && IsReply(o, received[..|received| - 5], reply.value)
  {
    hide Sum;
    var p := Trimmed(received);
    if |p| < MIN_LENGTH || exists i :: 0 <= i < 8 && p[i] != 0 {
      return None;
    }
    if p[IP + 9] != 1 && p[ICMP] != 8 {
      return None;
    }
    var send := new byte[|p|](i requires 0 <= i < |p| => p[i]);
    CopyInto(send, ETHERNET, p[ETHERNET + 6..ETHERNET + 12]);
    CopyInto(send, ETHERNET + 6, p[ETHERNET..ETHERNET + 6]);
    CopyInto(send, IP + 16, p[IP + 12..IP + 16]);
    CopyInto(send, IP + 12, p[IP + 16..ICMP]);
    FillChecksum(o, send, IP, ICMP, IP + 10);
    ghost var header := send[IP..ICMP];
    send[ICMP], send[ICMP + 1] := 0, 0;
    FillChecksum(o, send, ICMP, send.Length, ICMP + 2);
    assert send[IP..ICMP] == header;
    assert send[ICMP..] == send[ICMP..send.Length];
    ReplyParts(o, p, send[..]);
    return Some(send[..]);
  }

  predicate InChecksumField(i: int) {
    i == IP + 10 || i == IP + 11 || i == ICMP + 2 || i == ICMP + 3
  }

  function ReplyByte(p: seq<byte>, i: nat): byte
    requires i < |p| && MIN_LENGTH <= |p|
  {
    if ETHERNET <= i < ETHERNET + 6 then p[i + 6]
    else if ETHERNET + 6 <= i < ETHERNET + 12 then p[i - 6]
    else if IP + 12 <= i < IP + 16 then p[i + 4]
    else if IP + 16 <= i < ICMP then p[i - 4]
    else if ICMP <= i < ICMP + 2 then 0
    else p[i]
  }

  lemma ReplyParts(o: Order, p: seq<byte>, q: seq<byte>)
    requires |q| == |p| >= MIN_LENGTH
    requires forall i :: 0 <= i < |p| && !InChecksumField(i) ==> q[i] == ReplyByte(p, i)
    requires Sum(o, q[IP..ICMP]) == 0 && Sum(o, q[ICMP..]) == 0
    ensures IsReply(o, p, q)
  {
    hide Sum;
  }

  // ----- Why the old header sum could have been kept -----

  lemma {:induction false} WordsConcat(a: seq<byte>, b: seq<byte>)
    requires |a| % 2 == 0
    ensures Words(a + b) == Words(a) + Words(b)
    decreases |a|
  {
    if a == [] {
      assert a + b == b;
    } else {
      WordsConcat(a[2..], b);
      assert (a + b)[2..] == a[2..] + b;
    }
  }

  /** Swapping the two addresses of a header leaves its checksum alone. */
  lemma AddressSwapKeepsSum(o: Order, rest: seq<byte>, source: seq<byte>, dest: seq<byte>)
    requires |rest| % 2 == 0 && |source| == 4 && |dest| == 4
    ensures Sum(o, rest + (source + dest)) == Sum(o, rest + (dest + source))
  {
    hide Words, Sum;
    WordsConcat(rest, source + dest);
    WordsConcat(source, dest);
    WordsConcat(rest, dest + source);
    WordsConcat(dest, source);
    PermutedWords(o, rest + (source + dest), rest + (dest + source));
  }
}

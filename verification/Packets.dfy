// Packets between nodes and gateway (packets.h) and the sender that cuts a
// message into them (test_mode.c). A byte of payload is a char.
module Packets {
  import opened Memory

  const PAYLOAD_SIZE := 80
  const PROTO_VER := 1

  type uint8 = n: int | 0 <= n < 0x100
  type uint32 = n: int | 0 <= n < 0x1_0000_0000
  type uint64 = n: int | 0 <= n < 0x1_0000_0000_0000_0000

  datatype RawPacket = RawPacket(
    version: uint8, reqAck: bool, isAck: bool, packetId: uint8,
    totalSize: uint32, offset: uint32, dataSize: uint8, data: string)

  // The payload array always has its full length, whatever dataSize says.
  type Packet = p: RawPacket | |p.data| == PAYLOAD_SIZE
    witness RawPacket(0, false, false, 0, 0, 0, 0, Zeroed(PAYLOAD_SIZE))

  const ZERO_PACKET: Packet := RawPacket(0, false, false, 0, 0, 0, 0, Zeroed(PAYLOAD_SIZE))

  // What a packet must satisfy for its bytes to lie inside its message.
  predicate InRange(p: Packet) {
    p.dataSize <= PAYLOAD_SIZE && p.offset + p.dataSize <= p.totalSize
  }

  // The sum is a 32-bit one, as in the source.
  predicate IsLast(p: Packet) {
    p.totalSize == (p.offset + p.dataSize) % 0x1_0000_0000
  }

  function Padded(s: string): (r: string)
    requires |s| <= PAYLOAD_SIZE
    ensures |r| == PAYLOAD_SIZE && r[..|s|] == s
    ensures forall i | |s| <= i < |r| :: r[i] == '\0'
  {
    s + Zeroed(PAYLOAD_SIZE - |s|)
  }

  // Messages whose size and offsets fit the int variables of the sender.
  predicate Sendable(message: string) {
    0 < |message| < 0x8000_0000
  }

  function FragmentCount(message: string): nat {
    |message| / PAYLOAD_SIZE + 1
  }

  function FragmentSize(message: string, j: nat): (n: nat)
    requires j < FragmentCount(message)
    ensures n <= PAYLOAD_SIZE
    ensures PAYLOAD_SIZE * j + n <= |message|
  {
    if j == |message| / PAYLOAD_SIZE then |message| % PAYLOAD_SIZE else PAYLOAD_SIZE
  }

  // The index of the fragment that carries the last byte of the message. When
  // the length is a multiple of PAYLOAD_SIZE one more, empty, fragment follows.
  function LastIndex(message: string): nat
    requires 0 < |message|
  {
    (|message| - 1) / PAYLOAD_SIZE
  }

  function Fragment(message: string, id: uint8, j: nat): (p: Packet)
    requires Sendable(message) && j < FragmentCount(message)
    ensures InRange(p)
  {
    var n := FragmentSize(message, j);
    RawPacket(PROTO_VER, false, false, id, |message|, PAYLOAD_SIZE * j, n,
              Padded(message[PAYLOAD_SIZE * j..PAYLOAD_SIZE * j + n]))
  }

  function Fragments(message: string, id: uint8): seq<Packet>
    requires Sendable(message)
  {
    seq(FragmentCount(message), j requires 0 <= j < FragmentCount(message) => Fragment(message, id, j))
  }

  // send_packet: fills a zeroed packet from the message at the given offset.
  method SendPacket(message: string, dataSize: nat, id: uint8, totalSize: nat, offset: nat)
    returns (p: Packet)
    requires dataSize <= PAYLOAD_SIZE && offset + dataSize <= |message|
    requires totalSize < 0x8000_0000 && offset < 0x8000_0000
    ensures p == RawPacket(PROTO_VER, false, false, id, totalSize, offset, dataSize,
                           Padded(message[offset..offset + dataSize]))
  {
    var data := new char[PAYLOAD_SIZE](_ => '\0');
    for i := 0 to dataSize
      invariant data[..i] == message[offset..offset + i]
      invariant forall k | i <= k < PAYLOAD_SIZE :: data[k] == '\0'
    {
      data[i] := message[offset + i];
    }
    assert data[..] == Padded(message[offset..offset + dataSize]);
    p := RawPacket(PROTO_VER, false, false, id, totalSize, offset, dataSize, data[..]);
  }

  // send_message: the C string str is sent with its terminating NUL.
  method SendMessage(str: string, id: uint8) returns (packets: seq<Packet>)
    requires Sendable(str + "\0")
    ensures packets == Fragments(str + "\0", id)
  {
    var message := str + "\0";
    var totalSize := |str| + 1;
    var totFrags := totalSize / PAYLOAD_SIZE;
    packets := [];
    for fragNo := 0 to totFrags + 1
      invariant packets == Fragments(message, id)[..fragNo]
    {
      var pktSize := if fragNo == totFrags then totalSize % PAYLOAD_SIZE else PAYLOAD_SIZE;
      var p := SendPacket(message, pktSize, id, totalSize, fragNo * PAYLOAD_SIZE);
      assert p == Fragment(message, id, fragNo);
      packets := packets + [p];
    }
  }

  function Reassembled(packets: seq<Packet>): string
    requires forall p | p in packets :: p.dataSize <= PAYLOAD_SIZE
  {
    if packets == [] then ""
    else
      var p := packets[|packets| - 1];
      Reassembled(packets[..|packets| - 1]) + p.data[..p.dataSize]
  }

  lemma FragmentBytes(message: string, id: uint8, k: nat, n: nat)
    requires Sendable(message) && n == k + 1 <= FragmentCount(message)
    ensures var p := Fragment(message, id, k);
      SentBytes(message, k) <= SentBytes(message, n)
      && p.data[..p.dataSize] == message[SentBytes(message, k)..SentBytes(message, n)]
  {
  }

  lemma ReassembledNext(packets: seq<Packet>, k: nat, n: nat)
    requires n == k + 1 <= |packets| && forall p | p in packets :: p.dataSize <= PAYLOAD_SIZE
    ensures Reassembled(packets[..n]) == Reassembled(packets[..k]) + packets[k].data[..packets[k].dataSize]
  {
    assert packets[..n][..k] == packets[..k];
  }

  lemma ReassembledFragments(message: string, id: uint8, k: nat, n: nat)
    requires Sendable(message) && n == k + 1 <= FragmentCount(message)
    requires Reassembled(Fragments(message, id)[..k]) == message[..SentBytes(message, k)]
    ensures Reassembled(Fragments(message, id)[..n]) == message[..SentBytes(message, n)]
  {
    ReassembledNext(Fragments(message, id), k, n);
    FragmentBytes(message, id, k, n);
    var from, to := SentBytes(message, k), SentBytes(message, n);
    assert message[..from] + message[from..to] == message[..to];
  }

  // The payloads of the fragments, in sending order, are the message.
  lemma {:induction false} FragmentsConcatenate(message: string, id: uint8, n: nat)
    requires Sendable(message) && n <= FragmentCount(message)
    ensures Reassembled(Fragments(message, id)[..n]) == message[..SentBytes(message, n)]
    ensures SentBytes(message, FragmentCount(message)) == |message|
  {
    if n > 0 {
      var k: nat := n - 1;
      FragmentsConcatenate(message, id, k);
      ReassembledFragments(message, id, k, n);
    }
  }

  function SentBytes(message: string, n: nat): (r: nat)
    requires n <= FragmentCount(message)
    ensures r <= |message|
  {
    if n == FragmentCount(message) then |message| else PAYLOAD_SIZE * n
  }
}

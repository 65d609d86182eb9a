// Records on the Unix socket between transceiver and messenger (libipc.h):
// three producers with their own size formulas, and the readers that take the
// header first and then as many bytes as it announces.
module Ipc {
  import opened Memory
  import opened Packets
  import opened CStrings

  const BUFFER_SIZE := 20 * 1024

  const NODELIST_ID := 0
  const MESSAGE_ID := 1

  // Struct sizes with the alignment of a 64-bit machine.
  const HEADER_SIZE := 8
  const NODELIST_SIZE := 24
  const MESSAGE_SIZE := 88
  const SOURCE_SIZE := 64
  const DATA_OFFSET := 84

  // ----- little-endian integers -----

  function Bytes(n: nat, k: nat): (s: string)
    ensures |s| == k
  {
    if k == 0 then "" else [(n % 256) as char] + Bytes(n / 256, k - 1)
  }

  function Number(s: string): nat {
    if s == "" then 0 else s[0] as nat + 256 * Number(s[1..])
  }

  function Limit(k: nat): nat {
    if k == 0 then 1 else 256 * Limit(k - 1)
  }

  lemma {:induction false} NumberOfBytes(n: nat, k: nat)
    requires n < Limit(k)
    ensures Number(Bytes(n, k)) == n
  {
    if k > 0 {
      NumberOfBytes(n / 256, k - 1);
      assert Bytes(n, k)[1..] == Bytes(n / 256, k - 1);
    }
  }

  lemma Limits()
    ensures Limit(2) == 0x1_0000 && Limit(4) == 0x1_0000_0000 && Limit(8) == 0x1_0000_0000_0000_0000
  {
    assert Limit(3) == 0x100_0000;
    assert Limit(6) == 0x1_0000_0000_0000;
  }

  // A 32-bit field.
  function Word(s: string): uint32 {
    Number(s) % 0x1_0000_0000
  }

  // ----- one record on the wire -----

  datatype Raw = Raw(id: uint32, payload: string)

  // What the readers have room for.
  predicate FitsBuffer(r: Raw) {
    HEADER_SIZE + |r.payload| <= BUFFER_SIZE
  }

  function Wire(r: Raw): string {
    Bytes(r.id, 4) + Bytes(|r.payload|, 4) + r.payload
  }

  datatype Received = Stalled | TooBig | Got(raw: Raw, rest: string)

  // Header, check against the buffer, payload.
  function Take(s: string): Received {
    if |s| < HEADER_SIZE then Stalled
    else
      var size := Word(s[4..8]);
      if size + HEADER_SIZE > BUFFER_SIZE then TooBig
      else if |s| < HEADER_SIZE + size then Stalled
      else Got(Raw(Word(s[..4]), s[8..8 + size]), s[8 + size..])
  }

  lemma TakeWire(r: Raw, rest: string)
    requires FitsBuffer(r)
    ensures Take(Wire(r) + rest) == Got(r, rest)
  {
    WordOfBytes(r.id);
    WordOfBytes(|r.payload|);
    FourParts(Bytes(r.id, 4), Bytes(|r.payload|, 4), r.payload, rest);
  }

  lemma WordOfBytes(n: uint32)
    ensures Word(Bytes(n, 4)) == n
  {
    Limits();
    NumberOfBytes(n, 4);
  }

  lemma FourParts(a: string, b: string, c: string, d: string)
    requires |a| == 4 && |b| == 4
    ensures var s := a + b + c + d;
      s[..4] == a && s[4..8] == b && s[8..8 + |c|] == c && s[8 + |c|..] == d
  {
  }

  // ----- the three producers -----

  datatype Record =
    | NodeList(padding: string, nodes: seq<uint64>)
    | ToNode(uid: string, data: string)
    | FromNode(source: string, time: uint64, data: string)

  function NodeBytes(nodes: seq<uint64>): (s: string)
    ensures |s| == 8 * |nodes|
  {
    if nodes == [] then "" else Bytes(nodes[0], 8) + NodeBytes(nodes[1..])
  }

  // strncpy into the source field, which drops what does not fit.
  function Cut(s: string): (r: string)
    ensures r <= s && |r| == if |s| < 64 then |s| else 64
  {
    if |s| <= SOURCE_SIZE then s else s[..SOURCE_SIZE]
  }

  function Source(s: string): (r: string)
    requires |s| <= SOURCE_SIZE
    ensures |r| == SOURCE_SIZE
  {
    s + Zeroed(SOURCE_SIZE - |s|)
  }

  // Limits of the struct fields and of the transmit buffers. The six padding
  // bytes of a node list are whatever the static buffer held before.
  predicate Postable(r: Record) {
    match r
    case NodeList(padding, nodes) => |padding| == 6 && NODELIST_SIZE + 8 * |nodes| <= BUFFER_SIZE
    case ToNode(uid, data) => CString(uid) && CString(data) && MESSAGE_SIZE + |data| <= BUFFER_SIZE
    case FromNode(source, _, data) => CString(source) && |source| < SOURCE_SIZE && DATA_OFFSET + |data| <= BUFFER_SIZE
  }

  // The payloads: 8 + 8n, 80 + len and 76 + len bytes.
  function Payload(r: Record): (p: string)
    requires Postable(r)
    ensures |p| == match r
      case NodeList(_, nodes) => NODELIST_SIZE - HEADER_SIZE + 8 * (|nodes| - 1)
      case ToNode(_, data) => MESSAGE_SIZE - HEADER_SIZE + |data|
      case FromNode(_, _, data) => SOURCE_SIZE + 8 + 4 + |data|
  {
    match r
    case NodeList(padding, nodes) => Bytes(|nodes|, 2) + padding + NodeBytes(nodes)
    case ToNode(uid, data) => Source(Cut(uid)) + Bytes(0, 8) + Bytes(|data|, 4) + data + Zeroed(4)
    case FromNode(source, time, data) => Source(source) + Bytes(time, 8) + Bytes(|data|, 4) + data
  }

  function Encode(r: Record): Raw
    requires Postable(r)
  {
    Raw(if r.NodeList? then NODELIST_ID else MESSAGE_ID, Payload(r))
  }

  lemma WireIs(id: uint32, payload: string, size: nat)
    requires |payload| == size
    ensures Wire(Raw(id, payload)) == Bytes(id, 4) + Bytes(size, 4) + payload
  {
  }

  lemma NodeListWire(padding: string, nodes: seq<uint64>)
    requires Postable(NodeList(padding, nodes))
    ensures var r := NodeList(padding, nodes);
      && FitsBuffer(Encode(r))
      && Wire(Encode(r))
         == Bytes(NODELIST_ID, 4) + Bytes(8 + 8 * |nodes|, 4) + (Bytes(|nodes|, 2) + padding + NodeBytes(nodes))
  {
    WireIs(NODELIST_ID, Bytes(|nodes|, 2) + padding + NodeBytes(nodes), 8 + 8 * |nodes|);
  }

  // ----- the consumers' view of a payload -----

  datatype View =
    | ListView(nodes: seq<uint64>)
    | MessageView(source: string, time: nat, data: string)
    | NoView

  function NodesAt(s: string, n: nat): seq<uint64>
    requires |s| >= 8 * n
  {
    if n == 0 then [] else [Node(s[..8])] + NodesAt(s[8..], n - 1)
  }

  // list_len entries, or source, time and data_len bytes of data.
  function Decode(r: Raw): View {
    var p := r.payload;
    if r.id == NODELIST_ID && |p| >= 8 then
      var n := Number(p[..2]);
      if |p| - 8 < 8 * n then NoView else ListView(NodesAt(p[8..], n))
    else if r.id == MESSAGE_ID && |p| >= 76 then
      var n := Number(p[72..76]);
      if |p| - 76 < n then NoView
      else MessageView(UpToNul(p[..64]), Number(p[64..72]), p[76..76 + n])
    else NoView
  }

  function Meaning(r: Record): View {
    match r
    case NodeList(_, nodes) => ListView(nodes)
    case ToNode(uid, data) => MessageView(Cut(uid), 0, data)
    case FromNode(source, time, data) => MessageView(source, time, data)
  }

  function Node(s: string): uint64 {
    Number(s) % 0x1_0000_0000_0000_0000
  }

  lemma NodeOfBytes(n: uint64)
    ensures Node(Bytes(n, 8)) == n
  {
    Limits();
    NumberOfBytes(n, 8);
  }

  lemma NodesNext(node: string, rest: string, n: nat)
    requires |node| == 8 && |rest| >= 8 * n
    ensures NodesAt(node + rest, n + 1) == [Node(node)] + NodesAt(rest, n)
  {
    var s := node + rest;
    assert s[..8] == node && s[8..] == rest;
  }

  lemma {:induction false} NodesOfBytes(nodes: seq<uint64>)
    ensures NodesAt(NodeBytes(nodes), |nodes|) == nodes
  {
    if nodes != [] {
      var others := nodes[1..];
      NodesOfBytes(others);
      NodeOfBytes(nodes[0]);
      NodesNext(Bytes(nodes[0], 8), NodeBytes(others), |others|);
      assert nodes == [nodes[0]] + others;
    }
  }

  lemma SourceReadBack(s: string)
    requires CString(s) && |s| <= SOURCE_SIZE
    ensures UpToNul(Source(s)) == s
  {
    var r := Source(s);
    assert r[..|s|] == s && (|s| < SOURCE_SIZE ==> r[|s|] == '\0');
    IndexOfIs(r, '\0', |s|);
  }

  lemma MessageDecodes(source: string, time: uint64, data: string, tail: string)
    requires CString(source) && |source| <= SOURCE_SIZE && |data| < 0x1_0000_0000
    ensures var p := Source(source) + Bytes(time, 8) + Bytes(|data|, 4) + data + tail;
      Decode(Raw(MESSAGE_ID, p)) == MessageView(source, time, data)
  {
    var p := Source(source) + Bytes(time, 8) + Bytes(|data|, 4) + data + tail;
    Limits();
    SourceReadBack(source);
    NumberOfBytes(time, 8);
    NumberOfBytes(|data|, 4);
    assert p[..64] == Source(source) && p[64..72] == Bytes(time, 8);
    assert p[72..76] == Bytes(|data|, 4) && p[76..76 + |data|] == data;
  }

  lemma NodeListDecodes(padding: string, nodes: seq<uint64>)
    requires |padding| == 6 && |nodes| < 0x1_0000
    ensures Decode(Raw(NODELIST_ID, Bytes(|nodes|, 2) + padding + NodeBytes(nodes))) == ListView(nodes)
  {
    var p := Bytes(|nodes|, 2) + padding + NodeBytes(nodes);
    Limits();
    NumberOfBytes(|nodes|, 2);
    NodesOfBytes(nodes);
    assert p[..2] == Bytes(|nodes|, 2) && p[8..] == NodeBytes(nodes);
  }

  // Every record that was sent means to its reader what it meant to its writer.
  lemma DecodeInverts(r: Record)
    requires Postable(r)
    ensures FitsBuffer(Encode(r)) && Decode(Encode(r)) == Meaning(r)
  {
    match r
    case NodeList(padding, nodes) => NodeListDecodes(padding, nodes);
    case ToNode(uid, data) => MessageDecodes(Cut(uid), 0, data, Zeroed(4));
    case FromNode(source, time, data) =>
      MessageDecodes(source, time, data, "");
      assert Payload(r) + "" == Payload(r);
  }

  // ----- streams of records -----

  type Sent = r: Record | Postable(r) witness ToNode("", "")

  function Stream(records: seq<Sent>): string {
    if records == [] then ""
    else
      DecodeInverts(records[0]);
      Wire(Encode(records[0])) + Stream(records[1..])
  }

  function Meanings(records: seq<Sent>): (views: seq<View>)
    ensures |views| == |records|
  {
    if records == [] then [] else [Meaning(records[0])] + Meanings(records[1..])
  }

  lemma {:induction false} MeaningsAre(records: seq<Sent>)
    ensures forall i | 0 <= i < |records| :: Meanings(records)[i] == Meaning(records[i])
  {
    if records != [] {
      MeaningsAre(records[1..]);
    }
  }

  datatype Split = Broken | Views(views: seq<View>, rest: string)

  // n rounds of a reader.
  function SplitUp(s: string, n: nat): Split
    decreases n
  {
    if n == 0 then Views([], s)
    else
      match Take(s)
      case Stalled => Broken
      case TooBig => Broken
      case Got(raw, rest) =>
        match SplitUp(rest, n - 1)
        case Broken => Broken
        case Views(views, rest') => Views([Decode(raw)] + views, rest')
  }

  lemma StreamCons(records: seq<Sent>)
    requires records != []
    ensures FitsBuffer(Encode(records[0]))
    ensures Stream(records) == Wire(Encode(records[0])) + Stream(records[1..])
  {
    DecodeInverts(records[0]);
  }

  lemma {:induction false} StreamSnoc(records: seq<Sent>, r: Sent)
    ensures FitsBuffer(Encode(r))
    ensures Stream(records + [r]) == Stream(records) + Wire(Encode(r))
  {
    DecodeInverts(r);
    StreamConcat(records, [r]);
    StreamCons([r]);
    assert Stream([r][1..]) == "";
  }

  lemma {:induction false} StreamConcat(records: seq<Sent>, more: seq<Sent>)
    ensures Stream(records + more) == Stream(records) + Stream(more)
  {
    if records == [] {
      assert records + more == more;
    } else {
      assert (records + more)[1..] == records[1..] + more;
      StreamConcat(records[1..], more);
    }
  }

  predicate SplitsInto(s: string, views: seq<View>, rest: string) {
    SplitUp(s, |views|) == Views(views, rest)
  }

  lemma SplitNext(r: Sent, s: string, views: seq<View>, rest: string)
    requires SplitsInto(s, views, rest)
    ensures FitsBuffer(Encode(r))
    ensures SplitsInto(Wire(Encode(r)) + s, [Meaning(r)] + views, rest)
  {
    DecodeInverts(r);
    TakeWire(Encode(r), s);
  }

  lemma StreamNext(records: seq<Sent>, rest: string)
    requires records != []
    ensures FitsBuffer(Encode(records[0]))
    ensures Stream(records) + rest == Wire(Encode(records[0])) + (Stream(records[1..]) + rest)
  {
    StreamCons(records);
    Associate(Wire(Encode(records[0])), Stream(records[1..]), rest);
  }

  // Whatever the mixture of records, the readers stay aligned.
  lemma {:induction false} StreamSplits(records: seq<Sent>, rest: string)
    ensures SplitsInto(Stream(records) + rest, Meanings(records), rest)
  {
    if records == [] {
      assert Stream(records) + rest == rest;
    } else {
      StreamSplits(records[1..], rest);
      SplitNext(records[0], Stream(records[1..]) + rest, Meanings(records[1..]), rest);
      StreamNext(records, rest);
    }
  }

  // ----- writers and readers over their static buffers -----

  // A local stream socket with full reads.
  class Pipe {
    var bytes: string

    method Send(data: string)
      modifies this
      ensures bytes == old(bytes) + data
    {
      bytes := bytes + data;
    }

    method Recv(n: nat) returns (data: string)
      modifies this
      ensures old(bytes) == data + bytes
      ensures |data| == if n <= |old(bytes)| then n else |old(bytes)|
    {
      var k := if n <= |bytes| then n else |bytes|;
      data, bytes := bytes[..k], bytes[k..];
    }
  }

  // Writing memory from its start on.
  lemma WriteNext(built: string, rest: string, data: string)
    requires |data| <= |rest|
    ensures Overwritten(built + rest, |built|, data) == (built + data) + rest[|data|..]
  {
  }

  lemma ZerosLeft(n: nat, behind: string, k: nat)
    requires k <= n
    ensures (Zeroed(n) + behind)[k..] == Zeroed(n - k) + behind
  {
  }

  lemma PadSource(built: string, source: string, n: nat, behind: string)
    requires |source| <= SOURCE_SIZE <= n
    ensures (built + source) + (Zeroed(n - |source|) + behind)
         == (built + Source(source)) + (Zeroed(n - SOURCE_SIZE) + behind)
  {
  }

  // The fields before the data.
  function MessageHead(payloadSize: uint32, source: string, time: uint64, len: nat): (s: string)
    requires |source| <= SOURCE_SIZE
    ensures |s| == DATA_OFFSET
  {
    Bytes(MESSAGE_ID, 4) + Bytes(payloadSize, 4) + Source(source) + Bytes(time, 8) + Bytes(len, 4)
  }

  // They are written into the transmit buffer, which is zero.
  method FillHead(memory: array<char>, payloadSize: uint32, source: string, time: uint64, len: nat, ghost behind: string)
    requires memory[..] == Zeroed(BUFFER_SIZE) + behind && |source| <= SOURCE_SIZE
    modifies memory
    ensures memory[..] == MessageHead(payloadSize, source, time, len) + (Zeroed(BUFFER_SIZE - DATA_OFFSET) + behind)
  {
    assert memory[..] == "" + (Zeroed(BUFFER_SIZE) + behind);
    WriteNext("", Zeroed(BUFFER_SIZE) + behind, Bytes(MESSAGE_ID, 4));
    ZerosLeft(BUFFER_SIZE, behind, 4);
    CopyInto(memory, 0, Bytes(MESSAGE_ID, 4));
    ghost var built := "" + Bytes(MESSAGE_ID, 4);
    WriteNext(built, Zeroed(BUFFER_SIZE - 4) + behind, Bytes(payloadSize, 4));
    ZerosLeft(BUFFER_SIZE - 4, behind, 4);
    CopyInto(memory, 4, Bytes(payloadSize, 4));
    built := built + Bytes(payloadSize, 4);
    WriteNext(built, Zeroed(BUFFER_SIZE - 8) + behind, source);
    ZerosLeft(BUFFER_SIZE - 8, behind, |source|);
    CopyInto(memory, 8, source);
    PadSource(built, source, BUFFER_SIZE - 8, behind);
    built := built + Source(source);
    WriteNext(built, Zeroed(BUFFER_SIZE - 72) + behind, Bytes(time, 8));
    ZerosLeft(BUFFER_SIZE - 72, behind, 8);
    CopyInto(memory, 72, Bytes(time, 8));
    built := built + Bytes(time, 8);
    WriteNext(built, Zeroed(BUFFER_SIZE - 80) + behind, Bytes(len, 4));
    ZerosLeft(BUFFER_SIZE - 80, behind, 4);
    CopyInto(memory, 80, Bytes(len, 4));
    assert "" + Bytes(MESSAGE_ID, 4) == Bytes(MESSAGE_ID, 4);
  }

  // What a message of a node is on the socket, whatever its size.
  function NodeRaw(source: string, time: uint64, data: string): Raw
    requires |source| <= SOURCE_SIZE
  {
    Raw(MESSAGE_ID, Source(source) + Bytes(time, 8) + Bytes(|data|, 4) + data)
  }

  // The longest data that the readers accept.
  const MAX_DATA := BUFFER_SIZE - DATA_OFFSET

  lemma NodeRawIsEncode(source: string, time: uint64, data: string)
    requires Postable(FromNode(source, time, data))
    ensures NodeRaw(source, time, data) == Encode(FromNode(source, time, data))
  {
  }

  lemma HeadAndData(source: string, time: uint64, data: string)
    requires |source| <= SOURCE_SIZE && |data| <= BUFFER_SIZE
    ensures MessageHead(76 + |data|, source, time, |data|) + data == Wire(NodeRaw(source, time, data))
  {
    var head := Bytes(MESSAGE_ID, 4) + Bytes(76 + |data|, 4);
    var p := Source(source) + Bytes(time, 8) + Bytes(|data|, 4);
    assert MessageHead(76 + |data|, source, time, |data|) == head + p;
    Associate(head, p, data);
  }

  // ipc_message_to_bm. Memory is the transmit buffer and what lies behind it:
  // data of more than MAX_DATA bytes is copied over that too, and is sent from
  // there.
  method SendFromNode(pipe: Pipe, memory: array<char>, source: string, time: uint64, data: string)
    requires memory.Length >= BUFFER_SIZE + DATA_OFFSET && |data| <= BUFFER_SIZE
    requires CString(source) && |source| < SOURCE_SIZE
    modifies pipe, memory
    ensures pipe.bytes == old(pipe.bytes) + Wire(NodeRaw(source, time, data))
    ensures memory[..] == Wire(NodeRaw(source, time, data))
      + (Zeroed(MAX_DATA) + old(memory[BUFFER_SIZE..]))[|data|..]
  {
    ghost var behind := memory[BUFFER_SIZE..];
    var payloadSize := 64 + 8 + 4 + |data|;
    ClearFront(memory, BUFFER_SIZE);
    FillHead(memory, payloadSize, source, time, |data|, behind);
    ghost var head := MessageHead(payloadSize, source, time, |data|);
    WriteNext(head, Zeroed(MAX_DATA) + behind, data);
    CopyInto(memory, DATA_OFFSET, data);
    HeadAndData(source, time, data);
    assert memory[..HEADER_SIZE + payloadSize] == Wire(NodeRaw(source, time, data));
    pipe.Send(memory[..HEADER_SIZE + payloadSize]);
  }

  // What lay behind the buffer stays as it was exactly as far as the data does
  // not reach.
  lemma BehindTransmitBuffer(data: string, behind: string)
    requires |data| <= BUFFER_SIZE && |behind| >= DATA_OFFSET
    ensures var rest := (Zeroed(MAX_DATA) + behind)[|data|..];
      if |data| <= MAX_DATA then rest == Zeroed(MAX_DATA - |data|) + behind
      else rest == behind[|data| - MAX_DATA..]
  {
  }

  // The readers take the record if and only if its data is not longer.
  lemma NodeRawTakenIff(source: string, time: uint64, data: string, rest: string)
    requires |source| <= SOURCE_SIZE && |data| <= BUFFER_SIZE
    ensures Take(Wire(NodeRaw(source, time, data)) + rest)
         == if |data| <= MAX_DATA then Got(NodeRaw(source, time, data), rest) else TooBig
  {
    var r := NodeRaw(source, time, data);
    if |data| <= MAX_DATA {
      TakeWire(r, rest);
    } else {
      WordOfBytes(|r.payload|);
      FourParts(Bytes(r.id, 4), Bytes(|r.payload|, 4), r.payload, rest);
    }
  }

  // The static buffer after a record of n bytes has been read into it.
  function Landed(before: string, s: string, n: nat): (r: string)
    requires n <= |before| && n <= |s|
    ensures |r| == |before|
  {
    s[..n] + before[n..]
  }

  lemma TwoLandings(before: string, header: string, payload: string, rest: string)
    requires |header| + |payload| <= |before|
    ensures Overwritten(Overwritten(before, 0, header), |header|, payload)
         == Landed(before, header + (payload + rest), |header| + |payload|)
  {
    var s := header + (payload + rest);
    assert s[..|header| + |payload|] == header + payload;
  }

  // What the header announces and what is left behind the payload.
  lemma TakeParts(header: string, payload: string, rest: string)
    requires |header| == HEADER_SIZE
    ensures var s, size := header + (payload + rest), Word(header[4..8]);
      && (size + HEADER_SIZE > BUFFER_SIZE ==> Take(s) == TooBig)
      && (|payload| == size && size + HEADER_SIZE <= BUFFER_SIZE ==> Take(s) == Got(Raw(Word(header[..4]), payload), rest))
      && (|payload| < size && rest == "" ==> !Take(s).Got?)
  {
    var s := header + (payload + rest);
    assert s[4..8] == header[4..8] && s[..4] == header[..4];
    if |payload| == Word(header[4..8]) {
      assert s[8..8 + |payload|] == payload && s[8 + |payload|..] == rest;
    }
  }

  // Both readers: the record lands at the start of the static buffer; the rest
  // of the buffer keeps what earlier records left there.
  method ReadRecord(pipe: Pipe, buffer: array<char>) returns (ok: bool)
    requires buffer.Length == BUFFER_SIZE
    modifies pipe, buffer
    ensures ok <==> Take(old(pipe.bytes)).Got?
    ensures ok ==> var Got(raw, rest) := Take(old(pipe.bytes));
      var n := HEADER_SIZE + |raw.payload|;
      && pipe.bytes == rest && n <= BUFFER_SIZE && n <= |old(pipe.bytes)|
      && buffer[..] == Landed(old(buffer[..]), old(pipe.bytes), n)
  {
    ghost var before := buffer[..];
    var header := pipe.Recv(HEADER_SIZE);
    ghost var behind := pipe.bytes;
    CopyInto(buffer, 0, header);
    if |header| != HEADER_SIZE { return false; }
    assert buffer[4..8] == header[4..8];
    var payloadSize := Word(buffer[4..8]);
    if payloadSize + HEADER_SIZE > BUFFER_SIZE {
      TakeParts(header, behind, "");
      assert behind + "" == behind;
      return false;
    }
    var payload := pipe.Recv(payloadSize);
    CopyInto(buffer, HEADER_SIZE, payload);
    TakeParts(header, payload, pipe.bytes);
    TwoLandings(before, header, payload, pipe.bytes);
    ok := |payload| == payloadSize;
  }

  // ----- reading message data as a C string -----

  // What %s prints from an address in the buffer. Without a NUL up to the end
  // of the buffer it runs on into the variables behind it.
  datatype Printed = Text(text: string) | RunsOn

  function PrintedFrom(buffer: string, at: nat): Printed
    requires at <= |buffer|
  {
    if CString(buffer[at..]) then RunsOn else Text(UpToNul(buffer[at..]))
  }

  lemma PrintedIs(buffer: string, at: nat, text: string)
    requires at + |text| <= |buffer| && buffer[at..at + |text|] == text && CString(text)
    ensures PrintedFrom(buffer, at) == Text(text) <==> at + |text| < |buffer| && buffer[at + |text|] == '\0'
  {
    var s, n := buffer[at..], |text|;
    assert s[..n] == text;
    if n < |s| {
      assert s[n] == buffer[at + n] && s[n] in s;
      if s[n] == '\0' {
        IndexOfIs(s, '\0', n);
      } else {
        NotIndex(s, '\0', n);
      }
    } else {
      assert s == text;
    }
  }

  function PrintedData(buffer: string): Printed
    requires |buffer| == BUFFER_SIZE
  {
    PrintedFrom(buffer, DATA_OFFSET)
  }

  // The buffer after a node message has been read into it.
  function AfterFromNode(before: string, source: string, time: uint64, data: string): (r: string)
    requires |before| == BUFFER_SIZE && Postable(FromNode(source, time, data))
    ensures |r| == BUFFER_SIZE
  {
    DecodeInverts(FromNode(source, time, data));
    Overwritten(before, 0, Wire(Encode(FromNode(source, time, data))))
  }

  lemma FromNodeLands(before: string, source: string, time: uint64, data: string, rest: string)
    requires |before| == BUFFER_SIZE && Postable(FromNode(source, time, data))
    ensures FitsBuffer(Encode(FromNode(source, time, data)))
    ensures var wire := Wire(Encode(FromNode(source, time, data)));
      |wire| <= BUFFER_SIZE && Landed(before, wire + rest, |wire|) == AfterFromNode(before, source, time, data)
  {
    DecodeInverts(FromNode(source, time, data));
    var wire := Wire(Encode(FromNode(source, time, data)));
    assert (wire + rest)[..|wire|] == wire;
  }

  // The source field, printed with %s as well, and the time field.
  function PrintedSource(buffer: string): Printed
    requires |buffer| == BUFFER_SIZE
  {
    PrintedFrom(buffer, HEADER_SIZE)
  }

  function MessageTime(buffer: string): nat
    requires |buffer| == BUFFER_SIZE
  {
    Number(buffer[72..80])
  }

  lemma FieldSlices(head: string, source: string, time: string, more: string)
    requires |head| == HEADER_SIZE && |source| == SOURCE_SIZE && |time| == 8
    ensures var s := head + (source + time + more); s[HEADER_SIZE..72] == source && s[72..80] == time
  {
    var s := head + (source + time + more);
    assert s[HEADER_SIZE..] == source + time + more;
    assert s[HEADER_SIZE..72] == s[HEADER_SIZE..][..64] && s[72..80] == s[HEADER_SIZE..][64..72];
  }

  lemma MoreBytes(source: string, time: string, len: string, data: string)
    ensures source + time + len + data == source + time + (len + data)
  {
  }

  lemma SourceFront(buffer: string, source: string)
    requires |buffer| == BUFFER_SIZE && |source| < SOURCE_SIZE && buffer[HEADER_SIZE..72] == Source(source)
    ensures buffer[HEADER_SIZE..HEADER_SIZE + |source|] == source && buffer[HEADER_SIZE + |source|] == '\0'
  {
    var field, n := buffer[HEADER_SIZE..72], |source|;
    assert field[..n] == buffer[HEADER_SIZE..HEADER_SIZE + n] && field[n] == buffer[HEADER_SIZE + n];
    assert Source(source)[..n] == source;
  }

  // Both are read back whatever the buffer held before.
  lemma FieldsReadBack(before: string, source: string, time: uint64, data: string)
    requires |before| == BUFFER_SIZE && Postable(FromNode(source, time, data))
    ensures var buffer := AfterFromNode(before, source, time, data);
      PrintedSource(buffer) == Text(source) && MessageTime(buffer) == time
  {
    var r := FromNode(source, time, data);
    DecodeInverts(r);
    var wire, buffer := Wire(Encode(r)), AfterFromNode(before, source, time, data);
    MoreBytes(Source(source), Bytes(time, 8), Bytes(|data|, 4), data);
    FieldSlices(Bytes(MESSAGE_ID, 4) + Bytes(|Payload(r)|, 4), Source(source), Bytes(time, 8), Bytes(|data|, 4) + data);
    assert buffer[HEADER_SIZE..72] == wire[HEADER_SIZE..72] == Source(source) && buffer[72..80] == wire[72..80];
    SourceFront(buffer, source);
    PrintedIs(buffer, HEADER_SIZE, source);
    Limits();
    NumberOfBytes(time, 8);
  }

  lemma DataLands(before: string, source: string, time: uint64, data: string)
    requires |before| == BUFFER_SIZE && Postable(FromNode(source, time, data))
    ensures var after, end := AfterFromNode(before, source, time, data), DATA_OFFSET + |data|;
      after[DATA_OFFSET..end] == data && after[end..] == before[end..]
  {
    DecodeInverts(FromNode(source, time, data));
    var wire := Wire(Encode(FromNode(source, time, data)));
    assert wire[DATA_OFFSET..] == data;
  }

  // Nothing terminates the data on the wire. Data without NUL is passed on
  // unaltered exactly when the buffer already held a NUL directly behind it.
  // Otherwise bytes of an earlier, longer record follow, or bytes from behind
  // the buffer.
  lemma PrintedDataExact(before: string, source: string, time: uint64, data: string)
    requires |before| == BUFFER_SIZE && Postable(FromNode(source, time, data)) && CString(data)
    ensures var end := DATA_OFFSET + |data|;
      PrintedData(AfterFromNode(before, source, time, data)) == Text(data)
      <==> end < BUFFER_SIZE && before[end] == '\0'
  {
    var end, after := DATA_OFFSET + |data|, AfterFromNode(before, source, time, data);
    DataLands(before, source, time, data);
    PrintedIs(after, DATA_OFFSET, data);
    assert end < BUFFER_SIZE ==> after[end] == after[end..][0] == before[end..][0];
  }

  lemma {:induction false} NotIndex(s: string, c: char, i: nat)
    requires i < |s| && s[i] != c
    ensures IndexOf(s, c) != i
  {
    if i > 0 {
      NotIndex(s[1..], c, i - 1);
    }
  }

  // Data that carries its own NUL, as the fragmenter sends it, is always
  // printed up to that NUL.
  lemma PrintedDataTerminated(before: string, source: string, time: uint64, text: string, more: string)
    requires |before| == BUFFER_SIZE && CString(text)
    requires Postable(FromNode(source, time, text + "\0" + more))
    ensures PrintedData(AfterFromNode(before, source, time, text + "\0" + more)) == Text(text)
  {
    var data := text + "\0" + more;
    var after, end := AfterFromNode(before, source, time, data), DATA_OFFSET + |data|;
    DataLands(before, source, time, data);
    assert after[DATA_OFFSET..end][..|text|] == after[DATA_OFFSET..DATA_OFFSET + |text|];
    assert data[..|text|] == text && after[DATA_OFFSET + |text|] == after[DATA_OFFSET..end][|text|] == data[|text|];
    PrintedIs(after, DATA_OFFSET, text);
  }

  // ----- the buffer over a run of records -----

  function WireOf(r: Sent): (w: string)
    ensures HEADER_SIZE <= |w| <= BUFFER_SIZE
  {
    DecodeInverts(r);
    Wire(Encode(r))
  }

  // The static buffer, at first zero, after these records were read into it.
  function BufferAfter(records: seq<Sent>): (b: string)
    ensures |b| == BUFFER_SIZE
  {
    if records == [] then Zeroed(BUFFER_SIZE)
    else
      var w := WireOf(records[|records| - 1]);
      Landed(BufferAfter(records[..|records| - 1]), w, |w|)
  }

  predicate Reaches(r: Sent, x: nat) {
    x < |WireOf(r)|
  }

  // The last of these records that is longer than x, or -1.
  function LastLonger(records: seq<Sent>, x: nat): (j: int)
    ensures -1 <= j < |records|
    ensures j >= 0 ==> Reaches(records[j], x)
  {
    if records == [] then -1
    else
      var n := |records| - 1;
      if Reaches(records[n], x) then n else LastLonger(records[..n], x)
  }

  lemma {:induction false} NoneLonger(records: seq<Sent>, x: nat, k: nat)
    requires LastLonger(records, x) < k < |records|
    ensures !Reaches(records[k], x)
  {
    if k < |records| - 1 {
      NoneLonger(records[..|records| - 1], x, k);
    }
  }

  lemma {:induction false} BufferByte(records: seq<Sent>, x: nat)
    requires x < BUFFER_SIZE
    ensures var j := LastLonger(records, x);
      BufferAfter(records)[x] == if j < 0 then '\0' else WireOf(records[j])[x]
  {
    if records != [] {
      BufferByte(records[..|records| - 1], x);
    }
  }

  lemma AfterRecord(earlier: seq<Sent>, r: Sent)
    requires r.FromNode?
    ensures BufferAfter(earlier + [r]) == AfterFromNode(BufferAfter(earlier), r.source, r.time, r.data)
  {
    assert (earlier + [r])[..|earlier|] == earlier;
    FromNodeLands(BufferAfter(earlier), r.source, r.time, r.data, "");
    assert WireOf(r) + "" == WireOf(r);
  }

  // No earlier record reaches to x, or the last that does has a NUL there.
  predicate NulLeft(records: seq<Sent>, x: nat) {
    && x < BUFFER_SIZE
    && var j := LastLonger(records, x);
       j < 0 || WireOf(records[j])[x] == '\0'
  }

  lemma NulLeftIs(records: seq<Sent>, x: nat)
    ensures NulLeft(records, x) <==> x < BUFFER_SIZE && BufferAfter(records)[x] == '\0'
  {
    if x < BUFFER_SIZE {
      BufferByte(records, x);
    }
  }

  // Node messages and reports without NUL, as reports are sent: behind any
  // earlier records the data is printed unaltered exactly if none of them
  // reaches behind it, or the last that does has a NUL there.
  lemma RunPrintedExact(earlier: seq<Sent>, r: Sent)
    requires r.FromNode? && CString(r.data)
    ensures PrintedData(BufferAfter(earlier + [r])) == Text(r.data) <==> NulLeft(earlier, DATA_OFFSET + |r.data|)
  {
    AfterRecord(earlier, r);
    PrintedDataExact(BufferAfter(earlier), r.source, r.time, r.data);
    NulLeftIs(earlier, DATA_OFFSET + |r.data|);
  }

  lemma DataOnWire(r: Sent, k: nat)
    requires r.FromNode? && k < |r.data|
    ensures Reaches(r, DATA_OFFSET + k) && WireOf(r)[DATA_OFFSET + k] == r.data[k]
  {
    DataLands(Zeroed(BUFFER_SIZE), r.source, r.time, r.data);
    assert WireOf(r)[DATA_OFFSET..] == r.data;
  }

  // A short report behind a longer one is printed with the end of the longer
  // one.
  lemma ShortAfterLong()
    ensures var records: seq<Sent> := [FromNode("0", 0, "ab"), FromNode("0", 0, "c")];
      PrintedData(BufferAfter(records)) != Text("c")
  {
    var long: Sent, short: Sent := FromNode("0", 0, "ab"), FromNode("0", 0, "c");
    DataOnWire(long, 1);
    assert LastLonger([long], DATA_OFFSET + 1) == 0;
    assert [long] + [short] == [long, short];
    RunPrintedExact([long], short);
  }

  // ----- the layout of a record -----

  // n >> 8 * j
  function Shifted(n: nat, j: nat): nat {
    if j == 0 then n else Shifted(n / 256, j - 1)
  }

  predicate LittleEndian(s: string, n: nat) {
    forall j | 0 <= j < |s| :: s[j] as nat == Shifted(n, j) % 256
  }

  lemma {:induction false} BytesAre(n: nat, k: nat)
    ensures LittleEndian(Bytes(n, k), n)
  {
    if k > 0 {
      var rest := Bytes(n / 256, k - 1);
      BytesAre(n / 256, k - 1);
      forall j | 0 <= j < k ensures Bytes(n, k)[j] as nat == Shifted(n, j) % 256 {
        if j > 0 {
          assert Bytes(n, k)[j] == rest[j - 1];
        }
      }
    }
  }

  // Header and fields lie where the structs have them, integers in
  // little-endian order, behind strings and numbers zeros up to the next field.
  predicate LaidOut(w: string, r: Record) {
    && |w| >= 16 && LittleEndian(w[4..8], |w| - 8)
    && match r
       case NodeList(padding, nodes) =>
         && LittleEndian(w[0..4], 0) && LittleEndian(w[8..10], |nodes|) && |w| == 16 + 8 * |nodes|
         && forall i | 0 <= i < |nodes| :: LittleEndian(w[16 + 8 * i..24 + 8 * i], nodes[i])
       case ToNode(uid, data) => MessageLaidOut(w, Cut(uid), 0, data) && |w| == 88 + |data|
       case FromNode(source, time, data) => MessageLaidOut(w, source, time, data) && |w| == 84 + |data|
  }

  predicate MessageLaidOut(w: string, source: string, time: nat, data: string) {
    && |source| <= 64 && |w| >= 84 + |data| && LittleEndian(w[0..4], 1)
    && w[8..8 + |source|] == source && (forall i | 8 + |source| <= i < 72 :: w[i] == '\0')
    && LittleEndian(w[72..80], time) && LittleEndian(w[80..84], |data|) && w[84..84 + |data|] == data
  }

  lemma MessageParts(head: string, size: string, source: string, time: string, len: string, data: string, tail: string)
    requires |head| == 4 && |size| == 4 && |source| == 64 && |time| == 8 && |len| == 4
    ensures var w := head + size + (source + time + len + data + tail);
      && w[0..4] == head && w[4..8] == size && w[8..72] == source && w[72..80] == time && w[80..84] == len
      && w[84..84 + |data|] == data
  {
    var p := source + time + len + data + tail;
    var w := head + size + p;
    assert p[..64] == source && p[64..72] == time && p[72..76] == len && p[76..76 + |data|] == data;
    forall a, b | 0 <= a <= b <= |p| ensures w[8 + a..8 + b] == p[a..b] {
      ShiftedSlice(head + size, p, a, b);
    }
    assert w[8 + 0..8 + 64] == p[0..64] && w[8 + 64..8 + 72] == p[64..72] && w[8 + 72..8 + 76] == p[72..76];
    assert w[8 + 76..8 + (76 + |data|)] == p[76..76 + |data|];
  }

  lemma ShiftedSlice(a: string, b: string, i: nat, j: nat)
    requires i <= j <= |b|
    ensures (a + b)[|a| + i..|a| + j] == b[i..j]
  {
  }

  lemma MessageLies(source: string, time: uint64, data: string, tail: string)
    requires |source| <= 64 && |data| < 0x8000_0000
    ensures var p := Source(source) + Bytes(time, 8) + Bytes(|data|, 4) + data + tail;
      var w := Wire(Raw(MESSAGE_ID, p));
      MessageLaidOut(w, source, time, data) && LittleEndian(w[4..8], |p|)
  {
    var p := Source(source) + Bytes(time, 8) + Bytes(|data|, 4) + data + tail;
    var w := Wire(Raw(MESSAGE_ID, p));
    MessageParts(Bytes(MESSAGE_ID, 4), Bytes(|p|, 4), Source(source), Bytes(time, 8), Bytes(|data|, 4), data, tail);
    BytesAre(1, 4);
    BytesAre(|p|, 4);
    BytesAre(time, 8);
    BytesAre(|data|, 4);
    SourceLies(w, source);
  }

  lemma SourceLies(w: string, source: string)
    requires |w| >= 72 && |source| <= 64 && w[8..72] == Source(source)
    ensures w[8..8 + |source|] == source && forall i | 8 + |source| <= i < 72 :: w[i] == '\0'
  {
    assert w[8..8 + |source|] == w[8..72][..|source|] == source;
    forall i | 8 + |source| <= i < 72 ensures w[i] == '\0' {
      assert w[i] == w[8..72][i - 8];
    }
  }

  lemma ListParts(id: string, size: string, len: string, padding: string, entries: string)
    requires |id| == 4 && |size| == 4 && |len| == 2 && |padding| == 6
    ensures var w := id + size + (len + padding + entries);
      && |w| == 16 + |entries| && w[0..4] == id && w[4..8] == size && w[8..10] == len
      && forall a, b | 0 <= a <= b <= |entries| :: w[16 + a..16 + b] == entries[a..b]
  {
    var w := id + size + (len + padding + entries);
    assert w == (id + size + len + padding) + entries;
    forall a, b | 0 <= a <= b <= |entries| ensures w[16 + a..16 + b] == entries[a..b] {
      ShiftedSlice(id + size + len + padding, entries, a, b);
    }
  }

  lemma ListLies(padding: string, nodes: seq<uint64>, i: nat)
    requires |padding| == 6 && i < |nodes|
    ensures var w := Wire(Raw(NODELIST_ID, Bytes(|nodes|, 2) + padding + NodeBytes(nodes)));
      |w| == 16 + 8 * |nodes| && LittleEndian(w[16 + 8 * i..24 + 8 * i], nodes[i])
  {
    ListParts(Bytes(NODELIST_ID, 4), Bytes(8 + 8 * |nodes|, 4), Bytes(|nodes|, 2), padding, NodeBytes(nodes));
    WireIs(NODELIST_ID, Bytes(|nodes|, 2) + padding + NodeBytes(nodes), 8 + 8 * |nodes|);
    NodeBytesSlice(nodes, i);
    BytesAre(nodes[i], 8);
  }

  lemma {:induction false} NodeBytesSlice(nodes: seq<uint64>, i: nat)
    requires i < |nodes|
    ensures NodeBytes(nodes)[8 * i..8 * i + 8] == Bytes(nodes[i], 8)
  {
    if i > 0 {
      var j: nat := i - 1;
      NodeBytesSlice(nodes[1..], j);
      ShiftedSlice(Bytes(nodes[0], 8), NodeBytes(nodes[1..]), 8 * j, 8 * j + 8);
    }
  }

  lemma ListHead(padding: string, nodes: seq<uint64>)
    requires |padding| == 6
    ensures var w := Wire(Raw(NODELIST_ID, Bytes(|nodes|, 2) + padding + NodeBytes(nodes)));
      |w| == 16 + 8 * |nodes| && LittleEndian(w[0..4], 0) && LittleEndian(w[4..8], 8 + 8 * |nodes|)
      && LittleEndian(w[8..10], |nodes|)
  {
    ListParts(Bytes(NODELIST_ID, 4), Bytes(8 + 8 * |nodes|, 4), Bytes(|nodes|, 2), padding, NodeBytes(nodes));
    WireIs(NODELIST_ID, Bytes(|nodes|, 2) + padding + NodeBytes(nodes), 8 + 8 * |nodes|);
    BytesAre(0, 4);
    BytesAre(8 + 8 * |nodes|, 4);
    BytesAre(|nodes|, 2);
  }

  lemma ListLaidOut(r: Sent)
    requires r.NodeList?
    ensures LaidOut(WireOf(r), r)
  {
    var w := WireOf(r);
    ListIs(r);
    ListHead(r.padding, r.nodes);
    forall i | 0 <= i < |r.nodes| ensures LittleEndian(w[16 + 8 * i..24 + 8 * i], r.nodes[i]) {
      ListLies(r.padding, r.nodes, i);
    }
  }

  lemma ListIs(r: Sent)
    requires r.NodeList?
    ensures WireOf(r) == Wire(Raw(NODELIST_ID, Bytes(|r.nodes|, 2) + r.padding + NodeBytes(r.nodes)))
  {
  }

  lemma ToNodeLaidOut(r: Sent)
    requires r.ToNode?
    ensures LaidOut(WireOf(r), r)
  {
    DecodeInverts(r);
    MessageLies(Cut(r.uid), 0, r.data, Zeroed(4));
  }

  lemma FromNodeLaidOut(r: Sent)
    requires r.FromNode?
    ensures LaidOut(WireOf(r), r)
  {
    FromNodeIs(r);
    MessageLies(r.source, r.time, r.data, "");
  }

  lemma FromNodeIs(r: Sent)
    requires r.FromNode?
    ensures WireOf(r) == Wire(Raw(MESSAGE_ID, Source(r.source) + Bytes(r.time, 8) + Bytes(|r.data|, 4) + r.data + ""))
    ensures |WireOf(r)| == DATA_OFFSET + |r.data|
  {
    assert Payload(r) + "" == Payload(r);
  }

  // The bytes of every record.
  lemma RecordLaidOut(r: Sent)
    ensures LaidOut(WireOf(r), r)
  {
    match r
    case NodeList(_, _) => ListLaidOut(r);
    case ToNode(_, _) => ToNodeLaidOut(r);
    case FromNode(_, _, _) => FromNodeLaidOut(r);
  }
}

// From the sender of a node to the server: send_message of test_mode.c, the
// transceiver, the Unix socket, the messenger and the scan at the server.
module EndToEnd {
  import opened Memory
  import opened Packets
  import opened PacketQueue
  import opened CStrings
  import opened HexAddresses
  import opened Transceiver
  import opened Delivery
  import JsonScan
  import JsonText
  import Bridge
  import Connections
  import Reports
  import Ipc
  import NodeRelay
  import Format = StompFormat

  lemma AddressPlain(src: uint64)
    ensures JsonText.Plain(HexAddress(src)) && CString(HexAddress(src))
  {
    HexDigitsPlain(src, 16);
  }

  // ----- what was told and what is found -----

  // A text handed to send_message by a node.
  datatype Told = Told(src: uint64, id: uint8, text: string)

  function Body(text: string): string {
    text + "\0"
  }

  function Messages(told: seq<Told>): (msgs: seq<Message>)
    ensures |msgs| == |told|
    ensures forall k | 0 <= k < |msgs| :: msgs[k] == Message(told[k].src, told[k].id, Body(told[k].text))
  {
    seq(|told|, k requires 0 <= k < |told| => Message(told[k].src, told[k].id, Body(told[k].text)))
  }

  // Under which address the server finds which text.
  function Entry(p: (uint64, string)): (string, string) {
    (HexAddress(p.0), UpToNul(p.1))
  }

  function Entries(pairs: seq<(uint64, string)>): (r: seq<(string, string)>)
    ensures |r| == |pairs| && forall k | 0 <= k < |r| :: r[k] == Entry(pairs[k])
  {
    seq(|pairs|, k requires 0 <= k < |pairs| => Entry(pairs[k]))
  }

  function ToldEntries(told: seq<Told>): (r: seq<(string, string)>)
    ensures |r| == |told| && forall k | 0 <= k < |r| :: r[k] == (HexAddress(told[k].src), told[k].text)
  {
    seq(|told|, k requires 0 <= k < |told| => (HexAddress(told[k].src), told[k].text))
  }

  lemma TextOfBody(text: string)
    requires CString(text)
    ensures UpToNul(Body(text)) == text
  {
    assert Body(text)[..|text|] == text;
    IndexOfIs(Body(text), '\0', |text|);
  }

  lemma {:induction false} PairsAt(msgs: seq<Message>)
    ensures |Pairs(msgs)| == |msgs|
    ensures forall k | 0 <= k < |msgs| :: Pairs(msgs)[k] == (msgs[k].src, msgs[k].body)
  {
    if msgs != [] {
      PairsAt(msgs[..|msgs| - 1]);
    }
  }

  lemma ToldEntriesAre(told: seq<Told>)
    requires forall k | 0 <= k < |told| :: CString(told[k].text)
    ensures Entries(Pairs(Messages(told))) == ToldEntries(told)
  {
    PairsAt(Messages(told));
    forall k | 0 <= k < |told| ensures UpToNul(Body(told[k].text)) == told[k].text {
      TextOfBody(told[k].text);
    }
  }

  // ----- equal collections have equal entries -----

  lemma CancelOne<T>(x: T, m: multiset<T>, m': multiset<T>)
    requires multiset{x} + m == multiset{x} + m'
    ensures m == m'
  {
    assert m == (multiset{x} + m) - multiset{x};
  }

  type Pair = (uint64, string)

  function Without<T>(a: seq<T>, i: nat): (r: seq<T>)
    requires i < |a|
    ensures |r| == |a| - 1
  {
    a[..i] + a[i + 1..]
  }

  lemma WithoutOne<T>(a: seq<T>, i: nat)
    requires i < |a|
    ensures multiset(a) == multiset{a[i]} + multiset(Without(a, i))
  {
    assert a == a[..i] + [a[i]] + a[i + 1..];
  }

  lemma BothWithout(a: seq<Pair>, b: seq<Pair>, i: nat)
    requires a != [] && i < |b| && a[0] == b[i] && multiset(a) == multiset(b)
    ensures multiset(Without(a, 0)) == multiset(Without(b, i))
  {
    WithoutOne(a, 0);
    WithoutOne(b, i);
    CancelOne(a[0], multiset(Without(a, 0)), multiset(Without(b, i)));
  }

  lemma EntriesWithout(a: seq<Pair>, i: nat)
    requires i < |a|
    ensures multiset(Entries(a)) == multiset{Entry(a[i])} + multiset(Entries(Without(a, i)))
  {
    WithoutOne(Entries(a), i);
    assert Without(Entries(a), i) == Entries(Without(a, i));
  }

  lemma {:induction false} EntriesOfEqual(a: seq<Pair>, b: seq<Pair>)
    requires multiset(a) == multiset(b)
    ensures multiset(Entries(a)) == multiset(Entries(b))
    decreases |a|
  {
    if a == [] {
      assert |multiset(b)| == 0;
      assert b == [];
    } else {
      assert a[0] in multiset(b);
      var i :| 0 <= i < |b| && b[i] == a[0];
      BothWithout(a, b, i);
      EntriesOfEqual(Without(a, 0), Without(b, i));
      EntriesWithout(a, 0);
      EntriesWithout(b, i);
    }
  }

  // ----- the outputs of the transceiver -----

  predicate Relayable(o: Output) {
    o.Forwarded? && 0 <= o.timestamp < TIME_LIMIT
  }

  predicate AllRelayable(out: seq<Output>) {
    forall j | 0 <= j < |out| :: Relayable(out[j])
  }

  lemma {:induction false} MergeTime(q: seq<Slot>, n: nat, src: uint64, id: uint8, capacity: nat)
    requires n <= |q| && WellFormed(q) && forall s | s in q :: SlotOk(s)
    ensures 0 <= MergeUpTo(q, n, src, id, capacity).timestamp < TIME_LIMIT
  {
    if n > 0 {
      MergeTime(q, n - 1, src, id, capacity);
      assert q[n - 1] in q;
    }
  }

  lemma StepRelayable(m: Machine, e: Input)
    requires e.Radio?
    ensures AllRelayable(Step(m, e).1)
  {
    if e.src in m.whitelist && !e.packet.isAck && e.packet.totalSize > e.packet.dataSize {
      var q1 := Added(m.queue, e.packet, e.src, e.now);
      AddedOk(m.queue, e.packet, e.src, e.now);
      MergeTime(q1, |q1|, e.src, e.packet.packetId, DATA_BUFFER_SIZE);
    }
  }

  lemma {:induction false} RunRelayable(s: Machine, events: seq<Input>)
    requires forall k | 0 <= k < |events| :: events[k].Radio?
    ensures AllRelayable(Run(s, events).1)
  {
    if events != [] {
      var n := |events| - 1;
      var before := Run(s, events[..n]);
      RunRelayable(s, events[..n]);
      StepRelayable(before.0, events[n]);
      assert Run(s, events).1 == before.1 + Step(before.0, events[n]).1;
    }
  }

  lemma {:induction false} AirIsRadio(msgs: seq<Message>, turns: seq<Turn>)
    requires Schedule(msgs, turns)
    ensures forall k | 0 <= k < |turns| :: Air(msgs, turns)[k].Radio?
  {
    if turns != [] {
      SchedulePrefix(msgs, turns);
      AirIsRadio(msgs, turns[..|turns| - 1]);
    }
  }

  lemma {:induction false} DeliveredIs(out: seq<Output>)
    requires AllRelayable(out)
    ensures |Delivered(out)| == |out|
    ensures forall j | 0 <= j < |out| :: Relayable(out[j]) && Delivered(out)[j] == (out[j].src, out[j].data)
  {
    if out != [] {
      DeliveredIs(out[..|out| - 1]);
    }
  }

  // ----- what leaves the transceiver -----

  // The bytes that ipc_message_to_bm puts on the socket for an output.
  function WireOfOutput(o: Output): string
    requires Relayable(o)
  {
    Ipc.Wire(Ipc.NodeRaw(HexAddress(o.src), o.timestamp, o.data))
  }

  function OutputStream(out: seq<Output>): string
    requires AllRelayable(out)
  {
    if out == [] then "" else OutputStream(out[..|out| - 1]) + WireOfOutput(out[|out| - 1])
  }

  predicate Passable(o: Output) {
    Relayable(o) && |o.data| <= Ipc.MAX_DATA
  }

  predicate AllPassable(out: seq<Output>) {
    forall j | 0 <= j < |out| :: Passable(out[j])
  }

  // The reader on the other side takes the record of an output if and only if
  // its data is not longer than 20396 bytes; otherwise it gives up.
  lemma OutputTakenIff(o: Output, rest: string)
    requires Relayable(o) && |o.data| <= DATA_BUFFER_SIZE
    ensures Ipc.Take(WireOfOutput(o) + rest)
         == if Passable(o) then Ipc.Got(Ipc.NodeRaw(HexAddress(o.src), o.timestamp, o.data), rest) else Ipc.TooBig
  {
    Ipc.NodeRawTakenIff(HexAddress(o.src), o.timestamp, o.data, rest);
  }

  // The loop of outputs: each is sent as a record.
  method SendOutputs(pipe: Ipc.Pipe, memory: array<char>, out: seq<Output>)
    requires memory.Length >= Ipc.BUFFER_SIZE + Ipc.DATA_OFFSET
    requires AllRelayable(out) && forall j | 0 <= j < |out| :: |out[j].data| <= DATA_BUFFER_SIZE
    modifies pipe, memory
    ensures pipe.bytes == old(pipe.bytes) + OutputStream(out)
  {
    ghost var start := pipe.bytes;
    for j := 0 to |out|
      invariant pipe.bytes == start + OutputStream(out[..j])
    {
      AddressPlain(out[j].src);
      assert out[..j + 1][..j] == out[..j];
      Associate(start, OutputStream(out[..j]), WireOfOutput(out[j]));
      Ipc.SendFromNode(pipe, memory, HexAddress(out[j].src), out[j].timestamp, out[j].data);
    }
    assert out[..|out|] == out;
  }

  // The record of an output that can be carried.
  function RecordOf(o: Output): (r: Ipc.Sent)
    requires Passable(o)
    ensures r == Ipc.FromNode(HexAddress(o.src), o.timestamp, o.data)
  {
    AddressPlain(o.src);
    Ipc.FromNode(HexAddress(o.src), o.timestamp, o.data)
  }

  function RecordsOf(out: seq<Output>): (r: seq<Ipc.Sent>)
    requires AllPassable(out)
    ensures |r| == |out| && forall j | 0 <= j < |r| :: r[j] == RecordOf(out[j])
  {
    seq(|out|, j requires 0 <= j < |out| => RecordOf(out[j]))
  }

  lemma WireOfOutputIs(o: Output)
    requires Passable(o)
    ensures Ipc.FitsBuffer(Ipc.Encode(RecordOf(o))) && WireOfOutput(o) == Ipc.Wire(Ipc.Encode(RecordOf(o)))
  {
    AddressPlain(o.src);
    Ipc.DecodeInverts(RecordOf(o));
    Ipc.NodeRawIsEncode(HexAddress(o.src), o.timestamp, o.data);
  }

  lemma OutputStreamSnoc(out: seq<Output>, o: Output)
    requires AllRelayable(out) && Relayable(o)
    ensures AllRelayable(out + [o]) && OutputStream(out + [o]) == OutputStream(out) + WireOfOutput(o)
  {
    assert (out + [o])[..|out|] == out;
  }

  lemma RecordsSnoc(out: seq<Output>, o: Output)
    requires AllPassable(out) && Passable(o) && AllPassable(out + [o])
    ensures RecordsOf(out + [o]) == RecordsOf(out) + [RecordOf(o)]
  {
  }

  // The socket then carries the stream of their records.
  predicate Streamed(out: seq<Output>) {
    AllPassable(out) && OutputStream(out) == Ipc.Stream(RecordsOf(out))
  }

  lemma StreamedNext(out: seq<Output>, o: Output)
    requires Streamed(out) && Passable(o)
    ensures Streamed(out + [o])
  {
    WireOfOutputIs(o);
    OutputStreamSnoc(out, o);
    RecordsSnoc(out, o);
    Ipc.StreamSnoc(RecordsOf(out), RecordOf(o));
  }

  lemma StreamedLast(out: seq<Output>, n: nat)
    requires |out| == n + 1 && AllPassable(out) && Streamed(out[..n])
    ensures Streamed(out)
  {
    assert out == out[..n] + [out[n]];
    StreamedNext(out[..n], out[n]);
  }

  lemma {:induction false} OutputStreamIs(out: seq<Output>)
    requires AllPassable(out)
    ensures Streamed(out)
  {
    if out != [] {
      var n: nat := |out| - 1;
      OutputStreamIs(out[..n]);
      StreamedLast(out, n);
    }
  }

  // ----- up to which output the socket is read -----

  // n rounds of the reader do not break off.
  predicate ReadThrough(s: string, n: nat) {
    Ipc.SplitUp(s, n).Views?
  }

  lemma FirstAlone(o: Output)
    requires Relayable(o)
    ensures AllRelayable([o]) && OutputStream([o]) == WireOfOutput(o)
  {
    assert [o][..0] == [];
  }

  // The record of the first output comes first.
  predicate FirstSplits(o: Output, out: seq<Output>)
    requires Relayable(o) && AllRelayable(out)
  {
    AllRelayable([o] + out) && OutputStream([o] + out) == WireOfOutput(o) + OutputStream(out)
  }

  lemma FirstSplitsNext(o: Output, before: seq<Output>, last: Output)
    requires Relayable(o) && AllRelayable(before) && Relayable(last) && FirstSplits(o, before)
    ensures AllRelayable(before + [last]) && FirstSplits(o, before + [last])
  {
    assert [o] + (before + [last]) == ([o] + before) + [last];
    OutputStreamSnoc([o] + before, last);
    OutputStreamSnoc(before, last);
    Associate(WireOfOutput(o), OutputStream(before), WireOfOutput(last));
  }

  lemma FirstSplitsLast(o: Output, out: seq<Output>, n: nat)
    requires Relayable(o) && AllRelayable(out) && |out| == n + 1 && FirstSplits(o, out[..n])
    ensures FirstSplits(o, out)
  {
    assert out == out[..n] + [out[n]];
    FirstSplitsNext(o, out[..n], out[n]);
  }

  lemma {:induction false} OutputStreamCons(o: Output, out: seq<Output>)
    requires Relayable(o) && AllRelayable(out)
    ensures FirstSplits(o, out)
  {
    if out == [] {
      FirstAlone(o);
      assert [o] + out == [o];
    } else {
      var n: nat := |out| - 1;
      OutputStreamCons(o, out[..n]);
      FirstSplitsLast(o, out, n);
    }
  }

  predicate ReadIff(out: seq<Output>)
    requires AllRelayable(out)
  {
    ReadThrough(OutputStream(out), |out|) == AllPassable(out)
  }

  lemma PassableFirst(o: Output, others: seq<Output>)
    ensures AllPassable([o] + others) <==> Passable(o) && AllPassable(others)
  {
    if AllPassable([o] + others) {
      assert Passable(([o] + others)[0]);
      forall j | 0 <= j < |others| ensures Passable(others[j]) {
        assert others[j] == ([o] + others)[j + 1];
      }
    }
  }

  lemma ReadIffNext(o: Output, others: seq<Output>)
    requires Relayable(o) && |o.data| <= DATA_BUFFER_SIZE && AllRelayable(others) && ReadIff(others)
    ensures AllRelayable([o] + others) && ReadIff([o] + others)
  {
    OutputStreamCons(o, others);
    OutputTakenIff(o, OutputStream(others));
    PassableFirst(o, others);
  }

  // Every output is read if and only if none is longer than 20396 bytes; an
  // output that is also keeps all later ones from being read.
  lemma {:induction false} ReadThroughIff(out: seq<Output>)
    requires AllRelayable(out) && Buffered(out)
    ensures ReadThrough(OutputStream(out), |out|) == AllPassable(out)
    decreases |out|
  {
    if out != [] {
      var others := out[1..];
      ReadThroughIff(others);
      assert out == [out[0]] + others;
      ReadIffNext(out[0], others);
    }
  }

  lemma OutputSource(out: seq<Output>, msgs: seq<Message>, j: nat) returns (k: nat)
    requires AllRelayable(out) && multiset(Delivered(out)) == multiset(Pairs(msgs)) && j < |out|
    ensures k < |msgs| && Relayable(out[j]) && out[j].src == msgs[k].src && out[j].data == msgs[k].body
  {
    DeliveredIs(out);
    PairsAt(msgs);
    var p := Delivered(out)[j];
    assert p in multiset(Delivered(out));
    assert p in Pairs(msgs);
    k :| 0 <= k < |msgs| && Pairs(msgs)[k] == p;
  }

  lemma MessageOutput(out: seq<Output>, msgs: seq<Message>, k: nat) returns (j: nat)
    requires AllRelayable(out) && multiset(Delivered(out)) == multiset(Pairs(msgs)) && k < |msgs|
    ensures j < |out| && Relayable(out[j]) && out[j].data == msgs[k].body
  {
    DeliveredIs(out);
    PairsAt(msgs);
    var p := Pairs(msgs)[k];
    assert p in multiset(Pairs(msgs));
    assert p in Delivered(out);
    j :| 0 <= j < |out| && Delivered(out)[j] == p;
  }

  predicate WithinLimit(msgs: seq<Message>) {
    forall k | 0 <= k < |msgs| :: |msgs[k].body| <= Ipc.MAX_DATA
  }

  predicate Buffered(out: seq<Output>) {
    forall j | 0 <= j < |out| :: out[j].Forwarded? && |out[j].data| <= DATA_BUFFER_SIZE
  }

  lemma PassableIff(out: seq<Output>, msgs: seq<Message>)
    requires AllRelayable(out) && multiset(Delivered(out)) == multiset(Pairs(msgs))
    requires forall k | 0 <= k < |msgs| :: Fits(msgs[k])
    ensures AllPassable(out) == WithinLimit(msgs) && Buffered(out)
  {
    forall j | 0 <= j < |out|
      ensures out[j].Forwarded? && |out[j].data| <= DATA_BUFFER_SIZE && (WithinLimit(msgs) ==> Passable(out[j]))
    {
      var k := OutputSource(out, msgs, j);
    }
    if AllPassable(out) {
      forall k | 0 <= k < |msgs| ensures |msgs[k].body| <= Ipc.MAX_DATA {
        var j := MessageOutput(out, msgs, k);
        assert Passable(out[j]);
      }
    }
  }

  // So of messages that all find room, which the transceiver then delivers
  // exactly once, the messenger reads all if and only if none of them is
  // longer than 20396 bytes.
  lemma MessagesReadIff(s: Machine, msgs: seq<Message>, turns: seq<Turn>)
    requires Traffic(s, msgs) && Schedule(msgs, turns) && InTurn(msgs, turns) && AllSent(msgs, turns)
    requires AlwaysRoom(s, msgs, turns)
    ensures var out := Run(s, Air(msgs, turns)).1;
      && AllRelayable(out) && multiset(Delivered(out)) == multiset(Pairs(msgs))
      && ReadThrough(OutputStream(out), |out|) == WithinLimit(msgs)
  {
    var out := Run(s, Air(msgs, turns)).1;
    NeverFullIff(s, msgs, turns);
    EachMessageOnce(s, msgs, turns);
    AirIsRadio(msgs, turns);
    RunRelayable(s, Air(msgs, turns));
    PassableIff(out, msgs);
    ReadThroughIff(out);
  }

  // A message of the size of the merge buffer is delivered by the transceiver
  // and refused by the messenger.
  lemma FullBufferRefused(src: uint64, body: string, now: int, rest: string)
    requires |body| == DATA_BUFFER_SIZE && 0 <= now < TIME_LIMIT
    ensures var o := Forwarded(src, body, now);
      Delivered([o]) == [(src, body)] && Ipc.Take(WireOfOutput(o) + rest) == Ipc.TooBig
  {
    var o := Forwarded(src, body, now);
    assert [o][..0] == [];
    OutputTakenIff(o, rest);
  }

  // ----- the messenger and the server -----

  // What the server finds in the body of a frame.
  function FoundIn(f: Format.Frame): (r: seq<(string, string)>) {
    var uids := JsonScan.Values(f.body, JsonScan.Needle("uid"), Bridge.MAX_ENTRIES);
    var datas := JsonScan.Values(f.body, JsonScan.Needle("data"), Bridge.MAX_ENTRIES);
    if |uids| != |datas| then [] else seq(|uids|, i requires 0 <= i < |uids| => (uids[i], datas[i]))
  }

  function FoundAll(frames: seq<Format.Frame>): seq<(string, string)> {
    if frames == [] then [] else FoundAll(frames[..|frames| - 1]) + FoundIn(frames[|frames| - 1])
  }

  // The characters of a printed message besides namespace and text: 61 of
  // punctuation and names, 16 of the address, at most 10 of the time.
  const OVERHEAD := 61 + 16 + 10

  // Texts that survive quoting and fit the output buffer.
  predicate Tellable(text: string, namespace: string) {
    JsonText.Plain(text) && CString(text) && |text| + |namespace| + OVERHEAD <= Ipc.BUFFER_SIZE - 2
  }

  predicate Sayable(o: Output, namespace: string) {
    Passable(o) && o.data == Body(UpToNul(o.data)) && Tellable(UpToNul(o.data), namespace)
  }

  predicate AllSayable(out: seq<Output>, namespace: string) {
    forall j | 0 <= j < |out| :: Sayable(out[j], namespace)
  }

  // The body that the messenger prints for an output.
  function BodyOf(o: Output, namespace: string): string
    requires Relayable(o)
  {
    NodeRelay.NodeText(HexAddress(o.src), namespace, UpToNul(o.data), o.timestamp)
  }

  function BodiesOf(out: seq<Output>, namespace: string): (r: seq<string>)
    requires AllRelayable(out)
    ensures |r| == |out| && forall j | 0 <= j < |r| :: r[j] == BodyOf(out[j], namespace)
  {
    seq(|out|, j requires 0 <= j < |out| => BodyOf(out[j], namespace))
  }

  lemma TimeLength(time: nat)
    requires time < TIME_LIMIT
    ensures |Decimal(time)| <= 10
  {
    Reports.ShortDecimal(time);
  }

  lemma NodeTextLength(source: string, namespace: string, text: string, time: nat)
    ensures |NodeRelay.NodeText(source, namespace, text, time)|
         == |source| + |namespace| + |text| + |Decimal(time)| + 61
  {
    JsonText.NodeMessageText(source, namespace, text, time);
  }

  lemma BodyFits(o: Output, namespace: string)
    requires Sayable(o, namespace)
    ensures |BodyOf(o, namespace)| <= Ipc.BUFFER_SIZE - 2
  {
    TimeLength(o.timestamp);
    NodeTextLength(HexAddress(o.src), namespace, UpToNul(o.data), o.timestamp);
  }

  lemma OutputPrints(o: Output, namespace: string)
    requires Sayable(o, namespace)
    ensures NodeRelay.Prints(RecordOf(o), namespace, BodyOf(o, namespace))
  {
    AddressPlain(o.src);
    NodeRelay.TerminatedPrints(HexAddress(o.src), o.timestamp, UpToNul(o.data), namespace);
  }

  lemma OutputsPrint(out: seq<Output>, namespace: string)
    requires AllSayable(out, namespace)
    ensures AllPassable(out) && AllRelayable(out)
    ensures NodeRelay.PrintAll(RecordsOf(out), namespace, BodiesOf(out, namespace))
  {
    forall j | 0 <= j < |out| ensures Passable(out[j]) && Relayable(out[j]) {
      assert Sayable(out[j], namespace);
    }
    forall j | 0 <= j < |out| ensures NodeRelay.Prints(RecordsOf(out)[j], namespace, BodiesOf(out, namespace)[j]) {
      OutputPrints(out[j], namespace);
    }
  }

  // From the outputs of the transceiver to the connection with the server.
  method RelayOutputs(out: seq<Output>, pipe: Ipc.Pipe, memory: array<char>, inputBuffer: array<char>,
                      c: Connections.Connection, queue: string, namespace: string)
    returns (ok: bool, ghost frames: seq<Format.Carried>)
    requires memory.Length >= Ipc.BUFFER_SIZE + Ipc.DATA_OFFSET && inputBuffer.Length == Ipc.BUFFER_SIZE
    requires AllSayable(out, namespace) && Format.LineSafe(queue) && pipe.bytes == ""
    modifies pipe, memory, inputBuffer, c`sent
    ensures AllRelayable(out)
    ensures ok ==> NodeRelay.Carry(queue, BodiesOf(out, namespace), frames)
    ensures ok ==> c.sent == old(c.sent) + Format.Concat(Format.WriterTexts(frames))
  {
    OutputsPrint(out, namespace);
    OutputStreamIs(out);
    SendOutputs(pipe, memory, out);
    ok, frames := NodeRelay.RelayAll(pipe, inputBuffer, c, queue, namespace, |out|, RecordsOf(out),
                                     BodiesOf(out, namespace));
  }

  // ----- the scan at the server -----

  lemma ReceivedEntry(o: Output, queue: string, namespace: string, frame: Format.Carried)
    requires Sayable(o, namespace) && Format.LineSafe(queue) && JsonText.Plain(namespace)
    requires frame.frame == NodeRelay.NodeFrame(queue, NodeRelay.Fitting(BodyOf(o, namespace)))
    ensures FoundIn(Format.Received(frame.frame)) == [Entry((o.src, o.data))]
    ensures Format.Startable(frame) && NodeRelay.Addressed(Format.Received(frame.frame), queue)
  {
    AddressPlain(o.src);
    BodyFits(o, namespace);
    NodeRelay.FrameTransportable(queue, BodyOf(o, namespace));
    NodeRelay.NodeMessageArrives(queue, namespace, HexAddress(o.src), UpToNul(o.data), o.timestamp, [], "");
  }

  predicate AllAddressed(frames: seq<Format.Frame>, queue: string) {
    forall j | 0 <= j < |frames| :: NodeRelay.Addressed(frames[j], queue)
  }

  lemma AllStart(out: seq<Output>, queue: string, namespace: string, frames: seq<Format.Carried>)
    requires AllSayable(out, namespace) && AllRelayable(out) && Format.LineSafe(queue) && JsonText.Plain(namespace)
    requires NodeRelay.Carry(queue, BodiesOf(out, namespace), frames)
    ensures Format.AllStartable(frames)
    ensures AllAddressed(Format.ReceivedAll(frames), queue)
  {
    forall j | 0 <= j < |frames|
      ensures Format.Startable(frames[j]) && NodeRelay.Addressed(Format.Received(frames[j].frame), queue)
    {
      ReceivedEntry(out[j], queue, namespace, frames[j]);
    }
  }

  lemma FoundAllSnoc(frames: seq<Format.Frame>, f: Format.Frame)
    ensures FoundAll(frames + [f]) == FoundAll(frames) + FoundIn(f)
  {
    assert (frames + [f])[..|frames|] == frames;
  }

  lemma LastReceived(frames: seq<Format.Carried>, n: nat)
    requires |frames| == n + 1
    ensures Format.ReceivedAll(frames) == Format.ReceivedAll(frames[..n]) + [Format.Received(frames[n].frame)]
  {
  }

  lemma LastBody(out: seq<Output>, namespace: string, n: nat)
    requires AllRelayable(out) && |out| == n + 1
    ensures AllRelayable(out[..n]) && BodiesOf(out[..n], namespace) == BodiesOf(out, namespace)[..n]
  {
  }

  lemma LastFrame(out: seq<Output>, queue: string, namespace: string, frames: seq<Format.Carried>, n: nat)
    requires AllRelayable(out) && NodeRelay.Carry(queue, BodiesOf(out, namespace), frames) && |out| == n + 1
    ensures AllRelayable(out[..n]) && NodeRelay.Carry(queue, BodiesOf(out[..n], namespace), frames[..n])
    ensures frames[n].frame == NodeRelay.NodeFrame(queue, NodeRelay.Fitting(BodyOf(out[n], namespace)))
    ensures Format.ReceivedAll(frames) == Format.ReceivedAll(frames[..n]) + [Format.Received(frames[n].frame)]
  {
    LastReceived(frames, n);
    LastBody(out, namespace, n);
  }

  lemma {:induction false} ReceivedEntries(out: seq<Output>, queue: string, namespace: string, frames: seq<Format.Carried>)
    requires AllSayable(out, namespace) && AllRelayable(out) && Format.LineSafe(queue) && JsonText.Plain(namespace)
    requires NodeRelay.Carry(queue, BodiesOf(out, namespace), frames)
    ensures FoundAll(Format.ReceivedAll(frames)) == Entries(Delivered(out))
    decreases |out|
  {
    if out != [] {
      var n: nat := |out| - 1;
      var o := out[n];
      LastFrame(out, queue, namespace, frames, n);
      ReceivedEntries(out[..n], queue, namespace, frames[..n]);
      ReceivedEntry(o, queue, namespace, frames[n]);
      FoundAllSnoc(Format.ReceivedAll(frames[..n]), Format.Received(frames[n].frame));
      LastEntry(out, o, n);
    }
  }

  lemma LastEntry(out: seq<Output>, o: Output, n: nat)
    requires |out| == n + 1 && out[n] == o && Relayable(o)
    ensures Entries(Delivered(out)) == Entries(Delivered(out[..n])) + [Entry((o.src, o.data))]
  {
    EntriesSnoc(Delivered(out[..n]), (o.src, o.data));
  }

  lemma EntriesSnoc(pairs: seq<Pair>, p: Pair)
    ensures Entries(pairs + [p]) == Entries(pairs) + [Entry(p)]
  {
  }

  // The nodes tell these texts, and every fragment finds room.
  predicate Telling(s: Machine, told: seq<Told>, turns: seq<Turn>, namespace: string) {
    var msgs := Messages(told);
    && Traffic(s, msgs) && Schedule(msgs, turns) && InTurn(msgs, turns)
    && AlwaysRoom(s, msgs, turns) && AllSent(msgs, turns)
    && (forall k | 0 <= k < |told| :: Tellable(told[k].text, namespace))
  }

  lemma ToldOutputs(s: Machine, told: seq<Told>, turns: seq<Turn>, namespace: string)
    requires Telling(s, told, turns, namespace)
    ensures var out := Run(s, Air(Messages(told), turns)).1;
      && AllRelayable(out) && AllSayable(out, namespace)
      && multiset(Entries(Delivered(out))) == multiset(ToldEntries(told))
  {
    var msgs := Messages(told);
    var out := Run(s, Air(msgs, turns)).1;
    NeverFullIff(s, msgs, turns);
    EachMessageOnce(s, msgs, turns);
    AirIsRadio(msgs, turns);
    RunRelayable(s, Air(msgs, turns));
    EntriesOfEqual(Delivered(out), Pairs(msgs));
    ToldEntriesAre(told);
    forall j | 0 <= j < |out| ensures Sayable(out[j], namespace) {
      var k := OutputSource(out, msgs, j);
      TextOfBody(told[k].text);
    }
  }

  // What the server makes of a byte stream of n frames: they are all messages
  // to the queue, nothing is left unread, and it finds what the nodes told.
  predicate ServerFinds(stream: string, n: nat, queue: string, told: seq<Told>) {
    var read := Format.ReadStream(stream, n);
    && read.Ok? && read.value.1 == "" && AllAddressed(read.value.0, queue)
    && multiset(FoundAll(read.value.0)) == multiset(ToldEntries(told))
  }

  // Every text that a listed node hands to send_message is found by the
  // server exactly once, under the printed address of that node: in the frames
  // that a reader gets from the byte stream of the messenger, to the last byte.
  lemma EachTextFound(s: Machine, told: seq<Told>, turns: seq<Turn>, queue: string, namespace: string,
                      frames: seq<Format.Carried>)
    requires Telling(s, told, turns, namespace) && Format.LineSafe(queue) && JsonText.Plain(namespace)
    requires var out := Run(s, Air(Messages(told), turns)).1;
      AllRelayable(out) && NodeRelay.Carry(queue, BodiesOf(out, namespace), frames)
    ensures ServerFinds(Format.Concat(Format.WriterTexts(frames)), |frames|, queue, told)
  {
    var out := Run(s, Air(Messages(told), turns)).1;
    ToldOutputs(s, told, turns, namespace);
    ReceivedEntries(out, queue, namespace, frames);
    AllStart(out, queue, namespace, frames);
    Format.WriterStreamReadBack(frames);
  }

  // The namespace and the time under which a message is found.
  predicate OriginIn(f: Format.Frame, namespace: string, time: nat) {
    && JsonScan.Values(f.body, JsonScan.Needle("namespace"), Bridge.MAX_ENTRIES) == [namespace]
    && JsonScan.Values(f.body, JsonScan.Needle("timestamp"), Bridge.MAX_ENTRIES) == [Decimal(time)]
  }

  lemma FrameOrigin(o: Output, queue: string, namespace: string, frame: Format.Carried)
    requires Sayable(o, namespace) && Format.LineSafe(queue)
    requires JsonText.Unmistakable(namespace) && JsonText.Unmistakable(UpToNul(o.data))
    requires frame.frame == NodeRelay.NodeFrame(queue, NodeRelay.Fitting(BodyOf(o, namespace)))
    ensures OriginIn(Format.Received(frame.frame), namespace, o.timestamp)
  {
    AddressPlain(o.src);
    BodyFits(o, namespace);
    NodeRelay.FrameTransportable(queue, BodyOf(o, namespace));
    JsonText.NodeMessageOrigin(HexAddress(o.src), namespace, UpToNul(o.data), o.timestamp, Bridge.MAX_ENTRIES);
  }

  // Frame j of the stream bears the namespace and the time of output j.
  lemma EachOriginFound(out: seq<Output>, queue: string, namespace: string, frames: seq<Format.Carried>)
    requires AllSayable(out, namespace) && AllRelayable(out) && Format.LineSafe(queue)
    requires JsonText.Plain(namespace) && JsonText.Unmistakable(namespace)
    requires forall j | 0 <= j < |out| :: JsonText.Unmistakable(UpToNul(out[j].data))
    requires NodeRelay.Carry(queue, BodiesOf(out, namespace), frames)
    ensures var read := Format.ReadStream(Format.Concat(Format.WriterTexts(frames)), |frames|);
      && read.Ok? && |read.value.0| == |out|
      && forall j | 0 <= j < |out| :: OriginIn(read.value.0[j], namespace, out[j].timestamp)
  {
    AllStart(out, queue, namespace, frames);
    Format.WriterStreamReadBack(frames);
    forall j | 0 <= j < |out| ensures OriginIn(Format.ReceivedAll(frames)[j], namespace, out[j].timestamp) {
      FrameOrigin(out[j], queue, namespace, frames[j]);
    }
  }

  // The programs one behind the other: what the nodes told is what the server
  // finds in the bytes that the messenger has sent.
  method TellServer(g: Gateway, told: seq<Told>, turns: seq<Turn>, pipe: Ipc.Pipe, memory: array<char>,
                    inputBuffer: array<char>, c: Connections.Connection, queue: string, namespace: string)
    returns (ok: bool, ghost stream: string, ghost n: nat)
    requires g.Valid() && Telling(g.Abstract(), told, turns, namespace)
    requires Format.LineSafe(queue) && JsonText.Plain(namespace)
    requires memory.Length >= Ipc.BUFFER_SIZE + Ipc.DATA_OFFSET && inputBuffer.Length == Ipc.BUFFER_SIZE
    requires pipe.bytes == ""
    modifies g, g.packetQueue, g.whitelist, g.comlist, g.dataBuffer, pipe, memory, inputBuffer, c`sent
    ensures ok ==> c.sent == old(c.sent) + stream
    ensures ok ==> ServerFinds(stream, n, queue, told)
  {
    ghost var s: Machine := g.Abstract();
    var out := g.MainLoop(Air(Messages(told), turns));
    ToldOutputs(s, told, turns, namespace);
    ghost var frames;
    ok, frames := RelayOutputs(out, pipe, memory, inputBuffer, c, queue, namespace);
    stream, n := Format.Concat(Format.WriterTexts(frames)), |frames|;
    if ok {
      EachTextFound(s, told, turns, queue, namespace, frames);
    }
  }
}

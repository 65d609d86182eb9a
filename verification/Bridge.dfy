// The handler of byteport-stomp-client.c for messages of the server, which
// become node-list and message records.
module Bridge {
  import opened Memory
  import opened Packets
  import opened CStrings
  import opened JsonScan
  import opened Statics
  import opened IdLists
  import Ipc
  import Connections
  import Format = StompFormat
  import Stomp

  const MAX_ENTRIES := 100
  const MAX_COMMANDS := 1

  // ----- send_whitelist -----

  lemma {:induction false} NodeBytesSnoc(ids: seq<uint64>, id: uint64)
    ensures Ipc.NodeBytes(ids + [id]) == Ipc.NodeBytes(ids) + Ipc.Bytes(id, 8)
  {
    if ids == [] {
      assert [id][1..] == [] && [] + [id] == [id];
    } else {
      assert (ids + [id])[1..] == ids[1..] + [id];
      NodeBytesSnoc(ids[1..], id);
    }
  }

  // The struct in the static buffer while the list is being filled.
  predicate Entries(buffer: string, padding: string, ids: seq<uint64>) {
    && |buffer| == Ipc.BUFFER_SIZE && 16 + 8 * |ids| <= Ipc.BUFFER_SIZE
    && buffer[0..4] == Ipc.Bytes(Ipc.NODELIST_ID, 4)
    && buffer[10..16] == padding && buffer[16..16 + 8 * |ids|] == Ipc.NodeBytes(ids)
  }

  predicate Filling(buffer: string, padding: string, ids: seq<uint64>) {
    Entries(buffer, padding, ids) && buffer[8..10] == Ipc.Bytes(|ids|, 2)
  }

  method StoreId(outputBuffer: array<char>, ghost padding: string, ghost ids: seq<uint64>, n: nat, id: uint64)
    requires n == |ids| && Filling(outputBuffer[..], padding, ids) && 16 + 8 * (n + 1) <= Ipc.BUFFER_SIZE
    modifies outputBuffer
    ensures Filling(outputBuffer[..], padding, ids + [id])
  {
    EntryStored(outputBuffer[..], padding, ids, id);
    CopyInto(outputBuffer, 16 + 8 * n, Ipc.Bytes(id, 8));
    LengthStored(outputBuffer[..], padding, ids + [id]);
    CopyInto(outputBuffer, 8, Ipc.Bytes(n + 1, 2));
  }

  lemma EntryStored(buffer: string, padding: string, ids: seq<uint64>, id: uint64)
    requires Entries(buffer, padding, ids) && 16 + 8 * (|ids| + 1) <= Ipc.BUFFER_SIZE
    ensures Entries(Overwritten(buffer, 16 + 8 * |ids|, Ipc.Bytes(id, 8)), padding, ids + [id])
  {
    var end := 16 + 8 * |ids|;
    var b := Overwritten(buffer, end, Ipc.Bytes(id, 8));
    OverwrittenSlice(buffer, end, Ipc.Bytes(id, 8), 0, 4);
    OverwrittenSlice(buffer, end, Ipc.Bytes(id, 8), 10, 16);
    OverwrittenSlice(buffer, end, Ipc.Bytes(id, 8), 16, end);
    JoinSlices(b, 16, end, end + 8);
    NodeBytesSnoc(ids, id);
  }

  lemma LengthStored(buffer: string, padding: string, ids: seq<uint64>)
    requires Entries(buffer, padding, ids)
    ensures Filling(Overwritten(buffer, 8, Ipc.Bytes(|ids|, 2)), padding, ids)
  {
    OverwrittenSlice(buffer, 8, Ipc.Bytes(|ids|, 2), 0, 4);
    OverwrittenSlice(buffer, 8, Ipc.Bytes(|ids|, 2), 10, 16);
    OverwrittenSlice(buffer, 8, Ipc.Bytes(|ids|, 2), 16, 16 + 8 * |ids|);
  }

  lemma JoinSlices(s: string, a: nat, b: nat, c: nat)
    requires a <= b <= c <= |s|
    ensures s[a..c] == s[a..b] + s[b..c]
  {
  }

  // The ids go one by one into the static buffer.
  method FillList(outputBuffer: array<char>, data: string) returns (valid: bool, listLen: nat)
    requires outputBuffer.Length == Ipc.BUFFER_SIZE
    requires 16 + 8 * |ParsedIds(data)| <= Ipc.BUFFER_SIZE
    modifies outputBuffer
    ensures valid == AllValid(data)
    ensures valid ==> listLen == |ParsedIds(data)|
    ensures valid ==> Filling(outputBuffer[..], old(outputBuffer[10..16]), ParsedIds(data))
  {
    ghost var padding := outputBuffer[10..16];
    CopyInto(outputBuffer, 0, Ipc.Bytes(Ipc.NODELIST_ID, 4));
    CopyInto(outputBuffer, 8, Ipc.Bytes(0, 2));
    var p := data;
    listLen := 0;
    ghost var ids: seq<uint64> := [];
    while p != ""
      invariant listLen == |ids| && Filling(outputBuffer[..], padding, ids)
      invariant ids + ParsedIds(p) == ParsedIds(data)
      invariant AllValid(p) == AllValid(data)
      decreases |p|
    {
      var (value, rest) := StrToLL(p);
      if value == 0 {
        assert !AllValid(p);
        return false, listLen;
      }
      var id := value % 0x1_0000_0000_0000_0000;
      NextId(ids, p, id, rest);
      StoreId(outputBuffer, padding, ids, listLen, id);
      listLen, ids := listLen + 1, ids + [id];
      p := SkipSeparators(rest);
    }
    assert ids == ParsedIds(data);
    valid := true;
  }

  // send_whitelist; NULL for the string is the empty list. The padding is what
  // the static buffer held before.
  method SendWhitelist(pipe: Ipc.Pipe, outputBuffer: array<char>, data: string)
    requires outputBuffer.Length == Ipc.BUFFER_SIZE
    requires Ipc.NODELIST_SIZE + 8 * |ParsedIds(data)| <= Ipc.BUFFER_SIZE
    modifies pipe, outputBuffer
    ensures var r := Ipc.NodeList(old(outputBuffer[10..16]), ParsedIds(data));
      if !AllValid(data) then pipe.bytes == old(pipe.bytes)
      else Ipc.FitsBuffer(Ipc.Encode(r)) && pipe.bytes == old(pipe.bytes) + Ipc.Wire(Ipc.Encode(r))
  {
    ghost var r := Ipc.NodeList(outputBuffer[10..16], ParsedIds(data));
    var valid, listLen := FillList(outputBuffer, data);
    if !valid { return; }
    var payloadSize := Ipc.NODELIST_SIZE - Ipc.HEADER_SIZE + 8 * listLen - 8;
    FilledIsWire(outputBuffer[..], Ipc.Bytes(payloadSize, 4), r.padding, r.nodes);
    Ipc.NodeListWire(r.padding, r.nodes);
    CopyInto(outputBuffer, 4, Ipc.Bytes(payloadSize, 4));
    var n := Ipc.HEADER_SIZE + payloadSize;
    assert outputBuffer[..][..n] == outputBuffer[..n];
    pipe.Send(outputBuffer[..n]);
  }

  lemma FilledIsWire(buffer: string, size: string, padding: string, ids: seq<uint64>)
    requires Filling(buffer, padding, ids) && |size| == 4 && |padding| == 6
    ensures Overwritten(buffer, 4, size)[..16 + 8 * |ids|]
         == Ipc.Bytes(Ipc.NODELIST_ID, 4) + size + (Ipc.Bytes(|ids|, 2) + padding + Ipc.NodeBytes(ids))
  {
    var o, n := Overwritten(buffer, 4, size), 16 + 8 * |ids|;
    OverwrittenSlice(buffer, 4, size, 0, 4);
    OverwrittenSlice(buffer, 4, size, 8, 10);
    OverwrittenSlice(buffer, 4, size, 10, 16);
    OverwrittenSlice(buffer, 4, size, 16, n);
    WireOf(o, size, padding, ids);
  }

  lemma NextId(ids: seq<uint64>, p: string, id: uint64, rest: string)
    requires p != "" && StrToLL(p).0 != 0 && StrToLL(p).1 == rest && id == StrToLL(p).0 % 0x1_0000_0000_0000_0000
    ensures ids + ParsedIds(p) == (ids + [id]) + ParsedIds(SkipSeparators(rest))
    ensures AllValid(p) == AllValid(SkipSeparators(rest))
  {
  }

  lemma WireOf(s: string, size: string, padding: string, ids: seq<uint64>)
    requires |size| == 4 && |padding| == 6 && 16 + 8 * |ids| <= |s|
    requires s[0..4] == Ipc.Bytes(Ipc.NODELIST_ID, 4) && s[4..8] == size && s[8..10] == Ipc.Bytes(|ids|, 2)
    requires s[10..16] == padding && s[16..16 + 8 * |ids|] == Ipc.NodeBytes(ids)
    ensures s[..16 + 8 * |ids|]
         == Ipc.Bytes(Ipc.NODELIST_ID, 4) + size + (Ipc.Bytes(|ids|, 2) + padding + Ipc.NodeBytes(ids))
  {
    var n := 16 + 8 * |ids|;
    JoinSlices(s, 8, 10, 16);
    JoinSlices(s, 8, 16, n);
    JoinSlices(s, 0, 4, 8);
    JoinSlices(s, 0, 8, n);
    assert s[..n] == s[0..n];
  }

  // ----- messages from the server -----

  // The allocated part of the pool.
  ghost function Allocated(pool: Pool): string
    requires pool.index <= pool.data.Length
    reads pool, pool.data
  {
    pool.data[..pool.index]
  }

  // The column holds the addresses of these strings, stored from start on.
  ghost predicate Column(memory: string, entries: array2<nat>, member: nat, start: nat, values: seq<string>)
    reads entries
  {
    && |values| <= entries.Length0 && member < entries.Length1
    && forall k | 0 <= k < |values| ::
         entries[k, member] == start + Address(values, k) && StringIs(memory, entries[k, member], values[k])
  }

  lemma StringStays(memory: string, more: string, at: nat, s: string)
    requires StringIs(memory, at, s)
    ensures StringIs(memory + more, at, s)
  {
    assert (memory + more)[at..at + |s| + 1] == memory[at..at + |s| + 1];
  }

  lemma PackedString(memory: string, values: seq<string>, at: nat, k: nat)
    requires k < |values| && CString(values[k]) && at == |memory| + Address(values, k)
    ensures StringIs(memory + Packed(values, |values|), at, values[k])
  {
    PackedAt(values, k, |values|);
    var a, b := Address(values, k), Address(values, k) + |values[k]| + 1;
    var all := Packed(values, |values|);
    SliceBehind(memory, all, a, b);
  }

  lemma SliceBehind(s: string, t: string, a: nat, b: nat)
    requires a <= b <= |t|
    ensures (s + t)[|s| + a..|s| + b] == t[a..b]
  {
  }

  predicate AllCStrings(values: seq<string>) {
    forall i | 0 <= i < |values| :: CString(values[i])
  }

  lemma ConsCString(json: string, needle: string, max: nat, value: string, rest: string)
    requires max > 0 && Search(json, needle) == Next(value, rest) && CString(value)
    requires rest == "" || AllCStrings(Values(rest, needle, max - 1))
    ensures AllCStrings(Values(json, needle, max))
  {
    var others := if rest == "" then [] else Values(rest, needle, max - 1);
    assert Values(json, needle, max) == [value] + others;
  }

  lemma {:induction false} ValuesAreCStrings(json: string, needle: string, max: nat)
    requires CString(json)
    ensures AllCStrings(Values(json, needle, max))
    decreases max
  {
    if max > 0 {
      SearchIsCString(json, needle);
      var r := Search(json, needle);
      if r.Next? {
        if r.rest != "" {
          ValuesAreCStrings(r.rest, needle, max - 1);
        }
        ConsCString(json, needle, max, r.value, r.rest);
      }
    }
  }

  lemma {:induction false} AfterIsCString(s: string, pattern: string)
    requires CString(s)
    ensures After(s, pattern).Behind? ==> CString(After(s, pattern).rest)
  {
    if !StartsWith(s, pattern) && s != "" {
      AfterIsCString(s[1..], pattern);
    }
  }

  lemma SearchIsCString(json: string, needle: string)
    requires CString(json)
    ensures var r := Search(json, needle);
      r.Next? ==> CString(r.value) && CString(r.rest)
  {
    AfterIsCString(json, needle);
  }

  // One scan, as it shows in the memory of the pool.
  method ScanField(pool: Pool, field: string, entries: array2<nat>, member: nat, max: nat, json: string) returns (n: nat)
    requires pool.Valid() && member < entries.Length1 && max <= entries.Length0 && CString(json)
    requires pool.index + Need(Values(json, Needle(field), max)) < POOL_SIZE
    modifies pool, pool.data, entries
    ensures pool.Valid() && n == Counted(json, Needle(field), max)
    ensures var values := Values(json, Needle(field), max);
      && Allocated(pool) == old(Allocated(pool)) + Packed(values, |values|)
      && Column(Allocated(pool), entries, member, old(pool.index), values)
    ensures forall k, m | 0 <= k < entries.Length0 && 0 <= m < entries.Length1 && m != member ::
              entries[k, m] == old(entries[k, m])
  {
    ghost var memory, start := Allocated(pool), pool.index;
    n := GetJsonValueByField(pool, field, entries, member, max, json);
    ghost var values := Values(json, Needle(field), max);
    Grown(pool.data, start, pool.index);
    ValuesAreCStrings(json, Needle(field), max);
    ColumnOfPacked(memory, entries, member, values);
  }

  lemma Grown(data: array<char>, start: nat, end: nat)
    requires start <= end <= data.Length
    ensures data[..end] == data[..start] + data[start..end]
  {
  }

  lemma ColumnOfPacked(memory: string, entries: array2<nat>, member: nat, values: seq<string>)
    requires |values| <= entries.Length0 && member < entries.Length1 && AllCStrings(values)
    requires forall k | 0 <= k < |values| :: entries[k, member] == |memory| + Address(values, k)
    ensures Column(memory + Packed(values, |values|), entries, member, |memory|, values)
  {
    forall k | 0 <= k < |values|
      ensures StringIs(memory + Packed(values, |values|), entries[k, member], values[k])
    {
      assert CString(values[k]);
      PackedString(memory, values, entries[k, member], k);
    }
  }

  // What a message of the server makes the client send.
  datatype Reaction = Nothing | SendList(text: string) | Forward(uids: seq<string>, datas: seq<string>)

  // The strings that a scan stored and the number it returned.
  datatype Scanned = Scanned(values: seq<string>, count: nat)

  function ScanOf(body: string, field: string, max: nat): (r: Scanned)
    ensures r.count <= |r.values|
  {
    CountedAtMost(body, Needle(field), max);
    Scanned(Values(body, Needle(field), max), Counted(body, Needle(field), max))
  }

  predicate ToGateway(gatewayId: string, uid: Scanned) {
    0 < uid.count <= |uid.values| && uid.values[0] == gatewayId
  }

  // What a command to the gateway makes of the message.
  datatype Choice = GoOn | Ignore | List(text: string)

  function CommandChoice(uid: Scanned, data: Scanned, cmd: Scanned): Choice
    requires data.count <= |data.values| && cmd.count <= |cmd.values|
  {
    if uid.count != 1 || cmd.count != 1 then Ignore else Command(cmd.values[0], data)
  }

  function Command(command: string, data: Scanned): Choice
    requires data.count <= |data.values|
  {
    if command == "clear_whitelist" then List("")
    else if command == "add_to_whitelist" then
      if data.count != 1 then Ignore else List(data.values[0])
    else GoOn
  }

  function ForwardIfEqual(uid: Scanned, data: Scanned): Reaction
    requires uid.count <= |uid.values| && data.count <= |data.values|
  {
    if data.count != uid.count then Nothing else Forward(uid.values[..uid.count], data.values[..uid.count])
  }

  // The command is looked up only for the gateway.
  function GatewayChoice(gatewayId: string, uid: Scanned, data: Scanned, cmd: Scanned): Choice
    requires data.count <= |data.values| && cmd.count <= |cmd.values|
  {
    if ToGateway(gatewayId, uid) then CommandChoice(uid, data, cmd) else GoOn
  }

  // Decisions of the handler.
  function Decide(gatewayId: string, uid: Scanned, data: Scanned, cmd: Scanned): Reaction
    requires uid.count <= |uid.values| && data.count <= |data.values| && cmd.count <= |cmd.values|
  {
    if uid.count == 0 then Nothing
    else
      match GatewayChoice(gatewayId, uid, data, cmd)
      case GoOn => ForwardIfEqual(uid, data)
      case Ignore => Nothing
      case List(text) => SendList(text)
  }

  function React(gatewayId: string, body: string): Reaction {
    Decide(gatewayId, ScanOf(body, "uid", MAX_ENTRIES), ScanOf(body, "data", MAX_ENTRIES), ScanOf(body, "cmd", MAX_COMMANDS))
  }

  // strncpy zeroes pool bytes while a record is sent, so behind the first
  // record a string that begins there has become empty.
  function Arriving(values: seq<string>, start: nat, spill: nat): (r: seq<string>)
    ensures |r| == |values|
    ensures forall i | 0 <= i < |r| ::
              r[i] == if i > 0 && start + Address(values, i) < spill then "" else values[i]
  {
    seq(|values|, i requires 0 <= i < |values| =>
      if i > 0 && start + Address(values, i) < spill then "" else values[i])
  }

  // What is sent of a reaction when the data strings begin at an address.
  function Overrun(reaction: Reaction, dataStart: nat, spill: nat): Reaction {
    match reaction
    case Nothing => Nothing
    case SendList(text) => SendList(text)
    case Forward(uids, datas) => Forward(Arriving(uids, 0, spill), Arriving(datas, dataStart, spill))
  }

  // The first data string lies behind all uid strings that were found.
  function SentFor(gatewayId: string, body: string, spill: nat): Reaction {
    Overrun(React(gatewayId, body), Need(ScanOf(body, "uid", MAX_ENTRIES).values), spill)
  }

  type Records = seq<Ipc.Sent>

  predicate Postable(reaction: Reaction) {
    match reaction
    case Nothing => true
    case SendList(text) => Ipc.NODELIST_SIZE + 8 * |ParsedIds(text)| <= Ipc.BUFFER_SIZE
    case Forward(uids, datas) =>
      |uids| == |datas| && forall i | 0 <= i < |uids| :: Ipc.Postable(Ipc.ToNode(uids[i], datas[i]))
  }

  lemma OverrunPostable(reaction: Reaction, dataStart: nat, spill: nat)
    requires Postable(reaction)
    ensures Postable(Overrun(reaction, dataStart, spill))
  {
    if reaction.Forward? {
      var sent := Overrun(reaction, dataStart, spill);
      forall i | 0 <= i < |sent.uids| ensures Ipc.Postable(Ipc.ToNode(sent.uids[i], sent.datas[i])) {
        assert Ipc.Postable(Ipc.ToNode(reaction.uids[i], reaction.datas[i]));
      }
    }
  }

  function Messages(uids: seq<string>, datas: seq<string>): (r: Records)
    requires Postable(Forward(uids, datas))
    ensures |r| == |uids|
  {
    seq(|uids|, i requires 0 <= i < |uids| => Ipc.ToNode(uids[i], datas[i]))
  }

  // The records that a reaction puts on the socket.
  function Posted(reaction: Reaction, padding: string): Records
    requires Postable(reaction) && |padding| == 6
  {
    match reaction
    case Nothing => []
    case SendList(text) => if AllValid(text) then [Ipc.NodeList(padding, ParsedIds(text))] else []
    case Forward(uids, datas) => Messages(uids, datas)
  }

  // What the first i of the messages put on the socket.
  function PostedUpTo(uids: seq<string>, datas: seq<string>, i: nat): string
    requires Postable(Forward(uids, datas)) && i <= |uids|
  {
    Ipc.Stream(Messages(uids, datas)[..i])
  }

  lemma PostedNext(uids: seq<string>, datas: seq<string>, i: nat)
    requires Postable(Forward(uids, datas)) && i < |uids|
    ensures var r := Ipc.ToNode(uids[i], datas[i]);
      && Ipc.Postable(r) && Ipc.FitsBuffer(Ipc.Encode(r))
      && PostedUpTo(uids, datas, i + 1) == PostedUpTo(uids, datas, i) + Ipc.Wire(Ipc.Encode(r))
  {
    var all := Messages(uids, datas);
    assert all[..i + 1] == all[..i] + [all[i]];
    Ipc.StreamSnoc(all[..i], all[i]);
  }

  lemma PostedAll(uids: seq<string>, datas: seq<string>)
    requires Postable(Forward(uids, datas))
    ensures PostedUpTo(uids, datas, 0) == ""
    ensures PostedUpTo(uids, datas, |uids|) == Ipc.Stream(Messages(uids, datas))
  {
    var all := Messages(uids, datas);
    assert all[..0] == [] && all[..|uids|] == all;
  }

  // The pool while records are being sent: as it was, then with zeros in front.
  function PoolAt(memory: string, spill: nat, i: nat): string
    requires spill <= |memory|
  {
    if i == 0 then memory else Spilled(memory, spill)
  }

  lemma SpilledTwice(memory: string, spill: nat)
    requires spill <= |memory|
    ensures Spilled(Spilled(memory, spill), spill) == Spilled(memory, spill)
  {
  }

  lemma StringSpilled(memory: string, spill: nat, at: nat, s: string)
    requires spill <= |memory| && StringIs(memory, at, s)
    ensures StringIs(Spilled(memory, spill), at, if at < spill then "" else s)
  {
    var m := Spilled(memory, spill);
    if at < spill {
      assert m[at..at + 1] == "" + "\0";
    } else {
      assert m[at..at + |s| + 1] == memory[at..at + |s| + 1];
    }
  }

  // What the i-th string of a column has become when it is sent.
  lemma ColumnAt(memory: string, spill: nat, entries: array2<nat>, member: nat, start: nat, values: seq<string>, i: nat)
    requires spill <= |memory| && Column(memory, entries, member, start, values) && i < |values|
    ensures StringIs(PoolAt(memory, spill, i), entries[i, member], Arriving(values, start, spill)[i])
  {
    StringSpilled(memory, spill, entries[i, member], values[i]);
  }

  method ForwardOne(pipe: Ipc.Pipe, client: Client, uidAt: nat, dataAt: nat, ghost i: nat,
                    ghost uids: seq<string>, ghost datas: seq<string>, ghost start: string, ghost memory: string)
    requires client.Valid() && |memory| == POOL_SIZE && client.pool.data[..] == PoolAt(memory, client.Spill(), i)
    requires Postable(Forward(uids, datas)) && i < |uids|
    requires StringIs(client.pool.data[..], uidAt, uids[i]) && StringIs(client.pool.data[..], dataAt, datas[i])
    requires pipe.bytes == start + PostedUpTo(uids, datas, i)
    modifies pipe, client.outputBuffer, client.pool.data
    ensures client.Valid() && client.pool.data[..] == PoolAt(memory, client.Spill(), i + 1)
    ensures pipe.bytes == start + PostedUpTo(uids, datas, i + 1)
  {
    PostedNext(uids, datas, i);
    SpilledTwice(memory, client.Spill());
    Associate(start, PostedUpTo(uids, datas, i), Ipc.Wire(Ipc.Encode(Ipc.ToNode(uids[i], datas[i]))));
    SendToNode(pipe, client, uidAt, dataAt, uids[i], datas[i]);
  }

  // The loop at the end of the handler.
  method ForwardAll(pipe: Ipc.Pipe, client: Client, entries: array2<nat>, n: nat, ghost dataStart: nat,
                    ghost uids: seq<string>, ghost datas: seq<string>)
    requires client.Valid() && n == |uids| == |datas| && entries.Length1 == 2
    requires Column(client.pool.data[..], entries, 0, 0, uids) && Column(client.pool.data[..], entries, 1, dataStart, datas)
    requires Postable(Forward(uids, datas))
    modifies pipe, client.outputBuffer, client.pool.data
    ensures client.Valid()
    ensures var sent := Overrun(Forward(uids, datas), dataStart, client.Spill());
      Postable(sent) && pipe.bytes == old(pipe.bytes) + Ipc.Stream(Messages(sent.uids, sent.datas))
  {
    ghost var start, memory, spill := pipe.bytes, client.pool.data[..], client.Spill();
    ghost var us, ds := Arriving(uids, 0, spill), Arriving(datas, dataStart, spill);
    OverrunPostable(Forward(uids, datas), dataStart, spill);
    assert Postable(Forward(us, ds));
    PostedAll(us, ds);
    for i := 0 to n
      invariant client.Valid() && client.pool.data[..] == PoolAt(memory, spill, i)
      invariant Column(memory, entries, 0, 0, uids) && Column(memory, entries, 1, dataStart, datas)
      invariant pipe.bytes == start + PostedUpTo(us, ds, i)
    {
      ColumnAt(memory, spill, entries, 0, 0, uids, i);
      ColumnAt(memory, spill, entries, 1, dataStart, datas, i);
      ForwardOne(pipe, client, entries[i, 0], entries[i, 1], i, us, ds, start, memory);
    }
  }

  // Pool bytes used for one message of the server.
  function PoolNeed(gatewayId: string, body: string): nat {
    var uid := ScanOf(body, "uid", MAX_ENTRIES);
    Need(uid.values) + Need(ScanOf(body, "data", MAX_ENTRIES).values)
    + if ToGateway(gatewayId, uid) && uid.count == 1 then Need(ScanOf(body, "cmd", MAX_COMMANDS).values) else 0
  }

  // Both columns, the second behind the first.
  ghost predicate BothIn(memory: string, entries: array2<nat>, uids: seq<string>, datas: seq<string>)
    reads entries
  {
    Column(memory, entries, 0, 0, uids) && Column(memory, entries, 1, Need(uids), datas)
  }

  lemma BothStay(memory: string, more: string, entries: array2<nat>, uids: seq<string>, datas: seq<string>)
    requires BothIn(memory, entries, uids, datas)
    ensures BothIn(memory + more, entries, uids, datas)
  {
    ColumnStays(memory, more, entries, 0, 0, uids);
    ColumnStays(memory, more, entries, 1, Need(uids), datas);
  }

  // Both columns are as the first two scans left them.
  ghost predicate BothKept(pool: Pool, entries: array2<nat>, uid: Scanned, data: Scanned)
    reads pool, pool.data, entries
  {
    && pool.Valid() && entries.Length0 == MAX_ENTRIES && entries.Length1 == 2
    && BothIn(Allocated(pool), entries, uid.values, data.values)
  }

  // The state after the uid and the data scan.
  ghost predicate BothScanned(pool: Pool, entries: array2<nat>, uid: Scanned, data: Scanned)
    reads pool, pool.data, entries
  {
    && BothKept(pool, entries, uid, data)
    && uid.count <= |uid.values| && data.count <= |data.values|
    && pool.index == Need(uid.values) + Need(data.values)
  }

  method ScanBoth(pool: Pool, body: string) returns (entries: array2<nat>, numUid: nat, numData: nat)
    requires pool.Valid() && CString(body)
    requires Need(ScanOf(body, "uid", MAX_ENTRIES).values) + Need(ScanOf(body, "data", MAX_ENTRIES).values) < POOL_SIZE
    modifies pool, pool.data
    ensures fresh(entries)
    ensures var uid, data := ScanOf(body, "uid", MAX_ENTRIES), ScanOf(body, "data", MAX_ENTRIES);
      BothScanned(pool, entries, uid, data) && numUid == uid.count && numData == data.count
  {
    ghost var uid, data := ScanOf(body, "uid", MAX_ENTRIES), ScanOf(body, "data", MAX_ENTRIES);
    entries := new nat[MAX_ENTRIES, 2]((i, m) => 0);
    pool.Init();
    numUid := ScanField(pool, "uid", entries, 0, MAX_ENTRIES, body);
    numData := ScanSecond(pool, entries, body, uid);
  }

  method ScanSecond(pool: Pool, entries: array2<nat>, body: string, ghost uid: Scanned) returns (numData: nat)
    requires pool.Valid() && CString(body) && entries.Length0 == MAX_ENTRIES && entries.Length1 == 2
    requires uid.count <= |uid.values| && pool.index == Need(uid.values)
    requires Column(Allocated(pool), entries, 0, 0, uid.values)
    requires pool.index + Need(ScanOf(body, "data", MAX_ENTRIES).values) < POOL_SIZE
    modifies pool, pool.data, entries
    ensures var data := ScanOf(body, "data", MAX_ENTRIES);
      BothScanned(pool, entries, uid, data) && numData == data.count
  {
    ghost var memory, data := Allocated(pool), ScanOf(body, "data", MAX_ENTRIES);
    numData := ScanField(pool, "data", entries, 1, MAX_ENTRIES, body);
    forall k | 0 <= k < |uid.values| ensures StringIs(Allocated(pool), entries[k, 0], uid.values[k]) {
      assert entries[k, 0] == old(entries[k, 0]);
      StringStays(memory, Packed(data.values, |data.values|), entries[k, 0], uid.values[k]);
    }
  }

  lemma InPool(pool: Pool, at: nat, v: string)
    requires pool.Valid() && StringIs(Allocated(pool), at, v)
    ensures StringIs(pool.data[..], at, v)
  {
    StringStays(Allocated(pool), pool.data[pool.index..], at, v);
    assert Allocated(pool) + pool.data[pool.index..] == pool.data[..];
  }

  // The string at an address of a column.
  method EntryString(pool: Pool, entries: array2<nat>, k: nat, member: nat, ghost start: nat, ghost values: seq<string>)
    returns (s: string)
    requires pool.Valid() && Column(Allocated(pool), entries, member, start, values) && k < |values|
    ensures s == values[k]
  {
    InPool(pool, entries[k, member], values[k]);
    s := StringAt(pool.data, entries[k, member], values[k]);
  }

  // The branch for the gateway itself.
  method ReadCommand(pool: Pool, entries: array2<nat>, body: string, numUid: nat, numData: nat,
                     ghost uid: Scanned, ghost data: Scanned)
    returns (choice: Choice)
    requires BothScanned(pool, entries, uid, data) && CString(body)
    requires numUid == uid.count && numData == data.count
    requires numUid == 1 ==> pool.index + Need(ScanOf(body, "cmd", MAX_COMMANDS).values) < POOL_SIZE
    modifies pool, pool.data
    ensures choice == CommandChoice(uid, data, ScanOf(body, "cmd", MAX_COMMANDS))
    ensures BothKept(pool, entries, uid, data)
  {
    if numUid != 1 { return Ignore; }
    var found, command := ScanCommand(pool, entries, body, uid, data);
    if !found { return Ignore; }
    choice := ObeyCommand(pool, entries, command, numData, uid, data);
  }

  method ObeyCommand(pool: Pool, entries: array2<nat>, command: string, numData: nat, ghost uid: Scanned,
                     ghost data: Scanned)
    returns (choice: Choice)
    requires BothKept(pool, entries, uid, data) && numData == data.count <= |data.values|
    ensures choice == Command(command, data)
  {
    if command == "clear_whitelist" { return List(""); }
    if command == "add_to_whitelist" {
      if numData != 1 { return Ignore; }
      var list := EntryString(pool, entries, 0, 1, Need(uid.values), data.values);
      return List(list);
    }
    choice := GoOn;
  }

  method ScanThird(pool: Pool, entries: array2<nat>, body: string, ghost uid: Scanned, ghost data: Scanned)
    returns (cmds: array2<nat>, numCmd: nat)
    requires BothScanned(pool, entries, uid, data) && CString(body)
    requires pool.index + Need(ScanOf(body, "cmd", MAX_COMMANDS).values) < POOL_SIZE
    modifies pool, pool.data
    ensures fresh(cmds) && BothKept(pool, entries, uid, data)
    ensures var cmd := ScanOf(body, "cmd", MAX_COMMANDS);
      numCmd == cmd.count && Column(Allocated(pool), cmds, 0, old(pool.index), cmd.values)
  {
    ghost var memory, uids, datas := Allocated(pool), uid.values, data.values;
    assert BothIn(memory, entries, uids, datas);
    cmds, numCmd := ScanOne(pool, body);
    ghost var found := ScanOf(body, "cmd", MAX_COMMANDS).values;
    BothStay(memory, Packed(found, |found|), entries, uids, datas);
  }

  method ScanOne(pool: Pool, body: string) returns (cmds: array2<nat>, numCmd: nat)
    requires pool.Valid() && CString(body) && pool.index + Need(ScanOf(body, "cmd", MAX_COMMANDS).values) < POOL_SIZE
    modifies pool, pool.data
    ensures fresh(cmds) && pool.Valid()
    ensures var cmd := ScanOf(body, "cmd", MAX_COMMANDS);
      && numCmd == cmd.count && Allocated(pool) == old(Allocated(pool)) + Packed(cmd.values, |cmd.values|)
      && Column(Allocated(pool), cmds, 0, old(pool.index), cmd.values)
  {
    cmds := new nat[MAX_COMMANDS, 1]((i, m) => 0);
    numCmd := ScanField(pool, "cmd", cmds, 0, MAX_COMMANDS, body);
  }

  method ScanCommand(pool: Pool, entries: array2<nat>, body: string, ghost uid: Scanned, ghost data: Scanned)
    returns (found: bool, command: string)
    requires BothScanned(pool, entries, uid, data) && CString(body)
    requires pool.index + Need(ScanOf(body, "cmd", MAX_COMMANDS).values) < POOL_SIZE
    modifies pool, pool.data
    ensures var cmd := ScanOf(body, "cmd", MAX_COMMANDS);
      found == (cmd.count == 1) && (found ==> command == cmd.values[0])
    ensures BothKept(pool, entries, uid, data)
  {
    ghost var start := pool.index;
    var cmds, numCmd := ScanThird(pool, entries, body, uid, data);
    found, command := OnlyString(pool, cmds, numCmd, start, ScanOf(body, "cmd", MAX_COMMANDS));
  }

  method OnlyString(pool: Pool, cmds: array2<nat>, numCmd: nat, ghost start: nat, ghost cmd: Scanned)
    returns (found: bool, command: string)
    requires pool.Valid() && Column(Allocated(pool), cmds, 0, start, cmd.values)
    requires numCmd == cmd.count <= |cmd.values|
    ensures found == (cmd.count == 1) && (found ==> command == cmd.values[0])
  {
    found, command := numCmd == 1, "";
    if found {
      command := EntryString(pool, cmds, 0, 0, start, cmd.values);
    }
  }

  ghost predicate Prepared(pool: Pool, entries: array2<nat>, n: nat, dataStart: nat, isList: bool, list: string,
                           reaction: Reaction)
    reads pool, pool.data, entries
  {
    && pool.Valid() && entries.Length1 == 2
    && match reaction
       case Nothing => !isList && n == 0
       case SendList(text) => isList && list == text
       case Forward(uids, datas) =>
         && !isList && n == |uids| == |datas|
         && Column(Allocated(pool), entries, 0, 0, uids) && Column(Allocated(pool), entries, 1, dataStart, datas)
  }

  lemma {:induction false} AddressOfPrefix(values: seq<string>, n: nat, k: nat)
    requires k <= n <= |values|
    ensures Address(values[..n], k) == Address(values, k)
  {
    if k > 0 {
      AddressOfPrefix(values, n, k - 1);
    }
  }

  lemma ColumnPrefix(memory: string, entries: array2<nat>, member: nat, start: nat, values: seq<string>, n: nat)
    requires Column(memory, entries, member, start, values) && n <= |values|
    ensures Column(memory, entries, member, start, values[..n])
  {
    forall k | 0 <= k < n ensures Address(values[..n], k) == Address(values, k) {
      AddressOfPrefix(values, n, k);
    }
  }

  lemma PreparedForward(pool: Pool, entries: array2<nat>, n: nat, dataStart: nat, uids: seq<string>, datas: seq<string>)
    requires pool.Valid() && entries.Length1 == 2 && n <= |uids| && n <= |datas|
    requires Column(Allocated(pool), entries, 0, 0, uids) && Column(Allocated(pool), entries, 1, dataStart, datas)
    ensures Prepared(pool, entries, n, dataStart, false, "", Forward(uids[..n], datas[..n]))
  {
    ColumnPrefix(Allocated(pool), entries, 0, 0, uids, n);
    ColumnPrefix(Allocated(pool), entries, 1, dataStart, datas, n);
  }

  method LookUp(pool: Pool, entries: array2<nat>, gatewayId: string, body: string, numUid: nat, numData: nat,
                ghost uid: Scanned, ghost data: Scanned)
    returns (choice: Choice)
    requires BothScanned(pool, entries, uid, data) && CString(body)
    requires numUid == uid.count > 0 && numData == data.count
    requires ToGateway(gatewayId, uid) && numUid == 1 ==> pool.index + Need(ScanOf(body, "cmd", MAX_COMMANDS).values) < POOL_SIZE
    modifies pool, pool.data
    ensures choice == GatewayChoice(gatewayId, uid, data, ScanOf(body, "cmd", MAX_COMMANDS))
    ensures BothKept(pool, entries, uid, data)
  {
    var first := EntryString(pool, entries, 0, 0, 0, uid.values);
    choice := GoOn;
    if first == gatewayId {
      choice := ReadCommand(pool, entries, body, numUid, numData, uid, data);
    }
  }

  // The branches of the handler up to the decision what to send.
  method Choose(pool: Pool, entries: array2<nat>, gatewayId: string, body: string, numUid: nat, numData: nat,
                ghost uid: Scanned, ghost data: Scanned)
    returns (n: nat, isList: bool, list: string, ghost reaction: Reaction)
    requires BothScanned(pool, entries, uid, data) && CString(body)
    requires numUid == uid.count && numData == data.count
    requires ToGateway(gatewayId, uid) && numUid == 1 ==> pool.index + Need(ScanOf(body, "cmd", MAX_COMMANDS).values) < POOL_SIZE
    modifies pool, pool.data
    ensures reaction == Decide(gatewayId, uid, data, ScanOf(body, "cmd", MAX_COMMANDS))
    ensures Prepared(pool, entries, n, Need(uid.values), isList, list, reaction)
  {
    n, isList, list, reaction := 0, false, "", Nothing;
    if numUid == 0 { return; }
    var choice := LookUp(pool, entries, gatewayId, body, numUid, numData, uid, data);
    if choice.List? { return 0, true, choice.text, SendList(choice.text); }
    if choice.Ignore? { return; }
    reaction := ForwardIfEqual(uid, data);
    if numData == numUid {
      n := numUid;
      PreparedForward(pool, entries, n, Need(uid.values), uid.values, data.values);
    }
  }

  // The pool suffices for every message shorter than half of it, or a third if
  // the message is a command for the gateway.
  lemma PoolSuffices(gatewayId: string, body: string)
    requires 2 * |body| < POOL_SIZE
    requires ToGateway(gatewayId, ScanOf(body, "uid", MAX_ENTRIES)) ==> 3 * |body| < POOL_SIZE
    ensures PoolNeed(gatewayId, body) < POOL_SIZE
  {
    ScanFits(body, Needle("uid"), MAX_ENTRIES);
    ScanFits(body, Needle("data"), MAX_ENTRIES);
    ScanFits(body, Needle("cmd"), MAX_COMMANDS);
  }

  // The records for a message of the server, given how many pool bytes lie
  // within the overrun.
  function PostedFor(gatewayId: string, body: string, spill: nat, padding: string): Records
    requires Postable(React(gatewayId, body)) && |padding| == 6
  {
    OverrunPostable(React(gatewayId, body), Need(ScanOf(body, "uid", MAX_ENTRIES).values), spill);
    Posted(SentFor(gatewayId, body, spill), padding)
  }

  // receive_from_server, once the frame has been read.
  method ReceiveFromServer(pipe: Ipc.Pipe, client: Client, gatewayId: string, body: string)
    requires client.Valid() && CString(body) && PoolNeed(gatewayId, body) < POOL_SIZE
    requires Postable(React(gatewayId, body))
    modifies pipe, client.pool, client.pool.data, client.outputBuffer
    ensures client.Valid()
    ensures pipe.bytes == old(pipe.bytes)
      + Ipc.Stream(PostedFor(gatewayId, body, client.Spill(), old(client.outputBuffer[10..16])))
  {
    var entries, n, isList, list := Prepare(client.pool, gatewayId, body);
    Respond(pipe, client, entries, n, isList, list, Need(ScanOf(body, "uid", MAX_ENTRIES).values), React(gatewayId, body));
  }

  // The scans and the decision.
  method Prepare(pool: Pool, gatewayId: string, body: string)
    returns (entries: array2<nat>, n: nat, isList: bool, list: string)
    requires pool.Valid() && CString(body) && PoolNeed(gatewayId, body) < POOL_SIZE
    modifies pool, pool.data
    ensures fresh(entries)
    ensures Prepared(pool, entries, n, Need(ScanOf(body, "uid", MAX_ENTRIES).values), isList, list, React(gatewayId, body))
  {
    ghost var uid, data := ScanOf(body, "uid", MAX_ENTRIES), ScanOf(body, "data", MAX_ENTRIES);
    var numUid, numData;
    entries, numUid, numData := ScanBoth(pool, body);
    ghost var decided;
    n, isList, list, decided := Choose(pool, entries, gatewayId, body, numUid, numData, uid, data);
  }

  // Carrying out what was decided.
  method Respond(pipe: Ipc.Pipe, client: Client, entries: array2<nat>, n: nat, isList: bool, list: string,
                 ghost dataStart: nat, ghost reaction: Reaction)
    requires client.Valid() && Prepared(client.pool, entries, n, dataStart, isList, list, reaction)
    requires Postable(reaction)
    modifies pipe, client.pool.data, client.outputBuffer
    ensures client.Valid() && Postable(Overrun(reaction, dataStart, client.Spill()))
    ensures pipe.bytes == old(pipe.bytes)
      + Ipc.Stream(Posted(Overrun(reaction, dataStart, client.Spill()), old(client.outputBuffer[10..16])))
  {
    ghost var padding := client.outputBuffer[10..16];
    if isList {
      OneRecord(reaction, padding);
      SendWhitelist(pipe, client.outputBuffer, list);
    } else if n > 0 {
      ColumnInPool(client.pool, entries, 0, 0, reaction.uids);
      ColumnInPool(client.pool, entries, 1, dataStart, reaction.datas);
      ForwardAll(pipe, client, entries, n, dataStart, reaction.uids, reaction.datas);
      ghost var sent := Overrun(reaction, dataStart, client.Spill());
      assert reaction == Forward(reaction.uids, reaction.datas);
      assert Posted(sent, padding) == Messages(sent.uids, sent.datas);
    } else {
      OverrunPostable(reaction, dataStart, client.Spill());
      NoRecord(Overrun(reaction, dataStart, client.Spill()), padding);
    }
  }

  lemma ColumnInPool(pool: Pool, entries: array2<nat>, member: nat, start: nat, values: seq<string>)
    requires pool.Valid() && Column(Allocated(pool), entries, member, start, values)
    ensures Column(pool.data[..], entries, member, start, values)
  {
    ColumnStays(Allocated(pool), pool.data[pool.index..], entries, member, start, values);
    assert Allocated(pool) + pool.data[pool.index..] == pool.data[..];
  }

  // The body of a frame as a C string. A body with content-length lies in
  // exactly as many bytes, so without a NUL of its own it has no end.
  function BodyText(f: Format.Frame): Ipc.Printed {
    if Format.CONTENT_LENGTH in f.headers then Ipc.PrintedFrom(f.body, 0) else Ipc.Text(UpToNul(f.body))
  }

  lemma BodyTextIsCString(f: Format.Frame)
    ensures BodyText(f).Text? ==> CString(BodyText(f).text)
  {
    NotBeforeIndex(f.body, '\0');
    NotBeforeIndex(f.body[0..], '\0');
  }

  // The text of a body is what lies before its first NUL, or all of it if no
  // length was announced.
  lemma BodyTextIff(f: Format.Frame, text: string)
    requires CString(text)
    ensures BodyText(f) == Ipc.Text(text)
       <==> text + "\0" <= f.body || (text == f.body && "content-length" !in f.headers)
  {
    assert f.body[0..] == f.body;
    NotBeforeIndex(f.body, '\0');
    IndexHit(f.body, '\0');
    var i := IndexOf(f.body, '\0');
    if BodyText(f) == Ipc.Text(text) && i < |f.body| {
      assert f.body[..i + 1] == text + "\0";
    }
    if text + "\0" <= f.body {
      assert f.body[..|text|] == text && f.body[|text|] == '\0';
      IndexOfIs(f.body, '\0', |text|);
      assert f.body[|text|] in f.body;
    } else if text == f.body {
      assert f.body[..|f.body|] == f.body;
      IndexOfIs(f.body, '\0', |f.body|);
    }
  }

  lemma {:induction false} IndexHit(s: string, c: char)
    ensures IndexOf(s, c) < |s| ==> s[IndexOf(s, c)] == c
  {
    if s != "" && s[0] != c {
      IndexHit(s[1..], c);
    }
  }

  // NoFrame: receive_from_server returns FALSE. Undefined: the body has no end.
  datatype Handled = Done | NoFrame | Undefined

  function NextHandled(stream: string): Handled {
    match Format.Parse(stream)
    case Err(_) => NoFrame
    case Ok((frame, _)) => if BodyText(frame).RunsOn? then Undefined else Done
  }

  function NextBody(stream: string): (body: string)
    requires NextHandled(stream).Done?
    ensures CString(body)
  {
    var frame := Format.Parse(stream).value.0;
    BodyTextIsCString(frame);
    BodyText(frame).text
  }

  // receive_from_server as a whole.
  method ReadAndForward(c: Connections.Connection, pipe: Ipc.Pipe, client: Client, gatewayId: string) returns (r: Handled)
    requires client.Valid()
    requires NextHandled(c.incoming).Done? ==>
      PoolNeed(gatewayId, NextBody(c.incoming)) < POOL_SIZE && Postable(React(gatewayId, NextBody(c.incoming)))
    modifies c`incoming, pipe, client.pool, client.pool.data, client.outputBuffer
    ensures client.Valid() && r == NextHandled(old(c.incoming)) && c.incoming == Format.Rest(old(c.incoming))
    ensures pipe.bytes == old(pipe.bytes) + if !r.Done? then ""
      else Ipc.Stream(PostedFor(gatewayId, NextBody(old(c.incoming)), client.Spill(), old(client.outputBuffer[10..16])))
  {
    var frame := Stomp.Read(c);
    if frame.Err? { return NoFrame; }
    var body := BodyText(frame.value);
    BodyTextIsCString(frame.value);
    if body.RunsOn? { return Undefined; }
    ReceiveFromServer(pipe, client, gatewayId, body.text);
    r := Done;
  }

  lemma NoRecord(reaction: Reaction, padding: string)
    requires Postable(reaction) && |padding| == 6
    requires reaction.Nothing? || (reaction.Forward? && reaction.uids == [])
    ensures Ipc.Stream(Posted(reaction, padding)) == ""
  {
    if reaction.Forward? {
      assert Messages(reaction.uids, reaction.datas) == [];
    }
  }

  lemma ColumnStays(memory: string, more: string, entries: array2<nat>, member: nat, start: nat, values: seq<string>)
    requires Column(memory, entries, member, start, values)
    ensures Column(memory + more, entries, member, start, values)
  {
    forall k | 0 <= k < |values| ensures StringIs(memory + more, entries[k, member], values[k]) {
      StringStays(memory, more, entries[k, member], values[k]);
    }
  }

  lemma OneRecord(reaction: Reaction, padding: string)
    requires reaction.SendList? && Postable(reaction) && |padding| == 6
    ensures var r := Ipc.NodeList(padding, ParsedIds(reaction.text));
      && Ipc.Postable(r) && Ipc.FitsBuffer(Ipc.Encode(r))
      && Ipc.Stream(Posted(reaction, padding)) == if AllValid(reaction.text) then Ipc.Wire(Ipc.Encode(r)) else ""
  {
    var r := Ipc.NodeList(padding, ParsedIds(reaction.text));
    Ipc.DecodeInverts(r);
    assert Ipc.Stream([]) == "";
    assert [r][1..] == [];
  }

  // A frame as a server sends it is handled if and only if no length was
  // announced or the body has a NUL of its own, and then by what lies before
  // its first NUL.
  lemma HandledIff(f: Format.OutFrame, order: seq<string>, rest: string)
    requires Format.Transportable(f) && Format.IsOrder(order, Format.Keys(f))
    ensures var stream := Format.EncodeBare(f, order) + rest; var body := Format.Payload(f);
      && (NextHandled(stream) == Done <==> !Format.HasLength(f) || '\0' in body)
      && (NextHandled(stream) == Done ==> (NextBody(stream) == body && '\0' !in body) || NextBody(stream) + "\0" <= body)
  {
    var stream := Format.EncodeBare(f, order) + rest;
    Format.BareRoundTrip(f, order, rest);
    var frame := Format.Received(f);
    assert Format.Parse(stream) == Format.Ok((frame, rest));
    assert frame.body[0..] == frame.body == Format.Payload(f);
    NotBeforeIndex(frame.body, '\0');
    if BodyText(frame).Text? {
      BodyTextIsCString(frame);
      BodyTextIff(frame, BodyText(frame).text);
    }
  }
}

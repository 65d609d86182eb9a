// What the transceiver receives for every message of the server: commands to
// the gateway, messages for nodes and messages that are ignored. A message is
// any printed text of quoted fields.
module GatewayCommands {
  import opened Packets
  import opened CStrings
  import opened JsonScan
  import opened JsonText
  import opened NodeLists
  import opened IdLists
  import opened Bridge
  import opened Statics
  import opened Transceiver
  import opened Whitelisting
  import Ipc

  // No string in the message can be mistaken for a field name, and the message
  // does not end with the quote of a value.
  predicate Readable(fields: seq<Field>, tail: string) {
    Clean(fields, tail, "uid") && Clean(fields, tail, "data") && Clean(fields, tail, "cmd") && tail != ""
  }

  // The reader of the socket finds exactly these records, in this order.
  predicate Sends(gatewayId: string, fields: seq<Field>, tail: string, spill: nat, padding: string, views: seq<Ipc.View>) {
    && |padding| == 6 && Bridge.Postable(React(gatewayId, Printed(fields, tail)))
    && Ipc.SplitUp(Ipc.Stream(PostedFor(gatewayId, Printed(fields, tail), spill, padding)), |views|)
       == Ipc.Views(views, "")
  }

  // ----- the scans -----

  lemma ScanIs(fields: seq<Field>, tail: string, name: string, max: nat)
    requires Clean(fields, tail, name) && tail != "" && Needle(name) == Quoted(name)
    ensures var found := Named(fields, name);
      ScanOf(Printed(fields, tail), name, max) == Scanned(found[..Min(|found|, max)], Min(|found|, max))
  {
    ScanPrinted(fields, tail, name, max);
  }

  lemma ScansAre(fields: seq<Field>, tail: string)
    requires Readable(fields, tail)
    ensures var text := Printed(fields, tail);
      var uids, datas, cmds := Named(fields, "uid"), Named(fields, "data"), Named(fields, "cmd");
      && ScanOf(text, "uid", MAX_ENTRIES) == Scanned(uids[..Min(|uids|, 100)], Min(|uids|, 100))
      && ScanOf(text, "data", MAX_ENTRIES) == Scanned(datas[..Min(|datas|, 100)], Min(|datas|, 100))
      && ScanOf(text, "cmd", MAX_COMMANDS) == Scanned(cmds[..Min(|cmds|, 1)], Min(|cmds|, 1))
  {
    ScanIs(fields, tail, "uid", MAX_ENTRIES);
    ScanIs(fields, tail, "data", MAX_ENTRIES);
    ScanIs(fields, tail, "cmd", MAX_COMMANDS);
  }

  // ----- what is sent -----

  // Nothing at all.
  lemma NothingSent(gatewayId: string, fields: seq<Field>, tail: string, spill: nat, padding: string)
    requires |padding| == 6 && React(gatewayId, Printed(fields, tail)) == Nothing
    ensures Sends(gatewayId, fields, tail, spill, padding, [])
  {
  }

  // One list.
  lemma ListSent(gatewayId: string, fields: seq<Field>, tail: string, spill: nat, padding: string, text: string,
                 ids: seq<uint64>)
    requires |padding| == 6 && React(gatewayId, Printed(fields, tail)) == SendList(text) && ParsesTo(text, ids)
    requires Ipc.NODELIST_SIZE + 8 * |ids| <= Ipc.BUFFER_SIZE
    ensures Sends(gatewayId, fields, tail, spill, padding, [Ipc.ListView(ids)])
    ensures PostedFor(gatewayId, Printed(fields, tail), spill, padding) == [Ipc.NodeList(padding, ids)]
  {
    PostedList(gatewayId, Printed(fields, tail), spill, padding, text, ids);
    OneSent(Ipc.NodeList(padding, ids));
  }

  lemma PostedList(gatewayId: string, body: string, spill: nat, padding: string, text: string, ids: seq<uint64>)
    requires |padding| == 6 && React(gatewayId, body) == SendList(text) && ParsesTo(text, ids)
    requires Ipc.NODELIST_SIZE + 8 * |ids| <= Ipc.BUFFER_SIZE
    ensures Bridge.Postable(React(gatewayId, body)) && Ipc.Postable(Ipc.NodeList(padding, ids))
    ensures PostedFor(gatewayId, body, spill, padding) == [Ipc.NodeList(padding, ids)]
  {
  }

  lemma OneSent(r: Ipc.Sent)
    ensures Ipc.SplitUp(Ipc.Stream([r]), 1) == Ipc.Views([Ipc.Meaning(r)], "")
    ensures Ipc.Stream([r]) == Ipc.WireOf(r)
  {
    Ipc.StreamSplits([r], "");
    assert Ipc.Stream([r]) + "" == Ipc.Stream([r]);
    assert [r][1..] == [] && Ipc.Meanings([r]) == [Ipc.Meaning(r)];
    assert Ipc.Stream([r][1..]) == "";
  }

  lemma InvalidListSent(gatewayId: string, fields: seq<Field>, tail: string, spill: nat, padding: string, text: string)
    requires |padding| == 6 && React(gatewayId, Printed(fields, tail)) == SendList(text) && !AllValid(text)
    requires Ipc.NODELIST_SIZE + 8 * |ParsedIds(text)| <= Ipc.BUFFER_SIZE
    ensures Sends(gatewayId, fields, tail, spill, padding, [])
  {
    assert PostedFor(gatewayId, Printed(fields, tail), spill, padding) == [];
  }

  // One message.
  lemma MessageSent(gatewayId: string, fields: seq<Field>, tail: string, spill: nat, padding: string, uid: string,
                    data: string)
    requires |padding| == 6 && React(gatewayId, Printed(fields, tail)) == Forward([uid], [data])
    requires CString(uid) && CString(data) && Ipc.MESSAGE_SIZE + |data| <= Ipc.BUFFER_SIZE
    ensures Sends(gatewayId, fields, tail, spill, padding, [Ipc.MessageView(Ipc.Cut(uid), 0, data)])
  {
    var text := Printed(fields, tail);
    var start := Need(ScanOf(text, "uid", MAX_ENTRIES).values);
    FirstUntouched(uid, data, start, spill);
    PostedOne(gatewayId, text, spill, padding, uid, data);
    OneSent(Ipc.ToNode(uid, data));
  }

  lemma FirstUntouched(uid: string, data: string, start: nat, spill: nat)
    ensures Overrun(Forward([uid], [data]), start, spill) == Forward([uid], [data])
  {
    assert Arriving([uid], 0, spill) == [uid] && Arriving([data], start, spill) == [data];
  }

  lemma PostedOne(gatewayId: string, text: string, spill: nat, padding: string, uid: string, data: string)
    requires |padding| == 6 && React(gatewayId, text) == Forward([uid], [data])
    requires CString(uid) && CString(data) && Ipc.MESSAGE_SIZE + |data| <= Ipc.BUFFER_SIZE
    requires SentFor(gatewayId, text, spill) == Forward([uid], [data])
    ensures Bridge.Postable(React(gatewayId, text))
    ensures PostedFor(gatewayId, text, spill, padding) == [Ipc.ToNode(uid, data)]
  {
    PostedMessage(uid, data, padding);
  }

  lemma PostedMessage(uid: string, data: string, padding: string)
    requires |padding| == 6 && CString(uid) && CString(data) && Ipc.MESSAGE_SIZE + |data| <= Ipc.BUFFER_SIZE
    ensures Bridge.Postable(Forward([uid], [data])) && Posted(Forward([uid], [data]), padding) == [Ipc.ToNode(uid, data)]
  {
    assert Ipc.Postable(Ipc.ToNode(uid, data));
  }

  // ----- commands to the gateway -----

  // The message has one uid, that of the gateway, and this first command.
  predicate Commands(gatewayId: string, fields: seq<Field>, tail: string, cmd: string) {
    && Readable(fields, tail) && Named(fields, "uid") == [gatewayId]
    && Named(fields, "cmd") != [] && Named(fields, "cmd")[0] == cmd
  }

  lemma CommandScans(gatewayId: string, fields: seq<Field>, tail: string, cmd: string)
    requires Commands(gatewayId, fields, tail, cmd)
    ensures var text := Printed(fields, tail);
      && ScanOf(text, "uid", MAX_ENTRIES) == Scanned([gatewayId], 1) && ScanOf(text, "cmd", MAX_COMMANDS) == Scanned([cmd], 1)
  {
    ScansAre(fields, tail);
    assert [gatewayId][..1] == [gatewayId] && Named(fields, "cmd")[..1] == [cmd];
  }

  lemma AddReaction(gatewayId: string, fields: seq<Field>, tail: string, data: string)
    requires Commands(gatewayId, fields, tail, "add_to_whitelist") && Named(fields, "data") == [data]
    ensures React(gatewayId, Printed(fields, tail)) == SendList(data)
  {
    CommandScans(gatewayId, fields, tail, "add_to_whitelist");
    ScansAre(fields, tail);
    assert [data][..1] == [data];
    AddDecided(gatewayId, data);
  }

  lemma AddDecided(gatewayId: string, data: string)
    ensures Decide(gatewayId, Scanned([gatewayId], 1), Scanned([data], 1), Scanned(["add_to_whitelist"], 1)) == SendList(data)
  {
  }

  lemma ClearReaction(gatewayId: string, fields: seq<Field>, tail: string)
    requires Commands(gatewayId, fields, tail, "clear_whitelist")
    ensures React(gatewayId, Printed(fields, tail)) == SendList("")
  {
    CommandScans(gatewayId, fields, tail, "clear_whitelist");
    ClearDecided(gatewayId, ScanOf(Printed(fields, tail), "data", MAX_ENTRIES));
  }

  lemma ClearDecided(gatewayId: string, data: Scanned)
    requires data.count <= |data.values|
    ensures Decide(gatewayId, Scanned([gatewayId], 1), data, Scanned(["clear_whitelist"], 1)) == SendList("")
  {
  }

  // The transceiver receives the ids of an add_to_whitelist, in their order and
  // cut to the signed range.
  lemma AddSendsIds(gatewayId: string, fields: seq<Field>, tail: string, items: seq<Item>, spill: nat, padding: string)
    requires Commands(gatewayId, fields, tail, "add_to_whitelist") && |padding| == 6
    requires Named(fields, "data") == [ListText(items)] && Separated(items) && AllNonzero(items)
    requires Ipc.NODELIST_SIZE + 8 * |items| <= Ipc.BUFFER_SIZE
    ensures Sends(gatewayId, fields, tail, spill, padding, [Ipc.ListView(ClampedAll(Ids(items)))])
    ensures PostedFor(gatewayId, Printed(fields, tail), spill, padding) == [Ipc.NodeList(padding, ClampedAll(Ids(items)))]
  {
    AddReaction(gatewayId, fields, tail, ListText(items));
    ListReadBack(items);
    ListSent(gatewayId, fields, tail, spill, padding, ListText(items), ClampedAll(Ids(items)));
  }

  // In particular of one as a server prints it.
  function CommandRecord(gatewayId: string, cmd: string, data: string): seq<Field> {
    [Field("[{ ", "uid", ": ", gatewayId), Field(", ", "cmd", ": ", cmd), Field(", ", "data", ": ", data)]
  }

  predicate NoName(s: string) {
    QuoteFree(s) && s != "uid" && s != "data" && s != "cmd"
  }

  lemma RecordReadable(gatewayId: string, cmd: string, data: string)
    requires NoName(gatewayId) && NoName(cmd) && NoName(data)
    ensures Readable(CommandRecord(gatewayId, cmd, data), " }]")
  {
    var fields := CommandRecord(gatewayId, cmd, data);
    forall f | f in fields ensures CleanField(f, "uid") && CleanField(f, "data") && CleanField(f, "cmd") {
      var k :| 0 <= k < 3 && f == fields[k];
    }
  }

  lemma RecordValues(gatewayId: string, cmd: string, data: string)
    ensures var fields := CommandRecord(gatewayId, cmd, data);
      Named(fields, "uid") == [gatewayId] && Named(fields, "cmd") == [cmd] && Named(fields, "data") == [data]
  {
    var fields := CommandRecord(gatewayId, cmd, data);
    NamedOf(fields, "uid", 0);
    NamedOf(fields, "cmd", 1);
    NamedOf(fields, "data", 2);
  }

  lemma RecordCommands(gatewayId: string, cmd: string, data: string)
    requires NoName(gatewayId) && NoName(cmd) && NoName(data)
    ensures var fields := CommandRecord(gatewayId, cmd, data);
      Commands(gatewayId, fields, " }]", cmd) && Named(fields, "data") == [data]
  {
    RecordReadable(gatewayId, cmd, data);
    RecordValues(gatewayId, cmd, data);
  }

  lemma {:induction false} IdsPlain(ids: seq<uint64>)
    ensures '"' !in PrintIds(ids) && (PrintIds(ids) == "" || PrintIds(ids)[0] == '0')
  {
    if ids != [] {
      var digits := Hex(ids[0], false);
      assert forall c | c in digits :: IsDigitOf(c, 16);
      IdsPlain(ids[1..]);
    }
  }

  lemma ZeroIsNoName(s: string)
    requires QuoteFree(s) && (s == "" || s[0] == '0')
    ensures NoName(s)
  {
  }

  lemma PrintedCommand(gatewayId: string, ids: seq<uint64>)
    requires NoName(gatewayId) && 0 !in ids
    ensures var fields := CommandRecord(gatewayId, "add_to_whitelist", PrintIds(ids));
      Commands(gatewayId, fields, " }]", "add_to_whitelist") && Named(fields, "data") == [PrintIds(ids)]
  {
    IdsPlain(ids);
    ZeroIsNoName(PrintIds(ids));
    RecordCommands(gatewayId, "add_to_whitelist", PrintIds(ids));
  }

  lemma AddSendsPrinted(gatewayId: string, ids: seq<uint64>, spill: nat, padding: string)
    requires NoName(gatewayId) && 0 !in ids && Ipc.NODELIST_SIZE + 8 * |ids| <= Ipc.BUFFER_SIZE && |padding| == 6
    ensures Sends(gatewayId, CommandRecord(gatewayId, "add_to_whitelist", PrintIds(ids)), " }]", spill, padding,
                  [Ipc.ListView(ClampedAll(ids))])
  {
    PrintedCommand(gatewayId, ids);
    PrintedIsList(ids);
    AddSendsIds(gatewayId, CommandRecord(gatewayId, "add_to_whitelist", PrintIds(ids)), " }]", PrintedItems(ids), spill,
                padding);
  }

  // A clear_whitelist is the empty list, whatever the data.
  lemma ClearSendsEmpty(gatewayId: string, fields: seq<Field>, tail: string, spill: nat, padding: string)
    requires Commands(gatewayId, fields, tail, "clear_whitelist") && |padding| == 6
    ensures Sends(gatewayId, fields, tail, spill, padding, [Ipc.ListView([])])
    ensures PostedFor(gatewayId, Printed(fields, tail), spill, padding) == [Ipc.NodeList(padding, [])]
  {
    ClearReaction(gatewayId, fields, tail);
    ListSent(gatewayId, fields, tail, spill, padding, "", []);
  }

  // So is a command to add no ids.
  lemma AddNothingClears(gatewayId: string, fields: seq<Field>, tail: string, spill: nat, padding: string)
    requires Commands(gatewayId, fields, tail, "add_to_whitelist") && Named(fields, "data") == [""] && |padding| == 6
    ensures Sends(gatewayId, fields, tail, spill, padding, [Ipc.ListView([])])
  {
    AddSendsIds(gatewayId, fields, tail, [], spill, padding);
    assert ClampedAll(Ids([])) == [];
  }

  // Nothing is sent for several uids that begin with the gateway's, for one
  // without a command, and for ids to be added that are not one string.
  lemma CommandIgnored(gatewayId: string, fields: seq<Field>, tail: string, spill: nat, padding: string)
    requires Readable(fields, tail) && |padding| == 6
    requires Named(fields, "uid") != [] && Named(fields, "uid")[0] == gatewayId
    requires |Named(fields, "uid")| > 1 || Named(fields, "cmd") == []
          || (Named(fields, "cmd")[0] == "add_to_whitelist" && |Named(fields, "data")| != 1)
    ensures Sends(gatewayId, fields, tail, spill, padding, [])
  {
    var text := Printed(fields, tail);
    ScansAre(fields, tail);
    IgnoredBy(gatewayId, ScanOf(text, "uid", MAX_ENTRIES), ScanOf(text, "data", MAX_ENTRIES), ScanOf(text, "cmd", MAX_COMMANDS));
    NothingSent(gatewayId, fields, tail, spill, padding);
  }

  lemma IgnoredBy(gatewayId: string, uid: Scanned, data: Scanned, cmd: Scanned)
    requires uid.count == |uid.values| > 0 && data.count == |data.values| && cmd.count == |cmd.values| <= 1
    requires uid.values[0] == gatewayId
    requires uid.count > 1 || cmd.count == 0 || (cmd.values[0] == "add_to_whitelist" && data.count != 1)
    ensures Decide(gatewayId, uid, data, cmd) == Nothing
  {
  }

  // Nor for a list with the id 0, or with something else that is no number.
  lemma ZeroIgnored(gatewayId: string, fields: seq<Field>, tail: string, before: seq<Item>, zero: Item, after: seq<Item>,
                    spill: nat, padding: string)
    requires Commands(gatewayId, fields, tail, "add_to_whitelist") && |padding| == 6
    requires Named(fields, "data") == [ListText(before + [zero] + after)]
    requires Separated(before + [zero] + after) && AllNonzero(before) && zero.id == 0
    requires Ipc.NODELIST_SIZE + 8 * |before| <= Ipc.BUFFER_SIZE
    ensures Sends(gatewayId, fields, tail, spill, padding, [])
  {
    AddReaction(gatewayId, fields, tail, ListText(before + [zero] + after));
    ZeroInvalid(before, zero, after);
    InvalidListSent(gatewayId, fields, tail, spill, padding, ListText(before + [zero] + after));
  }

  lemma GarbageIgnored(gatewayId: string, fields: seq<Field>, tail: string, items: seq<Item>, garbage: string,
                       spill: nat, padding: string)
    requires Commands(gatewayId, fields, tail, "add_to_whitelist") && |padding| == 6
    requires Named(fields, "data") == [ListText(items) + garbage]
    requires Separated(items) && AllNonzero(items) && AllGaps(items)
    requires garbage != "" && Starts(garbage) && garbage[0] != '-' && garbage[0] != '+' && !IsDigit(garbage[0])
    requires Ipc.NODELIST_SIZE + 8 * |items| <= Ipc.BUFFER_SIZE
    ensures Sends(gatewayId, fields, tail, spill, padding, [])
  {
    AddReaction(gatewayId, fields, tail, ListText(items) + garbage);
    GarbageInvalid(items, garbage);
    InvalidListSent(gatewayId, fields, tail, spill, padding, ListText(items) + garbage);
  }

  // Any other command is sent on like a message to a node, to the gateway's
  // own address.
  lemma OtherCommandForwarded(gatewayId: string, fields: seq<Field>, tail: string, cmd: string, spill: nat, padding: string)
    requires Commands(gatewayId, fields, tail, cmd) && cmd != "clear_whitelist" && cmd != "add_to_whitelist"
    requires CString(gatewayId) && |padding| == 6
    requires forall d | d in Named(fields, "data") :: CString(d) && Ipc.MESSAGE_SIZE + |d| <= Ipc.BUFFER_SIZE
    ensures var datas := Named(fields, "data");
      Sends(gatewayId, fields, tail, spill, padding,
            if |datas| == 1 then [Ipc.MessageView(Ipc.Cut(gatewayId), 0, datas[0])] else [])
  {
    var datas := Named(fields, "data");
    OtherReaction(gatewayId, fields, tail, cmd);
    if |datas| == 1 {
      MessageSent(gatewayId, fields, tail, spill, padding, gatewayId, datas[0]);
    } else {
      NothingSent(gatewayId, fields, tail, spill, padding);
    }
  }

  lemma OtherReaction(gatewayId: string, fields: seq<Field>, tail: string, cmd: string)
    requires Commands(gatewayId, fields, tail, cmd) && cmd != "clear_whitelist" && cmd != "add_to_whitelist"
    ensures var datas := Named(fields, "data");
      React(gatewayId, Printed(fields, tail)) == if |datas| == 1 then Forward([gatewayId], [datas[0]]) else Nothing
  {
    CommandScans(gatewayId, fields, tail, cmd);
    ScansAre(fields, tail);
    var datas := Named(fields, "data");
    assert |datas| == 1 ==> datas[..1] == [datas[0]];
    OtherDecided(gatewayId, ScanOf(Printed(fields, tail), "data", MAX_ENTRIES), cmd);
  }

  lemma OtherDecided(gatewayId: string, data: Scanned, cmd: string)
    requires data.count == |data.values| && cmd != "clear_whitelist" && cmd != "add_to_whitelist"
    ensures Decide(gatewayId, Scanned([gatewayId], 1), data, Scanned([cmd], 1))
         == if data.count == 1 then Forward([gatewayId], [data.values[0]]) else Nothing
  {
    assert [gatewayId][..1] == [gatewayId];
    assert data.count == 1 ==> data.values[..1] == [data.values[0]];
  }

  // ----- messages for nodes -----

  // A message without uid, or for nodes with another number of data strings
  // than uids, is ignored. (Only the first 100 of either are seen.)
  lemma UnequalIgnored(gatewayId: string, fields: seq<Field>, tail: string, spill: nat, padding: string)
    requires Readable(fields, tail) && |padding| == 6
    requires var uids, datas := Named(fields, "uid"), Named(fields, "data");
      uids == [] || (uids[0] != gatewayId && Min(|uids|, 100) != Min(|datas|, 100))
    ensures Sends(gatewayId, fields, tail, spill, padding, [])
  {
    var text := Printed(fields, tail);
    ScansAre(fields, tail);
    UnequalDecided(gatewayId, ScanOf(text, "uid", MAX_ENTRIES), ScanOf(text, "data", MAX_ENTRIES), ScanOf(text, "cmd", MAX_COMMANDS));
    NothingSent(gatewayId, fields, tail, spill, padding);
  }

  lemma UnequalDecided(gatewayId: string, uid: Scanned, data: Scanned, cmd: Scanned)
    requires uid.count == |uid.values| && data.count == |data.values| && cmd.count == |cmd.values|
    requires uid.count == 0 || (uid.values[0] != gatewayId && uid.count != data.count)
    ensures Decide(gatewayId, uid, data, cmd) == Nothing
  {
  }

  // ----- what becomes of the whitelist -----

  // The message commands these ids to be added, or the whitelist to be cleared.
  predicate Whitelists(gatewayId: string, fields: seq<Field>, tail: string, ids: seq<uint64>, items: seq<Item>) {
    || (Commands(gatewayId, fields, tail, "clear_whitelist") && ids == [])
    || (Commands(gatewayId, fields, tail, "add_to_whitelist") && Named(fields, "data") == [ListText(items)]
        && Separated(items) && AllNonzero(items) && Ipc.NODELIST_SIZE + 8 * |items| <= Ipc.BUFFER_SIZE
        && ids == ClampedAll(Ids(items)))
  }

  lemma WhitelistsPosts(gatewayId: string, fields: seq<Field>, tail: string, ids: seq<uint64>, items: seq<Item>,
                        spill: nat, padding: string)
    returns (r: Ipc.Sent)
    requires Whitelists(gatewayId, fields, tail, ids, items) && |padding| == 6
    ensures r == Ipc.NodeList(padding, ids) && 0 !in ids
    ensures Bridge.Postable(React(gatewayId, Printed(fields, tail)))
    ensures Ipc.Stream(PostedFor(gatewayId, Printed(fields, tail), spill, padding)) == Ipc.WireOf(r)
  {
    if Commands(gatewayId, fields, tail, "clear_whitelist") && ids == [] {
      ClearSendsEmpty(gatewayId, fields, tail, spill, padding);
    } else {
      AddSendsIds(gatewayId, fields, tail, items, spill, padding);
    }
    r := Ipc.NodeList(padding, ids);
    OneSent(r);
  }

  // The whitelist of the transceiver then: it has gained the ids, and what lay
  // behind them in the receive buffer, or it is empty. It is empty too after a
  // command to add no ids.
  function Whitelisted(m: Machine, before: string, ids: seq<uint64>): NodeList
    requires |before| == Ipc.BUFFER_SIZE
  {
    Holding(if ids == [] then [] else Nodes(m.whitelist) + (ids + Stale(before, |ids|)))
  }

  lemma WhitelistedIs(m: Machine, before: string, padding: string, ids: seq<uint64>)
    requires |before| == Ipc.BUFFER_SIZE && Ipc.Postable(Ipc.NodeList(padding, ids)) && 0 !in ids
    ensures WhitelistAfter(m, before, padding, ids) == Whitelisted(m, before, ids)
  {
    if ids == [] {
      LenLands(before, padding, []);
      assert Holding([]) == Empty();
    } else {
      ListAppends(m, before, padding, ids);
    }
  }

  // What the handler of the messenger puts on the socket for it.
  method PostCommand(pipe: Ipc.Pipe, client: Client, gatewayId: string, body: string, ghost fields: seq<Field>,
                     ghost tail: string, ghost ids: seq<uint64>, ghost items: seq<Item>)
    returns (ghost r: Ipc.Sent)
    requires client.Valid() && pipe.bytes == ""
    requires body == Printed(fields, tail) && CString(body) && PoolNeed(gatewayId, body) < POOL_SIZE
    requires Whitelists(gatewayId, fields, tail, ids, items)
    modifies pipe, client.pool, client.pool.data, client.outputBuffer
    ensures client.Valid() && r.NodeList? && r.nodes == ids && 0 !in ids && NextIs(pipe.bytes, r, "")
  {
    r := WhitelistsPosts(gatewayId, fields, tail, ids, items, client.Spill(), client.outputBuffer[10..16]);
    ReceiveFromServer(pipe, client, gatewayId, body);
    EmptyAround(Ipc.WireOf(r));
  }

  lemma EmptyAround(s: string)
    ensures "" + s == s && s == s + ""
  {
  }

  // From the message of the server to the whitelist: the handler of the
  // messenger, then the round of the transceiver for its record.
  method Obey(pipe: Ipc.Pipe, client: Client, g: Gateway, rxBuffer: array<char>, gatewayId: string, body: string,
              ghost fields: seq<Field>, ghost tail: string, ghost ids: seq<uint64>, ghost items: seq<Item>)
    requires client.Valid() && g.Valid() && rxBuffer.Length == Ipc.BUFFER_SIZE && pipe.bytes == ""
    requires rxBuffer !in {g.dataBuffer, client.outputBuffer, client.pool.data}
    requires g.dataBuffer !in {client.outputBuffer, client.pool.data}
    requires body == Printed(fields, tail) && CString(body) && PoolNeed(gatewayId, body) < POOL_SIZE
    requires Whitelists(gatewayId, fields, tail, ids, items)
    modifies pipe, client.pool, client.pool.data, client.outputBuffer, rxBuffer, g.whitelist
    ensures g.Valid() && pipe.bytes == ""
    ensures g.Abstract() == old(g.Abstract()).(whitelist := Whitelisted(old(g.Abstract()), old(rxBuffer[..]), ids))
  {
    ghost var m: Machine := g.Abstract();
    var r := PostCommand(pipe, client, gatewayId, body, fields, tail, ids, items);
    WhitelistedIs(m, rxBuffer[..], r.padding, ids);
    OnSent(g, pipe, rxBuffer, r, "");
  }
}

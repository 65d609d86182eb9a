// What becomes of a printed array of records on its way from the server to the
// transceiver.
module ServerRecords {
  import opened CStrings
  import opened JsonScan
  import opened JsonText
  import opened Statics
  import opened Bridge
  import Ipc

  // ----- the decision -----

  // The handler decides to send record i's data to record i's uid, in order,
  // whatever the order of the fields inside the records.
  lemma RecordsForwarded(gatewayId: string, records: seq<seq<Field>>, tail: string)
    requires Clean(Flatten(records), tail, "uid") && Clean(Flatten(records), tail, "data") && tail != ""
    requires forall r | r in records :: HasOne(r, "uid") && HasOne(r, "data")
    requires 0 < |records| <= MAX_ENTRIES && ValueOf(records[0], "uid") != gatewayId
    ensures var reaction := React(gatewayId, Printed(Flatten(records), tail));
      && reaction.Forward? && |reaction.uids| == |reaction.datas| == |records|
      && forall i | 0 <= i < |records| ::
           reaction.uids[i] == ValueOf(records[i], "uid") && reaction.datas[i] == ValueOf(records[i], "data")
  {
    ScanRecords(records, tail, "uid", MAX_ENTRIES);
    ScanRecords(records, tail, "data", MAX_ENTRIES);
    var body := Printed(Flatten(records), tail);
    DecideForward(gatewayId, ScanOf(body, "uid", MAX_ENTRIES), ScanOf(body, "data", MAX_ENTRIES), ScanOf(body, "cmd", MAX_COMMANDS));
  }

  lemma DecideForward(gatewayId: string, uid: Scanned, data: Scanned, cmd: Scanned)
    requires 0 < uid.count == |uid.values| == data.count == |data.values| && cmd.count <= |cmd.values|
    requires uid.values[0] != gatewayId
    ensures Decide(gatewayId, uid, data, cmd) == Forward(uid.values, data.values)
  {
    assert uid.values[..uid.count] == uid.values && data.values[..uid.count] == data.values;
  }

  // ----- what the overrun leaves of them -----

  // Record i is sent as decided: it is the first, or what it has lies behind
  // the zeroed part of the pool.
  predicate Kept(uids: seq<string>, datas: seq<string>, spill: nat, i: nat)
    requires i < |uids| == |datas|
  {
    i == 0
    || ((uids[i] == "" || Address(uids, i) >= spill) && (datas[i] == "" || Need(uids) + Address(datas, i) >= spill))
  }

  lemma KeptIff(uids: seq<string>, datas: seq<string>, spill: nat, i: nat)
    requires i < |uids| == |datas|
    ensures (Arriving(uids, 0, spill)[i] == uids[i] && Arriving(datas, Need(uids), spill)[i] == datas[i])
         == Kept(uids, datas, spill, i)
  {
  }

  // If no uid is empty, the length of the first one decides about all.
  lemma FirstUidDecides(uids: seq<string>, datas: seq<string>, spill: nat)
    requires 0 < |uids| == |datas| && "" !in uids
    ensures (forall i | 0 <= i < |uids| :: Kept(uids, datas, spill, i)) == (|uids| == 1 || |uids[0]| + 1 >= spill)
  {
    assert Address(uids, 0) == 0;
    if |uids| > 1 {
      assert Address(uids, 1) == |uids[0]| + 1;
      if |uids[0]| + 1 >= spill {
        forall i | 0 < i < |uids| ensures Kept(uids, datas, spill, i) {
          AddressGrows(uids, 1, i);
          AddressGrows(uids, i, |uids|);
        }
      } else {
        assert uids[1] in uids;
        assert !Kept(uids, datas, spill, 1);
      }
    }
  }

  // What the socket can carry of a record.
  predicate Carriable(record: seq<Field>) {
    && HasOne(record, "uid") && HasOne(record, "data")
    && CString(ValueOf(record, "uid")) && CString(ValueOf(record, "data"))
    && Ipc.MESSAGE_SIZE + |ValueOf(record, "data")| <= Ipc.BUFFER_SIZE
  }

  // A printed array of records for nodes.
  predicate ForNodes(gatewayId: string, records: seq<seq<Field>>, tail: string) {
    && Clean(Flatten(records), tail, "uid") && Clean(Flatten(records), tail, "data") && tail != ""
    && 0 < |records| <= MAX_ENTRIES && (forall i | 0 <= i < |records| :: Carriable(records[i]))
    && ValueOf(records[0], "uid") != gatewayId
  }

  function ValuesOf(records: seq<seq<Field>>, name: string): (r: seq<string>)
    requires forall i | 0 <= i < |records| :: HasOne(records[i], name)
    ensures |r| == |records| && forall i | 0 <= i < |r| :: r[i] == ValueOf(records[i], name)
  {
    seq(|records|, i requires 0 <= i < |records| => ValueOf(records[i], name))
  }

  lemma AllHave(records: seq<seq<Field>>)
    requires forall i | 0 <= i < |records| :: Carriable(records[i])
    ensures forall r | r in records :: HasOne(r, "uid") && HasOne(r, "data")
  {
    forall r | r in records ensures HasOne(r, "uid") && HasOne(r, "data") {
      var i :| 0 <= i < |records| && records[i] == r;
      assert Carriable(records[i]);
    }
  }

  lemma CarriablePostable(records: seq<seq<Field>>)
    requires forall i | 0 <= i < |records| :: Carriable(records[i])
    ensures forall i | 0 <= i < |records| :: HasOne(records[i], "uid") && HasOne(records[i], "data")
    ensures Postable(Forward(ValuesOf(records, "uid"), ValuesOf(records, "data")))
  {
    assert forall i | 0 <= i < |records| :: Carriable(records[i]) ==> HasOne(records[i], "uid") && HasOne(records[i], "data");
    var uids, datas := ValuesOf(records, "uid"), ValuesOf(records, "data");
    forall i | 0 <= i < |uids| ensures Ipc.Postable(Ipc.ToNode(uids[i], datas[i])) {
      assert Carriable(records[i]);
    }
  }

  lemma ReactionIs(gatewayId: string, records: seq<seq<Field>>, tail: string)
    requires ForNodes(gatewayId, records, tail)
    ensures var text := Printed(Flatten(records), tail);
      && React(gatewayId, text) == Forward(ValuesOf(records, "uid"), ValuesOf(records, "data"))
      && ScanOf(text, "uid", MAX_ENTRIES).values == ValuesOf(records, "uid")
  {
    var text := Printed(Flatten(records), tail);
    AllHave(records);
    RecordsForwarded(gatewayId, records, tail);
    var reaction := React(gatewayId, text);
    assert reaction.uids == ValuesOf(records, "uid") && reaction.datas == ValuesOf(records, "data");
    ScanRecords(records, tail, "uid", MAX_ENTRIES);
  }

  lemma RecordsDecided(gatewayId: string, records: seq<seq<Field>>, tail: string, spill: nat)
    requires ForNodes(gatewayId, records, tail)
    ensures var text := Printed(Flatten(records), tail);
      var uids, datas := ValuesOf(records, "uid"), ValuesOf(records, "data");
      && React(gatewayId, text) == Forward(uids, datas) && Postable(React(gatewayId, text))
      && SentFor(gatewayId, text, spill) == Forward(Arriving(uids, 0, spill), Arriving(datas, Need(uids), spill))
  {
    ReactionIs(gatewayId, records, tail);
    CarriablePostable(records);
  }

  // What the reader at the other end of the socket finds.
  function ReadBack(gatewayId: string, text: string, spill: nat, padding: string, n: nat, rest: string): Ipc.Split
    requires Postable(React(gatewayId, text)) && |padding| == 6
  {
    Ipc.SplitUp(Ipc.Stream(PostedFor(gatewayId, text, spill, padding)) + rest, n)
  }

  function View(uid: string, data: string): Ipc.View {
    Ipc.MessageView(Ipc.Cut(uid), 0, data)
  }

  lemma MessagesReadBack(uids: seq<string>, datas: seq<string>, rest: string)
    requires Postable(Forward(uids, datas))
    ensures var read := Ipc.SplitUp(Ipc.Stream(Messages(uids, datas)) + rest, |uids|);
      && read.Views? && read.rest == rest && |read.views| == |uids|
      && forall i | 0 <= i < |uids| :: read.views[i] == View(uids[i], datas[i])
  {
    Ipc.StreamSplits(Messages(uids, datas), rest);
    Ipc.MeaningsAre(Messages(uids, datas));
  }

  // One message per record, and message i is that of record i, the uid cut to
  // the size of its field, exactly if the overrun has left it alone.
  predicate ReadAsKept(read: Ipc.Split, uids: seq<string>, datas: seq<string>, spill: nat, rest: string)
    requires |uids| == |datas|
  {
    && read.Views? && read.rest == rest && |read.views| == |uids|
    && forall i | 0 <= i < |uids| ::
         && read.views[i] == View(Arriving(uids, 0, spill)[i], Arriving(datas, Need(uids), spill)[i])
         && (read.views[i] == View(uids[i], datas[i])) == Kept(uids, datas, spill, i)
  }

  lemma ArrivingRead(uids: seq<string>, datas: seq<string>, spill: nat, rest: string)
    requires Postable(Forward(uids, datas))
    ensures var us, ds := Arriving(uids, 0, spill), Arriving(datas, Need(uids), spill);
      Postable(Forward(us, ds)) && ReadAsKept(Ipc.SplitUp(Ipc.Stream(Messages(us, ds)) + rest, |uids|), uids, datas, spill, rest)
  {
    var us, ds := Arriving(uids, 0, spill), Arriving(datas, Need(uids), spill);
    OverrunPostable(Forward(uids, datas), Need(uids), spill);
    MessagesReadBack(us, ds, rest);
    forall i | 0 <= i < |uids|
      ensures (View(us[i], ds[i]) == View(uids[i], datas[i])) == Kept(uids, datas, spill, i)
    {
      KeptIff(uids, datas, spill, i);
    }
  }

  lemma RecordsReachTransceiver(gatewayId: string, records: seq<seq<Field>>, tail: string, spill: nat,
                                padding: string, rest: string)
    requires ForNodes(gatewayId, records, tail) && |padding| == 6
    ensures var text := Printed(Flatten(records), tail);
      && Postable(React(gatewayId, text))
      && ReadAsKept(ReadBack(gatewayId, text, spill, padding, |records|, rest),
                    ValuesOf(records, "uid"), ValuesOf(records, "data"), spill, rest)
  {
    RecordsDecided(gatewayId, records, tail, spill);
    ArrivingRead(ValuesOf(records, "uid"), ValuesOf(records, "data"), spill, rest);
  }

  predicate AllIntact(read: Ipc.Split, uids: seq<string>, datas: seq<string>)
    requires |uids| == |datas|
  {
    read.Views? && |read.views| == |uids| && forall i | 0 <= i < |uids| :: read.views[i] == View(uids[i], datas[i])
  }

  lemma IntactIff(read: Ipc.Split, uids: seq<string>, datas: seq<string>, spill: nat, rest: string)
    requires 0 < |uids| == |datas| && "" !in uids && ReadAsKept(read, uids, datas, spill, rest)
    ensures AllIntact(read, uids, datas) == (|uids| == 1 || |uids[0]| + 1 >= spill)
  {
    FirstUidDecides(uids, datas, spill);
  }

  // So without empty uids every record arrives if and only if there is just
  // one or the first uid is long enough: 75 characters when the pool lies
  // directly behind the output buffer.
  lemma AllRecordsArriveIff(gatewayId: string, records: seq<seq<Field>>, tail: string, spill: nat, padding: string,
                            rest: string)
    requires ForNodes(gatewayId, records, tail) && |padding| == 6
    requires "" !in ValuesOf(records, "uid")
    ensures var text := Printed(Flatten(records), tail);
      var uids, datas := ValuesOf(records, "uid"), ValuesOf(records, "data");
      && Postable(React(gatewayId, text))
      && AllIntact(ReadBack(gatewayId, text, spill, padding, |records|, rest), uids, datas)
         == (|records| == 1 || |uids[0]| + 1 >= spill)
  {
    RecordsReachTransceiver(gatewayId, records, tail, spill, padding, rest);
    IntactIff(ReadBack(gatewayId, Printed(Flatten(records), tail), spill, padding, |records|, rest),
              ValuesOf(records, "uid"), ValuesOf(records, "data"), spill, rest);
  }

  // A record as a server prints it.
  function PlainRecord(before: string, uid: string, data: string): seq<Field> {
    [Field(before, "uid", ": ", uid), Field(", ", "data", ": ", data)]
  }

  lemma PlainRecordParts(before: string, uid: string, data: string)
    ensures var r := PlainRecord(before, uid, data);
      HasOne(r, "uid") && ValueOf(r, "uid") == uid && HasOne(r, "data") && ValueOf(r, "data") == data
  {
    NamedOf(PlainRecord(before, uid, data), "uid", 0);
    NamedOf(PlainRecord(before, uid, data), "data", 1);
  }

  predicate Printable(s: string) {
    Plain(s) && CString(s)
  }

  // Two records with addresses of 16 digits: the second is sent to nobody, and
  // without its data.
  lemma SecondRecordLost(gatewayId: string, a: string, b: string, x: string, y: string, padding: string)
    requires Printable(a) && Printable(b) && Printable(x) && Printable(y) && |a| == |b| == 16 && a != gatewayId
    requires |x| <= 40 && Ipc.MESSAGE_SIZE + |y| <= Ipc.BUFFER_SIZE && |padding| == 6
    ensures var records := [PlainRecord("[{ ", a, x), PlainRecord(" }, { ", b, y)];
      && ForNodes(gatewayId, records, " }]")
      && var text := Printed(Flatten(records), " }]");
         Postable(React(gatewayId, text))
         && ReadBack(gatewayId, text, OVERRUN, padding, 2, "") == Ipc.Views([View(a, x), View("", "")], "")
  {
    var records := [PlainRecord("[{ ", a, x), PlainRecord(" }, { ", b, y)];
    TwoForNodes(gatewayId, a, b, x, y);
    RecordsReachTransceiver(gatewayId, records, " }]", OVERRUN, padding, "");
    SecondFaded(a, b, x, y);
    TwoViews(ReadBack(gatewayId, Printed(Flatten(records), " }]"), OVERRUN, padding, 2, ""), a, b, x, y);
  }

  lemma TwoForNodes(gatewayId: string, a: string, b: string, x: string, y: string)
    requires Printable(a) && Printable(b) && Printable(x) && Printable(y) && a != gatewayId
    requires Ipc.MESSAGE_SIZE + |x| <= Ipc.BUFFER_SIZE && Ipc.MESSAGE_SIZE + |y| <= Ipc.BUFFER_SIZE
    ensures var records := [PlainRecord("[{ ", a, x), PlainRecord(" }, { ", b, y)];
      && ForNodes(gatewayId, records, " }]")
      && ValuesOf(records, "uid") == [a, b] && ValuesOf(records, "data") == [x, y]
  {
    var records := [PlainRecord("[{ ", a, x), PlainRecord(" }, { ", b, y)];
    PlainRecordParts("[{ ", a, x);
    PlainRecordParts(" }, { ", b, y);
    TwoClean(a, x, b, y);
    assert Carriable(records[0]) && Carriable(records[1]);
  }

  lemma TwoViews(read: Ipc.Split, a: string, b: string, x: string, y: string)
    requires Arriving([a, b], 0, OVERRUN) == [a, ""] && Arriving([x, y], Need([a, b]), OVERRUN) == [x, ""]
    requires ReadAsKept(read, [a, b], [x, y], OVERRUN, "")
    ensures read == Ipc.Views([View(a, x), View("", "")], "")
  {
  }

  lemma SecondFaded(a: string, b: string, x: string, y: string)
    requires |a| == |b| == 16 && |x| <= 40
    ensures Arriving([a, b], 0, OVERRUN) == [a, ""] && Arriving([x, y], Need([a, b]), OVERRUN) == [x, ""]
  {
    assert Address([a, b], 1) == 17 && Address([x, y], 1) == |x| + 1;
    assert Address([a, b], 2) == Address([a, b], 1) + 17;
  }

  lemma TwoClean(a: string, x: string, b: string, y: string)
    requires Plain(a) && Plain(b) && Plain(x) && Plain(y)
    ensures var fields := Flatten([PlainRecord("[{ ", a, x), PlainRecord(" }, { ", b, y)]);
      Clean(fields, " }]", "uid") && Clean(fields, " }]", "data")
  {
    var first, second := PlainRecord("[{ ", a, x), PlainRecord(" }, { ", b, y);
    assert [first, second][1..] == [second] && [second][1..] == [];
    assert Flatten([second]) == second + Flatten([]) == second;
    forall f | f in first + second ensures CleanField(f, "uid") && CleanField(f, "data") {
      var k :| 0 <= k < 4 && f == (first + second)[k];
    }
  }
}

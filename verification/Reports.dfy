// The text of the status report: build_stats_msg of i8-transceiver.c.
module Reports {
  import opened Packets
  import opened PacketQueue
  import opened CStrings
  import opened NodeLists
  import opened HexAddresses
  import opened Transceiver
  import IdLists
  import Timestamps
  import Ipc

  // %d of an unsigned 32-bit counter.
  function Signed(n: uint32): (r: int)
    ensures -0x8000_0000 <= r < 0x8000_0000 && (r == n || r == n - 0x1_0000_0000)
  {
    if n < 0x8000_0000 then n else n - 0x1_0000_0000
  }

  function PrintInt(n: int): string {
    if n < 0 then "-" + Decimal(0 - n) else Decimal(n)
  }

  function NodeText(node: uint64): (s: string)
    ensures |s| == 17
  {
    HexAddress(node) + ","
  }

  function NodesText(nodes: seq<uint64>): (s: string)
    ensures |s| == 17 * |nodes|
  {
    if nodes == [] then "" else NodesText(nodes[..|nodes| - 1]) + NodeText(nodes[|nodes| - 1])
  }

  function Item(name: string, value: string, end: string): string {
    name + value + end
  }

  function FragmentCounts(total: uint32, rejected: uint32, timestamp: int): string {
    Item("log|", PrintInt(timestamp), "|")
    + (Item("total_received_fragments=", PrintInt(Signed(total)), ";")
       + Item("rejected_fragments=", PrintInt(Signed(rejected)), ";"))
  }

  function Counts(whitelisted: nat, communicating: nat): string {
    Item("nodes_in_whitelist=", Decimal(whitelisted), ";")
    + Item("nodes_in_comlist=", Decimal(communicating), ";comlist=")
  }

  function Head(total: uint32, rejected: uint32, whitelisted: nat, communicating: nat, timestamp: int): string {
    FragmentCounts(total, rejected, timestamp) + Counts(whitelisted, communicating)
  }

  // At most n characters, none of them NUL.
  predicate Short(s: string, n: nat) {
    |s| <= n && CString(s)
  }

  lemma ItemFits(name: string, value: string, end: string, n: nat)
    requires Short(name, |name|) && Short(value, n) && Short(end, |end|)
    ensures Short(Item(name, value, end), |name| + n + |end|)
  {
  }

  lemma Concat(a: string, b: string, m: nat, n: nat)
    requires Short(a, m) && Short(b, n)
    ensures Short(a + b, m + n)
  {
  }

  function ReportText(o: Output): string
    requires o.Status?
  {
    Head(o.totalFragments, o.rejectedFragments, o.whitelisted, o.communicating, o.timestamp) + NodesText(o.nodes)
  }

  // build_stats_msg on the arrays of the gateway; each sprintf appends.
  method BuildStatsMsg(g: Gateway, timestamp: int) returns (dataBuffer: string)
    requires g.Valid()
    ensures var out := Step(g.Abstract(), Timeout(timestamp)).1;
      |out| == 1 && out[0].Status? && dataBuffer == ReportText(out[0])
    ensures Says(ReadLine(dataBuffer), Signed(g.totalFragments), Signed(g.rejectedFragments),
                 |Nodes(g.whitelist[..])|, |Nodes(g.comlist[..])|, Nodes(g.comlist[..]), timestamp)
  {
    var inWhitelist := NodelistCount(g.whitelist);
    var inComlist := NodelistCount(g.comlist);
    dataBuffer := Head(g.totalFragments, g.rejectedFragments, inWhitelist, inComlist, timestamp);
    dataBuffer := AppendNodes(g.comlist, dataBuffer);
    CountIsPrefixCount(g.whitelist[..]);
    CountIsPrefixCount(g.comlist[..]);
    ReportReadBack(Step(g.Abstract(), Timeout(timestamp)).1[0]);
  }

  method AppendNodes(comlist: array<uint64>, head: string) returns (dataBuffer: string)
    requires comlist.Length == MAX_NODE_LIST && Tidy(comlist[..])
    ensures dataBuffer == head + NodesText(Nodes(comlist[..]))
  {
    ghost var list := comlist[..];
    ghost var n := PrefixCount(list);
    dataBuffer := head;
    for i := 0 to MAX_NODE_LIST
      invariant dataBuffer == head + NodesText(list[..if i < n then i else n])
    {
      if comlist[i] != 0 {
        assert comlist[i] == list[i];
        assert list[..i + 1][..i] == list[..i] && list[..i + 1][i] == list[i];
        Associate(head, NodesText(list[..i]), NodeText(list[i]));
        dataBuffer := dataBuffer + NodeText(comlist[i]);
      }
    }
  }

  // ----- it fits -----

  lemma {:induction false} NodesTextIsCString(nodes: seq<uint64>)
    ensures CString(NodesText(nodes))
  {
    if nodes != [] {
      NodesTextIsCString(nodes[..|nodes| - 1]);
      HexDigitsPlain(nodes[|nodes| - 1], 16);
    }
  }

  lemma DecimalIsCString(n: nat)
    ensures CString(Decimal(n))
  {
  }

  lemma {:induction false} DecimalLength(n: nat, p: nat, k: nat)
    requires k > 0 && p == Timestamps.Pow10(k) && n < p
    ensures |Decimal(n)| <= k
  {
    if n >= 10 {
      var j: nat := k - 1;
      Timestamps.Tenth(n, Timestamps.Pow10(j));
      DecimalLength(n / 10, Timestamps.Pow10(j), j);
    }
  }

  lemma ShortDecimal(n: nat)
    requires n < 10_000_000_000
    ensures Short(Decimal(n), 10)
  {
    assert Timestamps.Pow10(5) == 100_000;
    DecimalLength(n, Timestamps.Pow10(10), 10);
    DecimalIsCString(n);
  }

  lemma ShortInt(n: int)
    requires -0x8000_0000 <= n < 0x8000_0000
    ensures Short(PrintInt(n), 11)
  {
    ShortDecimal(if n < 0 then 0 - n else n);
  }

  lemma LogFits(timestamp: int)
    requires 0 <= timestamp < TIME_LIMIT
    ensures Short(Item("log|", PrintInt(timestamp), "|"), 16)
  {
    ShortInt(timestamp);
    ItemFits("log|", PrintInt(timestamp), "|", 11);
  }

  lemma CounterFits(name: string, n: int)
    requires Short(name, |name|) && -0x8000_0000 <= n < 0x8000_0000
    ensures Short(Item(name, PrintInt(n), ";"), |name| + 12)
  {
    ShortInt(n);
    ItemFits(name, PrintInt(n), ";", 11);
  }

  lemma CounterNames()
    ensures Short("total_received_fragments=", 25) && Short("rejected_fragments=", 19)
  {
  }

  lemma FragmentCountsFit(total: uint32, rejected: uint32, timestamp: int)
    requires 0 <= timestamp < TIME_LIMIT
    ensures Short(FragmentCounts(total, rejected, timestamp), 16 + (37 + 31))
  {
    CounterNames();
    LogFits(timestamp);
    CounterFits("total_received_fragments=", Signed(total));
    CounterFits("rejected_fragments=", Signed(rejected));
    var b := Item("total_received_fragments=", PrintInt(Signed(total)), ";");
    var c := Item("rejected_fragments=", PrintInt(Signed(rejected)), ";");
    Concat(b, c, 37, 31);
    Concat(Item("log|", PrintInt(timestamp), "|"), b + c, 16, 37 + 31);
  }

  lemma CountsFit(whitelisted: nat, communicating: nat)
    requires whitelisted <= MAX_NODE_LIST && communicating <= MAX_NODE_LIST
    ensures Short(Counts(whitelisted, communicating), 30 + 36)
  {
    ShortDecimal(whitelisted);
    ShortDecimal(communicating);
    ItemFits("nodes_in_whitelist=", Decimal(whitelisted), ";", 10);
    ItemFits("nodes_in_comlist=", Decimal(communicating), ";comlist=", 10);
    Concat(Item("nodes_in_whitelist=", Decimal(whitelisted), ";"),
           Item("nodes_in_comlist=", Decimal(communicating), ";comlist="), 30, 36);
  }

  lemma HeadFits(total: uint32, rejected: uint32, whitelisted: nat, communicating: nat, timestamp: int)
    requires 0 <= timestamp < TIME_LIMIT && whitelisted <= MAX_NODE_LIST && communicating <= MAX_NODE_LIST
    ensures Short(Head(total, rejected, whitelisted, communicating, timestamp), 150)
  {
    FragmentCountsFit(total, rejected, timestamp);
    CountsFit(whitelisted, communicating);
    Concat(FragmentCounts(total, rejected, timestamp), Counts(whitelisted, communicating), 84, 66);
  }

  // The report fits the merge buffer and, as a record, the transmit buffer.
  lemma ReportFits(m: Machine, now: int, gatewayId: string)
    requires 0 <= now < TIME_LIMIT && CString(gatewayId) && |gatewayId| < Ipc.SOURCE_SIZE
    ensures var out := Step(m, Timeout(now)).1;
      && |out| == 1 && out[0].Status?
      && CString(ReportText(out[0])) && |ReportText(out[0])| < DATA_BUFFER_SIZE
      && Ipc.Postable(Ipc.FromNode(gatewayId, now, ReportText(out[0])))
  {
    var o := Step(m, Timeout(now)).1[0];
    HeadFits(o.totalFragments, o.rejectedFragments, o.whitelisted, o.communicating, now);
    NodesTextIsCString(o.nodes);
  }

  // ----- it can be read back -----

  // name=value
  function Pair(s: string): (string, string) {
    var i := IndexOf(s, '=');
    (s[..i], if i == |s| then "" else s[i + 1..])
  }

  // Such pairs, separated by semicolons.
  function Pairs(s: string): seq<(string, string)>
    decreases |s|
  {
    var i := IndexOf(s, ';');
    if i == |s| then [Pair(s)] else [Pair(s[..i])] + Pairs(s[i + 1..])
  }

  // A log line: its kind, its time and its pairs.
  datatype Line = Line(kind: string, time: string, pairs: seq<(string, string)>) | NoLine

  function ReadLine(s: string): Line {
    var i := IndexOf(s, '|');
    if i == |s| then NoLine
    else
      var rest := s[i + 1..];
      var j := IndexOf(rest, '|');
      if j == |rest| then NoLine else Line(s[..i], rest[..j], Pairs(rest[j + 1..]))
  }

  function ReadInt(s: string): int {
    if s != "" && s[0] == '-' then 0 - CStrings.Value(LeadingDigits(s[1..])) else CStrings.Value(LeadingDigits(s))
  }

  lemma ReadPrinted(n: int)
    ensures ReadInt(PrintInt(n)) == n
  {
    var k := if n < 0 then 0 - n else n;
    var d := Decimal(k);
    assert d[0] in d;
    AllDigits(d);
    ValueOfDecimal(k);
    if n < 0 {
      assert ("-" + d)[1..] == d;
    }
  }

  // The line says this, under these names.
  predicate Says(line: Line, total: int, rejected: int, whitelisted: int, communicating: int, nodes: seq<uint64>,
                 time: int)
  {
    && line.Line? && line.kind == "log" && ReadInt(line.time) == time
    && |line.pairs| == 5
    && line.pairs[0].0 == "total_received_fragments" && ReadInt(line.pairs[0].1) == total
    && line.pairs[1].0 == "rejected_fragments" && ReadInt(line.pairs[1].1) == rejected
    && line.pairs[2].0 == "nodes_in_whitelist" && ReadInt(line.pairs[2].1) == whitelisted
    && line.pairs[3].0 == "nodes_in_comlist" && ReadInt(line.pairs[3].1) == communicating
    && line.pairs[4].0 == "comlist" && ReadNodes(line.pairs[4].1) == nodes
  }

  // Neither a separator of pairs nor of lines.
  predicate Bare(s: string) {
    '=' !in s && ';' !in s && '|' !in s
  }

  lemma PairIs(name: string, value: string)
    requires '=' !in name
    ensures Pair(name + "=" + value) == (name, value)
  {
    var s := name + "=" + value;
    assert s[..|name|] == name && s[|name| + 1..] == value;
    IndexOfIs(s, '=', |name|);
  }

  lemma FirstPair(name: string, value: string, rest: string)
    requires '=' !in name && ';' !in name && ';' !in value
    ensures Pairs((name + "=" + value) + ";" + rest) == [(name, value)] + Pairs(rest)
  {
    var item := name + "=" + value;
    var s := item + ";" + rest;
    assert s[..|item|] == item && s[|item| + 1..] == rest;
    IndexOfIs(s, ';', |item|);
    PairIs(name, value);
  }

  lemma LastPair(name: string, value: string)
    requires '=' !in name && ';' !in name && ';' !in value
    ensures Pairs(name + "=" + value) == [(name, value)]
  {
    var s := name + "=" + value;
    assert s[..|s|] == s;
    IndexOfIs(s, ';', |s|);
    PairIs(name, value);
  }

  lemma LineIs(kind: string, time: string, rest: string)
    requires '|' !in kind && '|' !in time
    ensures ReadLine(kind + "|" + (time + "|" + rest)) == Line(kind, time, Pairs(rest))
  {
    var behind := time + "|" + rest;
    var s := kind + "|" + behind;
    assert s[..|kind|] == kind && s[|kind| + 1..] == behind;
    IndexOfIs(s, '|', |kind|);
    assert behind[..|time|] == time && behind[|time| + 1..] == rest;
    IndexOfIs(behind, '|', |time|);
  }

  lemma PrintedBare(n: int)
    ensures Bare(PrintInt(n))
  {
  }

  lemma DecimalBare(n: nat)
    ensures Bare(Decimal(n)) && Decimal(n) == PrintInt(n)
  {
  }

  lemma {:induction false} NodesBare(nodes: seq<uint64>)
    ensures Bare(NodesText(nodes))
  {
    if nodes != [] {
      var n: nat := |nodes| - 1;
      NodesBare(nodes[..n]);
      HexDigitsLower(nodes[n], 16);
    }
  }

  // The text, cut where a reader cuts it.
  function Sections(time: string, a: string, b: string, c: string, d: string, e: string): string {
    "log" + "|" + (time + "|" + (("total_received_fragments" + "=" + a) + ";"
      + (("rejected_fragments" + "=" + b) + ";" + (("nodes_in_whitelist" + "=" + c) + ";"
        + (("nodes_in_comlist" + "=" + d) + ";" + ("comlist" + "=" + e))))))
  }

  type Named = (string, string)

  function ItemText(p: Named): string {
    p.0 + "=" + p.1
  }

  predicate BarePair(p: Named) {
    Bare(p.0) && Bare(p.1)
  }

  lemma OneMorePair(p: Named, s: string, rest: string, pairs: seq<Named>)
    requires BarePair(p) && s == ItemText(p) + ";" + rest && Pairs(rest) == pairs
    ensures Pairs(s) == [p] + pairs
  {
    FirstPair(p.0, p.1, rest);
  }

  lemma TwoPairs(p: Named, q: Named, s: string)
    requires BarePair(p) && BarePair(q) && s == ItemText(p) + ";" + ItemText(q)
    ensures Pairs(s) == [p, q]
  {
    LastPair(q.0, q.1);
    OneMorePair(p, s, ItemText(q), [q]);
  }

  lemma ThreePairs(c: Named, d: Named, e: Named, s: string, rest: string)
    requires BarePair(c) && BarePair(d) && BarePair(e)
    requires s == ItemText(c) + ";" + rest && rest == ItemText(d) + ";" + ItemText(e)
    ensures Pairs(s) == [c, d, e]
  {
    TwoPairs(d, e, rest);
    OneMorePair(c, s, rest, [d, e]);
  }

  lemma FourPairs(b: Named, c: Named, d: Named, e: Named, s: string, rest: string)
    requires BarePair(b) && s == ItemText(b) + ";" + rest && Pairs(rest) == [c, d, e]
    ensures Pairs(s) == [b, c, d, e]
  {
    OneMorePair(b, s, rest, [c, d, e]);
  }

  lemma FivePairs(a: Named, b: Named, c: Named, d: Named, e: Named, s: string, rest: string)
    requires BarePair(a) && s == ItemText(a) + ";" + rest && Pairs(rest) == [b, c, d, e]
    ensures Pairs(s) == [a, b, c, d, e]
  {
    OneMorePair(a, s, rest, [b, c, d, e]);
  }

  lemma TotalNameBare()
    ensures Bare("total_received_fragments")
  {
  }

  lemma RejectedNameBare()
    ensures Bare("rejected_fragments")
  {
  }

  lemma ListNamesBare()
    ensures Bare("nodes_in_whitelist") && Bare("nodes_in_comlist") && Bare("comlist")
  {
  }

  lemma SectionsRead(time: string, a: string, b: string, c: string, d: string, e: string)
    requires Bare(time) && Bare(a) && Bare(b) && Bare(c) && Bare(d) && Bare(e)
    ensures ReadLine(Sections(time, a, b, c, d, e))
         == Line("log", time, [("total_received_fragments", a), ("rejected_fragments", b), ("nodes_in_whitelist", c),
                               ("nodes_in_comlist", d), ("comlist", e)])
  {
    var p0, p1 := ("total_received_fragments", a), ("rejected_fragments", b);
    var p2, p3, p4 := ("nodes_in_whitelist", c), ("nodes_in_comlist", d), ("comlist", e);
    TotalNameBare();
    RejectedNameBare();
    ListNamesBare();
    var s3 := ItemText(p3) + ";" + ItemText(p4);
    var s2 := ItemText(p2) + ";" + s3;
    var s1 := ItemText(p1) + ";" + s2;
    var s0 := ItemText(p0) + ";" + s1;
    ThreePairs(p2, p3, p4, s2, s3);
    FourPairs(p1, p2, p3, p4, s1, s2);
    FivePairs(p0, p1, p2, p3, p4, s0, s1);
    LineIs("log", time, s0);
  }

  lemma ItemIs(name: string, value: string, rest: string)
    ensures Item(name + "=", value, ";") + rest == (name + "=" + value) + ";" + rest
  {
  }

  lemma LastItems(value: string, nodes: string)
    ensures Item("nodes_in_comlist=", value, ";comlist=") + nodes
         == ("nodes_in_comlist" + "=" + value) + ";" + ("comlist" + "=" + nodes)
  {
    assert "nodes_in_comlist=" == "nodes_in_comlist" + "=" && ";comlist=" == ";" + ("comlist" + "=");
  }

  lemma FirstItems(time: string, rest: string)
    ensures Item("log|", time, "|") + rest == "log" + "|" + (time + "|" + rest)
  {
    assert "log|" == "log" + "|";
  }

  lemma ReportIsSections(o: Output)
    requires o.Status?
    ensures ReportText(o)
         == Sections(PrintInt(o.timestamp), PrintInt(Signed(o.totalFragments)), PrintInt(Signed(o.rejectedFragments)),
                Decimal(o.whitelisted), Decimal(o.communicating), NodesText(o.nodes))
  {
    var log := Item("log|", PrintInt(o.timestamp), "|");
    var total := Item("total_received_fragments=", PrintInt(Signed(o.totalFragments)), ";");
    var rejected := Item("rejected_fragments=", PrintInt(Signed(o.rejectedFragments)), ";");
    var listed := Item("nodes_in_whitelist=", Decimal(o.whitelisted), ";");
    var heard := Item("nodes_in_comlist=", Decimal(o.communicating), ";comlist=");
    var nodes := NodesText(o.nodes);
    Nested(log, total, rejected, listed, heard, nodes);
    LastItems(Decimal(o.communicating), nodes);
    assert "nodes_in_whitelist=" == "nodes_in_whitelist" + "=";
    ItemIs("nodes_in_whitelist", Decimal(o.whitelisted), heard + nodes);
    assert "rejected_fragments=" == "rejected_fragments" + "=";
    ItemIs("rejected_fragments", PrintInt(Signed(o.rejectedFragments)), listed + (heard + nodes));
    assert "total_received_fragments=" == "total_received_fragments" + "=";
    ItemIs("total_received_fragments", PrintInt(Signed(o.totalFragments)), rejected + (listed + (heard + nodes)));
    FirstItems(PrintInt(o.timestamp), total + (rejected + (listed + (heard + nodes))));
  }

  lemma Nested(a: string, b: string, c: string, d: string, e: string, f: string)
    ensures (a + (b + c)) + (d + e) + f == a + (b + (c + (d + (e + f))))
  {
  }

  // Whoever reads the text finds, under their names, the numbers, nodes and
  // time of the report.
  lemma ReportReadBack(o: Output)
    requires o.Status?
    ensures Says(ReadLine(ReportText(o)), Signed(o.totalFragments), Signed(o.rejectedFragments), o.whitelisted,
                 o.communicating, o.nodes, o.timestamp)
  {
    PrintedBare(o.timestamp);
    PrintedBare(Signed(o.totalFragments));
    PrintedBare(Signed(o.rejectedFragments));
    DecimalBare(o.whitelisted);
    DecimalBare(o.communicating);
    NodesBare(o.nodes);
    ReportIsSections(o);
    SectionsRead(PrintInt(o.timestamp), PrintInt(Signed(o.totalFragments)), PrintInt(Signed(o.rejectedFragments)),
             Decimal(o.whitelisted), Decimal(o.communicating), NodesText(o.nodes));
    SaysPrinted(Signed(o.totalFragments), Signed(o.rejectedFragments), o.whitelisted, o.communicating, o.nodes,
                o.timestamp);
  }

  lemma SaysPrinted(total: int, rejected: int, whitelisted: nat, communicating: nat, nodes: seq<uint64>, time: int)
    ensures Says(Line("log", PrintInt(time),
                      [("total_received_fragments", PrintInt(total)), ("rejected_fragments", PrintInt(rejected)),
                       ("nodes_in_whitelist", Decimal(whitelisted)), ("nodes_in_comlist", Decimal(communicating)),
                       ("comlist", NodesText(nodes))]),
                 total, rejected, whitelisted, communicating, nodes, time)
  {
    SaysRead(PrintInt(time), PrintInt(total), PrintInt(rejected), Decimal(whitelisted), Decimal(communicating),
             NodesText(nodes), total, rejected, whitelisted, communicating, nodes, time) by {
      ReadPrinted(time);
      ReadPrinted(total);
      ReadPrinted(rejected);
      ReadDecimal(whitelisted);
      ReadDecimal(communicating);
      NodesReadBack(nodes);
    }
  }

  lemma SaysRead(t: string, a: string, b: string, c: string, d: string, e: string, total: int, rejected: int,
                 whitelisted: int, communicating: int, nodes: seq<uint64>, time: int)
    requires ReadInt(t) == time && ReadInt(a) == total && ReadInt(b) == rejected
    requires ReadInt(c) == whitelisted && ReadInt(d) == communicating && ReadNodes(e) == nodes
    ensures Says(Line("log", t, [("total_received_fragments", a), ("rejected_fragments", b), ("nodes_in_whitelist", c),
                                 ("nodes_in_comlist", d), ("comlist", e)]),
                 total, rejected, whitelisted, communicating, nodes, time)
  {
  }

  lemma ReadDecimal(n: nat)
    ensures ReadInt(Decimal(n)) == n
  {
    ReadPrinted(n);
  }

  // %d of a 32-bit count.
  function Shown(n: nat): int {
    Signed(n % 0x1_0000_0000)
  }

  // So after every run from zero counters the text says how many packets came
  // since the last report, how many of them from unlisted sources, how many
  // nodes either list has and which were rejected.
  lemma ReportTellsRun(s: Machine, events: seq<Input>, now: int)
    requires s.total == s.rejected == 0
    ensures var m := Run(s, events).0; var out := Step(m, Timeout(now)).1;
      && |out| == 1 && out[0].Status?
      && Says(ReadLine(ReportText(out[0])), Shown(|Received(events)|), Shown(|Refused(s, events)|),
              |Nodes(m.whitelist)|, |Nodes(m.comlist)|, Nodes(m.comlist), now)
  {
    var m := Run(s, events).0;
    var o := Step(m, Timeout(now)).1[0];
    ReportAccounts(s, events, now);
    ReportReadBack(o);
  }

  function ReadNodes(s: string): seq<nat> {
    if |s| < 17 then []
    else ReadNodes(s[..|s| - 17]) + [IdLists.DigitsValue(s[|s| - 17..|s| - 1], 16)]
  }

  lemma ReadOne(before: string, node: uint64)
    ensures ReadNodes(before + NodeText(node)) == ReadNodes(before) + [node]
  {
    var s := before + NodeText(node);
    assert s[..|s| - 17] == before && s[|s| - 17..|s| - 1] == HexAddress(node);
    HexAddressInverts(node);
  }

  // The list at its end determines the nodes.
  lemma {:induction false} NodesReadBack(nodes: seq<uint64>)
    ensures ReadNodes(NodesText(nodes)) == nodes
  {
    if nodes != [] {
      var n: nat := |nodes| - 1;
      var before, node := nodes[..n], nodes[n];
      NodesReadBack(before);
      ReadOne(NodesText(before), node);
      assert NodesText(nodes) == NodesText(before) + NodeText(node);
      JoinLast(nodes, before, node);
    }
  }

  lemma JoinLast(nodes: seq<uint64>, before: seq<uint64>, node: uint64)
    requires nodes != [] && before == nodes[..|nodes| - 1] && node == nodes[|nodes| - 1]
    ensures before + [node] == nodes
  {
  }
}

// Node lists on the side of the transceiver: the record lands in a static
// buffer, and nodelist_append reads the list from there up to its first zero,
// whatever list_len says (i8-transceiver.c).
module Whitelisting {
  import opened Memory
  import opened Packets
  import opened NodeLists
  import opened Transceiver
  import Ipc

  const LIST_OFFSET := 16

  // The list field as an array of 1024 entries.
  function ListField(buffer: string): (list: NodeList)
    requires |buffer| == Ipc.BUFFER_SIZE
  {
    NodesLength(buffer[LIST_OFFSET..], MAX_NODE_LIST);
    Ipc.NodesAt(buffer[LIST_OFFSET..], MAX_NODE_LIST)
  }

  function ListLen(buffer: string): nat
    requires |buffer| == Ipc.BUFFER_SIZE
  {
    Ipc.Number(buffer[8..10])
  }

  lemma {:induction false} NodesLength(s: string, n: nat)
    requires |s| >= 8 * n
    ensures |Ipc.NodesAt(s, n)| == n
  {
    if n > 0 {
      NodesLength(s[8..], n - 1);
    }
  }

  function EntryAt(s: string, k: nat): uint64
    requires 8 * (k + 1) <= |s|
  {
    Ipc.Node(s[8 * k..8 * k + 8])
  }

  lemma {:induction false} NodesAt(s: string, n: nat, k: nat)
    requires |s| >= 8 * n && k < n
    ensures |Ipc.NodesAt(s, n)| == n && Ipc.NodesAt(s, n)[k] == EntryAt(s, k)
  {
    NodesLength(s, n);
    if k > 0 {
      NodesAt(s[8..], n - 1, k - 1);
      assert s[8..][8 * (k - 1)..8 * (k - 1) + 8] == s[8 * k..8 * k + 8];
    }
  }

  // The method of the main loop for a record of the messenger.
  method OnRecord(g: Gateway, pipe: Ipc.Pipe, rxBuffer: array<char>) returns (ok: bool)
    requires g.Valid() && rxBuffer.Length == Ipc.BUFFER_SIZE && rxBuffer != g.dataBuffer
    modifies pipe, rxBuffer, g.whitelist
    ensures g.Valid() && ok == Ipc.Take(old(pipe.bytes)).Got?
    ensures !ok ==> g.Abstract() == old(g.Abstract())
    ensures ok ==>
      var Got(raw, rest) := Ipc.Take(old(pipe.bytes));
      var n := Ipc.HEADER_SIZE + |raw.payload|;
      && pipe.bytes == rest && n <= Ipc.BUFFER_SIZE && n <= |old(pipe.bytes)|
      && rxBuffer[..] == Ipc.Landed(old(rxBuffer[..]), old(pipe.bytes), n)
      && g.Abstract() == (if Ipc.Number(rxBuffer[..4]) == Ipc.NODELIST_ID
           then Step(old(g.Abstract()), Whitelist(ListLen(rxBuffer[..]), ListField(rxBuffer[..]))).0
           else old(g.Abstract()))
  {
    ok := Ipc.ReadRecord(pipe, rxBuffer);
    if !ok { return; }
    if Ipc.Number(rxBuffer[..4]) == Ipc.NODELIST_ID {
      var list := ListField(rxBuffer[..]);
      var append := new uint64[MAX_NODE_LIST](i requires 0 <= i < MAX_NODE_LIST => list[i]);
      assert append[..] == list;
      g.OnWhitelist(ListLen(rxBuffer[..]), append);
    }
  }

  // ----- what the list field holds after a list record -----

  function AfterList(before: string, padding: string, nodes: seq<uint64>): (b: string)
    requires |before| == Ipc.BUFFER_SIZE && Ipc.Postable(Ipc.NodeList(padding, nodes))
    ensures |b| == Ipc.BUFFER_SIZE
  {
    var w := Ipc.WireOf(Ipc.NodeList(padding, nodes));
    Ipc.Landed(before, w, |w|)
  }

  lemma ListParts(padding: string, nodes: seq<uint64>)
    requires Ipc.Postable(Ipc.NodeList(padding, nodes))
    ensures var w := Ipc.WireOf(Ipc.NodeList(padding, nodes));
      && |w| == LIST_OFFSET + 8 * |nodes| && w[..4] == Ipc.Bytes(Ipc.NODELIST_ID, 4)
      && w[8..10] == Ipc.Bytes(|nodes|, 2) && w[LIST_OFFSET..] == Ipc.NodeBytes(nodes)
  {
    var r := Ipc.NodeList(padding, nodes);
    Ipc.DecodeInverts(r);
    var head, p := Ipc.Bytes(Ipc.NODELIST_ID, 4) + Ipc.Bytes(|Ipc.Payload(r)|, 4), Ipc.Payload(r);
    var w := Ipc.WireOf(r);
    assert w == head + p && |head| == 8;
    assert w[8..] == p && w[8..10] == p[..2] && w[LIST_OFFSET..] == p[8..];
    assert p[..2] == Ipc.Bytes(|nodes|, 2) && p[8..] == Ipc.NodeBytes(nodes);
  }

  lemma {:induction false} NodeBytesAt(nodes: seq<uint64>, k: nat)
    requires k < |nodes|
    ensures EntryAt(Ipc.NodeBytes(nodes), k) == nodes[k]
  {
    var s := Ipc.NodeBytes(nodes);
    if k == 0 {
      assert s[0..8] == Ipc.Bytes(nodes[0], 8);
      Ipc.NodeOfBytes(nodes[0]);
    } else {
      var j: nat := k - 1;
      NodeBytesAt(nodes[1..], j);
      assert s[8..] == Ipc.NodeBytes(nodes[1..]);
      TailSlice(s, 8, 8 * j);
    }
  }

  lemma EntryBehind(s: string, k: nat)
    requires LIST_OFFSET + 8 * (k + 1) <= |s|
    ensures EntryAt(s[LIST_OFFSET..], k) == EntryAt(s, k + 2)
  {
    var a, x := LIST_OFFSET, 8 * k;
    TailSlice(s, a, x);
  }

  lemma TailSlice(s: string, a: nat, x: nat)
    requires a + x + 8 <= |s|
    ensures s[a..][x..x + 8] == s[a + x..a + x + 8]
  {
  }

  lemma FieldEntry(buffer: string, k: nat)
    requires |buffer| == Ipc.BUFFER_SIZE && k < MAX_NODE_LIST
    ensures ListField(buffer)[k] == EntryAt(buffer, k + 2)
  {
    NodesAt(buffer[LIST_OFFSET..], MAX_NODE_LIST, k);
    EntryBehind(buffer, k);
  }

  lemma LandedEntry(before: string, w: string, n: nat, j: nat)
    requires |w| == 8 * n <= |before| && 8 * (j + 1) <= |before|
    ensures EntryAt(Ipc.Landed(before, w, |w|), j) == if j < n then EntryAt(w, j) else EntryAt(before, j)
  {
    var after := Ipc.Landed(before, w, |w|);
    if j < n {
      assert after[8 * j..8 * j + 8] == w[8 * j..8 * j + 8];
    } else {
      assert after[8 * j..8 * j + 8] == before[8 * j..8 * j + 8];
    }
  }

  lemma WireEntry(w: string, nodes: seq<uint64>, k: nat)
    requires |w| == LIST_OFFSET + 8 * |nodes| && w[LIST_OFFSET..] == Ipc.NodeBytes(nodes) && k < |nodes|
    ensures EntryAt(w, k + 2) == nodes[k]
  {
    NodeBytesAt(nodes, k);
    EntryBehind(w, k);
  }

  lemma FieldLands(before: string, w: string, nodes: seq<uint64>, k: nat)
    requires |before| == Ipc.BUFFER_SIZE && |w| == LIST_OFFSET + 8 * |nodes| <= Ipc.BUFFER_SIZE
    requires w[LIST_OFFSET..] == Ipc.NodeBytes(nodes) && k < MAX_NODE_LIST
    ensures ListField(Ipc.Landed(before, w, |w|))[k] == if k < |nodes| then nodes[k] else ListField(before)[k]
  {
    var after, n := Ipc.Landed(before, w, |w|), |nodes| + 2;
    FieldEntry(after, k);
    LandedEntry(before, w, n, k + 2);
    if k < |nodes| {
      WireEntry(w, nodes, k);
    } else {
      FieldEntry(before, k);
    }
  }

  // The nodes of the record, then what the buffer held before.
  lemma ListLands(before: string, padding: string, nodes: seq<uint64>, k: nat)
    requires |before| == Ipc.BUFFER_SIZE && Ipc.Postable(Ipc.NodeList(padding, nodes)) && k < MAX_NODE_LIST
    ensures ListField(AfterList(before, padding, nodes))[k] == if k < |nodes| then nodes[k] else ListField(before)[k]
  {
    ListParts(padding, nodes);
    FieldLands(before, Ipc.WireOf(Ipc.NodeList(padding, nodes)), nodes, k);
  }

  lemma LenLands(before: string, padding: string, nodes: seq<uint64>)
    requires |before| == Ipc.BUFFER_SIZE && Ipc.Postable(Ipc.NodeList(padding, nodes))
    ensures ListLen(AfterList(before, padding, nodes)) == |nodes|
  {
    ListParts(padding, nodes);
    LenOf(before, Ipc.WireOf(Ipc.NodeList(padding, nodes)), |nodes|);
  }

  lemma LenOf(before: string, w: string, n: nat)
    requires |before| == Ipc.BUFFER_SIZE && LIST_OFFSET <= |w| <= Ipc.BUFFER_SIZE && w[8..10] == Ipc.Bytes(n, 2)
    requires n < 0x1_0000
    ensures ListLen(Ipc.Landed(before, w, |w|)) == n
  {
    assert Ipc.Landed(before, w, |w|)[8..10] == w[8..10];
    Ipc.Limits();
    Ipc.NumberOfBytes(n, 2);
  }

  // The bytes of the record are the next on the socket.
  predicate NextIs(bytes: string, r: Ipc.Sent, rest: string) {
    bytes == Ipc.WireOf(r) + rest
  }

  lemma RecordLands(before: string, r: Ipc.Sent, rest: string)
    requires |before| == Ipc.BUFFER_SIZE
    ensures var s, w := Ipc.WireOf(r) + rest, Ipc.WireOf(r);
      && Ipc.Take(s) == Ipc.Got(Ipc.Encode(r), rest) && |w| == Ipc.HEADER_SIZE + |Ipc.Encode(r).payload|
      && Ipc.Landed(before, s, |w|) == Ipc.Landed(before, w, |w|)
      && Ipc.Number(Ipc.Landed(before, w, |w|)[..4]) == Ipc.Encode(r).id
  {
    var w := Ipc.WireOf(r);
    Ipc.DecodeInverts(r);
    Ipc.TakeWire(Ipc.Encode(r), rest);
    assert (w + rest)[..|w|] == w;
    IdLands(before, w, Ipc.Encode(r));
  }

  lemma IdLands(before: string, w: string, raw: Ipc.Raw)
    requires |w| <= |before| && w == Ipc.Wire(raw)
    ensures Ipc.Number(Ipc.Landed(before, w, |w|)[..4]) == raw.id
  {
    assert Ipc.Landed(before, w, |w|)[..4] == w[..4] == Ipc.Bytes(raw.id, 4);
    Ipc.Limits();
    Ipc.NumberOfBytes(raw.id, 4);
  }

  // A round of the main loop for a record that the messenger has sent: a list
  // changes the whitelist and nothing else, a message nothing at all.
  method OnSent(g: Gateway, pipe: Ipc.Pipe, rxBuffer: array<char>, ghost r: Ipc.Sent, ghost rest: string)
    requires g.Valid() && rxBuffer.Length == Ipc.BUFFER_SIZE && rxBuffer != g.dataBuffer
    requires NextIs(pipe.bytes, r, rest)
    modifies pipe, rxBuffer, g.whitelist
    ensures g.Valid() && pipe.bytes == rest
    ensures var w := Ipc.WireOf(r); rxBuffer[..] == Ipc.Landed(old(rxBuffer[..]), w, |w|)
    ensures r.NodeList? ==> g.Abstract() == old(g.Abstract()).(whitelist :=
              WhitelistAfter(old(g.Abstract()), old(rxBuffer[..]), r.padding, r.nodes))
    ensures !r.NodeList? ==> g.Abstract() == old(g.Abstract())
  {
    RecordLands(rxBuffer[..], r, rest);
    var ok := OnRecord(g, pipe, rxBuffer);
  }

  // ----- what is appended -----

  // Nodes of earlier records that lie directly behind the list.
  function Stale(before: string, n: nat): seq<uint64>
    requires |before| == Ipc.BUFFER_SIZE
  {
    if n >= MAX_NODE_LIST then [] else Nodes(ListField(before)[n..])
  }

  lemma NodesOfJoin(list: NodeList, nodes: seq<uint64>, tail: seq<uint64>)
    requires list == nodes + tail && 0 !in nodes
    ensures Nodes(list) == nodes + Nodes(tail)
  {
    PrefixCountIs(list, |nodes| + PrefixCount(tail));
  }

  // The field has 1024 entries.
  function Taken(nodes: seq<uint64>): seq<uint64> {
    if |nodes| > MAX_NODE_LIST then nodes[..MAX_NODE_LIST] else nodes
  }

  lemma ListSeen(before: string, padding: string, nodes: seq<uint64>)
    requires |before| == Ipc.BUFFER_SIZE && Ipc.Postable(Ipc.NodeList(padding, nodes)) && 0 !in nodes
    ensures Nodes(ListField(AfterList(before, padding, nodes))) == Taken(nodes) + Stale(before, |nodes|)
  {
    var list, n := ListField(AfterList(before, padding, nodes)), |Taken(nodes)|;
    var tail := ListField(before)[n..];
    forall k | 0 <= k < MAX_NODE_LIST ensures list[k] == (Taken(nodes) + tail)[k] {
      ListLands(before, padding, nodes, k);
    }
    NodesOfJoin(list, Taken(nodes), tail);
  }

  lemma HoldingTaken(a: seq<uint64>, nodes: seq<uint64>, stale: seq<uint64>)
    requires |nodes| >= MAX_NODE_LIST ==> stale == []
    ensures Holding(a + (Taken(nodes) + stale)) == Holding(a + (nodes + stale))
  {
    if |nodes| > MAX_NODE_LIST {
      assert (a + (Taken(nodes) + stale))[..MAX_NODE_LIST] == (a + (nodes + stale))[..MAX_NODE_LIST];
    }
  }

  // The whitelist after a list record.
  function WhitelistAfter(m: Machine, before: string, padding: string, nodes: seq<uint64>): NodeList
    requires |before| == Ipc.BUFFER_SIZE && Ipc.Postable(Ipc.NodeList(padding, nodes))
  {
    var after := AfterList(before, padding, nodes);
    Step(m, Whitelist(ListLen(after), ListField(after))).0.whitelist
  }

  // A list record extends the whitelist by its nodes and by what lay behind
  // them in the buffer.
  lemma ListAppends(m: Machine, before: string, padding: string, nodes: seq<uint64>)
    requires |before| == Ipc.BUFFER_SIZE && Ipc.Postable(Ipc.NodeList(padding, nodes))
    requires 0 !in nodes && nodes != []
    ensures WhitelistAfter(m, before, padding, nodes)
         == Holding(Nodes(m.whitelist) + (nodes + Stale(before, |nodes|)))
  {
    LenLands(before, padding, nodes);
    ListSeen(before, padding, nodes);
    AppendConcatenates(m.whitelist, ListField(AfterList(before, padding, nodes)));
    HoldingTaken(Nodes(m.whitelist), nodes, Stale(before, |nodes|));
  }

  lemma HoldingIff(a: seq<uint64>, stale: seq<uint64>)
    requires 0 !in a && 0 !in stale
    ensures (Holding(a + stale) == Holding(a)) == (stale == [] || |a| >= MAX_NODE_LIST)
  {
    if stale == [] {
      assert a + stale == a;
    } else if |a| < MAX_NODE_LIST {
      assert Holding(a + stale)[|a|] == stale[0] && Holding(a)[|a|] == 0;
    }
  }

  lemma StaleIff(before: string, n: nat)
    requires |before| == Ipc.BUFFER_SIZE && n < MAX_NODE_LIST
    ensures (Stale(before, n) == []) == (ListField(before)[n] == 0) && 0 !in Stale(before, n)
  {
    assert ListField(before)[n..][0] == ListField(before)[n];
  }

  lemma AssociateNodes(a: seq<uint64>, b: seq<uint64>, c: seq<uint64>)
    ensures a + (b + c) == (a + b) + c
  {
  }

  // It extends it by exactly its nodes if and only if the whitelist is full
  // with them or the entry behind them in the buffer is zero.
  lemma ListExactIff(m: Machine, before: string, padding: string, nodes: seq<uint64>)
    requires |before| == Ipc.BUFFER_SIZE && Ipc.Postable(Ipc.NodeList(padding, nodes))
    requires 0 !in nodes && 0 < |nodes| < MAX_NODE_LIST
    ensures (WhitelistAfter(m, before, padding, nodes) == Holding(Nodes(m.whitelist) + nodes))
         == (ListField(before)[|nodes|] == 0 || |Nodes(m.whitelist)| + |nodes| >= MAX_NODE_LIST)
  {
    var stale, listed := Stale(before, |nodes|), Nodes(m.whitelist);
    ListAppends(m, before, padding, nodes);
    AssociateNodes(listed, nodes, stale);
    StaleIff(before, |nodes|);
    HoldingIff(listed + nodes, stale);
  }

  // A list of two nodes, a clearing and a list of one node: the second node
  // is listed again. The buffer is zero at first.
  lemma ClearedNodeReturns(m: Machine, a: uint64, b: uint64, c: uint64, padding: string)
    requires a != 0 && b != 0 && c != 0 && |padding| == 6
    ensures var b1 := AfterList(Zeroed(Ipc.BUFFER_SIZE), padding, [a, b]);
      var m2 := m.(whitelist := WhitelistAfter(m, b1, padding, []));
      Nodes(m2.whitelist) == [] && ValidState(m2)
      && Nodes(WhitelistAfter(m2, AfterList(b1, padding, []), padding, [c])) == [c, b]
  {
    var b1 := AfterList(Zeroed(Ipc.BUFFER_SIZE), padding, [a, b]);
    EmptyTidy();
    LenLands(b1, padding, []);
    var m2: Machine := m.(whitelist := Empty());
    assert WhitelistAfter(m, b1, padding, []) == Empty();
    StaleSecond(a, b, padding);
    ListAppends(m2, AfterList(b1, padding, []), padding, [c]);
    assert [] + ([c] + [b]) == [c, b];
    NodesOfHolding([c, b]);
  }

  lemma ZeroList()
    ensures ListField(Zeroed(Ipc.BUFFER_SIZE)) == Empty()
  {
    var zero := Zeroed(Ipc.BUFFER_SIZE);
    forall k | 0 <= k < MAX_NODE_LIST ensures ListField(zero)[k] == 0 {
      NodesAt(zero[LIST_OFFSET..], MAX_NODE_LIST, k);
      var s := zero[LIST_OFFSET..][8 * k..8 * k + 8];
      NumberOfZeros(s);
    }
  }

  lemma {:induction false} NumberOfZeros(s: string)
    requires forall i | 0 <= i < |s| :: s[i] == '\0'
    ensures Ipc.Number(s) == 0
  {
    if s != "" {
      NumberOfZeros(s[1..]);
    }
  }

  lemma StaleSecond(a: uint64, b: uint64, padding: string)
    requires a != 0 && b != 0 && |padding| == 6
    ensures var b1 := AfterList(Zeroed(Ipc.BUFFER_SIZE), padding, [a, b]);
      Stale(AfterList(b1, padding, []), 1) == [b]
  {
    var zero := Zeroed(Ipc.BUFFER_SIZE);
    var b1 := AfterList(zero, padding, [a, b]);
    var list := ListField(AfterList(b1, padding, []));
    ZeroList();
    forall k | 0 <= k < MAX_NODE_LIST ensures list[k] == if k < 2 then [a, b][k] else 0 {
      ListLands(b1, padding, [], k);
      ListLands(zero, padding, [a, b], k);
    }
    PrefixCountIs(list[1..], 1);
  }
}

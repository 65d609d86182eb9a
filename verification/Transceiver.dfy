// The main loop of i8-transceiver.c as a state machine: one event is one
// round in which a node list, a radio packet or a status timeout is handled.
// Class Gateway holds the same state in the arrays of the source.
module Transceiver {
  import opened Memory
  import opened Packets
  import opened PacketQueue
  import opened NodeLists

  const DATA_BUFFER_SIZE := 20 * 1024

  datatype State = State(
    queue: seq<Slot>, whitelist: NodeList, comlist: NodeList,
    total: uint32, rejected: uint32)

  datatype Event =
    | Whitelist(listLen: nat, list: NodeList)
    | Radio(src: uint64, packet: Packet, now: int)
    | Timeout(now: int)

  datatype Output =
    | Forwarded(src: uint64, data: string, timestamp: int)
    | Status(totalFragments: uint32, rejectedFragments: uint32,
             whitelisted: nat, communicating: nat, nodes: seq<uint64>, timestamp: int)

  // A slot is entirely zero or holds a fragment.
  predicate SlotOk(s: Slot) {
    s == FREE
    || (0 < s.timestamp < TIME_LIMIT && InRange(s.packet) && s.packet.totalSize > s.packet.dataSize)
  }

  predicate ValidState(s: State) {
    && |s.queue| > 0
    && (forall slot | slot in s.queue :: SlotOk(slot))
    && Tidy(s.whitelist) && Tidy(s.comlist) && Distinct(Nodes(s.comlist))
  }

  // The packets and clock readings the loop is meant for.
  predicate EventOk(e: Event) {
    e.Radio? ==>
      && 0 < e.now < TIME_LIMIT
      && e.packet.dataSize <= PAYLOAD_SIZE
      && (!e.packet.isAck && e.packet.totalSize > e.packet.dataSize ==> InRange(e.packet))
  }

  function Initial(packetQueueSize: nat): (s: State)
    requires packetQueueSize > 0
    ensures ValidState(s)
  {
    EmptyTidy();
    State(seq(packetQueueSize, _ => FREE), Empty(), Empty(), 0, 0)
  }

  type Machine = s: State | ValidState(s) ghost witness Initial(1)
  type Input = e: Event | EventOk(e) witness Timeout(0)

  function Increment(n: uint32): uint32 {
    (n + 1) % 0x1_0000_0000
  }

  // Lines 535 to 618: a packet from a whitelisted node.
  function Parse(q: seq<Slot>, src: uint64, p: Packet, now: int): (r: (seq<Slot>, seq<Output>))
    requires forall slot | slot in q :: SlotOk(slot)
    requires EventOk(Radio(src, p, now))
    ensures |r.0| == |q| && forall slot | slot in r.0 :: SlotOk(slot)
  {
    if p.isAck then (q, [])
    else if p.totalSize > p.dataSize then
      var q1 := Added(q, p, src, now);
      AddedOk(q, p, src, now);
      if IsLast(p) then
        var m := Collect(q1, src, p.packetId, DATA_BUFFER_SIZE);
        MergeFrame(q1, |q1|, src, p.packetId, DATA_BUFFER_SIZE);
        (m.queue, if Succeeded(m) then [Forwarded(src, m.buffer[..m.size], m.timestamp)] else [])
      else (q1, [])
    else (q, [Forwarded(src, p.data[..p.dataSize], now)])
  }

  lemma AddedOk(q: seq<Slot>, p: Packet, src: uint64, now: int)
    requires forall slot | slot in q :: SlotOk(slot)
    requires InRange(p) && p.totalSize > p.dataSize && 0 < now < TIME_LIMIT
    ensures WellFormed(q) && WellFormed(Added(q, p, src, now))
    ensures forall slot | slot in Added(q, p, src, now) :: SlotOk(slot)
  {
  }

  function Step(s: Machine, e: Input): (r: (Machine, seq<Output>))
  {
    match e
    case Whitelist(listLen, list) =>
      AppendConcatenates(s.whitelist, list);
      EmptyTidy();
      (s.(whitelist := if listLen == 0 then Empty() else Append(s.whitelist, list)), [])
    case Radio(src, p, now) =>
      var counted := s.(total := Increment(s.total));
      if src in s.whitelist then
        var (queue, out) := Parse(s.queue, src, p, now);
        (counted.(queue := queue), out)
      else
        AddKeepsDistinct(s.comlist, src);
        (counted.(rejected := Increment(s.rejected), comlist := Add(s.comlist, src).0), [])
    case Timeout(now) =>
      (s.(total := 0, rejected := 0),
       [Status(s.total, s.rejected, Count(s.whitelist), Count(s.comlist), Nodes(s.comlist), now)])
  }

  function Run(s: Machine, events: seq<Input>): (r: (Machine, seq<Output>))
  {
    if events == [] then (s, [])
    else
      var n := |events| - 1;
      var (s1, out1) := Run(s, events[..n]);
      var (s2, out2) := Step(s1, events[n]);
      (s2, out1 + out2)
  }

  function Before(s: Machine, events: seq<Input>, n: nat): (r: Machine)
    requires n <= |events|
  {
    Run(s, events[..n]).0
  }

  function Outputs(s: Machine, events: seq<Input>, n: nat): seq<Output>
    requires n <= |events|
  {
    Run(s, events[..n]).1
  }

  lemma StepAt(s: Machine, events: seq<Input>, n: nat)
    requires n < |events|
    ensures Before(s, events, n + 1) == Step(Before(s, events, n), events[n]).0
    ensures Outputs(s, events, n + 1) == Outputs(s, events, n) + Step(Before(s, events, n), events[n]).1
  {
    assert events[..n + 1][..n] == events[..n];
  }

  // ----- every run -----

  predicate CameFrom(s: Machine, events: seq<Input>, n: nat, slot: Slot, k: nat)
    requires n <= |events|
  {
    && k < n && events[k] == Radio(slot.src, slot.packet, slot.timestamp)
    && slot.src in Before(s, events, k).whitelist
  }

  lemma ParseAddsOnly(q: seq<Slot>, src: uint64, p: Packet, now: int, i: nat)
    requires forall slot | slot in q :: SlotOk(slot)
    requires EventOk(Radio(src, p, now)) && i < |q|
    ensures var q' := Parse(q, src, p, now).0; q'[i] == q[i] || q'[i] == FREE || q'[i] == Slot(src, p, now)
  {
    if !p.isAck && p.totalSize > p.dataSize {
      var q1 := Added(q, p, src, now);
      AddedOk(q, p, src, now);
      MergeFrame(q1, |q1|, src, p.packetId, DATA_BUFFER_SIZE);
    }
  }

  // What is known of a slot after n events.
  ghost predicate Explained(s: Machine, events: seq<Input>, n: nat, slot: Slot)
    requires n <= |events|
  {
    slot == FREE
    || (slot.timestamp != 0 && slot.packet.totalSize > slot.packet.dataSize
        && exists k: nat :: CameFrom(s, events, n, slot, k))
  }

  lemma ExplainedLater(s: Machine, events: seq<Input>, n: nat, slot: Slot)
    requires n < |events| && Explained(s, events, n, slot)
    ensures Explained(s, events, n + 1, slot)
  {
    if slot != FREE {
      var k: nat :| CameFrom(s, events, n, slot, k);
      assert CameFrom(s, events, n + 1, slot, k);
    }
  }

  lemma StepSlot(m: Machine, e: Input, i: nat)
    requires i < |m.queue|
    ensures var q := Step(m, e).0.queue;
      && |q| == |m.queue| && SlotOk(q[i])
      && (q[i] == m.queue[i] || q[i] == FREE
          || (e.Radio? && e.src in m.whitelist && q[i] == Slot(e.src, e.packet, e.now)))
  {
    var q := Step(m, e).0.queue;
    assert q[i] in q;
    if e.Radio? && e.src in m.whitelist {
      ParseAddsOnly(m.queue, e.src, e.packet, e.now, i);
    }
  }

  // An occupied slot holds a packet that arrived in this run, unaltered, from
  // a source that was whitelisted at that moment.
  lemma {:induction false} SlotProvenance(s: Machine, events: seq<Input>, n: nat, i: nat)
    requires n <= |events|
    requires i < |s.queue| && s.queue[i] == FREE
    ensures var q := Before(s, events, n).queue; |q| == |s.queue| && Explained(s, events, n, q[i])
  {
    if n == 0 {
      assert events[..0] == [];
    } else {
      var j: nat := n - 1;
      SlotProvenance(s, events, j, i);
      ExplainedStep(s, events, j, i);
    }
  }

  lemma ExplainedStep(s: Machine, events: seq<Input>, n: nat, i: nat)
    requires n < |events| && i < |Before(s, events, n).queue| && Explained(s, events, n, Before(s, events, n).queue[i])
    ensures var q := Before(s, events, n + 1).queue;
      |q| == |Before(s, events, n).queue| && Explained(s, events, n + 1, q[i])
  {
    StepAt(s, events, n);
    var before, slot := Before(s, events, n), Before(s, events, n + 1).queue[i];
    StepSlot(before, events[n], i);
    if slot == before.queue[i] {
      ExplainedLater(s, events, n, slot);
    } else if slot != FREE {
      assert CameFrom(s, events, n + 1, slot, n);
    }
  }

  // A message is forwarded only for the source of the packet just received,
  // and only if that source is listed; for address 0 an unused entry suffices.
  lemma ForwardedOnlyIfListed(s: Machine, events: seq<Input>, n: nat, data: string, src: uint64, timestamp: int)
    requires n < |events|
    requires Forwarded(src, data, timestamp) in Step(Before(s, events, n), events[n]).1
    ensures events[n].Radio? && events[n].src == src
    ensures src in Nodes(Before(s, events, n).whitelist)
         || (src == 0 && |Nodes(Before(s, events, n).whitelist)| < MAX_NODE_LIST)
  {
    FindOnTidy(Before(s, events, n).whitelist, src);
  }

  // Packet k of the run came from src when it was listed and carries byte x of
  // message id.
  predicate Carries(s: Machine, events: seq<Input>, k: nat, src: uint64, id: uint8, x: nat, c: char)
  {
    && k < |events| && events[k].Radio? && events[k].src == src && src in Before(s, events, k).whitelist
    && var p := events[k].packet;
       p.packetId == id && p.dataSize <= PAYLOAD_SIZE && InSpan(p, x) && p.data[x - p.offset] == c
  }

  lemma PutByCarries(s: Machine, events: seq<Input>, n: nat, q1: seq<Slot>, i: nat, id: uint8, x: nat, c: char)
    requires n < |events| && events[n].Radio? && events[n].src in Before(s, events, n).whitelist
    requires (forall j | 0 <= j < |s.queue| :: s.queue[j] == FREE) && |q1| == |s.queue|
    requires var e := events[n]; var q := Before(s, events, n).queue;
      |q| == |s.queue| && q1 == Added(q, e.packet, e.src, e.now)
    requires PutBy(q1, i, events[n].src, id, x, c)
    ensures exists k: nat :: k <= n && Carries(s, events, k, events[n].src, id, x, c)
  {
    var e, q := events[n], Before(s, events, n).queue;
    var slot := q1[i];
    AddedSlot(q, e.packet, e.src, e.now, i);
    if slot == Slot(e.src, e.packet, e.now) {
      assert Carries(s, events, n, e.src, id, x, c);
    } else {
      SlotProvenance(s, events, n, i);
      var k: nat :| CameFrom(s, events, n, slot, k);
      SlotCarries(s, events, n, slot, k, e.src, id, x, c);
    }
  }

  lemma SlotCarries(s: Machine, events: seq<Input>, n: nat, slot: Slot, k: nat, src: uint64, id: uint8, x: nat, c: char)
    requires n <= |events| && CameFrom(s, events, n, slot, k) && Puts(slot, src, id, x, c)
    ensures Carries(s, events, k, src, id, x, c)
  {
  }

  // A packet of this message came from src when it was listed at this time.
  predicate ArrivedAt(s: Machine, events: seq<Input>, k: nat, src: uint64, id: uint8, time: int)
  {
    && k < |events| && events[k].Radio? && events[k].src == src && src in Before(s, events, k).whitelist
    && events[k].packet.packetId == id && events[k].now == time
  }

  lemma SlotArrived(s: Machine, events: seq<Input>, n: nat, q1: seq<Slot>, i: nat, id: uint8)
    requires n < |events| && events[n].Radio? && events[n].src in Before(s, events, n).whitelist
    requires (forall j | 0 <= j < |s.queue| :: s.queue[j] == FREE) && |q1| == |s.queue|
    requires var e := events[n]; var q := Before(s, events, n).queue;
      |q| == |s.queue| && q1 == Added(q, e.packet, e.src, e.now)
    requires i < |q1| && Matches(q1[i], events[n].src, id) && q1[i].timestamp != 0
    ensures exists k: nat :: k <= n && ArrivedAt(s, events, k, events[n].src, id, q1[i].timestamp)
  {
    var e, slot := events[n], q1[i];
    AddedSlot(Before(s, events, n).queue, e.packet, e.src, e.now, i);
    if slot == Slot(e.src, e.packet, e.now) {
      assert ArrivedAt(s, events, n, e.src, id, slot.timestamp);
    } else {
      SlotProvenance(s, events, n, i);
      var k: nat :| CameFrom(s, events, n, slot, k);
      assert ArrivedAt(s, events, k, e.src, id, slot.timestamp);
    }
  }

  // What a forwarded message is made of, over every run from an empty queue:
  // the packet just received alone, with its time, or bytes each of which is
  // zero or was sent at that place of that message by the same source while it
  // was listed, with the time at which a packet of that message arrived.
  lemma ForwardedProvenance(s: Machine, events: seq<Input>, n: nat, data: string, src: uint64, timestamp: int)
    requires n < |events| && forall j | 0 <= j < |s.queue| :: s.queue[j] == FREE
    requires Forwarded(src, data, timestamp) in Step(Before(s, events, n), events[n]).1
    ensures events[n].Radio? && events[n].src == src && src in Before(s, events, n).whitelist
    ensures !events[n].packet.isAck
    ensures var p := events[n].packet;
      if p.totalSize <= p.dataSize then data == p.data[..p.dataSize] && timestamp == events[n].now
      else
        && IsLast(p)
        && ((EmptyKey(src, p.packetId) && timestamp == 0)
            || exists k: nat :: k <= n && ArrivedAt(s, events, k, src, p.packetId, timestamp))
        && forall x: nat | x < |data| ::
             data[x] == '\0' || exists k: nat :: k <= n && Carries(s, events, k, src, p.packetId, x, data[x])
  {
    var e, m := events[n], Before(s, events, n);
    var p := e.packet;
    if p.totalSize > p.dataSize {
      assert |m.queue| == |s.queue| by {
        if |s.queue| > 0 { SlotProvenance(s, events, n, 0); }
      }
      AddedOk(m.queue, p, src, e.now);
      MergedProvenance(s, events, n, data, timestamp);
    }
  }

  lemma MergedProvenance(s: Machine, events: seq<Input>, n: nat, data: string, timestamp: int)
    requires n < |events| && forall j | 0 <= j < |s.queue| :: s.queue[j] == FREE
    requires events[n].Radio? && events[n].src in Before(s, events, n).whitelist
    requires var e := events[n]; var q := Before(s, events, n).queue; var q1 := Added(q, e.packet, e.src, e.now);
      && |q| == |s.queue| && WellFormed(q1) && (forall slot | slot in q1 :: SlotOk(slot))
      && var r := Collect(q1, e.src, e.packet.packetId, DATA_BUFFER_SIZE);
         Succeeded(r) && data == r.buffer[..r.size] && timestamp == r.timestamp
    ensures var e := events[n]; var id := e.packet.packetId;
      && ((EmptyKey(e.src, id) && timestamp == 0)
          || exists k: nat :: k <= n && ArrivedAt(s, events, k, e.src, id, timestamp))
      && forall x: nat | x < |data| ::
           data[x] == '\0' || exists k: nat :: k <= n && Carries(s, events, k, e.src, id, x, data[x])
  {
    var e := events[n];
    var id, q1 := e.packet.packetId, Added(Before(s, events, n).queue, e.packet, e.src, e.now);
    forall x: nat | x < |data|
      ensures data[x] == '\0' || exists k: nat :: k <= n && Carries(s, events, k, e.src, id, x, data[x])
    {
      MergedByte(q1, |q1|, e.src, id, DATA_BUFFER_SIZE, x);
      if data[x] != '\0' {
        var i: nat :| PutBy(q1, i, e.src, id, x, data[x]);
        PutByCarries(s, events, n, q1, i, id, x, data[x]);
      }
    }
    MergedAt(s, events, n, q1, timestamp);
  }

  // The source from which a message can be merged although nothing of it is in
  // the queue: empty slots have its key.
  predicate EmptyKey(src: uint64, id: uint8) {
    src == 0 && id == 0
  }

  lemma MergedAt(s: Machine, events: seq<Input>, n: nat, q1: seq<Slot>, timestamp: int)
    requires n < |events| && (forall j | 0 <= j < |s.queue| :: s.queue[j] == FREE) && |q1| == |s.queue|
    requires events[n].Radio? && events[n].src in Before(s, events, n).whitelist
    requires var e := events[n]; var q := Before(s, events, n).queue;
      && |q| == |s.queue| && q1 == Added(q, e.packet, e.src, e.now)
      && WellFormed(q1) && (forall slot | slot in q1 :: SlotOk(slot))
      && var r := Collect(q1, e.src, e.packet.packetId, DATA_BUFFER_SIZE); Succeeded(r) && timestamp == r.timestamp
    ensures var e := events[n]; var id := e.packet.packetId;
      (EmptyKey(e.src, id) && timestamp == 0) || exists k: nat :: k <= n && ArrivedAt(s, events, k, e.src, id, timestamp)
  {
    var e := events[n];
    var src, id := e.src, e.packet.packetId;
    MergedTime(q1, |q1|, src, id, DATA_BUFFER_SIZE);
    if forall k | 0 <= k < |q1| && Matches(q1[k], src, id) :: q1[k].timestamp == 0 {
      if forall k | 0 <= k < |q1| :: !Matches(q1[k], src, id) {
        MergedNothing(q1, |q1|, src, id, DATA_BUFFER_SIZE);
        assert false;
      } else {
        var k :| 0 <= k < |q1| && Matches(q1[k], src, id);
        assert q1[k] in q1;
      }
    } else {
      var i: nat :| FirstOfKey(q1, |q1|, i, src, id) && timestamp == q1[i].timestamp;
      SlotArrived(s, events, n, q1, i, id);
    }
  }

  // ----- the counters -----

  // The index behind the last status report.
  function LastReport(events: seq<Input>): (n: nat)
    ensures n <= |events| && (n > 0 ==> events[n - 1].Timeout?)
    ensures forall k | n <= k < |events| :: !events[k].Timeout?
  {
    if events == [] then 0
    else
      var n := |events| - 1;
      if events[n].Timeout? then n + 1 else LastReport(events[..n])
  }

  predicate Counts(events: seq<Input>, k: nat) {
    LastReport(events) <= k < |events| && events[k].Radio?
  }

  // Packet k came from a source that was listed when it arrived.
  predicate Allowed(s: Machine, events: seq<Input>, k: nat)
    requires k < |events|
  {
    events[k].Radio? && events[k].src in Before(s, events, k).whitelist
  }

  // The packets since the last report: all, those of unlisted sources and
  // those handed to the parser.
  function Received(events: seq<Input>): set<nat> {
    set k: nat | k < |events| && Counts(events, k)
  }

  predicate RefusedAt(s: Machine, events: seq<Input>, k: nat)
    requires k < |events|
  {
    Counts(events, k) && !Allowed(s, events, k)
  }

  function Refused(s: Machine, events: seq<Input>): set<nat> {
    set k: nat | k < |events| && RefusedAt(s, events, k)
  }

  function Parsed(s: Machine, events: seq<Input>): set<nat> {
    set k: nat | k < |events| && Counts(events, k) && Allowed(s, events, k)
  }

  lemma CountsBefore(events: seq<Input>, n: nat)
    requires |events| == n + 1 && !events[n].Timeout?
    ensures forall k: nat | k < n :: Counts(events, k) == Counts(events[..n], k)
  {
  }

  lemma RefusedBefore(s: Machine, events: seq<Input>, n: nat)
    requires |events| == n + 1 && !events[n].Timeout?
    ensures forall k: nat | k < n :: RefusedAt(s, events, k) == RefusedAt(s, events[..n], k)
  {
    CountsBefore(events, n);
    forall k: nat | k < n ensures RefusedAt(s, events, k) == RefusedAt(s, events[..n], k) {
      assert events[..n][..k] == events[..k];
    }
  }

  lemma ReceivedNext(events: seq<Input>, n: nat)
    requires |events| == n + 1
    ensures var r := Received(events[..n]);
      Received(events) == if events[n].Timeout? then {} else if events[n].Radio? then r + {n} else r
  {
    if !events[n].Timeout? {
      CountsBefore(events, n);
    }
  }

  lemma GrownBy(a: set<nat>, b: set<nat>, n: nat, last: bool)
    requires (forall k | k in a :: k < n) && forall k | k in b :: k <= n
    requires (forall k: nat | k < n :: k in b <==> k in a) && (n in b) == last
    ensures b == if last then a + {n} else a
  {
  }

  lemma RefusedLast(s: Machine, events: seq<Input>, n: nat)
    requires |events| == n + 1 && !events[n].Timeout?
    ensures RefusedAt(s, events, n) == (events[n].Radio? && events[n].src !in Run(s, events[..n]).0.whitelist)
  {
  }

  lemma NoneRefused(s: Machine, events: seq<Input>, n: nat)
    requires |events| == n + 1 && events[n].Timeout?
    ensures Refused(s, events) == {}
  {
  }

  lemma RefusedNext(s: Machine, events: seq<Input>, n: nat)
    requires |events| == n + 1 && !events[n].Timeout?
    ensures Refused(s, events)
         == if events[n].Radio? && events[n].src !in Run(s, events[..n]).0.whitelist
            then Refused(s, events[..n]) + {n} else Refused(s, events[..n])
  {
    var last := RefusedAt(s, events, n);
    RefusedBefore(s, events, n);
    GrownBy(Refused(s, events[..n]), Refused(s, events), n, last);
    RefusedLast(s, events, n);
  }

  // Both counters are 32-bit.
  predicate CountersShow(m: Machine, received: nat, refused: nat) {
    m.total == received % 0x1_0000_0000 && m.rejected == refused % 0x1_0000_0000
  }

  lemma OneMore(a: set<nat>, n: nat)
    requires n !in a
    ensures |a + {n}| == |a| + 1 && (|a| + 1) % 0x1_0000_0000 == (|a| % 0x1_0000_0000 + 1) % 0x1_0000_0000
  {
  }

  lemma CountersStep(m: Machine, e: Input, n: nat, received: set<nat>, refused: set<nat>)
    requires CountersShow(m, |received|, |refused|) && n !in received && n !in refused
    ensures var received' := if e.Timeout? then {} else if e.Radio? then received + {n} else received;
      var refused' := if e.Timeout? then {} else if e.Radio? && e.src !in m.whitelist then refused + {n} else refused;
      CountersShow(Step(m, e).0, |received'|, |refused'|)
  {
    OneMore(received, n);
    OneMore(refused, n);
  }

  lemma CountersNext(s: Machine, events: seq<Input>, n: nat)
    requires |events| == n + 1
    requires CountersShow(Run(s, events[..n]).0, |Received(events[..n])|, |Refused(s, events[..n])|)
    ensures CountersShow(Run(s, events).0, |Received(events)|, |Refused(s, events)|)
  {
    ReceivedNext(events, n);
    if events[n].Timeout? {
      NoneRefused(s, events, n);
    } else {
      RefusedNext(s, events, n);
    }
    CountersStep(Run(s, events[..n]).0, events[n], n, Received(events[..n]), Refused(s, events[..n]));
  }

  // In every run from zero, one counter is the number of packets received since
  // the last report, the other the number of those from unlisted sources.
  lemma {:induction false} CountersExact(s: Machine, events: seq<Input>)
    requires s.total == s.rejected == 0
    ensures CountersShow(Run(s, events).0, |Received(events)|, |Refused(s, events)|)
  {
    if events == [] {
      assert Received(events) == {} && Refused(s, events) == {};
    } else {
      var n: nat := |events| - 1;
      CountersExact(s, events[..n]);
      CountersNext(s, events, n);
    }
  }

  lemma PartsOf(s: Machine, events: seq<Input>)
    ensures |Received(events)| == |Refused(s, events)| + |Parsed(s, events)|
  {
    assert Received(events) == Refused(s, events) + Parsed(s, events);
  }

  predicate DifferBy(m: Machine, parsed: nat) {
    (m.total - m.rejected - parsed) % 0x1_0000_0000 == 0
  }

  // So they differ by the packets handed to the parser.
  lemma CountersCountParsed(s: Machine, events: seq<Input>)
    requires s.total == s.rejected == 0
    ensures DifferBy(Run(s, events).0, |Parsed(s, events)|)
  {
    CountersExact(s, events);
    PartsOf(s, events);
    Difference(Run(s, events).0, |Received(events)|, |Refused(s, events)|, |Parsed(s, events)|);
  }

  lemma Difference(m: Machine, received: nat, refused: nat, parsed: nat)
    requires CountersShow(m, received, refused) && received == refused + parsed
    ensures DifferBy(m, parsed)
  {
    var a, b := received / 0x1_0000_0000, refused / 0x1_0000_0000;
    assert m.total - m.rejected - parsed == (b - a) * 0x1_0000_0000;
  }

  // A report that states these numbers and names the nodes of both lists.
  predicate Accounts(report: Output, received: nat, refused: nat, whitelist: NodeList, comlist: NodeList, now: int) {
    && report.Status? && report.timestamp == now
    && report.totalFragments == received % 0x1_0000_0000 && report.rejectedFragments == refused % 0x1_0000_0000
    && report.whitelisted == |Nodes(whitelist)|
    && report.communicating == |report.nodes| && report.nodes == Nodes(comlist)
  }

  lemma ReportAccounts(s: Machine, events: seq<Input>, now: int)
    requires s.total == s.rejected == 0
    ensures var m := Run(s, events).0; var out := Step(m, Timeout(now)).1;
      |out| == 1 && Accounts(out[0], |Received(events)|, |Refused(s, events)|, m.whitelist, m.comlist, now)
  {
    var m := Run(s, events).0;
    CountersExact(s, events);
    CountIsPrefixCount(m.whitelist);
    CountIsPrefixCount(m.comlist);
  }

  // The nodes of the lists received since the last clearing, in order.
  function Listed(events: seq<Input>): seq<uint64> {
    if events == [] then []
    else
      var n := |events| - 1;
      match events[n]
      case Whitelist(listLen, list) => if listLen == 0 then [] else Listed(events[..n]) + Nodes(list)
      case Radio(_, _, _) => Listed(events[..n])
      case Timeout(_) => Listed(events[..n])
  }

  lemma AppendListed(nodes: seq<uint64>, list: NodeList)
    requires 0 !in nodes
    ensures Append(Holding(nodes), list) == Holding(nodes + Nodes(list))
  {
    NodesOfHolding(nodes);
    AppendConcatenates(Holding(nodes), list);
    var kept := Nodes(Holding(nodes));
    if |nodes| >= MAX_NODE_LIST {
      assert (kept + Nodes(list))[..MAX_NODE_LIST] == kept == (nodes + Nodes(list))[..MAX_NODE_LIST];
    }
  }

  // At every moment the whitelist holds exactly these nodes, cut at its capacity.
  lemma {:induction false} WhitelistHistory(s: Machine, events: seq<Input>)
    requires s.whitelist == Empty()
    ensures 0 !in Listed(events)
    ensures Run(s, events).0.whitelist == Holding(Listed(events))
  {
    if events == [] {
      assert Holding([]) == Empty();
    } else {
      var n := |events| - 1;
      WhitelistHistory(s, events[..n]);
      var e := events[n];
      if e.Whitelist? {
        if e.listLen == 0 {
          assert Holding([]) == Empty();
        } else {
          AppendListed(Listed(events[..n]), e.list);
        }
      }
    }
  }

  predicate ListedOrFull(list: NodeList, node: uint64) {
    node in list || |Nodes(list)| == MAX_NODE_LIST
  }

  lemma StepComlist(m: Machine, e: Input)
    ensures Step(m, e).0.comlist == if e.Radio? && e.src !in m.whitelist then Add(m.comlist, e.src).0 else m.comlist
  {
  }

  lemma AddLists(list: NodeList, node: uint64)
    requires Tidy(list) && Distinct(Nodes(list))
    ensures ListedOrFull(Add(list, node).0, node)
  {
    AddKeepsDistinct(list, node);
  }

  // Another address does not displace a node.
  lemma AddKeepsListed(list: NodeList, other: uint64, node: uint64)
    requires Tidy(list) && ListedOrFull(list, node)
    ensures ListedOrFull(Add(list, other).0, node)
  {
    var i, list' := PrefixCount(list), Add(list, other).0;
    if list' != list {
      assert list[i] == 0 && list' == list[i := other];
      var k :| 0 <= k < |list| && list[k] == node;
      if k != i {
        assert list'[k] == node;
      } else {
        AddToTidy(list, other);
        FindOnTidy(list', node);
      }
    }
  }

  lemma ComlistGrows(m: Machine, e: Input, node: uint64)
    requires ListedOrFull(m.comlist, node)
    ensures ListedOrFull(Step(m, e).0.comlist, node)
  {
    StepComlist(m, e);
    if e.Radio? && e.src !in m.whitelist {
      AddKeepsListed(m.comlist, e.src, node);
    }
  }

  lemma StepLists(m: Machine, e: Input)
    requires e.Radio? && e.src !in m.whitelist
    ensures ListedOrFull(Step(m, e).0.comlist, e.src)
  {
    StepComlist(m, e);
    AddLists(m.comlist, e.src);
  }

  lemma {:induction false} StaysListed(s: Machine, events: seq<Input>, m: nat, n: nat, node: uint64)
    requires m <= n <= |events| && ListedOrFull(Before(s, events, m).comlist, node)
    ensures ListedOrFull(Before(s, events, n).comlist, node)
    decreases n
  {
    if m < n {
      var k: nat := n - 1;
      var before, after := Before(s, events, k), Before(s, events, n);
      StaysListed(s, events, m, k, node);
      StepAt(s, events, k);
      ComlistGrows(before, events[k], node);
      assert after == Step(before, events[k]).0;
    }
  }

  // The source of a rejected packet stays in the communication list for the
  // rest of the run, unless that list was full.
  lemma RejectedIsListed(s: Machine, events: seq<Input>, k: nat, n: nat)
    requires k < n <= |events|
    requires events[k].Radio? && events[k].src !in Before(s, events, k).whitelist
    ensures ListedOrFull(Before(s, events, n).comlist, events[k].src)
  {
    StepAt(s, events, k);
    StepLists(Before(s, events, k), events[k]);
    StaysListed(s, events, k + 1, n, events[k].src);
  }

  // A rejected packet came from this node earlier in the run.
  predicate Rejected(s: Machine, events: seq<Input>, n: nat, node: uint64, k: nat)
    requires n <= |events|
  {
    k < n && events[k].Radio? && events[k].src == node && node !in Before(s, events, k).whitelist
  }

  lemma AddAddsOnly(list: NodeList, node: uint64, other: uint64)
    requires Tidy(list) && Distinct(Nodes(list)) && other in Nodes(Add(list, node).0)
    ensures other in Nodes(list) || other == node
  {
    AddKeepsDistinct(list, node);
    if node !in list && PrefixCount(list) < MAX_NODE_LIST {
      AddToTidy(list, node);
    }
  }

  // And nobody else is listed there.
  lemma {:induction false} ListedWasRejected(s: Machine, events: seq<Input>, n: nat, node: uint64)
    requires n <= |events| && s.comlist == Empty() && node in Nodes(Before(s, events, n).comlist)
    ensures exists k: nat :: Rejected(s, events, n, node, k)
  {
    EmptyTidy();
    if n == 0 {
      assert false;
    } else {
      var j: nat := n - 1;
      var m, e := Before(s, events, j), events[j];
      StepAt(s, events, j);
      StepComlist(m, e);
      if node in Nodes(m.comlist) {
        ListedWasRejected(s, events, j, node);
        var k: nat :| Rejected(s, events, j, node, k);
        assert Rejected(s, events, n, node, k);
      } else {
        AddAddsOnly(m.comlist, e.src, node);
        assert Rejected(s, events, n, node, j);
      }
    }
  }

  // ----- eviction -----

  predicate FirstMinimum(q: seq<Slot>, o: nat) {
    && o < |q|
    && (forall k | 0 <= k < |q| :: q[o].timestamp <= q[k].timestamp)
    && (forall k | 0 <= k < o :: q[o].timestamp < q[k].timestamp)
  }

  // On a full queue the packet is not stored: the message that owns the first
  // oldest slot loses all its fragments and every other slot is left alone.
  lemma FullQueueEvicts(q: seq<Slot>, p: Packet, src: uint64, now: int, o: nat)
    requires FirstMinimum(q, o) && forall i | 0 <= i < |q| :: Candidate(q[i])
    ensures var q' := Added(q, p, src, now);
      && |q'| == |q|
      && (forall i | 0 <= i < |q| ::
            q'[i] == if q[i].src == q[o].src && q[i].packet.packetId == q[o].packet.packetId then FREE else q[i])
  {
    FirstFreeIs(q, |q|);
    assert Candidate(q[o]) && Candidate(q[Oldest(q)]);
    assert Oldest(q) == o;
  }

  // The packet after that finds room, at the latest in that oldest slot.
  lemma NextPacketStored(q: seq<Slot>, p: Packet, src: uint64, now: int, o: nat, p': Packet, src': uint64, now': int)
    requires FirstMinimum(q, o) && forall i | 0 <= i < |q| :: Candidate(q[i])
    ensures var q' := Added(q, p, src, now); var f := FirstFree(q');
      f <= o && q'[f] == FREE && Added(q', p', src', now') == q'[f := Slot(src', p', now')]
  {
    FullQueueEvicts(q, p, src, now, o);
    assert Added(q, p, src, now)[o] == FREE;
  }

  // ----- the program state -----

  class Gateway {
    const packetQueue: array<Slot>
    const whitelist: array<uint64>
    const comlist: array<uint64>
    const dataBuffer: array<char>
    var totalFragments: uint32
    var rejectedFragments: uint32

    ghost predicate Valid()
      reads this, packetQueue, whitelist, comlist, dataBuffer
    {
      && whitelist.Length == comlist.Length == MAX_NODE_LIST && whitelist != comlist
      && dataBuffer.Length == DATA_BUFFER_SIZE
      && ValidState(Abstract())
    }

    ghost function Abstract(): State
      requires whitelist.Length == comlist.Length == MAX_NODE_LIST
      reads this, packetQueue, whitelist, comlist
    {
      State(packetQueue[..], whitelist[..], comlist[..], totalFragments, rejectedFragments)
    }

    constructor (packetQueueSize: nat)
      requires packetQueueSize > 0
      ensures Valid() && fresh(packetQueue) && fresh(whitelist) && fresh(comlist) && fresh(dataBuffer)
      ensures Abstract() == Initial(packetQueueSize)
    {
      packetQueue := new Slot[packetQueueSize](_ => FREE);
      whitelist := new uint64[MAX_NODE_LIST](_ => 0);
      comlist := new uint64[MAX_NODE_LIST](_ => 0);
      dataBuffer := new char[DATA_BUFFER_SIZE](_ => '\0');
      totalFragments, rejectedFragments := 0, 0;
      new;
      assert whitelist[..] == Empty() && comlist[..] == Empty();
      assert Abstract() == Initial(packetQueueSize);
    }

    // Lines 408 to 422; append is the list field of the receive buffer.
    method OnWhitelist(listLen: nat, append: array<uint64>)
      requires Valid() && append.Length == MAX_NODE_LIST && append != whitelist && append != comlist
      modifies whitelist
      ensures Valid()
      ensures Abstract() == Step(old(Abstract()), Whitelist(listLen, append[..])).0
    {
      ghost var before := Abstract();
      if listLen == 0 {
        for i := 0 to MAX_NODE_LIST
          invariant forall k | 0 <= k < i :: whitelist[k] == 0
          invariant comlist[..] == before.comlist && packetQueue[..] == before.queue
        {
          whitelist[i] := 0;
        }
        assert whitelist[..] == Empty();
      } else {
        NodelistAppend(whitelist, append);
      }
      assert Abstract() == Step(before, Whitelist(listLen, append[..])).0;
    }

    // Lines 454 to 626; out is what ipc_message_to_bm is called with.
    method OnRadio(src: uint64, p: Packet, now: int) returns (out: seq<Output>)
      requires Valid() && EventOk(Radio(src, p, now))
      modifies this, packetQueue, comlist, dataBuffer
      ensures Valid()
      ensures (Abstract(), out) == Step(old(Abstract()), Radio(src, p, now))
    {
      out := [];
      ghost var before := Abstract();
      totalFragments := Increment(totalFragments);
      var whitelisted := NodelistFind(whitelist, src);
      if !whitelisted {
        rejectedFragments := Increment(rejectedFragments);
        var _ := NodelistAdd(comlist, src);
      } else if !p.isAck {
        if p.totalSize > p.dataSize {
          AddedOk(before.queue, p, src, now);
          assert FirstFree(before.queue) == |before.queue| ==> Candidate(packetQueue[0]) by {
            assert packetQueue[0] in before.queue;
          }
          AddToQueue(packetQueue, p, src, now);
          if IsLast(p) {
            var ok, size, timestamp := CollectFromQueue(packetQueue, p.packetId, src, dataBuffer);
            if ok {
              out := [Forwarded(src, dataBuffer[..size], timestamp)];
            }
          }
        } else {
          CopyInto(dataBuffer, 0, p.data[..p.dataSize]);
          assert dataBuffer[..p.dataSize] == p.data[..p.dataSize];
          out := [Forwarded(src, dataBuffer[..p.dataSize], now)];
        }
      }
      assert (Abstract(), out) == Step(before, Radio(src, p, now));
    }

    // Lines 629 to 656, with the text of the report left as its fields.
    method OnTimeout(now: int) returns (out: seq<Output>)
      requires Valid()
      modifies this
      ensures Valid()
      ensures (Abstract(), out) == Step(old(Abstract()), Timeout(now))
    {
      var inWhitelist := NodelistCount(whitelist);
      var inComlist := NodelistCount(comlist);
      var nodes := [];
      for i := 0 to MAX_NODE_LIST
        invariant nodes == comlist[..if i < PrefixCount(comlist[..]) then i else PrefixCount(comlist[..])]
      {
        if comlist[i] != 0 {
          nodes := nodes + [comlist[i]];
        }
      }
      out := [Status(totalFragments, rejectedFragments, inWhitelist, inComlist, nodes, now)];
      totalFragments, rejectedFragments := 0, 0;
    }

    // One round: what select() has reported.
    method Handle(e: Input) returns (out: seq<Output>)
      requires Valid()
      modifies this, packetQueue, whitelist, comlist, dataBuffer
      ensures Valid()
      ensures (Abstract(), out) == Step(old(Abstract()), e)
    {
      match e
      case Whitelist(listLen, list) =>
        var append := new uint64[MAX_NODE_LIST](i requires 0 <= i < MAX_NODE_LIST => list[i]);
        assert append[..] == list;
        OnWhitelist(listLen, append);
        out := [];
      case Radio(src, p, now) =>
        out := OnRadio(src, p, now);
      case Timeout(now) =>
        out := OnTimeout(now);
    }

    // The main loop, for any number of rounds.
    method MainLoop(events: seq<Input>) returns (out: seq<Output>)
      requires Valid()
      modifies this, packetQueue, whitelist, comlist, dataBuffer
      ensures Valid()
      ensures (Abstract(), out) == Run(old(Abstract()), events)
    {
      out := [];
      ghost var start: Machine := Abstract();
      for n := 0 to |events|
        invariant Valid()
        invariant Abstract() == Before(start, events, n) && out == Outputs(start, events, n)
      {
        StepAt(start, events, n);
        var more := Handle(events[n]);
        out := out + more;
      }
      assert events[..|events|] == events;
    }
  }
}

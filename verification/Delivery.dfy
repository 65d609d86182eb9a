// The fragmenter of test_mode.c against the receiver of i8-transceiver.c:
// many messages at once, their fragments interleaved in any way.
module Delivery {
  import opened Memory
  import opened Packets
  import opened PacketQueue
  import opened Coverage
  import opened NodeLists
  import opened Transceiver

  datatype Message = Message(src: uint64, id: uint8, body: string)

  // Which message sends its next fragment, and when it arrives.
  datatype Turn = Turn(stream: nat, now: int)

  predicate Fits(m: Message) {
    (m.src, m.id) != (0, 0) && 0 < |m.body| <= DATA_BUFFER_SIZE
  }

  // Whitelisted senders whose keys have no fragment in the queue yet. The queue
  // may hold fragments of other messages.
  predicate Traffic(s: Machine, msgs: seq<Message>) {
    && (forall k | 0 <= k < |msgs| :: Fits(msgs[k]) && msgs[k].src in s.whitelist)
    && (forall k | 0 <= k < |msgs| :: !Present(s.queue, msgs[k].src, msgs[k].id))
  }

  function Sent(turns: seq<Turn>, k: nat): (n: nat) {
    if turns == [] then 0
    else Sent(turns[..|turns| - 1], k) + if turns[|turns| - 1].stream == k then 1 else 0
  }

  predicate Schedule(msgs: seq<Message>, turns: seq<Turn>) {
    && (forall k | 0 <= k < |msgs| :: Fits(msgs[k]) && Sent(turns, k) <= FragmentCount(msgs[k].body))
    && (forall t | t in turns :: t.stream < |msgs| && 0 < t.now < TIME_LIMIT)
  }

  lemma SchedulePrefix(msgs: seq<Message>, turns: seq<Turn>)
    requires Schedule(msgs, turns) && turns != []
    ensures var n := |turns| - 1; var k := turns[n].stream;
      && Schedule(msgs, turns[..n])
      && k < |msgs| && Sent(turns[..n], k) < FragmentCount(msgs[k].body)
  {
    var n := |turns| - 1;
    assert turns[n] in turns;
    forall k | 0 <= k < |msgs| ensures Sent(turns[..n], k) <= FragmentCount(msgs[k].body) {
      assert Sent(turns[..n], k) <= Sent(turns, k);
    }
  }

  predicate SameKey(m: Message, m': Message) {
    m.src == m'.src && m.id == m'.id
  }

  // A message begins after all fragments of earlier ones with its key.
  predicate OneAfterOther(msgs: seq<Message>, turns: seq<Turn>) {
    forall j, k | 0 <= j < k < |msgs| && SameKey(msgs[j], msgs[k]) && Sent(turns, k) > 0 ::
      Sent(turns, j) == FragmentCount(msgs[j].body)
  }

  // Packet ids are used again, but only one message of a key is on its way at
  // any time.
  predicate InTurn(msgs: seq<Message>, turns: seq<Turn>) {
    OneAfterOther(msgs, turns) && (turns != [] ==> InTurn(msgs, turns[..|turns| - 1]))
  }

  // The interleaved packets on the air.
  function Air(msgs: seq<Message>, turns: seq<Turn>): (events: seq<Input>)
    requires Schedule(msgs, turns)
    ensures |events| == |turns|
  {
    if turns == [] then []
    else
      SchedulePrefix(msgs, turns);
      var n := |turns| - 1;
      var k := turns[n].stream;
      assert turns[n] in turns;
      Air(msgs, turns[..n])
      + [Radio(msgs[k].src, Fragment(msgs[k].body, msgs[k].id, Sent(turns[..n], k)), turns[n].now)]
  }

  // The messages in the order in which their last payload byte arrives.
  function Expected(msgs: seq<Message>, turns: seq<Turn>): seq<(uint64, string)>
    requires Schedule(msgs, turns)
  {
    if turns == [] then []
    else
      SchedulePrefix(msgs, turns);
      var n := |turns| - 1;
      var k := turns[n].stream;
      Expected(msgs, turns[..n])
      + if Sent(turns[..n], k) == LastIndex(msgs[k].body) then [(msgs[k].src, msgs[k].body)] else []
  }

  predicate HasRoom(q: seq<Slot>) {
    FirstFree(q) < |q|
  }

  // Fragment n goes into the queue; a message of one packet does not.
  predicate Stores(m: Message, n: nat) {
    n > 0 || |m.body| > PAYLOAD_SIZE
  }

  // The next turn stores a fragment.
  predicate StoringTurn(msgs: seq<Message>, before: seq<Turn>, k: nat) {
    k < |msgs| && Stores(msgs[k], Sent(before, k))
  }

  // Every fragment that goes into the queue finds a free slot.
  predicate NeverFull(s: Machine, msgs: seq<Message>, turns: seq<Turn>)
    requires Schedule(msgs, turns)
  {
    turns != [] ==>
      && (SchedulePrefix(msgs, turns); NeverFull(s, msgs, turns[..|turns| - 1]))
      && (StoringTurn(msgs, turns[..|turns| - 1], turns[|turns| - 1].stream) ==>
            (SchedulePrefix(msgs, turns); HasRoom(Run(s, Air(msgs, turns[..|turns| - 1])).0.queue)))
  }

  function Delivered(out: seq<Output>): seq<(uint64, string)> {
    if out == [] then []
    else
      var last := out[|out| - 1];
      Delivered(out[..|out| - 1]) + if last.Forwarded? then [(last.src, last.data)] else []
  }

  lemma {:induction false} DeliveredConcat(out: seq<Output>, out': seq<Output>)
    ensures Delivered(out + out') == Delivered(out) + Delivered(out')
  {
    if out' == [] {
      assert out + out' == out;
    } else {
      var n := |out'| - 1;
      DeliveredConcat(out, out'[..n]);
      assert (out + out')[..|out| + n] == out + out'[..n];
    }
  }

  // ----- one message in the queue -----

  // How many fragments of a message are queued once n of them have arrived.
  function Pending(m: Message, n: nat): nat
    requires Fits(m)
  {
    if n <= LastIndex(m.body) then n else 0
  }

  predicate Mine(s: Slot, m: Message) {
    Matches(s, m.src, m.id)
  }

  // The queue holds fragments 0 to n - 1 of the message, once each.
  predicate Holds(q: seq<Slot>, m: Message, n: nat)
    requires Fits(m) && n <= FragmentCount(m.body)
  {
    && (forall i | 0 <= i < |q| && Mine(q[i], m) ::
          q[i].packet.offset / PAYLOAD_SIZE < n
          && q[i].packet == Fragment(m.body, m.id, q[i].packet.offset / PAYLOAD_SIZE))
    && (forall i, j | 0 <= i < j < |q| && Mine(q[i], m) && Mine(q[j], m) ::
          q[i].packet.offset != q[j].packet.offset)
    && (forall j | 0 <= j < n :: HoldsFragment(q, m, j))
  }

  predicate HoldsFragment(q: seq<Slot>, m: Message, j: nat) {
    exists i | 0 <= i < |q| :: Mine(q[i], m) && q[i].packet.offset == PAYLOAD_SIZE * j
  }

  // q' differs from q only in slots that are free or belong to the message.
  predicate OnlyMineChanged(q: seq<Slot>, q': seq<Slot>, m: Message) {
    |q| == |q'| && forall i | 0 <= i < |q| ::
      q'[i] == q[i] || ((Mine(q[i], m) || q[i] == FREE) && (Mine(q'[i], m) || q'[i] == FREE))
  }

  lemma OthersUndisturbed(q: seq<Slot>, q': seq<Slot>, m: Message, other: Message, n: nat)
    requires OnlyMineChanged(q, q', m)
    requires Fits(other) && (m.src, m.id) != (other.src, other.id)
    requires n <= FragmentCount(other.body) && Holds(q, other, n)
    ensures Holds(q', other, n)
  {
    forall i | 0 <= i < |q| ensures Mine(q[i], other) || Mine(q'[i], other) ==> q[i] == q'[i] {}
    forall j | 0 <= j < n ensures HoldsFragment(q', other, j) {
      assert HoldsFragment(q, other, j);
      var i :| 0 <= i < |q| && Mine(q[i], other) && q[i].packet.offset == PAYLOAD_SIZE * j;
      assert Mine(q'[i], other);
    }
  }

  lemma StoreNext(q: seq<Slot>, m: Message, n: nat, now: int)
    requires forall s | s in q :: SlotOk(s)
    requires Fits(m) && n < FragmentCount(m.body) && Holds(q, m, n) && HasRoom(q)
    ensures var q' := Added(q, Fragment(m.body, m.id, n), m.src, now);
      OnlyMineChanged(q, q', m) && Holds(q', m, n + 1)
  {
    var f, p := FirstFree(q), Fragment(m.body, m.id, n);
    assert q[f] in q && q[f] == FREE;
    assert p.offset / PAYLOAD_SIZE == n;
    var q' := q[f := Slot(m.src, p, now)];
    assert forall i | 0 <= i < |q| && i != f :: q'[i] == q[i];
    forall j | 0 <= j < n + 1 ensures HoldsFragment(q', m, j) {
      if j == n {
        assert Mine(q'[f], m);
      } else {
        assert HoldsFragment(q, m, j);
        var i :| 0 <= i < |q| && Mine(q[i], m) && q[i].packet.offset == PAYLOAD_SIZE * j;
        assert Mine(q'[i], m);
      }
    }
  }

  lemma SlotsWellFormed(q: seq<Slot>)
    requires forall s | s in q :: SlotOk(s)
    ensures WellFormed(q)
  {
  }

  // Packet p is a fragment of the message, the one that its offset says.
  predicate OwnFragment(p: Packet, m: Message)
    requires Fits(m)
  {
    var j := p.offset / PAYLOAD_SIZE;
    j < FragmentCount(m.body) && p == Fragment(m.body, m.id, j)
  }

  lemma OwnFragmentsApart(m: Message, p: Packet, p': Packet)
    requires Fits(m) && OwnFragment(p, m) && OwnFragment(p', m) && p.offset != p'.offset
    ensures Apart(p, p')
  {
  }

  lemma HeldArePieces(q: seq<Slot>, m: Message, n: nat)
    requires Fits(m) && n <= FragmentCount(m.body) && Holds(q, m, n)
    ensures CutFrom(q, m.src, m.id, m.body) && PairwiseApart(q, m.src, m.id)
  {
    forall i | 0 <= i < |q| && Mine(q[i], m) ensures FragmentOf(q[i].packet, m.body) && OwnFragment(q[i].packet, m) {
      FragmentIsPiece(m, q[i].packet.offset / PAYLOAD_SIZE);
    }
    forall i, j | 0 <= i < j < |q| && Mine(q[i], m) && Mine(q[j], m) ensures Apart(q[i].packet, q[j].packet) {
      OwnFragmentsApart(m, q[i].packet, q[j].packet);
    }
  }

  lemma FragmentIsPiece(m: Message, j: nat)
    requires Fits(m) && j < FragmentCount(m.body)
    ensures FragmentOf(Fragment(m.body, m.id, j), m.body)
  {
  }

  lemma AllHeldIsComplete(q: seq<Slot>, m: Message)
    requires Fits(m) && Holds(q, m, LastIndex(m.body) + 1)
    ensures Complete(q, m.src, m.id, |m.body|)
  {
    forall x: nat | x < |m.body| ensures Covers(q, m.src, m.id, x) {
      var j := x / PAYLOAD_SIZE;
      assert HoldsFragment(q, m, j);
      var i :| 0 <= i < |q| && Mine(q[i], m) && q[i].packet.offset == PAYLOAD_SIZE * j;
    }
  }

  // Collecting the complete message yields it and frees its slots.
  lemma MergeComplete(q: seq<Slot>, m: Message)
    requires WellFormed(q) && Fits(m) && Holds(q, m, LastIndex(m.body) + 1)
    ensures var r := Collect(q, m.src, m.id, DATA_BUFFER_SIZE);
      && Succeeded(r) && r.buffer[..r.size] == m.body
      && OnlyMineChanged(q, r.queue, m) && Holds(r.queue, m, 0)
  {
    HeldArePieces(q, m, LastIndex(m.body) + 1);
    AllHeldIsComplete(q, m);
    CollectIffComplete(q, m.src, m.id, m.body, DATA_BUFFER_SIZE);
  }

  // The empty fragment that follows a message whose length is a multiple of
  // PAYLOAD_SIZE starts a second merge, which fails and leaves nothing behind.
  lemma MergeEmptyTail(q: seq<Slot>, m: Message, now: int)
    requires forall s | s in q :: SlotOk(s)
    requires Fits(m) && Holds(q, m, 0) && HasRoom(q)
    requires |m.body| % PAYLOAD_SIZE == 0
    ensures var q1 := Added(q, Fragment(m.body, m.id, |m.body| / PAYLOAD_SIZE), m.src, now);
      && WellFormed(q1)
      && var r := Collect(q1, m.src, m.id, DATA_BUFFER_SIZE);
         !Succeeded(r) && OnlyMineChanged(q, r.queue, m) && Holds(r.queue, m, 0)
  {
    var tail := Fragment(m.body, m.id, |m.body| / PAYLOAD_SIZE);
    var f := FirstFree(q);
    assert q[f] in q && q[f] == FREE;
    var q1 := q[f := Slot(m.src, tail, now)];
    SlotsWellFormed(q);
    FragmentIsPiece(m, |m.body| / PAYLOAD_SIZE);
    TailAlone(q, m, f, tail, now);
    CollectIffComplete(q1, m.src, m.id, m.body, DATA_BUFFER_SIZE);
  }

  // The empty fragment covers nothing.
  lemma TailAlone(q: seq<Slot>, m: Message, f: nat, tail: Packet, now: int)
    requires Fits(m) && Holds(q, m, 0) && f < |q| && FragmentOf(tail, m.body) && tail.dataSize == 0
    ensures var q1 := q[f := Slot(m.src, tail, now)];
      && CutFrom(q1, m.src, m.id, m.body) && PairwiseApart(q1, m.src, m.id)
      && !Complete(q1, m.src, m.id, |m.body|)
  {
    assert !Covers(q[f := Slot(m.src, tail, now)], m.src, m.id, 0);
  }

  // What the arrival of fragment n must do.
  predicate Handled(q: seq<Slot>, m: Message, n: nat, r: (seq<Slot>, seq<Output>))
    requires Fits(m) && n < FragmentCount(m.body)
  {
    && OnlyMineChanged(q, r.0, m)
    && Holds(r.0, m, Pending(m, n + 1))
    && Delivered(r.1) == if n == LastIndex(m.body) then [(m.src, m.body)] else []
  }

  lemma FragmentKind(m: Message, n: nat)
    requires Fits(m) && n < FragmentCount(m.body)
    ensures var p := Fragment(m.body, m.id, n);
      && (p.totalSize > p.dataSize <==> n > 0 || |m.body| > PAYLOAD_SIZE)
      && (IsLast(p) <==> n >= LastIndex(m.body))
      && (n > LastIndex(m.body) ==> n == |m.body| / PAYLOAD_SIZE && |m.body| % PAYLOAD_SIZE == 0)
      && (|m.body| <= PAYLOAD_SIZE && n == 0 ==> p.data[..p.dataSize] == m.body)
  {
  }

  lemma ParseQueued(q: seq<Slot>, m: Message, n: nat, now: int)
    requires forall s | s in q :: SlotOk(s)
    requires Fits(m) && n < LastIndex(m.body) && Holds(q, m, n) && HasRoom(q)
    requires 0 < now < TIME_LIMIT
    ensures Handled(q, m, n, Parse(q, m.src, Fragment(m.body, m.id, n), now))
  {
    FragmentKind(m, n);
    StoreNext(q, m, n, now);
  }

  lemma ParseCompleting(q: seq<Slot>, m: Message, n: nat, now: int)
    requires forall s | s in q :: SlotOk(s)
    requires Fits(m) && n == LastIndex(m.body) && Holds(q, m, n) && HasRoom(q)
    requires |m.body| > PAYLOAD_SIZE && 0 < now < TIME_LIMIT
    ensures Handled(q, m, n, Parse(q, m.src, Fragment(m.body, m.id, n), now))
  {
    var p := Fragment(m.body, m.id, n);
    FragmentKind(m, n);
    StoreNext(q, m, n, now);
    AddedOk(q, p, m.src, now);
    var q1 := Added(q, p, m.src, now);
    MergeComplete(q1, m);
    var r := Collect(q1, m.src, m.id, DATA_BUFFER_SIZE);
    assert Parse(q, m.src, p, now) == (r.queue, [Forwarded(m.src, m.body, r.timestamp)]);
  }

  lemma ParseTail(q: seq<Slot>, m: Message, n: nat, now: int)
    requires forall s | s in q :: SlotOk(s)
    requires Fits(m) && LastIndex(m.body) < n < FragmentCount(m.body) && Holds(q, m, 0) && HasRoom(q)
    requires 0 < now < TIME_LIMIT
    ensures Handled(q, m, n, Parse(q, m.src, Fragment(m.body, m.id, n), now))
  {
    FragmentKind(m, n);
    MergeEmptyTail(q, m, now);
  }

  // The arrival of fragment n, for every n from the first to the last.
  lemma ParseFragment(q: seq<Slot>, m: Message, n: nat, now: int)
    requires forall s | s in q :: SlotOk(s)
    requires Fits(m) && n < FragmentCount(m.body) && Holds(q, m, Pending(m, n)) && (Stores(m, n) ==> HasRoom(q))
    requires 0 < now < TIME_LIMIT
    ensures Handled(q, m, n, Parse(q, m.src, Fragment(m.body, m.id, n), now))
  {
    FragmentKind(m, n);
    if n < LastIndex(m.body) {
      ParseQueued(q, m, n, now);
    } else if n > LastIndex(m.body) {
      ParseTail(q, m, n, now);
    } else if |m.body| > PAYLOAD_SIZE {
      ParseCompleting(q, m, n, now);
    }
  }

  // ----- all messages -----

  function PendingOf(msgs: seq<Message>, turns: seq<Turn>, k: nat): nat
    requires k < |msgs| && Fits(msgs[k])
  {
    Pending(msgs[k], Sent(turns, k))
  }

  // Another message with its key has fragments in the queue.
  predicate Busy(msgs: seq<Message>, turns: seq<Turn>, k: nat)
    requires k < |msgs| && Schedule(msgs, turns)
  {
    exists j | 0 <= j < |msgs| && j != k :: SameKey(msgs[j], msgs[k]) && PendingOf(msgs, turns, j) > 0
  }

  predicate AllHeld(q: seq<Slot>, msgs: seq<Message>, turns: seq<Turn>)
    requires Schedule(msgs, turns)
  {
    forall k | 0 <= k < |msgs| :: Busy(msgs, turns, k) || Holds(q, msgs[k], PendingOf(msgs, turns, k))
  }

  // Slots that were occupied before any of these messages began.
  predicate ForeignKept(q: seq<Slot>, q': seq<Slot>) {
    |q| == |q'| && forall i | 0 <= i < |q| :: q[i] != FREE ==> q'[i] == q[i]
  }

  predicate Reached(s: Machine, msgs: seq<Message>, turns: seq<Turn>, r: (Machine, seq<Output>))
    requires Schedule(msgs, turns)
  {
    && r.0.whitelist == s.whitelist
    && AllHeld(r.0.queue, msgs, turns)
    && ForeignKept(s.queue, r.0.queue)
    && Delivered(r.1) == Expected(msgs, turns)
  }

  // Whose turn it is, nobody else with its key is on the way.
  lemma TurnNotBusy(msgs: seq<Message>, turns: seq<Turn>)
    requires Schedule(msgs, turns) && turns != [] && Schedule(msgs, turns[..|turns| - 1])
    requires InTurn(msgs, turns) && turns[|turns| - 1].stream < |msgs|
    ensures var before, k := turns[..|turns| - 1], turns[|turns| - 1].stream;
      forall j | 0 <= j < |msgs| && j != k && SameKey(msgs[j], msgs[k]) ::
        PendingOf(msgs, turns, j) == PendingOf(msgs, before, j) == 0
  {
    var before, k := turns[..|turns| - 1], turns[|turns| - 1].stream;
    SchedulePrefix(msgs, turns);
    assert OneAfterOther(msgs, turns) && OneAfterOther(msgs, before);
    forall j | 0 <= j < |msgs| && j != k && SameKey(msgs[j], msgs[k])
      ensures PendingOf(msgs, turns, j) == PendingOf(msgs, before, j) == 0
    {
      assert Sent(turns, j) == Sent(before, j) && Sent(turns, k) == Sent(before, k) + 1;
      if j > k {
        assert Sent(before, j) == 0;
      }
    }
  }

  lemma SameKeyHolds(q: seq<Slot>, m: Message, m': Message)
    requires Fits(m) && Fits(m') && SameKey(m, m') && Holds(q, m, 0)
    ensures Holds(q, m', 0)
  {
  }

  // One message moves on; the others and the foreign slots stay.
  lemma HeldStep(q: seq<Slot>, q': seq<Slot>, msgs: seq<Message>, turns: seq<Turn>)
    requires Schedule(msgs, turns) && turns != [] && Schedule(msgs, turns[..|turns| - 1])
    requires InTurn(msgs, turns) && AllHeld(q, msgs, turns[..|turns| - 1])
    requires turns[|turns| - 1].stream < |msgs|
    requires var k := turns[|turns| - 1].stream;
      OnlyMineChanged(q, q', msgs[k]) && Holds(q', msgs[k], PendingOf(msgs, turns, k))
    ensures AllHeld(q', msgs, turns)
  {
    var k := turns[|turns| - 1].stream;
    TurnNotBusy(msgs, turns);
    forall j | 0 <= j < |msgs| ensures Busy(msgs, turns, j) || Holds(q', msgs[j], PendingOf(msgs, turns, j)) {
      if j != k && SameKey(msgs[j], msgs[k]) {
        if PendingOf(msgs, turns, k) > 0 {
          assert Busy(msgs, turns, j);
        } else {
          SameKeyHolds(q', msgs[k], msgs[j]);
        }
      } else if j != k {
        OtherKeyStep(q, q', msgs, turns, j);
      }
    }
  }

  lemma OtherKeyStep(q: seq<Slot>, q': seq<Slot>, msgs: seq<Message>, turns: seq<Turn>, j: nat)
    requires Schedule(msgs, turns) && turns != [] && Schedule(msgs, turns[..|turns| - 1])
    requires AllHeld(q, msgs, turns[..|turns| - 1])
    requires turns[|turns| - 1].stream < |msgs| && OnlyMineChanged(q, q', msgs[turns[|turns| - 1].stream])
    requires j < |msgs| && !SameKey(msgs[j], msgs[turns[|turns| - 1].stream])
    ensures Busy(msgs, turns, j) || Holds(q', msgs[j], PendingOf(msgs, turns, j))
  {
    var before, k := turns[..|turns| - 1], turns[|turns| - 1].stream;
    if Busy(msgs, before, j) {
      var i :| 0 <= i < |msgs| && i != j && SameKey(msgs[i], msgs[j]) && PendingOf(msgs, before, i) > 0;
      assert Sent(turns, i) == Sent(before, i);
      assert SameKey(msgs[i], msgs[j]) && PendingOf(msgs, turns, i) > 0;
    } else {
      assert PendingOf(msgs, turns, j) == PendingOf(msgs, before, j);
      OthersUndisturbed(q, q', msgs[k], msgs[j], PendingOf(msgs, before, j));
    }
  }

  lemma ForeignStep(q: seq<Slot>, q': seq<Slot>, q'': seq<Slot>, m: Message)
    requires ForeignKept(q, q') && !Present(q, m.src, m.id) && OnlyMineChanged(q', q'', m)
    ensures ForeignKept(q, q'')
  {
    forall i | 0 <= i < |q| && q[i] != FREE ensures q''[i] == q[i] {
      assert !Mine(q[i], m);
    }
  }

  predicate RoomForTurn(q: seq<Slot>, msgs: seq<Message>, turns: seq<Turn>)
    requires turns != []
  {
    StoringTurn(msgs, turns[..|turns| - 1], turns[|turns| - 1].stream) ==> HasRoom(q)
  }

  lemma TurnHandled(q: seq<Slot>, msgs: seq<Message>, turns: seq<Turn>)
    requires Schedule(msgs, turns) && InTurn(msgs, turns) && turns != []
    requires Schedule(msgs, turns[..|turns| - 1]) && turns[|turns| - 1].stream < |msgs|
    requires AllHeld(q, msgs, turns[..|turns| - 1]) && RoomForTurn(q, msgs, turns) && forall s | s in q :: SlotOk(s)
    ensures var n := |turns| - 1; var before, k := turns[..n], turns[n].stream; var m := msgs[k];
      && Sent(before, k) < FragmentCount(m.body) && 0 < turns[n].now < TIME_LIMIT
      && Holds(q, m, PendingOf(msgs, before, k))
      && Handled(q, m, Sent(before, k), Parse(q, m.src, Fragment(m.body, m.id, Sent(before, k)), turns[n].now))
  {
    SchedulePrefix(msgs, turns);
    var n := |turns| - 1;
    var before, k := turns[..n], turns[n].stream;
    assert turns[n] in turns;
    TurnNotBusy(msgs, turns);
    assert !Busy(msgs, before, k);
    ParseFragment(q, msgs[k], Sent(before, k), turns[n].now);
  }

  lemma ProgressStep(s: Machine, msgs: seq<Message>, turns: seq<Turn>, r: (Machine, seq<Output>))
    requires Traffic(s, msgs) && Schedule(msgs, turns) && InTurn(msgs, turns) && turns != []
    requires Schedule(msgs, turns[..|turns| - 1])
    requires Reached(s, msgs, turns[..|turns| - 1], r) && RoomForTurn(r.0.queue, msgs, turns)
    ensures var (s2, out2) := Step(r.0, Air(msgs, turns)[|turns| - 1]);
      Reached(s, msgs, turns, (s2, r.1 + out2))
  {
    SchedulePrefix(msgs, turns);
    var n := |turns| - 1;
    var before, k := turns[..n], turns[n].stream;
    var q, m := r.0.queue, msgs[k];
    TurnHandled(q, msgs, turns);
    TurnStep(r.0, msgs, turns);
    var (q2, out2) := Parse(q, m.src, Fragment(m.body, m.id, Sent(before, k)), turns[n].now);
    DeliveredConcat(r.1, out2);
    HeldStep(q, q2, msgs, turns);
    ForeignStep(s.queue, q, q2, m);
  }

  // A turn is the parsing of one fragment.
  lemma TurnStep(r: Machine, msgs: seq<Message>, turns: seq<Turn>)
    requires Schedule(msgs, turns) && turns != [] && Schedule(msgs, turns[..|turns| - 1])
    requires turns[|turns| - 1].stream < |msgs| && msgs[turns[|turns| - 1].stream].src in r.whitelist
    requires Sent(turns[..|turns| - 1], turns[|turns| - 1].stream) < FragmentCount(msgs[turns[|turns| - 1].stream].body)
    ensures var n := |turns| - 1; var before, k := turns[..n], turns[n].stream; var m := msgs[k];
      && 0 < turns[n].now < TIME_LIMIT
      && var (s2, out2) := Step(r, Air(msgs, turns)[n]);
         && s2.whitelist == r.whitelist
         && (s2.queue, out2) == Parse(r.queue, m.src, Fragment(m.body, m.id, Sent(before, k)), turns[n].now)
  {
    assert turns[|turns| - 1] in turns;
  }

  lemma {:induction false} Progress(s: Machine, msgs: seq<Message>, turns: seq<Turn>)
    requires Traffic(s, msgs) && Schedule(msgs, turns) && InTurn(msgs, turns) && NeverFull(s, msgs, turns)
    ensures Reached(s, msgs, turns, Run(s, Air(msgs, turns)))
  {
    if turns != [] {
      SchedulePrefix(msgs, turns);
      var before := turns[..|turns| - 1];
      Progress(s, msgs, before);
      ProgressStep(s, msgs, turns, Run(s, Air(msgs, before)));
      assert Air(msgs, turns)[..|turns| - 1] == Air(msgs, before);
    }
  }

  // ----- each message exactly once -----

  function Pairs(msgs: seq<Message>): seq<(uint64, string)> {
    if msgs == [] then []
    else Pairs(msgs[..|msgs| - 1]) + [(msgs[|msgs| - 1].src, msgs[|msgs| - 1].body)]
  }

  // Message k, if its last payload byte has been sent.
  ghost function IfFinished(msgs: seq<Message>, turns: seq<Turn>, k: nat): multiset<(uint64, string)>
    requires Schedule(msgs, turns) && k < |msgs|
  {
    if Sent(turns, k) > LastIndex(msgs[k].body) then multiset{(msgs[k].src, msgs[k].body)} else multiset{}
  }

  ghost function Finished(msgs: seq<Message>, turns: seq<Turn>, n: nat): multiset<(uint64, string)>
    requires Schedule(msgs, turns) && n <= |msgs|
  {
    if n == 0 then multiset{} else Finished(msgs, turns, n - 1) + IfFinished(msgs, turns, n - 1)
  }

  ghost function JustFinished(msgs: seq<Message>, turns: seq<Turn>, k: nat): multiset<(uint64, string)>
    requires Schedule(msgs, turns) && k < |msgs|
  {
    if Sent(turns, k) == LastIndex(msgs[k].body) then multiset{(msgs[k].src, msgs[k].body)} else multiset{}
  }

  lemma IfFinishedStep(msgs: seq<Message>, turns: seq<Turn>, j: nat)
    requires Schedule(msgs, turns) && turns != [] && j < |msgs|
    requires Schedule(msgs, turns[..|turns| - 1])
    ensures var before, k := turns[..|turns| - 1], turns[|turns| - 1].stream;
      IfFinished(msgs, turns, j)
      == if k == j then IfFinished(msgs, before, j) + JustFinished(msgs, before, j) else IfFinished(msgs, before, j)
  {
  }

  lemma SwapAddends(a: multiset<(uint64, string)>, b: multiset<(uint64, string)>, c: multiset<(uint64, string)>)
    ensures (a + b) + c == (a + c) + b == a + (c + b)
  {
  }

  lemma {:induction false} FinishedStep(msgs: seq<Message>, turns: seq<Turn>, n: nat)
    requires Schedule(msgs, turns) && turns != [] && n <= |msgs|
    requires Schedule(msgs, turns[..|turns| - 1]) && turns[|turns| - 1].stream < |msgs|
    ensures var before, k := turns[..|turns| - 1], turns[|turns| - 1].stream;
      Finished(msgs, turns, n)
      == Finished(msgs, before, n) + if k < n then JustFinished(msgs, before, k) else multiset{}
  {
    if n > 0 {
      FinishedStep(msgs, turns, n - 1);
      IfFinishedStep(msgs, turns, n - 1);
      var before, k := turns[..|turns| - 1], turns[|turns| - 1].stream;
      var a, b, j := Finished(msgs, before, n - 1), IfFinished(msgs, before, n - 1), JustFinished(msgs, before, k);
      SwapAddends(a, j, b);
      if k < n - 1 {
        calc {
          Finished(msgs, turns, n);
          (a + j) + b;
          (a + b) + j;
          Finished(msgs, before, n) + j;
        }
      } else if k == n - 1 {
        calc {
          Finished(msgs, turns, n);
          a + (b + j);
          (a + b) + j;
          Finished(msgs, before, n) + j;
        }
      }
    }
  }

  lemma {:induction false} ExpectedIsFinished(msgs: seq<Message>, turns: seq<Turn>)
    requires Schedule(msgs, turns)
    ensures multiset(Expected(msgs, turns)) == Finished(msgs, turns, |msgs|)
  {
    if turns == [] {
      NothingFinished(msgs, |msgs|);
    } else {
      SchedulePrefix(msgs, turns);
      ExpectedIsFinished(msgs, turns[..|turns| - 1]);
      FinishedStep(msgs, turns, |msgs|);
    }
  }

  lemma {:induction false} NothingFinished(msgs: seq<Message>, n: nat)
    requires Schedule(msgs, []) && n <= |msgs|
    ensures Finished(msgs, [], n) == multiset{}
  {
    if n > 0 {
      NothingFinished(msgs, n - 1);
    }
  }

  predicate AllSent(msgs: seq<Message>, turns: seq<Turn>) {
    forall k | 0 <= k < |msgs| :: Sent(turns, k) == FragmentCount(msgs[k].body)
  }

  lemma PairsNext(msgs: seq<Message>, k: nat, n: nat)
    requires n == k + 1 <= |msgs|
    ensures multiset(Pairs(msgs[..n])) == multiset(Pairs(msgs[..k])) + multiset{(msgs[k].src, msgs[k].body)}
  {
    assert msgs[..n][..k] == msgs[..k];
  }

  lemma LastFinished(msgs: seq<Message>, turns: seq<Turn>, k: nat)
    requires Schedule(msgs, turns) && AllSent(msgs, turns) && k < |msgs|
    ensures IfFinished(msgs, turns, k) == multiset{(msgs[k].src, msgs[k].body)}
  {
  }

  lemma FinishedNext(msgs: seq<Message>, turns: seq<Turn>, k: nat, n: nat)
    requires Schedule(msgs, turns) && n == k + 1 <= |msgs|
    ensures Finished(msgs, turns, n) == Finished(msgs, turns, k) + IfFinished(msgs, turns, k)
  {
  }

  lemma {:induction false} AllFinished(msgs: seq<Message>, turns: seq<Turn>, n: nat)
    requires Schedule(msgs, turns) && AllSent(msgs, turns) && n <= |msgs|
    ensures Finished(msgs, turns, n) == multiset(Pairs(msgs[..n]))
  {
    if n > 0 {
      var k: nat := n - 1;
      AllFinished(msgs, turns, k);
      LastFinished(msgs, turns, k);
      FinishedNext(msgs, turns, k, n);
      PairsNext(msgs, k, n);
    }
  }

  lemma NothingHeld(q: seq<Slot>, msgs: seq<Message>, turns: seq<Turn>)
    requires Schedule(msgs, turns) && AllSent(msgs, turns) && AllHeld(q, msgs, turns)
    ensures forall k | 0 <= k < |msgs| :: !Present(q, msgs[k].src, msgs[k].id)
  {
    forall k | 0 <= k < |msgs| ensures PendingOf(msgs, turns, k) == 0 {}
    forall k | 0 <= k < |msgs| ensures !Present(q, msgs[k].src, msgs[k].id) {
      assert !Busy(msgs, turns, k);
      assert Holds(q, msgs[k], 0);
    }
  }

  // Every message of the traffic is forwarded exactly once, byte for byte, in
  // order of completion; no slot of any of them remains, and the slots of
  // messages outside the traffic are as they were.
  lemma EachMessageOnce(s: Machine, msgs: seq<Message>, turns: seq<Turn>)
    requires Traffic(s, msgs) && Schedule(msgs, turns) && InTurn(msgs, turns) && NeverFull(s, msgs, turns)
    requires AllSent(msgs, turns)
    ensures var (s', out) := Run(s, Air(msgs, turns));
      && Delivered(out) == Expected(msgs, turns)
      && multiset(Delivered(out)) == multiset(Pairs(msgs))
      && (forall k | 0 <= k < |msgs| :: !Present(s'.queue, msgs[k].src, msgs[k].id))
      && ForeignKept(s.queue, s'.queue)
  {
    Progress(s, msgs, turns);
    ExpectedIsFinished(msgs, turns);
    AllFinished(msgs, turns, |msgs|);
    assert msgs[..|msgs|] == msgs;
    NothingHeld(Run(s, Air(msgs, turns)).0.queue, msgs, turns);
  }

  // ----- other events in between -----

  predicate NoLists(events: seq<Input>) {
    forall i | 0 <= i < |events| :: !events[i].Whitelist?
  }

  // The packets of listed sources, acknowledgements left out.
  function Admitted(list: NodeList, events: seq<Input>): seq<Input> {
    if events == [] then []
    else
      var n := |events| - 1;
      Admitted(list, events[..n]) + if Relevant(list, events[n]) then [events[n]] else []
  }

  predicate Relevant(list: NodeList, e: Input) {
    e.Radio? && e.src in list && !e.packet.isAck
  }

  predicate SameDelivery(r: (Machine, seq<Output>), r': (Machine, seq<Output>)) {
    r.0.queue == r'.0.queue && r.0.whitelist == r'.0.whitelist && Delivered(r.1) == Delivered(r'.1)
  }

  lemma RunSnoc(s: Machine, events: seq<Input>, e: Input)
    ensures var (s1, out1) := Run(s, events); var (s2, out2) := Step(s1, e);
      Run(s, events + [e]) == (s2, out1 + out2)
  {
    assert (events + [e])[..|events|] == events;
  }

  lemma AdmittedStep(r: (Machine, seq<Output>), r': (Machine, seq<Output>), e: Input)
    requires SameDelivery(r, r') && e.Radio? && e.src in r.0.whitelist
    ensures var (s1, out1) := Step(r.0, e); var (s2, out2) := Step(r'.0, e);
      SameDelivery((s1, r.1 + out1), (s2, r'.1 + out2)) && s1.whitelist == r.0.whitelist
  {
    DeliveredConcat(r.1, Step(r.0, e).1);
    DeliveredConcat(r'.1, Step(r'.0, e).1);
  }

  lemma NoiseStep(r: (Machine, seq<Output>), r': (Machine, seq<Output>), e: Input)
    requires SameDelivery(r, r') && !e.Whitelist? && !Relevant(r.0.whitelist, e)
    ensures var (s1, out1) := Step(r.0, e);
      SameDelivery((s1, r.1 + out1), r') && s1.whitelist == r.0.whitelist
  {
    var out1 := Step(r.0, e).1;
    DeliveredConcat(r.1, out1);
    assert Delivered(out1) == [] by { assert out1 == [] || out1[..0] == []; }
  }

  // Packets of sources that are not listed, acknowledgements and status reports
  // have no influence on the queue and on what is delivered.
  lemma {:induction false} NoiseHarmless(s: Machine, events: seq<Input>)
    requires NoLists(events)
    ensures SameDelivery(Run(s, events), Run(s, Admitted(s.whitelist, events)))
    ensures Run(s, events).0.whitelist == s.whitelist
  {
    if events != [] {
      var n := |events| - 1;
      var before, e := events[..n], events[n];
      NoiseHarmless(s, before);
      var admitted := Admitted(s.whitelist, before);
      assert events == before + [e];
      RunSnoc(s, before, e);
      if Relevant(s.whitelist, e) {
        AdmittedStep(Run(s, before), Run(s, admitted), e);
        RunSnoc(s, admitted, e);
        assert Admitted(s.whitelist, events) == admitted + [e];
      } else {
        assert Admitted(s.whitelist, events) == admitted;
        NoiseStep(Run(s, before), Run(s, admitted), e);
      }
    }
  }

  // So the delivery theorem holds with any such events in between.
  lemma EachMessageOnceAmidNoise(s: Machine, msgs: seq<Message>, turns: seq<Turn>, events: seq<Input>)
    requires Traffic(s, msgs) && Schedule(msgs, turns) && InTurn(msgs, turns) && AlwaysRoom(s, msgs, turns)
    requires AllSent(msgs, turns)
    requires NoLists(events) && Admitted(s.whitelist, events) == Air(msgs, turns)
    ensures var (s', out) := Run(s, events);
      && Delivered(out) == Expected(msgs, turns)
      && multiset(Delivered(out)) == multiset(Pairs(msgs))
      && (forall k | 0 <= k < |msgs| :: !Present(s'.queue, msgs[k].src, msgs[k].id))
      && ForeignKept(s.queue, s'.queue)
  {
    NeverFullIff(s, msgs, turns);
    NoiseHarmless(s, events);
    EachMessageOnce(s, msgs, turns);
  }

  // ----- when the queue fills up -----

  function Occupied(q: seq<Slot>): set<nat> {
    set i: nat | i < |q| && q[i] != FREE
  }

  lemma {:induction false} FullWhenAllOccupied(n: nat, s: set<nat>)
    requires forall i: nat :: i in s <==> i < n
    ensures |s| == n
  {
    if n > 0 {
      FullWhenAllOccupied(n - 1, s - {n - 1});
    } else {
      assert s == {};
    }
  }

  lemma RoomIfSparse(q: seq<Slot>)
    requires forall s | s in q :: SlotOk(s)
    requires |Occupied(q)| < |q|
    ensures HasRoom(q)
  {
    if FirstFree(q) == |q| {
      assert forall i: nat :: i in Occupied(q) <==> i < |q|;
      FullWhenAllOccupied(|q|, Occupied(q));
    }
  }

  lemma {:induction false} SubsetSize(a: set<nat>, b: set<nat>)
    requires a <= b
    ensures |a| <= |b|
  {
    if a != {} {
      var x :| x in a;
      SubsetSize(a - {x}, b - {x});
    }
  }

  function MineSlots(q: seq<Slot>, m: Message): set<nat> {
    set i: nat | i < |q| && Mine(q[i], m)
  }

  // A message with n pending fragments takes n slots.
  lemma {:induction false} HeldCount(q: seq<Slot>, m: Message, n: nat)
    requires Fits(m) && n <= FragmentCount(m.body) && Holds(q, m, n)
    ensures |MineSlots(q, m)| == n
    decreases n
  {
    if n == 0 {
      assert MineSlots(q, m) == {};
    } else {
      assert HoldsFragment(q, m, n - 1);
      var i :| 0 <= i < |q| && Mine(q[i], m) && q[i].packet.offset == PAYLOAD_SIZE * (n - 1);
      var q' := q[i := FREE];
      OneLess(q, m, n, i);
      HeldCount(q', m, n - 1);
      MineRemoved(q, m, i);
    }
  }

  lemma MineRemoved(q: seq<Slot>, m: Message, i: nat)
    requires Fits(m) && i < |q| && Mine(q[i], m)
    ensures |MineSlots(q, m)| == |MineSlots(q[i := FREE], m)| + 1
  {
    assert MineSlots(q, m) == MineSlots(q[i := FREE], m) + {i};
  }

  lemma OneLess(q: seq<Slot>, m: Message, n: nat, i: nat)
    requires Fits(m) && 0 < n <= FragmentCount(m.body) && Holds(q, m, n)
    requires i < |q| && Mine(q[i], m) && q[i].packet.offset == PAYLOAD_SIZE * (n - 1)
    ensures Holds(q[i := FREE], m, n - 1)
  {
    var q' := q[i := FREE];
    forall x | 0 <= x < |q| && Mine(q'[x], m) ensures q'[x].packet.offset / PAYLOAD_SIZE < n - 1 {
      assert q'[x] == q[x] && x != i;
      var j := q[x].packet.offset / PAYLOAD_SIZE;
      assert q[x].packet == Fragment(m.body, m.id, j) && q[x].packet.offset == PAYLOAD_SIZE * j;
    }
    forall j | 0 <= j < n - 1 ensures HoldsFragment(q', m, j) {
      assert HoldsFragment(q, m, j);
      var x :| 0 <= x < |q| && Mine(q[x], m) && q[x].packet.offset == PAYLOAD_SIZE * j;
      assert Mine(q'[x], m);
    }
  }

  lemma OccupiedStep(q: seq<Slot>, q': seq<Slot>, m: Message)
    requires Fits(m) && OnlyMineChanged(q, q', m)
    ensures |Occupied(q')| + |MineSlots(q, m)| == |Occupied(q)| + |MineSlots(q', m)|
  {
    assert MineSlots(q, m) <= Occupied(q) && MineSlots(q', m) <= Occupied(q');
    assert Occupied(q) - MineSlots(q, m) == Occupied(q') - MineSlots(q', m);
    assert |Occupied(q) - MineSlots(q, m)| == |Occupied(q)| - |MineSlots(q, m)|;
    assert |Occupied(q') - MineSlots(q', m)| == |Occupied(q')| - |MineSlots(q', m)|;
  }

  // The pending fragments of the first n messages.
  function Load(msgs: seq<Message>, turns: seq<Turn>, n: nat): nat
    requires n <= |msgs| && forall k | 0 <= k < |msgs| :: Fits(msgs[k])
  {
    if n == 0 then 0 else Load(msgs, turns, n - 1) + PendingOf(msgs, turns, n - 1)
  }

  lemma {:induction false} LoadStep(msgs: seq<Message>, turns: seq<Turn>, n: nat)
    requires n <= |msgs| && (forall k | 0 <= k < |msgs| :: Fits(msgs[k]))
    requires turns != [] && turns[|turns| - 1].stream < |msgs|
    ensures var before, k := turns[..|turns| - 1], turns[|turns| - 1].stream;
      Load(msgs, turns, n) + (if k < n then PendingOf(msgs, before, k) else 0)
      == Load(msgs, before, n) + (if k < n then PendingOf(msgs, turns, k) else 0)
  {
    if n > 0 {
      LoadStep(msgs, turns, n - 1);
    }
  }

  lemma {:induction false} LoadStart(msgs: seq<Message>, n: nat)
    requires n <= |msgs| && (forall k | 0 <= k < |msgs| :: Fits(msgs[k]))
    ensures Load(msgs, [], n) == 0
  {
    if n > 0 {
      LoadStart(msgs, n - 1);
    }
  }

  lemma TurnLoad(q: seq<Slot>, msgs: seq<Message>, turns: seq<Turn>)
    requires Schedule(msgs, turns) && InTurn(msgs, turns) && turns != []
    requires Schedule(msgs, turns[..|turns| - 1]) && turns[|turns| - 1].stream < |msgs|
    requires AllHeld(q, msgs, turns[..|turns| - 1]) && RoomForTurn(q, msgs, turns) && forall s | s in q :: SlotOk(s)
    ensures var n := |turns| - 1; var before, k := turns[..n], turns[n].stream; var m := msgs[k];
      && Sent(before, k) < FragmentCount(m.body) && 0 < turns[n].now < TIME_LIMIT
      && var q2 := Parse(q, m.src, Fragment(m.body, m.id, Sent(before, k)), turns[n].now).0;
         |Occupied(q2)| + Load(msgs, before, |msgs|) == |Occupied(q)| + Load(msgs, turns, |msgs|)
  {
    TurnHandled(q, msgs, turns);
    var n := |turns| - 1;
    var before, k := turns[..n], turns[n].stream;
    var m := msgs[k];
    var q2 := Parse(q, m.src, Fragment(m.body, m.id, Sent(before, k)), turns[n].now).0;
    HeldCount(q, m, PendingOf(msgs, before, k));
    HeldCount(q2, m, PendingOf(msgs, turns, k));
    OccupiedStep(q, q2, m);
    LoadStep(msgs, turns, |msgs|);
  }

  // The occupied slots are those from before and the pending fragments.
  lemma {:induction false} OccupiedIs(s: Machine, msgs: seq<Message>, turns: seq<Turn>)
    requires Traffic(s, msgs) && Schedule(msgs, turns) && InTurn(msgs, turns) && NeverFull(s, msgs, turns)
    ensures |Occupied(Run(s, Air(msgs, turns)).0.queue)| == |Occupied(s.queue)| + Load(msgs, turns, |msgs|)
  {
    if turns == [] {
      LoadStart(msgs, |msgs|);
    } else {
      SchedulePrefix(msgs, turns);
      var n := |turns| - 1;
      var before := turns[..n];
      OccupiedIs(s, msgs, before);
      Progress(s, msgs, before);
      TurnLoad(Run(s, Air(msgs, before)).0.queue, msgs, turns);
      TurnStep(Run(s, Air(msgs, before)).0, msgs, turns);
      assert Air(msgs, turns)[..n] == Air(msgs, before);
    }
  }

  predicate RoomBefore(s: Machine, msgs: seq<Message>, turns: seq<Turn>)
    requires forall k | 0 <= k < |msgs| :: Fits(msgs[k])
  {
    |Occupied(s.queue)| + Load(msgs, turns, |msgs|) < |s.queue|
  }

  lemma RoomIff(q: seq<Slot>)
    requires forall s | s in q :: SlotOk(s)
    ensures HasRoom(q) == (|Occupied(q)| < |q|)
  {
    if |Occupied(q)| < |q| {
      RoomIfSparse(q);
    } else if HasRoom(q) {
      var f, all := FirstFree(q), Interval(0, |q|);
      assert q[f] in q && q[f] == FREE;
      assert Occupied(q) <= all - {f};
      SubsetSize(Occupied(q), all - {f});
    }
  }

  // Turn n, which follows the turns before, finds room if it needs any.
  predicate RoomAt(s: Machine, msgs: seq<Message>, turns: seq<Turn>, n: nat)
    requires n < |turns| && forall k | 0 <= k < |msgs| :: Fits(msgs[k])
  {
    StoringTurn(msgs, turns[..n], turns[n].stream) ==> RoomBefore(s, msgs, turns[..n])
  }

  // Before every turn that stores a fragment the slots occupied from the start
  // and the fragments then pending leave a free one.
  predicate AlwaysRoom(s: Machine, msgs: seq<Message>, turns: seq<Turn>)
    requires forall k | 0 <= k < |msgs| :: Fits(msgs[k])
  {
    forall n | 0 <= n < |turns| :: RoomAt(s, msgs, turns, n)
  }

  lemma AlwaysRoomSnoc(s: Machine, msgs: seq<Message>, turns: seq<Turn>)
    requires turns != [] && forall k | 0 <= k < |msgs| :: Fits(msgs[k])
    ensures AlwaysRoom(s, msgs, turns)
         == (AlwaysRoom(s, msgs, turns[..|turns| - 1]) && RoomAt(s, msgs, turns, |turns| - 1))
  {
    var m: nat := |turns| - 1;
    var before := turns[..m];
    forall n | 0 <= n < m ensures RoomAt(s, msgs, before, n) == RoomAt(s, msgs, turns, n) {
      assert before[..n] == turns[..n];
    }
    if AlwaysRoom(s, msgs, turns) {
      forall n | 0 <= n < m ensures RoomAt(s, msgs, before, n) {
        assert RoomAt(s, msgs, turns, n);
      }
    }
    if AlwaysRoom(s, msgs, before) && RoomAt(s, msgs, turns, m) {
      forall n | 0 <= n < |turns| ensures RoomAt(s, msgs, turns, n) {
        if n < m {
          assert RoomAt(s, msgs, before, n);
        }
      }
    }
  }

  lemma RoomNow(s: Machine, msgs: seq<Message>, turns: seq<Turn>)
    requires Traffic(s, msgs) && Schedule(msgs, turns) && InTurn(msgs, turns) && NeverFull(s, msgs, turns)
    ensures HasRoom(Run(s, Air(msgs, turns)).0.queue) == RoomBefore(s, msgs, turns)
  {
    OccupiedIs(s, msgs, turns);
    Progress(s, msgs, turns);
    RoomIff(Run(s, Air(msgs, turns)).0.queue);
  }

  // Exactly then the queue never fills up.
  lemma {:induction false} NeverFullIff(s: Machine, msgs: seq<Message>, turns: seq<Turn>)
    requires Traffic(s, msgs) && Schedule(msgs, turns) && InTurn(msgs, turns)
    ensures NeverFull(s, msgs, turns) == AlwaysRoom(s, msgs, turns)
  {
    if turns != [] {
      SchedulePrefix(msgs, turns);
      var before := turns[..|turns| - 1];
      NeverFullIff(s, msgs, before);
      AlwaysRoomSnoc(s, msgs, turns);
      if NeverFull(s, msgs, before) {
        RoomNow(s, msgs, before);
      }
    }
  }

  lemma {:induction false} LoadBound(msgs: seq<Message>, turns: seq<Turn>)
    requires Schedule(msgs, turns)
    ensures Load(msgs, turns, |msgs|) <= |turns|
  {
    if turns == [] {
      LoadStart(msgs, |msgs|);
    } else {
      SchedulePrefix(msgs, turns);
      LoadBound(msgs, turns[..|turns| - 1]);
      LoadStep(msgs, turns, |msgs|);
    }
  }

  lemma {:induction false} ScheduleUpTo(msgs: seq<Message>, turns: seq<Turn>, n: nat)
    requires Schedule(msgs, turns) && n <= |turns|
    ensures Schedule(msgs, turns[..n])
    decreases |turns|
  {
    if n == |turns| {
      assert turns[..n] == turns;
    } else {
      SchedulePrefix(msgs, turns);
      assert turns[..|turns| - 1][..n] == turns[..n];
      ScheduleUpTo(msgs, turns[..|turns| - 1], n);
    }
  }

  // In particular a queue with a slot for every fragment of the traffic.
  lemma EnoughSlots(s: Machine, msgs: seq<Message>, turns: seq<Turn>)
    requires Traffic(s, msgs) && Schedule(msgs, turns) && InTurn(msgs, turns)
    requires |Occupied(s.queue)| + |turns| <= |s.queue|
    ensures NeverFull(s, msgs, turns)
  {
    forall n | 0 <= n < |turns| ensures RoomAt(s, msgs, turns, n) {
      ScheduleUpTo(msgs, turns, n);
      LoadBound(msgs, turns[..n]);
    }
    NeverFullIff(s, msgs, turns);
  }
}

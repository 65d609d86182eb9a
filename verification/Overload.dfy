// What a full queue costs: runs of fragment streams without any assumption
// about free slots.
module Overload {
  import opened Memory
  import opened Packets
  import opened PacketQueue
  import opened Coverage
  import opened NodeLists
  import opened Transceiver
  import opened Delivery

  // No empty last fragment.
  predicate Ragged(m: Message) {
    |m.body| % PAYLOAD_SIZE != 0
  }

  predicate AllRagged(msgs: seq<Message>) {
    forall k | 0 <= k < |msgs| :: Ragged(msgs[k])
  }

  lemma RaggedLast(m: Message)
    requires Fits(m) && Ragged(m)
    ensures FragmentCount(m.body) == LastIndex(m.body) + 1
  {
  }

  // The queue holds some of the fragments 0 to n - 1 of the message, at most
  // once each.
  predicate PartHolds(q: seq<Slot>, m: Message, n: nat)
    requires Fits(m) && n <= FragmentCount(m.body)
  {
    && (forall i | 0 <= i < |q| && Mine(q[i], m) ::
          q[i].packet.offset / PAYLOAD_SIZE < n
          && q[i].packet == Fragment(m.body, m.id, q[i].packet.offset / PAYLOAD_SIZE))
    && (forall i, j | 0 <= i < j < |q| && Mine(q[i], m) && Mine(q[j], m) ::
          q[i].packet.offset != q[j].packet.offset)
  }

  // Every slot is as it was, or free, or a new one of the message.
  predicate Shrinks(q: seq<Slot>, q': seq<Slot>, m: Message) {
    |q'| == |q| && forall i | 0 <= i < |q| :: q'[i] == q[i] || q'[i] == FREE || Mine(q'[i], m)
  }

  // No slot of the message is new.
  predicate Fewer(q: seq<Slot>, q': seq<Slot>, m: Message) {
    |q'| == |q| && forall i | 0 <= i < |q| && Mine(q'[i], m) :: q'[i] == q[i]
  }

  lemma FewerPart(q: seq<Slot>, q': seq<Slot>, m: Message, n: nat)
    requires Fits(m) && n <= FragmentCount(m.body) && Fewer(q, q', m) && PartHolds(q, m, n)
    ensures PartHolds(q', m, n)
  {
  }

  lemma FewerMissing(q: seq<Slot>, q': seq<Slot>, m: Message, j: nat)
    requires Fewer(q, q', m) && !HoldsFragment(q, m, j)
    ensures !HoldsFragment(q', m, j)
  {
  }

  lemma ShrinksFewer(q: seq<Slot>, q': seq<Slot>, m: Message, other: Message)
    requires Shrinks(q, q', m) && Fits(other) && !SameKey(m, other)
    ensures Fewer(q, q', other)
  {
  }

  // ----- one fragment arrives -----

  // With a free slot it is stored.
  lemma StorePart(q: seq<Slot>, m: Message, n: nat, now: int)
    requires forall s | s in q :: SlotOk(s)
    requires Fits(m) && n < FragmentCount(m.body) && PartHolds(q, m, n) && HasRoom(q)
    ensures var q' := Added(q, Fragment(m.body, m.id, n), m.src, now);
      && Shrinks(q, q', m) && PartHolds(q', m, n + 1)
      && forall j: nat | j < n && !HoldsFragment(q, m, j) :: !HoldsFragment(q', m, j)
  {
    var f, p := FirstFree(q), Fragment(m.body, m.id, n);
    assert q[f] in q && q[f] == FREE;
    assert p.offset == PAYLOAD_SIZE * n && p.offset / PAYLOAD_SIZE == n;
    var q' := q[f := Slot(m.src, p, now)];
    assert forall i | 0 <= i < |q| && i != f :: q'[i] == q[i];
  }

  // Without one it is dropped, and what the queue loses leaves less of every
  // message.
  lemma DropPart(q: seq<Slot>, m: Message, n: nat, now: int)
    requires Fits(m) && n < FragmentCount(m.body) && PartHolds(q, m, n) && !HasRoom(q)
    ensures var q' := Added(q, Fragment(m.body, m.id, n), m.src, now);
      && Shrinks(q, q', m) && PartHolds(q', m, n + 1) && !HoldsFragment(q', m, n)
      && forall j: nat | j < n && !HoldsFragment(q, m, j) :: !HoldsFragment(q', m, j)
  {
    var q' := Added(q, Fragment(m.body, m.id, n), m.src, now);
    assert forall i | 0 <= i < |q| :: q'[i] == q[i] || q'[i] == FREE;
    FewerPart(q, q', m, n);
  }

  lemma PartsArePieces(q: seq<Slot>, m: Message, n: nat)
    requires Fits(m) && n <= FragmentCount(m.body) && PartHolds(q, m, n)
    ensures CutFrom(q, m.src, m.id, m.body) && PairwiseApart(q, m.src, m.id)
  {
    forall i | 0 <= i < |q| && Mine(q[i], m) ensures FragmentOf(q[i].packet, m.body) && OwnFragment(q[i].packet, m) {
      FragmentIsPiece(m, q[i].packet.offset / PAYLOAD_SIZE);
    }
    forall i, j | 0 <= i < j < |q| && Mine(q[i], m) && Mine(q[j], m) ensures Apart(q[i].packet, q[j].packet) {
      OwnFragmentsApart(m, q[i].packet, q[j].packet);
    }
  }

  // With a fragment missing the message is not complete.
  lemma MissingIsHole(q: seq<Slot>, m: Message, n: nat, j: nat)
    requires Fits(m) && n <= FragmentCount(m.body) && PartHolds(q, m, n)
    requires j <= LastIndex(m.body) && !HoldsFragment(q, m, j)
    ensures !Complete(q, m.src, m.id, |m.body|)
  {
    var x := PAYLOAD_SIZE * j;
    assert x < |m.body|;
    forall i | 0 <= i < |q| && Mine(q[i], m)
      ensures !(q[i].packet.offset <= x < q[i].packet.offset + q[i].packet.dataSize)
    {
      var j' := q[i].packet.offset / PAYLOAD_SIZE;
      assert q[i].packet == Fragment(m.body, m.id, j') && q[i].packet.offset == PAYLOAD_SIZE * j';
      assert j' != j;
    }
    assert !Covers(q, m.src, m.id, x);
  }

  // The merge frees all slots of the message and succeeds only if nothing is
  // missing.
  lemma MergePart(q: seq<Slot>, m: Message)
    requires WellFormed(q) && Fits(m) && PartHolds(q, m, FragmentCount(m.body))
    ensures var r := Collect(q, m.src, m.id, DATA_BUFFER_SIZE);
      && Shrinks(q, r.queue, m) && PartHolds(r.queue, m, 0)
      && forall j: nat | j <= LastIndex(m.body) && !HoldsFragment(q, m, j) :: !Succeeded(r)
  {
    PartsArePieces(q, m, FragmentCount(m.body));
    CollectIffComplete(q, m.src, m.id, m.body, DATA_BUFFER_SIZE);
    forall j: nat | j <= LastIndex(m.body) && !HoldsFragment(q, m, j)
      ensures !Succeeded(Collect(q, m.src, m.id, DATA_BUFFER_SIZE))
    {
      MissingIsHole(q, m, FragmentCount(m.body), j);
    }
  }

  // Fragment j has been sent but is not in the queue.
  predicate Missing(q: seq<Slot>, m: Message, n: nat, j: nat) {
    j < n && !HoldsFragment(q, m, j)
  }

  // What the arrival of fragment n does in any case: a message comes out only
  // with the last fragment, and only if none is missing then.
  predicate HandledAnyhow(q: seq<Slot>, m: Message, n: nat, r: (seq<Slot>, seq<Output>))
    requires Fits(m) && n < FragmentCount(m.body)
  {
    && Shrinks(q, r.0, m)
    && PartHolds(r.0, m, Pending(m, n + 1))
    && |Delivered(r.1)| <= (if n == LastIndex(m.body) then 1 else 0)
    && (forall j: nat | j < n && Missing(q, m, n, j) ::
          if n == LastIndex(m.body) then Delivered(r.1) == [] else Missing(r.0, m, n + 1, j))
    && (Stores(m, n) && !HasRoom(q) ==>
          if n == LastIndex(m.body) then Delivered(r.1) == [] else Missing(r.0, m, n + 1, n))
  }

  lemma DeliveredOne(o: Output)
    ensures |Delivered([o])| <= 1 && Delivered([]) == []
  {
    assert [o][..0] == [];
  }

  lemma ArrivesEarly(q: seq<Slot>, m: Message, n: nat, now: int)
    requires forall s | s in q :: SlotOk(s)
    requires Fits(m) && Ragged(m) && n < LastIndex(m.body) && PartHolds(q, m, n)
    requires 0 < now < TIME_LIMIT
    ensures HandledAnyhow(q, m, n, Parse(q, m.src, Fragment(m.body, m.id, n), now))
  {
    FragmentKind(m, n);
    if HasRoom(q) {
      StorePart(q, m, n, now);
    } else {
      DropPart(q, m, n, now);
    }
  }

  lemma ArrivesLast(q: seq<Slot>, m: Message, n: nat, now: int)
    requires forall s | s in q :: SlotOk(s)
    requires Fits(m) && Ragged(m) && n == LastIndex(m.body) && |m.body| > PAYLOAD_SIZE && PartHolds(q, m, n)
    requires 0 < now < TIME_LIMIT
    ensures HandledAnyhow(q, m, n, Parse(q, m.src, Fragment(m.body, m.id, n), now))
  {
    FragmentKind(m, n);
    RaggedLast(m);
    var p := Fragment(m.body, m.id, n);
    if HasRoom(q) {
      StorePart(q, m, n, now);
    } else {
      DropPart(q, m, n, now);
    }
    AddedOk(q, p, m.src, now);
    var q1 := Added(q, p, m.src, now);
    MergePart(q1, m);
    var r := Collect(q1, m.src, m.id, DATA_BUFFER_SIZE);
    DeliveredOne(Forwarded(m.src, r.buffer[..r.size], r.timestamp));
  }

  lemma ArrivesAlone(q: seq<Slot>, m: Message, now: int)
    requires forall s | s in q :: SlotOk(s)
    requires Fits(m) && Ragged(m) && |m.body| <= PAYLOAD_SIZE && PartHolds(q, m, 0) && 0 < now < TIME_LIMIT
    ensures HandledAnyhow(q, m, 0, Parse(q, m.src, Fragment(m.body, m.id, 0), now))
  {
    FragmentKind(m, 0);
    var p := Fragment(m.body, m.id, 0);
    DeliveredOne(Forwarded(m.src, p.data[..p.dataSize], now));
  }

  lemma ArrivesAnyhow(q: seq<Slot>, m: Message, n: nat, now: int)
    requires forall s | s in q :: SlotOk(s)
    requires Fits(m) && Ragged(m) && n < FragmentCount(m.body) && PartHolds(q, m, Pending(m, n))
    requires 0 < now < TIME_LIMIT
    ensures HandledAnyhow(q, m, n, Parse(q, m.src, Fragment(m.body, m.id, n), now))
  {
    RaggedLast(m);
    if n < LastIndex(m.body) {
      ArrivesEarly(q, m, n, now);
    } else if |m.body| > PAYLOAD_SIZE {
      ArrivesLast(q, m, n, now);
    } else {
      ArrivesAlone(q, m, now);
    }
  }

  // ----- whole runs -----

  predicate AllPart(q: seq<Slot>, msgs: seq<Message>, turns: seq<Turn>)
    requires Schedule(msgs, turns)
  {
    forall k | 0 <= k < |msgs| :: Busy(msgs, turns, k) || PartHolds(q, msgs[k], PendingOf(msgs, turns, k))
  }

  lemma SameKeyPart(q: seq<Slot>, m: Message, m': Message)
    requires Fits(m) && Fits(m') && SameKey(m, m') && PartHolds(q, m, 0)
    ensures PartHolds(q, m', 0)
  {
  }

  lemma PartStep(q: seq<Slot>, q': seq<Slot>, msgs: seq<Message>, turns: seq<Turn>)
    requires Schedule(msgs, turns) && turns != [] && Schedule(msgs, turns[..|turns| - 1])
    requires InTurn(msgs, turns) && AllPart(q, msgs, turns[..|turns| - 1])
    requires turns[|turns| - 1].stream < |msgs|
    requires var k := turns[|turns| - 1].stream;
      Shrinks(q, q', msgs[k]) && PartHolds(q', msgs[k], PendingOf(msgs, turns, k))
    ensures AllPart(q', msgs, turns)
  {
    var k := turns[|turns| - 1].stream;
    TurnNotBusy(msgs, turns);
    forall j | 0 <= j < |msgs| ensures Busy(msgs, turns, j) || PartHolds(q', msgs[j], PendingOf(msgs, turns, j)) {
      if j != k && SameKey(msgs[j], msgs[k]) {
        if PendingOf(msgs, turns, k) > 0 {
          assert Busy(msgs, turns, j);
        } else {
          SameKeyPart(q', msgs[k], msgs[j]);
        }
      } else if j != k {
        OtherKeyPart(q, q', msgs, turns, j);
      }
    }
  }

  lemma OtherKeyPart(q: seq<Slot>, q': seq<Slot>, msgs: seq<Message>, turns: seq<Turn>, j: nat)
    requires Schedule(msgs, turns) && turns != [] && Schedule(msgs, turns[..|turns| - 1])
    requires AllPart(q, msgs, turns[..|turns| - 1])
    requires turns[|turns| - 1].stream < |msgs| && Shrinks(q, q', msgs[turns[|turns| - 1].stream])
    requires j < |msgs| && !SameKey(msgs[j], msgs[turns[|turns| - 1].stream])
    ensures Busy(msgs, turns, j) || PartHolds(q', msgs[j], PendingOf(msgs, turns, j))
  {
    var before, k := turns[..|turns| - 1], turns[|turns| - 1].stream;
    if Busy(msgs, before, j) {
      var i :| 0 <= i < |msgs| && i != j && SameKey(msgs[i], msgs[j]) && PendingOf(msgs, before, i) > 0;
      assert Sent(turns, i) == Sent(before, i);
      assert SameKey(msgs[i], msgs[j]) && PendingOf(msgs, turns, i) > 0;
    } else {
      assert PendingOf(msgs, turns, j) == PendingOf(msgs, before, j);
      ShrinksFewer(q, q', msgs[k], msgs[j]);
      FewerPart(q, q', msgs[j], PendingOf(msgs, before, j));
    }
  }

  // The messages among the first n whose last payload byte has been sent.
  function FinishedCount(msgs: seq<Message>, turns: seq<Turn>, n: nat): nat
    requires Schedule(msgs, turns) && n <= |msgs|
  {
    if n == 0 then 0
    else FinishedCount(msgs, turns, n - 1) + if Sent(turns, n - 1) > LastIndex(msgs[n - 1].body) then 1 else 0
  }

  lemma {:induction false} CountStep(msgs: seq<Message>, turns: seq<Turn>, n: nat)
    requires Schedule(msgs, turns) && turns != [] && n <= |msgs|
    requires Schedule(msgs, turns[..|turns| - 1]) && turns[|turns| - 1].stream < |msgs|
    ensures var before, k := turns[..|turns| - 1], turns[|turns| - 1].stream;
      FinishedCount(msgs, turns, n)
      == FinishedCount(msgs, before, n) + if k < n && Sent(before, k) == LastIndex(msgs[k].body) then 1 else 0
  {
    if n > 0 {
      var m: nat := n - 1;
      CountStep(msgs, turns, m);
    }
  }

  lemma {:induction false} CountAll(msgs: seq<Message>, turns: seq<Turn>, n: nat)
    requires Schedule(msgs, turns) && AllSent(msgs, turns) && n <= |msgs|
    ensures FinishedCount(msgs, turns, n) == n
  {
    if n > 0 {
      var m: nat := n - 1;
      CountAll(msgs, turns, m);
    }
  }

  // At most one output per finished message, in every run.
  predicate ReachedAnyhow(s: Machine, msgs: seq<Message>, turns: seq<Turn>, r: (Machine, seq<Output>))
    requires Schedule(msgs, turns)
  {
    && r.0.whitelist == s.whitelist && AllPart(r.0.queue, msgs, turns)
    && |Delivered(r.1)| <= FinishedCount(msgs, turns, |msgs|)
  }

  // The effect of a turn, given the state before it.
  lemma TurnAnyhow(r: (Machine, seq<Output>), msgs: seq<Message>, turns: seq<Turn>)
    requires Schedule(msgs, turns) && InTurn(msgs, turns) && AllRagged(msgs) && turns != []
    requires Schedule(msgs, turns[..|turns| - 1]) && turns[|turns| - 1].stream < |msgs|
    requires Sent(turns[..|turns| - 1], turns[|turns| - 1].stream) < FragmentCount(msgs[turns[|turns| - 1].stream].body)
    requires AllPart(r.0.queue, msgs, turns[..|turns| - 1]) && msgs[turns[|turns| - 1].stream].src in r.0.whitelist
    ensures var n := |turns| - 1; var before, k := turns[..n], turns[n].stream;
      var (s2, out2) := Step(r.0, Air(msgs, turns)[n]);
      && HandledAnyhow(r.0.queue, msgs[k], Sent(before, k), (s2.queue, out2))
      && s2.whitelist == r.0.whitelist && AllPart(s2.queue, msgs, turns)
      && Delivered(r.1 + out2) == Delivered(r.1) + Delivered(out2)
  {
    var n := |turns| - 1;
    var before, k := turns[..n], turns[n].stream;
    TurnStep(r.0, msgs, turns);
    TurnNotBusy(msgs, turns);
    assert !Busy(msgs, before, k);
    ArrivesAnyhow(r.0.queue, msgs[k], Sent(before, k), turns[n].now);
    var (s2, out2) := Step(r.0, Air(msgs, turns)[n]);
    PartStep(r.0.queue, s2.queue, msgs, turns);
    DeliveredConcat(r.1, out2);
  }

  lemma StartPart(s: Machine, msgs: seq<Message>)
    requires Traffic(s, msgs) && Schedule(msgs, [])
    ensures AllPart(s.queue, msgs, [])
  {
    forall k | 0 <= k < |msgs| ensures PartHolds(s.queue, msgs[k], PendingOf(msgs, [], k)) {
      assert !Present(s.queue, msgs[k].src, msgs[k].id);
    }
  }

  lemma {:induction false} RunAnyhow(s: Machine, msgs: seq<Message>, turns: seq<Turn>)
    requires Traffic(s, msgs) && Schedule(msgs, turns) && InTurn(msgs, turns) && AllRagged(msgs)
    ensures ReachedAnyhow(s, msgs, turns, Run(s, Air(msgs, turns)))
  {
    if turns == [] {
      StartPart(s, msgs);
    } else {
      SchedulePrefix(msgs, turns);
      var before := turns[..|turns| - 1];
      RunAnyhow(s, msgs, before);
      TurnAnyhow(Run(s, Air(msgs, before)), msgs, turns);
      CountStep(msgs, turns, |msgs|);
      assert Air(msgs, turns)[..|turns| - 1] == Air(msgs, before);
    }
  }

  // ----- a fragment that was dropped -----

  // Message k will not come out: fragment j of it has been sent and is gone.
  predicate Lost(q: seq<Slot>, msgs: seq<Message>, turns: seq<Turn>, k: nat, j: nat)
    requires Schedule(msgs, turns)
  {
    k < |msgs| && j <= LastIndex(msgs[k].body) && j < Sent(turns, k)
    && (Sent(turns, k) > LastIndex(msgs[k].body) || !HoldsFragment(q, msgs[k], j))
  }

  predicate ShortOf(out: seq<Output>, msgs: seq<Message>, turns: seq<Turn>, k: nat)
    requires Schedule(msgs, turns) && k < |msgs|
  {
    |Delivered(out)| + (if Sent(turns, k) > LastIndex(msgs[k].body) then 1 else 0)
    <= FinishedCount(msgs, turns, |msgs|)
  }

  lemma DroppedNow(r: (Machine, seq<Output>), msgs: seq<Message>, turns: seq<Turn>)
    requires Schedule(msgs, turns) && InTurn(msgs, turns) && AllRagged(msgs) && turns != []
    requires Schedule(msgs, turns[..|turns| - 1]) && turns[|turns| - 1].stream < |msgs|
    requires Sent(turns[..|turns| - 1], turns[|turns| - 1].stream) < FragmentCount(msgs[turns[|turns| - 1].stream].body)
    requires AllPart(r.0.queue, msgs, turns[..|turns| - 1]) && msgs[turns[|turns| - 1].stream].src in r.0.whitelist
    requires |Delivered(r.1)| <= FinishedCount(msgs, turns[..|turns| - 1], |msgs|)
    requires StoringTurn(msgs, turns[..|turns| - 1], turns[|turns| - 1].stream) && !HasRoom(r.0.queue)
    ensures var n := |turns| - 1; var k := turns[n].stream; var (s2, out2) := Step(r.0, Air(msgs, turns)[n]);
      Lost(s2.queue, msgs, turns, k, Sent(turns[..n], k)) && ShortOf(r.1 + out2, msgs, turns, k)
  {
    TurnAnyhow(r, msgs, turns);
    CountStep(msgs, turns, |msgs|);
    RaggedLast(msgs[turns[|turns| - 1].stream]);
  }

  lemma StaysLost(r: (Machine, seq<Output>), msgs: seq<Message>, turns: seq<Turn>, k: nat, j: nat)
    requires Schedule(msgs, turns) && InTurn(msgs, turns) && AllRagged(msgs) && turns != []
    requires Schedule(msgs, turns[..|turns| - 1]) && turns[|turns| - 1].stream < |msgs|
    requires Sent(turns[..|turns| - 1], turns[|turns| - 1].stream) < FragmentCount(msgs[turns[|turns| - 1].stream].body)
    requires AllPart(r.0.queue, msgs, turns[..|turns| - 1]) && msgs[turns[|turns| - 1].stream].src in r.0.whitelist
    requires Lost(r.0.queue, msgs, turns[..|turns| - 1], k, j) && ShortOf(r.1, msgs, turns[..|turns| - 1], k)
    ensures var (s2, out2) := Step(r.0, Air(msgs, turns)[|turns| - 1]);
      Lost(s2.queue, msgs, turns, k, j) && ShortOf(r.1 + out2, msgs, turns, k)
  {
    var n := |turns| - 1;
    var before, k' := turns[..n], turns[n].stream;
    var (s2, out2) := Step(r.0, Air(msgs, turns)[n]);
    TurnAnyhow(r, msgs, turns);
    CountStep(msgs, turns, |msgs|);
    if k' == k {
      RaggedLast(msgs[k]);
      assert Missing(r.0.queue, msgs[k], Sent(before, k), j);
    } else if Sent(before, k) <= LastIndex(msgs[k].body) {
      TurnNotBusy(msgs, turns);
      assert !SameKey(msgs[k], msgs[k']);
      ShrinksFewer(r.0.queue, s2.queue, msgs[k'], msgs[k]);
      FewerMissing(r.0.queue, s2.queue, msgs[k], j);
    }
  }

  // Turn t needs a free slot and finds none.
  predicate Overflows(s: Machine, msgs: seq<Message>, turns: seq<Turn>, t: nat)
    requires Schedule(msgs, turns)
  {
    t < |turns| && (ScheduleUpTo(msgs, turns, t); StoringTurn(msgs, turns[..t], turns[t].stream))
    && (ScheduleUpTo(msgs, turns, t); !HasRoom(Run(s, Air(msgs, turns[..t])).0.queue))
  }

  predicate Doomed(r: (Machine, seq<Output>), msgs: seq<Message>, turns: seq<Turn>, k: nat, j: nat)
    requires Schedule(msgs, turns)
  {
    Lost(r.0.queue, msgs, turns, k, j) && ShortOf(r.1, msgs, turns, k)
  }

  lemma DoomedNext(s: Machine, msgs: seq<Message>, turns: seq<Turn>, k: nat, j: nat)
    requires Traffic(s, msgs) && Schedule(msgs, turns) && InTurn(msgs, turns) && AllRagged(msgs)
    requires turns != [] && Schedule(msgs, turns[..|turns| - 1])
    requires Doomed(Run(s, Air(msgs, turns[..|turns| - 1])), msgs, turns[..|turns| - 1], k, j)
    ensures Doomed(Run(s, Air(msgs, turns)), msgs, turns, k, j)
  {
    SchedulePrefix(msgs, turns);
    var before := turns[..|turns| - 1];
    RunAnyhow(s, msgs, before);
    assert Air(msgs, turns)[..|turns| - 1] == Air(msgs, before);
    StaysLost(Run(s, Air(msgs, before)), msgs, turns, k, j);
  }

  lemma DoomedFirst(s: Machine, msgs: seq<Message>, turns: seq<Turn>)
    requires Traffic(s, msgs) && Schedule(msgs, turns) && InTurn(msgs, turns) && AllRagged(msgs)
    requires turns != [] && Overflows(s, msgs, turns, |turns| - 1)
    ensures var n := |turns| - 1; var k := turns[n].stream;
      Doomed(Run(s, Air(msgs, turns)), msgs, turns, k, Sent(turns[..n], k))
  {
    SchedulePrefix(msgs, turns);
    var before := turns[..|turns| - 1];
    RunAnyhow(s, msgs, before);
    assert Air(msgs, turns)[..|turns| - 1] == Air(msgs, before);
    DroppedNow(Run(s, Air(msgs, before)), msgs, turns);
  }

  // The run up to the overflow and the turns behind it.
  predicate LostAfter(s: Machine, msgs: seq<Message>, turns: seq<Turn>, t: nat) {
    && Schedule(msgs, turns) && t < |turns|
    && var k := turns[t].stream; Doomed(Run(s, Air(msgs, turns)), msgs, turns, k, Sent(turns[..t], k))
  }

  lemma OverflowBefore(s: Machine, msgs: seq<Message>, turns: seq<Turn>, t: nat, n: nat)
    requires Schedule(msgs, turns) && |turns| == n + 1 && t < n && Overflows(s, msgs, turns, t)
    requires InTurn(msgs, turns)
    ensures Schedule(msgs, turns[..n]) && Overflows(s, msgs, turns[..n], t) && InTurn(msgs, turns[..n])
  {
    SchedulePrefix(msgs, turns);
    assert turns[..n][..t] == turns[..t];
  }

  lemma LostFirst(s: Machine, msgs: seq<Message>, turns: seq<Turn>, t: nat)
    requires Traffic(s, msgs) && Schedule(msgs, turns) && InTurn(msgs, turns) && AllRagged(msgs)
    requires |turns| == t + 1 && Overflows(s, msgs, turns, t)
    ensures LostAfter(s, msgs, turns, t)
  {
    DoomedFirst(s, msgs, turns);
  }

  lemma LostNext(s: Machine, msgs: seq<Message>, turns: seq<Turn>, t: nat, n: nat)
    requires Traffic(s, msgs) && Schedule(msgs, turns) && InTurn(msgs, turns) && AllRagged(msgs)
    requires |turns| == n + 1 && LostAfter(s, msgs, turns[..n], t)
    ensures LostAfter(s, msgs, turns, t)
  {
    var k := turns[t].stream;
    assert turns[..n][..t] == turns[..t];
    DoomedNext(s, msgs, turns, k, Sent(turns[..t], k));
  }

  lemma {:induction false} LostForGood(s: Machine, msgs: seq<Message>, turns: seq<Turn>, t: nat)
    requires Traffic(s, msgs) && Schedule(msgs, turns) && InTurn(msgs, turns) && AllRagged(msgs)
    requires Overflows(s, msgs, turns, t)
    ensures LostAfter(s, msgs, turns, t)
    decreases |turns|
  {
    var n: nat := |turns| - 1;
    if t == n {
      LostFirst(s, msgs, turns, t);
    } else {
      OverflowBefore(s, msgs, turns, t, n);
      LostForGood(s, msgs, turns[..n], t);
      LostNext(s, msgs, turns, t, n);
    }
  }

  lemma {:induction false} OverflowExists(s: Machine, msgs: seq<Message>, turns: seq<Turn>) returns (t: nat)
    requires Schedule(msgs, turns) && !NeverFull(s, msgs, turns)
    ensures Overflows(s, msgs, turns, t)
    decreases |turns|
  {
    SchedulePrefix(msgs, turns);
    var n: nat := |turns| - 1;
    var before := turns[..n];
    if NeverFull(s, msgs, before) {
      t := n;
    } else {
      t := OverflowExists(s, msgs, before);
      assert before[..t] == turns[..t];
    }
  }

  lemma {:induction false} PairsLength(msgs: seq<Message>)
    ensures |Pairs(msgs)| == |msgs|
  {
    if msgs != [] {
      PairsLength(msgs[..|msgs| - 1]);
    }
  }

  // If a fragment finds the queue full, fewer messages come out than were sent.
  lemma OverflowLosesMessage(s: Machine, msgs: seq<Message>, turns: seq<Turn>, t: nat)
    requires Traffic(s, msgs) && Schedule(msgs, turns) && InTurn(msgs, turns) && AllSent(msgs, turns)
    requires AllRagged(msgs) && Overflows(s, msgs, turns, t)
    ensures |Delivered(Run(s, Air(msgs, turns)).1)| < |msgs|
  {
    LostForGood(s, msgs, turns, t);
    CountAll(msgs, turns, |msgs|);
    ScheduleUpTo(msgs, turns, t);
  }

  // So without empty last fragments every message is delivered exactly once if
  // and only if every fragment that needs a slot finds one.
  lemma DeliveredIffRoom(s: Machine, msgs: seq<Message>, turns: seq<Turn>)
    requires Traffic(s, msgs) && Schedule(msgs, turns) && InTurn(msgs, turns) && AllSent(msgs, turns)
    requires AllRagged(msgs)
    ensures multiset(Delivered(Run(s, Air(msgs, turns)).1)) == multiset(Pairs(msgs))
       <==> AlwaysRoom(s, msgs, turns)
  {
    NeverFullIff(s, msgs, turns);
    if AlwaysRoom(s, msgs, turns) {
      EachMessageOnce(s, msgs, turns);
    } else {
      var t := OverflowExists(s, msgs, turns);
      OverflowLosesMessage(s, msgs, turns, t);
      PairsLength(msgs);
      assert |multiset(Pairs(msgs))| == |msgs|;
      assert |multiset(Delivered(Run(s, Air(msgs, turns)).1))| < |msgs|;
    }
  }
}

// The flat slot array that holds fragments of unfinished messages
// (i8-transceiver.c). Each operation is an array method proved equal to a
// function on the sequence of slots; what the functions mean is stated by the
// lemmas at the end and in the modules Coverage and Delivery.
module PacketQueue {
  import opened Memory
  import opened Packets

  // clean_queue starts its search for the oldest slot from this time.
  const TIME_LIMIT := 2147483647

  datatype Slot = Slot(src: uint64, packet: Packet, timestamp: int)

  const FREE := Slot(0, ZERO_PACKET, 0)

  predicate Matches(s: Slot, src: uint64, id: uint8) {
    s.src == src && s.packet.packetId == id
  }

  predicate WellFormed(q: seq<Slot>) {
    forall s | s in q :: InRange(s.packet)
  }

  function FirstFree(q: seq<Slot>): (i: nat)
    ensures i <= |q|
    ensures forall k | 0 <= k < i :: q[k].timestamp != 0
    ensures i < |q| ==> q[i].timestamp == 0
  {
    if |q| == 0 || q[0].timestamp == 0 then 0 else 1 + FirstFree(q[1..])
  }

  lemma FirstFreeIs(q: seq<Slot>, i: nat)
    requires i <= |q| && (forall k | 0 <= k < i :: q[k].timestamp != 0)
    requires i < |q| ==> q[i].timestamp == 0
    ensures FirstFree(q) == i
  {
  }

  // A slot that the search for the oldest slot considers.
  predicate Candidate(s: Slot) {
    s.timestamp != 0 && s.timestamp < TIME_LIMIT
  }

  // The first slot with the least timestamp, or -1.
  function Oldest(q: seq<Slot>): (r: int)
    ensures -1 <= r < |q|
    ensures r == -1 <==> forall k | 0 <= k < |q| :: !Candidate(q[k])
    ensures r >= 0 ==> Candidate(q[r])
    ensures r >= 0 ==> forall k | 0 <= k < |q| && Candidate(q[k]) ::
              q[r].timestamp <= q[k].timestamp && (k < r ==> q[r].timestamp < q[k].timestamp)
  {
    if |q| == 0 then -1
    else
      var n := |q| - 1;
      var r := Oldest(q[..n]);
      var least := if r < 0 then TIME_LIMIT else q[r].timestamp;
      if q[n].timestamp != 0 && q[n].timestamp < least then n else r
  }

  function Removed(q: seq<Slot>, src: uint64, id: uint8): (r: seq<Slot>)
    ensures |r| == |q|
  {
    seq(|q|, i requires 0 <= i < |q| => if Matches(q[i], src, id) then FREE else q[i])
  }

  // With no candidate the C code indexes the array with -1; the methods
  // exclude that case.
  function Cleaned(q: seq<Slot>): (r: seq<Slot>)
    ensures |r| == |q|
  {
    var o := Oldest(q);
    if o < 0 then q else Removed(q, q[o].src, q[o].packet.packetId)
  }

  function Added(q: seq<Slot>, p: Packet, src: uint64, now: int): (r: seq<Slot>)
    ensures |r| == |q|
  {
    var f := FirstFree(q);
    if f < |q| then q[f := Slot(src, p, now)] else Cleaned(q)
  }

  // The state of the merge loop: size is the current value of
  // *data_buffer_size, found the byte count, tooBig the early return.
  datatype Merge = Merge(queue: seq<Slot>, buffer: string, size: nat, timestamp: int, found: nat, tooBig: bool)

  function MergeStep(m: Merge, i: nat, s: Slot, src: uint64, id: uint8): (r: Merge)
    requires i < |m.queue| && m.size <= |m.buffer| && InRange(s.packet)
    ensures |r.queue| == |m.queue| && |r.buffer| == |m.buffer| && r.size <= m.size
  {
    if m.tooBig || !Matches(s, src, id) then m
    else if m.size < s.packet.totalSize then Merge(m.queue, m.buffer, m.size, m.timestamp, m.found, true)
    else
      Merge(m.queue[i := FREE],
            Overwritten(m.buffer, s.packet.offset, s.packet.data[..s.packet.dataSize]),
            s.packet.totalSize,
            if m.timestamp == 0 then s.timestamp else m.timestamp,
            m.found + s.packet.dataSize,
            false)
  }

  // The merge loop after its first n slots, into a zeroed buffer of the given capacity.
  function MergeUpTo(q: seq<Slot>, n: nat, src: uint64, id: uint8, capacity: nat): (m: Merge)
    requires n <= |q| && WellFormed(q)
    ensures |m.queue| == |q| && |m.buffer| == capacity && m.size <= capacity
  {
    if n == 0 then Merge(q, Zeroed(capacity), capacity, 0, 0, false)
    else MergeStep(MergeUpTo(q, n - 1, src, id, capacity), n - 1, q[n - 1], src, id)
  }

  function Collect(q: seq<Slot>, src: uint64, id: uint8, capacity: nat): Merge
    requires WellFormed(q)
  {
    MergeUpTo(q, |q|, src, id, capacity)
  }

  // The return value 0 of collect_from_queue.
  predicate Succeeded(m: Merge) {
    !m.tooBig && m.found == m.size
  }

  lemma {:induction false} TooBigSticks(q: seq<Slot>, n: nat, k: nat, src: uint64, id: uint8, capacity: nat)
    requires n <= k <= |q| && WellFormed(q)
    requires MergeUpTo(q, n, src, id, capacity).tooBig
    ensures MergeUpTo(q, k, src, id, capacity) == MergeUpTo(q, n, src, id, capacity)
  {
    if n < k {
      TooBigSticks(q, n, k - 1, src, id, capacity);
    }
  }

  // Only slots of the key are freed; all of them are unless the merge stops.
  predicate FreedOnly(q: seq<Slot>, m: Merge, n: nat, src: uint64, id: uint8) {
    && |m.queue| == |q| && n <= |q|
    && (forall i | 0 <= i < |q| ::
          m.queue[i] == q[i] || (i < n && Matches(q[i], src, id) && m.queue[i] == FREE))
    && (!m.tooBig ==> forall i | 0 <= i < n :: Matches(q[i], src, id) ==> m.queue[i] == FREE)
  }

  lemma MergeStepFrees(q: seq<Slot>, m: Merge, n: nat, src: uint64, id: uint8)
    requires n < |q| && FreedOnly(q, m, n, src, id) && m.size <= |m.buffer| && InRange(q[n].packet)
    ensures FreedOnly(q, MergeStep(m, n, q[n], src, id), n + 1, src, id)
  {
  }

  lemma {:induction false} MergeFrame(q: seq<Slot>, n: nat, src: uint64, id: uint8, capacity: nat)
    requires n <= |q| && WellFormed(q)
    ensures FreedOnly(q, MergeUpTo(q, n, src, id, capacity), n, src, id)
  {
    if n > 0 {
      var k: nat := n - 1;
      var m := MergeUpTo(q, k, src, id, capacity);
      MergeFrame(q, k, src, id, capacity);
      MergeStepFrees(q, m, k, src, id);
      assert MergeUpTo(q, n, src, id, capacity) == MergeStep(m, k, q[k], src, id);
    }
  }

  predicate InSpan(p: Packet, x: nat) {
    p.offset <= x < p.offset + p.dataSize
  }

  // This slot puts this byte there.
  predicate Puts(s: Slot, src: uint64, id: uint8, x: nat, c: char) {
    Matches(s, src, id) && InRange(s.packet) && InSpan(s.packet, x) && s.packet.data[x - s.packet.offset] == c
  }

  predicate PutBy(q: seq<Slot>, i: nat, src: uint64, id: uint8, x: nat, c: char) {
    i < |q| && Puts(q[i], src, id, x, c)
  }

  lemma AddedSlot(q: seq<Slot>, p: Packet, src: uint64, now: int, i: nat)
    requires i < |q|
    ensures var q' := Added(q, p, src, now); q'[i] == q[i] || q'[i] == FREE || q'[i] == Slot(src, p, now)
  {
  }

  predicate StoredAt(q: seq<Slot>, q': seq<Slot>, i: nat, s: Slot) {
    i < |q| && i < |q'| && q[i] != s && q'[i] == s
  }

  predicate IsFree(q: seq<Slot>, i: nat) {
    i < |q| && q[i].timestamp == 0
  }

  // A packet is stored if and only if a slot is free.
  lemma StoredIff(q: seq<Slot>, p: Packet, src: uint64, now: int)
    requires now != 0
    ensures (exists i: nat :: StoredAt(q, Added(q, p, src, now), i, Slot(src, p, now)))
       <==> exists i: nat :: IsFree(q, i)
  {
    var s, f, q' := Slot(src, p, now), FirstFree(q), Added(q, p, src, now);
    if f < |q| {
      assert IsFree(q, f) && StoredAt(q, q', f, s);
    }
  }

  // Every byte of a merge is zero or comes from a slot of the key.
  lemma {:induction false} MergedByte(q: seq<Slot>, n: nat, src: uint64, id: uint8, capacity: nat, x: nat)
    requires n <= |q| && WellFormed(q) && x < capacity
    ensures var c := MergeUpTo(q, n, src, id, capacity).buffer[x];
      c == '\0' || exists i: nat :: PutBy(q, i, src, id, x, c)
  {
    if n > 0 {
      MergedByte(q, n - 1, src, id, capacity, x);
      var before, after := MergeUpTo(q, n - 1, src, id, capacity), MergeUpTo(q, n, src, id, capacity);
      if after.buffer[x] != before.buffer[x] {
        assert q[n - 1] in q;
        assert PutBy(q, n - 1, src, id, x, after.buffer[x]);
      }
    }
  }

  // The first slot of the key, among the first n, that is not empty.
  predicate FirstOfKey(q: seq<Slot>, n: nat, i: nat, src: uint64, id: uint8) {
    && i < n <= |q| && Matches(q[i], src, id) && q[i].timestamp != 0
    && forall k | 0 <= k < i && Matches(q[k], src, id) :: q[k].timestamp == 0
  }

  // A merge that is not broken off takes the time of that slot.
  lemma {:induction false} MergedTime(q: seq<Slot>, n: nat, src: uint64, id: uint8, capacity: nat)
    requires n <= |q| && WellFormed(q) && !MergeUpTo(q, n, src, id, capacity).tooBig
    ensures var time := MergeUpTo(q, n, src, id, capacity).timestamp;
      if forall k | 0 <= k < n && Matches(q[k], src, id) :: q[k].timestamp == 0 then time == 0
      else exists i: nat :: FirstOfKey(q, n, i, src, id) && time == q[i].timestamp
  {
    if n > 0 {
      var j: nat := n - 1;
      MergedTime(q, j, src, id, capacity);
      if forall k | 0 <= k < j && Matches(q[k], src, id) :: q[k].timestamp == 0 {
        assert Matches(q[j], src, id) && q[j].timestamp != 0 ==> FirstOfKey(q, n, j, src, id);
      } else {
        var i: nat :| FirstOfKey(q, j, i, src, id) && MergeUpTo(q, j, src, id, capacity).timestamp == q[i].timestamp;
        assert FirstOfKey(q, n, i, src, id);
      }
    }
  }

  // Without a slot of the key nothing is found.
  lemma {:induction false} MergedNothing(q: seq<Slot>, n: nat, src: uint64, id: uint8, capacity: nat)
    requires n <= |q| && WellFormed(q) && forall k | 0 <= k < n :: !Matches(q[k], src, id)
    ensures MergeUpTo(q, n, src, id, capacity) == Merge(q, Zeroed(capacity), capacity, 0, 0, false)
  {
    if n > 0 {
      var j: nat := n - 1;
      MergedNothing(q, j, src, id, capacity);
    }
  }

  // ----- the array methods -----

  method RemovePacket(queue: array<Slot>, src: uint64, id: uint8)
    modifies queue
    ensures queue[..] == Removed(old(queue[..]), src, id)
  {
    for i := 0 to queue.Length
      invariant forall k | 0 <= k < queue.Length ::
                  queue[k] == if k < i && Matches(old(queue[k]), src, id) then FREE else old(queue[k])
    {
      if Matches(queue[i], src, id) {
        queue[i] := FREE;
      }
    }
  }

  method CleanQueue(queue: array<Slot>)
    requires exists i | 0 <= i < queue.Length :: Candidate(queue[i])
    modifies queue
    ensures queue[..] == Cleaned(old(queue[..]))
  {
    var oldTimestamp := TIME_LIMIT;
    var oldIndex := -1;
    for i := 0 to queue.Length
      invariant oldIndex == Oldest(queue[..i])
      invariant oldTimestamp == if oldIndex < 0 then TIME_LIMIT else queue[oldIndex].timestamp
    {
      var timestamp := queue[i].timestamp;
      assert queue[..i + 1][..i] == queue[..i];
      if timestamp != 0 && timestamp < oldTimestamp {
        oldTimestamp := timestamp;
        oldIndex := i;
      }
    }
    assert queue[..queue.Length] == queue[..];
    RemovePacket(queue, queue[oldIndex].src, queue[oldIndex].packet.packetId);
  }

  // Returns 0 (here: nothing) even when the packet is not stored.
  method AddToQueue(queue: array<Slot>, packet: Packet, src: uint64, now: int)
    requires FirstFree(queue[..]) == queue.Length ==> exists i | 0 <= i < queue.Length :: Candidate(queue[i])
    modifies queue
    ensures queue[..] == Added(old(queue[..]), packet, src, now)
  {
    var packetSaved := false;
    var i := 0;
    while i < queue.Length && !packetSaved
      invariant 0 <= i <= queue.Length
      invariant forall k | 0 <= k < i :: old(queue[k]).timestamp != 0
      invariant if packetSaved
        then i < queue.Length && old(queue[i]).timestamp == 0
             && queue[..] == old(queue[..])[i := Slot(src, packet, now)]
        else queue[..] == old(queue[..])
      decreases queue.Length - i, !packetSaved
    {
      if queue[i].timestamp == 0 {
        queue[i] := Slot(src, packet, now);
        packetSaved := true;
      } else {
        i := i + 1;
      }
    }
    FirstFreeIs(old(queue[..]), i);
    if !packetSaved {
      CleanQueue(queue);
    }
  }

  method CollectFromQueue(queue: array<Slot>, id: uint8, src: uint64, dataBuffer: array<char>)
    returns (ok: bool, dataBufferSize: nat, timestamp: int)
    requires WellFormed(queue[..])
    modifies queue, dataBuffer
    ensures var m := Collect(old(queue[..]), src, id, dataBuffer.Length);
      && ok == Succeeded(m)
      && queue[..] == m.queue && dataBuffer[..] == m.buffer
      && dataBufferSize == m.size && timestamp == m.timestamp
  {
    ghost var q := queue[..];
    ghost var capacity := dataBuffer.Length;
    dataBufferSize := dataBuffer.Length;
    Clear(dataBuffer);
    timestamp := 0;
    var bytesFound: nat := 0;
    for i := 0 to queue.Length
      invariant MergeUpTo(q, i, src, id, capacity)
             == Merge(queue[..], dataBuffer[..], dataBufferSize, timestamp, bytesFound, false)
    {
      MergeFrame(q, i, src, id, capacity);
      assert queue[i] == queue[..][i] == q[i];
      var p := queue[i].packet;
      if Matches(queue[i], src, id) {
        if dataBufferSize < p.totalSize {
          TooBigSticks(q, i + 1, |q|, src, id, capacity);
          return false, dataBufferSize, timestamp;
        }
        CopyInto(dataBuffer, p.offset, p.data[..p.dataSize]);
        bytesFound := bytesFound + p.dataSize;
        if timestamp == 0 {
          timestamp := queue[i].timestamp;
        }
        dataBufferSize := p.totalSize;
        queue[i] := FREE;
      }
    }
    ok := bytesFound == dataBufferSize;
  }
}

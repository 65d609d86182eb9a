// collect_from_queue decides completeness by adding up byte counts. These
// lemmas say what that count establishes about the bytes themselves.
module Coverage {
  import opened Memory
  import opened Packets
  import opened PacketQueue

  predicate FragmentOf(p: Packet, message: string) {
    && p.totalSize == |message| && InRange(p)
    && p.data[..p.dataSize] == message[p.offset..p.offset + p.dataSize]
  }

  // Every slot of this key holds a piece of the one message.
  predicate CutFrom(q: seq<Slot>, src: uint64, id: uint8, message: string) {
    forall i | 0 <= i < |q| && Matches(q[i], src, id) :: FragmentOf(q[i].packet, message)
  }

  predicate Covers(q: seq<Slot>, src: uint64, id: uint8, x: nat) {
    exists i | 0 <= i < |q| ::
      Matches(q[i], src, id) && q[i].packet.offset <= x < q[i].packet.offset + q[i].packet.dataSize
  }

  predicate Complete(q: seq<Slot>, src: uint64, id: uint8, total: nat) {
    forall x: nat | x < total :: Covers(q, src, id, x)
  }

  predicate Apart(p: Packet, p': Packet) {
    p.dataSize == 0 || p'.dataSize == 0 || p.offset + p.dataSize <= p'.offset || p'.offset + p'.dataSize <= p.offset
  }

  predicate PairwiseApart(q: seq<Slot>, src: uint64, id: uint8) {
    forall i, j | 0 <= i < j < |q| && Matches(q[i], src, id) && Matches(q[j], src, id) ::
      Apart(q[i].packet, q[j].packet)
  }

  predicate Present(q: seq<Slot>, src: uint64, id: uint8) {
    exists i | 0 <= i < |q| :: Matches(q[i], src, id)
  }

  // {lo, ..., lo + n - 1}
  ghost function Interval(lo: nat, n: nat): (s: set<nat>)
    ensures |s| == n
    ensures forall x: nat :: x in s <==> lo <= x < lo + n
  {
    if n == 0 then {} else Interval(lo, n - 1) + {lo + n - 1}
  }

  ghost function Span(p: Packet): set<nat> {
    Interval(p.offset, p.dataSize)
  }

  ghost function Covered(q: seq<Slot>, src: uint64, id: uint8): set<nat> {
    if q == [] then {}
    else
      var n := |q| - 1;
      Covered(q[..n], src, id) + if Matches(q[n], src, id) then Span(q[n].packet) else {}
  }

  ghost function ByteCount(q: seq<Slot>, src: uint64, id: uint8): nat {
    if q == [] then 0
    else
      var n := |q| - 1;
      ByteCount(q[..n], src, id) + if Matches(q[n], src, id) then q[n].packet.dataSize else 0
  }

  lemma CoversLast(q: seq<Slot>, src: uint64, id: uint8, x: nat)
    requires q != []
    ensures var n := |q| - 1;
      Covers(q, src, id, x) == (Covers(q[..n], src, id, x) || (Matches(q[n], src, id) && x in Span(q[n].packet)))
  {
    var n := |q| - 1;
    assert forall i | 0 <= i < n :: q[..n][i] == q[i];
  }

  lemma {:induction false} CoveredIff(q: seq<Slot>, src: uint64, id: uint8, x: nat)
    ensures (x in Covered(q, src, id)) == Covers(q, src, id, x)
  {
    if q != [] {
      CoveredIff(q[..|q| - 1], src, id, x);
      CoversLast(q, src, id, x);
    }
  }

  lemma ApartIff(p: Packet, p': Packet)
    ensures Apart(p, p') <==> Span(p) !! Span(p')
  {
    if !Apart(p, p') {
      var x: nat := if p.offset <= p'.offset then p'.offset else p.offset;
      assert x in Span(p) && x in Span(p');
    }
  }

  // Disjointness from everything before is disjointness from what is covered before.
  lemma LastApartIff(q: seq<Slot>, src: uint64, id: uint8, p: Packet)
    ensures (forall i | 0 <= i < |q| && Matches(q[i], src, id) :: Apart(q[i].packet, p))
       <==> Covered(q, src, id) !! Span(p)
  {
    forall i | 0 <= i < |q| && Matches(q[i], src, id)
      ensures Apart(q[i].packet, p) <==> Span(q[i].packet) !! Span(p)
      ensures Span(q[i].packet) <= Covered(q, src, id)
    {
      ApartIff(q[i].packet, p);
      forall x | x in Span(q[i].packet) ensures x in Covered(q, src, id) {
        CoveredIff(q, src, id, x);
      }
    }
    forall x | x in Covered(q, src, id) * Span(p)
      ensures exists i | 0 <= i < |q| && Matches(q[i], src, id) :: !Apart(q[i].packet, p)
    {
      CoveredIff(q, src, id, x);
      var i :| 0 <= i < |q| && Matches(q[i], src, id) && x in Span(q[i].packet);
      assert x in Span(q[i].packet) * Span(p);
    }
  }

  lemma PairwiseApartLast(q: seq<Slot>, src: uint64, id: uint8)
    requires q != []
    ensures var n := |q| - 1;
      PairwiseApart(q, src, id) <==>
        PairwiseApart(q[..n], src, id)
        && (Matches(q[n], src, id) ==> Covered(q[..n], src, id) !! Span(q[n].packet))
  {
    var before, last := q[..|q| - 1], q[|q| - 1];
    assert forall i | 0 <= i < |before| :: before[i] == q[i];
    LastApartIff(before, src, id, last.packet);
  }

  lemma UnionSize(a: set<nat>, b: set<nat>)
    ensures |a + b| <= |a| + |b|
    ensures |a + b| == |a| + |b| <==> a !! b
  {
    assert |a + b| == |a| + |b| - |a * b|;
  }

  // The byte count never undercounts, and is exact just for disjoint fragments.
  lemma {:induction false} CountVersusCover(q: seq<Slot>, src: uint64, id: uint8)
    ensures |Covered(q, src, id)| <= ByteCount(q, src, id)
    ensures |Covered(q, src, id)| == ByteCount(q, src, id) <==> PairwiseApart(q, src, id)
  {
    if q != [] {
      var before, last := q[..|q| - 1], q[|q| - 1];
      CountVersusCover(before, src, id);
      PairwiseApartLast(q, src, id);
      if Matches(last, src, id) {
        UnionSize(Covered(before, src, id), Span(last.packet));
      }
    }
  }

  lemma CompleteIffFull(q: seq<Slot>, src: uint64, id: uint8, message: string)
    requires CutFrom(q, src, id, message)
    ensures |Covered(q, src, id)| <= |message|
    ensures Complete(q, src, id, |message|) <==> |Covered(q, src, id)| == |message|
  {
    var c, all := Covered(q, src, id), Interval(0, |message|);
    forall x: nat ensures x in c <==> Covers(q, src, id, x) {
      CoveredIff(q, src, id, x);
    }
    assert c <= all;
    assert |all - c| == |all| - |c|;
    if |c| == |message| {
      assert all - c == {};
      assert c == all;
    }
    if Complete(q, src, id, |message|) {
      assert c == all;
    }
  }

  lemma OneMoreSlot(q: seq<Slot>, n: nat, src: uint64, id: uint8)
    requires n < |q|
    ensures Present(q[..n + 1], src, id) <==> Present(q[..n], src, id) || Matches(q[n], src, id)
    ensures ByteCount(q[..n + 1], src, id)
         == ByteCount(q[..n], src, id) + if Matches(q[n], src, id) then q[n].packet.dataSize else 0
    ensures forall x: nat :: Covers(q[..n + 1], src, id, x) <==>
              Covers(q[..n], src, id, x) || (Matches(q[n], src, id) && x in Span(q[n].packet))
  {
    var before, now := q[..n], q[..n + 1];
    assert now[..n] == before && now[n] == q[n];
    assert forall i | 0 <= i < n :: before[i] == now[i];
    forall x: nat ensures Covers(now, src, id, x) <==>
        Covers(before, src, id, x) || (Matches(q[n], src, id) && x in Span(q[n].packet))
    {
      CoveredIff(now, src, id, x);
      CoveredIff(before, src, id, x);
    }
  }

  // The merge loop over pieces of one message: what it has counted and copied.
  ghost predicate MergedPieces(m: Merge, before: seq<Slot>, src: uint64, id: uint8, message: string) {
    && !m.tooBig
    && m.found == ByteCount(before, src, id)
    && |message| <= |m.buffer|
    && m.size == (if Present(before, src, id) then |message| else |m.buffer|)
    && forall x: nat | x < |m.buffer| ::
         m.buffer[x] == if x < |message| && Covers(before, src, id, x) then message[x] else '\0'
  }

  lemma MergePiece(m: Merge, q: seq<Slot>, n: nat, src: uint64, id: uint8, message: string)
    requires n < |q| == |m.queue| && MergedPieces(m, q[..n], src, id, message)
    requires m.size <= |m.buffer| && InRange(q[n].packet)
    requires Matches(q[n], src, id) ==> FragmentOf(q[n].packet, message)
    ensures MergedPieces(MergeStep(m, n, q[n], src, id), q[..n + 1], src, id, message)
  {
    OneMoreSlot(q, n, src, id);
    var m' := MergeStep(m, n, q[n], src, id);
    forall x: nat | x < |m.buffer|
      ensures m'.buffer[x] == if x < |message| && Covers(q[..n + 1], src, id, x) then message[x] else '\0'
    {
      if Matches(q[n], src, id) {
        CopiedByte(m, n, q[n], src, id, message, x);
      }
    }
  }

  lemma CopiedByte(m: Merge, n: nat, slot: Slot, src: uint64, id: uint8, message: string, x: nat)
    requires n < |m.queue| && m.size <= |m.buffer| && InRange(slot.packet) && x < |m.buffer|
    requires Matches(slot, src, id) && FragmentOf(slot.packet, message) && !m.tooBig && |message| <= m.size
    ensures var m' := MergeStep(m, n, slot, src, id);
      |m'.buffer| == |m.buffer| && m'.buffer[x] == if x in Span(slot.packet) then message[x] else m.buffer[x]
  {
    var p := slot.packet;
    if x in Span(p) {
      assert p.data[..p.dataSize][x - p.offset] == message[p.offset..p.offset + p.dataSize][x - p.offset];
    }
  }

  lemma {:induction false} MergeOfPieces(q: seq<Slot>, n: nat, src: uint64, id: uint8, message: string, capacity: nat)
    requires n <= |q| && WellFormed(q)
    requires CutFrom(q, src, id, message) && |message| <= capacity
    ensures MergedPieces(MergeUpTo(q, n, src, id, capacity), q[..n], src, id, message)
  {
    if n > 0 {
      MergeOfPieces(q, n - 1, src, id, message, capacity);
      MergePiece(MergeUpTo(q, n - 1, src, id, capacity), q, n - 1, src, id, message);
    }
  }

  // Whatever the fragments: the count test accepts exactly when the sizes add
  // up, the slots of the key are freed and no other slot is touched.
  lemma CollectOfPieces(q: seq<Slot>, src: uint64, id: uint8, message: string, capacity: nat)
    requires WellFormed(q) && CutFrom(q, src, id, message)
    requires 0 < |message| <= capacity
    ensures var m := Collect(q, src, id, capacity);
      && m.queue == Removed(q, src, id)
      && (Succeeded(m) <==> ByteCount(q, src, id) == |message|)
      && (Succeeded(m) ==> m.size == |message|)
      && forall x: nat | x < |message| :: m.buffer[x] == if Covers(q, src, id, x) then message[x] else '\0'
  {
    MergeOfPieces(q, |q|, src, id, message, capacity);
    MergeFrame(q, |q|, src, id, capacity);
    assert q[..|q|] == q;
    if !Present(q, src, id) {
      NothingToCount(q, src, id);
    }
  }

  lemma {:induction false} NothingToCount(q: seq<Slot>, src: uint64, id: uint8)
    requires !Present(q, src, id)
    ensures ByteCount(q, src, id) == 0
  {
    if q != [] {
      assert forall i | 0 <= i < |q| - 1 :: q[..|q| - 1][i] == q[i];
      NothingToCount(q[..|q| - 1], src, id);
    }
  }

  // Disjoint pieces of one message, in any slot order: the merge succeeds
  // exactly when they cover the message, and then the buffer holds it.
  lemma CollectIffComplete(q: seq<Slot>, src: uint64, id: uint8, message: string, capacity: nat)
    requires WellFormed(q) && CutFrom(q, src, id, message) && PairwiseApart(q, src, id)
    requires 0 < |message| <= capacity
    ensures var m := Collect(q, src, id, capacity);
      && (Succeeded(m) <==> Complete(q, src, id, |message|))
      && (Succeeded(m) ==> m.size == |message| && m.buffer[..|message|] == message)
      && |m.queue| == |q|
      && forall i | 0 <= i < |q| :: m.queue[i] == if Matches(q[i], src, id) then FREE else q[i]
  {
    CollectOfPieces(q, src, id, message, capacity);
    CountVersusCover(q, src, id);
    CompleteIffFull(q, src, id, message);
  }

  // With overlapping pieces the count can be right and the message still have
  // holes: an accepted message is complete exactly when no two pieces overlap.
  lemma AcceptedCompleteIffApart(q: seq<Slot>, src: uint64, id: uint8, message: string, capacity: nat)
    requires WellFormed(q) && CutFrom(q, src, id, message)
    requires 0 < |message| <= capacity
    requires Succeeded(Collect(q, src, id, capacity))
    ensures Complete(q, src, id, |message|) <==> PairwiseApart(q, src, id)
  {
    CollectOfPieces(q, src, id, message, capacity);
    CountVersusCover(q, src, id);
    CompleteIffFull(q, src, id, message);
  }

  // The first half of a two-fragment message, received twice, is accepted as
  // the whole message; its second half comes out as zeros.
  lemma DuplicateAccepted(src: uint64, id: uint8, now: int)
    requires src != 0
    ensures var message := "ab";
      var half := Slot(src, RawPacket(PROTO_VER, false, false, id, 2, 0, 1, Padded("a")), now);
      var q := [half, half];
      && WellFormed(q) && CutFrom(q, src, id, message) && !Complete(q, src, id, 2)
      && Succeeded(Collect(q, src, id, 2)) && Collect(q, src, id, 2).buffer == "a\0"
  {
    var message := "ab";
    var half := Slot(src, RawPacket(PROTO_VER, false, false, id, 2, 0, 1, Padded("a")), now);
    var q := [half, half];
    CollectOfPieces(q, src, id, message, 2);
    assert q[..1] == [half] && [half][..0] == [];
    assert ByteCount([half], src, id) == 1;
    assert Covers(q, src, id, 0) by { assert Matches(q[0], src, id); }
    assert !Covers(q, src, id, 1);
  }
}

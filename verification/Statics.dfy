// The static memory of byteport-stomp-client.c as far as strncpy reaches into
// it: the output buffer and, a given distance behind its end, the pool.
module Statics {
  import opened CStrings
  import opened Memory
  import opened JsonScan
  import Ipc

  // The limit handed to strncpy is the buffer size less that of a pointer,
  // although the destination lies behind the 84 bytes of the other fields.
  const DATA_LIMIT := Ipc.BUFFER_SIZE - 8

  // So that many bytes behind the buffer are written.
  const OVERRUN := Ipc.DATA_OFFSET + DATA_LIMIT - Ipc.BUFFER_SIZE

  // What strncpy writes into a field of n bytes.
  function Field(s: string, n: nat): (r: string)
    ensures |r| == n
    ensures forall k | 0 <= k < n :: r[k] == if k < |s| then s[k] else '\0'
  {
    if |s| >= n then s[..n] else s + Zeroed(n - |s|)
  }

  // The pool after its first bytes were overwritten with zeros.
  function Spilled(memory: string, spill: nat): (r: string)
    requires spill <= |memory|
    ensures |r| == |memory|
    ensures forall k | 0 <= k < |r| :: r[k] == if k < spill then '\0' else memory[k]
  {
    Zeroed(spill) + memory[spill..]
  }

  class Client {
    const outputBuffer: array<char>
    const pool: Pool
    const gap: nat

    ghost predicate Valid()
      reads this, pool, pool.data
    {
      outputBuffer.Length == Ipc.BUFFER_SIZE && outputBuffer != pool.data && pool.Valid()
    }

    constructor (gap: nat)
      ensures Valid() && this.gap == gap && fresh(outputBuffer) && fresh(pool) && fresh(pool.data)
    {
      outputBuffer := new char[Ipc.BUFFER_SIZE](_ => '\0');
      pool := new Pool();
      this.gap := gap;
    }

    // The pool bytes that lie within the overrun: 76 if the pool follows the
    // buffer directly, none if it is far away.
    function Spill(): (n: nat)
      ensures n <= OVERRUN
    {
      if gap < OVERRUN then OVERRUN - gap else 0
    }

    // A write to an address counted from the start of the output buffer.
    method Poke(address: nat, c: char)
      requires outputBuffer.Length == Ipc.BUFFER_SIZE && pool.data.Length == POOL_SIZE
      requires outputBuffer != pool.data
      modifies outputBuffer, pool.data
      ensures forall k | 0 <= k < Ipc.BUFFER_SIZE ::
                outputBuffer[k] == if k == address then c else old(outputBuffer[k])
      ensures forall k | 0 <= k < POOL_SIZE ::
                pool.data[k] == if Ipc.BUFFER_SIZE + gap + k == address then c else old(pool.data[k])
    {
      var base := Ipc.BUFFER_SIZE + gap;
      if address < Ipc.BUFFER_SIZE {
        outputBuffer[address] := c;
      } else if base <= address < base + POOL_SIZE {
        pool.data[address - base] := c;
      }
    }

    // strncpy of the pool string v: its characters, then NULs up to the limit,
    // wherever these fall.
    method StrNCpy(to: nat, from: nat, n: nat, ghost v: string)
      requires Valid() && StringIs(pool.data[..], from, v)
      requires to < Ipc.BUFFER_SIZE && (|v| <= n ==> to + |v| <= Ipc.BUFFER_SIZE) && (|v| > n ==> to + n <= Ipc.BUFFER_SIZE)
      modifies outputBuffer, pool.data
      ensures forall k | 0 <= k < Ipc.BUFFER_SIZE :: outputBuffer[k] ==
                if to <= k < to + n then (if k - to < |v| then v[k - to] else '\0') else old(outputBuffer[k])
      ensures forall k | 0 <= k < POOL_SIZE ::
                pool.data[k] == if Ipc.BUFFER_SIZE + gap + k < to + n then '\0' else old(pool.data[k])
    {
      StringBytes(pool.data[..], from, v);
      var j := 0;
      while j < n && pool.data[from + j] != '\0'
        invariant j <= n && j <= |v|
        invariant pool.data[..] == old(pool.data[..])
        invariant forall k | 0 <= k < Ipc.BUFFER_SIZE ::
                    outputBuffer[k] == if to <= k < to + j then v[k - to] else old(outputBuffer[k])
        decreases n - j
      {
        assert pool.data[from + j] == pool.data[..][from + j];
        Poke(to + j, pool.data[from + j]);
        j := j + 1;
      }
      assert pool.data[..][from + j] == pool.data[from + j];
      ghost var copied := j;
      while j < n
        invariant copied <= j <= n
        invariant forall k | 0 <= k < Ipc.BUFFER_SIZE :: outputBuffer[k] ==
                    if to <= k < to + copied then v[k - to]
                    else if to <= k < to + j then '\0' else old(outputBuffer[k])
        invariant forall k | 0 <= k < POOL_SIZE ::
                    pool.data[k] == if Ipc.BUFFER_SIZE + gap + k < to + j then '\0' else old(pool.data[k])
      {
        Poke(to + j, '\0');
        j := j + 1;
      }
    }
  }

  // The C string at an address.
  predicate StringIs(memory: string, at: nat, s: string) {
    CString(s) && at + |s| < |memory| && memory[at..at + |s| + 1] == s + "\0"
  }

  lemma StringBytes(memory: string, at: nat, s: string)
    requires StringIs(memory, at, s)
    ensures forall k | 0 <= k < |s| :: memory[at + k] == s[k] != '\0'
    ensures memory[at + |s|] == '\0'
  {
    forall k | 0 <= k <= |s| ensures memory[at + k] == (s + "\0")[k] {
      assert memory[at + k] == memory[at..at + |s| + 1][k];
    }
    forall k | 0 <= k < |s| ensures s[k] != '\0' {
      assert s[k] in s;
    }
  }

  // What strcmp and printf read at an address.
  method StringAt(memory: array<char>, at: nat, ghost v: string) returns (s: string)
    requires StringIs(memory[..], at, v)
    ensures s == v
  {
    s := "";
    StringBytes(memory[..], at, v);
    while memory[at + |s|] != '\0'
      invariant |s| <= |v| && s == v[..|s|]
      invariant memory[at + |s|] == memory[..][at + |s|]
      decreases |v| - |s|
    {
      s := s + [memory[at + |s|]];
    }
  }

  // The struct in the zeroed buffer, written in the order id, time, source,
  // data, data_len, payload_size.
  function Filled(source: string, data: string): (b: string)
    requires |source| == Ipc.SOURCE_SIZE && Ipc.MESSAGE_SIZE + |data| <= Ipc.BUFFER_SIZE
    ensures |b| == Ipc.BUFFER_SIZE
  {
    var b := Overwritten(Zeroed(Ipc.BUFFER_SIZE), 0, Ipc.Bytes(Ipc.MESSAGE_ID, 4));
    WithSizes(WithStrings(Overwritten(b, 72, Ipc.Bytes(0, 8)), source, data), |data|)
  }

  function WithStrings(b: string, source: string, data: string): (r: string)
    requires |b| == Ipc.BUFFER_SIZE && |source| == Ipc.SOURCE_SIZE
    ensures |r| == |b|
  {
    Overwritten(Overwritten(b, Ipc.HEADER_SIZE, source), Ipc.DATA_OFFSET, Field(data, Ipc.BUFFER_SIZE - Ipc.DATA_OFFSET))
  }

  function WithSizes(b: string, n: nat): (r: string)
    requires |b| == Ipc.BUFFER_SIZE
    ensures |r| == |b|
  {
    Overwritten(Overwritten(b, 80, Ipc.Bytes(n, 4)), 4, Ipc.Bytes(Ipc.MESSAGE_SIZE - Ipc.HEADER_SIZE + n, 4))
  }

  predicate HasAt(b: string, at: nat, s: string) {
    at + |s| <= |b| && b[at..at + |s|] == s
  }

  lemma WriteKeeps(b: string, offset: nat, data: string, at: nat, s: string)
    requires HasAt(b, at, s) && offset + |data| <= |b|
    requires offset + |data| <= at || at + |s| <= offset
    ensures HasAt(Overwritten(b, offset, data), at, s)
  {
    OverwrittenSlice(b, offset, data, at, at + |s|);
  }

  lemma Written(b: string, offset: nat, data: string)
    requires offset + |data| <= |b|
    ensures HasAt(Overwritten(b, offset, data), offset, data)
  {
    OverwrittenSlice(b, offset, data, offset, offset + |data|);
  }

  lemma Front(b: string, at: nat, s: string, t: string)
    requires HasAt(b, at, s) && t <= s
    ensures HasAt(b, at, t)
  {
    assert b[at..at + |t|] == b[at..at + |s|][..|t|];
  }

  lemma Join(b: string, at: nat, s: string, t: string)
    requires HasAt(b, at, s) && HasAt(b, at + |s|, t)
    ensures HasAt(b, at, s + t)
  {
    assert b[at..at + |s| + |t|] == b[at..at + |s|] + b[at + |s|..at + |s| + |t|];
  }

  lemma StringsWritten(b: string, source: string, data: string, id: string, time: string)
    requires |b| == Ipc.BUFFER_SIZE && |source| == Ipc.SOURCE_SIZE && Ipc.MESSAGE_SIZE + |data| <= |b|
    requires |id| == 4 && |time| == 8 && HasAt(b, 0, id) && HasAt(b, 72, time)
    ensures var r := WithStrings(b, source, data);
      HasAt(r, 0, id) && HasAt(r, 8, source + time) && HasAt(r, 84, data + Zeroed(4))
  {
    var field, b1 := Field(data, Ipc.BUFFER_SIZE - Ipc.DATA_OFFSET), Overwritten(b, Ipc.HEADER_SIZE, source);
    WriteKeeps(b, Ipc.HEADER_SIZE, source, 0, id);
    WriteKeeps(b, Ipc.HEADER_SIZE, source, 72, time);
    Written(b, Ipc.HEADER_SIZE, source);
    Join(b1, 8, source, time);
    WriteKeeps(b1, Ipc.DATA_OFFSET, field, 0, id);
    WriteKeeps(b1, Ipc.DATA_OFFSET, field, 8, source + time);
    Written(b1, Ipc.DATA_OFFSET, field);
    Front(WithStrings(b, source, data), 84, field, data + Zeroed(4));
  }

  lemma SizesWritten(b: string, n: nat, id: string, front: string, back: string)
    requires |b| == Ipc.BUFFER_SIZE && |id| == 4 && |front| == 72
    requires HasAt(b, 0, id) && HasAt(b, 8, front) && HasAt(b, 84, back)
    ensures var len, size := Ipc.Bytes(n, 4), Ipc.Bytes(Ipc.MESSAGE_SIZE - Ipc.HEADER_SIZE + n, 4);
      HasAt(WithSizes(b, n), 0, id + size + (front + len + back))
  {
    var len, size := Ipc.Bytes(n, 4), Ipc.Bytes(Ipc.MESSAGE_SIZE - Ipc.HEADER_SIZE + n, 4);
    var b1, r := Overwritten(b, 80, len), WithSizes(b, n);
    WriteKeeps(b, 80, len, 0, id);
    WriteKeeps(b, 80, len, 8, front);
    WriteKeeps(b, 80, len, 84, back);
    Written(b, 80, len);
    Join(b1, 8, front, len);
    Join(b1, 8, front + len, back);
    WriteKeeps(b1, 4, size, 0, id);
    WriteKeeps(b1, 4, size, 8, front + len + back);
    Written(b1, 4, size);
    Join(r, 0, id, size);
    Join(r, 0, id + size, front + len + back);
  }

  lemma FieldIsSource(uid: string)
    ensures Field(uid, Ipc.SOURCE_SIZE) == Ipc.Source(Ipc.Cut(uid))
  {
  }

  // What is sent is the encoded record.
  lemma FilledIsWire(uid: string, data: string)
    requires Ipc.Postable(Ipc.ToNode(uid, data))
    ensures Ipc.FitsBuffer(Ipc.Encode(Ipc.ToNode(uid, data)))
    ensures Filled(Field(uid, Ipc.SOURCE_SIZE), data)[..Ipc.MESSAGE_SIZE + |data|]
         == Ipc.Wire(Ipc.Encode(Ipc.ToNode(uid, data)))
  {
    var source, id, time := Field(uid, Ipc.SOURCE_SIZE), Ipc.Bytes(Ipc.MESSAGE_ID, 4), Ipc.Bytes(0, 8);
    var zero := Zeroed(Ipc.BUFFER_SIZE);
    var b1 := Overwritten(zero, 0, id);
    var b := Overwritten(b1, 72, time);
    Written(zero, 0, id);
    WriteKeeps(b1, 72, time, 0, id);
    Written(b1, 72, time);
    StringsWritten(b, source, data, id, time);
    SizesWritten(WithStrings(b, source, data), |data|, id, source + time, data + Zeroed(4));
    FieldIsSource(uid);
    Ipc.DecodeInverts(Ipc.ToNode(uid, data));
    Associate(source + time + Ipc.Bytes(|data|, 4), data, Zeroed(4));
  }

  method StrLen(buffer: array<char>, at: nat, ghost n: nat) returns (len: nat)
    requires at + n < buffer.Length && buffer[at + n] == '\0' && forall k | at <= k < at + n :: buffer[k] != '\0'
    ensures len == n
  {
    len := 0;
    while buffer[at + len] != '\0'
      invariant len <= n
      decreases n - len
    {
      len := len + 1;
    }
  }

  lemma DataWritten(b: string, data: string)
    requires |b| == Ipc.BUFFER_SIZE && Ipc.MESSAGE_SIZE + |data| <= Ipc.BUFFER_SIZE
    ensures var field := Field(data, Ipc.BUFFER_SIZE - Ipc.DATA_OFFSET);
      HasAt(Overwritten(b, Ipc.DATA_OFFSET, field), Ipc.DATA_OFFSET, data + "\0")
  {
    var field := Field(data, Ipc.BUFFER_SIZE - Ipc.DATA_OFFSET);
    Written(b, Ipc.DATA_OFFSET, field);
    Front(Overwritten(b, Ipc.DATA_OFFSET, field), Ipc.DATA_OFFSET, field, data + "\0");
  }

  // strncpy into the source field, which the limit fits.
  method CopySource(client: Client, at: nat, ghost uid: string)
    requires client.Valid() && StringIs(client.pool.data[..], at, uid)
    modifies client.outputBuffer, client.pool.data
    ensures client.Valid() && client.pool.data[..] == old(client.pool.data[..])
    ensures client.outputBuffer[..]
         == Overwritten(old(client.outputBuffer[..]), Ipc.HEADER_SIZE, Field(uid, Ipc.SOURCE_SIZE))
  {
    client.StrNCpy(Ipc.HEADER_SIZE, at, Ipc.SOURCE_SIZE, uid);
  }

  // strncpy into the data field, with the limit of the source.
  method CopyData(client: Client, at: nat, ghost data: string)
    requires client.Valid() && StringIs(client.pool.data[..], at, data)
    requires Ipc.DATA_OFFSET + |data| <= Ipc.BUFFER_SIZE
    modifies client.outputBuffer, client.pool.data
    ensures client.Valid() && client.pool.data[..] == Spilled(old(client.pool.data[..]), client.Spill())
    ensures client.outputBuffer[..]
         == Overwritten(old(client.outputBuffer[..]), Ipc.DATA_OFFSET, Field(data, Ipc.BUFFER_SIZE - Ipc.DATA_OFFSET))
  {
    client.StrNCpy(Ipc.DATA_OFFSET, at, DATA_LIMIT, data);
  }

  // The loop body at the end of the handler for messages of the server: the
  // record is sent, and pool bytes within the overrun are zeroed.
  method SendToNode(pipe: Ipc.Pipe, client: Client, uidAt: nat, dataAt: nat, ghost uid: string, ghost data: string)
    requires client.Valid() && Ipc.Postable(Ipc.ToNode(uid, data))
    requires StringIs(client.pool.data[..], uidAt, uid) && StringIs(client.pool.data[..], dataAt, data)
    modifies pipe, client.outputBuffer, client.pool.data
    ensures Ipc.FitsBuffer(Ipc.Encode(Ipc.ToNode(uid, data)))
    ensures pipe.bytes == old(pipe.bytes) + Ipc.Wire(Ipc.Encode(Ipc.ToNode(uid, data)))
    ensures client.Valid() && client.pool.data[..] == Spilled(old(client.pool.data[..]), client.Spill())
  {
    var len := FillToNode(client, uidAt, dataAt, uid, data);
    FilledIsWire(uid, data);
    ghost var buffer, n := client.outputBuffer, Ipc.MESSAGE_SIZE + len;
    assert buffer[..][..n] == buffer[..n];
    pipe.Send(client.outputBuffer[..Ipc.MESSAGE_SIZE + len]);
  }

  method FillToNode(client: Client, uidAt: nat, dataAt: nat, ghost uid: string, ghost data: string) returns (len: nat)
    requires client.Valid() && CString(data) && Ipc.MESSAGE_SIZE + |data| <= Ipc.BUFFER_SIZE
    requires StringIs(client.pool.data[..], uidAt, uid) && StringIs(client.pool.data[..], dataAt, data)
    modifies client.outputBuffer, client.pool.data
    ensures client.Valid() && client.pool.data[..] == Spilled(old(client.pool.data[..]), client.Spill())
    ensures len == |data| && client.outputBuffer[..] == Filled(Field(uid, Ipc.SOURCE_SIZE), data)
  {
    var buffer := client.outputBuffer;
    Clear(buffer);
    CopyInto(buffer, 0, Ipc.Bytes(Ipc.MESSAGE_ID, 4));
    CopyInto(buffer, 72, Ipc.Bytes(0, 8));
    CopySource(client, uidAt, uid);
    DataWritten(buffer[..], data);
    CopyData(client, dataAt, data);
    len := DataLength(client, data);
    CopyInto(buffer, 80, Ipc.Bytes(len, 4));
    CopyInto(buffer, 4, Ipc.Bytes(Ipc.MESSAGE_SIZE - Ipc.HEADER_SIZE + len, 4));
  }

  // strlen of the data field.
  method DataLength(client: Client, ghost data: string) returns (len: nat)
    requires client.Valid() && Ipc.MESSAGE_SIZE + |data| <= Ipc.BUFFER_SIZE && CString(data)
    requires HasAt(client.outputBuffer[..], Ipc.DATA_OFFSET, data + "\0")
    ensures len == |data|
  {
    StringBytes(client.outputBuffer[..], Ipc.DATA_OFFSET, data);
    assert forall k | 0 <= k < Ipc.BUFFER_SIZE :: client.outputBuffer[k] == client.outputBuffer[..][k];
    len := StrLen(client.outputBuffer, Ipc.DATA_OFFSET, |data|);
  }
}

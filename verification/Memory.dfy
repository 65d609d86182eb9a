// Fixed-size char buffers: memset and memcpy.
module Memory {

  function Zeroed(n: nat): (r: string)
    ensures |r| == n && forall i | 0 <= i < n :: r[i] == '\0'
  {
    seq(n, _ => '\0')
  }

  function Overwritten(buffer: string, offset: nat, data: string): (r: string)
    requires offset + |data| <= |buffer|
    ensures |r| == |buffer|
    ensures forall k | 0 <= k < |r| ::
              r[k] == if offset <= k < offset + |data| then data[k - offset] else buffer[k]
  {
    buffer[..offset] + data + buffer[offset + |data|..]
  }

  lemma OverwrittenSlice(buffer: string, offset: nat, data: string, a: nat, b: nat)
    requires offset + |data| <= |buffer| && a <= b <= |buffer|
    ensures b <= offset || offset + |data| <= a ==> Overwritten(buffer, offset, data)[a..b] == buffer[a..b]
    ensures Overwritten(buffer, offset, data)[offset..offset + |data|] == data
  {
  }

  // memset to zero
  method Clear(buffer: array<char>)
    modifies buffer
    ensures buffer[..] == Zeroed(buffer.Length)
  {
    for k := 0 to buffer.Length
      invariant forall j | 0 <= j < k :: buffer[j] == '\0'
    {
      buffer[k] := '\0';
    }
  }

  // memset to zero of the first n bytes
  method ClearFront(buffer: array<char>, n: nat)
    requires n <= buffer.Length
    modifies buffer
    ensures buffer[..] == Zeroed(n) + old(buffer[n..])
  {
    for k := 0 to n
      invariant forall j | 0 <= j < buffer.Length :: buffer[j] == if j < k then '\0' else old(buffer[j])
    {
      buffer[k] := '\0';
    }
  }

  // memcpy
  method CopyInto(buffer: array<char>, offset: nat, data: string)
    requires offset + |data| <= buffer.Length
    modifies buffer
    ensures buffer[..] == Overwritten(old(buffer[..]), offset, data)
  {
    for k := 0 to |data|
      invariant forall j | 0 <= j < buffer.Length ::
                  buffer[j] == if offset <= j < offset + k then data[j - offset] else old(buffer[j])
    {
      buffer[offset + k] := data[k];
    }
  }
}

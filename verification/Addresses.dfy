// Node addresses between network order and uint64 (network_to_uint64 and
// uint64_to_network in i8-transceiver.c). Shifts by 8k bits are products and
// quotients by Pow256(k), the mask 0xFF is % 256, and |= is +: the bytes
// combined never share a bit, which NetworkToUint64 asserts.
module Addresses {
  import opened Packets

  function Pow256(n: nat): (r: nat)
    ensures r > 0
  {
    if n == 0 then 1 else 256 * Pow256(n - 1)
  }

  // 0xFF & (v >> (56 - 8 * i))
  function ByteAt(v: uint64, i: nat): uint8
    requires i < 8
  {
    v / Pow256(7 - i) % 256
  }

  function ToNetwork(v: uint64): (r: seq<uint8>)
    ensures |r| == 8
  {
    seq(8, i requires 0 <= i < 8 => ByteAt(v, i))
  }

  // The big-endian positional value.
  function Positional(a: seq<uint8>): nat {
    if a == [] then 0 else 256 * Positional(a[..|a| - 1]) + a[|a| - 1]
  }

  method NetworkToUint64(addr: array<uint8>) returns (out: uint64)
    requires addr.Length == 8
    ensures out == Positional(addr[..])
    ensures ToNetwork(out) == addr[..]
  {
    PowOfEight();
    var sum: nat := 0;
    for i := 0 to 8
      invariant sum == Positional(addr[..i]) * Pow256(8 - i)
    {
      assert addr[..i + 1][..i] == addr[..i];
      assert Pow256(8 - i) == 256 * Pow256(7 - i);
      assert sum % Pow256(8 - i) == 0 by { MultipleModulo(Positional(addr[..i]), Pow256(8 - i)); }
      assert addr[i] * Pow256(7 - i) < Pow256(8 - i);
      OneMoreByte(Positional(addr[..i]), addr[i], Pow256(7 - i));
      sum := sum + addr[i] * Pow256(7 - i);
    }
    assert addr[..8] == addr[..];
    PositionalBound(addr[..]);
    out := sum;
    ToNetworkInverts(addr[..]);
  }

  method Uint64ToNetwork(value: uint64, out: array<uint8>)
    requires out.Length == 8
    modifies out
    ensures out[..] == ToNetwork(value)
    ensures Positional(out[..]) == value
  {
    for i := 0 to 8
      invariant forall k | 0 <= k < i :: out[k] == ByteAt(value, k)
    {
      out[i] := value / Pow256(7 - i) % 256;
    }
    assert out[..] == ToNetwork(value);
    FromNetworkInverts(value);
  }

  lemma MultipleModulo(a: nat, p: nat)
    requires p > 0
    ensures (a * p) % p == 0
  {
    DivMod(a * p, p, a, 0);
  }

  lemma OneMoreByte(value: nat, b: nat, p: nat)
    ensures value * (256 * p) + b * p == (256 * value + b) * p
  {
  }

  lemma PowOfEight()
    ensures Pow256(8) == 0x1_0000_0000_0000_0000
  {
    assert Pow256(4) == 0x1_0000_0000;
    assert Pow256(6) == 0x1_0000_0000_0000;
  }

  lemma {:induction false} PositionalBound(a: seq<uint8>)
    ensures Positional(a) < Pow256(|a|)
  {
    if a != [] {
      PositionalBound(a[..|a| - 1]);
    }
  }

  lemma SmallMultiple(d: int, p: int)
    requires -p < d * p < p
    ensures d == 0
  {
  }

  lemma DivMod(v: nat, p: nat, q: nat, r: nat)
    requires 0 < p && r < p && v == q * p + r
    ensures v / p == q && v % p == r
  {
    var q', r' := v / p, v % p;
    assert v == p * q' + r';
    assert (q' - q) * p == r - r';
    SmallMultiple(q' - q, p);
  }

  lemma RegroupDigits(p: nat, q: nat, r': nat, r: nat)
    requires r < p && r' < 256
    ensures p * (256 * q + r') + r == q * (256 * p) + (p * r' + r)
    ensures p * r' + r < 256 * p
  {
    assert p * r' <= p * 255;
  }

  lemma DivDiv(v: nat, p: nat)
    requires p > 0
    ensures v / p / 256 == v / (256 * p)
  {
    var q, r := v / p, v % p;
    var q', r' := q / 256, q % 256;
    RegroupDigits(p, q', r', r);
    DivMod(v, 256 * p, q', p * r' + r);
  }

  lemma {:induction false} PrefixOfValue(v: uint64, n: nat)
    requires n <= 8
    ensures Positional(ToNetwork(v)[..n]) == v / Pow256(8 - n)
  {
    if n == 0 {
      PowOfEight();
    } else {
      PrefixOfValue(v, n - 1);
      assert ToNetwork(v)[..n][..n - 1] == ToNetwork(v)[..n - 1];
      DivDiv(v, Pow256(8 - n));
    }
  }

  lemma FromNetworkInverts(v: uint64)
    ensures Positional(ToNetwork(v)) == v
  {
    PrefixOfValue(v, 8);
    assert ToNetwork(v)[..8] == ToNetwork(v);
  }

  lemma {:induction false} PrefixOfBytes(a: seq<uint8>, n: nat)
    requires n <= |a| == 8
    ensures Positional(a[..n]) == Positional(a) / Pow256(8 - n)
    decreases 8 - n
  {
    if n == 8 {
      assert a[..8] == a;
    } else {
      PrefixOfBytes(a, n + 1);
      assert a[..n + 1][..n] == a[..n];
      DivDiv(Positional(a), Pow256(8 - n - 1));
    }
  }

  lemma LowByte(q: nat, high: nat, low: uint8)
    requires q == 256 * high + low
    ensures q % 256 == low
  {
  }

  lemma ByteOfValue(a: seq<uint8>, i: nat, n: nat, q: nat)
    requires |a| == 8 && n == i + 1 <= 8 && Positional(a) < 0x1_0000_0000_0000_0000
    requires q == Positional(a) / Pow256(8 - n) && q == Positional(a[..n])
    ensures q % 256 == a[i]
  {
    assert a[..n][..i] == a[..i];
    LowByte(q, Positional(a[..i]), a[i]);
  }

  lemma ToNetworkInverts(a: seq<uint8>)
    requires |a| == 8
    ensures Positional(a) < 0x1_0000_0000_0000_0000
    ensures ToNetwork(Positional(a)) == a
  {
    PositionalBound(a);
    PowOfEight();
    forall i | 0 <= i < 8 ensures ByteAt(Positional(a), i) == a[i] {
      var n: nat := i + 1;
      PrefixOfBytes(a, n);
      ByteOfValue(a, i, n, Positional(a[..n]));
    }
  }

  lemma PositionalSnoc(a: seq<uint8>, b: uint8)
    ensures Positional(a + [b]) == 256 * Positional(a) + b
  {
    assert (a + [b])[..|a|] == a;
  }

  // The first byte is the highest one.
  lemma {:induction false} NetworkOrder(high: seq<uint8>, low: seq<uint8>)
    ensures Positional(high + low) == Positional(high) * Pow256(|low|) + Positional(low)
  {
    if low == [] {
      assert high + low == high;
    } else {
      var n: nat := |low| - 1;
      assert high + low == (high + low[..n]) + [low[n]];
      NetworkOrder(high, low[..n]);
      PositionalSnoc(high + low[..n], low[n]);
      ShiftOnce(Positional(high), Pow256(n));
    }
  }

  lemma ShiftOnce(v: nat, p: nat)
    ensures 256 * (v * p) == v * (256 * p)
  {
  }
}

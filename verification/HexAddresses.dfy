// The printed address of a node: sprintf with %016llx.
module HexAddresses {
  import opened Packets
  import opened CStrings
  import opened IdLists

  function HexDigits(n: nat, k: nat): (s: string)
    ensures |s| == k
  {
    if k == 0 then "" else HexDigits(n / 16, k - 1) + [HexDigit(n % 16)]
  }

  function HexAddress(src: uint64): (s: string)
    ensures |s| == 16
  {
    HexDigits(src, 16)
  }

  function Pow16(k: nat): (p: nat)
    ensures p > 0
  {
    if k == 0 then 1 else 16 * Pow16(k - 1)
  }

  lemma Sixteenth(n: nat, p: nat)
    requires n < 16 * p
    ensures n / 16 < p
  {
  }

  lemma {:induction false} HexDigitsValue(n: nat, k: nat)
    requires n < Pow16(k)
    ensures DigitsValue(HexDigits(n, k), 16) == n
  {
    if k > 0 {
      var j: nat := k - 1;
      Sixteenth(n, Pow16(j));
      HexDigitsValue(n / 16, j);
      ValueSnoc(HexDigits(n / 16, j), HexDigit(n % 16), 16);
      assert HexDigits(n, k) == HexDigits(n / 16, j) + [HexDigit(n % 16)];
    }
  }

  // Different nodes have different printed addresses.
  lemma HexAddressInverts(src: uint64)
    ensures DigitsValue(HexAddress(src), 16) == src
  {
    assert Pow16(4) == 0x1_0000;
    assert Pow16(8) == 0x1_0000_0000;
    assert Pow16(12) == 0x1_0000_0000_0000;
    HexDigitsValue(src, 16);
  }

  lemma {:induction false} HexDigitsPlain(n: nat, k: nat)
    ensures '"' !in HexDigits(n, k) && CString(HexDigits(n, k))
  {
    if k > 0 {
      HexDigitsPlain(n / 16, k - 1);
    }
  }

  predicate IsLowerHex(c: char) {
    '0' <= c <= '9' || 'a' <= c <= 'f'
  }

  lemma {:induction false} HexDigitsLower(n: nat, k: nat)
    ensures forall c | c in HexDigits(n, k) :: IsLowerHex(c)
  {
    if k > 0 {
      HexDigitsLower(n / 16, k - 1);
    }
  }

  lemma DigitOfValue(c: char)
    requires IsLowerHex(c)
    ensures 0 <= HexValue(c) < 16 && HexDigit(HexValue(c)) == c
  {
  }

  lemma HexDigitsSnoc(high: nat, last: nat, n: nat, j: nat, k: nat)
    requires last < 16 && n == 16 * high + last && k == j + 1
    ensures HexDigits(n, k) == HexDigits(high, j) + [HexDigit(last)]
  {
    assert n / 16 == high && n % 16 == last;
  }

  lemma {:induction false} DigitsOfValue(s: string)
    requires forall c | c in s :: IsLowerHex(c)
    ensures HexDigits(DigitsValue(s, 16), |s|) == s
  {
    if s != "" {
      var j: nat := |s| - 1;
      var before, c := s[..j], s[j];
      DigitOfValue(c);
      DigitsOfValue(before);
      assert s == before + [c];
      ValueSnoc(before, c, 16);
      HexDigitsSnoc(DigitsValue(before, 16), HexValue(c), DigitsValue(s, 16), j, |s|);
    }
  }

  // The printed address is the one text of 16 digits, none of them in upper
  // case, that stands for the node.
  lemma HexAddressIff(src: uint64, s: string)
    ensures s == HexAddress(src)
       <==> |s| == 16 && (forall c | c in s :: IsLowerHex(c)) && DigitsValue(s, 16) == src
  {
    HexAddressInverts(src);
    HexDigitsLower(src, 16);
    if |s| == 16 && forall c | c in s :: IsLowerHex(c) {
      DigitsOfValue(s);
    }
  }
}

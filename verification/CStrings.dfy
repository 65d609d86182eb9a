// C library helpers on NUL-terminated strings, given as the sequences of the
// characters before the NUL.
module CStrings {

  // Without a NUL: what a C string can be.
  predicate CString(s: string) {
    '\0' !in s
  }

  lemma Associate(a: string, b: string, c: string)
    ensures (a + b) + c == a + (b + c)
  {
  }

  // strchr / the scan for a delimiter: the first index of c, or |s|.
  function IndexOf(s: string, c: char): (i: nat)
    ensures i <= |s|
  {
    if s == "" || s[0] == c then 0 else 1 + IndexOf(s[1..], c)
  }

  lemma {:induction false} IndexOfIs(s: string, c: char, i: nat)
    requires i <= |s| && c !in s[..i] && (i < |s| ==> s[i] == c)
    ensures IndexOf(s, c) == i
  {
    if i > 0 {
      assert s[0] == s[..i][0] && s[1..][..i - 1] == s[..i][1..];
      IndexOfIs(s[1..], c, i - 1);
    }
  }

  lemma {:induction false} NotBeforeIndex(s: string, c: char)
    ensures c !in s[..IndexOf(s, c)]
  {
    if s != "" && s[0] != c {
      NotBeforeIndex(s[1..], c);
      var i := IndexOf(s[1..], c);
      assert s[..i + 1] == [s[0]] + s[1..][..i];
    }
  }

  function UpToNul(s: string): string {
    s[..IndexOf(s, '\0')]
  }

  predicate IsDigit(c: char) {
    '0' <= c <= '9'
  }

  function Digit(n: nat): char
    requires n < 10
  {
    '0' + (n as char)
  }

  function DigitValue(c: char): nat
    requires IsDigit(c)
  {
    c as nat - '0' as nat
  }

  // The digits of n without leading zeros, as apr_itoa and printf write them.
  function Decimal(n: nat): (s: string)
    ensures s != "" && forall c | c in s :: IsDigit(c)
  {
    if n < 10 then [Digit(n)] else Decimal(n / 10) + [Digit(n % 10)]
  }

  // The value of a string of digits.
  function Value(s: string): nat
    requires forall c | c in s :: IsDigit(c)
  {
    if s == "" then 0 else 10 * Value(s[..|s| - 1]) + DigitValue(s[|s| - 1])
  }

  lemma {:induction false} ValueOfDecimal(n: nat)
    ensures Value(Decimal(n)) == n
  {
    if n >= 10 {
      ValueOfDecimal(n / 10);
      assert Decimal(n)[..|Decimal(n)| - 1] == Decimal(n / 10);
    } else {
      assert Decimal(n)[..0] == "";
    }
  }

  predicate IsSpace(c: char) {
    c == ' ' || '\t' <= c <= '\r'
  }

  function LeadingDigits(s: string): (d: string)
    ensures d <= s && forall c | c in d :: IsDigit(c)
  {
    if s == "" || !IsDigit(s[0]) then "" else [s[0]] + LeadingDigits(s[1..])
  }

  // atoi, for values that fit an int.
  function Atoi(s: string): int {
    if s == "" then 0
    else if IsSpace(s[0]) then Atoi(s[1..])
    else if s[0] == '-' then 0 - Value(LeadingDigits(s[1..]))
    else if s[0] == '+' then Value(LeadingDigits(s[1..]))
    else Value(LeadingDigits(s))
  }

  lemma {:induction false} AllDigits(s: string)
    requires forall c | c in s :: IsDigit(c)
    ensures LeadingDigits(s) == s
  {
    if s != "" {
      AllDigits(s[1..]);
    }
  }

  lemma AtoiOfDecimal(n: nat)
    ensures Atoi(Decimal(n)) == n
  {
    var s := Decimal(n);
    assert s[0] in s;
    AllDigits(s);
    ValueOfDecimal(n);
  }

  lemma {:induction false} LeadingDigitsOf(d: string, rest: string)
    requires (forall c | c in d :: IsDigit(c)) && (rest == "" || !IsDigit(rest[0]))
    ensures LeadingDigits(d + rest) == d
  {
    if d == "" {
      assert d + rest == rest;
    } else {
      assert (d + rest)[1..] == d[1..] + rest && d[0] in d;
      LeadingDigitsOf(d[1..], rest);
    }
  }

  lemma {:induction false} AtoiSpaces(spaces: string, s: string)
    requires forall c | c in spaces :: IsSpace(c)
    ensures Atoi(spaces + s) == Atoi(s)
  {
    if spaces == "" {
      assert spaces + s == s;
    } else {
      assert spaces[0] in spaces && (spaces + s)[1..] == spaces[1..] + s;
      AtoiSpaces(spaces[1..], s);
    }
  }

  lemma {:induction false} AtoiBehindSign(sign: char, s: string)
    requires sign == '+' || sign == '-'
    ensures Atoi([sign] + s) == if sign == '-' then 0 - Value(LeadingDigits(s)) else Value(LeadingDigits(s))
  {
    assert ([sign] + s)[0] == sign && ([sign] + s)[1..] == s;
  }

  lemma {:induction false} AtoiUnsigned(s: string)
    requires s != "" && IsDigit(s[0])
    ensures Atoi(s) == Value(LeadingDigits(s))
  {
  }

  // Leading spaces and one sign are allowed, what follows the digits does not
  // matter.
  lemma AtoiOf(spaces: string, sign: string, n: nat, rest: string)
    requires (forall c | c in spaces :: IsSpace(c)) && (sign == "" || sign == "+" || sign == "-")
    requires rest == "" || !IsDigit(rest[0])
    ensures Atoi(spaces + (sign + (Decimal(n) + rest))) == if sign == "-" then 0 - n else n
  {
    var d, s := Decimal(n), Decimal(n) + rest;
    assert d[0] in d && s[0] == d[0];
    AtoiSpaces(spaces, sign + s);
    if sign == "" {
      AtoiUnsigned(s);
      assert sign + s == s;
    } else {
      AtoiBehindSign(sign[0], s);
      assert sign == [sign[0]];
    }
    LeadingDigitsOf(d, rest);
    ValueOfDecimal(n);
  }

  // Without a digit there the value is 0.
  lemma AtoiWithoutDigits(spaces: string, sign: string, rest: string)
    requires (forall c | c in spaces :: IsSpace(c)) && (sign == "" || sign == "+" || sign == "-")
    requires rest == "" || !IsDigit(rest[0])
    requires sign == "" && rest != "" ==> !IsSpace(rest[0]) && rest[0] != '+' && rest[0] != '-'
    ensures Atoi(spaces + (sign + rest)) == 0
  {
    AtoiSpaces(spaces, sign + rest);
    assert sign != "" ==> (sign + rest)[0] == sign[0] && (sign + rest)[1..] == rest;
    assert sign == "" ==> sign + rest == rest;
  }
}

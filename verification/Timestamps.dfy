// auto_timestamp of client_base.py for datetime values: microseconds since
// the epoch, divided by 1e6 in floating point, printed with '%f', stripped.
module Timestamps {
  import opened CStrings
  import opened Doubles

  // ----- timedelta -----

  // unix_time_micros on the normalised fields of a timedelta.
  function UnixTimeMicros(days: int, seconds: int, microseconds: int): int {
    microseconds + (seconds + days * 24 * 3600) * MICROS
  }

  predicate Normalised(seconds: int, microseconds: int) {
    0 <= seconds < 24 * 3600 && 0 <= microseconds < MICROS
  }

  lemma MicrosDetermineDelta(days: int, seconds: int, microseconds: int)
    requires Normalised(seconds, microseconds)
    ensures var m := UnixTimeMicros(days, seconds, microseconds);
      m / (24 * 3600 * MICROS) == days && m / MICROS % (24 * 3600) == seconds && m % MICROS == microseconds
  {
  }

  // ----- the text -----

  // k digits of n, most significant first.
  function Digits(n: nat, k: nat): (s: string)
    ensures |s| == k && forall c | c in s :: IsDigit(c)
  {
    if k == 0 then "" else Digits(n / 10, k - 1) + [Digit(n % 10)]
  }

  function Sign(n: int): string {
    if n < 0 then "-" else ""
  }

  // '%f' of n millionths.
  function Fixed(n: int): string {
    Sign(n) + Decimal(Size(n) / MICROS) + "." + Digits(Size(n) % MICROS, 6)
  }

  // str.rstrip with one character
  function RStrip(s: string, c: char): (r: string)
    ensures r <= s && (r != "" ==> r[|r| - 1] != c)
  {
    if s != "" && s[|s| - 1] == c then RStrip(s[..|s| - 1], c) else s
  }

  function AutoTimestamp(n: int): string {
    RStrip(RStrip(Fixed(n), '0'), '.')
  }

  // ----- what such a text denotes, in millionths -----

  function Pow10(n: nat): (p: nat)
    ensures p > 0
  {
    if n == 0 then 1 else 10 * Pow10(n - 1)
  }

  predicate AllDigits(s: string) {
    forall c | c in s :: IsDigit(c)
  }

  datatype Number = Malformed | Millionths(value: int)

  function Unsigned(s: string): Number {
    var dot := IndexOf(s, '.');
    FromParts(s[..dot], if dot < |s| then s[dot + 1..] else "")
  }

  function FromParts(whole: string, fraction: string): Number {
    if whole == "" || |fraction| > 6 || !AllDigits(whole) || !AllDigits(fraction) then Malformed
    else Millionths(Value(whole) * MICROS + FractionMillionths(fraction))
  }

  function FractionMillionths(fraction: string): nat
    requires AllDigits(fraction) && |fraction| <= 6
  {
    Value(fraction) * Pow10(6 - |fraction|)
  }

  function Read(s: string): Number {
    if s != "" && s[0] == '-' then
      match Unsigned(s[1..])
      case Malformed => Malformed
      case Millionths(v) => Millionths(0 - v)
    else Unsigned(s)
  }

  lemma {:induction false} ValueOfDigits(n: nat, k: nat)
    requires n < Pow10(k)
    ensures Value(Digits(n, k)) == n
  {
    if k > 0 {
      Tenth(n, Pow10(k - 1));
      ValueOfDigits(n / 10, k - 1);
      ValueSnoc(Digits(n / 10, k - 1), Digit(n % 10));
    }
  }

  lemma Tenth(n: nat, p: nat)
    requires n < 10 * p
    ensures n / 10 < p
  {
  }

  lemma ValueSnoc(s: string, c: char)
    requires AllDigits(s) && IsDigit(c)
    ensures AllDigits(s + [c]) && Value(s + [c]) == 10 * Value(s) + DigitValue(c)
  {
    assert (s + [c])[..|s|] == s;
  }

  // Dropping trailing zeros divides by the power of ten.
  lemma {:induction false} ValueOfStripped(s: string)
    requires AllDigits(s)
    ensures AllDigits(RStrip(s, '0'))
    ensures Value(s) == Value(RStrip(s, '0')) * Pow10(|s| - |RStrip(s, '0')|)
  {
    if s != "" && s[|s| - 1] == '0' {
      var t := s[..|s| - 1];
      ValueOfStripped(t);
      assert Value(s) == 10 * Value(t);
      Scale(Value(RStrip(t, '0')), Pow10(|t| - |RStrip(t, '0')|));
    }
  }

  lemma Scale(v: nat, p: nat)
    ensures 10 * (v * p) == v * (10 * p)
  {
  }

  // Stripping stops at a character that is not stripped.
  lemma {:induction false} RStripKeeps(s: string, t: string, c: char)
    requires s != "" && s[|s| - 1] != c
    ensures RStrip(s + t, c) == s + RStrip(t, c)
  {
    if t == "" {
      assert s + t == s;
    } else {
      assert (s + t)[..|s + t| - 1] == s + t[..|t| - 1];
      if t[|t| - 1] == c {
        RStripKeeps(s, t[..|t| - 1], c);
      }
    }
  }

  // The text is sign and whole seconds, unshortened, then the fraction, if any
  // digit of it is left, without its trailing zeros.
  lemma AutoTimestampShape(n: int)
    ensures AutoTimestamp(n)
         == Sign(n) + Body(Decimal(Size(n) / MICROS), RStrip(Digits(Size(n) % MICROS, 6), '0'))
  {
    var whole := Decimal(Size(n) / MICROS);
    assert whole[|whole| - 1] in whole;
    StrippedFixed(Sign(n), whole, Digits(Size(n) % MICROS, 6));
  }

  lemma StrippedFixed(sign: string, digits: string, all: string)
    requires digits != "" && IsDigit(digits[|digits| - 1]) && AllDigits(all)
    ensures RStrip(RStrip(sign + digits + "." + all, '0'), '.') == sign + Body(digits, RStrip(all, '0'))
  {
    var whole, fraction := sign + digits, RStrip(all, '0');
    RStripKeeps(whole + ".", all, '0');
    assert whole[|whole| - 1] == digits[|digits| - 1];
    if fraction == "" {
      LoneDot(whole);
    } else {
      assert fraction[|fraction| - 1] in all;
      DotKept(sign, digits, fraction);
    }
  }

  lemma LoneDot(whole: string)
    requires whole != "" && whole[|whole| - 1] != '.'
    ensures RStrip(whole + "." + "", '.') == whole
  {
    var s := whole + "." + "";
    assert s[|s| - 1] == '.' && s[..|s| - 1] == whole;
  }

  lemma DotKept(sign: string, digits: string, fraction: string)
    requires fraction != "" && fraction[|fraction| - 1] != '.'
    ensures RStrip(sign + digits + "." + fraction, '.') == sign + (digits + ("." + fraction))
  {
    Associate(sign + digits, ".", fraction);
    Associate(sign, digits, "." + fraction);
  }

  lemma DotAt(whole: string, rest: string)
    requires AllDigits(whole) && (rest == "" || rest[0] == '.')
    ensures IndexOf(whole + rest, '.') == |whole|
    ensures (whole + rest)[..|whole|] == whole
  {
    var s := whole + rest;
    assert s[..|whole|] == whole;
    IndexOfIs(s, '.', |whole|);
  }

  lemma UnsignedWhole(whole: string)
    requires AllDigits(whole)
    ensures Unsigned(whole) == FromParts(whole, "")
  {
    DotAt(whole, "");
    assert whole + "" == whole;
  }

  lemma UnsignedParts(whole: string, fraction: string)
    requires AllDigits(whole)
    ensures Unsigned(whole + ("." + fraction)) == FromParts(whole, fraction)
  {
    DotAt(whole, "." + fraction);
    assert (whole + ("." + fraction))[|whole| + 1..] == fraction;
  }

  // The part of the text behind the sign.
  function Body(whole: string, fraction: string): string {
    if fraction == "" then whole else whole + ("." + fraction)
  }

  predicate FractionIs(fraction: string, f: nat) {
    AllDigits(fraction) && |fraction| <= 6 && FractionMillionths(fraction) == f
  }

  lemma FractionValue(f: nat)
    requires f < MICROS
    ensures FractionIs(RStrip(Digits(f, 6), '0'), f)
  {
    assert Pow10(6) == MICROS by { assert Pow10(3) == 1000; }
    ValueOfStripped(Digits(f, 6));
    ValueOfDigits(f, 6);
  }

  lemma UnsignedBody(whole: string, fraction: string, w: nat, f: nat)
    requires whole != "" && AllDigits(whole) && Value(whole) == w
    requires FractionIs(fraction, f)
    ensures var s := Body(whole, fraction); s != "" && s[0] != '-' && Unsigned(s) == Millionths(w * MICROS + f)
  {
    assert whole[0] in whole;
    if fraction == "" {
      UnsignedWhole(whole);
      assert Value(fraction) == 0;
    } else {
      UnsignedParts(whole, fraction);
    }
  }

  // The text denotes exactly n millionths.
  lemma AutoTimestampDenotes(n: int)
    ensures Read(AutoTimestamp(n)) == Millionths(n)
  {
    var w, f := Size(n) / MICROS, Size(n) % MICROS;
    var whole, fraction := Decimal(w), RStrip(Digits(f, 6), '0');
    AutoTimestampShape(n);
    ValueOfDecimal(w);
    FractionValue(f);
    UnsignedBody(whole, fraction, w, f);
    SignedRead(n, Body(whole, fraction));
  }

  lemma SignedRead(n: int, s: string)
    requires s != "" && s[0] != '-' && Unsigned(s) == Millionths(Size(n))
    ensures Read(Sign(n) + s) == Millionths(n)
  {
    if n < 0 {
      assert ("-" + s)[1..] == s;
    } else {
      assert "" + s == s;
    }
  }

  // For every datetime: the text sent for its microseconds denotes exactly
  // these microseconds if and only if they survive conversion and division. c
  // is the converted number of microseconds, d the quotient.
  lemma TimestampExactIff(days: int, seconds: int, microseconds: int, c: real, d: real, n: int) returns (k: nat)
    requires Normalised(seconds, microseconds)
    requires var m := UnixTimeMicros(days, seconds, microseconds);
      -END_SECONDS * MICROS <= m <= END_SECONDS * MICROS && CorrectlyRounded(m as real, c)
    requires CorrectlyRounded(c / MICROS as real, d) && PrintsAs(d, n)
    ensures var m := UnixTimeMicros(days, seconds, microseconds);
      && Abs(c) == k as real && (Size(m) <= 0x20_0000_0000_0000 ==> k == Size(m))
      && (Read(AutoTimestamp(n)) == Millionths(m) <==> Survives(Size(m), k))
  {
    k := PrintedSignedIff(UnixTimeMicros(days, seconds, microseconds), c, d, n);
    AutoTimestampDenotes(n);
  }

  // In particular always up to 2^33 seconds before and after the epoch.
  lemma TimestampExact(days: int, seconds: int, microseconds: int, d: real, n: int)
    requires Normalised(seconds, microseconds)
    requires var m := UnixTimeMicros(days, seconds, microseconds);
      -MAX_SECONDS * MICROS <= m <= MAX_SECONDS * MICROS && CorrectlyRounded(m as real / MICROS as real, d)
    requires PrintsAs(d, n)
    ensures Read(AutoTimestamp(n)) == Millionths(UnixTimeMicros(days, seconds, microseconds))
  {
    PrintedMicrosExact(UnixTimeMicros(days, seconds, microseconds), d, n);
    AutoTimestampDenotes(n);
  }

  // Texts are equal just for equal printed numbers.
  lemma TextDeterminesNumber(n: int, n': int)
    ensures AutoTimestamp(n) == AutoTimestamp(n') <==> n == n'
  {
    AutoTimestampDenotes(n);
    AutoTimestampDenotes(n');
  }

  // So distinct times have distinct texts.
  lemma DistinctTimestamps(m: int, m': int, d: real, d': real, n: int, n': int)
    requires -MAX_SECONDS * MICROS <= m <= MAX_SECONDS * MICROS && -MAX_SECONDS * MICROS <= m' <= MAX_SECONDS * MICROS
    requires CorrectlyRounded(m as real / MICROS as real, d) && PrintsAs(d, n)
    requires CorrectlyRounded(m' as real / MICROS as real, d') && PrintsAs(d', n')
    ensures AutoTimestamp(n) == AutoTimestamp(n') <==> m == m'
  {
    PrintedMicrosExact(m, d, n);
    PrintedMicrosExact(m', d', n');
    TextDeterminesNumber(n, n');
  }

  // And times that survive have other texts than all others that do.
  lemma DistinctSurvivors(m: int, m': int, c: real, c': real, d: real, d': real, n: int, n': int)
    requires -END_SECONDS * MICROS <= m <= END_SECONDS * MICROS && -END_SECONDS * MICROS <= m' <= END_SECONDS * MICROS
    requires CorrectlyRounded(m as real, c) && CorrectlyRounded(c / MICROS as real, d) && PrintsAs(d, n)
    requires CorrectlyRounded(m' as real, c') && CorrectlyRounded(c' / MICROS as real, d') && PrintsAs(d', n')
    requires forall k: nat | Abs(c) == k as real :: Survives(Size(m), k)
    requires forall k: nat | Abs(c') == k as real :: Survives(Size(m'), k)
    ensures AutoTimestamp(n) == AutoTimestamp(n') <==> m == m'
  {
    var k := PrintedSignedIff(m, c, d, n);
    var k' := PrintedSignedIff(m', c', d', n');
    TextDeterminesNumber(n, n');
  }
}

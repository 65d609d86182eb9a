// IEEE doubles as far as auto_timestamp of client_base.py depends on them: an
// integer number of microseconds is converted, divided by 1e6 and printed with
// '%f'. Which microseconds survive is decided for every datetime.
module Doubles {

  const MICROS := 1_000_000

  // The last second up to which all microseconds survive.
  const MAX_SECONDS := 0x2_0000_0000

  // The first second behind the year 9999.
  const END_SECONDS := 253_402_300_800

  function Pow2(n: nat): (p: nat)
    ensures p > 0
  {
    if n == 0 then 1 else 2 * Pow2(n - 1)
  }

  predicate Scaled(d: real, k: int, j: nat) {
    -0x20_0000_0000_0000 <= k <= 0x20_0000_0000_0000
    && ((j <= 1074 && d * Pow2(j) as real == k as real) || (j <= 970 && d == k as real * Pow2(j) as real))
  }

  // A 53-bit integer times a power of two (the binade at the very top left out).
  ghost predicate IsDouble(d: real) {
    exists k: int, j: nat :: Scaled(d, k, j)
  }

  function Abs(x: real): real {
    if x < 0.0 then -x else x
  }

  // d is the result of a correctly rounded operation whose exact result is x.
  ghost predicate CorrectlyRounded(x: real, d: real) {
    IsDouble(d) && forall d': real :: IsDouble(d') ==> Abs(d - x) <= Abs(d' - x)
  }

  // '%f' prints the multiple of 10^-6 nearest to d, the even one of two; n is
  // that many millionths.
  predicate PrintsAs(d: real, n: int) {
    var off := Abs(d * MICROS as real - n as real);
    off < 0.5 || (off == 0.5 && n % 2 == 0)
  }

  lemma PrintsUnique(d: real, n: int, n': int)
    requires PrintsAs(d, n) && PrintsAs(d, n')
    ensures n == n'
  {
    assert -1.0 <= n as real - n' as real <= 1.0;
  }

  // ----- powers of two -----

  lemma {:induction false} PowMonotone(a: nat, b: nat)
    requires a <= b
    ensures Pow2(a) <= Pow2(b)
  {
    if a < b {
      var c: nat := b - 1;
      PowMonotone(a, c);
    }
  }

  lemma Constants()
    ensures Pow2(15) == 0x8000 && Pow2(19) == 0x8_0000 && Pow2(20) == 0x10_0000
    ensures Pow2(16) == 0x1_0000 && Pow2(17) == 0x2_0000 && Pow2(18) == 0x4_0000
    ensures Pow2(33) == 0x2_0000_0000 && Pow2(34) == 0x4_0000_0000 && Pow2(35) == 0x8_0000_0000
    ensures Pow2(36) == 0x10_0000_0000 && Pow2(37) == 0x20_0000_0000 && Pow2(38) == 0x40_0000_0000
    ensures Pow2(52) == 0x10_0000_0000_0000 && Pow2(53) == 0x20_0000_0000_0000
  {
    assert Pow2(5) == 32 && Pow2(10) == 1024;
    assert Pow2(25) == 0x200_0000 && Pow2(30) == 0x4000_0000;
    assert Pow2(42) == 0x400_0000_0000 && Pow2(47) == 0x8000_0000_0000;
  }

  lemma Twice(d: real, p: real, k: real)
    requires d * p == k
    ensures d * (2.0 * p) == 2.0 * k
  {
  }

  lemma NextPower(d: real, k: int, j: nat)
    requires d * Pow2(j) as real == k as real
    ensures d * Pow2(j + 1) as real == (2 * k) as real
  {
    Twice(d, Pow2(j) as real, k as real);
  }

  lemma {:induction false} FineMultiple(d: real, k: int, j: nat, n: nat) returns (q: int)
    requires d * Pow2(j) as real == k as real && j <= n
    ensures d * Pow2(n) as real == q as real
    decreases n - j
  {
    if j == n {
      q := k;
    } else {
      NextPower(d, k, j);
      q := FineMultiple(d, 2 * k, j + 1, n);
    }
  }

  lemma {:induction false} WholeMultiple(k: int, j: nat) returns (q: int)
    ensures k as real * Pow2(j) as real == q as real
  {
    if j == 0 {
      q := k;
    } else {
      var q' := WholeMultiple(k, j - 1);
      Twice(k as real, Pow2(j - 1) as real, q' as real);
      q := 2 * q';
    }
  }

  // ----- the grid of a binade -----

  // The binades in which datetimes lie, by their lowest number lo; doubles in
  // them are multiples of 1 / s.
  predicate Binade(lo: nat, s: nat) {
    || (lo == 0x2_0000_0000 && s == 0x8_0000) || (lo == 0x4_0000_0000 && s == 0x4_0000)
    || (lo == 0x8_0000_0000 && s == 0x2_0000) || (lo == 0x10_0000_0000 && s == 0x1_0000)
    || (lo == 0x20_0000_0000 && s == 0x8000) || (lo == 0x10_0000_0000_0000 && s == 1)
  }

  lemma BinadePowers(lo: nat, s: nat) returns (e: nat)
    requires Binade(lo, s)
    ensures e <= 52 && lo == Pow2(e) && s == Pow2(52 - e) && 2 * s == Pow2(53 - e)
    ensures lo * s == 0x10_0000_0000_0000
  {
    Constants();
    e := if s == 0x8_0000 then 33 else if s == 0x4_0000 then 34 else if s == 0x2_0000 then 35
         else if s == 0x1_0000 then 36 else if s == 0x8000 then 37 else 52;
    assert Pow2(0) == 1 && Pow2(1) == 2;
  }

  lemma Ordered(d: real, p: real, p': real)
    requires d > 0.0 && p <= p'
    ensures d * p <= d * p'
  {
  }

  lemma Cancel(a: real, b: real, p: real)
    requires p > 0.0 && a * p <= b * p
    ensures a <= b
  {
  }

  // A multiple of a finer fraction is too large unless it is lo itself.
  lemma OnlyLowest(d: real, k: int, p: nat, lo: nat, s: nat)
    requires Binade(lo, s) && d >= lo as real && d * p as real == k as real && 2 * s <= p
    requires k <= 0x20_0000_0000_0000
    ensures d == lo as real
  {
    var e := BinadePowers(lo, s);
    Ordered(d, (2 * s) as real, p as real);
    assert lo as real * (2 * s) as real == 9007199254740992.0;
    Cancel(d, lo as real, (2 * s) as real);
  }

  lemma IntTimes(w: int, lo: nat, s: nat)
    requires Binade(lo, s)
    ensures w as real * s as real == (w * s) as real
  {
    if s == 0x8_0000 {
    } else if s == 0x4_0000 {
    } else if s == 0x2_0000 {
    } else if s == 0x1_0000 {
    } else if s == 0x8000 {
    } else {
      assert s == 1;
    }
  }

  lemma FractionOnGrid(d: real, k: int, j: nat, lo: nat, s: nat) returns (q: int)
    requires Binade(lo, s) && d >= lo as real && d * Pow2(j) as real == k as real && k <= 0x20_0000_0000_0000
    ensures d * s as real == q as real
  {
    var e := BinadePowers(lo, s);
    if j <= 52 - e {
      q := FineMultiple(d, k, j, 52 - e);
    } else {
      PowMonotone(53 - e, j);
      OnlyLowest(d, k, Pow2(j), lo, s);
      IntTimes(lo, lo, s);
      q := lo * s;
    }
  }

  // A double is a fraction or an integer.
  lemma DoubleKind(d: real) returns (fraction: bool, k: int, j: nat)
    requires IsDouble(d)
    ensures fraction ==> d * Pow2(j) as real == k as real && k <= 0x20_0000_0000_0000
    ensures !fraction ==> d == k as real
  {
    k, j :| Scaled(d, k, j);
    fraction := d * Pow2(j) as real == k as real;
    if !fraction {
      k := WholeMultiple(k, j);
    }
  }

  lemma AboveOnGrid(d: real, lo: nat, s: nat) returns (q: int)
    requires Binade(lo, s) && IsDouble(d) && d >= lo as real
    ensures d * s as real == q as real
  {
    var fraction, k, j := DoubleKind(d);
    if fraction {
      q := FractionOnGrid(d, k, j, lo, s);
    } else {
      IntTimes(k, lo, s);
      q := k * s;
    }
  }

  lemma GridIsDouble(d: real, lo: nat, s: nat, q: int)
    requires Binade(lo, s) && d * s as real == q as real
    requires 0 <= q <= 0x20_0000_0000_0000
    ensures IsDouble(d)
  {
    var e := BinadePowers(lo, s);
    assert Scaled(d, q, 52 - e);
  }

  lemma IntIsDouble(k: int)
    requires -0x20_0000_0000_0000 <= k <= 0x20_0000_0000_0000
    ensures IsDouble(k as real)
  {
    assert Pow2(0) == 1;
    assert Scaled(k as real, k, 0);
  }

  lemma RoundedNotBelow(x: real, d: real, lo: nat, s: nat)
    requires Binade(lo, s) && x >= lo as real && CorrectlyRounded(x, d)
    ensures d >= lo as real
  {
    IntIsDouble(lo);
  }

  // The rounded result is the point of the grid next to x.
  lemma NearestOnGrid(x: real, y: real, d: real, lo: nat, s: nat, q: int)
    requires Binade(lo, s) && x >= lo as real && y == x * s as real && CorrectlyRounded(x, d)
    requires 0 <= q <= 0x20_0000_0000_0000 && Abs(q as real - y) < 0.5
    ensures d * s as real == q as real
  {
    var q' := RoundedOnGrid(x, d, lo, s);
    NearestPoint(x, y, d, lo, s, q', q);
  }

  lemma NearestPoint(x: real, y: real, d: real, lo: nat, s: nat, q': int, q: int)
    requires Binade(lo, s) && y == x * s as real && CorrectlyRounded(x, d) && d * s as real == q' as real
    requires 0 <= q <= 0x20_0000_0000_0000 && Abs(q as real - y) < 0.5
    ensures q' == q
  {
    var dq := GridPoint(lo, s, q);
    Closer(x, d, dq);
    SamePoint(x, y, d, dq, s as real, q', q);
  }

  lemma SamePoint(x: real, y: real, d: real, d': real, s: real, q: int, q': int)
    requires s > 0.0 && Abs(d - x) <= Abs(d' - x)
    requires d * s == q as real && d' * s == q' as real && y == x * s && Abs(q' as real - y) < 0.5
    ensures q == q'
  {
    Scale(d, d', x, s, q as real, q' as real, y);
    NearestInt(q, q', y);
  }

  lemma RoundedOnGrid(x: real, d: real, lo: nat, s: nat) returns (q: int)
    requires Binade(lo, s) && x >= lo as real && CorrectlyRounded(x, d)
    ensures d * s as real == q as real
  {
    RoundedNotBelow(x, d, lo, s);
    q := AboveOnGrid(d, lo, s);
  }

  lemma Closer(x: real, d: real, d': real)
    requires CorrectlyRounded(x, d) && IsDouble(d')
    ensures Abs(d - x) <= Abs(d' - x)
  {
  }

  lemma GridPoint(lo: nat, s: nat, q: int) returns (d: real)
    requires Binade(lo, s) && 0 <= q <= 0x20_0000_0000_0000
    ensures IsDouble(d) && d * s as real == q as real
  {
    d := q as real / s as real;
    Quotient(q as real, s as real);
    GridIsDouble(d, lo, s, q);
  }

  lemma Quotient(a: real, b: real)
    requires b > 0.0
    ensures a / b * b == a
  {
  }

  lemma NearestInt(q': int, q: int, y: real)
    requires Abs(q' as real - y) <= Abs(q as real - y) < 0.5
    ensures q' == q
  {
  }

  lemma Scale(d: real, d': real, x: real, s: real, a: real, a': real, y: real)
    requires s > 0.0 && Abs(d - x) <= Abs(d' - x)
    requires a == d * s && a' == d' * s && y == x * s
    ensures Abs(a - y) <= Abs(a' - y)
  {
    ScaleAbs(d, x, s);
    ScaleAbs(d', x, s);
    Larger(s, Abs(d - x), Abs(d' - x));
  }

  lemma Larger(s: real, a: real, b: real)
    requires s > 0.0 && a <= b
    ensures s * a <= s * b
  {
  }

  lemma ScaleAbs(d: real, x: real, s: real)
    requires s > 0.0
    ensures Abs(d * s - x * s) == s * Abs(d - x)
  {
    assert d * s - x * s == (d - x) * s;
  }

  // ----- the division -----

  // The point of the grid, in units of 1 / s, next to m microseconds.
  function GridQuotient(m: nat, s: nat): nat {
    (m * s + 500_000) / MICROS
  }

  // No quotient lies halfway between two points: 2^6 divides s and 10^6.
  lemma NoTie(m: nat, lo: nat, s: nat)
    requires Binade(lo, s) && s >= 0x8000
    ensures (m * s) % MICROS != 500_000
  {
    var t := s / 64;
    assert s == 64 * t;
    SixtyFourth(m * t);
    assert m * s == 64 * (m * t);
  }

  lemma SixtyFourth(t: nat)
    ensures (64 * t) % MICROS != 500_000
  {
  }

  lemma GridQuotientNear(m: nat, lo: nat, s: nat)
    requires Binade(lo, s) && s >= 0x8000
    ensures var off := GridQuotient(m, s) * MICROS - m * s; -500_000 < off < 500_000
  {
    NoTie(m, lo, s);
    RoundedNear(m * s);
  }

  lemma RoundedNear(t: nat)
    requires t % MICROS != 500_000
    ensures var off := (t + 500_000) / MICROS * MICROS - t; -500_000 < off < 500_000
  {
  }

  lemma Divided(m: nat, lo: nat, s: nat) returns (x: real, y: real)
    requires Binade(lo, s)
    ensures x == m as real / MICROS as real && y == x * s as real && y * 1000000.0 == (m * s) as real
  {
    x := m as real / MICROS as real;
    y := x * s as real;
    IntTimes(m, lo, s);
    Swap(x, s as real, m as real);
  }

  lemma Swap(x: real, s: real, m: real)
    requires x * 1000000.0 == m
    ensures (x * s) * 1000000.0 == m * s
  {
  }

  lemma QuotientBounds(m: nat, lo: nat, s: nat)
    requires Binade(lo, s) && s >= 0x8000 && lo * MICROS <= m <= 2 * lo * MICROS
    ensures GridQuotient(m, s) <= 0x20_0000_0000_0000
  {
    if s == 0x8_0000 {
    } else if s == 0x4_0000 {
    } else if s == 0x2_0000 {
    } else if s == 0x1_0000 {
    } else {
      assert s == 0x8000;
    }
  }

  lemma QuotientOnGrid(m: nat, d: real, lo: nat, s: nat)
    requires Binade(lo, s) && s >= 0x8000 && lo * MICROS <= m <= 2 * lo * MICROS
    requires CorrectlyRounded(m as real / MICROS as real, d)
    ensures d * s as real == GridQuotient(m, s) as real
  {
    var q := GridQuotient(m, s);
    var x, y := Divided(m, lo, s);
    GridQuotientNear(m, lo, s);
    QuotientBounds(m, lo, s);
    assert Abs(q as real - y) < 0.5 by {
      assert (q as real - y) * 1000000.0 == (q * MICROS - m * s) as real;
    }
    assert x >= lo as real;
    NearestOnGrid(x, y, d, lo, s, q);
  }

  // ----- the printed number -----

  function Size(n: int): nat {
    if n < 0 then 0 - n else n
  }

  // n is the multiple of 10^-6 next to q / s.
  predicate PrintsGrid(q: int, s: nat, n: int) {
    var off := Size(q * MICROS - n * s);
    2 * off < s || (2 * off == s && n % 2 == 0)
  }

  lemma PrintsIff(d: real, q: int, lo: nat, s: nat, n: int)
    requires Binade(lo, s) && d * s as real == q as real
    ensures PrintsAs(d, n) == PrintsGrid(q, s, n)
  {
    var e := q * MICROS - n * s;
    PrintError(d, q, lo, s, n, e);
    ErrorDecides(Abs(d * MICROS as real - n as real), e, lo, s, n);
  }

  lemma ErrorDecides(off: real, e: int, lo: nat, s: nat, n: int)
    requires Binade(lo, s) && s as real * off == Abs(e as real)
    ensures (off < 0.5 || (off == 0.5 && n % 2 == 0)) == (2 * Size(e) < s || (2 * Size(e) == s && n % 2 == 0))
  {
    ErrorPrints(off, e, s, n);
  }

  lemma PrintError(d: real, q: int, lo: nat, s: nat, n: int, e: int)
    requires Binade(lo, s) && d * s as real == q as real && e == q * MICROS - n * s
    ensures s as real * Abs(d * MICROS as real - n as real) == Abs(e as real)
  {
    IntTimes(n, lo, s);
    Swap'(d, s as real, q as real);
    OffTimes(d * MICROS as real, n as real, s as real, e as real);
  }

  lemma ErrorPrints(off: real, e: int, s: nat, n: int)
    requires s > 0 && s as real * off == Abs(e as real)
    ensures (off < 0.5 || (off == 0.5 && n % 2 == 0)) == (2 * Size(e) < s || (2 * Size(e) == s && n % 2 == 0))
  {
    HalfOf(s as real, off, Abs(e as real));
  }

  lemma OffTimes(a: real, n: real, s: real, e: real)
    requires s > 0.0 && e == a * s - n * s
    ensures s * Abs(a - n) == Abs(e)
  {
    ScaleAbs(a, n, s);
  }

  lemma Swap'(d: real, s: real, q: real)
    requires d * s == q
    ensures (d * 1000000.0) * s == q * 1000000.0
  {
  }

  lemma HalfOf(s: real, off: real, t: real)
    requires s > 0.0 && s * off == t
    ensures (off < 0.5) == (2.0 * t < s) && (off == 0.5) == (2.0 * t == s)
  {
  }

  // ----- exactly which microseconds survive -----

  // m microseconds, of which the conversion made the double c: the printed
  // number is m again.
  predicate SurvivesOn(m: nat, c: nat, s: nat) {
    PrintsGrid(GridQuotient(c, s), s, m)
  }

  lemma PrintedOnGridIff(m: nat, c: nat, d: real, n: int, lo: nat, s: nat)
    requires Binade(lo, s) && s >= 0x8000 && lo * MICROS <= c <= 2 * lo * MICROS
    requires CorrectlyRounded(c as real / MICROS as real, d) && PrintsAs(d, n)
    ensures n == m <==> SurvivesOn(m, c, s)
  {
    QuotientOnGrid(c, d, lo, s);
    PrintsIff(d, GridQuotient(c, s), lo, s, m);
    if PrintsAs(d, m) {
      PrintsUnique(d, n, m);
    }
  }

  // ----- up to 2^33 seconds -----

  // Up to MAX_SECONDS there is a double within 2^-21 of every number.
  lemma DoubleNearby(x: real) returns (d: real)
    requires Abs(x) <= MAX_SECONDS as real
    ensures IsDouble(d) && Abs(d - x) * 2097152.0 <= 1.0
  {
    var k := (x * 1048576.0 + 0.5).Floor;
    d := k as real / 1048576.0;
    Constants();
    assert d * 1048576.0 == k as real;
    assert Scaled(d, k, 20);
  }

  // The printed number is exactly the number of microseconds.
  lemma PrintedMicrosExact(m: int, d: real, n: int)
    requires -MAX_SECONDS * MICROS <= m <= MAX_SECONDS * MICROS
    requires CorrectlyRounded(m as real / MICROS as real, d) && PrintsAs(d, n)
    ensures n == m
  {
    var x := m as real / MICROS as real;
    assert x * MICROS as real == m as real;
    var d' := DoubleNearby(x);
    assert Abs(d - x) * 2097152.0 <= 1.0;
    assert Abs((d - x) * MICROS as real) < 0.5;
  }

  // ----- every datetime -----

  // The conversion to a double changes no number up to 2^53.
  lemma ConvertExact(m: int, c: real)
    requires -0x20_0000_0000_0000 <= m <= 0x20_0000_0000_0000 && CorrectlyRounded(m as real, c)
    ensures c == m as real
  {
    IntIsDouble(m);
    Closer(m as real, c, m as real);
  }

  lemma EndIsDouble()
    ensures IsDouble((END_SECONDS * MICROS) as real)
  {
    var k := END_SECONDS * 15625;
    assert Pow2(6) == 64;
    assert Scaled((END_SECONDS * MICROS) as real, k, 6);
  }

  // And it always yields an integer.
  lemma ConvertedInt(m: nat, c: real) returns (k: nat)
    requires m <= END_SECONDS * MICROS && CorrectlyRounded(m as real, c)
    ensures c == k as real && k <= END_SECONDS * MICROS
    ensures if m <= 0x20_0000_0000_0000 then k == m else k >= 0x20_0000_0000_0000
  {
    if m <= 0x20_0000_0000_0000 {
      ConvertExact(m, c);
      k := m;
    } else {
      var q := RoundedOnGrid(m as real, c, 0x10_0000_0000_0000, 1);
      IntIsDouble(0x20_0000_0000_0000);
      Closer(m as real, c, 9007199254740992.0);
      EndIsDouble();
      Closer(m as real, c, (END_SECONDS * MICROS) as real);
      assert c == q as real;
      k := q;
    }
  }

  // How many doubles lie in a second at c microseconds.
  function PerSecond(c: nat): nat {
    if c < 0x4_0000_0000 * MICROS then 0x8_0000
    else if c < 0x8_0000_0000 * MICROS then 0x4_0000
    else if c < 0x10_0000_0000 * MICROS then 0x2_0000
    else if c < 0x20_0000_0000 * MICROS then 0x1_0000
    else 0x8000
  }

  // m microseconds, converted to c, are printed as m.
  predicate Survives(m: nat, c: nat) {
    m <= MAX_SECONDS * MICROS || SurvivesOn(m, c, PerSecond(c))
  }

  lemma BinadeOf(c: nat) returns (lo: nat)
    requires MAX_SECONDS * MICROS <= c <= END_SECONDS * MICROS
    ensures Binade(lo, PerSecond(c)) && PerSecond(c) >= 0x8000 && lo * MICROS <= c <= 2 * lo * MICROS
  {
    lo := if c < 0x4_0000_0000 * MICROS then 0x2_0000_0000
          else if c < 0x8_0000_0000 * MICROS then 0x4_0000_0000
          else if c < 0x10_0000_0000 * MICROS then 0x8_0000_0000
          else if c < 0x20_0000_0000 * MICROS then 0x10_0000_0000
          else 0x20_0000_0000;
  }

  lemma PrintedIff(m: nat, c: real, d: real, n: int) returns (k: nat)
    requires m <= END_SECONDS * MICROS && CorrectlyRounded(m as real, c)
    requires CorrectlyRounded(c / MICROS as real, d) && PrintsAs(d, n)
    ensures c == k as real && (m <= 0x20_0000_0000_0000 ==> k == m)
    ensures n == m <==> Survives(m, k)
  {
    k := ConvertedInt(m, c);
    if m <= MAX_SECONDS * MICROS {
      PrintedMicrosExact(m, d, n);
    } else {
      var lo := BinadeOf(k);
      PrintedOnGridIff(m, k, d, n, lo, PerSecond(k));
    }
  }

  // ----- negative numbers -----

  lemma DoubleNegated(d: real)
    requires IsDouble(d)
    ensures IsDouble(-d)
  {
    var k: int, j: nat :| Scaled(d, k, j);
    assert Scaled(-d, -k, j) by {
      Negated(d, Pow2(j) as real);
      Negated(k as real, Pow2(j) as real);
    }
  }

  lemma Negated(a: real, b: real)
    ensures (-a) * b == -(a * b)
  {
  }

  lemma RoundedNegated(x: real, d: real)
    requires CorrectlyRounded(x, d)
    ensures CorrectlyRounded(-x, -d)
  {
    DoubleNegated(d);
    forall d': real | IsDouble(d') ensures Abs(-d - -x) <= Abs(d' - -x) {
      DoubleNegated(d');
      Closer(x, d, -d');
    }
  }

  // For every datetime, before or after the epoch: exactly when the printed
  // number is the number of microseconds. The conversion of the integer to a
  // double, c, is modelled too; it only matters above 2^53.
  lemma PrintedSignedIff(m: int, c: real, d: real, n: int) returns (k: nat)
    requires -END_SECONDS * MICROS <= m <= END_SECONDS * MICROS && CorrectlyRounded(m as real, c)
    requires CorrectlyRounded(c / MICROS as real, d) && PrintsAs(d, n)
    ensures Abs(c) == k as real && (Size(m) <= 0x20_0000_0000_0000 ==> k == Size(m))
    ensures n == m <==> Survives(Size(m), k)
  {
    if m >= 0 {
      k := PrintedIff(m, c, d, n);
    } else {
      RoundedNegated(m as real, c);
      NegatedDivision(c, d);
      PrintsNegated(d, n);
      k := PrintedIff(-m, -c, -d, -n);
    }
  }

  lemma NegatedDivision(c: real, d: real)
    requires CorrectlyRounded(c / MICROS as real, d)
    ensures CorrectlyRounded((-c) / MICROS as real, -d)
  {
    RoundedNegated(c / MICROS as real, d);
    NegatedQuotient(c);
  }

  lemma NegatedQuotient(c: real)
    ensures -(c / MICROS as real) == (-c) / MICROS as real
  {
  }

  lemma PrintsNegated(d: real, n: int)
    requires PrintsAs(d, n)
    ensures PrintsAs(-d, -n)
  {
  }

  // ----- the condition in other words -----

  // Between 2^33 seconds and 2^53 microseconds: the microseconds, counted in
  // units of 2^-19 seconds, are close to whole such units.
  lemma SurvivesBelow(m: nat)
    requires MAX_SECONDS * MICROS < m <= 0x20_0000_0000_0000
    ensures var off := m * 0x8_0000 % MICROS;
      Survives(m, m) <==> off < 262144 || off > 737856 || ((off == 262144 || off == 737856) && m % 2 == 0)
  {
    RoundingError(m * 0x8_0000);
  }

  lemma RoundingError(t: nat)
    ensures var off := t % MICROS;
      (t + 500_000) / MICROS * MICROS - t == if off < 500_000 then 0 - off else MICROS - off
  {
  }

  // Whole seconds survive in every year.
  lemma WholeSecondsSurvive(seconds: nat, c: real, d: real, n: int)
    requires seconds <= END_SECONDS && CorrectlyRounded((seconds * MICROS) as real, c)
    requires CorrectlyRounded(c / MICROS as real, d) && PrintsAs(d, n)
    ensures n == seconds * MICROS
  {
    IntIsDouble(seconds);
    WholeIsDouble(seconds);
    Closer((seconds * MICROS) as real, c, (seconds * MICROS) as real);
    Closer(c / MICROS as real, d, seconds as real);
    assert PrintsAs(d, seconds * MICROS);
    PrintsUnique(d, n, seconds * MICROS);
  }

  lemma WholeIsDouble(seconds: nat)
    requires seconds <= END_SECONDS
    ensures IsDouble((seconds * MICROS) as real)
  {
    assert Pow2(6) == 64;
    assert Scaled((seconds * MICROS) as real, seconds * 15625, 6);
  }

  // The first microsecond behind the bound is lost.
  lemma BoundIsTight(c: real, d: real, n: int)
    requires CorrectlyRounded((MAX_SECONDS * MICROS + 1) as real, c)
    requires CorrectlyRounded(c / MICROS as real, d) && PrintsAs(d, n)
    ensures n != MAX_SECONDS * MICROS + 1
  {
    var m := MAX_SECONDS * MICROS + 1;
    var k := PrintedIff(m, c, d, n);
    SurvivesBelow(m);
  }
}

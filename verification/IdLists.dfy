// The list of node ids in a whitelist command, read with strtoll as
// send_whitelist of byteport-stomp-client.c does.
module IdLists {
  import opened Packets
  import opened CStrings

  // ----- strtoll with base 0 -----

  const LLONG_MAX := 0x7fff_ffff_ffff_ffff

  function HexValue(c: char): (v: int)
    ensures -1 <= v < 16
  {
    if '0' <= c <= '9' then c as int - '0' as int
    else if 'a' <= c <= 'f' then c as int - 'a' as int + 10
    else if 'A' <= c <= 'F' then c as int - 'A' as int + 10
    else -1
  }

  predicate IsDigitOf(c: char, base: nat) {
    0 <= HexValue(c) < base
  }

  // The leading digits and what follows them.
  function SpanDigits(s: string, base: nat): (n: nat)
    ensures n <= |s|
  {
    if s == "" || !IsDigitOf(s[0], base) then 0 else 1 + SpanDigits(s[1..], base)
  }

  function DigitsValue(s: string, base: nat): nat {
    if s == "" then 0
    else base * DigitsValue(s[..|s| - 1], base) + if HexValue(s[|s| - 1]) >= 0 then HexValue(s[|s| - 1]) else 0
  }

  function SkipSpaces(s: string): (r: string)
    ensures |r| <= |s|
  {
    if s != "" && IsSpace(s[0]) then SkipSpaces(s[1..]) else s
  }

  function Base(s: string): nat {
    if |s| >= 3 && s[0] == '0' && (s[1] == 'x' || s[1] == 'X') && IsDigitOf(s[2], 16) then 16
    else if s != "" && s[0] == '0' then 8
    else 10
  }

  function Saturated(n: nat, negative: bool): int {
    if negative then (if n > LLONG_MAX + 1 then 0 - LLONG_MAX - 1 else 0 - n)
    else if n > LLONG_MAX then LLONG_MAX else n
  }

  // The value and the rest of the string; 0 and the string itself without digits.
  function StrToLL(s: string): (r: (int, string))
    ensures r.0 != 0 ==> |r.1| < |s|
  {
    var t := SkipSpaces(s);
    var signed := t != "" && (t[0] == '-' || t[0] == '+');
    var u := if signed then t[1..] else t;
    var base := Base(u);
    var d := if base == 16 then u[2..] else u;
    var n := SpanDigits(d, base);
    if n == 0 then (0, s)
    else (Saturated(DigitsValue(d[..n], base), signed && t[0] == '-'), d[n..])
  }

  // ----- the list of node ids in a whitelist command -----

  function SkipSeparators(s: string): (r: string)
    ensures |r| <= |s|
  {
    if s != "" && (s[0] == ' ' || s[0] == ',') then SkipSeparators(s[1..]) else s
  }

  // The ids up to the end or to the first that is 0 (or not a number at all).
  function ParsedIds(s: string): seq<uint64>
    decreases |s|
  {
    var (value, rest) := StrToLL(s);
    if s == "" || value == 0 then []
    else [value % 0x1_0000_0000_0000_0000] + ParsedIds(SkipSeparators(rest))
  }

  // No such id makes the client ignore the list.
  predicate AllValid(s: string)
    decreases |s|
  {
    var (value, rest) := StrToLL(s);
    s == "" || (value != 0 && AllValid(SkipSeparators(rest)))
  }

  function HexDigit(n: nat): (c: char)
    requires n < 16
    ensures c == "0123456789abcdef"[n] && HexValue(c) == n
  {
    if n < 10 then '0' + (n as char) else 'a' + ((n - 10) as char)
  }

  function UpperDigit(n: nat): (c: char)
    requires n < 16
    ensures c == "0123456789ABCDEF"[n] && HexValue(c) == n
  {
    if n < 10 then '0' + (n as char) else 'A' + ((n - 10) as char)
  }

  function Hex(n: nat, upper: bool): (s: string)
    ensures s != "" && forall c | c in s :: IsDigitOf(c, 16)
  {
    var last := if upper then UpperDigit(n % 16) else HexDigit(n % 16);
    if n < 16 then [last] else Hex(n / 16, upper) + [last]
  }

  function Oct(n: nat): (s: string)
    ensures s != "" && forall c | c in s :: IsDigitOf(c, 8)
  {
    if n < 8 then [Digit(n)] else Oct(n / 8) + [Digit(n % 8)]
  }

  // The ways to write an id: 0x1f, 0X1F, 037 and 31.
  datatype Style = LowerHex | UpperHex | Octal | Plain

  function Numeral(n: nat, style: Style): (s: string)
    ensures s != ""
  {
    match style
    case LowerHex => "0x" + Hex(n, false)
    case UpperHex => "0X" + Hex(n, true)
    case Octal => "0" + Oct(n)
    case Plain => Decimal(n)
  }

  // "0x12, 0x34"
  function PrintIds(ids: seq<uint64>): string {
    if ids == [] then ""
    else Numeral(ids[0], LowerHex) + if |ids| == 1 then "" else ", " + PrintIds(ids[1..])
  }

  // What arrives of an id: strtoll is signed and saturates.
  function Clamped(id: uint64): uint64 {
    if id > LLONG_MAX then LLONG_MAX else id
  }

  function ClampedAll(ids: seq<uint64>): (r: seq<uint64>)
    ensures |r| == |ids| && forall i | 0 <= i < |ids| :: r[i] == Clamped(ids[i])
  {
    seq(|ids|, i requires 0 <= i < |ids| => Clamped(ids[i]))
  }

  // ----- one number -----

  lemma ValueSnoc(s: string, c: char, base: nat)
    requires HexValue(c) >= 0
    ensures DigitsValue(s + [c], base) == base * DigitsValue(s, base) + HexValue(c)
  {
    assert (s + [c])[..|s|] == s;
  }

  lemma OneDigit(c: char, base: nat)
    requires HexValue(c) >= 0
    ensures DigitsValue([c], base) == HexValue(c)
  {
    assert [c][..0] == "";
  }

  lemma {:induction false} ValueOfHex(n: nat, upper: bool)
    ensures DigitsValue(Hex(n, upper), 16) == n
  {
    var last := if upper then UpperDigit(n % 16) else HexDigit(n % 16);
    if n < 16 {
      OneDigit(last, 16);
    } else {
      ValueOfHex(n / 16, upper);
      ValueSnoc(Hex(n / 16, upper), last, 16);
    }
  }

  lemma {:induction false} ValueOfOct(n: nat)
    ensures DigitsValue(Oct(n), 8) == n
  {
    if n < 8 {
      OneDigit(Digit(n), 8);
    } else {
      ValueOfOct(n / 8);
      ValueSnoc(Oct(n / 8), Digit(n % 8), 8);
    }
  }

  lemma {:induction false} ValueOfPlain(n: nat)
    ensures DigitsValue(Decimal(n), 10) == n
  {
    if n < 10 {
      OneDigit(Digit(n), 10);
    } else {
      ValueOfPlain(n / 10);
      ValueSnoc(Decimal(n / 10), Digit(n % 10), 10);
    }
  }

  lemma {:induction false} LeadingZero(s: string, base: nat)
    ensures DigitsValue("0" + s, base) == DigitsValue(s, base)
  {
    var t := "0" + s;
    if s == "" {
      assert t[..0] == "";
    } else {
      assert t[..|t| - 1] == "0" + s[..|s| - 1];
      LeadingZero(s[..|s| - 1], base);
    }
  }

  lemma {:induction false} FirstDigit(n: nat)
    requires n > 0
    ensures Decimal(n)[0] != '0'
  {
    if n >= 10 {
      FirstDigit(n / 10);
    }
  }

  lemma {:induction false} DecimalDigits(n: nat)
    ensures forall c | c in Decimal(n) :: IsDigitOf(c, 10)
  {
  }

  lemma {:induction false} SpanOfDigits(d: string, rest: string, base: nat)
    requires forall c | c in d :: IsDigitOf(c, base)
    requires rest == "" || !IsDigitOf(rest[0], base)
    ensures SpanDigits(d + rest, base) == |d|
  {
    if d == "" {
      assert d + rest == rest;
    } else {
      assert (d + rest)[1..] == d[1..] + rest && d[0] in d;
      SpanOfDigits(d[1..], rest, base);
    }
  }

  // The digits that strtoll reads of a numeral, and its base.
  function Prefix(style: Style): string {
    match style
    case LowerHex => "0x"
    case UpperHex => "0X"
    case Octal => ""
    case Plain => ""
  }

  function BaseOf(style: Style): (base: nat)
    ensures base == 8 || base == 10 || base == 16
  {
    match style
    case LowerHex => 16
    case UpperHex => 16
    case Octal => 8
    case Plain => 10
  }

  function DigitsOf(n: nat, style: Style): (d: string)
    ensures d != "" && forall c | c in d :: IsDigitOf(c, BaseOf(style))
    ensures Numeral(n, style) == Prefix(style) + d
  {
    match style
    case LowerHex => Hex(n, false)
    case UpperHex => Hex(n, true)
    case Octal => "0" + Oct(n)
    case Plain =>
      DecimalDigits(n);
      Decimal(n)
  }

  lemma DigitsOfValue(n: nat, style: Style)
    ensures DigitsValue(DigitsOf(n, style), BaseOf(style)) == n
  {
    match style
    case LowerHex => ValueOfHex(n, false);
    case UpperHex => ValueOfHex(n, true);
    case Octal =>
      ValueOfOct(n);
      LeadingZero(Oct(n), 8);
    case Plain => ValueOfPlain(n);
  }

  // No digit in any base.
  predicate Ends(rest: string) {
    rest == "" || HexValue(rest[0]) < 0
  }

  lemma BaseOfHex(d: string, rest: string, x: char)
    requires d != "" && IsDigitOf(d[0], 16) && (x == 'x' || x == 'X')
    ensures Base(['0', x] + d + rest) == 16
  {
    var s := ['0', x] + d + rest;
    assert s[0] == '0' && s[1] == x && s[2] == d[0];
  }

  lemma BaseOfOct(d: string, rest: string)
    requires d != "" && IsDigitOf(d[0], 8)
    ensures Base("0" + d + rest) == 8
  {
    var s := "0" + d + rest;
    assert s[0] == '0' && s[1] == d[0];
  }

  lemma BaseFound(n: nat, style: Style, rest: string)
    requires Ends(rest) && n > 0
    requires style == Octal || style == Plain ==> rest == "" || (rest[0] != 'x' && rest[0] != 'X')
    ensures Base(Numeral(n, style) + rest) == BaseOf(style)
  {
    match style
    case LowerHex =>
      assert Hex(n, false)[0] in Hex(n, false);
      BaseOfHex(Hex(n, false), rest, 'x');
    case UpperHex =>
      assert Hex(n, true)[0] in Hex(n, true);
      BaseOfHex(Hex(n, true), rest, 'X');
    case Octal =>
      assert Oct(n)[0] in Oct(n);
      BaseOfOct(Oct(n), rest);
    case Plain =>
      FirstDigit(n);
      assert (Decimal(n) + rest)[0] == Decimal(n)[0];
  }

  predicate AllSpaces(s: string) {
    forall c | c in s :: IsSpace(c)
  }

  lemma {:induction false} SpacesSkipped(spaces: string, s: string)
    requires AllSpaces(spaces) && (s == "" || !IsSpace(s[0]))
    ensures SkipSpaces(spaces + s) == s
  {
    if spaces == "" {
      assert spaces + s == s;
    } else {
      assert spaces[0] in spaces && (spaces + s)[1..] == spaces[1..] + s;
      SpacesSkipped(spaces[1..], s);
    }
  }

  lemma NumeralStart(n: nat, style: Style, rest: string)
    ensures var c := (Numeral(n, style) + rest)[0]; !IsSpace(c) && c != '-' && c != '+'
  {
    var d := DigitsOf(n, style);
    assert d[0] in d;
    assert style == Plain || style == Octal ==> (Numeral(n, style) + rest)[0] == d[0];
  }

  // Spaces, a sign and a numeral: the number, cut to the signed 64-bit range,
  // and what follows it.
  lemma StrToLLOf(spaces: string, sign: string, n: nat, style: Style, rest: string)
    requires AllSpaces(spaces) && (sign == "" || sign == "+" || sign == "-") && n > 0
    requires rest == "" || (HexValue(rest[0]) < 0 && rest[0] != 'x' && rest[0] != 'X')
    ensures StrToLL(spaces + (sign + (Numeral(n, style) + rest)))
         == (if sign == "-" then (if n > 0x8000_0000_0000_0000 then -0x8000_0000_0000_0000 else 0 - n)
             else if n > 0x7fff_ffff_ffff_ffff then 0x7fff_ffff_ffff_ffff else n, rest)
  {
    var u := Numeral(n, style) + rest;
    var t := sign + u;
    NumeralStart(n, style, rest);
    SpacesSkipped(spaces, t);
    SignedRead(sign, u);
    BaseFound(n, style, rest);
    NumeralRead(n, style, rest);
    UnsignedRead(spaces + t, t, u, sign == "-", BaseOf(style), n, rest);
  }

  lemma SignedRead(sign: string, u: string)
    requires (sign == "" || sign == "+" || sign == "-") && u != "" && u[0] != '-' && u[0] != '+'
    ensures var t := sign + u; var signed := t[0] == '-' || t[0] == '+';
      (if signed then t[1..] else t) == u && (signed && t[0] == '-') == (sign == "-")
  {
    assert sign != "" ==> (sign + u)[0] == sign[0] && (sign + u)[1..] == u;
    assert sign == "" ==> sign + u == u;
  }

  // strtoll behind spaces and sign.
  lemma UnsignedRead(s: string, t: string, u: string, negative: bool, base: nat, n: nat, rest: string)
    requires SkipSpaces(s) == t && t != "" && Base(u) == base
    requires var signed := t[0] == '-' || t[0] == '+';
      (if signed then t[1..] else t) == u && (signed && t[0] == '-') == negative
    requires var d := if base == 16 then u[2..] else u; var k := SpanDigits(d, base);
      k > 0 && DigitsValue(d[..k], base) == n && d[k..] == rest
    ensures StrToLL(s) == (Saturated(n, negative), rest)
  {
  }

  lemma NumeralRead(n: nat, style: Style, rest: string)
    requires n > 0 && Ends(rest)
    ensures var u, base := Numeral(n, style) + rest, BaseOf(style);
      var d := if base == 16 then u[2..] else u;
      var k := SpanDigits(d, base);
      k > 0 && DigitsValue(d[..k], base) == n && d[k..] == rest
  {
    var d := DigitsOf(n, style);
    assert (Prefix(style) + d + rest)[|Prefix(style)|..] == d + rest;
    SpanOfDigits(d, rest, BaseOf(style));
    DigitsOfValue(n, style);
    assert (d + rest)[..|d|] == d && (d + rest)[|d|..] == rest;
  }

  // ----- a list of them -----

  // An id, as it is written, and the separators behind it.
  datatype Item = Item(id: uint64, style: Style, gap: string)

  predicate Separators(s: string) {
    forall c | c in s :: c == ' ' || c == ','
  }

  // Only behind the last id there need not be a separator.
  predicate Separated(items: seq<Item>) {
    forall i | 0 <= i < |items| :: Separators(items[i].gap) && (i < |items| - 1 ==> items[i].gap != "")
  }

  function ListText(items: seq<Item>): string {
    if items == [] then "" else Numeral(items[0].id, items[0].style) + (items[0].gap + ListText(items[1..]))
  }

  function Ids(items: seq<Item>): (r: seq<uint64>)
    ensures |r| == |items| && forall i | 0 <= i < |r| :: r[i] == items[i].id
  {
    seq(|items|, i requires 0 <= i < |items| => items[i].id)
  }

  lemma {:induction false} GapSkipped(gap: string, s: string)
    requires Separators(gap) && (s == "" || (s[0] != ' ' && s[0] != ','))
    ensures SkipSeparators(gap + s) == s
  {
    if gap == "" {
      assert gap + s == s;
    } else {
      assert gap[0] in gap && (gap + s)[1..] == gap[1..] + s;
      assert forall c | c in gap[1..] :: c in gap;
      GapSkipped(gap[1..], s);
    }
  }

  predicate ParsesTo(s: string, ids: seq<uint64>) {
    ParsedIds(s) == ids && AllValid(s)
  }

  // What can follow the separators behind an id.
  predicate Starts(s: string) {
    s == "" || (!IsSpace(s[0]) && s[0] != ',')
  }

  lemma ItemRead(item: Item, rest: string)
    requires item.id != 0 && Separators(item.gap) && Starts(rest) && (item.gap == "" ==> rest == "")
    ensures var s := Numeral(item.id, item.style) + (item.gap + rest);
      s != "" && StrToLL(s) == (Clamped(item.id), item.gap + rest) && SkipSeparators(item.gap + rest) == rest
  {
    var behind := item.gap + rest;
    assert item.gap != "" ==> behind[0] == item.gap[0] && item.gap[0] in item.gap;
    StrToLLOf("", "", item.id, item.style, behind);
    var s := Numeral(item.id, item.style) + behind;
    assert "" + ("" + s) == s;
    GapSkipped(item.gap, rest);
  }

  lemma ListStarts(items: seq<Item>, more: string)
    requires Starts(more)
    ensures Starts(ListText(items) + more)
  {
    if items != [] {
      var tail := items[0].gap + ListText(items[1..]);
      NumeralStart(items[0].id, items[0].style, tail + more);
      NumeralComma(items[0].id, items[0].style);
      Associate(Numeral(items[0].id, items[0].style), tail, more);
    } else {
      assert ListText(items) + more == more;
    }
  }

  lemma NumeralComma(n: nat, style: Style)
    ensures Numeral(n, style)[0] != ','
  {
    var d := DigitsOf(n, style);
    assert d[0] in d;
  }

  predicate AllNonzero(items: seq<Item>) {
    forall i | 0 <= i < |items| :: items[i].id != 0
  }

  predicate AllGaps(items: seq<Item>) {
    forall i | 0 <= i < |items| :: items[i].gap != ""
  }

  // The text behind the list decides whether it is taken: more ids may follow,
  // or something that is none.
  lemma {:induction false} ListParses(items: seq<Item>, more: string)
    requires Separated(items) && AllNonzero(items) && Starts(more) && (more == "" || AllGaps(items))
    ensures ParsedIds(ListText(items) + more) == ClampedAll(Ids(items)) + ParsedIds(more)
    ensures AllValid(ListText(items) + more) == AllValid(more)
  {
    if items == [] {
      assert ListText(items) + more == more;
    } else {
      ListParses(items[1..], more);
      assert items == [items[0]] + items[1..];
      FirstParses(items[0], items[1..], more);
    }
  }

  lemma FirstParses(item: Item, others: seq<Item>, more: string)
    requires item.id != 0 && Separators(item.gap) && Starts(more) && (item.gap == "" ==> others == [] && more == "")
    requires ParsedIds(ListText(others) + more) == ClampedAll(Ids(others)) + ParsedIds(more)
    requires AllValid(ListText(others) + more) == AllValid(more)
    ensures ParsedIds(ListText([item] + others) + more) == ClampedAll(Ids([item] + others)) + ParsedIds(more)
    ensures AllValid(ListText([item] + others) + more) == AllValid(more)
  {
    var rest := ListText(others) + more;
    ListStarts(others, more);
    ItemRead(item, rest);
    ListOfFirst(item, others, more);
    ParsedNext(Numeral(item.id, item.style) + (item.gap + rest), Clamped(item.id), item.gap + rest, rest);
    ClampedCons(item, others);
    AssociateIds([Clamped(item.id)], ClampedAll(Ids(others)), ParsedIds(more));
  }

  lemma AssociateIds(a: seq<uint64>, b: seq<uint64>, c: seq<uint64>)
    ensures (a + b) + c == a + (b + c)
  {
  }

  lemma ListOfFirst(item: Item, others: seq<Item>, more: string)
    ensures ListText([item] + others) + more
         == Numeral(item.id, item.style) + (item.gap + (ListText(others) + more))
  {
    assert ([item] + others)[1..] == others;
    var a, b, c := Numeral(item.id, item.style), item.gap, ListText(others);
    Associate(a, b + c, more);
    Associate(b, c, more);
  }

  lemma ParsedNext(s: string, value: uint64, behind: string, rest: string)
    requires s != "" && StrToLL(s) == (value, behind) && value != 0 && SkipSeparators(behind) == rest
    ensures ParsedIds(s) == [value] + ParsedIds(rest) && AllValid(s) == AllValid(rest)
  {
  }

  lemma ClampedCons(item: Item, others: seq<Item>)
    ensures ClampedAll(Ids([item] + others)) == [Clamped(item.id)] + ClampedAll(Ids(others))
  {
  }

  // Ids in any of the styles, with any separators, come back cut down to the
  // signed range.
  lemma ListReadBack(items: seq<Item>)
    requires Separated(items) && AllNonzero(items)
    ensures ParsesTo(ListText(items), ClampedAll(Ids(items)))
  {
    ListParses(items, "");
    assert ListText(items) + "" == ListText(items);
    assert ClampedAll(Ids(items)) + [] == ClampedAll(Ids(items));
  }

  lemma NumberlessInvalid(s: string)
    requires s != "" && !IsSpace(s[0]) && s[0] != '-' && s[0] != '+' && !IsDigit(s[0])
    ensures !AllValid(s) && ParsedIds(s) == []
  {
    assert SkipSpaces(s) == s && Base(s) == 10 && SpanDigits(s, 10) == 0;
  }

  // A list with anything that does not begin like a number behind an id is
  // ignored as a whole.
  lemma GarbageInvalid(items: seq<Item>, garbage: string)
    requires Separated(items) && AllNonzero(items) && AllGaps(items)
    requires garbage != "" && Starts(garbage) && garbage[0] != '-' && garbage[0] != '+' && !IsDigit(garbage[0])
    ensures !AllValid(ListText(items) + garbage) && |ParsedIds(ListText(items) + garbage)| == |items|
  {
    ListParses(items, garbage);
    NumberlessInvalid(garbage);
  }

  lemma ZeroRead(style: Style, rest: string)
    requires Ends(rest) && (rest == "" || (rest[0] != 'x' && rest[0] != 'X'))
    ensures StrToLL(Numeral(0, style) + rest).0 == 0
  {
    var s := Numeral(0, style) + rest;
    NumeralStart(0, style, rest);
    assert SkipSpaces(s) == s;
    ZeroText();
    match style
    case LowerHex => ZeroHex(s, rest);
    case UpperHex => ZeroHex(s, rest);
    case Octal => ZeroDigits(s, "00", rest, 8);
    case Plain => ZeroDigits(s, "0", rest, 8);
  }

  lemma ZeroText()
    ensures Numeral(0, LowerHex) == "0x0" && Numeral(0, UpperHex) == "0X0"
    ensures Numeral(0, Octal) == "00" && Numeral(0, Plain) == "0"
  {
  }

  lemma ZeroHex(s: string, rest: string)
    requires Ends(rest) && (s == "0x0" + rest || s == "0X0" + rest)
    ensures Base(s) == 16 && SpanDigits(s[2..], 16) == 1 && DigitsValue(s[2..][..1], 16) == 0
  {
    assert s[2..] == "0" + rest;
    ZeroDigits(s[2..], "0", rest, 16);
  }

  lemma ZeroDigits(s: string, d: string, rest: string, base: nat)
    requires s == d + rest && (d == "0" || d == "00") && (base == 8 || base == 16) && Ends(rest)
    ensures SpanDigits(s, base) == |d| && DigitsValue(s[..|d|], base) == 0
  {
    SpanOfDigits(d, rest, base);
    assert s[..|d|] == d && d[..|d| - 1] == (if |d| == 1 then "" else "0") && "0"[..0] == "";
  }

  // So is a list with the id 0.
  lemma ZeroInvalid(before: seq<Item>, zero: Item, after: seq<Item>)
    requires Separated(before + [zero] + after) && AllNonzero(before) && zero.id == 0
    ensures !AllValid(ListText(before + [zero] + after)) && |ParsedIds(ListText(before + [zero] + after))| == |before|
  {
    var items := [zero] + after;
    var behind := zero.gap + ListText(after);
    assert before + [zero] + after == before + items;
    assert zero == (before + items)[|before|];
    assert items[1..] == after;
    assert zero.gap != "" ==> zero.gap[0] in zero.gap;
    assert Ends(behind) && (behind == "" || (behind[0] != 'x' && behind[0] != 'X'));
    ZeroRead(zero.style, behind);
    assert !AllValid(ListText(items)) && ParsedIds(ListText(items)) == [];
    ListOfConcat(before, items, before + items);
    forall i | 0 <= i < |before| ensures Separators(before[i].gap) && before[i].gap != "" {
      assert before[i] == (before + items)[i];
    }
    ListStarts(items, "");
    assert ListText(items) + "" == ListText(items);
    ListParses(before, ListText(items));
  }

  lemma {:induction false} ListOfFirstAndRest(items: seq<Item>, others: seq<Item>)
    requires items != [] && others == items[1..]
    ensures ListText(items) == Numeral(items[0].id, items[0].style) + (items[0].gap + ListText(others))
  {
  }

  lemma {:induction false} ConcatStep(a: seq<Item>, others: seq<Item>, b: seq<Item>, all: seq<Item>, rest: seq<Item>)
    requires a != [] && others == a[1..] && all != [] && all[0] == a[0] && rest == all[1..]
    requires ListText(rest) == ListText(others) + ListText(b)
    ensures ListText(all) == ListText(a) + ListText(b)
  {
    ListOfFirstAndRest(a, others);
    ListOfFirstAndRest(all, rest);
    FirstOfConcat(Numeral(a[0].id, a[0].style), a[0].gap, ListText(others), ListText(b));
  }

  lemma {:induction false} ListOfConcat(a: seq<Item>, b: seq<Item>, all: seq<Item>)
    requires all == a + b
    ensures ListText(all) == ListText(a) + ListText(b)
  {
    if a == [] {
      assert all == b;
    } else {
      ListOfConcat(a[1..], b, all[1..]);
      ConcatStep(a, a[1..], b, all, all[1..]);
    }
  }

  lemma FirstOfConcat(n: string, gap: string, t: string, u: string)
    ensures n + (gap + (t + u)) == (n + (gap + t)) + u
  {
  }

  // A printed list comes back with every id cut down to the signed range.
  lemma ParseOfPrinted(ids: seq<uint64>)
    requires 0 !in ids
    ensures ParsesTo(PrintIds(ids), ClampedAll(ids))
  {
    PrintedIsList(ids);
    ListReadBack(PrintedItems(ids));
  }

  lemma PrintedIsList(ids: seq<uint64>)
    requires 0 !in ids
    ensures var items := PrintedItems(ids);
      Separated(items) && AllNonzero(items) && Ids(items) == ids && ListText(items) == PrintIds(ids)
  {
    PrintedText(ids);
    forall i | 0 <= i < |ids| ensures PrintedItems(ids)[i].id != 0 && Separators(PrintedItems(ids)[i].gap) {
      assert ids[i] in ids;
    }
  }

  function PrintedItems(ids: seq<uint64>): (items: seq<Item>)
    ensures |items| == |ids|
    ensures forall i | 0 <= i < |ids| :: items[i] == Item(ids[i], LowerHex, if i < |ids| - 1 then ", " else "")
  {
    seq(|ids|, i requires 0 <= i < |ids| => Item(ids[i], LowerHex, if i < |ids| - 1 then ", " else ""))
  }

  lemma {:induction false} PrintedText(ids: seq<uint64>)
    ensures ListText(PrintedItems(ids)) == PrintIds(ids)
  {
    if ids != [] {
      PrintedText(ids[1..]);
      assert PrintedItems(ids)[1..] == PrintedItems(ids[1..]);
      assert |ids| == 1 ==> ListText(PrintedItems(ids[1..])) == "";
    }
  }

  // So a whitelist is transferred unaltered exactly when no address has its
  // highest bit set.
  lemma IdsRoundTripIff(ids: seq<uint64>)
    requires 0 !in ids
    ensures ParsesTo(PrintIds(ids), ids) == (forall id | id in ids :: id <= LLONG_MAX)
  {
    ParseOfPrinted(ids);
    if forall id | id in ids :: id <= LLONG_MAX {
      forall i | 0 <= i < |ids| ensures ClampedAll(ids)[i] == ids[i] {
        assert ids[i] in ids;
      }
    } else {
      var id :| id in ids && id > LLONG_MAX;
      var i :| 0 <= i < |ids| && ids[i] == id;
      assert ClampedAll(ids)[i] != ids[i];
    }
  }
}

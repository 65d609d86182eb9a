// What the field scanner finds in printed messages: arrays of records whose
// fields are "name": "value" with any quote-free text between the quotes.
module JsonText {
  import opened CStrings
  import opened JsonScan

  predicate QuoteFree(s: string) {
    '"' !in s
  }

  // ----- a text as the pieces between its quotes -----

  function Join(pieces: seq<string>): string
    requires pieces != []
  {
    if |pieces| == 1 then pieces[0] else pieces[0] + ("\"" + Join(pieces[1..]))
  }

  // The pieces behind the first piece that equals field and lies between two quotes.
  function AfterPiece(pieces: seq<string>, field: string): (r: seq<string>)
    ensures |r| <= |pieces|
  {
    if |pieces| < 3 then []
    else if pieces[1] == field then pieces[2..]
    else AfterPiece(pieces[1..], field)
  }

  lemma {:induction false} AfterSkips(text: string, rest: string, pattern: string)
    requires QuoteFree(text) && pattern != "" && pattern[0] == '"'
    ensures After(text + rest, pattern) == After(rest, pattern)
  {
    if text == "" {
      assert text + rest == rest;
    } else {
      var s := text + rest;
      assert s[1..] == text[1..] + rest && s[0] == text[0];
      AfterSkips(text[1..], rest, pattern);
      if |s| >= |pattern| {
        assert s[..|pattern|][0] == s[0] != pattern[0];
      }
    }
  }

  lemma NoQuoteNowhere(text: string, pattern: string)
    requires QuoteFree(text) && pattern != "" && pattern[0] == '"'
    ensures After(text, pattern) == Nowhere
  {
    AfterSkips(text, "", pattern);
    assert text + "" == text;
  }

  // At an opening quote: the piece behind it either is the field or is skipped.
  lemma AfterQuote(piece: string, rest: string, field: string)
    requires QuoteFree(piece) && QuoteFree(field)
    ensures var s := "\"" + (piece + ("\"" + rest));
      After(s, Quoted(field)) == if piece == field then Behind(rest) else After("\"" + rest, Quoted(field))
  {
    var s, pattern := "\"" + (piece + ("\"" + rest)), Quoted(field);
    var n := |pattern|;
    if piece == field {
      assert s == pattern + rest;
      assert s[..n] == pattern && s[n..] == rest;
    } else {
      NoMatchAt(piece, rest, field);
      assert s[1..] == piece + ("\"" + rest);
      AfterSkips(piece, "\"" + rest, pattern);
    }
  }

  // The first quote behind the opening one ends the piece, and the field.
  lemma NoMatchAt(piece: string, rest: string, field: string)
    requires QuoteFree(piece) && QuoteFree(field) && piece != field
    ensures !StartsWith("\"" + (piece + ("\"" + rest)), Quoted(field))
  {
    var s, n := "\"" + (piece + ("\"" + rest)), |field|;
    var t := s[1..];
    assert t[..|piece|] == piece && t[|piece|] == '"';
    IndexOfIs(t, '"', |piece|);
    if n != |piece| && n + 2 <= |s| && t[..n] == field {
      assert t[n] != '"' by {
        if t[n] == '"' { IndexOfIs(t, '"', n); }
      }
      assert s[..n + 2][n + 1] == t[n];
    }
    assert n + 2 <= |s| ==> s[..n + 2][1..n + 1] == t[..n];
    assert Quoted(field)[1..n + 1] == field && Quoted(field)[n + 1] == '"';
  }

  predicate AllQuoteFree(pieces: seq<string>) {
    forall p | p in pieces :: QuoteFree(p)
  }

  lemma {:induction false} AfterPieces(pieces: seq<string>, field: string)
    requires pieces != [] && AllQuoteFree(pieces) && QuoteFree(field)
    ensures After(Join(pieces), Quoted(field))
         == if AfterPiece(pieces, field) == [] then Nowhere else Behind(Join(AfterPiece(pieces, field)))
  {
    var pattern := Quoted(field);
    assert pieces[0] in pieces;
    if |pieces| == 1 {
      NoQuoteNowhere(pieces[0], pattern);
    } else {
      var others := pieces[1..];
      AfterSkips(pieces[0], "\"" + Join(others), pattern);
      assert others[0] in pieces;
      if |pieces| == 2 {
        LoneQuote(others[0], field);
      } else {
        AfterQuote(others[0], Join(others[1..]), field);
        assert pieces[2..] == others[1..];
        if others[0] != field {
          AfterPieces(others, field);
          AfterSkips(others[0], "\"" + Join(others[1..]), pattern);
        }
      }
    }
  }

  lemma LoneQuote(piece: string, field: string)
    requires QuoteFree(piece) && QuoteFree(field)
    ensures After("\"" + piece, Quoted(field)) == Nowhere
  {
    var s, pattern := "\"" + piece, Quoted(field);
    assert s[1..] == piece;
    NoQuoteNowhere(piece, pattern);
    if |s| >= |pattern| {
      var last := |pattern| - 1;
      assert piece[last - 1] in piece && s[last] == piece[last - 1];
      assert s[..|pattern|][last] != pattern[last];
    }
  }

  lemma FirstQuote(text: string, rest: string)
    requires QuoteFree(text)
    ensures var s := text + ("\"" + rest);
      IndexOf(s, '"') == |text| < |s| && s[..|text|] == text && s[|text| + 1..] == rest
  {
    var s := text + ("\"" + rest);
    assert s[..|text|] == text && s[|text| + 1..] == rest;
    IndexOfIs(s, '"', |text|);
  }

  lemma NoQuote(text: string)
    requires QuoteFree(text)
    ensures IndexOf(text, '"') == |text|
  {
    assert text[..|text|] == text;
    IndexOfIs(text, '"', |text|);
  }

  lemma QuotationOfTwo(a: string, b: string)
    requires QuoteFree(a) && QuoteFree(b)
    ensures Quotation(a) == Stop && Quotation(a + ("\"" + b)) == Stop
  {
    NoQuote(a);
    FirstQuote(a, b);
    NoQuote(b);
  }

  lemma QuotationOfThree(a: string, b: string, rest: string)
    requires QuoteFree(a) && QuoteFree(b)
    ensures Quotation(a + ("\"" + (b + ("\"" + rest)))) == Next(b, rest)
  {
    FirstQuote(a, b + ("\"" + rest));
    FirstQuote(b, rest);
  }

  lemma QuotationOfPieces(pieces: seq<string>)
    requires pieces != [] && AllQuoteFree(pieces)
    ensures Quotation(Join(pieces)) == if |pieces| < 3 then Stop else Next(pieces[1], Join(pieces[2..]))
  {
    assert pieces[0] in pieces;
    if |pieces| == 1 {
      QuotationOfTwo(pieces[0], "");
    } else {
      assert pieces[1] in pieces && pieces[1..][0] == pieces[1];
      if |pieces| == 2 {
        QuotationOfTwo(pieces[0], pieces[1]);
      } else {
        assert pieces[1..][1..] == pieces[2..];
        QuotationOfThree(pieces[0], pieces[1], Join(pieces[2..]));
      }
    }
  }

  // ----- printed fields -----

  datatype Field = Field(before: string, name: string, colon: string, value: string)

  function Pieces(fields: seq<Field>, tail: string): (r: seq<string>)
    ensures |r| == 4 * |fields| + 1
  {
    if fields == [] then [tail]
    else
      var f := fields[0];
      [f.before, f.name, f.colon, f.value] + Pieces(fields[1..], tail)
  }

  function Printed(fields: seq<Field>, tail: string): string {
    Join(Pieces(fields, tail))
  }

  // Nothing contains a quote, and only names can be equal to the field name.
  predicate Clean(fields: seq<Field>, tail: string, name: string) {
    QuoteFree(tail) && QuoteFree(name) && forall f | f in fields :: CleanField(f, name)
  }

  predicate CleanField(f: Field, name: string) {
    && QuoteFree(f.before) && QuoteFree(f.name) && QuoteFree(f.colon) && QuoteFree(f.value)
    && f.before != name && f.colon != name && f.value != name
  }

  function Named(fields: seq<Field>, name: string): seq<string> {
    if fields == [] then []
    else (if fields[0].name == name then [fields[0].value] else []) + Named(fields[1..], name)
  }

  lemma {:induction false} PiecesQuoteFree(fields: seq<Field>, tail: string, name: string)
    requires Clean(fields, tail, name)
    ensures AllQuoteFree(Pieces(fields, tail))
  {
    if fields != [] {
      assert fields[0] in fields;
      PiecesQuoteFree(fields[1..], tail, name);
    }
  }

  lemma SkipField(fields: seq<Field>, tail: string, name: string)
    requires Clean(fields, tail, name) && fields != [] && fields[0].name != name
    ensures AfterPiece(Pieces(fields, tail), name) == AfterPiece(Pieces(fields[1..], tail), name)
  {
    var f, others := fields[0], Pieces(fields[1..], tail);
    assert f in fields && (|fields| > 1 ==> fields[1] in fields && others[0] == fields[1].before);
    var p := [f.before, f.name, f.colon, f.value] + others;
    var p1, p2, p3 := [f.name, f.colon, f.value] + others, [f.colon, f.value] + others, [f.value] + others;
    assert p[1..] == p1 && p1[1..] == p2 && p2[1..] == p3 && p3[1..] == others;
    assert AfterPiece(p, name) == AfterPiece(p1, name);
    assert AfterPiece(p1, name) == AfterPiece(p2, name);
    assert AfterPiece(p2, name) == AfterPiece(p3, name);
    assert AfterPiece(p3, name) == AfterPiece(others, name);
  }

  lemma HitPieces(f: Field, others: seq<string>)
    requires others != []
    ensures var p, behind := [f.before, f.name, f.colon, f.value] + others, [f.colon, f.value] + others;
      AfterPiece(p, f.name) == behind && behind[1] == f.value && behind[2..] == others
  {
    var p := [f.before, f.name, f.colon, f.value] + others;
    assert p[2..] == [f.colon, f.value] + others;
  }

  lemma BehindQuoteFree(f: Field, others: seq<string>, name: string)
    requires CleanField(f, name) && AllQuoteFree(others)
    ensures AllQuoteFree([f.colon, f.value] + others)
  {
    forall p | p in [f.colon, f.value] + others ensures QuoteFree(p) {
      assert p == f.colon || p == f.value || p in others;
    }
  }

  lemma SearchHit(fields: seq<Field>, tail: string, name: string)
    requires Clean(fields, tail, name) && fields != [] && fields[0].name == name
    ensures Search(Printed(fields, tail), Quoted(name)) == Next(fields[0].value, Printed(fields[1..], tail))
  {
    var f, others := fields[0], Pieces(fields[1..], tail);
    assert f in fields;
    PiecesQuoteFree(fields, tail, name);
    CleanTail(fields, tail, name);
    PiecesQuoteFree(fields[1..], tail, name);
    AfterPieces(Pieces(fields, tail), name);
    HitPieces(f, others);
    BehindQuoteFree(f, others, name);
    QuotationOfPieces([f.colon, f.value] + others);
  }

  lemma SearchSkip(fields: seq<Field>, tail: string, name: string)
    requires Clean(fields, tail, name) && fields != [] && fields[0].name != name
    ensures Search(Printed(fields, tail), Quoted(name)) == Search(Printed(fields[1..], tail), Quoted(name))
  {
    PiecesQuoteFree(fields, tail, name);
    PiecesQuoteFree(fields[1..], tail, name);
    AfterPieces(Pieces(fields, tail), name);
    AfterPieces(Pieces(fields[1..], tail), name);
    SkipField(fields, tail, name);
  }

  // The last value is also the end of the message: it is stored, not counted.
  predicate EndsInValue(fields: seq<Field>, tail: string, name: string) {
    tail == "" && fields != [] && fields[|fields| - 1].name == name
  }

  function Min(a: nat, b: nat): nat {
    if a < b then a else b
  }

  // On any printed text: the values of the field in order, as many as fit, and
  // their number, which is one too small when the text ends in such a value.
  function ExpectedCount(fields: seq<Field>, tail: string, name: string, max: nat): nat {
    var n := |Named(fields, name)|;
    if n > max then max
    else if n > 0 && EndsInValue(fields, tail, name) then n - 1
    else n
  }

  lemma {:induction false} NamedNonempty(fields: seq<Field>, name: string)
    requires fields != [] && fields[|fields| - 1].name == name
    ensures |Named(fields, name)| > 0
  {
    if |fields| > 1 {
      NamedNonempty(fields[1..], name);
    }
  }

  predicate ScannedAs(fields: seq<Field>, tail: string, name: string, max: nat) {
    var text, found := Printed(fields, tail), Named(fields, name);
    && Values(text, Quoted(name), max) == found[..Min(|found|, max)]
    && Counted(text, Quoted(name), max) == ExpectedCount(fields, tail, name, max)
  }

  lemma ScanHit(fields: seq<Field>, others: seq<Field>, tail: string, name: string, fewer: nat, max: nat)
    requires Clean(fields, tail, name) && fields != [] && fields[0].name == name && max == fewer + 1
    requires others == fields[1..] && ScannedAs(others, tail, name, fewer)
    ensures ScannedAs(fields, tail, name, max)
  {
    SearchHit(fields, tail, name);
    HitValues(fields, others, tail, name, fewer, max);
    HitCount(fields, others, tail, name, fewer, max);
  }

  lemma ValuesHit(text: string, needle: string, value: string, rest: string, fewer: nat, max: nat)
    requires max == fewer + 1 && Search(text, needle) == Next(value, rest)
    ensures Values(text, needle, max) == [value] + if rest == "" then [] else Values(rest, needle, fewer)
    ensures Counted(text, needle, max) == if rest == "" then 0 else 1 + Counted(rest, needle, fewer)
  {
    ValuesNext(text, needle, Next(value, rest), fewer, max);
    CountedNext(text, needle, Next(value, rest), fewer, max);
  }

  lemma HitValues(fields: seq<Field>, others: seq<Field>, tail: string, name: string, fewer: nat, max: nat)
    requires fields != [] && fields[0].name == name && max == fewer + 1 && others == fields[1..]
    requires Search(Printed(fields, tail), Quoted(name)) == Next(fields[0].value, Printed(others, tail))
    requires Values(Printed(others, tail), Quoted(name), fewer) == Named(others, name)[..Min(|Named(others, name)|, fewer)]
    ensures Values(Printed(fields, tail), Quoted(name), max) == Named(fields, name)[..Min(|Named(fields, name)|, max)]
  {
    var v, found := fields[0].value, Named(others, name);
    ValuesHit(Printed(fields, tail), Quoted(name), v, Printed(others, tail), fewer, max);
    ConsTaken(v, found, fewer, max);
    EmptyText(others, tail);
    assert Named(fields, name) == [v] + found;
    assert others == [] ==> found == [];
  }

  lemma EmptyText(fields: seq<Field>, tail: string)
    ensures Printed(fields, tail) == "" ==> fields == []
  {
  }

  lemma ConsTaken(v: string, found: seq<string>, fewer: nat, max: nat)
    requires max == fewer + 1
    ensures ([v] + found)[..Min(|found| + 1, max)] == [v] + found[..Min(|found|, fewer)]
  {
  }

  lemma HitCount(fields: seq<Field>, others: seq<Field>, tail: string, name: string, fewer: nat, max: nat)
    requires fields != [] && fields[0].name == name && max == fewer + 1 && others == fields[1..]
    requires Search(Printed(fields, tail), Quoted(name)) == Next(fields[0].value, Printed(others, tail))
    requires Counted(Printed(others, tail), Quoted(name), fewer) == ExpectedCount(others, tail, name, fewer)
    ensures Counted(Printed(fields, tail), Quoted(name), max) == ExpectedCount(fields, tail, name, max)
  {
    ValuesHit(Printed(fields, tail), Quoted(name), fields[0].value, Printed(others, tail), fewer, max);
    assert |Named(fields, name)| == 1 + |Named(others, name)|;
    if others == [] {
      assert Printed(others, tail) == tail;
    } else {
      assert Printed(others, tail) != "";
      assert others[|others| - 1] == fields[|fields| - 1];
      if EndsInValue(others, tail, name) {
        NamedNonempty(others, name);
      }
    }
  }

  lemma SameSearch(s: string, t: string, needle: string, max: nat)
    requires Search(s, needle) == Search(t, needle)
    ensures Values(s, needle, max) == Values(t, needle, max) && Counted(s, needle, max) == Counted(t, needle, max)
  {
  }

  lemma NamedSkip(fields: seq<Field>, tail: string, name: string)
    requires fields != [] && fields[0].name != name
    ensures Named(fields, name) == Named(fields[1..], name)
    ensures EndsInValue(fields, tail, name) == EndsInValue(fields[1..], tail, name)
  {
    assert |fields| > 1 ==> fields[1..][|fields| - 2] == fields[|fields| - 1];
  }

  lemma ScanSkip(fields: seq<Field>, others: seq<Field>, tail: string, name: string, max: nat)
    requires Clean(fields, tail, name) && fields != [] && fields[0].name != name && max > 0
    requires others == fields[1..] && ScannedAs(others, tail, name, max)
    ensures ScannedAs(fields, tail, name, max)
  {
    SearchSkip(fields, tail, name);
    SameSearch(Printed(fields, tail), Printed(fields[1..], tail), Quoted(name), max);
    NamedSkip(fields, tail, name);
  }

  lemma ScanStep(fields: seq<Field>, others: seq<Field>, tail: string, name: string, fewer: nat, max: nat)
    requires Clean(fields, tail, name) && fields != [] && max == fewer + 1 && others == fields[1..]
    requires ScannedAs(others, tail, name, fewer) && ScannedAs(others, tail, name, max)
    ensures ScannedAs(fields, tail, name, max)
  {
    if fields[0].name == name {
      ScanHit(fields, others, tail, name, fewer, max);
    } else {
      ScanSkip(fields, others, tail, name, max);
    }
  }

  lemma ScanNothing(fields: seq<Field>, tail: string, name: string, max: nat)
    requires Clean(fields, tail, name) && (max == 0 || fields == [])
    ensures ScannedAs(fields, tail, name, max)
  {
    if fields == [] {
      assert Pieces(fields, tail) == [tail];
      AfterPieces([tail], name);
    }
  }

  lemma CleanTail(fields: seq<Field>, tail: string, name: string)
    requires Clean(fields, tail, name) && fields != []
    ensures Clean(fields[1..], tail, name)
  {
    assert forall f | f in fields[1..] :: f in fields;
  }

  lemma {:induction false} ScanPrinted(fields: seq<Field>, tail: string, name: string, max: nat)
    requires Clean(fields, tail, name)
    ensures ScannedAs(fields, tail, name, max)
    decreases |fields|
  {
    if max == 0 || fields == [] {
      ScanNothing(fields, tail, name, max);
    } else {
      var others := fields[1..];
      CleanTail(fields, tail, name);
      var fewer: nat := max - 1;
      ScanPrinted(others, tail, name, fewer);
      ScanPrinted(others, tail, name, max);
      ScanStep(fields, others, tail, name, fewer, max);
    }
  }

  // The number returned is the number of such fields exactly unless the text
  // ends with the quote of the last of them.
  lemma CountExactIff(fields: seq<Field>, tail: string, name: string, max: nat)
    requires Clean(fields, tail, name) && |Named(fields, name)| <= max
    ensures Counted(Printed(fields, tail), Quoted(name), max) == |Named(fields, name)|
       <==> !EndsInValue(fields, tail, name)
  {
    ScanPrinted(fields, tail, name, max);
    if EndsInValue(fields, tail, name) {
      NamedNonempty(fields, name);
    }
  }

  // ----- arrays of records -----

  function Flatten(records: seq<seq<Field>>): seq<Field> {
    if records == [] then [] else records[0] + Flatten(records[1..])
  }

  predicate HasOne(record: seq<Field>, name: string) {
    |Named(record, name)| == 1
  }

  function ValueOf(record: seq<Field>, name: string): string
    requires HasOne(record, name)
  {
    Named(record, name)[0]
  }

  lemma {:induction false} NamedConcat(a: seq<Field>, b: seq<Field>, name: string)
    ensures Named(a + b, name) == Named(a, name) + Named(b, name)
  {
    if a == [] {
      assert a + b == b;
    } else {
      assert (a + b)[1..] == a[1..] + b;
      NamedConcat(a[1..], b, name);
    }
  }

  lemma {:induction false} NamedFlatten(records: seq<seq<Field>>, name: string)
    requires forall r | r in records :: HasOne(r, name)
    ensures var values := Named(Flatten(records), name);
      |values| == |records| && forall i | 0 <= i < |records| :: values[i] == ValueOf(records[i], name)
  {
    if records != [] {
      assert records[0] in records;
      NamedFlatten(records[1..], name);
      NamedConcat(records[0], Flatten(records[1..]), name);
    }
  }

  // On a printed array with one such field per record, whatever the order of
  // the fields, the scanner returns the number of records and stores in entry
  // i the value of record i. Two scans therefore agree on the records.
  lemma ScanRecords(records: seq<seq<Field>>, tail: string, name: string, max: nat)
    requires Clean(Flatten(records), tail, name) && tail != ""
    requires (forall r | r in records :: HasOne(r, name)) && |records| <= max
    ensures var text := Printed(Flatten(records), tail);
      var values := Values(text, Quoted(name), max);
      && Counted(text, Quoted(name), max) == |values| == |records|
      && forall i | 0 <= i < |records| :: values[i] == ValueOf(records[i], name)
  {
    ScanPrinted(Flatten(records), tail, name, max);
    NamedFlatten(records, name);
    var values := Named(Flatten(records), name);
    assert values[..|values|] == values;
  }

  // The message that the gateway itself prints for a node message (line 329).
  function NodeMessage(source: string, namespace: string, data: string, time: nat): seq<Field> {
    [Field("[{ ", "uid", ": ", source),
     Field(", ", "namespace", ": ", namespace),
     Field(", ", "data", ": ", data),
     Field(", ", "timestamp", ": ", Decimal(time))]
  }

  lemma DecimalQuoteFree(n: nat)
    ensures QuoteFree(Decimal(n)) && Decimal(n) != "uid" && Decimal(n) != "data"
  {
    var s := Decimal(n);
    assert IsDigit(s[0]) by { assert s[0] in s; }
  }

  // A field up to the quote before its value.
  function Lead(f: Field): string {
    f.before + ("\"" + (f.name + ("\"" + (f.colon + "\""))))
  }

  lemma JoinNext(piece: string, others: seq<string>)
    requires others != []
    ensures Join([piece] + others) == piece + ("\"" + Join(others))
  {
    assert ([piece] + others)[1..] == others;
  }

  lemma Nested(f: Field, others: seq<string>)
    ensures [f.before, f.name, f.colon, f.value] + others == [f.before] + ([f.name] + ([f.colon] + ([f.value] + others)))
  {
  }

  lemma PrintedField(fields: seq<Field>, tail: string)
    requires fields != []
    ensures Printed(fields, tail) == Lead(fields[0]) + fields[0].value + ("\"" + Printed(fields[1..], tail))
  {
    var f, others := fields[0], Pieces(fields[1..], tail);
    Nested(f, others);
    JoinNext(f.value, others);
    JoinNext(f.colon, [f.value] + others);
    JoinNext(f.name, [f.colon] + ([f.value] + others));
    JoinNext(f.before, [f.name] + ([f.colon] + ([f.value] + others)));
    FieldRegrouped(f, "\"" + Join(others));
  }

  lemma FieldRegrouped(f: Field, rest: string)
    ensures f.before + ("\"" + (f.name + ("\"" + (f.colon + ("\"" + (f.value + rest)))))) == Lead(f) + f.value + rest
  {
    var a, b := f.colon + "\"", f.value + rest;
    assert f.colon + ("\"" + b) == a + b;
    var c := "\"" + a;
    assert "\"" + (a + b) == c + b;
    var d := f.name + c;
    assert f.name + (c + b) == d + b;
    assert "\"" + (d + b) == ("\"" + d) + b;
    assert f.before + (("\"" + d) + b) == (f.before + ("\"" + d)) + b;
  }

  // A field with the quote before it: up to its value, and from the quote
  // behind its value on.
  lemma FieldText(fields: seq<Field>, tail: string, lead: string)
    requires fields != [] && lead == "\"" + Lead(fields[0])
    ensures "\"" + Printed(fields, tail) == lead + fields[0].value + ("\"" + Printed(fields[1..], tail))
  {
    PrintedField(fields, tail);
    JoinLead(Lead(fields[0]), fields[0].value, "\"" + Printed(fields[1..], tail));
  }

  lemma JoinLead(lead: string, value: string, rest: string)
    ensures "\"" + (lead + value + rest) == ("\"" + lead) + value + rest
  {
  }

  lemma NodeMessageText(source: string, namespace: string, data: string, time: nat)
    ensures Printed(NodeMessage(source, namespace, data, time), " }]")
         == "[{ \"uid\": \"" + source + ("\", \"namespace\": \"" + namespace
            + ("\", \"data\": \"" + data + ("\", \"timestamp\": \"" + Decimal(time) + "\" }]")))
  {
    var fields := NodeMessage(source, namespace, data, time);
    var tail := " }]";
    FieldText(fields[3..], tail, "\", \"timestamp\": \"");
    assert fields[3..][1..] == [] && "\"" + Printed([], tail) == "\" }]";
    FieldText(fields[2..], tail, "\", \"data\": \"");
    assert fields[2..][1..] == fields[3..];
    FieldText(fields[1..], tail, "\", \"namespace\": \"");
    assert fields[1..][1..] == fields[2..];
    PrintedField(fields, tail);
    assert Lead(fields[0]) == "[{ \"uid\": \"";
  }

  predicate Plain(s: string) {
    QuoteFree(s) && s != "uid" && s != "data"
  }

  // Scanning it yields its source and its data.
  lemma NodeMessageScanned(source: string, namespace: string, data: string, time: nat, max: nat)
    requires max > 0 && Plain(source) && Plain(namespace) && Plain(data)
    ensures var text := Printed(NodeMessage(source, namespace, data, time), " }]");
      && Values(text, Quoted("uid"), max) == [source] && Counted(text, Quoted("uid"), max) == 1
      && Values(text, Quoted("data"), max) == [data] && Counted(text, Quoted("data"), max) == 1
  {
    var fields := NodeMessage(source, namespace, data, time);
    NodeMessageClean(source, namespace, data, time);
    ScanOne(fields, " }]", "uid", 0, max);
    ScanOne(fields, " }]", "data", 2, max);
  }

  lemma NodeMessageClean(source: string, namespace: string, data: string, time: nat)
    requires Plain(source) && Plain(namespace) && Plain(data)
    ensures var fields := NodeMessage(source, namespace, data, time);
      Clean(fields, " }]", "uid") && Clean(fields, " }]", "data")
  {
    DecimalQuoteFree(time);
    var fields := NodeMessage(source, namespace, data, time);
    forall f | f in fields ensures CleanField(f, "uid") && CleanField(f, "data") {
      var k :| 0 <= k < 4 && f == fields[k];
    }
  }

  // And its namespace and time, unless one of the strings is a field name.
  lemma NodeMessageOrigin(source: string, namespace: string, data: string, time: nat, max: nat)
    requires max > 0 && Unmistakable(source) && Unmistakable(namespace) && Unmistakable(data)
    ensures var text := Printed(NodeMessage(source, namespace, data, time), " }]");
      && Values(text, Quoted("namespace"), max) == [namespace]
      && Values(text, Quoted("timestamp"), max) == [Decimal(time)]
  {
    var fields := NodeMessage(source, namespace, data, time);
    var s := Decimal(time);
    assert IsDigit(s[0]) by { assert s[0] in s; }
    DecimalQuoteFree(time);
    forall f | f in fields ensures CleanField(f, "namespace") && CleanField(f, "timestamp") {
      var k :| 0 <= k < 4 && f == fields[k];
    }
    ScanOne(fields, " }]", "namespace", 1, max);
    ScanOne(fields, " }]", "timestamp", 3, max);
  }

  predicate Unmistakable(s: string) {
    QuoteFree(s) && s != "namespace" && s != "timestamp"
  }

  lemma ScanOne(fields: seq<Field>, tail: string, name: string, k: nat, max: nat)
    requires Clean(fields, tail, name) && tail != "" && max > 0
    requires k < |fields| && forall i | 0 <= i < |fields| :: fields[i].name == name <==> i == k
    ensures var text := Printed(fields, tail);
      Values(text, Quoted(name), max) == [fields[k].value] && Counted(text, Quoted(name), max) == 1
  {
    NamedOf(fields, name, k);
    ScanPrinted(fields, tail, name, max);
    assert [fields[k].value][..1] == [fields[k].value];
  }

  lemma {:induction false} NamedOf(fields: seq<Field>, name: string, k: nat)
    requires k < |fields| && forall i | 0 <= i < |fields| :: fields[i].name == name <==> i == k
    ensures Named(fields, name) == [fields[k].value]
  {
    if k == 0 {
      NamedNone(fields[1..], name);
    } else {
      NamedOf(fields[1..], name, k - 1);
    }
  }

  lemma {:induction false} NamedNone(fields: seq<Field>, name: string)
    requires forall i | 0 <= i < |fields| :: fields[i].name != name
    ensures Named(fields, name) == []
  {
    if fields != [] {
      NamedNone(fields[1..], name);
    }
  }
}

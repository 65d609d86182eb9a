// The byte format of STOMP frames as stomp_write produces it and stomp_read
// accepts it (stomp.c, compiled with FIX): functions on whole byte streams.
module StompFormat {
  import opened Wrappers
  import opened CStrings

  // Eof: the stream ended; General: APR_EGENERAL; Undefined: a negative
  // content-length, for which the C code has no defined behaviour.
  datatype Error = Eof | General | Undefined
  datatype Result<T> = Ok(value: T) | Err(error: Error)

  const CONTENT_LENGTH := "content-length"

  // stomp_frame as handed to stomp_write. headers and body may be NULL; the
  // strings are C strings, except that a body with a length is raw memory.
  datatype OutFrame = OutFrame(command: string, headers: Option<map<string, string>>,
                               body: Option<string>, bodyLength: int)

  // stomp_frame as stomp_read fills it in.
  datatype Frame = Frame(command: string, headers: map<string, string>, body: string, bodyLength: int)

  // What stomp_write may read from memory.
  predicate Writable(f: OutFrame) {
    && CString(f.command)
    && (f.headers.Some? ==> forall k | k in f.headers.value :: CString(k) && CString(f.headers.value[k]))
    && -0x8000_0000 <= f.bodyLength < 0x8000_0000
    && (f.body.Some? ==> if f.bodyLength >= 0 then f.bodyLength <= |f.body.value| else CString(f.body.value))
  }

  // ----- writing -----

  function Keys(f: OutFrame): set<string> {
    if f.headers.Some? then f.headers.value.Keys else {}
  }

  // One of the orders in which the hash iteration may deliver the keys.
  predicate IsOrder(order: seq<string>, keys: set<string>) {
    && (forall k | k in order :: k in keys) && (forall k | k in keys :: k in order)
    && forall i, j | 0 <= i < j < |order| :: order[i] != order[j]
  }

  // A header line: name and value.
  type Header = (string, string)

  function LinesText(lines: seq<Header>): string {
    if lines == [] then "" else lines[0].0 + ":" + lines[0].1 + "\n" + LinesText(lines[1..])
  }

  function Pairs(order: seq<string>, headers: map<string, string>): (r: seq<Header>)
    requires forall k | k in order :: k in headers
    ensures |r| == |order| && forall i | 0 <= i < |r| :: r[i] == (order[i], headers[order[i]])
  {
    seq(|order|, i requires 0 <= i < |order| => (order[i], headers[order[i]]))
  }

  function HeaderLines(order: seq<string>, headers: map<string, string>): string
    requires forall k | k in order :: k in headers
  {
    LinesText(Pairs(order, headers))
  }

  predicate HasLength(f: OutFrame) {
    f.headers.Some? && f.bodyLength >= 0
  }

  function LengthLine(f: OutFrame): string {
    if HasLength(f) then CONTENT_LENGTH + ":" + Decimal(f.bodyLength) + "\n" else ""
  }

  function Payload(f: OutFrame): string
    requires Writable(f)
  {
    if f.body.None? then ""
    else if f.bodyLength < 0 then f.body.value
    else f.body.value[..f.bodyLength]
  }

  // The header lines and the empty line that ends them.
  function HeaderBlock(f: OutFrame, order: seq<string>): string
    requires Writable(f) && IsOrder(order, Keys(f))
  {
    (if f.headers.Some? then HeaderLines(order, f.headers.value) else "") + (LengthLine(f) + "\n")
  }

  // The frame up to and including its NUL.
  function EncodeBare(f: OutFrame, order: seq<string>): string
    requires Writable(f) && IsOrder(order, Keys(f))
  {
    f.command + "\n" + (HeaderBlock(f, order) + (Payload(f) + "\0"))
  }

  // What stomp_write sends.
  function Encode(f: OutFrame, order: seq<string>): string
    requires Writable(f) && IsOrder(order, Keys(f))
  {
    EncodeBare(f, order) + "\n"
  }

  // ----- reading -----

  predicate Stops(c: char, atNewline: bool) {
    c == '\0' || (atNewline && c == '\n')
  }

  // The index of the first terminator, or |s|.
  function Stop(s: string, atNewline: bool): (i: nat)
    ensures i <= |s|
    ensures forall k | 0 <= k < i :: !Stops(s[k], atNewline)
    ensures i < |s| ==> Stops(s[i], atNewline)
  {
    if s == "" || Stops(s[0], atNewline) then 0 else 1 + Stop(s[1..], atNewline)
  }

  lemma StopIs(s: string, atNewline: bool, i: nat)
    requires i <= |s| && forall k | 0 <= k < i :: !Stops(s[k], atNewline)
    requires i < |s| ==> Stops(s[i], atNewline)
    ensures Stop(s, atNewline) == i
  {
  }

  // The text before the first terminator and the stream behind it.
  function Scan(s: string, atNewline: bool): (r: Result<(string, string)>)
    ensures r.Ok? ==> |r.value.1| < |s|
  {
    var i := Stop(s, atNewline);
    if i == |s| then Err(Eof) else Ok((s[..i], s[i + 1..]))
  }

  function ParseHeaders(s: string, headers: map<string, string>): Result<(map<string, string>, string)>
    decreases |s|
  {
    match Scan(s, true)
    case Err(e) => Err(e)
    case Ok((line, rest)) =>
      if line == "" then Ok((headers, rest))
      else
        var colon := IndexOf(line, ':');
        if colon == |line| then Err(General)
        else ParseHeaders(rest, headers[line[..colon] := line[colon + 1..]])
  }

  function ParseSizedBody(s: string, n: nat): Result<(string, string)> {
    if |s| <= n then Err(Eof)
    else if s[n] != '\0' then Err(General)
    else Ok((s[..n], s[n + 1..]))
  }

  function ParseBody(command: string, headers: map<string, string>, s: string): Result<(Frame, string)> {
    if CONTENT_LENGTH in headers then
      var n := Atoi(headers[CONTENT_LENGTH]);
      if n < 0 then Err(Undefined)
      else
        match ParseSizedBody(s, n)
        case Err(e) => Err(e)
        case Ok((body, rest)) => Ok((Frame(command, headers, body, n), rest))
    else
      match Scan(s, false)
      case Err(e) => Err(e)
      case Ok((body, rest)) => Ok((Frame(command, headers, body, 0), rest))
  }

  // What stomp_read makes of a stream: the frame and the unread rest.
  function Parse(s: string): Result<(Frame, string)> {
    match Scan(s, true)
    case Err(e) => Err(e)
    case Ok((command, afterCommand)) =>
      match ParseHeaders(afterCommand, map[])
      case Err(e) => Err(e)
      case Ok((headers, afterHeaders)) => ParseBody(command, headers, afterHeaders)
  }

  // What each of these leaves unread, whether it succeeds or fails.
  function ScanRest(s: string, atNewline: bool): string {
    var i := Stop(s, atNewline);
    if i == |s| then "" else s[i + 1..]
  }

  function HeadersRest(s: string): string
    decreases |s|
  {
    match Scan(s, true)
    case Err(_) => ""
    case Ok((line, rest)) => if line == "" || IndexOf(line, ':') == |line| then rest else HeadersRest(rest)
  }

  function SizedRest(s: string, n: nat): string {
    if |s| <= n then "" else s[n + 1..]
  }

  // A negative length stops the model before the body.
  function BodyRest(headers: map<string, string>, s: string): string {
    if CONTENT_LENGTH !in headers then ScanRest(s, false)
    else
      var n := Atoi(headers[CONTENT_LENGTH]);
      if n < 0 then s else SizedRest(s, n)
  }

  function Rest(s: string): string {
    match Scan(s, true)
    case Err(_) => ""
    case Ok((_, afterCommand)) =>
      match ParseHeaders(afterCommand, map[])
      case Err(_) => HeadersRest(afterCommand)
      case Ok((headers, afterHeaders)) => BodyRest(headers, afterHeaders)
  }

  lemma RestOfFrame(s: string)
    ensures Parse(s).Ok? ==> Parse(s).value.1 == Rest(s)
  {
  }

  // ----- one frame -----

  predicate LineSafe(s: string) {
    '\n' !in s && '\0' !in s
  }

  // Frames that the format can carry, since nothing is escaped: delimiters
  // stay out of command and headers, the announced length is the real one,
  // and a body without announced length has no NUL.
  predicate Transportable(f: OutFrame) {
    && Writable(f) && LineSafe(f.command)
    && CONTENT_LENGTH !in Keys(f)
    && (f.headers.Some? ==> forall k | k in f.headers.value ::
          LineSafe(k) && ':' !in k && LineSafe(f.headers.value[k]))
    && (if HasLength(f) then |Payload(f)| == f.bodyLength else CString(Payload(f)))
  }

  function Received(f: OutFrame): Frame
    requires Transportable(f)
  {
    var headers := if f.headers.Some? then f.headers.value else map[];
    if HasLength(f) then Frame(f.command, headers[CONTENT_LENGTH := Decimal(f.bodyLength)], Payload(f), f.bodyLength)
    else Frame(f.command, headers, Payload(f), 0)
  }

  lemma ScanLine(line: string, rest: string)
    requires LineSafe(line)
    ensures Scan(line + "\n" + rest, true) == Ok((line, rest))
  {
    var s := line + "\n" + rest;
    StopIs(s, true, |line|);
    assert s[..|line|] == line && s[|line| + 1..] == rest;
  }

  lemma ScanBody(body: string, rest: string)
    requires CString(body)
    ensures Scan(body + "\0" + rest, false) == Ok((body, rest))
  {
    var s := body + "\0" + rest;
    StopIs(s, false, |body|);
    assert s[..|body|] == body && s[|body| + 1..] == rest;
  }

  lemma ParseHeaderLine(key: string, value: string, rest: string, headers: map<string, string>)
    requires LineSafe(key) && ':' !in key && LineSafe(value)
    ensures ParseHeaders(key + ":" + value + "\n" + rest, headers) == ParseHeaders(rest, headers[key := value])
  {
    var line := key + ":" + value;
    ScanLine(line, rest);
    assert line[..|key|] == key && line[|key| + 1..] == value;
    IndexOfIs(line, ':', |key|);
  }

  predicate CleanHeader(h: Header) {
    LineSafe(h.0) && ':' !in h.0 && LineSafe(h.1)
  }

  predicate CleanLines(lines: seq<Header>) {
    forall i | 0 <= i < |lines| :: CleanHeader(lines[i])
  }

  // The headers when a later line of the same name replaces an earlier one.
  function LastWins(lines: seq<Header>): map<string, string> {
    if lines == [] then map[] else map[lines[0].0 := lines[0].1] + LastWins(lines[1..])
  }

  // The headers when only the first line of a name counts, as section
  // "Repeated Header Entries" of the STOMP 1.2 specification demands.
  function FirstWins(lines: seq<Header>): map<string, string> {
    if lines == [] then map[] else FirstWins(lines[1..])[lines[0].0 := lines[0].1]
  }

  lemma {:induction false} ParseLines(lines: seq<Header>, rest: string, start: map<string, string>)
    requires CleanLines(lines)
    ensures ParseHeaders(LinesText(lines) + rest, start) == ParseHeaders(rest, start + LastWins(lines))
  {
    if lines == [] {
      assert LinesText(lines) + rest == rest && start + LastWins(lines) == start;
    } else {
      var others := lines[1..];
      ParseFirstLine(lines, rest, start);
      ParseLines(others, rest, start[lines[0].0 := lines[0].1]);
      MergeFirst(lines, start);
    }
  }

  lemma ParseFirstLine(lines: seq<Header>, rest: string, start: map<string, string>)
    requires lines != [] && CleanHeader(lines[0])
    ensures ParseHeaders(LinesText(lines) + rest, start)
         == ParseHeaders(LinesText(lines[1..]) + rest, start[lines[0].0 := lines[0].1])
  {
    var (key, value) := lines[0];
    var others := LinesText(lines[1..]);
    Associate(key + ":" + value + "\n", others, rest);
    ParseHeaderLine(key, value, others + rest, start);
  }

  lemma MergeFirst(lines: seq<Header>, start: map<string, string>)
    requires lines != []
    ensures start[lines[0].0 := lines[0].1] + LastWins(lines[1..]) == start + LastWins(lines)
  {
  }

  // Whatever names are repeated, the reader keeps the last line of each.
  lemma RepeatedHeaders(lines: seq<Header>, rest: string)
    requires CleanLines(lines)
    ensures ParseHeaders(LinesText(lines) + ("\n" + rest), map[]) == Ok((LastWins(lines), rest))
  {
    ParseLines(lines, "\n" + rest, map[]);
    assert map[] + LastWins(lines) == LastWins(lines);
    ScanLine("", rest);
    assert "" + "\n" + rest == "\n" + rest;
  }

  predicate FirstLine(lines: seq<Header>, i: nat) {
    i < |lines| && forall k | 0 <= k < i :: lines[k].0 != lines[i].0
  }

  predicate LastLine(lines: seq<Header>, i: nat) {
    i < |lines| && forall k | i < k < |lines| :: lines[k].0 != lines[i].0
  }

  lemma {:induction false} LastWinsIs(lines: seq<Header>, key: string) returns (i: nat)
    ensures key in LastWins(lines) ==> LastLine(lines, i) && lines[i] == (key, LastWins(lines)[key])
    ensures key !in LastWins(lines) ==> forall k | 0 <= k < |lines| :: lines[k].0 != key
  {
    i := 0;
    if lines != [] {
      var j := LastWinsIs(lines[1..], key);
      if key in LastWins(lines[1..]) {
        i := j + 1;
        assert lines[i] == lines[1..][j];
      }
    }
  }

  lemma {:induction false} FirstWinsIs(lines: seq<Header>, key: string) returns (i: nat)
    ensures key in FirstWins(lines) ==> FirstLine(lines, i) && lines[i] == (key, FirstWins(lines)[key])
    ensures key !in FirstWins(lines) ==> forall k | 0 <= k < |lines| :: lines[k].0 != key
  {
    i := 0;
    if lines != [] && lines[0].0 != key {
      var j := FirstWinsIs(lines[1..], key);
      i := j + 1;
    }
  }

  // That is what the specification demands exactly if no name occurs first
  // and last with different values.
  lemma LastIsFirstIff(lines: seq<Header>)
    ensures LastWins(lines) == FirstWins(lines)
       <==> forall i: nat, j: nat | FirstLine(lines, i) && LastLine(lines, j) && lines[i].0 == lines[j].0 ::
              lines[i].1 == lines[j].1
  {
    forall key ensures key in LastWins(lines) <==> key in FirstWins(lines) {
      var i := LastWinsIs(lines, key);
      var j := FirstWinsIs(lines, key);
    }
    if LastWins(lines) == FirstWins(lines) {
      forall i: nat, j: nat | FirstLine(lines, i) && LastLine(lines, j) && lines[i].0 == lines[j].0
        ensures lines[i].1 == lines[j].1
      {
        var j' := LastWinsIs(lines, lines[i].0);
        var i' := FirstWinsIs(lines, lines[i].0);
        assert i' == i && j' == j;
      }
    } else {
      var key :| key in LastWins(lines) && LastWins(lines)[key] != FirstWins(lines)[key];
      var j := LastWinsIs(lines, key);
      var i := FirstWinsIs(lines, key);
    }
  }

  // Of two lines with one name the reader keeps the second, the specification
  // the first.
  lemma SecondLineKept(rest: string)
    ensures ParseHeaders("a:1\na:2\n" + ("\n" + rest), map[]) == Ok((map["a" := "2"], rest))
    ensures FirstWins([("a", "1"), ("a", "2")]) == map["a" := "1"]
  {
    var lines := [("a", "1"), ("a", "2")];
    assert lines[1..] == [("a", "2")] && lines[1..][1..] == [];
    assert LinesText(lines[1..]) == "a:2\n" && LinesText(lines) == "a:1\na:2\n";
    RepeatedHeaders(lines, rest);
    assert LastWins(lines[1..]) == map["a" := "2"] && LastWins(lines) == map["a" := "2"];
  }

  lemma ParseHeaderLines(order: seq<string>, headers: map<string, string>, rest: string)
    requires forall k | k in order :: k in headers && CleanHeader((k, headers[k]))
    ensures ParseHeaders(HeaderLines(order, headers) + rest, map[])
         == ParseHeaders(rest, map k | k in order :: headers[k])
  {
    ParseLines(Pairs(order, headers), rest, map[]);
    PairsMap(order, headers);
  }

  lemma PairsMap(order: seq<string>, headers: map<string, string>)
    requires forall k | k in order :: k in headers
    ensures map[] + LastWins(Pairs(order, headers)) == map k | k in order :: headers[k]
  {
    var lines := Pairs(order, headers);
    forall key ensures key in LastWins(lines) <==> key in order {
      var i := LastWinsIs(lines, key);
    }
    forall key | key in LastWins(lines) ensures LastWins(lines)[key] == headers[key] {
      var i := LastWinsIs(lines, key);
    }
  }

  lemma ParseLengthLine(f: OutFrame, rest: string, headers: map<string, string>)
    ensures ParseHeaders(LengthLine(f) + ("\n" + rest), headers)
         == Ok((if HasLength(f) then headers[CONTENT_LENGTH := Decimal(f.bodyLength)] else headers, rest))
  {
    ScanLine("", rest);
    assert "" + "\n" + rest == "\n" + rest;
    if HasLength(f) {
      var digits := Decimal(f.bodyLength);
      ParseHeaderLine(CONTENT_LENGTH, digits, "\n" + rest, headers);
    } else {
      assert LengthLine(f) + ("\n" + rest) == "\n" + rest;
    }
  }

  lemma AllHeadersRead(order: seq<string>, headers: map<string, string>, rest: string)
    requires IsOrder(order, headers.Keys) && forall k | k in order :: CleanHeader((k, headers[k]))
    ensures ParseHeaders(HeaderLines(order, headers) + rest, map[]) == ParseHeaders(rest, headers)
  {
    ParseHeaderLines(order, headers, rest);
    assert (map k | k in order :: headers[k]) == headers;
  }

  lemma ParseHeaderBlock(f: OutFrame, order: seq<string>, rest: string)
    requires Transportable(f) && IsOrder(order, Keys(f))
    ensures ParseHeaders(HeaderBlock(f, order) + rest, map[]) == Ok((Received(f).headers, rest))
  {
    var afterLines := LengthLine(f) + ("\n" + rest);
    if f.headers.Some? {
      AssociateFour(HeaderLines(order, f.headers.value), LengthLine(f), "\n", rest);
      AllHeadersRead(order, f.headers.value, afterLines);
      ParseLengthLine(f, rest, f.headers.value);
    } else {
      assert HeaderBlock(f, order) + rest == afterLines;
      ParseLengthLine(f, rest, map[]);
    }
  }

  lemma AssociateFour(a: string, b: string, c: string, d: string)
    ensures (a + (b + c)) + d == a + (b + (c + d))
  {
  }

  lemma EncodeBareSplit(f: OutFrame, order: seq<string>, rest: string)
    requires Writable(f) && IsOrder(order, Keys(f))
    ensures EncodeBare(f, order) + rest == f.command + "\n" + (HeaderBlock(f, order) + (Payload(f) + "\0" + rest))
  {
    AssociateFour(f.command + "\n", HeaderBlock(f, order), Payload(f) + "\0", rest);
  }

  // stomp_read inverts stomp_write, whatever the iteration order, and stops
  // exactly behind the NUL.
  lemma BareRoundTrip(f: OutFrame, order: seq<string>, rest: string)
    requires Transportable(f) && IsOrder(order, Keys(f))
    ensures Parse(EncodeBare(f, order) + rest) == Ok((Received(f), rest))
  {
    var afterHeaders := Payload(f) + "\0" + rest;
    var afterCommand := HeaderBlock(f, order) + afterHeaders;
    EncodeBareSplit(f, order, rest);
    ScanLine(f.command, afterCommand);
    ParseHeaderBlock(f, order, afterHeaders);
    if HasLength(f) {
      AtoiOfDecimal(f.bodyLength);
      assert afterHeaders[..f.bodyLength] == Payload(f) && afterHeaders[f.bodyLength + 1..] == rest;
    } else {
      ScanBody(Payload(f), rest);
    }
  }

  lemma RoundTrip(f: OutFrame, order: seq<string>, rest: string)
    requires Transportable(f) && IsOrder(order, Keys(f))
    ensures Parse(Encode(f, order) + rest) == Ok((Received(f), "\n" + rest))
  {
    BareRoundTrip(f, order, "\n" + rest);
    Associate(EncodeBare(f, order), "\n", rest);
  }

  // A length is announced, and then the real one, if and only if there are
  // headers and a length was handed over.
  lemma AnnouncedIff(f: OutFrame, order: seq<string>, rest: string)
    requires Transportable(f) && IsOrder(order, Keys(f))
    ensures var read := Parse(Encode(f, order) + rest);
      && read.Ok? && ("content-length" in read.value.0.headers <==> f.headers.Some? && f.bodyLength >= 0)
      && ("content-length" in read.value.0.headers ==> read.value.0.headers["content-length"] == Decimal(|read.value.0.body|))
  {
    RoundTrip(f, order, rest);
  }

  // ----- any announced length -----

  lemma LengthName()
    ensures LineSafe("content-length") && ':' !in "content-length"
  {
  }

  lemma SizedIs(body: string, end: char, rest: string)
    ensures ParseSizedBody(body + [end] + rest, |body|) == if end == '\0' then Ok((body, rest)) else Err(General)
  {
    var s := body + [end] + rest;
    assert s[|body|] == end && s[..|body|] == body && s[|body| + 1..] == rest;
  }

  // The value of content-length is read as atoi reads it; the announced bytes
  // must be followed by a NUL.
  lemma LengthRead(command: string, value: string, body: string, end: char, rest: string)
    requires LineSafe(command) && LineSafe(value) && Atoi(value) == |body|
    ensures Parse(command + "\n" + ("content-length" + ":" + value + "\n" + ("\n" + (body + [end] + rest))))
         == if end == '\0' then Ok((Frame(command, map["content-length" := value], body, |body|), rest))
            else Err(General)
  {
    var behind := body + [end] + rest;
    ScanLine(command, "content-length" + ":" + value + "\n" + ("\n" + behind));
    LengthName();
    ParseHeaderLine("content-length", value, "\n" + behind, map[]);
    ScanLine("", behind);
    assert "" + "\n" + behind == "\n" + behind;
    SizedIs(body, end, rest);
  }

  // With spaces, a plus sign or something behind the digits it is the number.
  lemma SpacedLength(command: string, value: string, spaces: string, sign: string, more: string, body: string,
                     rest: string)
    requires LineSafe(command) && LineSafe(spaces) && LineSafe(more) && (sign == "" || sign == "+")
    requires (forall c | c in spaces :: IsSpace(c)) && (more == "" || !IsDigit(more[0]))
    requires value == spaces + (sign + (Decimal(|body|) + more))
    ensures Parse(command + "\n" + ("content-length" + ":" + value + "\n" + ("\n" + (body + ['\0'] + rest))))
         == Ok((Frame(command, map["content-length" := value], body, |body|), rest))
  {
    AtoiOf(spaces, sign, |body|, more);
    DecimalLineSafe(|body|);
    JoinLineSafe(Decimal(|body|), more);
    JoinLineSafe(sign, Decimal(|body|) + more);
    JoinLineSafe(spaces, sign + (Decimal(|body|) + more));
    LengthRead(command, value, body, '\0', rest);
  }

  lemma DecimalLineSafe(n: nat)
    ensures LineSafe(Decimal(n))
  {
    var d := Decimal(n);
    assert '\n' in d ==> IsDigit('\n');
    assert '\0' in d ==> IsDigit('\0');
  }

  lemma JoinLineSafe(a: string, b: string)
    requires LineSafe(a) && LineSafe(b)
    ensures LineSafe(a + b)
  {
  }

  // ----- streams that end early -----

  lemma {:induction false} ScanCut(s: string, atNewline: bool, k: nat)
    requires Scan(s, atNewline).Ok? && k <= |s|
    ensures var (text, rest) := Scan(s, atNewline).value;
      Scan(s[..k], atNewline) == if k <= |text| then Err(Eof) else Ok((text, rest[..k - |text| - 1]))
  {
    var i := Stop(s, atNewline);
    if k <= i {
      StopIs(s[..k], atNewline, k);
    } else {
      StopIs(s[..k], atNewline, i);
      PrefixParts(s, i, k);
    }
  }

  lemma PrefixParts(s: string, i: nat, k: nat)
    requires i < k <= |s|
    ensures s[..k][..i] == s[..i] && s[..k][i + 1..] == s[i + 1..][..k - i - 1]
  {
  }

  // What a parser has used of a stream, and what k bytes of it give.
  predicate Truncated<T(==)>(used: int, k: nat, whole: (T, string), part: Result<(T, string)>) {
    0 <= used
    && if k < used then part == Err(Eof) else k - used <= |whole.1| && part == Ok((whole.0, whole.1[..k - used]))
  }

  lemma {:induction false} HeaderLineRead(s: string, headers: map<string, string>, line: string, rest: string, more: map<string, string>)
    requires Scan(s, true) == Ok((line, rest)) && line != "" && IndexOf(line, ':') < |line|
    requires var colon := IndexOf(line, ':'); more == headers[line[..colon] := line[colon + 1..]]
    ensures ParseHeaders(s, headers) == ParseHeaders(rest, more)
  {
  }

  lemma {:induction false} HeaderLineCut(s: string, headers: map<string, string>, k: nat, line: string, rest: string,
                      more: map<string, string>, whole: (map<string, string>, string))
    requires k <= |s| && Scan(s, true) == Ok((line, rest)) && line != "" && IndexOf(line, ':') < |line|
    requires var colon := IndexOf(line, ':'); more == headers[line[..colon] := line[colon + 1..]]
    requires |s| == |line| + 1 + |rest|
    requires var left: nat := if k <= |line| then 0 else k - |line| - 1;
      Truncated(|rest| - |whole.1|, left, whole, ParseHeaders(rest[..left], more))
    ensures Truncated(|s| - |whole.1|, k, whole, ParseHeaders(s[..k], headers))
  {
    ScanCut(s, true, k);
    if k > |line| {
      HeaderLineRead(s[..k], headers, line, rest[..k - |line| - 1], more);
    }
  }

  lemma {:induction false} LastHeaderCut(s: string, headers: map<string, string>, k: nat, rest: string)
    requires k <= |s| && Scan(s, true) == Ok(("", rest)) && |s| == 1 + |rest|
    ensures Truncated(1, k, (headers, rest), ParseHeaders(s[..k], headers))
  {
    ScanCut(s, true, k);
  }

  lemma {:induction false} HeadersCut(s: string, headers: map<string, string>, k: nat)
    requires ParseHeaders(s, headers).Ok? && k <= |s|
    ensures var whole := ParseHeaders(s, headers).value;
      Truncated(|s| - |whole.1|, k, whole, ParseHeaders(s[..k], headers))
    decreases |s|
  {
    var (line, rest) := Scan(s, true).value;
    var whole := ParseHeaders(s, headers).value;
    LineLength(s);
    if line == "" {
      LastHeaderCut(s, headers, k, rest);
    } else {
      var colon := IndexOf(line, ':');
      var more := headers[line[..colon] := line[colon + 1..]];
      HeaderLineRead(s, headers, line, rest, more);
      HeadersCut(rest, more, if k <= |line| then 0 else k - |line| - 1);
      HeaderLineCut(s, headers, k, line, rest, more, whole);
    }
  }

  lemma LineLength(s: string)
    requires Scan(s, true).Ok?
    ensures var (line, rest) := Scan(s, true).value; |s| == |line| + 1 + |rest|
  {
  }

  lemma BodyCut(command: string, headers: map<string, string>, s: string, k: nat)
    requires ParseBody(command, headers, s).Ok? && k <= |s|
    ensures var whole := ParseBody(command, headers, s).value;
      Truncated(|s| - |whole.1|, k, whole, ParseBody(command, headers, s[..k]))
  {
    if CONTENT_LENGTH in headers {
      var n: nat := Atoi(headers[CONTENT_LENGTH]);
      if k > n {
        assert s[..k][..n] == s[..n] && s[..k][n + 1..] == s[n + 1..][..k - n - 1];
      }
    } else {
      ScanCut(s, false, k);
    }
  }

  // A frame is read exactly if all of its bytes are there, and what follows
  // them does not matter: of a stream that ends inside the frame the reader
  // makes the error for its end.
  lemma FrameCut(s: string, k: nat)
    requires Parse(s).Ok? && k <= |s|
    ensures var whole := Parse(s).value; Truncated(|s| - |whole.1|, k, whole, Parse(s[..k]))
  {
    var (command, afterCommand) := Scan(s, true).value;
    var (headers, afterHeaders) := ParseHeaders(afterCommand, map[]).value;
    LineLength(s);
    ScanCut(s, true, k);
    var i: nat := |command| + 1;
    HeadersCut(afterCommand, map[], if k < i then 0 else k - i);
    var j: nat := i + |afterCommand| - |afterHeaders|;
    BodyCut(command, headers, afterHeaders, if k < j then 0 else k - j);
  }

  lemma {:induction false} EofInHeaders(s: string, headers: map<string, string>)
    requires ParseHeaders(s, headers) == Err(Eof)
    ensures HeadersRest(s) == ""
    decreases |s|
  {
    if Scan(s, true).Ok? {
      var (line, rest) := Scan(s, true).value;
      var colon := IndexOf(line, ':');
      EofInHeaders(rest, headers[line[..colon] := line[colon + 1..]]);
    }
  }

  // Then nothing is left to be read.
  lemma EofEmpties(s: string)
    requires Parse(s) == Err(Eof)
    ensures Rest(s) == ""
  {
    if Scan(s, true).Ok? {
      var (_, afterCommand) := Scan(s, true).value;
      if ParseHeaders(afterCommand, map[]).Err? {
        EofInHeaders(afterCommand, map[]);
      }
    }
  }

  // ----- streams of frames -----

  // A transportable frame with the iteration order of its headers.
  datatype OrderedFrame = OrderedFrame(frame: OutFrame, order: seq<string>)

  type Carried = o: OrderedFrame | Transportable(o.frame) && IsOrder(o.order, Keys(o.frame))
    witness OrderedFrame(OutFrame("", None, None, 0), [])

  function Concat(texts: seq<string>): string {
    if texts == [] then "" else texts[0] + Concat(texts[1..])
  }

  // n calls of stomp_read in a row.
  function ParseMany(s: string, n: nat): Result<(seq<Frame>, string)>
    decreases n
  {
    if n == 0 then Ok(([], s))
    else
      match Parse(s)
      case Err(e) => Err(e)
      case Ok((f, rest)) =>
        match ParseMany(rest, n - 1)
        case Err(e) => Err(e)
        case Ok((fs, rest')) => Ok(([f] + fs, rest'))
  }

  // The frame is read from the text, of which nothing is left.
  ghost predicate Decodes(text: string, f: Frame) {
    forall rest: string :: Parse(text + rest) == Ok((f, rest))
  }

  lemma ParseManyNext(s: string, f: Frame, rest: string, fs: seq<Frame>, rest': string)
    requires Parse(s) == Ok((f, rest)) && ParseMany(rest, |fs|) == Ok((fs, rest'))
    ensures ParseMany(s, |fs| + 1) == Ok(([f] + fs, rest'))
  {
  }

  ghost predicate DecodeAll(texts: seq<string>, frames: seq<Frame>) {
    |texts| == |frames| && forall i | 0 <= i < |texts| :: Decodes(texts[i], frames[i])
  }

  lemma FirstDecodes(text: string, f: Frame, rest: string)
    requires Decodes(text, f)
    ensures Parse(text + rest) == Ok((f, rest))
  {
  }

  lemma ConcatRest(texts: seq<string>, rest: string)
    requires texts != []
    ensures Concat(texts) + rest == texts[0] + (Concat(texts[1..]) + rest)
  {
  }

  predicate ReadsMany(texts: seq<string>, frames: seq<Frame>, rest: string) {
    ParseMany(Concat(texts) + rest, |frames|) == Ok((frames, rest))
  }

  lemma ReadsNext(texts: seq<string>, frames: seq<Frame>, rest: string)
    requires DecodeAll(texts, frames) && texts != [] && ReadsMany(texts[1..], frames[1..], rest)
    ensures ReadsMany(texts, frames, rest)
  {
    var behind := Concat(texts[1..]) + rest;
    ConcatRest(texts, rest);
    FirstDecodes(texts[0], frames[0], behind);
    ParseManyNext(texts[0] + behind, frames[0], behind, frames[1..], rest);
    assert frames == [frames[0]] + frames[1..];
  }

  lemma OthersDecode(texts: seq<string>, frames: seq<Frame>)
    requires DecodeAll(texts, frames) && texts != []
    ensures DecodeAll(texts[1..], frames[1..])
  {
  }

  lemma {:induction false} ManyDecode(texts: seq<string>, frames: seq<Frame>, rest: string)
    requires DecodeAll(texts, frames)
    ensures ReadsMany(texts, frames, rest)
  {
    if texts == [] {
      assert Concat(texts) + rest == rest;
    } else {
      OthersDecode(texts, frames);
      ManyDecode(texts[1..], frames[1..], rest);
      ReadsNext(texts, frames, rest);
    }
  }

  function BareText(o: Carried): string {
    EncodeBare(o.frame, o.order)
  }

  function WriterText(o: Carried): string {
    Encode(o.frame, o.order)
  }

  function BareTexts(frames: seq<Carried>): (r: seq<string>)
    ensures |r| == |frames| && forall i | 0 <= i < |r| :: r[i] == BareText(frames[i])
  {
    seq(|frames|, i requires 0 <= i < |frames| => BareText(frames[i]))
  }

  function WriterTexts(frames: seq<Carried>): (r: seq<string>)
    ensures |r| == |frames| && forall i | 0 <= i < |r| :: r[i] == WriterText(frames[i])
  {
    seq(|frames|, i requires 0 <= i < |frames| => WriterText(frames[i]))
  }

  function ReceivedAll(frames: seq<Carried>): (r: seq<Frame>)
    ensures |r| == |frames| && forall i | 0 <= i < |r| :: r[i] == Received(frames[i].frame)
  {
    seq(|frames|, i requires 0 <= i < |frames| => Received(frames[i].frame))
  }

  lemma BareDecodes(o: Carried)
    ensures Decodes(BareText(o), Received(o.frame))
  {
    forall rest: string ensures Parse(BareText(o) + rest) == Ok((Received(o.frame), rest)) {
      BareRoundTrip(o.frame, o.order, rest);
    }
  }

  lemma AllBareDecode(frames: seq<Carried>)
    ensures DecodeAll(BareTexts(frames), ReceivedAll(frames))
  {
    forall i | 0 <= i < |frames| ensures Decodes(BareTexts(frames)[i], ReceivedAll(frames)[i]) {
      BareDecodes(frames[i]);
    }
  }

  // Frames that end in a bare NUL are read back one by one, to the last byte.
  lemma StreamRoundTrip(frames: seq<Carried>, rest: string)
    ensures ParseMany(Concat(BareTexts(frames)) + rest, |frames|) == Ok((ReceivedAll(frames), rest))
  {
    AllBareDecode(frames);
    ManyDecode(BareTexts(frames), ReceivedAll(frames), rest);
  }

  lemma CommandAsHeader(command: string, tail: string)
    requires LineSafe(command) && command != "" && ':' !in command
    ensures Parse("\n" + (command + "\n" + tail)) == Err(General)
  {
    var s := command + "\n" + tail;
    ScanLine("", s);
    assert "" + "\n" + s == "\n" + s;
    ScanLine(command, tail);
    IndexOfIs(command, ':', |command|);
  }

  // True of every command of STOMP.
  predicate PlainCommand(o: Carried) {
    o.frame.command != "" && ':' !in o.frame.command
  }

  // The newline that the writer adds behind the NUL is taken for an empty
  // command, and the next command for a header without colon.
  lemma NewlineSpoilsNext(o: Carried, rest: string)
    requires PlainCommand(o)
    ensures Parse("\n" + (WriterText(o) + rest)) == Err(General)
  {
    var tail := HeaderBlock(o.frame, o.order) + (Payload(o.frame) + "\0" + ("\n" + rest));
    EncodeBareSplit(o.frame, o.order, "\n" + rest);
    assert WriterText(o) + rest == EncodeBare(o.frame, o.order) + ("\n" + rest);
    CommandAsHeader(o.frame.command, tail);
  }

  predicate Readable(s: string, n: nat) {
    ParseMany(s, n).Ok?
  }

  // A text whose frame is read up to a newline, and which cannot be read
  // behind one.
  ghost predicate LeavesNewline(text: string, f: Frame) {
    forall rest: string :: Parse(text + rest) == Ok((f, "\n" + rest))
  }

  ghost predicate FailsBehindNewline(text: string) {
    forall rest: string :: Parse("\n" + (text + rest)).Err?
  }

  lemma ReadableNext(s: string, f: Frame, rest: string, n: nat)
    requires n > 0 && Parse(s) == Ok((f, rest))
    ensures Readable(s, n) == Readable(rest, n - 1)
  {
  }

  lemma OneReadable(text: string, f: Frame, rest: string)
    requires LeavesNewline(text, f)
    ensures Readable(text + rest, 1)
  {
    ReadableNext(text + rest, f, "\n" + rest, 1);
  }

  lemma TwoNotReadable(text: string, f: Frame, next: string, rest: string, n: nat)
    requires LeavesNewline(text, f) && FailsBehindNewline(next) && n >= 2
    ensures !Readable(text + (next + rest), n)
  {
    ReadableNext(text + (next + rest), f, "\n" + (next + rest), n);
  }

  lemma WriterTextLeaves(o: Carried)
    requires PlainCommand(o)
    ensures LeavesNewline(WriterText(o), Received(o.frame)) && FailsBehindNewline(WriterText(o))
  {
    forall rest: string
      ensures Parse(WriterText(o) + rest) == Ok((Received(o.frame), "\n" + rest))
    {
      RoundTrip(o.frame, o.order, rest);
    }
    forall rest: string ensures Parse("\n" + (WriterText(o) + rest)).Err? {
      NewlineSpoilsNext(o, rest);
    }
  }

  // So what the client writes can be read back by the client if and only if it
  // is at most one frame.
  lemma WriterStreamReadable(frames: seq<Carried>)
    requires forall i | 0 <= i < |frames| :: PlainCommand(frames[i])
    ensures Readable(Concat(WriterTexts(frames)), |frames|) == (|frames| <= 1)
  {
    var texts := WriterTexts(frames);
    if |frames| > 0 {
      assert Concat(texts) == texts[0] + Concat(texts[1..]);
      WriterTextLeaves(frames[0]);
      OneReadable(texts[0], Received(frames[0].frame), Concat(texts[1..]));
    }
    if |frames| > 1 {
      WriterTextLeaves(frames[1]);
      TwoNotReadable(texts[0], Received(frames[0].frame), texts[1], Concat(texts[2..]), |frames|);
      assert Concat(texts[1..]) == texts[1] + Concat(texts[1..][1..]) && texts[1..][1..] == texts[2..];
    }
  }

  // ----- a reader that follows the specification -----

  // The line ends that section "Augmented BNF" of the STOMP 1.2 specification
  // allows behind a frame.
  function SkipEols(s: string): (r: string)
    ensures |r| <= |s|
  {
    if |s| >= 1 && s[0] == '\n' then SkipEols(s[1..])
    else if |s| >= 2 && s[0] == '\r' && s[1] == '\n' then SkipEols(s[2..])
    else s
  }

  // n frames of a stream, each followed by any number of line ends.
  function ReadStream(s: string, n: nat): Result<(seq<Frame>, string)>
    decreases n
  {
    if n == 0 then Ok(([], s))
    else
      match Parse(s)
      case Err(e) => Err(e)
      case Ok((f, rest)) =>
        match ReadStream(SkipEols(rest), n - 1)
        case Err(e) => Err(e)
        case Ok((fs, rest')) => Ok(([f] + fs, rest'))
  }

  lemma ReadStreamNext(s: string, f: Frame, rest: string, fs: seq<Frame>, rest': string, n: nat)
    requires n > 0 && Parse(s) == Ok((f, rest)) && ReadStream(SkipEols(rest), n - 1) == Ok((fs, rest'))
    ensures ReadStream(s, n) == Ok(([f] + fs, rest'))
  {
  }

  // The command cannot be taken for a line end.
  predicate Startable(o: Carried) {
    o.frame.command != "" && o.frame.command[0] != '\r'
  }

  predicate AllStartable(frames: seq<Carried>) {
    forall i | 0 <= i < |frames| :: Startable(frames[i])
  }

  lemma WriterTextStarts(o: Carried, rest: string)
    requires Startable(o)
    ensures SkipEols(WriterText(o) + rest) == WriterText(o) + rest
  {
    var s, command := WriterText(o) + rest, o.frame.command;
    assert command[0] in command;
    assert s[0] == command[0];
  }

  lemma NothingToSkip(frames: seq<Carried>)
    requires AllStartable(frames)
    ensures SkipEols("\n" + Concat(WriterTexts(frames))) == Concat(WriterTexts(frames))
  {
    var texts := WriterTexts(frames);
    assert ("\n" + Concat(texts))[1..] == Concat(texts);
    if frames != [] {
      WriterTextStarts(frames[0], Concat(texts[1..]));
    }
  }

  // n frames of the writer are split into the same n frames, to the last byte.
  predicate ReadBack(frames: seq<Carried>) {
    ReadStream(Concat(WriterTexts(frames)), |frames|) == Ok((ReceivedAll(frames), ""))
  }

  lemma FirstWritten(frames: seq<Carried>, others: seq<Carried>)
    requires frames != [] && others == frames[1..]
    ensures Concat(WriterTexts(frames)) == WriterText(frames[0]) + Concat(WriterTexts(others))
    ensures ReceivedAll(frames) == [Received(frames[0].frame)] + ReceivedAll(others)
  {
    assert WriterTexts(frames)[1..] == WriterTexts(others);
  }

  lemma ReadBackNext(text: string, f: Frame, stream: string, fs: seq<Frame>, n: nat)
    requires n == |fs| + 1 && ReadStream(stream, |fs|) == Ok((fs, ""))
    requires Parse(text + stream) == Ok((f, "\n" + stream)) && SkipEols("\n" + stream) == stream
    ensures ReadStream(text + stream, n) == Ok(([f] + fs, ""))
  {
    ReadStreamNext(text + stream, f, "\n" + stream, fs, "", n);
  }

  lemma ReadBackFirst(frames: seq<Carried>, others: seq<Carried>)
    requires frames != [] && others == frames[1..] && ReadBack(others) && AllStartable(others)
    ensures ReadBack(frames)
  {
    var o, stream := frames[0], Concat(WriterTexts(others));
    NothingToSkip(others);
    RoundTrip(o.frame, o.order, stream);
    ReadBackNext(WriterText(o), Received(o.frame), stream, ReceivedAll(others), |frames|);
    FirstWritten(frames, others);
  }

  // Such a reader gets exactly the frames that stomp_write has sent.
  lemma {:induction false} WriterStreamReadBack(frames: seq<Carried>)
    requires AllStartable(frames)
    ensures ReadBack(frames)
  {
    if frames != [] {
      var others := frames[1..];
      WriterStreamReadBack(others);
      ReadBackFirst(frames, others);
    }
  }
}

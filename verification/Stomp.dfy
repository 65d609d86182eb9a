// stomp.c: reading and writing frames over a connection that moves any number
// of bytes per call, with a linked list of blocks as accumulator.
module Stomp {
  import opened CStrings
  import opened Connections
  import opened Memory
  import opened StompFormat

  const BLOCK_SIZE := 1024

  // stomp_write_buffer
  method WriteBuffer(c: Connection, data: string) returns (ok: bool)
    modifies c`sent
    ensures ok ==> c.sent == old(c.sent) + data
    ensures old(c.sent) <= c.sent <= old(c.sent) + data
  {
    var remaining := |data|;
    while remaining > 0
      invariant 0 <= remaining <= |data|
      invariant c.sent == old(c.sent) + data[..|data| - remaining]
    {
      var done := |data| - remaining;
      var rc, length := c.Send(data[done..]);
      assert data[..done] + data[done..][..length] == data[..done + length];
      remaining := remaining - length;
      if !rc {
        return false;
      }
    }
    assert remaining == 0 && data[..|data|] == data;
    ok := true;
  }

  // ----- the block list -----

  class DataBlock {
    const data: array<char>
    var next: DataBlock?

    constructor ()
      ensures fresh(data) && data.Length == BLOCK_SIZE && next == null
    {
      data := new char[BLOCK_SIZE](_ => '\0');
      next := null;
    }
  }

  // The list blocks[0], blocks[1], ... holds the given bytes, i of them in the
  // last block and BLOCK_SIZE in every other.
  ghost predicate Chain(blocks: seq<DataBlock>, i: nat, bytes: string)
    reads blocks, set b | b in blocks :: b.data
  {
    && blocks != [] && i <= BLOCK_SIZE
    && |bytes| == BLOCK_SIZE * (|blocks| - 1) + i
    && (forall k | 0 <= k < |blocks| ::
          && blocks[k].data.Length == BLOCK_SIZE
          && blocks[k].next == (if k + 1 < |blocks| then blocks[k + 1] else null))
    && (forall j, k | 0 <= j < k < |blocks| :: blocks[j] != blocks[k] && blocks[j].data != blocks[k].data)
    && (forall k | 0 <= k < |blocks| - 1 ::
          blocks[k].data[..] == bytes[BLOCK_SIZE * k..BLOCK_SIZE * (k + 1)])
    && blocks[|blocks| - 1].data[..i] == bytes[BLOCK_SIZE * (|blocks| - 1)..]
  }

  // Stores one byte in the last block.
  method Store(tail: DataBlock, i: nat, byte: char, ghost blocks: seq<DataBlock>, ghost bytes: string)
    requires Chain(blocks, i, bytes) && i < BLOCK_SIZE && tail == blocks[|blocks| - 1]
    modifies tail.data
    ensures Chain(blocks, i + 1, bytes + [byte])
  {
    tail.data[i] := byte;
    forall k | 0 <= k < |blocks| - 1
      ensures blocks[k].data[..] == (bytes + [byte])[BLOCK_SIZE * k..BLOCK_SIZE * (k + 1)]
    {
      assert blocks[k].data != tail.data;
      assert blocks[k].data[..] == old(blocks[k].data[..]);
      assert BLOCK_SIZE * (k + 1) <= |bytes|;
    }
    assert tail.data[..i + 1] == old(tail.data[..i]) + [byte];
  }

  // Appends an empty block to a list whose last block is full.
  method Extend(tail: DataBlock, ghost blocks: seq<DataBlock>, ghost bytes: string) returns (fresh': DataBlock)
    requires Chain(blocks, BLOCK_SIZE, bytes) && tail == blocks[|blocks| - 1]
    modifies tail
    ensures fresh(fresh') && fresh(fresh'.data)
    ensures Chain(blocks + [fresh'], 0, bytes)
  {
    fresh' := new DataBlock();
    tail.next := fresh';
    ghost var blocks' := blocks + [fresh'];
    assert tail.data[..] == tail.data[..BLOCK_SIZE];
    forall k | 0 <= k < |blocks|
      ensures blocks[k].data[..] == bytes[BLOCK_SIZE * k..BLOCK_SIZE * (k + 1)]
    {
      if k == |blocks| - 1 {
        assert bytes[BLOCK_SIZE * k..] == bytes[BLOCK_SIZE * k..BLOCK_SIZE * (k + 1)];
      }
    }
    assert forall k | 0 <= k < |blocks| :: blocks'[k] == blocks[k];
    forall j, k | 0 <= j < k < |blocks'| ensures blocks'[j] != blocks'[k] && blocks'[j].data != blocks'[k].data {}
  }

  // Stores a byte and makes sure that there is room for the next.
  method Append(tail: DataBlock, i: nat, byte: char, ghost blocks: seq<DataBlock>, ghost bytes: string)
    returns (tail': DataBlock, i': nat, ghost blocks': seq<DataBlock>)
    requires Chain(blocks, i, bytes) && i < BLOCK_SIZE && tail == blocks[|blocks| - 1]
    modifies tail, tail.data
    ensures Chain(blocks', i', bytes + [byte]) && i' < BLOCK_SIZE
    ensures tail' == blocks'[|blocks'| - 1] && blocks'[0] == blocks[0]
    ensures blocks' == blocks || (blocks' == blocks + [tail'] && fresh(tail') && fresh(tail'.data))
  {
    Store(tail, i, byte, blocks, bytes);
    tail', i', blocks' := tail, i + 1, blocks;
    if i' >= BLOCK_SIZE {
      tail' := Extend(tail, blocks, bytes + [byte]);
      blocks', i' := blocks + [tail'], 0;
    }
  }

  // The text followed by a NUL, whatever its terminator was.
  method Finish(head: DataBlock, tail: DataBlock, i: nat, bytesRead: nat, ghost blocks: seq<DataBlock>, ghost text: string)
    returns (data: array<char>)
    requires Chain(blocks, i, text) && i < BLOCK_SIZE
    requires head == blocks[0] && tail == blocks[|blocks| - 1] && bytesRead == |text| + 1
    modifies tail.data
    ensures fresh(data) && data[..] == text + "\0"
  {
    Store(tail, i, '\0', blocks, text);
    data := CopyBlocks(head, bytesRead, blocks, i + 1, text + ['\0']);
  }

  // The copy into one buffer of exactly the size of the bytes.
  method CopyBlocks(head: DataBlock, bytesRead: nat, ghost blocks: seq<DataBlock>, ghost i: nat, ghost bytes: string)
    returns (data: array<char>)
    requires Chain(blocks, i, bytes) && head == blocks[0] && bytesRead == |bytes|
    ensures fresh(data) && data[..] == bytes
  {
    data := new char[bytesRead](_ => '\0');
    var p, remaining := 0, bytesRead;
    var block: DataBlock? := head;
    ghost var j := 0;
    while block != null
      invariant 0 <= j <= |blocks| && block == if j < |blocks| then blocks[j] else null
      invariant p + remaining == bytesRead
      invariant p == if j < |blocks| then BLOCK_SIZE * j else bytesRead
      invariant Chain(blocks, i, bytes)
      invariant data[..p] == bytes[..p]
      decreases |blocks| - j
    {
      var len := if remaining > BLOCK_SIZE then BLOCK_SIZE else remaining;
      ghost var next := BlockBytes(blocks, i, bytes, j);
      ghost var before := data[..];
      CopyInto(data, p, block.data[..len]);
      CopiedPrefix(before, p, block.data[..len], bytes);
      p := p + len;
      remaining := remaining - len;
      block := block.next;
      j := j + 1;
      assert block == next;
    }
    assert data[..p] == data[..] && bytes[..p] == bytes;
  }

  // The part of the bytes that block j holds.
  lemma BlockBytes(blocks: seq<DataBlock>, i: nat, bytes: string, j: nat) returns (next: DataBlock?)
    requires Chain(blocks, i, bytes) && j < |blocks|
    ensures var p, len := BLOCK_SIZE * j, if j < |blocks| - 1 then BLOCK_SIZE else i;
      && p + len <= |bytes| && (j == |blocks| - 1 ==> p + len == |bytes|)
      && blocks[j].data[..len] == bytes[p..p + len]
    ensures next == blocks[j].next == if j < |blocks| - 1 then blocks[j + 1] else null
  {
    next := blocks[j].next;
    if j < |blocks| - 1 {
      assert BLOCK_SIZE * (j + 1) <= |bytes|;
      assert blocks[j].data[..BLOCK_SIZE] == blocks[j].data[..];
    }
  }

  lemma CopiedPrefix(buffer: string, p: nat, part: string, bytes: string)
    requires p + |part| <= |buffer| == |bytes|
    requires buffer[..p] == bytes[..p] && part == bytes[p..p + |part|]
    ensures Overwritten(buffer, p, part)[..p + |part|] == bytes[..p + |part|]
  {
    var s, n := Overwritten(buffer, p, part), p + |part|;
    assert s[..n] == buffer[..p] + part;
    assert bytes[..n] == bytes[..p] + bytes[p..n];
  }

  predicate NoStop(s: string, atNewline: bool) {
    forall k | 0 <= k < |s| :: !Stops(s[k], atNewline)
  }

  // What one more byte, or the end of the stream, decides about the scan.
  lemma ScanPrefix(text: string, chunk: string, rest: string, atNewline: bool)
    requires NoStop(text, atNewline) && |chunk| <= 1
    requires chunk == "" ==> rest == ""
    ensures var s := text + (chunk + rest);
      if chunk == "" then Scan(s, atNewline) == Err(Eof)
      else if Stops(chunk[0], atNewline) then Scan(s, atNewline) == Ok((text, rest))
      else s == text + [chunk[0]] + rest && NoStop(text + [chunk[0]], atNewline)
  {
    var s := text + (chunk + rest);
    if chunk == "" {
      assert s == text;
      StopIs(s, atNewline, |s|);
    } else if Stops(chunk[0], atNewline) {
      StopIs(s, atNewline, |text|);
      assert s[..|text|] == text && s[|text| + 1..] == rest;
    }
  }

  // The loop shared by stomp_read_line (atNewline) and stomp_read_buffer. The
  // buffer returned holds the text and a NUL in place of its terminator.
  method ReadTerminated(c: Connection, atNewline: bool) returns (ok: bool, data: array?<char>, bytesRead: nat)
    modifies c`incoming
    ensures ok <==> Scan(old(c.incoming), atNewline).Ok?
    ensures !ok ==> c.incoming == ""
    ensures ok ==> var (text, rest) := Scan(old(c.incoming), atNewline).value;
      data != null && fresh(data) && data[..] == text + "\0" && bytesRead == |text| + 1 && c.incoming == rest
  {
    ghost var s, text := c.incoming, "";
    var head := new DataBlock();
    var tail, i: nat := head, 0;
    bytesRead := 0;
    ghost var blocks := [head];
    while true
      invariant s == text + c.incoming && bytesRead == |text| && NoStop(text, atNewline)
      invariant Chain(blocks, i, text) && i < BLOCK_SIZE
      invariant head == blocks[0] && tail == blocks[|blocks| - 1]
      invariant forall b | b in blocks :: fresh(b) && fresh(b.data)
      decreases |c.incoming|
    {
      var rc, chunk := c.Recv(1);
      ScanPrefix(text, chunk, c.incoming, atNewline);
      if !rc {
        return false, null, 0;
      }
      var byte := chunk[0];
      bytesRead := bytesRead + 1;
      if Stops(byte, atNewline) {
        data := Finish(head, tail, i, bytesRead, blocks, text);
        return true, data, bytesRead;
      }
      tail, i, blocks := Append(tail, i, byte, blocks, text);
      text := text + [byte];
    }
  }

  // stomp_read_line: length counts the text only.
  method ReadLine(c: Connection) returns (ok: bool, data: array?<char>, length: nat)
    modifies c`incoming
    ensures ok <==> Scan(old(c.incoming), true).Ok?
    ensures !ok ==> c.incoming == ""
    ensures ok ==> var (text, rest) := Scan(old(c.incoming), true).value;
      data != null && fresh(data) && data[..] == text + "\0" && length == |text| && c.incoming == rest
  {
    var bytesRead;
    ok, data, bytesRead := ReadTerminated(c, true);
    length := if ok then bytesRead - 1 else 0;
  }

  // stomp_read_buffer
  method ReadBuffer(c: Connection) returns (ok: bool, data: array?<char>)
    modifies c`incoming
    ensures ok <==> Scan(old(c.incoming), false).Ok?
    ensures !ok ==> c.incoming == ""
    ensures ok ==> var (text, rest) := Scan(old(c.incoming), false).value;
      data != null && fresh(data) && data[..] == text + "\0" && c.incoming == rest
  {
    var bytesRead;
    ok, data, bytesRead := ReadTerminated(c, false);
  }

  // ----- frames -----

  method WriteHeader(c: Connection, key: string, value: string) returns (ok: bool)
    modifies c`sent
    ensures ok ==> c.sent == old(c.sent) + (key + ":" + value + "\n")
    ensures old(c.sent) <= c.sent
  {
    ok := WriteBuffer(c, key);
    if !ok { return; }
    ok := WriteBuffer(c, ":");
    if !ok { return; }
    ok := WriteBuffer(c, value);
    if !ok { return; }
    ok := WriteBuffer(c, "\n");
  }

  lemma {:induction false} LinesTextSnoc(lines: seq<Header>, h: Header)
    ensures LinesText(lines + [h]) == LinesText(lines) + (h.0 + ":" + h.1 + "\n")
  {
    if lines == [] {
      assert [h][1..] == [] && [] + [h] == [h];
    } else {
      assert (lines + [h])[1..] == lines[1..] + [h];
      LinesTextSnoc(lines[1..], h);
    }
  }

  lemma HeaderLinesSnoc(order: seq<string>, key: string, headers: map<string, string>)
    requires (forall k | k in order :: k in headers) && key in headers
    ensures HeaderLines(order + [key], headers)
         == HeaderLines(order, headers) + (key + ":" + headers[key] + "\n")
  {
    assert Pairs(order + [key], headers) == Pairs(order, headers) + [(key, headers[key])];
    LinesTextSnoc(Pairs(order, headers), (key, headers[key]));
  }

  method WriteHeaders(c: Connection, headers: map<string, string>) returns (ok: bool, ghost order: seq<string>)
    modifies c`sent
    ensures old(c.sent) <= c.sent
    ensures ok ==> IsOrder(order, headers.Keys)
    ensures ok ==> c.sent == old(c.sent) + HeaderLines(order, headers)
  {
    var remaining := headers.Keys;
    order := [];
    while remaining != {}
      invariant remaining <= headers.Keys && IsOrder(order, headers.Keys - remaining)
      invariant c.sent == old(c.sent) + HeaderLines(order, headers)
      decreases remaining
    {
      var key :| key in remaining;
      HeaderLinesSnoc(order, key, headers);
      ok := WriteHeader(c, key, headers[key]);
      if !ok { return; }
      remaining, order := remaining - {key}, order + [key];
    }
    ok := true;
  }

  // The header lines, the length and the empty line.
  method WriteHeaderBlock(c: Connection, f: OutFrame) returns (ok: bool, ghost order: seq<string>)
    requires Writable(f)
    modifies c`sent
    ensures old(c.sent) <= c.sent
    ensures ok ==> IsOrder(order, Keys(f)) && c.sent == old(c.sent) + HeaderBlock(f, order)
  {
    order := [];
    ghost var start, lines := c.sent, "";
    if f.headers.Some? {
      ok, order := WriteHeaders(c, f.headers.value);
      if !ok { return; }
      lines := HeaderLines(order, f.headers.value);
    }
    assert c.sent == start + lines;
    if HasLength(f) {
      ok := WriteHeader(c, CONTENT_LENGTH, Decimal(f.bodyLength));
      if !ok { return; }
    }
    assert c.sent == start + lines + LengthLine(f);
    ok := WriteBuffer(c, "\n");
    AssociateFour(start, lines, LengthLine(f), "\n");
  }

  method WritePayload(c: Connection, f: OutFrame) returns (ok: bool)
    requires Writable(f)
    modifies c`sent
    ensures old(c.sent) <= c.sent
    ensures ok ==> c.sent == old(c.sent) + Payload(f)
  {
    ok := true;
    if f.body.Some? {
      var bodyLength := if f.bodyLength < 0 then |f.body.value| else f.bodyLength;
      assert f.body.value[..bodyLength] == Payload(f);
      ok := WriteBuffer(c, f.body.value[..bodyLength]);
    }
  }

  // stomp_write
  method Write(c: Connection, f: OutFrame) returns (ok: bool, ghost order: seq<string>)
    requires Writable(f)
    modifies c`sent
    ensures old(c.sent) <= c.sent
    ensures ok ==> IsOrder(order, Keys(f)) && c.sent == old(c.sent) + Encode(f, order)
  {
    order := [];
    ok := WriteBuffer(c, f.command);
    if !ok { return; }
    ok := WriteBuffer(c, "\n");
    if !ok { return; }
    ok, order := WriteHeaderBlock(c, f);
    if !ok { return; }
    ok := WritePayload(c, f);
    if !ok { return; }
    ok := WriteBuffer(c, "\0\n");
    JoinParts(old(c.sent), f.command, HeaderBlock(f, order), Payload(f));
  }

  lemma JoinParts(start: string, command: string, block: string, payload: string)
    ensures start + command + "\n" + block + payload + "\0\n"
         == start + (command + "\n" + (block + (payload + "\0")) + "\n")
  {
    assert "\0\n" == "\0" + "\n";
  }

  method ReadHeaders(c: Connection) returns (r: Result<map<string, string>>)
    modifies c`incoming
    ensures match ParseHeaders(old(c.incoming), map[])
      case Err(e) => r == Err(e)
      case Ok((headers, rest)) => r == Ok(headers) && c.incoming == rest
    ensures c.incoming == HeadersRest(old(c.incoming))
  {
    var headers: map<string, string> := map[];
    while true
      invariant ParseHeaders(c.incoming, headers) == ParseHeaders(old(c.incoming), map[])
      invariant HeadersRest(c.incoming) == HeadersRest(old(c.incoming))
      decreases |c.incoming|
    {
      var ok, p, length := ReadLine(c);
      if !ok { return Err(Eof); }
      if length == 0 { return Ok(headers); }
      ghost var text := p[..length];
      var p2 := 0;
      while p2 < length && p[p2] != ':'
        invariant 0 <= p2 <= length
        invariant ':' !in text[..p2]
      {
        assert text[..p2 + 1] == text[..p2] + [text[p2]];
        p2 := p2 + 1;
      }
      IndexOfIs(text, ':', p2);
      if p2 == length { return Err(General); }
      p[p2] := '\0';
      var key, value := p[..p2], p[p2 + 1..length];
      assert key == text[..p2] && value == text[p2 + 1..];
      headers := headers[key := value];
    }
  }

  // The loop that collects n bytes.
  method ReadBytes(c: Connection, n: nat) returns (ok: bool, body: string)
    modifies c`incoming
    ensures ok ==> |body| == n && old(c.incoming) == body + c.incoming
    ensures !ok ==> |old(c.incoming)| < n && c.incoming == ""
  {
    ghost var s := c.incoming;
    body := "";
    var bodyLength := n;
    while bodyLength > 0
      invariant 0 <= bodyLength <= n && |body| == n - bodyLength
      invariant s == body + c.incoming
    {
      ghost var before := body;
      var rc, chunk := c.Recv(bodyLength);
      if !rc { return false, body; }
      body := body + chunk;
      bodyLength := bodyLength - |chunk|;
      Associate(before, chunk, c.incoming);
    }
    ok := true;
  }

  method ReadSizedBody(c: Connection, n: nat) returns (r: Result<string>)
    modifies c`incoming
    ensures match ParseSizedBody(old(c.incoming), n)
      case Err(e) => r == Err(e)
      case Ok((body, rest)) => r == Ok(body) && c.incoming == rest
    ensures c.incoming == SizedRest(old(c.incoming), n)
  {
    var ok, body := ReadBytes(c, n);
    if !ok { return Err(Eof); }
    var rc, endbuffer := c.Recv(1);
    SizedBodyIs(body, endbuffer, c.incoming);
    if !rc { return Err(Eof); }
    if endbuffer[0] != '\0' { return Err(General); }
    r := Ok(body);
  }

  // The announced bytes, what could be read behind them, and the rest.
  lemma SizedBodyIs(body: string, end: string, rest: string)
    requires |end| <= 1 && (end == "" ==> rest == "")
    ensures var s := body + (end + rest);
      && SizedRest(s, |body|) == rest
      && ParseSizedBody(s, |body|)
         == if end == "" then Err(Eof) else if end[0] != '\0' then Err(General) else Ok((body, rest))
  {
    var s := body + (end + rest);
    if end != "" {
      assert s[..|body|] == body && s[|body|] == end[0] && s[|body| + 1..] == rest;
    }
  }

  // stomp_read
  method Read(c: Connection) returns (r: Result<Frame>)
    modifies c`incoming
    ensures match Parse(old(c.incoming))
      case Err(e) => r == Err(e)
      case Ok((f, _)) => r == Ok(f)
    ensures c.incoming == Rest(old(c.incoming))
  {
    var ok, p, length := ReadLine(c);
    if !ok { return Err(Eof); }
    var command := p[..length];
    var headers := ReadHeaders(c);
    if headers.Err? { return Err(headers.error); }
    if CONTENT_LENGTH in headers.value {
      var n := Atoi(headers.value[CONTENT_LENGTH]);
      if n < 0 { return Err(Undefined); }
      var body := ReadSizedBody(c, n);
      if body.Err? { return Err(body.error); }
      r := Ok(Frame(command, headers.value, body.value, n));
    } else {
      var found, body := ReadBuffer(c);
      if !found { return Err(Eof); }
      r := Ok(Frame(command, headers.value, body[..body.Length - 1], 0));
    }
  }

  // n calls on a stream of n frames, each ended by a bare NUL, return them all.
  method ReadMany(c: Connection, ghost texts: seq<string>, ghost frames: seq<Frame>, n: nat) returns (received: seq<Frame>)
    requires DecodeAll(texts, frames) && n == |texts|
    requires c.incoming == Concat(texts)
    modifies c`incoming
    ensures received == frames && c.incoming == ""
  {
    received := [];
    ghost var left, due := texts, frames;
    for i := 0 to n
      invariant DecodeAll(left, due) && |left| == n - i
      invariant c.incoming == Concat(left) && received + due == frames
    {
      NextDecodes(left, due);
      RestOfFrame(c.incoming);
      var f := Read(c);
      MoveFirst(received, due);
      received := received + [f.value];
      left, due := left[1..], due[1..];
    }
  }

  lemma NextDecodes(texts: seq<string>, frames: seq<Frame>)
    requires DecodeAll(texts, frames) && texts != []
    ensures DecodeAll(texts[1..], frames[1..])
    ensures Parse(Concat(texts)) == Ok((frames[0], Concat(texts[1..])))
  {
    FirstDecodes(texts[0], frames[0], Concat(texts[1..]));
  }

  lemma MoveFirst(a: seq<Frame>, b: seq<Frame>)
    requires b != []
    ensures (a + [b[0]]) + b[1..] == a + b
  {
  }

  method ReadFrames(c: Connection, ghost frames: seq<Carried>, n: nat) returns (received: seq<Frame>)
    requires n == |frames| && c.incoming == Concat(BareTexts(frames))
    modifies c`incoming
    ensures received == ReceivedAll(frames) && c.incoming == ""
  {
    AllBareDecode(frames);
    received := ReadMany(c, BareTexts(frames), ReceivedAll(frames), n);
  }
}

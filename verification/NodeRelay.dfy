// Messages of nodes on their way to the server: receive_from_i8 of
// byteport-stomp-client.c and what the server finds in its frames.
module NodeRelay {
  import opened Wrappers
  import opened Packets
  import opened CStrings
  import opened JsonScan
  import opened JsonText
  import Ipc
  import Connections
  import Format = StompFormat
  import Stomp
  import Bridge

  function NodeText(source: string, namespace: string, data: string, time: nat): string {
    Printed(NodeMessage(source, namespace, data, time), " }]")
  }

  // snprintf leaves room for a NUL in one byte less than the buffer: of a longer
  // text the first 20478 characters remain.
  function Fitting(text: string): (r: string)
    ensures r <= text && |r| == Min(|text|, 20478)
  {
    if |text| <= Ipc.BUFFER_SIZE - 2 then text else text[..Ipc.BUFFER_SIZE - 2]
  }

  function NodeFrame(queue: string, body: string): Format.OutFrame {
    Format.OutFrame("SEND", Some(map["destination" := queue, "content-type" := "text/plain"]),
                    Some(body), |body|)
  }

  // The message case of receive_from_i8.
  method ForwardNodeMessage(c: Connections.Connection, queue: string, namespace: string,
                            source: string, data: string, time: nat)
    returns (ok: bool, ghost order: seq<string>)
    requires CString(queue)
    modifies c`sent
    ensures ok ==>
      var frame := NodeFrame(queue, Fitting(NodeText(source, namespace, data, time)));
      Format.Writable(frame) && Format.IsOrder(order, Format.Keys(frame))
      && c.sent == old(c.sent) + Format.Encode(frame, order)
  {
    NodeMessageText(source, namespace, data, time);
    var text := "[{ \"uid\": \"" + source + ("\", \"namespace\": \"" + namespace
      + ("\", \"data\": \"" + data + ("\", \"timestamp\": \"" + Decimal(time) + "\" }]")));
    var frame := NodeFrame(queue, Fitting(text));
    ok, order := Stomp.Write(c, frame);
  }

  // What is printed from the input buffer.
  function BufferText(buffer: string, namespace: string): Ipc.Printed
    requires |buffer| == Ipc.BUFFER_SIZE
  {
    match (Ipc.PrintedSource(buffer), Ipc.PrintedData(buffer))
    case (Text(source), Text(data)) => Ipc.Text(NodeText(source, namespace, data, Ipc.MessageTime(buffer)))
    case _ => Ipc.RunsOn
  }

  // Undefined: a string to be printed does not end in the buffer.
  datatype Relayed = Sent | Failed | Undefined

  // receive_from_i8 when the next record, if one can be read, is a message.
  method ReceiveFromI8(pipe: Ipc.Pipe, inputBuffer: array<char>, c: Connections.Connection, queue: string, namespace: string)
    returns (r: Relayed, ghost order: seq<string>)
    requires inputBuffer.Length == Ipc.BUFFER_SIZE && CString(queue)
    requires Ipc.Take(pipe.bytes).Got? ==> Ipc.Take(pipe.bytes).raw.id == Ipc.MESSAGE_ID
    modifies pipe, inputBuffer, c`sent
    ensures !Ipc.Take(old(pipe.bytes)).Got? ==> r == Failed && c.sent == old(c.sent)
    ensures Ipc.Take(old(pipe.bytes)).Got? ==>
      var Got(raw, rest) := Ipc.Take(old(pipe.bytes));
      var n := Ipc.HEADER_SIZE + |raw.payload|;
      && pipe.bytes == rest && n <= Ipc.BUFFER_SIZE && n <= |old(pipe.bytes)|
      && inputBuffer[..] == Ipc.Landed(old(inputBuffer[..]), old(pipe.bytes), n)
      && (r == Undefined <==> BufferText(inputBuffer[..], namespace) == Ipc.RunsOn)
      && (r == Undefined ==> c.sent == old(c.sent))
    ensures r == Sent ==> Ipc.Take(old(pipe.bytes)).Got? && BufferText(inputBuffer[..], namespace).Text?
    ensures r == Sent ==>
      var frame := NodeFrame(queue, Fitting(BufferText(inputBuffer[..], namespace).text));
      && Format.Writable(frame) && Format.IsOrder(order, Format.Keys(frame))
      && c.sent == old(c.sent) + Format.Encode(frame, order)
  {
    order := [];
    var ok := Ipc.ReadRecord(pipe, inputBuffer);
    if !ok { return Failed, []; }
    var source, data := Ipc.PrintedSource(inputBuffer[..]), Ipc.PrintedData(inputBuffer[..]);
    if source.RunsOn? || data.RunsOn? { return Undefined, []; }
    ok, order := ForwardNodeMessage(c, queue, namespace, source.text, data.text, Ipc.MessageTime(inputBuffer[..]));
    r := if ok then Sent else Failed;
  }

  // The frame is a message to this queue.
  predicate Addressed(f: Format.Frame, queue: string) {
    && f.command == "SEND"
    && "destination" in f.headers && f.headers["destination"] == queue
    && "content-type" in f.headers && f.headers["content-type"] == "text/plain"
    && f.bodyLength == |f.body|
  }

  // The frame can be read back as a message to the queue, whatever the order of
  // its headers, and the scan of its body finds source and data.
  predicate Arrives(queue: string, body: string, source: string, data: string, order: seq<string>, rest: string) {
    var frame := NodeFrame(queue, Fitting(body));
    && Format.Transportable(frame)
    && (Format.IsOrder(order, Format.Keys(frame)) ==>
          var read := Format.Parse(Format.Encode(frame, order) + rest);
          read.Ok? && read.value.1 == "\n" + rest && read.value.0.body == body && Addressed(read.value.0, queue))
    && Values(body, Needle("uid"), Bridge.MAX_ENTRIES) == [source]
    && Values(body, Needle("data"), Bridge.MAX_ENTRIES) == [data]
  }

  lemma NodeMessageArrives(queue: string, namespace: string, source: string, data: string, time: nat,
                           order: seq<string>, rest: string)
    requires Format.LineSafe(queue) && Plain(source) && Plain(namespace) && Plain(data)
    requires |NodeText(source, namespace, data, time)| <= Ipc.BUFFER_SIZE - 2
    ensures Arrives(queue, NodeText(source, namespace, data, time), source, data, order, rest)
  {
    var text := NodeText(source, namespace, data, time);
    var frame := NodeFrame(queue, Fitting(text));
    FrameTransportable(queue, text);
    NodeMessageScanned(source, namespace, data, time, Bridge.MAX_ENTRIES);
    if Format.IsOrder(order, Format.Keys(frame)) {
      Format.RoundTrip(frame, order, rest);
    }
  }

  lemma BufferTextIs(before: string, source: string, time: uint64, text: string, namespace: string, rest: string)
    requires |before| == Ipc.BUFFER_SIZE && CString(text) && Ipc.Postable(Ipc.FromNode(source, time, text + "\0"))
    ensures Ipc.FitsBuffer(Ipc.Encode(Ipc.FromNode(source, time, text + "\0")))
    ensures var wire := Ipc.Wire(Ipc.Encode(Ipc.FromNode(source, time, text + "\0")));
      |wire| <= Ipc.BUFFER_SIZE
      && BufferText(Ipc.Landed(before, wire + rest, |wire|), namespace) == Ipc.Text(NodeText(source, namespace, text, time))
  {
    Ipc.FromNodeLands(before, source, time, text + "\0", rest);
    Ipc.FieldsReadBack(before, source, time, text + "\0");
    assert text + "\0" + "" == text + "\0";
    Ipc.PrintedDataTerminated(before, source, time, text, "");
  }

  // From the socket to the server: a text that the node sent with its NUL is
  // found by the server under the address of the node, whatever the static
  // buffer held before.
  lemma NodeToServer(before: string, source: string, time: uint64, text: string, queue: string, namespace: string,
                     order: seq<string>, more: string, rest: string)
    requires |before| == Ipc.BUFFER_SIZE && CString(text) && Ipc.Postable(Ipc.FromNode(source, time, text + "\0"))
    requires Format.LineSafe(queue) && Plain(source) && Plain(namespace) && Plain(text)
    requires |NodeText(source, namespace, text, time)| <= Ipc.BUFFER_SIZE - 2
    ensures Ipc.FitsBuffer(Ipc.Encode(Ipc.FromNode(source, time, text + "\0")))
    ensures var wire := Ipc.Wire(Ipc.Encode(Ipc.FromNode(source, time, text + "\0")));
      |wire| <= Ipc.BUFFER_SIZE
      && var printed := BufferText(Ipc.Landed(before, wire + more, |wire|), namespace);
         printed.Text? && Arrives(queue, printed.text, source, text, order, rest)
  {
    BufferTextIs(before, source, time, text, namespace, more);
    NodeMessageArrives(queue, namespace, source, text, time, order, rest);
  }

  // ----- a run of messages -----

  // Whatever the input buffer holds when the record is read into it: this body
  // is printed.
  ghost predicate Prints(r: Ipc.Sent, namespace: string, body: string) {
    r.FromNode? && forall buffer: string, more: string | |buffer| == Ipc.BUFFER_SIZE ::
      PrintsFrom(buffer, more, r, namespace, body)
  }

  predicate PrintsFrom(buffer: string, more: string, r: Ipc.Sent, namespace: string, body: string)
    requires |buffer| == Ipc.BUFFER_SIZE
  {
    BufferText(Ipc.Landed(buffer, Ipc.WireOf(r) + more, |Ipc.WireOf(r)|), namespace) == Ipc.Text(body)
  }

  ghost predicate PrintAll(records: seq<Ipc.Sent>, namespace: string, bodies: seq<string>) {
    |records| == |bodies| && forall i | 0 <= i < |records| :: Prints(records[i], namespace, bodies[i])
  }

  lemma TerminatedPrints(source: string, time: uint64, text: string, namespace: string)
    requires CString(text) && Ipc.Postable(Ipc.FromNode(source, time, text + "\0"))
    ensures Prints(Ipc.FromNode(source, time, text + "\0"), namespace, NodeText(source, namespace, text, time))
  {
    var r: Ipc.Sent := Ipc.FromNode(source, time, text + "\0");
    forall buffer: string, more: string | |buffer| == Ipc.BUFFER_SIZE
      ensures PrintsFrom(buffer, more, r, namespace, NodeText(source, namespace, text, time))
    {
      BufferTextIs(buffer, source, time, text, namespace, more);
    }
  }

  // The frames that carry these bodies, in any order of the headers.
  predicate Carry(queue: string, bodies: seq<string>, frames: seq<Format.Carried>) {
    |frames| == |bodies| && forall i | 0 <= i < |frames| :: frames[i].frame == NodeFrame(queue, Fitting(bodies[i]))
  }

  lemma FirstRecord(records: seq<Ipc.Sent>)
    requires records != []
    ensures var w := Ipc.WireOf(records[0]);
      && Ipc.Stream(records) == w + Ipc.Stream(records[1..])
      && (records[0].FromNode? ==> Ipc.Take(Ipc.Stream(records)).Got?)
      && (Ipc.Take(Ipc.Stream(records)).Got? ==>
            var Got(raw, rest) := Ipc.Take(Ipc.Stream(records));
            raw == Ipc.Encode(records[0]) && rest == Ipc.Stream(records[1..]) && |w| == Ipc.HEADER_SIZE + |raw.payload|)
  {
    Ipc.DecodeInverts(records[0]);
    Ipc.StreamCons(records);
    Ipc.TakeWire(Ipc.Encode(records[0]), Ipc.Stream(records[1..]));
  }

  // One call, when the next record prints this body.
  method RelayOne(pipe: Ipc.Pipe, inputBuffer: array<char>, c: Connections.Connection, queue: string, namespace: string,
                  ghost records: seq<Ipc.Sent>, ghost body: string)
    returns (ok: bool, ghost frame: Format.Carried)
    requires inputBuffer.Length == Ipc.BUFFER_SIZE && Format.LineSafe(queue)
    requires records != [] && pipe.bytes == Ipc.Stream(records) && Prints(records[0], namespace, body)
    modifies pipe, inputBuffer, c`sent
    ensures ok ==> pipe.bytes == Ipc.Stream(records[1..]) && frame.frame == NodeFrame(queue, Fitting(body))
    ensures ok ==> c.sent == old(c.sent) + Format.WriterText(frame)
  {
    FirstRecord(records);
    assert PrintsFrom(inputBuffer[..], Ipc.Stream(records[1..]), records[0], namespace, body);
    FrameTransportable(queue, Fitting(body));
    var r;
    ghost var order;
    r, order := ReceiveFromI8(pipe, inputBuffer, c, queue, namespace);
    ok := r.Sent?;
    frame := *;
    if ok {
      frame := Format.OrderedFrame(NodeFrame(queue, Fitting(body)), order);
    }
  }

  // So long as writing succeeds, the frames of all records are sent one behind
  // the other.
  method RelayAll(pipe: Ipc.Pipe, inputBuffer: array<char>, c: Connections.Connection, queue: string, namespace: string,
                  n: nat, ghost records: seq<Ipc.Sent>, ghost bodies: seq<string>)
    returns (ok: bool, ghost frames: seq<Format.Carried>)
    requires inputBuffer.Length == Ipc.BUFFER_SIZE && Format.LineSafe(queue)
    requires n == |records| && pipe.bytes == Ipc.Stream(records) && PrintAll(records, namespace, bodies)
    modifies pipe, inputBuffer, c`sent
    ensures ok ==> pipe.bytes == "" && Carry(queue, bodies, frames)
    ensures ok ==> c.sent == old(c.sent) + Format.Concat(Format.WriterTexts(frames))
  {
    frames := [];
    ghost var start, left, sent, due := c.sent, records, [], bodies;
    assert Format.WriterTexts([]) == [];
    for i := 0 to n
      invariant |left| == n - i && PrintAll(left, namespace, due) && pipe.bytes == Ipc.Stream(left)
      invariant sent + due == bodies && Carry(queue, sent, frames)
      invariant c.sent == start + Format.Concat(Format.WriterTexts(frames))
    {
      ghost var frame;
      PrintsNext(left, namespace, due);
      ok, frame := RelayOne(pipe, inputBuffer, c, queue, namespace, left, due[0]);
      if !ok { return; }
      StreamOfFramesSnoc(frames, frame, start);
      CarryNext(queue, sent, due, frames, frame);
      frames, left, sent, due := frames + [frame], left[1..], sent + [due[0]], due[1..];
    }
    assert sent == bodies;
    ok := true;
  }

  lemma PrintsNext(records: seq<Ipc.Sent>, namespace: string, bodies: seq<string>)
    requires PrintAll(records, namespace, bodies) && records != []
    ensures Prints(records[0], namespace, bodies[0]) && PrintAll(records[1..], namespace, bodies[1..])
  {
  }

  lemma CarryNext(queue: string, sent: seq<string>, due: seq<string>, frames: seq<Format.Carried>, frame: Format.Carried)
    requires due != [] && Carry(queue, sent, frames) && frame.frame == NodeFrame(queue, Fitting(due[0]))
    ensures Carry(queue, sent + [due[0]], frames + [frame]) && (sent + [due[0]]) + due[1..] == sent + due
  {
  }

  lemma {:induction false} ConcatSnoc(texts: seq<string>, text: string)
    ensures Format.Concat(texts + [text]) == Format.Concat(texts) + text
  {
    if texts == [] {
      assert [text][1..] == [] && [] + [text] == [text];
      assert Format.Concat([text]) == text + "";
    } else {
      assert (texts + [text])[1..] == texts[1..] + [text];
      ConcatSnoc(texts[1..], text);
    }
  }

  lemma StreamOfFramesSnoc(frames: seq<Format.Carried>, frame: Format.Carried, start: string)
    ensures start + Format.Concat(Format.WriterTexts(frames + [frame]))
         == (start + Format.Concat(Format.WriterTexts(frames))) + Format.WriterText(frame)
  {
    assert Format.WriterTexts(frames + [frame]) == Format.WriterTexts(frames) + [Format.WriterText(frame)];
    ConcatSnoc(Format.WriterTexts(frames), Format.WriterText(frame));
  }

  lemma HeaderNames()
    ensures forall k | k in {"destination", "content-type"} ::
              Format.LineSafe(k) && ':' !in k && k != Format.CONTENT_LENGTH
    ensures Format.LineSafe("SEND") && Format.LineSafe("text/plain")
  {
    assert "destination"[0] == 'd' && "content-length"[0] == 'c';
    assert "content-length"[8] == 'l' && "content-type"[8] == 't';
  }

  lemma FrameTransportable(queue: string, body: string)
    requires Format.LineSafe(queue) && |body| < 0x8000_0000
    ensures Format.Transportable(NodeFrame(queue, body)) && Format.Received(NodeFrame(queue, body)).body == body
    ensures Addressed(Format.Received(NodeFrame(queue, body)), queue)
  {
    var frame := NodeFrame(queue, body);
    HeaderNames();
    assert body[..|body|] == body;
    assert Format.Keys(frame) == {"destination", "content-type"};
  }
}

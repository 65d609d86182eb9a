# The byte path of the Byteport gateway

This project models how bytes travel through the Byteport gateway and proves
what survives on the way: radio fragments of nodes are merged into messages
(`c/i8-transceiver`), messages cross a Unix socket as length-prefixed records
(`c/libs/libipc`), the messenger turns them into STOMP frames and server frames
into records (`c/byteport-stomp-client`, `c/libs/libstomp`). Three stateful or
arithmetic parts of the Python client are modelled as well: timestamps, the
directory poller and the SOCKS5 and HTTP CONNECT handshakes.

Code that updates memory in place is modelled in place: the slot queue, node
lists and buffers are arrays, the gateway, sockets, memory pool and poller are
classes, the loops of the source are loops. Every such method is proved equal to
a function of its inputs or of the old state; the main theorems are lemmas about
these functions, for all inputs or all runs.

| module | models |
|---|---|
| `Wrappers`, `Memory`, `CStrings` | optional values, memset, memcpy, strchr, atoi, decimal printing |
| `Packets` | packets and the sender that cuts a message into 80-byte fragments |
| `PacketQueue` | the flat slot array: store, evict, remove, merge |
| `Coverage` | what the byte-count completeness test establishes |
| `Delivery`, `Overload` | interleaved fragment streams against the receiver; what a full queue costs |
| `NodeLists`, `Addresses` | whitelist and comlist; 8-byte addresses |
| `Transceiver` | the main loop as a state machine, and as a class over arrays |
| `Connections`, `StompFormat`, `Stomp` | a stream with arbitrary chunk sizes; the frame format; the reader and writer over it |
| `JsonScan`, `JsonText` | the field scanner and its pool; what it finds in printed messages |
| `HexAddresses`, `IdLists`, `Reports` | printed addresses, the id list of a whitelist command, the status report |
| `Ipc` | records on the Unix socket and the static buffers they land in |
| `Statics` | the output buffer of the messenger with the pool behind it, and strncpy into it |
| `Bridge`, `ServerRecords`, `GatewayCommands` | the handler for messages of the server; what becomes of a printed array of records, and of a command to the gateway |
| `NodeRelay`, `EndToEnd` | messages of nodes as frames; from the sender of a node to the scan at the server |
| `Whitelisting` | node lists as the transceiver reads them from its receive buffer |
| `Doubles`, `Timestamps`, `DeltaSync`, `Socks5` | the Python parts |

Main results:

- every message sent by the fragmenter, up to the 20480 bytes of the merge buffer,
  is delivered by the transceiver exactly once and byte for byte, for any
  interleaving of any number of streams, with packet ids used again, and packets of
  unlisted nodes and acknowledgements in between (`Delivery.EachMessageOnceAmidNoise`), provided that
  every fragment that needs a slot finds one. That is so if and only if a stated
  number of slots is free before every such turn (`Delivery.NeverFullIff`), and for
  messages without an empty last fragment it is necessary too
  (`Overload.DeliveredIffRoom`);
- every byte of a forwarded message is zero or was sent at that place by the same,
  then listed, source (`Transceiver.ForwardedProvenance`);
- over every run the two counters are the number of packets since the last report
  and the number of those from unlisted sources (`Transceiver.CountersExact`), and
  whoever reads the text of the report finds these numbers, the sizes of both lists,
  the nodes and the time under their names (`Reports.ReportTellsRun`);
- a command of the server changes the whitelist of the transceiver as it says, from
  the printed message to the list (`GatewayCommands.Obey`), and for every other
  message to the gateway it is stated what the transceiver receives;
- the messenger reads all delivered messages from the socket if and only if none
  is longer than 20396 bytes (`EndToEnd.MessagesReadIff`);
- every text a node hands to its sender is found by the server exactly once, under
  the printed address of the node, in the frames that a reader allowing for the
  writer's newlines gets from the one byte stream of the messenger; all of them are
  messages to the queue (`EndToEnd.EachTextFound`, and `EndToEnd.TellServer` for the
  programs one behind the other);
- STOMP frames come back unaltered one after the other for any chunk sizes
  (`StompFormat.StreamRoundTrip`, `Stomp.ReadFrames`), and of a stream that ends
  inside a frame the reader makes nothing but the error for it
  (`StompFormat.FrameCut`);
- any mixture of records within the limit of the readers stays aligned on the socket
  (`Ipc.StreamSplits`);
- for every datetime, exactly when the text sent for it denotes its microseconds
  (`Timestamps.TimestampExactIff`), and a bound up to which it always does
  (`Timestamps.TimestampExact`, `Doubles.BoundIsTight`);
- sending differences equals sending everything (`DeltaSync.DeltaRefinesFull`), so
  after a good poll every file is on the server with its content
  (`DeltaSync.Poller.PollRounds`);
- the outcome of the SOCKS5 handshake against every conforming server, and the
  bytes it leaves unread (`Socks5.HandshakeVerdict`, `Socks5.HandshakeAligned`),
  and its errors on any stream at all (`Socks5.ErrorsIff`, `Socks5.CutShort`).

## Where the code does less than it seems to

Each of these is stated exactly, with a counterexample, an if-and-only-if, or
both:

- The `strncpy` of message data into the output buffer gets a limit that ignores
  the offset of the data field. It pads with NULs to that limit, 76 bytes behind
  the buffer, for every message. Whatever of the scanner's pool lies there is
  zeroed. With the pool directly behind the buffer, as declared, the second of two
  records with 16-digit addresses is sent to nobody and without data
  (`ServerRecords.SecondRecordLost`). Record i is sent unaltered if and only if it
  is the first, or what it has lies behind the zeroed part
  (`ServerRecords.RecordsReachTransceiver`); without empty uids all are if and
  only if there is one record or the first uid has 75 characters
  (`ServerRecords.AllRecordsArriveIff`, for any distance between buffer and pool).
- The completeness test adds up sizes, so a fragment received twice can stand in
  for a missing one (`Coverage.DuplicateAccepted`). An accepted message is
  complete if and only if no two of its fragments overlap
  (`Coverage.AcceptedCompleteIffApart`).
- On a full queue the incoming packet is dropped although 0 is returned
  (`PacketQueue.StoredIff`, `Transceiver.FullQueueEvicts`); the next one is stored.
  Then some message never comes out (`Overload.OverflowLosesMessage`).
- A merged message of 20397 to 20480 bytes is copied up to 84 bytes over what lies
  behind the transmit buffer (`c/i8-transceiver/i8-transceiver.c`, line 1222) and
  announced with a size that the messenger refuses. The record of a message is
  taken if and only if the message has at most 20396 bytes (`Ipc.NodeRawTakenIff`,
  `EndToEnd.OutputTakenIff`); a longer one keeps all later ones from being read
  (`EndToEnd.ReadThroughIff`). A message that fills the merge buffer:
  `EndToEnd.FullBufferRefused`.
- `stomp_write` ends a frame with NUL and newline, `stomp_read` stops behind the
  NUL. A stream of the own writer can be read back if and only if it is at most
  one frame (`StompFormat.WriterStreamReadable`). The STOMP 1.2 specification
  (section "Augmented BNF") lets newlines follow a frame; a reader that skips them
  gets all frames back (`StompFormat.WriterStreamReadBack`).
- With repeated headers the last line of a name wins
  (`StompFormat.RepeatedHeaders`). That is what section "Repeated Header Entries"
  of the STOMP 1.2 specification demands if and only if no name occurs first and
  last with different values (`StompFormat.LastIsFirstIff`); two lines for which it
  is not: `StompFormat.SecondLineKept`.
- The scanner returns one less than it has stored when the message ends with the
  closing quote of a value (`JsonText.CountExactIff`).
- Node ids of a whitelist command are parsed by `strtoll`, which saturates: a
  list arrives unaltered if and only if no id exceeds 2^63 - 1
  (`IdLists.IdsRoundTripIff`).
- A command to add an empty list of ids clears the whitelist, since the list it
  becomes is the one that stands for clearing (`GatewayCommands.AddNothingClears`).
- A frame with an announced length has no NUL behind its body in memory, and the
  handler reads the body as a string. A frame of the server is handled if and only
  if no length was announced or the body has a NUL of its own (`Bridge.HandledIff`).
- `nodelist_append` ignores the length of a received list and reads on in the
  receive buffer. A list extends the whitelist by exactly its nodes if and only
  if the entry behind them in the buffer is zero or the whitelist is full
  (`Whitelisting.ListExactIff`); so a node can return after a clearing
  (`Whitelisting.ClearedNodeReturns`).
- Message data on the Unix socket has no terminator but is printed with `%s`: it
  is passed on unaltered if and only if the static buffer already held a NUL
  directly behind it (`Ipc.PrintedDataExact`), which over a run depends on the
  last earlier record that reached there (`Ipc.RunPrintedExact`; a short record
  behind a longer one: `Ipc.ShortAfterLong`). Data that carries its own NUL is safe
  (`Ipc.PrintedDataTerminated`).
- More than 2^33 seconds before or after the epoch the division by 1e6 can lose the
  microsecond. `Doubles.PrintedSignedIff` says for which datetimes, up to the year
  9999, the conversion of the integer to a double included. Up to 2^53 microseconds
  they are those less than half a microsecond from a multiple of 2^-19 seconds, and
  of the ones exactly half away the even ones (`Doubles.SurvivesBelow`). Whole
  seconds always survive (`Doubles.WholeSecondsSurvive`); the first microsecond
  behind 2^33 seconds does not (`Doubles.BoundIsTight`).
- If a store fails after the server kept some fields, the server can stay wrong
  for good. Whatever it kept and whatever follows, the next good poll repairs it
  if and only if no known file had changed (`DeltaSync.RecoversIff`); over whole
  runs see `DeltaSync.UpToDateDespiteFailures` and
  `DeltaSync.StaleAfterChangedFailure`.
- Under Python 2, `chr(n).encode()` raises for n above 127. So names of 128 bytes
  or more cannot be requested, and for a server without acceptable method another
  exception comes before the module's own error. IPv6 bound addresses are refused.
  `Socks5.OutcomeIff` gives the exact cause of every outcome.
- Address 0 counts as whitelisted as long as the list is not full, because the
  search runs over unused entries (`NodeLists.FindOnTidy`).

## Conventions

A byte of text or payload is a `char`, a C string is the sequence of the
characters before its NUL, NULL is `None` or `null`. Widths that matter are
written out: 8-, 32- and 64-bit subset types, the 32-bit sum in the last-fragment
test, 32-bit counters, the saturation of `strtoll`. Struct sizes are those of a
64-bit machine. Clock readings, received packets and file contents are
parameters, as is the distance between the output buffer and the pool; chunk
sizes of `recv` and `send` and the results of a store are
arbitrary.

## Model

| member | source | states |
|---|---|---|
| Packets.SendPacket | c/i8-transceiver/test_mode.c:152-185 | the packet carries the given slice of the message, zero-padded, and every header field as given |
| Packets.SendMessage | c/i8-transceiver/test_mode.c:110-141 | the packets sent are exactly the fragments of the string with its NUL, in order |
| Packets.FragmentsConcatenate | c/i8-transceiver/test_mode.c:125-140 | the payloads of the first n fragments are the prefix of the message they should be; all of them are the message |
| PacketQueue.AddToQueue | c/i8-transceiver/i8-transceiver.c:992-1028 | the new queue is the old one with the first free slot filled, or, if none is free, after eviction and without the packet |
| PacketQueue.StoredIff | c/i8-transceiver/i8-transceiver.c:1001-1027 | the packet is in a slot that did not hold it before if and only if some slot was free |
| PacketQueue.CleanQueue | c/i8-transceiver/i8-transceiver.c:1117-1147 | all fragments of the message that owns the first slot with the least timestamp are removed |
| PacketQueue.RemovePacket | c/i8-transceiver/i8-transceiver.c:1161-1184 | exactly the slots of the key become zero |
| PacketQueue.CollectFromQueue | c/i8-transceiver/i8-transceiver.c:1050-1103 | queue, buffer, size, timestamp and return value are those of the merge, early return included |
| PacketQueue.Oldest | c/i8-transceiver/i8-transceiver.c:1117-1147 | the index found is the first among the candidates with the least timestamp, or -1 if and only if there is no candidate |
| PacketQueue.MergeFrame | c/i8-transceiver/i8-transceiver.c:1067-1097 | for any input only slots of the key change, and they become free; all of them do unless the merge stops early |
| Coverage.CountVersusCover | c/i8-transceiver/i8-transceiver.c:1085-1099 | the byte count is at least the number of covered bytes, and equal to it if and only if the fragments are pairwise disjoint |
| Coverage.CollectOfPieces | c/i8-transceiver/i8-transceiver.c:1050-1103 | for any pieces of one message: success if and only if the sizes add up, every slot of the key freed, no other touched, covered bytes right and uncovered ones zero |
| Coverage.CollectIffComplete | c/i8-transceiver/i8-transceiver.c:1050-1103 | for disjoint pieces in any slot order: success if and only if they cover the message, and then the buffer is the message |
| Coverage.AcceptedCompleteIffApart | c/i8-transceiver/i8-transceiver.c:1099-1102 | an accepted message is complete if and only if no two pieces overlap |
| Coverage.DuplicateAccepted | c/i8-transceiver/i8-transceiver.c:1085-1099 | a first half received twice is accepted as the whole message |
| Delivery.MergeComplete | c/i8-transceiver/i8-transceiver.c:571-592 | with all fragments queued the merge yields the message, frees its slots and changes no slot of another message |
| Delivery.MergeEmptyTail | c/i8-transceiver/i8-transceiver.c:571-587 | the empty fragment behind a message of a multiple of 80 bytes starts a merge that fails and leaves no slot behind |
| Delivery.ParseFragment | c/i8-transceiver/i8-transceiver.c:535-618 | the arrival of fragment n, for every n, queues it, completes the message or is absorbed, and touches no other message; a free slot is needed only if the message has more than one packet |
| Delivery.Progress | c/i8-transceiver/i8-transceiver.c:535-618 | invariant of every interleaved run, packet ids used again included: for each message exactly the pending fragments are queued, foreign slots are unchanged, the output so far is the completed messages in order |
| Delivery.EachMessageOnce | c/i8-transceiver/i8-transceiver.c:535-618 | any interleaving of complete streams, one after the other per key, delivers each message exactly once, byte for byte, in order of completion, and leaves none of their slots occupied, if every fragment that is stored finds a slot |
| Delivery.NoiseHarmless | c/i8-transceiver/i8-transceiver.c:480-656 | over any run, packets of unlisted sources, acknowledgements and status reports change neither queue nor whitelist nor what is delivered |
| Delivery.EachMessageOnceAmidNoise | c/i8-transceiver/i8-transceiver.c:454-656 | exactly-once delivery also with any such events in between |
| Delivery.OccupiedIs | c/i8-transceiver/i8-transceiver.c:992-1103 | over any such run the occupied slots are those from before plus the pending fragments |
| Delivery.NeverFullIff | c/i8-transceiver/i8-transceiver.c:1001-1025 | every fragment that is stored finds a slot if and only if before each of these turns the slots occupied from the start and the fragments then pending leave one free |
| Delivery.EnoughSlots | c/i8-transceiver/i8-transceiver.c:1001-1019 | in particular a queue with a free slot per fragment of the traffic |
| Overload.OverflowLosesMessage | c/i8-transceiver/i8-transceiver.c:1001-1027 | if any stored fragment of complete, interleaved streams finds the queue full, fewer messages come out than were sent, whatever happens later |
| Overload.DeliveredIffRoom | c/i8-transceiver/i8-transceiver.c:535-618 | so every message is delivered exactly once if and only if every stored fragment finds a free slot |
| NodeLists.NodelistAdd | c/i8-transceiver/i8-transceiver.c:810-843 | new list and result as specified: unchanged if the node is there or the list is full, else the first zero is replaced |
| NodeLists.NodelistAppend | c/i8-transceiver/i8-transceiver.c:855-890 | the prefix of the appended list is copied behind the prefix of the target, as far as it fits |
| NodeLists.NodelistFind | c/i8-transceiver/i8-transceiver.c:902-913 | true if and only if the node occurs anywhere in the array |
| NodeLists.NodelistCount | c/i8-transceiver/i8-transceiver.c:922-936 | the number of nonzero entries |
| NodeLists.AppendConcatenates | c/i8-transceiver/i8-transceiver.c:855-890 | appending is concatenation of the node sequences cut at 1024, and keeps the nonzero-prefix form |
| NodeLists.AddKeepsDistinct | c/i8-transceiver/i8-transceiver.c:810-843 | adding keeps the list duplicate-free and in prefix form, and fails if and only if the node is new and the list full |
| NodeLists.FindOnTidy | c/i8-transceiver/i8-transceiver.c:902-913 | the search finds exactly the listed nodes, and address 0 if an entry is unused |
| NodeLists.CountIsPrefixCount | c/i8-transceiver/i8-transceiver.c:922-936 | counting all nonzero entries agrees with the prefix count used by append |
| Addresses.NetworkToUint64 | c/i8-transceiver/i8-transceiver.c:1262-1275 | the result is the big-endian positional value, and converting back gives the bytes |
| Addresses.Uint64ToNetwork | c/i8-transceiver/i8-transceiver.c:1284-1292 | the bytes written have the value as their big-endian value |
| Addresses.NetworkOrder | c/i8-transceiver/i8-transceiver.c:1262-1275 | the bytes in front count by the power of 256 of those behind them |
| Addresses.FromNetworkInverts | c/i8-transceiver/i8-transceiver.c:1262-1292 | for all 64-bit values: to bytes and back is the identity |
| Addresses.ToNetworkInverts | c/i8-transceiver/i8-transceiver.c:1262-1292 | for all 8-byte arrays: to the value and back is the identity |
| Transceiver.SlotProvenance | c/i8-transceiver/i8-transceiver.c:562-597 | in every run a slot that was free at the start is entirely zero or holds, unaltered, a packet that arrived earlier in the run from a source whitelisted at that moment, with nonzero timestamp and total size above its data size |
| Transceiver.ForwardedOnlyIfListed | c/i8-transceiver/i8-transceiver.c:480-618 | in every run a message is forwarded only for the source of the packet just received, and only if that source is listed (or is 0 and the list not full) |
| Transceiver.ForwardedProvenance | c/i8-transceiver/i8-transceiver.c:480-618 | in every run from an empty queue a forwarded message is no acknowledgement; it is the packet just received, with its time, or each of its bytes is zero or was sent at that place of that message by the same source while it was listed, and its time is the arrival of a packet of that message (only a message 0 of address 0 can have time 0) |
| Transceiver.CountersExact | c/i8-transceiver/i8-transceiver.c:480-531 | in every run from zero the one counter is the number of packets since the last report, the other the number of those whose source was not listed when they arrived, both modulo 2^32 |
| Transceiver.CountersCountParsed | c/i8-transceiver/i8-transceiver.c:480-531 | so they differ by the packets handed to the parser |
| Transceiver.ReportAccounts | c/i8-transceiver/i8-transceiver.c:629-656 | after every run the report shows these two numbers and the true sizes and nodes of the lists |
| Transceiver.ListedWasRejected | c/i8-transceiver/i8-transceiver.c:490-495 | in every run each node of the communication list sent a packet that was rejected |
| PacketQueue.MergedTime | c/i8-transceiver/i8-transceiver.c:1067-1097 | a merge that is not broken off takes the time of the first slot of the key that is not empty |
| Transceiver.WhitelistHistory | c/i8-transceiver/i8-transceiver.c:408-422 | in every run the whitelist is the concatenation of the list fields seen since the last clearing, cut at 1024 |
| Transceiver.RejectedIsListed | c/i8-transceiver/i8-transceiver.c:490-495 | in every run a rejected source stays in the communication list unless that list was full |
| Transceiver.FullQueueEvicts | c/i8-transceiver/i8-transceiver.c:1021-1027 | on a full queue exactly the fragments of the message owning the first oldest slot are removed and the packet is not stored |
| Transceiver.NextPacketStored | c/i8-transceiver/i8-transceiver.c:1002-1025 | after an eviction the next packet is stored |
| Transceiver.Gateway.constructor | c/i8-transceiver/i8-transceiver.c:193-275 | queue, lists and counters start as zero |
| Transceiver.Gateway.OnWhitelist | c/i8-transceiver/i8-transceiver.c:408-422 | the arrays step as the machine does on a list field: cleared or appended |
| Whitelisting.OnRecord | c/i8-transceiver/i8-transceiver.c:371-451 | a record is read into the receive buffer; a list record steps the gateway with the list field of that buffer, a message leaves it as it is |
| Whitelisting.OnSent | c/i8-transceiver/i8-transceiver.c:371-451 | a list record that was sent changes the whitelist and nothing else, a message record nothing at all |
| Whitelisting.ListLands | c/i8-transceiver/i8-transceiver.c:377-421 | after a list record the field holds its nodes and then what the buffer held before |
| Whitelisting.ListAppends | c/i8-transceiver/i8-transceiver.c:415-422 | the whitelist grows by the nodes, however many, and by the nonzero entries directly behind them, cut at 1024 |
| Whitelisting.ListExactIff | c/i8-transceiver/i8-transceiver.c:855-890 | by exactly the nodes if and only if the entry behind them is zero or the whitelist is full with them |
| Whitelisting.ClearedNodeReturns | c/i8-transceiver/i8-transceiver.c:415-422 | two nodes, a clearing and one node: the second is listed again |
| Transceiver.Gateway.OnRadio | c/i8-transceiver/i8-transceiver.c:454-626 | the arrays and the messages passed on are those of the machine's step for a packet |
| Transceiver.Gateway.OnTimeout | c/i8-transceiver/i8-transceiver.c:629-656 | the report shows both counters and lists, and the counters restart at zero |
| Reports.BuildStatsMsg | c/i8-transceiver/i8-transceiver.c:949-976 | the text is that of the report of the step, and read back it says, under the names of the source, the counters, the sizes of both lists, the nodes and the time |
| Reports.ReportReadBack | c/i8-transceiver/i8-transceiver.c:958-971 | a reader that cuts any report text at its bars, semicolons and equal signs finds the five names with their values |
| Reports.ReportTellsRun | c/i8-transceiver/i8-transceiver.c:629-656 | after every run from zero counters the text says how many packets came since the last report, how many of them from unlisted sources, and which nodes were rejected |
| Reports.ReportFits | c/i8-transceiver/i8-transceiver.c:949-976 | after any run the text fits the merge buffer and, as a record, the transmit buffer, and has no NUL |
| Reports.NodesReadBack | c/i8-transceiver/i8-transceiver.c:967-971 | the node list at its end can be read back |
| Transceiver.Gateway.MainLoop | c/i8-transceiver/i8-transceiver.c:344-657 | any number of rounds over the arrays is the run of the machine, so the run theorems hold of it |
| Stomp.WriteBuffer | c/libs/libstomp/src/stomp.c:110-125 | whatever the chunks, success means that the data was sent in order and completely; otherwise a prefix was sent |
| Stomp.CopyBlocks | c/libs/libstomp/src/stomp.c:185-206 | the new buffer holds exactly the bytes of the block list, multiples of 1024 included |
| Stomp.ReadLine | c/libs/libstomp/src/stomp.c:132-210 | the block-list reader is the flat scan to the first newline or NUL: text, terminating NUL, exact length and what is left unread |
| Stomp.ReadBuffer | c/libs/libstomp/src/stomp.c:212-289 | the same for the scan to the first NUL |
| Stomp.WriteHeaders | c/libs/libstomp/src/stomp.c:310-324 | in some iteration order every header is sent once |
| Stomp.Write | c/libs/libstomp/src/stomp.c:297-360 | success means that the encoding of the frame was sent, for some iteration order |
| Stomp.ReadHeaders | c/libs/libstomp/src/stomp.c:389-419 | the header loop is the parse of the stream, the error for a line without colon included |
| Stomp.ReadSizedBody | c/libs/libstomp/src/stomp.c:441-471 | for any chunk sizes: the announced bytes and then a NUL, or the error |
| Stomp.Read | c/libs/libstomp/src/stomp.c:362-486 | frame or error, and what is left unread in either case, are functions of the byte stream, whatever the chunks |
| Stomp.ReadFrames | c/libs/libstomp/src/stomp.c:362-486 | n calls on n frames ended by bare NULs return them all in order and leave the stream empty |
| StompFormat.RepeatedHeaders | c/libs/libstomp/src/stomp.c:389-419 | of any clean header lines the reader keeps the last of every name |
| StompFormat.LastIsFirstIff | c/libs/libstomp/src/stomp.c:416-417 | that is the first of every name if and only if no name occurs first and last with different values |
| StompFormat.SecondLineKept | c/libs/libstomp/src/stomp.c:416-417 | of two lines with one name the reader keeps the second, where the specification keeps the first |
| StompFormat.BareRoundTrip | c/libs/libstomp/src/stomp.c:297-486 | reading inverts writing for every iteration order and stops exactly behind the NUL |
| StompFormat.RoundTrip | c/libs/libstomp/src/stomp.c:297-486 | reading what was written returns command, headers (with the content-length added) and body, and leaves the newline |
| StompFormat.AnnouncedIff | c/libs/libstomp/src/stomp.c:325-340 | a length is announced, the real one, if and only if there are headers and a length of 0 or more was handed over |
| StompFormat.LengthRead | c/libs/libstomp/src/stomp.c:441-471 | a frame with any content-length that atoi reads as the length of its body is read, or refused if no NUL follows the body |
| StompFormat.SpacedLength | c/libs/libstomp/src/stomp.c:441 | spaces and a plus sign before the digits and other characters behind them do not matter |
| CStrings.AtoiOf | c/libs/libstomp/src/stomp.c:441 | atoi of spaces, a sign and digits, with anything behind them, is the number with its sign |
| CStrings.AtoiWithoutDigits | c/libs/libstomp/src/stomp.c:441 | without a digit behind spaces and sign it is 0 |
| StompFormat.EofEmpties | c/libs/libstomp/src/stomp.c:362-486 | after the error for the end of the stream nothing is left to be read |
| StompFormat.FrameCut | c/libs/libstomp/src/stomp.c:362-486 | of any stream that begins with a frame, k bytes give that frame if they hold all of it, and else the error for the end of the stream |
| StompFormat.StreamRoundTrip | c/libs/libstomp/src/stomp.c:362-486 | streams of frames are split back into the same frames, even if bodies contain NULs and newlines |
| StompFormat.NewlineSpoilsNext | c/libs/libstomp/src/stomp.c:354-405 | a frame behind the writer's newline is answered with the general error |
| StompFormat.WriterStreamReadable | c/libs/libstomp/src/stomp.c:354-471 | n frames of the writer can be read back if and only if n is at most 1 |
| StompFormat.WriterStreamReadBack | c/libs/libstomp/src/stomp.c:297-360 | a reader that skips the line ends behind a frame splits n frames of the writer into the same n frames, to the last byte |
| JsonScan.Pool.Init | c/byteport-stomp-client/byteport-stomp-client.c:68-72 | the pool is zeroed and empty |
| JsonScan.Pool.Alloc | c/byteport-stomp-client/byteport-stomp-client.c:75-85 | the next bytes of the pool are handed out if they fit strictly, else nothing changes |
| JsonScan.PackedAt | c/byteport-stomp-client/byteport-stomp-client.c:220-223 | strings stored one behind the other are in bounds and can each be read back, terminated, at their address |
| JsonScan.ScanFits | c/byteport-stomp-client/byteport-stomp-client.c:193-229 | one scan takes no more pool bytes than the message has characters |
| JsonScan.TwoScansFit | c/byteport-stomp-client/byteport-stomp-client.c:446-448 | two scans of a message shorter than half the pool never run out of it |
| JsonScan.GetJsonValueByField | c/byteport-stomp-client/byteport-stomp-client.c:187-232 | return value, pool contents and entries are those of the specified scan; earlier pool bytes and other columns are untouched |
| JsonText.AfterPieces | c/byteport-stomp-client/byteport-stomp-client.c:199-204 | in a text cut at its quotes, the search for a quoted name finds the first piece between two quotes that equals it |
| JsonText.ScanPrinted | c/byteport-stomp-client/byteport-stomp-client.c:187-232 | on printed fields the scanner stores the values of the named field in order, as many as fit, and returns their number, less one when the text ends in such a value |
| JsonText.CountExactIff | c/byteport-stomp-client/byteport-stomp-client.c:226-231 | the returned number is the number of such fields if and only if the text does not end in one |
| JsonText.ScanRecords | c/byteport-stomp-client/byteport-stomp-client.c:446-448 | on a printed array of n records the scanner returns n and finds record i's value in entry i, whatever the field order |
| JsonText.NodeMessageScanned | c/byteport-stomp-client/byteport-stomp-client.c:329 | the message that the client prints for a node is scanned back to its source and data |
| Ipc.TakeWire | c/byteport-stomp-client/byteport-stomp-client.c:243-263 | the header-then-payload reader takes back exactly the record that was written |
| Ipc.DecodeInverts | c/libs/libipc/libipc.h:27-56 | each of the three record formats fits the buffer and means to its reader what it meant to its writer |
| Ipc.RecordLaidOut | c/libs/libipc/libipc.h:19-56 | in every record the ids are 0 and 1, integers are little-endian and lie at the offsets of the structs, and strings are padded with zeros |
| Ipc.StreamSplits | c/byteport-stomp-client/byteport-stomp-client.c:243-263 | any mixture of records is split back into the same sequence, with the rest of the stream untouched |
| Ipc.SendFromNode | c/i8-transceiver/i8-transceiver.c:1199-1250 | for every merged message the bytes sent are its record (76 + n payload bytes), and the memory behind the transmit buffer is overwritten as far as the data reaches |
| Ipc.BehindTransmitBuffer | c/i8-transceiver/i8-transceiver.c:1222 | the memory behind the transmit buffer is kept exactly as far as the data does not reach |
| Ipc.NodeRawTakenIff | c/byteport-stomp-client/byteport-stomp-client.c:243-263 | the reader takes that record if and only if the data has at most 20396 bytes, else the record is too big for it |
| Statics.Client.StrNCpy | c/byteport-stomp-client/byteport-stomp-client.c:505-506 | the field receives the string and NULs up to the limit, and pool bytes within the limit behind the buffer become NUL |
| Statics.SendToNode | c/byteport-stomp-client/byteport-stomp-client.c:502-519 | the struct sent is the encoding of the message (80 + n payload bytes, the last four zero), and the front of the pool within the overrun is zeroed |
| Ipc.ReadRecord | c/i8-transceiver/i8-transceiver.c:377-401 | the reader accepts exactly what the record parser accepts, stores the record at the start of the static buffer and keeps the bytes behind it |
| Ipc.PrintedDataExact | c/byteport-stomp-client/byteport-stomp-client.c:324-329 | data is printed unaltered if and only if the buffer held a NUL directly behind it; without a NUL up to its end the string runs on |
| Ipc.RunPrintedExact | c/byteport-stomp-client/byteport-stomp-client.c:324-329 | over a run of records: if and only if no earlier record reaches behind the data, or the last that does has a NUL there |
| Ipc.ShortAfterLong | c/byteport-stomp-client/byteport-stomp-client.c:324-329 | one byte of data behind a record with two is not printed as it is |
| Ipc.PrintedDataTerminated | c/byteport-stomp-client/byteport-stomp-client.c:324-329 | data with its own NUL is printed up to it, whatever the buffer held before |
| IdLists.ParseOfPrinted | c/byteport-stomp-client/byteport-stomp-client.c:368-382 | a printed id list is parsed to the same ids, each clamped to 2^63 - 1 |
| IdLists.StrToLLOf | c/byteport-stomp-client/byteport-stomp-client.c:370 | spaces, a sign and a number other than 0, in hexadecimal of either case, octal or decimal, are read as that number, cut to the signed 64-bit range |
| IdLists.ListReadBack | c/byteport-stomp-client/byteport-stomp-client.c:368-382 | a list of ids in any of these forms, with any spaces and commas between them, is parsed to the same ids, each clamped |
| IdLists.ZeroInvalid | c/byteport-stomp-client/byteport-stomp-client.c:371-377 | a list with the id 0 anywhere is invalid as a whole |
| IdLists.GarbageInvalid | c/byteport-stomp-client/byteport-stomp-client.c:371-377 | so is one with anything that does not begin like a number behind an id |
| IdLists.IdsRoundTripIff | c/byteport-stomp-client/byteport-stomp-client.c:368-382 | the list comes back unaltered if and only if no id exceeds 2^63 - 1 |
| Bridge.SendWhitelist | c/byteport-stomp-client/byteport-stomp-client.c:360-396 | one node-list record with the parsed ids is sent, or nothing if an id is 0 or no number |
| Statics.StringAt | c/byteport-stomp-client/byteport-stomp-client.c:457-474 | reading a pool address up to its NUL gives the stored string |
| Bridge.ReceiveFromServer | c/byteport-stomp-client/byteport-stomp-client.c:446-523 | the bytes sent to the transceiver are exactly the records of the decided reaction (none, a whitelist, one message per uid with its own data), with the strings of later messages empty that began in the zeroed part of the pool |
| Bridge.ReadAndForward | c/byteport-stomp-client/byteport-stomp-client.c:421-523 | the same from the byte stream of the server on, for any chunks; without a frame nothing is sent, and a body that has no end is told apart |
| Bridge.HandledIff | c/byteport-stomp-client/byteport-stomp-client.c:436-447 | a frame of the server is handled if and only if no length was announced or its body has a NUL, and then by what lies before the first NUL |
| Bridge.PoolSuffices | c/byteport-stomp-client/byteport-stomp-client.c:446-467 | no allocation of the handler fails for a message below half the pool (a third for a command to the gateway) |
| GatewayCommands.AddSendsIds | c/byteport-stomp-client/byteport-stomp-client.c:476-485 | for any printed message with the gateway's uid alone, the command add_to_whitelist and one list of ids, the reader of the socket finds exactly the list of these ids, clamped |
| GatewayCommands.AddSendsPrinted | c/byteport-stomp-client/byteport-stomp-client.c:476-485 | the same for the message as a server prints it |
| GatewayCommands.ClearSendsEmpty | c/byteport-stomp-client/byteport-stomp-client.c:473-474 | for clear_whitelist it finds exactly the empty list |
| GatewayCommands.AddNothingClears | c/byteport-stomp-client/byteport-stomp-client.c:476-485 | for add_to_whitelist with empty data too |
| GatewayCommands.CommandIgnored | c/byteport-stomp-client/byteport-stomp-client.c:455-484 | nothing is sent for several uids that begin with the gateway's, without a command, or for an add with other than one data string |
| GatewayCommands.ZeroIgnored | c/byteport-stomp-client/byteport-stomp-client.c:371-377 | nor for a list with the id 0 |
| GatewayCommands.GarbageIgnored | c/byteport-stomp-client/byteport-stomp-client.c:371-377 | nor for a list with something that is no number |
| GatewayCommands.OtherCommandForwarded | c/byteport-stomp-client/byteport-stomp-client.c:490-520 | any other command is sent on like a message to a node |
| GatewayCommands.UnequalIgnored | c/byteport-stomp-client/byteport-stomp-client.c:450-496 | nothing is sent for a message without uid, or for nodes with other numbers of uids and data strings |
| GatewayCommands.Obey | c/byteport-stomp-client/byteport-stomp-client.c:446-485 | handler and transceiver one behind the other: after an add the whitelist has gained the ids and what lay behind them in the receive buffer, after a clearing or an empty add it is empty; nothing else changes |
| ServerRecords.RecordsForwarded | c/byteport-stomp-client/byteport-stomp-client.c:446-497 | for a printed array of records the decision is to send record i's data to record i's uid |
| ServerRecords.RecordsReachTransceiver | c/byteport-stomp-client/byteport-stomp-client.c:446-523 | the reader of the socket finds one message per record, and message i is that of record i if and only if it is the first or its uid and data are empty or lie behind the zeroed part of the pool |
| ServerRecords.AllRecordsArriveIff | c/byteport-stomp-client/byteport-stomp-client.c:498-520 | without empty uids all records arrive if and only if there is one, or the first uid and its NUL fill the zeroed part |
| ServerRecords.SecondRecordLost | c/byteport-stomp-client/byteport-stomp-client.c:506 | of two records with 16-digit uids the second is sent with empty uid and empty data when the pool follows the buffer directly |
| NodeRelay.ForwardNodeMessage | c/byteport-stomp-client/byteport-stomp-client.c:322-348 | a node message is sent as the frame whose body is the printed message, cut to the first 20478 characters |
| NodeRelay.NodeMessageArrives | c/byteport-stomp-client/byteport-stomp-client.c:322-348 | for any iteration order of the headers that frame is read as a SEND to the queue, of type text/plain, and scanning its body gives the source and the data |
| NodeRelay.ReceiveFromI8 | c/byteport-stomp-client/byteport-stomp-client.c:237-353 | the record is read into the static buffer and the frame sent is the one printed from that buffer; without a record nothing is sent, and strings that do not end in the buffer are told apart |
| NodeRelay.RelayAll | c/byteport-stomp-client/byteport-stomp-client.c:237-353 | n calls on the stream of n node messages send the n frames one behind the other, whatever the buffer held before |
| NodeRelay.NodeToServer | c/byteport-stomp-client/byteport-stomp-client.c:243-348 | a text sent with its NUL, read into any buffer, printed, framed, parsed and scanned is found under the node's address |
| JsonText.NodeMessageOrigin | c/byteport-stomp-client/byteport-stomp-client.c:329 | that message is also scanned back to its namespace and time, if no string is one of these names |
| HexAddresses.HexAddressIff | c/i8-transceiver/i8-transceiver.c:605-606 | the printed address is the one text of 16 digits, none in upper case, that stands for the node |
| HexAddresses.HexAddressInverts | c/i8-transceiver/i8-transceiver.c:605-606 | the printed address determines the node |
| EndToEnd.SendOutputs | c/i8-transceiver/i8-transceiver.c:605-618 | the bytes on the socket are the records of the outputs, in order |
| EndToEnd.OutputTakenIff | c/byteport-stomp-client/byteport-stomp-client.c:243-263 | the record of an output is taken if and only if its data has at most 20396 bytes |
| EndToEnd.ReadThroughIff | c/byteport-stomp-client/byteport-stomp-client.c:243-263 | all outputs are read from the socket if and only if each has at most 20396 bytes |
| EndToEnd.MessagesReadIff | c/i8-transceiver/i8-transceiver.c:1199-1250 | of messages that find room, which are all delivered, the messenger reads all if and only if none has more than 20396 bytes |
| EndToEnd.FullBufferRefused | c/i8-transceiver/i8-transceiver.c:1222 | a message of the size of the merge buffer is delivered and refused by the messenger |
| EndToEnd.RelayOutputs | c/byteport-stomp-client/byteport-stomp-client.c:237-353 | what transceiver and messenger do with the outputs ends in the concatenation of one frame per output, in order |
| EndToEnd.EachTextFound | c/i8-transceiver/i8-transceiver.c:535-618 | for any interleaving a reader of the messenger's byte stream gets exactly its frames, to the last byte, each a SEND to the queue of type text/plain, and finds every text handed to send_message exactly once under the printed address of its node, whatever the buffers held before |
| EndToEnd.EachOriginFound | c/byteport-stomp-client/byteport-stomp-client.c:322-348 | frame j of that stream bears the namespace and the time of output j |
| EndToEnd.TellServer | c/i8-transceiver/i8-transceiver.c:344-657 | the same for the loops of transceiver and messenger run one behind the other |
| Timestamps.MicrosDetermineDelta | python/byteport_client/client_base.py:75-78 | days, seconds and microseconds can be recovered from the number of microseconds |
| Doubles.PrintedMicrosExact | python/byteport_client/client_base.py:65-73 | up to 2^33 seconds around the epoch the correctly rounded quotient, printed to six decimals, shows exactly the microseconds |
| Doubles.PrintedSignedIff | python/byteport_client/client_base.py:64-78 | for every datetime, before or after the epoch: the printed number is that of the microseconds if and only if it survives rounding to the grid of doubles around the quotient |
| Doubles.SurvivesBelow | python/byteport_client/client_base.py:65-73 | between 2^33 seconds and 2^53 microseconds: if and only if m * 2^19 mod 10^6 is below 262144, above 737856, or one of the two and m is even |
| Doubles.WholeSecondsSurvive | python/byteport_client/client_base.py:65-73 | whole seconds are printed exactly in every year |
| Doubles.BoundIsTight | python/byteport_client/client_base.py:65-73 | the first microsecond behind 2^33 seconds is printed as another one |
| Timestamps.AutoTimestampShape | python/byteport_client/client_base.py:71-73 | stripping removes only trailing zeros of the fraction and a bare point, never a digit of the seconds |
| Timestamps.AutoTimestampDenotes | python/byteport_client/client_base.py:71-73 | the stripped text denotes the printed number |
| Timestamps.TimestampExactIff | python/byteport_client/client_base.py:64-78 | for every datetime the text sent denotes exactly its microseconds if and only if they survive |
| Timestamps.TimestampExact | python/byteport_client/client_base.py:64-78 | up to 2^33 seconds around the epoch the text sent denotes exactly its microseconds |
| Timestamps.DistinctTimestamps | python/byteport_client/client_base.py:64-78 | two datetimes within 2^33 seconds of the epoch have the same text if and only if they are the same microsecond |
| Timestamps.DistinctSurvivors | python/byteport_client/client_base.py:64-78 | the same for any two datetimes whose microseconds survive |
| DeltaSync.DictDiffer.Partition | python/byteport_client/utils.py:14-29 | the four sets split the keys of both dictionaries, past plus changes rebuild the current one, and added and changed keys are what the poller sends |
| DeltaSync.Poller.PollDirectory | python/byteport_client/http_clients.py:446-476 | one round over the objects is the poll step on remembered and accumulated data, also for a failing store that keeps any part; after a good one every file is on the server with its content |
| DeltaSync.Poller.PollRounds | python/byteport_client/http_clients.py:444-476 | any number of rounds is the run that the theorems are about; if the last is good, after partial failures that met no changed file, every file of the last directory is on the server with its content |
| DeltaSync.ContentsAre | python/byteport_client/http_clients.py:453-456 | a name is in the data if and only if a file has it, with the content of the last such file |
| DeltaSync.FieldsAreContents | python/byteport_client/http_clients.py:444-476 | whatever the server holds it held at the start, or a file of that name had this content in some round |
| DeltaSync.PollAgrees | python/byteport_client/http_clients.py:462-474 | the server keeps agreeing with what the poller remembers, and a good round adds the whole directory |
| DeltaSync.DeltaRefinesFull | python/byteport_client/http_clients.py:444-476 | through any history of edits, removals, re-additions and failures the server holds what sending everything would have left |
| DeltaSync.UpToDate | python/byteport_client/http_clients.py:444-476 | after a round that stored or had nothing to send the server agrees with every current file |
| DeltaSync.RecoversIff | python/byteport_client/http_clients.py:469-474 | whatever a failing store kept and whatever follows, every good poll brings the server up to date, if and only if no known file had changed |
| DeltaSync.UpToDateDespiteFailures | python/byteport_client/http_clients.py:444-476 | over whole runs whose partial failures met no changed file, the server is up to date after every good poll |
| DeltaSync.StaleAfterChangedFailure | python/byteport_client/http_clients.py:469-474 | after a failure at a changed file there are a kept field and a further poll that counts as good and leaves the server wrong |
| DeltaSync.StaleAfterPartialFailure | python/byteport_client/http_clients.py:469-474 | an edit kept by a failed store and then taken back leaves the server wrong |
| Socks5.Socket.RecvAll | python/byteport_client/socks.py:129-139 | for any segmentation exactly the requested bytes are returned and consumed, or the error comes at the end of the stream |
| Socks5.Negotiate | python/byteport_client/socks.py:160-250 | bytes sent, outcome and bytes left unread are those of the dialogue function, for any segmentation |
| Socks5.RequestDecodes | python/byteport_client/socks.py:206-222 | the request decodes (RFC 1928 section 4) to the destination and port |
| Socks5.ServerHears | python/byteport_client/socks.py:165-222 | a server splits what the client sends into offered methods, credentials (RFC 1929 section 2) and destination |
| Socks5.HandshakeVerdict | python/byteport_client/socks.py:174-246 | for every conforming server, refusing or not: the outcome and the bytes left unread |
| Socks5.OutcomeIff | python/byteport_client/socks.py:174-246 | each outcome (connected, login failed, refused with its code, bad data, an exception of Python) if and only if its cause |
| Socks5.HandshakeAligned | python/byteport_client/socks.py:160-250 | the client connects if and only if the server accepts, the request can be stated and the bound address is not IPv6; then no tunnel byte is consumed and the server has heard the destination |
| Socks5.ErrorsIff | python/byteport_client/socks.py:174-243 | on any stream of bytes: bad data, a refused login and a refused request if and only if the bytes of the three answers say so, wrong version bytes included |
| Socks5.CutShort | python/byteport_client/socks.py:129-139 | a stream that ends before the client has what it would read: the connection counts as closed, or an exception of Python where the length of a name is missing |
| Socks5.ReadHead | python/byteport_client/socks.py:329-335 | the loop reads exactly up to the first empty line, or raises at the end of the stream |
| Socks5.HeadSplitsOff | python/byteport_client/socks.py:329-335 | so behind any response head the unread bytes are exactly what follows it |

## Left out

- Sockets, select, signals, threads, forks, argument parsing, logging and APR pools: streams with arbitrary chunks, clock readings and garbage-free allocation stand in for them.
- Failed allocations: the pool of the scanner is shown to suffice (`Bridge.PoolSuffices`), otherwise its room is a precondition, as is an id list or message that fits the static buffers.
- Packets out of range (data behind the total size or more than 80 bytes) and clock readings outside 1 to 2147483646: preconditions of the main loop.
- Delivery.EachMessageOnce: keys are other than address 0 with packet id 0, which free slots match; from listed sources nothing but the streams arrives meanwhile, and the whitelist does not change.
- Transceiver.CountersExact: the counters are unsigned 32-bit numbers and wrap.
- Transceiver.Gateway.MainLoop: one event per round; a round of the source may handle a record, a packet and a report one after the other.
- Transceiver.Gateway.OnTimeout: the test-mode entry in the whitelist is not modelled; the text of the report is built by Reports.BuildStatsMsg.
- Coverage.CollectIffComplete: the timestamp of a merged message is that of the lowest slot (PacketQueue.MergedTime), not of the earliest arrival.
- PacketQueue.CollectFromQueue: the byte count is an unbounded number; the int of the source could only overflow in queues of millions of slots.
- PacketQueue.CleanQueue: with no slot to evict the source indexes its array with -1; the method requires a slot with a timestamp below 2147483647.
- Addresses.NetworkToUint64: shifts and bitwise or are products, quotients and sums.
- Stomp.Read: a negative content-length, undefined in C, is the error `Undefined`.
- Stomp.ReadLine: the read loop, which the source writes out twice, is one method shared with `Stomp.ReadBuffer`.
- Bridge.ReadAndForward: what the scanner would find behind a body that has no end (a body with content-length and no NUL) is the outcome `Undefined`.
- Ipc.ReadRecord: reads are full, as on a local stream socket; a short read ends both programs.
- Ipc.SendFromNode: the memory behind the transmit buffer is an array of characters; which variables lie there, and what overwriting them does, is not modelled.
- Statics.SendToNode: variables other than the pool that lie behind the output buffer are not modelled, and strncpy copies before it pads (C leaves overlapping copies undefined).
- EndToEnd.EachTextFound: texts without quotes that are not themselves a searched field name and that fit the output buffer; status reports on the same socket are left out. The server is a reader of the frames, not a program of the repository.
- EndToEnd.TellServer: the transceiver handles all packets before the messenger reads the first record; a failing send ends it without a claim.
- Overload.DeliveredIffRoom: messages whose length is a multiple of 80 are left out, because their empty last fragment needs a slot that no byte of the message needs.
- Doubles.PrintedSignedIff: timestamps given as int or float and local time zones are not modelled.
- Socks5.Negotiate: whether a destination is an address (inet_aton) and what a local lookup returns are inputs; closing the socket is not modelled.
- Socks5.ReadHead: the request to the HTTP proxy and its status line are not modelled; SOCKS4 is left out.
- GatewayCommands.Obey: the message was read from a frame (Bridge.ReadAndForward), and the transceiver has read all earlier records; the pool suffices for the scans.
- NodeRelay.ReceiveFromI8: the next record is a message; the branch for lists of unknown nodes, which the transceiver never sends, is left out. What `%s` would print from behind the input buffer is the outcome `Undefined`.
- Name validation in `client_base.py`, which discards its result; HTTP request wrappers, MQTT and stompest clients, pandas code, Android, JavaScript and shell parts: thin wrappers or easy branches.

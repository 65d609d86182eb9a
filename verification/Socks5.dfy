// The SOCKS5 client handshake of socks.py (RFC 1928 sections 3 to 6, RFC 1929
// section 2) and the response loop of its HTTP CONNECT handshake, under Python
// 2, over a socket that may return any part of what was asked for.
module Socks5 {
  import opened Wrappers
  import opened Packets

  type Bytes = seq<uint8>

  datatype Login = Login(user: Bytes, password: Bytes)

  // What inet_aton makes of the destination: an address, or a name to be
  // resolved by the proxy or (with its result given here) locally.
  datatype Destination = Address(ip: Bytes) | RemoteName(name: Bytes) | LocalName(resolved: Bytes)

  datatype Config = Config(login: Option<Login>, destination: Destination, port: int)

  // PythonError: an exception that is not one of the module's own.
  datatype Error = Closed | BadData | LoginFailed | Refused(code: int) | PythonError

  datatype Outcome = Connected(boundAddress: Bytes, boundPort: int) | Failed(error: Error)

  // ----- what the client sends -----

  function Greeting(c: Config): Bytes {
    if c.login.Some? then [5, 2, 0, 2] else [5, 1, 0]
  }

  // chr() fails above 255.
  function LoginBytes(c: Config): Option<Bytes> {
    match c.login
    case None => None
    case Some(Login(user, password)) =>
      if |user| > 255 || |password| > 255 then None
      else Some([1, |user|] + user + [|password|] + password)
  }

  // struct.pack(">H") fails outside 16 bits; chr(n).encode() and the encoding
  // of the name fail above 127.
  function RequestBytes(c: Config): Option<Bytes> {
    if !(0 <= c.port < 0x1_0000) then None
    else
      var port: Bytes := [c.port / 256, c.port % 256];
      match c.destination
      case Address(ip) => Some([5, 1, 0, 1] + ip + port)
      case LocalName(ip) => Some([5, 1, 0, 1] + ip + port)
      case RemoteName(name) =>
        if |name| < 128 && forall b | b in name :: b < 128 then Some([5, 1, 0, 3, |name|] + name + port)
        else None
  }

  // ----- the dialogue as a function of everything the server sends -----

  datatype Reading = Reading(outcome: Outcome, rest: Bytes)

  datatype Trace = Trace(sent: Bytes, outcome: Outcome, rest: Bytes)

  function After(sent: Bytes, t: Trace): Trace {
    Trace(sent + t.sent, t.outcome, t.rest)
  }

  function Word(high: int, low: int): int {
    256 * high + low
  }

  // The bound address of n bytes and the port.
  function Bound(s: Bytes, n: nat): Reading {
    if |s| < n + 2 then Reading(Failed(Closed), [])
    else Reading(Connected(s[..n], Word(s[n], s[n + 1])), s[n + 2..])
  }

  function Reply(s: Bytes): Reading {
    if |s| < 4 then Reading(Failed(Closed), [])
    else if s[0] != 5 then Reading(Failed(BadData), s[4..])
    else if s[1] != 0 then Reading(Failed(Refused(if s[1] <= 8 then s[1] else 9)), s[4..])
    else if s[3] == 1 then Bound(s[4..], 4)
    else if s[3] == 3 then
      if |s| < 5 then Reading(Failed(PythonError), []) else Bound(s[5..], s[4])
    else Reading(Failed(BadData), s[4..])
  }

  function Request(c: Config, s: Bytes): Trace {
    match RequestBytes(c)
    case None => Trace([], Failed(PythonError), s)
    case Some(request) => Trace(request, Reply(s).outcome, Reply(s).rest)
  }

  function Authenticate(c: Config, s: Bytes): Trace {
    match LoginBytes(c)
    case None => Trace([], Failed(PythonError), s)
    case Some(login) =>
      if |s| < 2 then Trace(login, Failed(Closed), [])
      else if s[0] != 1 then Trace(login, Failed(BadData), s[2..])
      else if s[1] != 0 then Trace(login, Failed(LoginFailed), s[2..])
      else After(login, Request(c, s[2..]))
  }

  // For a method that is neither 0 nor 2 the code compares with
  // chr(0xFF).encode(), which raises; its own errors are never reached.
  function Dialogue(c: Config, s: Bytes): Trace {
    var sent := Greeting(c);
    if |s| < 2 then Trace(sent, Failed(Closed), [])
    else if s[0] != 5 then Trace(sent, Failed(BadData), s[2..])
    else if s[1] == 0 then After(sent, Request(c, s[2..]))
    else if s[1] == 2 then After(sent, Authenticate(c, s[2..]))
    else Trace(sent, Failed(PythonError), s[2..])
  }

  // ----- the socket and the negotiation -----

  class Socket {
    var incoming: Bytes
    var sent: Bytes

    // recv: any part of at most n bytes, nothing only at the end or for n == 0.
    method Recv(n: nat) returns (data: Bytes)
      modifies this`incoming
      ensures old(incoming) == data + incoming && |data| <= n
      ensures data == [] ==> n == 0 || incoming == []
    {
      var k: nat :| k <= n && k <= |incoming| && (k == 0 ==> n == 0 || incoming == []);
      data, incoming := incoming[..k], incoming[k..];
    }

    method SendAll(data: Bytes)
      modifies this`sent
      ensures sent == old(sent) + data
    {
      sent := sent + data;
    }

    // __recvall
    method RecvAll(count: nat) returns (ok: bool, data: Bytes)
      modifies this`incoming
      ensures ok <==> count <= |old(incoming)|
      ensures if ok then data == old(incoming)[..count] && incoming == old(incoming)[count..] else incoming == []
    {
      data := Recv(count);
      while |data| < count
        invariant |data| <= count && old(incoming) == data + incoming
        decreases count - |data|
      {
        var d := Recv(count - |data|);
        if d == [] {
          return false, data;
        }
        data := data + d;
      }
      ok := true;
    }
  }

  // The exchange on the socket was the one of the trace.
  twostate predicate Played(socket: Socket, t: Trace, outcome: Outcome)
    reads socket
  {
    socket.sent == old(socket.sent) + t.sent && outcome == t.outcome && socket.incoming == t.rest
  }

  // __negotiatesocks5
  method Negotiate(socket: Socket, c: Config) returns (outcome: Outcome)
    modifies socket
    ensures Played(socket, Dialogue(c, old(socket.incoming)), outcome)
  {
    socket.SendAll(Greeting(c));
    var ok, chosen := socket.RecvAll(2);
    if !ok { return Failed(Closed); }
    if chosen[0] != 5 { return Failed(BadData); }
    if chosen[1] == 0 {
      outcome := SendRequest(socket, c);
    } else if chosen[1] == 2 {
      outcome := LogIn(socket, c);
    } else {
      outcome := Failed(PythonError);
    }
  }

  // The user name and password part, and what follows it.
  method LogIn(socket: Socket, c: Config) returns (outcome: Outcome)
    modifies socket
    ensures Played(socket, Authenticate(c, old(socket.incoming)), outcome)
  {
    var login := LoginBytes(c);
    if login.None? { return Failed(PythonError); }
    socket.SendAll(login.value);
    var ok, status := socket.RecvAll(2);
    if !ok { return Failed(Closed); }
    if status[0] != 1 { return Failed(BadData); }
    if status[1] != 0 { return Failed(LoginFailed); }
    outcome := SendRequest(socket, c);
  }

  method SendRequest(socket: Socket, c: Config) returns (outcome: Outcome)
    modifies socket
    ensures Played(socket, Request(c, old(socket.incoming)), outcome)
  {
    var request := RequestBytes(c);
    if request.None? { return Failed(PythonError); }
    socket.SendAll(request.value);
    outcome := ReadReply(socket);
  }

  method ReadReply(socket: Socket) returns (outcome: Outcome)
    modifies socket`incoming
    ensures Reading(outcome, socket.incoming) == Reply(old(socket.incoming))
  {
    var ok, reply := socket.RecvAll(4);
    if !ok { return Failed(Closed); }
    if reply[0] != 5 { return Failed(BadData); }
    if reply[1] != 0 { return Failed(Refused(if reply[1] <= 8 then reply[1] else 9)); }
    if reply[3] == 1 {
      outcome := ReadBound(socket, 4);
    } else if reply[3] == 3 {
      var length := socket.Recv(1);
      if length == [] { return Failed(PythonError); }
      assert old(socket.incoming)[4..][0] == length[0] && old(socket.incoming)[4..][1..] == socket.incoming;
      outcome := ReadBound(socket, length[0]);
    } else {
      outcome := Failed(BadData);
    }
  }

  method ReadBound(socket: Socket, n: nat) returns (outcome: Outcome)
    modifies socket`incoming
    ensures Reading(outcome, socket.incoming) == Bound(old(socket.incoming), n)
  {
    ghost var s := socket.incoming;
    var ok, address := socket.RecvAll(n);
    if !ok { return Failed(Closed); }
    var port;
    ok, port := socket.RecvAll(2);
    if !ok { return Failed(Closed); }
    assert port == s[n..][..2] && s[n..][2..] == s[n + 2..];
    outcome := Connected(address, Word(port[0], port[1]));
  }

  // ----- a conforming server -----

  datatype BoundAddress = V4(ip: Bytes) | Domain(name: Bytes) | V6(ip6: Bytes)

  // A server: the method it selects, or 0xFF for none, the status of a login,
  // the reply to the request, its bound address and port.
  datatype Server = Server(method': uint8, status: uint8, reply: uint8, bound: BoundAddress, port: uint32)

  predicate Conforming(v: Server, c: Config) {
    && (v.method' == 0 || v.method' == 0xFF || (v.method' == 2 && c.login.Some?))
    && v.port < 0x1_0000
    && match v.bound
       case V4(ip) => |ip| == 4
       case Domain(name) => |name| <= 255
       case V6(ip) => |ip| == 16
  }

  function BoundBytes(a: BoundAddress): Bytes
    requires match a case V4(_) => true case Domain(name) => |name| <= 255 case V6(_) => true
  {
    match a
    case V4(ip) => [1] + ip
    case Domain(name) => [3, |name|] + name
    case V6(ip) => [4] + ip
  }

  // The reply to the request; refusals have this form too.
  function ReplyBytes(v: Server, c: Config): Bytes
    requires Conforming(v, c)
  {
    [5, v.reply, 0] + BoundBytes(v.bound) + [v.port / 256, v.port % 256]
  }

  predicate LetsIn(v: Server) {
    v.method' != 0xFF && (v.method' == 2 ==> v.status == 0)
  }

  // Everything the server sends before the tunnel, to a client that answers.
  function Handshake(v: Server, c: Config): Bytes
    requires Conforming(v, c)
  {
    [5, v.method'] + (if v.method' == 2 then [1, v.status] else []) + (if LetsIn(v) then ReplyBytes(v, c) else [])
  }

  // What the server reads: section 4 of RFC 1928.
  datatype Parsed = Unparsed | Connect(host: Bytes, isName: bool, port: int)

  function ParseRequest(s: Bytes): Parsed {
    if |s| < 5 || s[0] != 5 || s[1] != 1 || s[2] != 0 then Unparsed
    else if s[3] == 1 && |s| == 10 then Connect(s[4..8], false, Word(s[8], s[9]))
    else
      var n: int := s[4];
      if s[3] == 3 && |s| == 7 + n then Connect(s[5..5 + n], true, Word(s[5 + n], s[6 + n])) else Unparsed
  }

  predicate ValidDestination(d: Destination) {
    match d
    case Address(ip) => |ip| == 4
    case LocalName(ip) => |ip| == 4
    case RemoteName(_) => true
  }

  function Target(c: Config): Parsed {
    match c.destination
    case Address(ip) => Connect(ip, false, c.port)
    case LocalName(ip) => Connect(ip, false, c.port)
    case RemoteName(name) => Connect(name, true, c.port)
  }

  // The request, when there is one, asks for the destination.
  lemma RequestDecodes(c: Config)
    requires ValidDestination(c.destination) && RequestBytes(c).Some?
    ensures ParseRequest(RequestBytes(c).value) == Target(c)
  {
    var s := RequestBytes(c).value;
    match c.destination
    case Address(ip) => assert s[4..8] == ip;
    case LocalName(ip) => assert s[4..8] == ip;
    case RemoteName(name) => assert s[5..5 + |name|] == name;
  }

  // The guards under which the client can state login and request.
  predicate CanAsk(c: Config, v: Server) {
    CanLogIn(c, v) && CanRequest(c)
  }

  function Asked(c: Config, v: Server): Bytes
    requires CanAsk(c, v) && Conforming(v, c)
  {
    Greeting(c) + ((if v.method' == 2 then LoginBytes(c).value else []) + RequestBytes(c).value)
  }

  // What the reply makes of the client, and the bytes it leaves unread: the
  // bound address of a refusal and an IPv6 address are not read.
  function ReplyVerdict(v: Server, c: Config, tunnel: Bytes): Reading
    requires Conforming(v, c)
  {
    var port: Bytes := [v.port / 256, v.port % 256];
    if v.reply != 0 then
      Reading(Failed(Refused(if v.reply <= 8 then v.reply else 9)), BoundBytes(v.bound)[1..] + port + tunnel)
    else
      match v.bound
      case V4(ip) => Reading(Connected(ip, v.port), tunnel)
      case Domain(name) => Reading(Connected(name, v.port), tunnel)
      case V6(ip) => Reading(Failed(BadData), ip + port + tunnel)
  }

  lemma ReplyAligned(v: Server, c: Config, tunnel: Bytes)
    requires Conforming(v, c)
    ensures Reply(ReplyBytes(v, c) + tunnel) == ReplyVerdict(v, c, tunnel)
  {
    var port: Bytes := [v.port / 256, v.port % 256];
    ReplyTail(v, c, port, tunnel);
    if v.reply == 0 {
      match v.bound
      case V4(ip) => BoundIs(ip, port, tunnel);
      case Domain(name) =>
        BoundIs(name, port, tunnel);
        assert ([|name|] + name + port + tunnel)[1..] == name + port + tunnel;
      case V6(ip) =>
    }
  }

  lemma ReplyTail(v: Server, c: Config, port: Bytes, tunnel: Bytes)
    requires Conforming(v, c) && port == [v.port / 256, v.port % 256]
    ensures var s, b := ReplyBytes(v, c) + tunnel, BoundBytes(v.bound);
      && |s| >= 4 && s[0] == 5 && s[1] == v.reply && s[3] == b[0] && s[4..] == b[1..] + port + tunnel
      && (v.bound.Domain? ==> |s| >= 5 && s[4] == |v.bound.name| && s[5..] == v.bound.name + port + tunnel)
  {
    var b := BoundBytes(v.bound);
    ReplySplit([5, v.reply, 0], b, port, tunnel);
    if v.bound.Domain? {
      NameSplit(v.bound.name, port, tunnel);
    }
  }

  lemma ReplySplit(head: Bytes, b: Bytes, port: Bytes, tunnel: Bytes)
    requires |head| == 3 && b != []
    ensures var s := head + b + port + tunnel; s[..3] == head && s[3] == b[0] && s[4..] == b[1..] + port + tunnel
  {
    var s := head + b + port + tunnel;
    assert s[..3] == head;
  }

  lemma NameSplit(name: Bytes, port: Bytes, tunnel: Bytes)
    requires |name| <= 255
    ensures var t := ([3, |name|] + name)[1..] + port + tunnel; t[0] == |name| && t[1..] == name + port + tunnel
  {
  }

  lemma BoundIs(address: Bytes, port: Bytes, tunnel: Bytes)
    requires |port| == 2
    ensures Bound(address + port + tunnel, |address|) == Reading(Connected(address, Word(port[0], port[1])), tunnel)
  {
    var s, n := address + port + tunnel, |address|;
    assert s[..n] == address && s[n..] == port + tunnel && s[n + 2..] == tunnel;
  }

  // How a server splits what it has received: greeting, login if it selected
  // method 2 (section 2 of RFC 1929), request.
  datatype Heard = Unheard | Heard(methods: Bytes, login: Option<Login>, request: Parsed)

  function Hear(method': uint8, s: Bytes): Heard {
    if |s| < 2 || s[0] != 5 || s[1] > |s| - 2 then Unheard
    else
      var methods, rest := s[2..2 + s[1]], s[2 + s[1]..];
      if method' != 2 then Heard(methods, None, ParseRequest(rest))
      else
        match ParseLogin(rest)
        case None => Unheard
        case Some((login, behind)) => Heard(methods, Some(login), ParseRequest(behind))
  }

  function ParseLogin(s: Bytes): Option<(Login, Bytes)> {
    if |s| < 2 || s[0] != 1 || s[1] > |s| - 3 then None
    else
      var u: int := s[1];
      var p: int := s[2 + u];
      if |s| < 3 + u + p then None
      else Some((Login(s[2..2 + u], s[3 + u..3 + u + p]), s[3 + u + p..]))
  }

  lemma LoginDecodes(c: Config, rest: Bytes)
    requires LoginBytes(c).Some?
    ensures ParseLogin(LoginBytes(c).value + rest) == Some((c.login.value, rest))
  {
    var Login(user, password) := c.login.value;
    var s, u, p := LoginBytes(c).value + rest, |user|, |password|;
    assert s[2..2 + u] == user && s[2 + u] == p;
    assert s[3 + u..3 + u + p] == password && s[3 + u + p..] == rest;
  }

  // The server hears the offered methods, the credentials if it asked for
  // them, and the destination with its port.
  lemma ServerHears(c: Config, v: Server)
    requires ValidDestination(c.destination) && Conforming(v, c) && CanAsk(c, v)
    ensures Hear(v.method', Asked(c, v))
         == Heard(if c.login.Some? then [0, 2] else [0], if v.method' == 2 then c.login else None, Target(c))
  {
    var greeting, request, s := Greeting(c), RequestBytes(c).value, Asked(c, v);
    var n := |greeting|;
    RequestDecodes(c);
    assert s[..n] == greeting && s[0] == greeting[0] && s[1] == greeting[1] == n - 2;
    assert s[2..n] == greeting[2..];
    if v.method' == 2 {
      assert s[n..] == LoginBytes(c).value + request;
      LoginDecodes(c, request);
    } else {
      assert s[n..] == request;
    }
  }

  predicate CanLogIn(c: Config, v: Server) {
    v.method' == 2 ==> c.login.Some? && |c.login.value.user| <= 255 && |c.login.value.password| <= 255
  }

  predicate CanRequest(c: Config) {
    && 0 <= c.port < 0x1_0000
    && (c.destination.RemoteName? ==> |c.destination.name| < 128 && forall b | b in c.destination.name :: b < 128)
  }

  // What becomes of the client, by the choices of the server and by what the
  // client can state.
  function Verdict(c: Config, v: Server, tunnel: Bytes): Reading
    requires Conforming(v, c)
  {
    var request := if LetsIn(v) then ReplyBytes(v, c) + tunnel else tunnel;
    if v.method' == 0xFF then Reading(Failed(PythonError), tunnel)
    else if !CanLogIn(c, v) then Reading(Failed(PythonError), [1, v.status] + request)
    else if !LetsIn(v) then Reading(Failed(LoginFailed), tunnel)
    else if !CanRequest(c) then Reading(Failed(PythonError), request)
    else ReplyVerdict(v, c, tunnel)
  }

  lemma RequestVerdict(c: Config, v: Server, tunnel: Bytes)
    requires Conforming(v, c) && LetsIn(v)
    ensures var t, s := Request(c, ReplyBytes(v, c) + tunnel), ReplyBytes(v, c) + tunnel;
      Reading(t.outcome, t.rest) == if CanRequest(c) then ReplyVerdict(v, c, tunnel) else Reading(Failed(PythonError), s)
    ensures CanRequest(c) ==> RequestBytes(c).Some? && Request(c, ReplyBytes(v, c) + tunnel).sent == RequestBytes(c).value
  {
    ReplyAligned(v, c, tunnel);
  }

  lemma BehindTwo(h: Bytes, a: Bytes, b: Bytes, c: Bytes)
    requires |h| == 2
    ensures var s := h + a + b + c; |s| >= 2 && s[0] == h[0] && s[1] == h[1] && s[2..] == a + (b + c)
  {
  }

  lemma HandshakeTail(c: Config, v: Server, tunnel: Bytes)
    requires Conforming(v, c)
    ensures var s, request := Handshake(v, c) + tunnel, if LetsIn(v) then ReplyBytes(v, c) + tunnel else tunnel;
      && |s| >= 2 && s[0] == 5 && s[1] == v.method'
      && s[2..] == (if v.method' == 2 then [1, v.status] + request else request)
  {
    var login: Bytes := if v.method' == 2 then [1, v.status] else [];
    var reply: Bytes := if LetsIn(v) then ReplyBytes(v, c) else [];
    BehindTwo([5, v.method'], login, reply, tunnel);
    EmptyFront(tunnel);
    EmptyFront(reply + tunnel);
  }

  lemma EmptyFront(s: Bytes)
    ensures [] + s == s
  {
  }

  lemma LoginTail(status: uint8, rest: Bytes)
    ensures ([1, status] + rest)[2..] == rest
  {
  }

  // For every conforming server, accepting or not: the outcome and the bytes
  // that the client leaves unread.
  lemma HandshakeVerdict(c: Config, v: Server, tunnel: Bytes)
    requires Conforming(v, c)
    ensures var t := Dialogue(c, Handshake(v, c) + tunnel); Reading(t.outcome, t.rest) == Verdict(c, v, tunnel)
  {
    HandshakeTail(c, v, tunnel);
    if LetsIn(v) {
      RequestVerdict(c, v, tunnel);
    }
    if v.method' == 2 {
      LoginTail(v.status, if LetsIn(v) then ReplyBytes(v, c) + tunnel else tunnel);
    }
  }

  // So each error has its cause; the module's own error for a server without
  // acceptable method is never raised.
  lemma OutcomeIff(c: Config, v: Server, tunnel: Bytes)
    requires Conforming(v, c)
    ensures var outcome := Dialogue(c, Handshake(v, c) + tunnel).outcome;
      && (outcome.Connected? <==> LetsIn(v) && CanLogIn(c, v) && CanRequest(c) && v.reply == 0 && !v.bound.V6?)
      && (outcome == Failed(LoginFailed) <==> v.method' == 2 && CanLogIn(c, v) && v.status != 0)
      && (outcome == Failed(PythonError) <==> v.method' == 0xFF || !CanLogIn(c, v) || (LetsIn(v) && !CanRequest(c)))
      && (outcome == Failed(BadData) <==>
            LetsIn(v) && CanLogIn(c, v) && CanRequest(c) && v.reply == 0 && v.bound.V6?)
      && (forall code :: outcome == Failed(Refused(code)) <==>
            LetsIn(v) && CanLogIn(c, v) && CanRequest(c) && v.reply != 0 && code == if v.reply <= 8 then v.reply else 9)
  {
    HandshakeVerdict(c, v, tunnel);
  }

  lemma DialogueSent(c: Config, v: Server, tunnel: Bytes)
    requires Conforming(v, c) && LetsIn(v) && CanAsk(c, v)
    ensures Dialogue(c, Handshake(v, c) + tunnel).sent == Asked(c, v)
  {
    HandshakeTail(c, v, tunnel);
    LoginTail(v.status, ReplyBytes(v, c) + tunnel);
    RequestVerdict(c, v, tunnel);
    if v.method' != 2 {
      assert [] + RequestBytes(c).value == RequestBytes(c).value;
    }
  }

  // The client connects exactly if the server accepts, it can state its
  // request and the bound address is not an IPv6 one. It has then read the
  // handshake to its last byte, so the tunnel starts with its first, and the
  // server has heard the destination.
  lemma HandshakeAligned(c: Config, v: Server, tunnel: Bytes)
    requires ValidDestination(c.destination) && Conforming(v, c)
    ensures var t := Dialogue(c, Handshake(v, c) + tunnel);
      && (t.outcome.Connected? <==> LetsIn(v) && v.reply == 0 && CanAsk(c, v) && !v.bound.V6?)
      && (t.outcome.Connected? ==>
            && t.rest == tunnel && t.outcome.boundPort == v.port
            && Hear(v.method', t.sent)
               == Heard(if c.login.Some? then [0, 2] else [0], if v.method' == 2 then c.login else None, Target(c)))
  {
    HandshakeVerdict(c, v, tunnel);
    if LetsIn(v) && CanAsk(c, v) {
      DialogueSent(c, v, tunnel);
      ServerHears(c, v);
    }
  }

  // ----- any stream, conforming or not -----

  // The index of the reply in what the server sends.
  function ReplyAt(s: Bytes): nat {
    if |s| >= 2 && s[1] == 2 then 4 else 2
  }

  // The client has sent its request.
  predicate Requested(c: Config, s: Bytes) {
    && |s| >= 2 && s[0] == 5 && RequestBytes(c).Some?
    && (s[1] == 0 || (s[1] == 2 && LoginBytes(c).Some? && |s| >= 4 && s[2] == 1 && s[3] == 0))
  }

  predicate Replied(c: Config, s: Bytes) {
    Requested(c, s) && |s| >= ReplyAt(s) + 4
  }

  // Each error of the module and its cause, byte by byte: a wrong version in one
  // of the three answers or another type of address, a login that was refused,
  // a request that was.
  lemma ErrorsIff(c: Config, s: Bytes)
    ensures var outcome, r := Dialogue(c, s).outcome, ReplyAt(s);
      && (outcome == Failed(BadData) <==>
            || (|s| >= 2 && s[0] != 5)
            || (|s| >= 4 && s[0] == 5 && s[1] == 2 && LoginBytes(c).Some? && s[2] != 1)
            || (Replied(c, s) && (s[r] != 5 || (s[r + 1] == 0 && s[r + 3] != 1 && s[r + 3] != 3))))
      && (outcome == Failed(LoginFailed) <==>
            |s| >= 4 && s[0] == 5 && s[1] == 2 && LoginBytes(c).Some? && s[2] == 1 && s[3] != 0)
      && (forall code :: outcome == Failed(Refused(code)) <==>
            Replied(c, s) && s[r] == 5 && s[r + 1] != 0 && code == if s[r + 1] <= 8 then s[r + 1] else 9)
  {
    if Requested(c, s) {
      ReplyIn(c, s);
    }
  }

  lemma ReplyIn(c: Config, s: Bytes)
    requires Requested(c, s)
    ensures var t, reply := Dialogue(c, s), Reply(s[ReplyAt(s)..]);
      t.outcome == reply.outcome && t.rest == reply.rest
  {
    if s[1] == 2 {
      assert s[2..][2..] == s[4..];
    }
  }

  lemma BoundCut(s: Bytes, n: nat, k: nat)
    requires k < |s| - |Bound(s, n).rest|
    ensures Bound(s[..k], n) == Reading(Failed(Closed), [])
  {
  }

  // The server stops behind the fixed part of a reply with a name.
  predicate StopsAtName(s: Bytes, k: nat) {
    k == 4 <= |s| && s[3] == 3
  }

  lemma ReplyCut(s: Bytes, k: nat)
    requires k < |s| - |Reply(s).rest|
    ensures Reply(s[..k]) == Reading(Failed(if StopsAtName(s, k) then PythonError else Closed), [])
  {
    if k >= 4 {
      assert s[..k][4..] == s[4..][..k - 4];
      if s[3] == 1 {
        BoundCut(s[4..], 4, k - 4);
      } else if k >= 5 {
        assert s[..k][5..] == s[5..][..k - 5];
        BoundCut(s[5..], s[4], k - 5);
      }
    }
  }

  // A stream that ends before the client has what it would read of it: the
  // connection counts as closed, or an exception that is not the module's is
  // raised where the length of a name is missing.
  lemma CutShort(c: Config, s: Bytes, k: nat)
    requires k < |s| - |Dialogue(c, s).rest|
    ensures var t := Dialogue(c, s[..k]);
      && t.rest == []
      && t.outcome == Failed(if k >= ReplyAt(s) && StopsAtName(s[ReplyAt(s)..], k - ReplyAt(s)) then PythonError else Closed)
  {
    if k >= 2 {
      assert s[..k][0] == s[0] && s[..k][1] == s[1];
      if Requested(c, s) && k >= ReplyAt(s) {
        ReplyIn(c, s);
        RequestedCut(c, s, k);
      } else {
        NotRequested(c, s, k);
      }
    }
  }

  lemma RequestedCut(c: Config, s: Bytes, k: nat)
    requires Requested(c, s) && ReplyAt(s) <= k < |s| - |Reply(s[ReplyAt(s)..]).rest|
    ensures var t, r := Dialogue(c, s[..k]), ReplyAt(s);
      t.rest == [] && t.outcome == Failed(if StopsAtName(s[r..], k - r) then PythonError else Closed)
  {
    var r := ReplyAt(s);
    assert s[..k][r..] == s[r..][..k - r];
    assert Requested(c, s[..k]) && ReplyAt(s[..k]) == r;
    ReplyIn(c, s[..k]);
    ReplyCut(s[r..], k - r);
  }

  lemma NotRequested(c: Config, s: Bytes, k: nat)
    requires 2 <= k < |s| - |Dialogue(c, s).rest| && (Requested(c, s) ==> k < ReplyAt(s))
    ensures var t := Dialogue(c, s[..k]); t.rest == [] && t.outcome == Failed(Closed)
    ensures !(k >= ReplyAt(s) && StopsAtName(s[ReplyAt(s)..], k - ReplyAt(s)))
  {
    assert s[..k][2..] == s[2..][..k - 2];
  }

  // ----- the HTTP CONNECT proxy: reading the response -----

  const HEAD_END: Bytes := [13, 10, 13, 10]

  predicate EndAt(s: Bytes, i: nat) {
    i + 4 <= |s| && s[i..i + 4] == HEAD_END
  }

  // resp.find("\r\n\r\n") != -1
  predicate Contains(s: Bytes) {
    exists i: nat | i < |s| :: EndAt(s, i)
  }

  // A response up to its first empty line.
  predicate Head(s: Bytes) {
    Contains(s) && !Contains(s[..|s| - 1])
  }

  // The read loop of __negotiatehttp.
  method ReadHead(socket: Socket) returns (ok: bool, resp: Bytes)
    modifies socket`incoming
    ensures ok <==> Contains(old(socket.incoming))
    ensures if ok then Head(resp) && old(socket.incoming) == resp + socket.incoming else socket.incoming == []
  {
    resp := socket.Recv(1);
    ghost var s := old(socket.incoming);
    assert resp == [] || !Contains(resp[..|resp| - 1]);
    while !Contains(resp)
      invariant s == resp + socket.incoming
      invariant resp == [] || !Contains(resp[..|resp| - 1])
      decreases |socket.incoming|
    {
      var recv := socket.Recv(1);
      if recv == [] {
        assert resp == s;
        return false, resp;
      }
      assert (resp + recv)[..|resp|] == resp;
      resp := resp + recv;
    }
    ContainsLonger(resp, socket.incoming);
    ok := true;
  }

  lemma ContainsLonger(s: Bytes, more: Bytes)
    requires Contains(s)
    ensures Contains(s + more)
  {
    var i: nat :| i < |s| && EndAt(s, i);
    assert (s + more)[i..i + 4] == s[i..i + 4];
    assert EndAt(s + more, i);
  }

  // So what is left unread is what the proxy relays, to the byte.
  lemma HeadSplitsOff(head: Bytes, tunnel: Bytes, resp: Bytes, rest: Bytes)
    requires Head(head) && Head(resp) && head + tunnel == resp + rest
    ensures resp == head && rest == tunnel
  {
    var s := head + tunnel;
    if |head| < |resp| {
      ShorterHead(head, resp, s);
    } else if |resp| < |head| {
      ShorterHead(resp, head, s);
    }
    assert s[..|head|] == head && s[..|resp|] == resp;
    assert s[|head|..] == tunnel && s[|resp|..] == rest;
  }

  lemma ShorterHead(a: Bytes, b: Bytes, s: Bytes)
    requires Head(a) && |a| < |b| && a <= s && b <= s
    ensures Contains(b[..|b| - 1])
  {
    var c := b[..|b| - 1];
    assert c == a + c[|a|..];
    ContainsLonger(a, c[|a|..]);
  }
}

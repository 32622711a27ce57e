/**
 The client side of a SOCKS5 handshake: the incremental reader of
 packages/transport-router/src/index.ts and the CONNECT request it prints.
 Sections 3, 4 and 6 of RFC 1928 give the layouts of the method selection, the
 request and the reply; section 2 of RFC 1929 gives the username/password
 negotiation.
 */
module Socks5 {
  import opened Wrappers

  type Byte = x: int | 0 <= x < 256
  type Bytes = seq<Byte>

  const VERSION: Byte := 0x05
  const METHOD_NONE: Byte := 0x00
  const METHOD_PASSWORD: Byte := 0x02
  const ATYP_IPV4: Byte := 0x01
  const ATYP_DOMAIN: Byte := 0x03
  const ATYP_IPV6: Byte := 0x04

  // ---- The CONNECT request -------------------------------------------------

  datatype BuildError = HostTooLong | PortOutOfRange

  /** The request of section 4 of RFC 1928 with a domain-name destination. */
  function ConnectRequest(host: Bytes, port: int): Result<Bytes, BuildError> {
    if |host| > 255 then Failure(HostTooLong)
    else if !(0 <= port < 65536) then Failure(PortOutOfRange)
    else Success([VERSION, 0x01, 0x00, ATYP_DOMAIN, |host|] + host + [port / 256, port % 256])
  }

  /** A proxy's reading of a request: destination host, port, and what follows. */
  function DecodeConnect(s: Bytes): Option<(Bytes, int, Bytes)> {
    if |s| < 5 || s[..4] != [0x05, 0x01, 0x00, 0x03] || |s| < 7 + s[4] as int then None
    else
      var n: int := s[4];
      Some((s[5..5 + n], s[5 + n] as int * 256 + s[6 + n] as int, s[7 + n..]))
  }

  lemma ConnectRoundTrip(host: Bytes, port: int, rest: Bytes)
    requires ConnectRequest(host, port).Success?
    ensures DecodeConnect(ConnectRequest(host, port).value + rest) == Some((host, port, rest))
  {
    var s := ConnectRequest(host, port).value + rest;
    assert s[..4] == [VERSION, 0x01, 0x00, ATYP_DOMAIN];
    assert s[5..5 + |host|] == host;
    assert s[7 + |host|..] == rest;
  }

  /** No request is a prefix of another: a proxy can tell where one ends. */
  lemma ConnectPrefixFree(host: Bytes, port: int, rest: Bytes, host': Bytes, port': int, rest': Bytes)
    requires ConnectRequest(host, port).Success? && ConnectRequest(host', port').Success?
    requires ConnectRequest(host, port).value + rest == ConnectRequest(host', port').value + rest'
    ensures host == host' && port == port' && rest == rest'
  {
    ConnectRoundTrip(host, port, rest);
    ConnectRoundTrip(host', port', rest');
  }

  // ---- The username/password message ---------------------------------------

  /** Each length goes into one byte of a buffer, which keeps its low 8 bits. */
  function AuthMessage(user: Bytes, pass: Bytes): Bytes {
    [0x01, |user| % 256] + user + [|pass| % 256] + pass
  }

  /** A proxy's reading of the message of section 2 of RFC 1929. */
  function DecodeAuth(s: Bytes): Option<(Bytes, Bytes, Bytes)> {
    if |s| < 2 || s[0] != 0x01 || |s| < 3 + s[1] as int || |s| < 3 + s[1] as int + s[2 + s[1] as int] as int then None
    else
      var n: int := s[1];
      var m: int := s[2 + n];
      Some((s[2..2 + n], s[3 + n..3 + n + m], s[3 + n + m..]))
  }

  /** Credentials survive the trip exactly when both fit a one-byte length. */
  lemma AuthRoundTrip(user: Bytes, pass: Bytes)
    ensures DecodeAuth(AuthMessage(user, pass)) == Some((user, pass, [])) <==> |user| <= 255 && |pass| <= 255
  {
    var s := AuthMessage(user, pass);
    if |user| <= 255 && |pass| <= 255 {
      assert s[2..2 + |user|] == user;
      assert s[2 + |user|] == |pass|;
      assert s[3 + |user|..3 + |user| + |pass|] == pass;
      assert s[3 + |user| + |pass|..] == [];
    } else {
      var d := DecodeAuth(s);
      assert d.Some? ==> |d.value.0| <= 255 && |d.value.1| <= 255;
    }
  }

  // ---- The handshake as a state machine ------------------------------------

  datatype Config = Config(username: Option<Bytes>, password: Option<Bytes>, destHost: Bytes, destPort: int)

  /** An empty username counts as no username. */
  predicate UseAuth(cfg: Config) {
    cfg.username.Some? && cfg.username.value != []
  }

  function User(cfg: Config): Bytes {
    if cfg.username.Some? then cfg.username.value else []
  }

  function Pass(cfg: Config): Bytes {
    if cfg.password.Some? then cfg.password.value else User(cfg)
  }

  function Greeting(cfg: Config): Bytes {
    [VERSION, 0x01, if UseAuth(cfg) then METHOD_PASSWORD else METHOD_NONE]
  }

  predicate Buildable(cfg: Config) {
    |cfg.destHost| <= 255 && 0 <= cfg.destPort < 65536
  }

  datatype Error =
    | UnexpectedVersion
    | UnsupportedMethod(code: Byte)
    | AuthenticationFailed
    | UnexpectedReplyVersion
    | ConnectRejected(reply: Byte)
    | UnexpectedAddressType
    | TimedOut
    | ConnectionClosed
    | SocketError

  datatype Stage = AwaitMethod | AwaitAuth | AwaitReply
  datatype Settlement = Resolved(leftover: Bytes) | Rejected(error: Error)

  /**
   `settlements` lists the calls that resolve or reject the promise. `thrown`
   holds an exception that left the data listener: building the request for an
   unusable destination throws there, and nothing in the file catches it.
   */
  datatype State = State(
    stage: Stage,
    buffer: Bytes,
    written: seq<Bytes>,
    settlements: seq<Settlement>,
    thrown: Option<BuildError>)

  /**
   Data is still read. Settling detaches the listener; a throw leaves it attached,
   but the exception is uncaught and ends the process, so nothing is read then either.
   */
  predicate Live(s: State) {
    s.settlements == [] && s.thrown.None?
  }

  function Initial(cfg: Config): State {
    State(AwaitMethod, [], [Greeting(cfg)], [], None)
  }

  function Fail(s: State, e: Error): State {
    if Live(s) then s.(settlements := s.settlements + [Rejected(e)]) else s
  }

  function SendConnect(cfg: Config, s: State): State {
    match ConnectRequest(cfg.destHost, cfg.destPort)
    case Success(request) => s.(written := s.written + [request], stage := AwaitReply)
    case Failure(e) => s.(thrown := Some(e))
  }

  function StageRank(stage: Stage): nat {
    match stage case AwaitMethod => 2 case AwaitAuth => 1 case AwaitReply => 0
  }

  /** How a reply of section 6 of RFC 1928 reads so far. */
  datatype ReplyParse = Incomplete | Malformed(error: Error) | Complete(length: nat)

  function ParseReply(b: Bytes): (p: ReplyParse)
    ensures p.Complete? ==> p.length <= |b|
  {
    if |b| < 4 then Incomplete
    else if b[0] != VERSION then Malformed(UnexpectedReplyVersion)
    else if b[1] != 0x00 then Malformed(ConnectRejected(b[1]))
    else if b[3] == ATYP_IPV4 then if |b| < 10 then Incomplete else Complete(10)
    else if b[3] == ATYP_IPV6 then if |b| < 22 then Incomplete else Complete(22)
    else if b[3] == ATYP_DOMAIN then
      if |b| < 5 || |b| < 7 + b[4] as int then Incomplete else Complete(7 + b[4] as int)
    else Malformed(UnexpectedAddressType)
  }

  /** What one call of the reader does with the bytes collected so far. */
  function Process(cfg: Config, s: State): State
    requires Live(s)
    decreases StageRank(s.stage)
  {
    match s.stage
    case AwaitMethod =>
      if |s.buffer| < 2 then s
      else if s.buffer[0] != VERSION then Fail(s, UnexpectedVersion)
      else
        var offered := s.buffer[1];
        var s1 := s.(buffer := s.buffer[2..]);
        if offered == METHOD_PASSWORD then
          Process(cfg, s1.(written := s1.written + [AuthMessage(User(cfg), Pass(cfg))], stage := AwaitAuth))
        else if offered == METHOD_NONE then
          var s2 := SendConnect(cfg, s1);
          if Live(s2) then Process(cfg, s2) else s2
        else Fail(s1, UnsupportedMethod(offered))
    case AwaitAuth =>
      if |s.buffer| < 2 then s
      else
        var status := s.buffer[1];
        var s1 := s.(buffer := s.buffer[2..]);
        if status != 0x00 then Fail(s1, AuthenticationFailed)
        else
          var s2 := SendConnect(cfg, s1);
          if Live(s2) then Process(cfg, s2) else s2
    case AwaitReply =>
      match ParseReply(s.buffer)
      case Incomplete => s
      case Malformed(e) => Fail(s, e)
      case Complete(n) => s.(settlements := s.settlements + [Resolved(s.buffer[n..])])
  }

  function OnData(cfg: Config, s: State, chunk: Bytes): State {
    if Live(s) then Process(cfg, s.(buffer := s.buffer + chunk)) else s
  }

  // ---- Chunking does not matter --------------------------------------------

  /** Settled states differ only in the bytes that follow the handshake. */
  predicate Extends(s: State, t: State, more: Bytes) {
    && s.stage == t.stage && s.written == t.written && s.thrown == t.thrown
    && |s.settlements| == |t.settlements|
    && forall i :: 0 <= i < |s.settlements| ==>
         match s.settlements[i]
         case Rejected(_) => t.settlements[i] == s.settlements[i]
         case Resolved(left) => t.settlements[i] == Resolved(left + more)
  }

  lemma ReplyIsIncremental(cfg: Config, s: State, more: Bytes)
    requires Live(s) && s.stage == AwaitReply
    ensures var s1 := Process(cfg, s);
            var t := Process(cfg, s.(buffer := s.buffer + more));
            if Live(s1) then s1 == s else Extends(s1, t, more)
  {
    var p := ParseReply(s.buffer);
    if !p.Incomplete? { ReplyStable(s.buffer, more); }
    if p.Complete? {
      assert (s.buffer + more)[p.length..] == s.buffer[p.length..] + more;
    }
  }

  /**
   Reading `b` and then `more` is reading `b + more` at once: if the first read
   leaves the handshake open the two agree exactly, and if it ends the
   handshake the extra bytes only show up behind it.
   */
  lemma {:induction false} ProcessIsIncremental(cfg: Config, s: State, more: Bytes)
    requires Live(s)
    ensures var s1 := Process(cfg, s);
            var t := Process(cfg, s.(buffer := s.buffer + more));
            if Live(s1) then Process(cfg, s1.(buffer := s1.buffer + more)) == t
            else Extends(s1, t, more)
    decreases StageRank(s.stage)
  {
    var whole := s.(buffer := s.buffer + more);
    match s.stage
    case AwaitMethod =>
      if |s.buffer| >= 2 && s.buffer[0] == VERSION {
        assert whole.buffer[2..] == s.buffer[2..] + more;
        var s1 := s.(buffer := s.buffer[2..]);
        if s.buffer[1] == METHOD_PASSWORD {
          var message := AuthMessage(User(cfg), Pass(cfg));
          ProcessIsIncremental(cfg, s1.(written := s1.written + [message], stage := AwaitAuth), more);
        } else if s.buffer[1] == METHOD_NONE {
          var s2 := SendConnect(cfg, s1);
          if Live(s2) { ProcessIsIncremental(cfg, s2, more); }
        }
      }
    case AwaitAuth =>
      if |s.buffer| >= 2 {
        assert whole.buffer[2..] == s.buffer[2..] + more;
        var s2 := SendConnect(cfg, s.(buffer := s.buffer[2..]));
        if s.buffer[1] == 0x00 && Live(s2) { ProcessIsIncremental(cfg, s2, more); }
      }
    case AwaitReply => ReplyIsIncremental(cfg, s, more);
  }

  function Flatten(chunks: seq<Bytes>): Bytes {
    if chunks == [] then [] else chunks[0] + Flatten(chunks[1..])
  }

  /** Delivers chunks while the listener is attached; returns the unread ones. */
  function Deliver(cfg: Config, s: State, chunks: seq<Bytes>): (State, seq<Bytes>)
    decreases |chunks|
  {
    if chunks == [] || !Live(s) then (s, chunks)
    else Deliver(cfg, OnData(cfg, s, chunks[0]), chunks[1..])
  }

  lemma {:induction false} DeliverIsOneRead(cfg: Config, s: State, chunks: seq<Bytes>)
    requires Live(s) && Process(cfg, s) == s
    ensures var (end, unread) := Deliver(cfg, s, chunks);
            var once := Process(cfg, s.(buffer := s.buffer + Flatten(chunks)));
            if Live(end) then end == once && unread == [] else Extends(end, once, Flatten(unread))
    decreases |chunks|
  {
    if chunks == [] {
      assert s.buffer + Flatten(chunks) == s.buffer;
    } else {
      var got := s.(buffer := s.buffer + chunks[0]);
      var s1 := Process(cfg, got);
      var rest := Flatten(chunks[1..]);
      assert s.buffer + Flatten(chunks) == got.buffer + rest;
      ProcessIsIncremental(cfg, got, rest);
      if Live(s1) {
        ProcessIsIncremental(cfg, got, []);
        assert got.buffer + [] == got.buffer;
        assert s1.buffer + [] == s1.buffer;
        DeliverIsOneRead(cfg, s1, chunks[1..]);
      } else {
        assert Deliver(cfg, s1, chunks[1..]) == (s1, chunks[1..]);
      }
    }
  }

  // ---- A one-shot reading of the whole server stream ------------------------

  datatype Outcome = Waiting | Failed(error: Error) | Connected(length: nat) | Threw(cause: BuildError)
  datatype Verdict = Verdict(written: seq<Bytes>, outcome: Outcome)

  function AfterConnect(cfg: Config, sent: seq<Bytes>, stream: Bytes, at: nat): Verdict
    requires at <= |stream|
  {
    match ConnectRequest(cfg.destHost, cfg.destPort)
    case Failure(e) => Verdict(sent, Threw(e))
    case Success(request) =>
      Verdict(sent + [request],
              match ParseReply(stream[at..])
              case Incomplete => Waiting
              case Malformed(e) => Failed(e)
              case Complete(n) => Connected(at + n))
  }

  /** What the handshake must do with a stream, read by position and all at once. */
  function OneShot(cfg: Config, stream: Bytes): Verdict {
    var hello := [Greeting(cfg)];
    if |stream| < 2 then Verdict(hello, Waiting)
    else if stream[0] != VERSION then Verdict(hello, Failed(UnexpectedVersion))
    else if stream[1] == METHOD_NONE then AfterConnect(cfg, hello, stream, 2)
    else if stream[1] != METHOD_PASSWORD then Verdict(hello, Failed(UnsupportedMethod(stream[1])))
    else
      var withAuth := hello + [AuthMessage(User(cfg), Pass(cfg))];
      if |stream| < 4 then Verdict(withAuth, Waiting)
      else if stream[3] != 0x00 then Verdict(withAuth, Failed(AuthenticationFailed))
      else AfterConnect(cfg, withAuth, stream, 4)
  }

  /** A state says the same as a verdict; `unread` is what was never delivered. */
  predicate Agrees(s: State, unread: Bytes, stream: Bytes, v: Verdict) {
    && s.written == v.written
    && match v.outcome
       case Waiting => Live(s)
       case Threw(e) => s.settlements == [] && s.thrown == Some(e)
       case Failed(e) => s.settlements == [Rejected(e)] && s.thrown.None?
       case Connected(n) =>
         n <= |stream| && s.thrown.None? && |s.settlements| == 1 && s.settlements[0].Resolved?
         && s.settlements[0].leftover + unread == stream[n..]
  }

  lemma OneReadAgrees(cfg: Config, stream: Bytes)
    ensures Agrees(Process(cfg, Initial(cfg).(buffer := stream)), [], stream, OneShot(cfg, stream))
  {
    var s := Initial(cfg).(buffer := stream);
    if |stream| >= 2 && stream[0] == VERSION {
      var s1 := s.(buffer := stream[2..]);
      if stream[1] == METHOD_NONE {
        var s2 := SendConnect(cfg, s1);
        if Live(s2) { ReplyAgrees(cfg, s2, stream, 2); }
      } else if stream[1] == METHOD_PASSWORD {
        var s2 := s1.(written := s1.written + [AuthMessage(User(cfg), Pass(cfg))], stage := AwaitAuth);
        assert Process(cfg, s) == Process(cfg, s2);
        if |stream| >= 4 && stream[3] == 0x00 {
          assert s2.buffer[1] == stream[3];
          assert s2.buffer[2..] == stream[4..];
          var s3 := SendConnect(cfg, s2.(buffer := stream[4..]));
          if Live(s3) { ReplyAgrees(cfg, s3, stream, 4); }
        }
      }
    }
  }

  lemma ReplyAgrees(cfg: Config, s: State, stream: Bytes, at: nat)
    requires Live(s) && s.stage == AwaitReply && at <= |stream| && s.buffer == stream[at..]
    ensures var t := Process(cfg, s);
            && t.written == s.written && t.thrown.None?
            && match ParseReply(stream[at..])
               case Incomplete => Live(t)
               case Malformed(e) => t.settlements == [Rejected(e)]
               case Complete(n) => t.settlements == [Resolved(stream[at + n..])]
  {
    var p := ParseReply(stream[at..]);
    if p.Complete? {
      assert stream[at..][p.length..] == stream[at + p.length..];
    }
  }

  /**
   For every stream and every way of cutting it into chunks, the handshake
   writes the same messages and reaches the same outcome as one reading of the
   whole stream; on success the leftover and the unread chunks together are
   exactly what follows the reply.
   */
  lemma ChunkingIsIrrelevant(cfg: Config, chunks: seq<Bytes>)
    ensures var (end, unread) := Deliver(cfg, Initial(cfg), chunks);
            Agrees(end, Flatten(unread), Flatten(chunks), OneShot(cfg, Flatten(chunks)))
  {
    var stream := Flatten(chunks);
    DeliverIsOneRead(cfg, Initial(cfg), chunks);
    assert Initial(cfg).buffer + stream == stream;
    OneReadAgrees(cfg, stream);
  }

  // ---- What the messages say ------------------------------------------------

  /** A proxy's reading of the method selection of section 3 of RFC 1928: the methods offered. */
  function DecodeGreeting(s: Bytes): Option<Bytes> {
    if |s| < 2 || s[0] != 0x05 || |s| != 2 + s[1] as int then None else Some(s[2..])
  }

  /** The caller gave a username that is not empty. */
  predicate HasUsername(cfg: Config) {
    cfg.username.Some? && |cfg.username.value| > 0
  }

  /** An authentication message starts with the version of section 2 of RFC 1929. */
  predicate IsAuth(message: Bytes) {
    |message| > 0 && message[0] == 0x01
  }

  predicate AuthSent(written: seq<Bytes>) {
    exists i :: 0 <= i < |written| && IsAuth(written[i])
  }

  predicate ConnectSent(written: seq<Bytes>) {
    exists i :: 0 <= i < |written| && IsConnect(written[i])
  }

  /** The proxy's first two bytes select a method. */
  predicate Selects(stream: Bytes, m: Byte) {
    |stream| >= 2 && stream[0] == 0x05 && stream[1] == m
  }

  /** The proxy lets the client proceed: it asks for nothing, or accepts what it asked for. */
  predicate Accepts(stream: Bytes) {
    Selects(stream, 0x00) || (Selects(stream, 0x02) && |stream| >= 4 && stream[3] == 0x00)
  }

  /** The username and password a message carries are the caller's, the username standing in for no password. */
  predicate CarriesCredentials(message: Bytes, cfg: Config) {
    var user := match cfg.username case Some(u) => u case None => [];
    var pass := match cfg.password case Some(p) => p case None => user;
    |user| <= 255 && |pass| <= 255 ==> DecodeAuth(message) == Some((user, pass, []))
  }

  /** The message asks for the caller's destination. */
  predicate AsksForDestination(message: Bytes, cfg: Config) {
    DecodeConnect(message) == Some((cfg.destHost, cfg.destPort, []))
  }

  /**
   Read as a proxy reads them, the messages say: one method is offered, username
   and password exactly when the caller gave a username; credentials go out
   exactly when the proxy selects that method, offered or not, and are the
   caller's; the request goes out exactly when the proxy lets the client proceed,
   and names the caller's destination.
   */
  predicate Conversation(cfg: Config, stream: Bytes, written: seq<Bytes>) {
    && |written| > 0 && DecodeGreeting(written[0]) == Some([if HasUsername(cfg) then 0x02 else 0x00])
    && (AuthSent(written) <==> Selects(stream, 0x02))
    && (ConnectSent(written) <==> Accepts(stream) && Buildable(cfg))
    && forall i :: 0 < i < |written| ==> ByRequestOrAuth(cfg, written[i])
  }

  predicate ByRequestOrAuth(cfg: Config, message: Bytes) {
    || (IsAuth(message) && CarriesCredentials(message, cfg))
    || (IsConnect(message) && AsksForDestination(message, cfg))
  }

  lemma AuthCarries(cfg: Config)
    ensures IsAuth(AuthMessage(User(cfg), Pass(cfg))) && !IsConnect(AuthMessage(User(cfg), Pass(cfg)))
    ensures CarriesCredentials(AuthMessage(User(cfg), Pass(cfg)), cfg)
  {
    AuthRoundTrip(User(cfg), Pass(cfg));
  }

  lemma RequestAsks(cfg: Config)
    requires Buildable(cfg)
    ensures ConnectRequest(cfg.destHost, cfg.destPort).Success?
    ensures var request := ConnectRequest(cfg.destHost, cfg.destPort).value;
            IsConnect(request) && !IsAuth(request) && AsksForDestination(request, cfg)
  {
    var request := ConnectRequest(cfg.destHost, cfg.destPort).value;
    ConnectRoundTrip(cfg.destHost, cfg.destPort, []);
    assert request + [] == request;
  }

  /** One more message says no more than it says itself. */
  lemma SentAppend(written: seq<Bytes>, message: Bytes)
    ensures AuthSent(written + [message]) <==> AuthSent(written) || IsAuth(message)
    ensures ConnectSent(written + [message]) <==> ConnectSent(written) || IsConnect(message)
  {
    var longer := written + [message];
    assert longer[|written|] == message;
    assert forall i :: 0 <= i < |written| ==> longer[i] == written[i];
  }

  lemma MessagesOfOneShot(cfg: Config, stream: Bytes)
    ensures Conversation(cfg, stream, OneShot(cfg, stream).written)
  {
    var hello := [Greeting(cfg)];
    var auth := AuthMessage(User(cfg), Pass(cfg));
    AuthCarries(cfg);
    SentAppend(hello, auth);
    if Buildable(cfg) {
      var request := ConnectRequest(cfg.destHost, cfg.destPort).value;
      RequestAsks(cfg);
      SentAppend(hello, request);
      SentAppend(hello + [auth], request);
    }
  }

  /** For every stream however it is cut, the messages written converse as they should. */
  lemma MessagesExactly(cfg: Config, chunks: seq<Bytes>)
    ensures Conversation(cfg, Flatten(chunks), Deliver(cfg, Initial(cfg), chunks).0.written)
  {
    ChunkingIsIrrelevant(cfg, chunks);
    MessagesOfOneShot(cfg, Flatten(chunks));
  }

  /**
   So with a proxy that selects the method it was offered, credentials are sent
   exactly when there is a username to send.
   */
  lemma CredentialsSentExactly(cfg: Config, chunks: seq<Bytes>)
    requires exists m :: DecodeGreeting(Initial(cfg).written[0]) == Some([m]) && Selects(Flatten(chunks), m)
    ensures AuthSent(Deliver(cfg, Initial(cfg), chunks).0.written) <==> HasUsername(cfg)
  {
    MessagesExactly(cfg, chunks);
    MessagesExactly(cfg, []);
  }

  // ---- Which streams connect, fail or wait ----------------------------------

  datatype Address = IPv4(octets: Bytes) | IPv6(octets: Bytes) | Domain(name: Bytes)

  /** A successful server conversation, field by field. */
  datatype Script = Script(auth: Option<Byte>, reserved: Byte, address: Address, port: Bytes)

  predicate WellFormed(a: Script) {
    && |a.port| == 2
    && match a.address
       case IPv4(o) => |o| == 4
       case IPv6(o) => |o| == 16
       case Domain(n) => |n| <= 255
  }

  function EncodeAddress(a: Address): Bytes
    requires a.Domain? ==> |a.name| <= 255
  {
    match a
    case IPv4(o) => [0x01] + o
    case IPv6(o) => [0x04] + o
    case Domain(n) => [0x03, |n|] + n
  }

  function EncodeReply(a: Script): Bytes
    requires WellFormed(a)
  {
    [0x05, 0x00, a.reserved] + EncodeAddress(a.address) + a.port
  }

  function Encode(a: Script): Bytes
    requires WellFormed(a)
  {
    (match a.auth
     case None => [0x05, 0x00]
     case Some(v) => [0x05, 0x02, v, 0x00]) + EncodeReply(a)
  }

  lemma ReplyParses(a: Script, rest: Bytes)
    requires WellFormed(a)
    ensures ParseReply(EncodeReply(a) + rest) == Complete(|EncodeReply(a)|)
  {
  }

  lemma ParsedReplyIsEncoding(b: Bytes, auth: Option<Byte>) returns (a: Script)
    requires ParseReply(b).Complete?
    ensures WellFormed(a) && a.auth == auth
    ensures EncodeReply(a) == b[..ParseReply(b).length]
  {
    var n := ParseReply(b).length;
    var address :=
      if b[3] == ATYP_IPV4 then IPv4(b[4..8])
      else if b[3] == ATYP_IPV6 then IPv6(b[4..20])
      else Domain(b[5..n - 2]);
    a := Script(auth, b[2], address, b[n - 2..n]);
    assert EncodeAddress(address) == b[3..n - 2];
  }

  lemma ConnectedScript(cfg: Config, stream: Bytes, n: nat) returns (a: Script)
    requires OneShot(cfg, stream).outcome == Connected(n)
    ensures WellFormed(a) && n <= |stream| && Encode(a) == stream[..n]
  {
    if stream[1] == METHOD_NONE {
      a := ParsedReplyIsEncoding(stream[2..], None);
      assert stream[..n] == stream[..2] + stream[2..][..n - 2];
    } else {
      a := ParsedReplyIsEncoding(stream[4..], Some(stream[2]));
      assert stream[..n] == stream[..4] + stream[4..][..n - 4];
    }
  }

  lemma ScriptConnects(cfg: Config, a: Script, rest: Bytes)
    requires WellFormed(a) && Buildable(cfg)
    ensures OneShot(cfg, Encode(a) + rest).outcome == Connected(|Encode(a)|)
  {
    var stream := Encode(a) + rest;
    ReplyParses(a, rest);
    match a.auth {
      case None =>
        assert stream[2..] == EncodeReply(a) + rest;
      case Some(v) =>
        assert stream[4..] == EncodeReply(a) + rest;
    }
  }

  /**
   The handshake connects on a stream exactly when the stream begins with a
   successful conversation, and it consumes that conversation and no more.
   */
  lemma ConnectsExactlyOnScripts(cfg: Config, stream: Bytes, n: nat)
    requires Buildable(cfg)
    ensures OneShot(cfg, stream).outcome == Connected(n)
            <==> n <= |stream| && exists a :: WellFormed(a) && Encode(a) == stream[..n]
  {
    if OneShot(cfg, stream).outcome == Connected(n) {
      var a := ConnectedScript(cfg, stream, n);
    }
    if n <= |stream| && exists a :: WellFormed(a) && Encode(a) == stream[..n] {
      var a :| WellFormed(a) && Encode(a) == stream[..n];
      assert stream == Encode(a) + stream[n..];
      ScriptConnects(cfg, a, stream[n..]);
    }
  }

  lemma ReplyStable(b: Bytes, more: Bytes)
    requires !ParseReply(b).Incomplete?
    ensures ParseReply(b + more) == ParseReply(b)
  {
  }

  /** More bytes never change an error. */
  lemma FailureIsFinal(cfg: Config, stream: Bytes, more: Bytes)
    requires OneShot(cfg, stream).outcome.Failed?
    ensures OneShot(cfg, stream + more) == OneShot(cfg, stream)
  {
    var whole := stream + more;
    if stream[0] == VERSION {
      assert whole[2..] == stream[2..] + more;
      if stream[1] == METHOD_NONE {
        ReplyStable(stream[2..], more);
      } else if stream[1] == METHOD_PASSWORD && stream[3] == 0x00 {
        assert whole[4..] == stream[4..] + more;
        ReplyStable(stream[4..], more);
      }
    }
  }

  /**
   The reader judges a message only once its fixed header is there, so a
   fragment can already be wrong while the handshake still waits.
   */
  predicate WrongFragment(stream: Bytes) {
    if |stream| < 2 then |stream| == 1 && stream[0] != VERSION
    else if stream[0] != VERSION then false
    else if stream[1] == METHOD_NONE then WrongReplyFragment(stream[2..])
    else stream[1] == METHOD_PASSWORD && |stream| >= 4 && WrongReplyFragment(stream[4..])
  }

  predicate WrongReplyFragment(b: Bytes) {
    1 <= |b| < 4 && (b[0] != VERSION || (|b| >= 2 && b[1] != 0x00))
  }

  lemma CompleteReply(b: Bytes) returns (more: Bytes)
    requires ParseReply(b).Incomplete? && !WrongReplyFragment(b)
    ensures ParseReply(b + more).Complete?
  {
    if |b| < 4 {
      var model: Bytes := [VERSION, 0x00, 0x00, ATYP_IPV4];
      more := model[|b|..] + seq(6, _ => 0);
      assert (b + more)[3] == ATYP_IPV4;
    } else {
      more := seq(300, _ => 0);
    }
  }

  lemma CompleteStream(cfg: Config, stream: Bytes) returns (more: Bytes)
    requires Buildable(cfg) && OneShot(cfg, stream).outcome == Waiting && !WrongFragment(stream)
    ensures OneShot(cfg, stream + more).outcome.Connected?
  {
    var reply: Bytes := [VERSION, 0x00, 0x00, ATYP_IPV4, 0, 0, 0, 0, 0, 0];
    if |stream| < 2 {
      more := [VERSION, METHOD_NONE][|stream|..] + reply;
      assert (stream + more)[2..] == reply;
    } else if stream[1] == METHOD_NONE {
      more := CompleteReply(stream[2..]);
      assert (stream + more)[2..] == stream[2..] + more;
    } else if |stream| < 4 {
      more := [0x00, 0x00][|stream| - 2..] + reply;
      assert (stream + more)[4..] == reply;
    } else {
      more := CompleteReply(stream[4..]);
      assert (stream + more)[4..] == stream[4..] + more;
    }
  }

  lemma WrongFragmentNeverConnects(cfg: Config, stream: Bytes, more: Bytes)
    requires WrongFragment(stream)
    ensures !OneShot(cfg, stream + more).outcome.Connected?
  {
    var whole := stream + more;
    if |stream| >= 2 {
      assert whole[2..] == stream[2..] + more;
      if |stream| >= 4 { assert whole[4..] == stream[4..] + more; }
    }
  }

  lemma ConnectedIsFinal(cfg: Config, stream: Bytes, more: Bytes)
    requires OneShot(cfg, stream).outcome.Connected?
    ensures OneShot(cfg, stream + more) == OneShot(cfg, stream)
  {
    var whole := stream + more;
    assert whole[2..] == stream[2..] + more;
    if stream[1] == METHOD_NONE {
      ReplyStable(stream[2..], more);
    } else {
      assert whole[4..] == stream[4..] + more;
      ReplyStable(stream[4..], more);
    }
  }

  /**
   Exactly when some continuation of a stream still connects: it has connected
   already, or it is waiting and holds no wrong fragment. Every failure is thus
   justified, and every wait except on a wrong fragment is worth it.
   */
  lemma CanStillConnect(cfg: Config, stream: Bytes)
    requires Buildable(cfg)
    ensures (exists more :: OneShot(cfg, stream + more).outcome.Connected?)
            <==> (OneShot(cfg, stream).outcome.Connected?
                  || (OneShot(cfg, stream).outcome == Waiting && !WrongFragment(stream)))
  {
    var outcome := OneShot(cfg, stream).outcome;
    if outcome.Connected? {
      ConnectedIsFinal(cfg, stream, []);
    } else if outcome == Waiting && !WrongFragment(stream) {
      var more := CompleteStream(cfg, stream);
    } else {
      forall more ensures !OneShot(cfg, stream + more).outcome.Connected? {
        if outcome.Failed? {
          FailureIsFinal(cfg, stream, more);
        } else {
          WrongFragmentNeverConnects(cfg, stream, more);
        }
      }
    }
  }

  // ---- Whole runs, with socket errors, closing and the timeout --------------

  datatype Event = Data(chunk: Bytes) | Fault(error: Error)

  function Step(cfg: Config, s: State, e: Event): State {
    match e
    case Data(chunk) => OnData(cfg, s, chunk)
    case Fault(error) => if s.thrown.Some? then s else Fail(s, error)
  }

  function Run(cfg: Config, s: State, events: seq<Event>): State
    decreases |events|
  {
    if events == [] then s else Step(cfg, Run(cfg, s, events[..|events| - 1]), events[|events| - 1])
  }

  /** A CONNECT request can be told from the greeting and from the auth message. */
  predicate IsConnect(message: Bytes) {
    |message| >= 4 && message[..4] == [0x05, 0x01, 0x00, 0x03]
  }

  function Connects(written: seq<Bytes>): nat {
    if written == [] then 0
    else Connects(written[..|written| - 1]) + (if IsConnect(written[|written| - 1]) then 1 else 0)
  }

  predicate Sound(s: State) {
    && |s.settlements| <= 1
    && Connects(s.written) == (if s.stage == AwaitReply then 1 else 0)
    && (s.settlements != [] && s.settlements[0].Resolved? ==> s.stage == AwaitReply)
  }

  lemma ConnectsAppend(written: seq<Bytes>, message: Bytes)
    ensures Connects(written + [message]) == Connects(written) + (if IsConnect(message) then 1 else 0)
  {
    assert (written + [message])[..|written|] == written;
  }

  lemma AuthKeepsSound(cfg: Config, s: State)
    requires Live(s) && Sound(s) && s.stage == AwaitMethod
    ensures Sound(s.(written := s.written + [AuthMessage(User(cfg), Pass(cfg))], stage := AwaitAuth))
  {
    var auth := AuthMessage(User(cfg), Pass(cfg));
    ConnectsAppend(s.written, auth);
    assert auth[0] == 0x01 && !IsConnect(auth);
  }

  lemma SendConnectKeepsSound(cfg: Config, s: State)
    requires Live(s) && Sound(s) && s.stage != AwaitReply
    ensures Sound(SendConnect(cfg, s))
  {
    if ConnectRequest(cfg.destHost, cfg.destPort).Success? {
      var request := ConnectRequest(cfg.destHost, cfg.destPort).value;
      assert request[..4] == [VERSION, 0x01, 0x00, ATYP_DOMAIN];
      ConnectsAppend(s.written, request);
    }
  }

  lemma ReplyKeepsSound(cfg: Config, s: State)
    requires Live(s) && Sound(s) && s.stage == AwaitReply
    ensures Sound(Process(cfg, s))
  {
  }

  lemma ConnectThenReplySound(cfg: Config, s: State)
    requires Live(s) && Sound(s) && s.stage != AwaitReply
    ensures Sound(var t := SendConnect(cfg, s); if Live(t) then Process(cfg, t) else t)
  {
    SendConnectKeepsSound(cfg, s);
    var t := SendConnect(cfg, s);
    if Live(t) { ReplyKeepsSound(cfg, t); }
  }

  lemma StatusKeepsSound(cfg: Config, s: State)
    requires Live(s) && Sound(s) && s.stage == AwaitAuth
    ensures Sound(Process(cfg, s))
  {
    if |s.buffer| >= 2 { ConnectThenReplySound(cfg, s.(buffer := s.buffer[2..])); }
  }

  lemma MethodKeepsSound(cfg: Config, s: State)
    requires Live(s) && Sound(s) && s.stage == AwaitMethod
    ensures Sound(Process(cfg, s))
  {
    if |s.buffer| >= 2 && s.buffer[0] == VERSION {
      var s1 := s.(buffer := s.buffer[2..]);
      if s.buffer[1] == METHOD_PASSWORD {
        AuthKeepsSound(cfg, s1);
        StatusKeepsSound(cfg, s1.(written := s1.written + [AuthMessage(User(cfg), Pass(cfg))], stage := AwaitAuth));
      } else if s.buffer[1] == METHOD_NONE {
        ConnectThenReplySound(cfg, s1);
      }
    }
  }

  lemma ProcessSound(cfg: Config, s: State)
    requires Live(s) && Sound(s)
    ensures Sound(Process(cfg, s))
  {
    match s.stage
    case AwaitReply => ReplyKeepsSound(cfg, s);
    case AwaitAuth => StatusKeepsSound(cfg, s);
    case AwaitMethod => MethodKeepsSound(cfg, s);
  }

  /**
   Whatever arrives and whatever goes wrong, in any order: the promise settles
   at most once, CONNECT is sent at most once, and it was sent before success.
   */
  lemma {:induction false} SettlesAndConnectsOnce(cfg: Config, events: seq<Event>)
    ensures Sound(Run(cfg, Initial(cfg), events))
  {
    if events == [] {
      ConnectsAppend([], Greeting(cfg));
      assert [] + [Greeting(cfg)] == Initial(cfg).written;
    } else {
      var before := Run(cfg, Initial(cfg), events[..|events| - 1]);
      SettlesAndConnectsOnce(cfg, events[..|events| - 1]);
      match events[|events| - 1] {
        case Data(chunk) => if Live(before) { ProcessSound(cfg, before.(buffer := before.buffer + chunk)); }
        case Fault(_) =>
      }
    }
  }

  lemma {:induction false} FirstMessageStays(cfg: Config, events: seq<Event>)
    ensures var written := Run(cfg, Initial(cfg), events).written;
            |written| > 0 && written[0] == Initial(cfg).written[0]
    decreases |events|
  {
    if events == [] {
    } else {
      FirstMessageStays(cfg, events[..|events| - 1]);
      var before := Run(cfg, Initial(cfg), events[..|events| - 1]);
      match events[|events| - 1] {
        case Data(chunk) => if Live(before) { ProcessWritesOn(cfg, before.(buffer := before.buffer + chunk)); }
        case Fault(_) =>
      }
    }
  }

  lemma {:induction false} ProcessWritesOn(cfg: Config, s: State)
    requires Live(s)
    ensures s.written <= Process(cfg, s).written
    decreases StageRank(s.stage)
  {
    if s.stage != AwaitReply && |s.buffer| >= 2 {
      var s1 := s.(buffer := s.buffer[2..]);
      var s2 := SendConnect(cfg, s1);
      if Live(s2) { ProcessWritesOn(cfg, s2); }
      if s.stage == AwaitMethod {
        var message := AuthMessage(User(cfg), Pass(cfg));
        ProcessWritesOn(cfg, s1.(written := s1.written + [message], stage := AwaitAuth));
      }
    }
  }

  /**
   Whatever arrives and whatever goes wrong, the first message offers one method:
   username and password exactly when the caller gave a username.
   */
  lemma GreetingExactly(cfg: Config, events: seq<Event>)
    ensures var written := Run(cfg, Initial(cfg), events).written;
            |written| > 0 && DecodeGreeting(written[0]) == Some([if HasUsername(cfg) then 0x02 else 0x00])
  {
    FirstMessageStays(cfg, events);
    MessagesExactly(cfg, []);
  }

  /** Once settled or thrown, nothing that happens changes anything. */
  lemma {:induction false} EndIsFinal(cfg: Config, s: State, more: seq<Event>)
    requires !Live(s)
    ensures Run(cfg, s, more) == s
    decreases |more|
  {
    if more == [] {
    } else {
      EndIsFinal(cfg, s, more[..|more| - 1]);
    }
  }

  /** A socket error, closing or the timeout rejects an open handshake with that error, for good. */
  lemma FaultRejectsForGood(cfg: Config, s: State, e: Error, more: seq<Event>)
    requires Live(s)
    ensures Run(cfg, Step(cfg, s, Fault(e)), more) == s.(settlements := [Rejected(e)])
  {
    EndIsFinal(cfg, Step(cfg, s, Fault(e)), more);
  }

  /** Which destinations cannot be asked for, and why; the length is looked at first. */
  lemma UnbuildableExactly(host: Bytes, port: int)
    ensures var r := ConnectRequest(host, port);
            && (r == Failure(HostTooLong) <==> |host| > 255)
            && (r == Failure(PortOutOfRange) <==> |host| <= 255 && (port < 0 || port > 65535))
  {
  }
}

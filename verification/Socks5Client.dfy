/** The handshake of packages/transport-router/src/index.ts, as it updates its closure variables. */
module Socks5Client {
  import opened Wrappers
  import opened Socks5
  import S = Socks5

  /** Builds the request; the port goes through a two-byte big-endian buffer. */
  method BuildSocks5ConnectRequest(host: Bytes, port: int) returns (r: Result<Bytes, BuildError>)
    ensures r == ConnectRequest(host, port)
    ensures r.Success? ==> DecodeConnect(r.value) == Some((host, port, []))
  {
    if |host| > 255 {
      return Failure(HostTooLong);
    }
    var head: Bytes := [VERSION, 0x01, 0x00, ATYP_DOMAIN, |host|];
    var portBuf := new Byte[2](_ => 0);
    if port < 0 || port > 65535 {
      return Failure(PortOutOfRange);
    }
    portBuf[0] := port / 256;
    portBuf[1] := port % 256;
    assert portBuf[..] == [port / 256, port % 256];
    r := Success(head + host + portBuf[..]);
    ConnectRoundTrip(host, port, []);
    assert r.value + [] == r.value;
  }

  /** The imperative reader, with the closure variables of the source as fields. */
  class Handshake {
    const config: Config
    var stage: Stage
    var buffer: Bytes
    var settled: bool
    var written: seq<Bytes>
    var settlements: seq<Settlement>
    var thrown: Option<BuildError>

    ghost function View(): State
      reads this
    {
      State(stage, buffer, written, settlements, thrown)
    }

    ghost predicate Valid()
      reads this
    {
      settled == (settlements != [])
    }

    /** The socket is connected: the greeting goes out. */
    constructor (config: Config)
      ensures Valid() && this.config == config
      ensures View() == Initial(config)
    {
      this.config := config;
      stage, buffer, settled := AwaitMethod, [], false;
      var useAuth := config.username.Some? && config.username.value != [];
      written := [[VERSION, 0x01, if useAuth then METHOD_PASSWORD else METHOD_NONE]];
      settlements, thrown := [], None;
    }

    /** Rejects once; also the handler of socket errors, closing and the timer. */
    method Fail(e: Error)
      requires Valid() && thrown.None?
      modifies this`settled, this`settlements
      ensures Valid()
      ensures View() == S.Fail(old(View()), e)
    {
      if settled { return; }
      settled := true;
      settlements := settlements + [Rejected(e)];
    }

    method SendConnect() returns (sent: bool)
      requires Valid()
      modifies this`written, this`stage, this`thrown
      ensures Valid()
      ensures View() == S.SendConnect(config, old(View()))
      ensures sent == ConnectRequest(config.destHost, config.destPort).Success?
    {
      var request := BuildSocks5ConnectRequest(config.destHost, config.destPort);
      match request {
        case Success(message) =>
          written := written + [message];
          stage := AwaitReply;
          sent := true;
        case Failure(e) =>
          thrown := Some(e);
          sent := false;
      }
    }

    method Process()
      requires Valid() && Live(View())
      modifies this
      ensures Valid()
      ensures View() == S.Process(config, old(View()))
      decreases StageRank(stage)
    {
      if stage == AwaitMethod {
        if |buffer| < 2 { return; }
        if buffer[0] != VERSION {
          Fail(UnexpectedVersion);
          return;
        }
        var offered := buffer[1];
        buffer := buffer[2..];
        if offered == METHOD_PASSWORD {
          var user := if config.username.Some? then config.username.value else [];
          var pass := if config.password.Some? then config.password.value
                      else if config.username.Some? then config.username.value else [];
          written := written + [[0x01, |user| % 256] + user + [|pass| % 256] + pass];
          stage := AwaitAuth;
          Process();
          return;
        }
        if offered == METHOD_NONE {
          var sent := SendConnect();
          if sent { Process(); }
          return;
        }
        Fail(UnsupportedMethod(offered));
        return;
      }
      if stage == AwaitAuth {
        if |buffer| < 2 { return; }
        var status := buffer[1];
        buffer := buffer[2..];
        if status != 0x00 {
          Fail(AuthenticationFailed);
          return;
        }
        var sent := SendConnect();
        if sent { Process(); }
        return;
      }
      ProcessReply();
    }

    method ProcessReply()
      requires Valid() && Live(View()) && stage == AwaitReply
      modifies this
      ensures Valid()
      ensures View() == S.Process(config, old(View()))
    {
      if |buffer| < 4 { return; }
      if buffer[0] != VERSION {
        Fail(UnexpectedReplyVersion);
        return;
      }
      if buffer[1] != 0x00 {
        Fail(ConnectRejected(buffer[1]));
        return;
      }
      var needed: nat;
      if buffer[3] == ATYP_IPV4 {
        needed := 4 + 4 + 2;
      } else if buffer[3] == ATYP_IPV6 {
        needed := 4 + 16 + 2;
      } else if buffer[3] == ATYP_DOMAIN {
        if |buffer| < 5 { return; }
        needed := 4 + 1 + buffer[4] as int + 2;
      } else {
        Fail(UnexpectedAddressType);
        return;
      }
      if |buffer| < needed { return; }
      settled := true;
      settlements := settlements + [Resolved(buffer[needed..])];
    }

    /** The data listener, which settling removes from the socket. */
    method OnData(chunk: Bytes)
      requires Valid()
      modifies this
      ensures Valid()
      ensures View() == S.OnData(config, old(View()), chunk)
    {
      if settled || thrown.Some? { return; }
      buffer := buffer + chunk;
      Process();
    }
  }
}

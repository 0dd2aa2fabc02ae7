// The actors that own a connection one after the other: handshake, then status or login, then configuration.
module Actors {
  import opened Common
  import opened Cfb8
  import opened Codec
  import opened Sockets
  import opened Framing
  import opened Connection
  import opened ConnectionTheory

  // ---- The steps every client actor is made of ----

  // The frame record of a list of outputs.
  function Record(protocol: Protocol, outputs: seq<Output>): seq<Handed> {
    if outputs == [] then []
    else
      var body := protocol.write(outputs[0].packet);
      [Handed(outputs[0].key, FrameOf(if body.Some? then body.value else []))] + Record(protocol, outputs[1..])
  }

  lemma {:induction false} RecordAppend(protocol: Protocol, a: seq<Output>, b: seq<Output>)
    ensures Record(protocol, a + b) == Record(protocol, a) + Record(protocol, b)
    decreases |a|
  {
    if a == [] {
      assert a + b == b;
    } else {
      assert (a + b)[1..] == a[1..] + b;
      RecordAppend(protocol, a[1..], b);
    }
  }

  // Awaits a frame for as long as the timer allows. The timer can only fire while the stream has nothing to give.
  method NextFrameWithTimeout(framer: Framed) returns (r: Option<Packet>)
    requires framer.Valid()
    modifies framer.io`mode, framer.io.stream`arrivals, framer.io.stream`awaited, framer.codec, framer.readBuf
    ensures framer.Valid() && KeyOf(framer.io.mode) == KeyOf(old(framer.io.mode))
    ensures framer.io.stream.awaited == old(framer.io.stream.awaited) + 1
    ensures var (next, e) := NextFrame(framer.io.aes, old(framer.End()));
      if next.Item? then r == Some(next.packet) && framer.End() == e else r == None
  {
    var stream := framer.io.stream;
    stream.awaited := stream.awaited + 1;
    while true
      invariant framer.Valid() && KeyOf(framer.io.mode) == KeyOf(old(framer.io.mode))
      invariant stream.awaited == old(stream.awaited) + 1
      invariant NextFrame(framer.io.aes, framer.End()) == NextFrame(framer.io.aes, old(framer.End()))
      decreases |stream.arrivals|
    {
      var next := framer.PollNext();
      match next {
        case Item(packet) => return Some(packet);
        case Ended => return None;
        case NoFrameYet =>
          if stream.arrivals != [] && stream.arrivals[0].Elapsed? {
            stream.arrivals := stream.arrivals[1..];
            return None;
          }
      }
    }
  }

  // A frame with another id, or whose payload cannot be parsed, counts as none.
  method Read<T>(framer: Framed, id: int, parse: Bytes -> Option<T>) returns (r: Option<T>)
    requires framer.Valid()
    modifies framer.io`mode, framer.io.stream`arrivals, framer.io.stream`awaited, framer.codec, framer.readBuf
    ensures framer.Valid() && KeyOf(framer.io.mode) == KeyOf(old(framer.io.mode))
    ensures framer.io.stream.awaited == old(framer.io.stream.awaited) + 1
    ensures r == ReadPacket(framer.io.aes, old(framer.End()), id, parse).0
    ensures r.Some? ==> framer.End() == ReadPacket(framer.io.aes, old(framer.End()), id, parse).1
  {
    var frame := NextFrameWithTimeout(framer);
    if frame.Some? && frame.value.id == id {
      return parse(frame.value.payload);
    }
    return None;
  }

  // False only if the packet cannot be written; whether the socket took it is not looked at.
  method SendPacket(framer: Framed, protocol: Protocol, packet: ClientPacket) returns (ok: bool)
    requires framer.Valid()
    modifies framer.io`mode, framer.io.stream`grants, framer.io.stream`wire, framer.io.stream`handed,
      framer.io.stream`lost, framer.writeBuf
    ensures framer.Valid() && framer.End() == old(framer.End())
    ensures ok == protocol.write(packet).Some?
    ensures framer.io.stream.StaysWilling()
    ensures framer.io.stream.handed
      == old(framer.io.stream.handed) + Record(protocol, Outgoing(protocol, KeyOf(old(framer.io.mode)), packet))
  {
    match protocol.write(packet) {
      case None =>
        return false;
      case Some(body) =>
        var _ := framer.Send(body);
        return true;
    }
  }

  method Shutdown(framer: Framed)
    modifies framer.io.stream`open
    ensures !framer.io.stream.open
  {
    framer.io.stream.Shutdown();
  }

  // ---- Status ----

  function StatusReply(protocol: Protocol, status: Asked<Bytes>): seq<Output> {
    if status.Reply? then Outgoing(protocol, None, StatusResponse(status.value)) else []
  }

  // The record of a status session, part by part.
  lemma StatusInParts(aes: Aes, protocol: Protocol, status: Asked<Bytes>, e: ReadEnd, before: seq<Handed>)
    ensures var done := StatusSession(aes, protocol, status, e);
      var (request, e1) := ReadPacket(aes, e, protocol.statusRequestId, Anything);
      if request.None? then done.waits == 1 && before + Record(protocol, done.outputs) == before
      else
        var (ping, _) := ReadPacket(aes, e1, protocol.pingRequestId, protocol.readPing);
        && done.waits == 2
        && before + Record(protocol, done.outputs) == before + Record(protocol, StatusReply(protocol, status))
             + if ping.None? then [] else Record(protocol, Outgoing(protocol, None, PingResponse(ping.value)))
  {
    var (request, e1) := ReadPacket(aes, e, protocol.statusRequestId, Anything);
    var (ping, _) := ReadPacket(aes, e1, protocol.pingRequestId, protocol.readPing);
    if request.Some? && ping.Some? {
      RecordAppend(protocol, StatusReply(protocol, status), Outgoing(protocol, None, PingResponse(ping.value)));
    }
  }

  class StatusActor {
    const framer: Framed
    const protocol: Protocol
    // The receiver of the status reply, until it is used.
    var status: Option<Asked<Bytes>>

    constructor (framer: Framed, protocol: Protocol, status: Asked<Bytes>)
      ensures this.framer == framer && this.protocol == protocol && this.status == Some(status)
    {
      this.framer, this.protocol, this.status := framer, protocol, Some(status);
    }

    method Run()
      requires framer.Valid() && framer.io.mode.Cleartext? && status.Some? && !status.value.Refused?
      modifies this, framer.io, framer.io.stream, framer.codec, framer.readBuf, framer.writeBuf
      ensures framer.Valid() && !framer.io.stream.open
      ensures framer.io.stream.StaysWilling()
      ensures var done := StatusSession(framer.io.aes, protocol, old(status).value, old(framer.End()));
        && framer.io.stream.handed == old(framer.io.stream.handed) + Record(protocol, done.outputs)
        && framer.io.stream.awaited == old(framer.io.stream.awaited) + done.waits
    {
      StatusInParts(framer.io.aes, protocol, status.value, framer.End(), framer.io.stream.handed);
      var request := Read(framer, protocol.statusRequestId, Anything);
      if request.Some? {
        var _ := HandleStatusRequest();
        var ping := Read(framer, protocol.pingRequestId, protocol.readPing);
        if ping.Some? {
          var _ := HandlePingRequest(ping.value);
        }
      }
      Shutdown(framer);
    }

    method HandleStatusRequest() returns (ok: bool)
      requires framer.Valid() && framer.io.mode.Cleartext? && status.Some? && !status.value.Refused?
      modifies `status, framer.io`mode, framer.io.stream`grants, framer.io.stream`wire, framer.io.stream`handed,
        framer.io.stream`lost, framer.writeBuf
      ensures framer.Valid() && framer.End() == old(framer.End()) && status == None
      ensures ok == old(status).value.Reply?
      ensures framer.io.stream.StaysWilling()
      ensures framer.io.stream.handed
        == old(framer.io.stream.handed) + Record(protocol, StatusReply(protocol, old(status).value))
    {
      var receiver := status.value;
      status := None;
      assert framer.io.stream.handed + [] == framer.io.stream.handed;
      if receiver.Reply? {
        var _ := SendPacket(framer, protocol, StatusResponse(receiver.value));
        return true;
      }
      return false;
    }

    method HandlePingRequest(payload: int) returns (ok: bool)
      requires framer.Valid() && framer.io.mode.Cleartext?
      modifies framer.io`mode, framer.io.stream`grants, framer.io.stream`wire, framer.io.stream`handed,
        framer.io.stream`lost, framer.writeBuf
      ensures framer.Valid() && framer.End() == old(framer.End())
      ensures framer.io.stream.StaysWilling()
      ensures framer.io.stream.handed
        == old(framer.io.stream.handed) + Record(protocol, Outgoing(protocol, None, PingResponse(payload)))
    {
      ok := SendPacket(framer, protocol, PingResponse(payload));
    }
  }

  // ---- Configuration: it only closes the connection ----

  class ConfigurationActor {
    const framer: Framed
    const profile: Profile

    constructor (framer: Framed, profile: Profile)
      ensures this.framer == framer && this.profile == profile
    {
      this.framer, this.profile := framer, profile;
    }

    method Run()
      modifies framer.io.stream`open
      ensures !framer.io.stream.open
    {
      Shutdown(framer);
    }
  }

  // ---- Login ----

  // The decoder is between frames whenever a frame has just been read.
  lemma NextFrameEndsAtLen(aes: Aes, e: ReadEnd)
    ensures NextFrame(aes, e).0.Item? ==> NextFrame(aes, e).1.state == Len
  {
    NextFrameAlongStream(aes, e);
  }

  // A login is its start followed by what comes after the request, and so is the record of its frames.
  lemma LoginInParts(aes: Aes, protocol: Protocol, service: Service, e: ReadEnd, before: seq<Handed>)
    ensures var done := LoginSession(aes, protocol, service, e);
      var (start, e1) := ReadPacket(aes, e, protocol.loginStartId, protocol.readLoginStart);
      if start.Some? && service.der.Reply?
         && protocol.write(EncryptionRequest(service.der.value, service.token)).Some? then
        var rest := ResponseSession(aes, protocol, service, start.value, e1);
        && done.end == rest.end && done.waits == 1 + rest.waits
        && before + Record(protocol, done.outputs) == before
             + Record(protocol, Outgoing(protocol, None, EncryptionRequest(service.der.value, service.token)))
             + Record(protocol, rest.outputs)
      else
        done == Session([], Released, 1) && before + Record(protocol, done.outputs) == before
  {
    var (start, e1) := ReadPacket(aes, e, protocol.loginStartId, protocol.readLoginStart);
    if start.Some? && service.der.Reply? {
      RecordAppend(protocol, Outgoing(protocol, None, EncryptionRequest(service.der.value, service.token)),
                   ResponseSession(aes, protocol, service, start.value, e1).outputs);
    }
  }

  class LoginActor {
    var framer: Framed
    const protocol: Protocol
    const service: Service
    var profile: Option<Profile>
    var verifyToken: Option<Bytes>

    constructor (framer: Framed, protocol: Protocol, service: Service)
      ensures this.framer == framer && this.protocol == protocol && this.service == service
      ensures profile == None && verifyToken == None
    {
      this.framer, this.protocol, this.service := framer, protocol, service;
      profile, verifyToken := None, None;
    }

    // How the connection ended; a configuration actor is run to its end.
    method Run() returns (end: End)
      requires framer.Valid() && framer.io.mode.Cleartext?
      modifies this, framer.io, framer.io.stream, framer.codec, framer.readBuf, framer.writeBuf
      ensures framer.io == old(framer.io) && framer.Valid()
      ensures framer.io.stream.open == (old(framer.io.stream.open) && end.Aborted?)
      ensures framer.io.stream.StaysWilling()
      ensures var done := LoginSession(framer.io.aes, protocol, service, old(framer.End()));
        && end == done.end
        && framer.io.stream.handed == old(framer.io.stream.handed) + Record(protocol, done.outputs)
        && framer.io.stream.awaited == old(framer.io.stream.awaited) + done.waits
    {
      LoginInParts(framer.io.aes, protocol, service, framer.End(), framer.io.stream.handed);
      var login := Read(framer, protocol.loginStartId, protocol.readLoginStart);
      if login.None? {
        Shutdown(framer);
        return Released;
      }
      var started := HandleLoginStart(login.value);
      if !started {
        Shutdown(framer);
        return Released;
      }
      end := AwaitResponse();
    }

    // From the request on. When the response is in, the decoder is between frames.
    method AwaitResponse() returns (end: End)
      requires framer.Valid() && framer.io.mode.Cleartext? && profile.Some? && verifyToken == Some(service.token)
      modifies this, framer.io, framer.io.stream, framer.codec, framer.readBuf, framer.writeBuf
      ensures framer.io == old(framer.io) && framer.Valid()
      ensures framer.io.stream.open == (old(framer.io.stream.open) && end.Aborted?)
      ensures framer.io.stream.StaysWilling()
      ensures var done := ResponseSession(framer.io.aes, protocol, service, old(profile).value, old(framer.End()));
        && end == done.end
        && framer.io.stream.handed == old(framer.io.stream.handed) + Record(protocol, done.outputs)
        && framer.io.stream.awaited == old(framer.io.stream.awaited) + done.waits
    {
      ghost var before, e := framer.io.stream.handed, framer.End();
      assert before + [] == before;
      var response := Read(framer, protocol.encryptionResponseId, protocol.readEncryptionResponse);
      if response.None? {
        Shutdown(framer);
        return Released;
      }
      var secret := HandleEncryptionResponse(response.value);
      match secret {
        case NoSecret =>
          Shutdown(framer);
          end := Released;
        case TooShort =>
          end := Aborted;
        case Key(key) =>
          assert framer.codec.state == Len by { NextFrameEndsAtLen(framer.io.aes, e); }
          end := Conclude(key);
      }
    }

    // From the proven key on, with the decoder between frames: encrypt, announce success, await the acknowledgement.
    method Conclude(key: Block) returns (end: End)
      requires framer.Valid() && framer.io.mode.Cleartext? && framer.codec.state == Len && profile.Some?
      modifies `framer, `profile, framer.io, framer.io.stream, framer.codec
      ensures framer.io == old(framer.io) && framer.Valid() && !framer.io.stream.open
      ensures framer.io.stream.StaysWilling()
      ensures framer.io.stream.handed == old(framer.io.stream.handed)
        + Record(protocol, Outgoing(protocol, Some(key), LoginSuccess(old(profile).value)))
      ensures framer.io.stream.awaited == old(framer.io.stream.awaited) + 1
      ensures var ack := ReadPacket(framer.io.aes, HandOver(FreshMode(key), old(framer.End())),
                                    protocol.loginAcknowledgedId, Anything).0;
        end == if ack.Some? then Configured(old(profile).value) else Released
    {
      Encrypt(key);
      var name := profile.value;
      profile := None;
      var _ := SendPacket(framer, protocol, LoginSuccess(name));
      end := AwaitAcknowledgement(name);
    }

    method AwaitAcknowledgement(name: Profile) returns (end: End)
      requires framer.Valid()
      modifies framer.io`mode, framer.io.stream`arrivals, framer.io.stream`awaited, framer.io.stream`open,
        framer.codec, framer.readBuf
      ensures framer.Valid() && !framer.io.stream.open
      ensures framer.io.stream.awaited == old(framer.io.stream.awaited) + 1
      ensures var ack := ReadPacket(framer.io.aes, old(framer.End()), protocol.loginAcknowledgedId, Anything).0;
        end == if ack.Some? then Configured(name) else Released
    {
      var ack := Read(framer, protocol.loginAcknowledgedId, Anything);
      if ack.None? {
        Shutdown(framer);
        return Released;
      }
      var configuration := new ConfigurationActor(framer, name);
      configuration.Run();
      return Configured(name);
    }

    // Whether the encryption request went out.
    method HandleLoginStart(login: Profile) returns (ok: bool)
      requires framer.Valid() && framer.io.mode.Cleartext?
      modifies `profile, `verifyToken, framer.io`mode, framer.io.stream`grants, framer.io.stream`wire,
        framer.io.stream`handed, framer.io.stream`lost, framer.writeBuf
      ensures framer.Valid() && framer.End() == old(framer.End())
      ensures framer.io.stream.StaysWilling()
      ensures ok == (service.der.Reply? && protocol.write(EncryptionRequest(service.der.value, service.token)).Some?)
      ensures !service.der.Refused? ==> profile == Some(login) && verifyToken == Some(service.token)
      ensures framer.io.stream.handed == old(framer.io.stream.handed) +
        if ok then Record(protocol, Outgoing(protocol, None, EncryptionRequest(service.der.value, service.token)))
        else []
    {
      assert framer.io.stream.handed + [] == framer.io.stream.handed;
      if service.der.Refused? {
        return false;
      }
      profile := Some(login);
      verifyToken := Some(service.token);
      match service.der {
        case Reply(der) =>
          ok := SendPacket(framer, protocol, EncryptionRequest(der, verifyToken.value));
        case _ =>
          return false;
      }
    }

    method HandleEncryptionResponse(response: EncryptionResponse) returns (r: Secret)
      requires verifyToken == Some(service.token)
      ensures r == SecretOf(service, response)
    {
      var token := AskDecrypt(service.tokenAccepted, service.decrypt, response.token);
      if token.Refused? {
        return NoSecret;
      }
      var secret := AskDecrypt(service.secretAccepted, service.decrypt, response.secret);
      if secret.Refused? {
        return NoSecret;
      }
      match token {
        case Reply(plain) =>
          if plain != verifyToken.value {
            return NoSecret;
          }
        case _ =>
          return NoSecret;
      }
      match secret {
        case Reply(plain) =>
          if |plain| < BLOCK_SIZE {
            return TooShort;
          }
          return Key(plain[..BLOCK_SIZE]);
        case _ =>
          return NoSecret;
      }
    }

    // The socket and the codec move to a new framer over the same socket, now encrypted. The socket was in clear, so
    // setting up encryption does not fail.
    method Encrypt(key: Block)
      requires framer.Valid() && framer.io.mode.Cleartext?
      modifies `framer, framer.io`mode
      ensures framer.io == old(framer.io) && framer.codec == old(framer.codec)
      ensures fresh(framer.readBuf) && fresh(framer.writeBuf)
      ensures framer.Valid() && framer.io.mode == FreshMode(key)
      ensures framer.End() == HandOver(FreshMode(key), old(framer.End()))
    {
      var io, codec := framer.io, framer.codec;
      if !io.stream.lost {
        SwitchKeepsFlushed(io.aes, key, io.stream.handed, io.stream.wire);
      }
      var ok := io.SetEncrypted(key);
      assert ok;
      framer := new Framed.FromParts(io, codec);
    }
  }

  // ---- Handshake ----

  class HandshakeActor {
    const framer: Framed
    const protocol: Protocol
    const service: Service

    constructor (framer: Framed, protocol: Protocol, service: Service)
      ensures this.framer == framer && this.protocol == protocol && this.service == service
    {
      this.framer, this.protocol, this.service := framer, protocol, service;
    }

    // Runs the connection to its end, through whatever actors take it over.
    method Run() returns (end: End)
      requires framer.Valid() && framer.io.mode.Cleartext?
      modifies framer.io, framer.io.stream, framer.codec, framer.readBuf, framer.writeBuf
      ensures !framer.io.stream.lost ==> Accounted(framer.io.aes, framer.io.stream.handed, framer.io.stream.wire)
      ensures framer.io.stream.open == (old(framer.io.stream.open) && (end.Aborted? || end.Abandoned?))
      ensures framer.io.stream.StaysWilling()
      ensures var done := HandshakeSession(framer.io.aes, protocol, service, old(framer.End()));
        && end == done.end
        && framer.io.stream.handed == old(framer.io.stream.handed) + Record(protocol, done.outputs)
        && framer.io.stream.awaited == old(framer.io.stream.awaited) + done.waits
    {
      assert framer.io.stream.handed + [] == framer.io.stream.handed;
      var packet := Read(framer, protocol.handshakeId, protocol.readHandshake);
      if packet.None? {
        Shutdown(framer);
        return Released;
      }
      match packet.value {
        case ToOther =>
          Shutdown(framer);
          return Released;
        case ToStatus =>
          end := TransitionStatus();
        case ToLogin =>
          end := TransitionLogin();
      }
    }

    // The framer moves on whole. If the server does not take the question, it is dropped.
    method TransitionStatus() returns (end: End)
      requires framer.Valid() && framer.io.mode.Cleartext?
      modifies framer.io, framer.io.stream, framer.codec, framer.readBuf, framer.writeBuf
      ensures !framer.io.stream.lost ==> Accounted(framer.io.aes, framer.io.stream.handed, framer.io.stream.wire)
      ensures end == if service.status.Refused? then Abandoned else Released
      ensures framer.io.stream.open == (old(framer.io.stream.open) && end.Abandoned?)
      ensures framer.io.stream.StaysWilling()
      ensures service.status.Refused? ==>
        && framer.io.stream.handed == old(framer.io.stream.handed)
        && framer.io.stream.awaited == old(framer.io.stream.awaited)
      ensures !service.status.Refused? ==>
        var done := StatusSession(framer.io.aes, protocol, service.status, old(framer.End()));
        && framer.io.stream.handed == old(framer.io.stream.handed) + Record(protocol, done.outputs)
        && framer.io.stream.awaited == old(framer.io.stream.awaited) + done.waits
    {
      if service.status.Refused? {
        return Abandoned;
      }
      var actor := new StatusActor(framer, protocol, service.status);
      actor.Run();
      return Released;
    }

    // The stream and the codec move on to a new framer; what the old one had buffered does not.
    method TransitionLogin() returns (end: End)
      requires framer.Valid() && framer.io.mode.Cleartext?
      modifies framer.io.stream, framer.codec
      ensures !framer.io.stream.lost ==> Accounted(framer.io.aes, framer.io.stream.handed, framer.io.stream.wire)
      ensures framer.io.stream.open == (old(framer.io.stream.open) && end.Aborted?)
      ensures framer.io.stream.StaysWilling()
      ensures var done := LoginSession(framer.io.aes, protocol, service, HandOver(Cleartext, old(framer.End())));
        && end == done.end
        && framer.io.stream.handed == old(framer.io.stream.handed) + Record(protocol, done.outputs)
        && framer.io.stream.awaited == old(framer.io.stream.awaited) + done.waits
    {
      var socket := new MCSocket(framer.io.aes, framer.io.stream);
      var moved := new Framed.FromParts(socket, framer.codec);
      var actor := new LoginActor(moved, protocol, service);
      end := actor.Run();
    }
  }

  // A connection from its acceptance to its end: what it handed out, how it ended, how often it waited, and, if every
  // write succeeded, that the wire is the clear frames followed by one encryption of the others.
  method ServeConnection(aes: Aes, protocol: Protocol, service: Service, stream: TcpStream) returns (end: End)
    requires stream.wire == [] && stream.handed == [] && stream.awaited == 0 && stream.open && !stream.lost
    modifies stream
    ensures stream.open == (end.Aborted? || end.Abandoned?)
    ensures Willing(old(stream.grants)) ==> !stream.lost
    ensures !stream.lost ==> Accounted(aes, stream.handed, stream.wire)
    ensures var done := HandshakeSession(aes, protocol, service, Accepted(old(stream.arrivals)));
      end == done.end && stream.handed == Record(protocol, done.outputs) && stream.awaited == done.waits
  {
    var socket := new MCSocket(aes, stream);
    var codec := new MCCodec();
    var framer := new Framed.FromParts(socket, codec);
    var actor := new HandshakeActor(framer, protocol, service);
    end := actor.Run();
  }
}

// What whole connections send, read off the frames their clients sent.
module SessionOutcomes {
  import opened Common
  import opened Cfb8
  import opened VarInts
  import opened Codec
  import opened CodecTheory
  import opened Sockets
  import opened Framing
  import opened Connection
  import opened ConnectionTheory
  import opened LoginTheory

  // The stream begins with a whole frame with this id and payload, and rest follows.
  predicate Begins(s: Bytes, id: int, payload: Bytes, rest: Bytes) {
    match ParseFrame(s)
    case Whole(packet, size) => packet == Packet(id, payload) && rest == s[size..]
    case _ => false
  }

  // A packet is taken from a stream exactly if it begins with a frame of the id expected whose payload can be parsed.
  lemma FirstPacketMeaning<T>(s: Bytes, id: int, parse: Bytes -> Option<T>, x: T, rest: Bytes)
    ensures FirstPacket(s, id, parse) == (Some(x), rest)
      <==> exists payload: Bytes :: Begins(s, id, payload, rest) && parse(payload) == Some(x)
  {
    match ParseFrame(s) {
      case Whole(packet, size) =>
        assert packet == Packet(packet.id, packet.payload);
        if FirstPacket(s, id, parse) == (Some(x), rest) {
          assert Begins(s, id, packet.payload, rest) && parse(packet.payload) == Some(x);
        }
      case _ =>
    }
  }

  // What a peer that writes a packet by the book sends begins with it.
  lemma FrameBegins(id: i32, payload: Bytes, rest: Bytes)
    requires |Write(id) + payload| < TWO_31
    ensures Begins(FrameOf(Write(id) + payload) + rest, id, payload, rest)
  {
    var s := FrameOf(Write(id) + payload) + rest;
    FrameRoundTrip(Write(id) + payload, rest);
    PacketRoundTrip(id, payload);
    StepIsParseFrame(s);
  }

  // ---- Connections that lead nowhere ----

  lemma NoHandshake(aes: Aes, protocol: Protocol, service: Service, arrivals: seq<ReadEvent>)
    requires forall p1: Bytes, s1: Bytes ::
      Begins(Incoming(arrivals), protocol.handshakeId, p1, s1) ==>
        protocol.readHandshake(p1) == None || protocol.readHandshake(p1) == Some(ToOther)
    ensures HandshakeSession(aes, protocol, service, Accepted(arrivals)) == Session([], Released, 1)
  {
    var s := Incoming(arrivals);
    var (next, s1) := FirstPacket(s, protocol.handshakeId, protocol.readHandshake);
    if next.Some? {
      FirstPacketMeaning(s, protocol.handshakeId, protocol.readHandshake, next.value, s1);
    }
    SessionFromBytes(aes, protocol, service, arrivals);
  }

  // ---- Status ----

  ghost predicate AsksStatus(protocol: Protocol, s: Bytes, s1: Bytes) {
    exists p1: Bytes :: Begins(s, protocol.handshakeId, p1, s1) && protocol.readHandshake(p1) == Some(ToStatus)
  }

  lemma StatusPath(aes: Aes, protocol: Protocol, service: Service, arrivals: seq<ReadEvent>, s1: Bytes)
    requires AsksStatus(protocol, Incoming(arrivals), s1)
    ensures HandshakeSession(aes, protocol, service, Accepted(arrivals))
      == if service.status.Refused? then Session([], Abandoned, 1)
         else AfterHandshake(StatusOf(protocol, service.status, s1))
  {
    FirstPacketMeaning(Incoming(arrivals), protocol.handshakeId, protocol.readHandshake, ToStatus, s1);
    SessionFromBytes(aes, protocol, service, arrivals);
  }

  // If the server does not take the question, nothing is sent.
  lemma StatusRefused(aes: Aes, protocol: Protocol, service: Service, arrivals: seq<ReadEvent>, s1: Bytes)
    requires AsksStatus(protocol, Incoming(arrivals), s1) && service.status.Refused?
    ensures HandshakeSession(aes, protocol, service, Accepted(arrivals)) == Session([], Abandoned, 1)
  {
    StatusPath(aes, protocol, service, arrivals, s1);
  }

  // Without a status request nothing is sent, either.
  lemma StatusUnasked(aes: Aes, protocol: Protocol, service: Service, arrivals: seq<ReadEvent>, s1: Bytes)
    requires AsksStatus(protocol, Incoming(arrivals), s1) && !service.status.Refused?
    requires forall p2: Bytes, s2: Bytes :: !Begins(s1, protocol.statusRequestId, p2, s2)
    ensures HandshakeSession(aes, protocol, service, Accepted(arrivals)) == Session([], Released, 2)
  {
    StatusPath(aes, protocol, service, arrivals, s1);
    var (request, s2) := FirstPacket(s1, protocol.statusRequestId, Anything);
    if request.Some? {
      FirstPacketMeaning(s1, protocol.statusRequestId, Anything, request.value, s2);
    }
  }

  // The listing is sent on request, unless the server lost the question; and a ping is echoed, whatever became of the
  // request.
  lemma StatusAndPing(aes: Aes, protocol: Protocol, service: Service, arrivals: seq<ReadEvent>, s1: Bytes, p2: Bytes,
                      s2: Bytes, p3: Bytes, s3: Bytes, n: int)
    requires AsksStatus(protocol, Incoming(arrivals), s1) && !service.status.Refused?
    requires Begins(s1, protocol.statusRequestId, p2, s2)
    requires Begins(s2, protocol.pingRequestId, p3, s3) && protocol.readPing(p3) == Some(n)
    requires service.status.Reply? ==> protocol.write(StatusResponse(service.status.value)).Some?
    requires protocol.write(PingResponse(n)).Some?
    ensures HandshakeSession(aes, protocol, service, Accepted(arrivals)) == Session(
      match service.status
      case Reply(json) => [Output(None, StatusResponse(json)), Output(None, PingResponse(n))]
      case _ => [Output(None, PingResponse(n))],
      Released, 3)
  {
    StatusPath(aes, protocol, service, arrivals, s1);
    FirstPacketMeaning(s1, protocol.statusRequestId, Anything, (), s2);
    FirstPacketMeaning(s2, protocol.pingRequestId, protocol.readPing, n, s3);
  }

  lemma StatusWithoutPing(aes: Aes, protocol: Protocol, service: Service, arrivals: seq<ReadEvent>, s1: Bytes,
                          p2: Bytes, s2: Bytes)
    requires AsksStatus(protocol, Incoming(arrivals), s1) && !service.status.Refused?
    requires Begins(s1, protocol.statusRequestId, p2, s2)
    requires forall p3: Bytes, s3: Bytes :: Begins(s2, protocol.pingRequestId, p3, s3) ==> protocol.readPing(p3) == None
    requires service.status.Reply? ==> protocol.write(StatusResponse(service.status.value)).Some?
    ensures HandshakeSession(aes, protocol, service, Accepted(arrivals)) == Session(
      match service.status case Reply(json) => [Output(None, StatusResponse(json))] case _ => [],
      Released, 3)
  {
    StatusPath(aes, protocol, service, arrivals, s1);
    FirstPacketMeaning(s1, protocol.statusRequestId, Anything, (), s2);
    var (ping, s3) := FirstPacket(s2, protocol.pingRequestId, protocol.readPing);
    if ping.Some? {
      FirstPacketMeaning(s2, protocol.pingRequestId, protocol.readPing, ping.value, s3);
    }
  }

  // ---- Login ----

  ghost predicate AsksLogin(protocol: Protocol, s: Bytes, s1: Bytes) {
    exists p1: Bytes :: Begins(s, protocol.handshakeId, p1, s1) && protocol.readHandshake(p1) == Some(ToLogin)
  }

  ghost predicate GivesProfile(protocol: Protocol, s1: Bytes, profile: Profile, s2: Bytes) {
    exists p2: Bytes :: Begins(s1, protocol.loginStartId, p2, s2) && protocol.readLoginStart(p2) == Some(profile)
  }

  // The connection leads to a login whose client starts with this profile; a chunk ends with the handshake.
  ghost predicate StartsLogin(protocol: Protocol, arrivals: seq<ReadEvent>, profile: Profile, s2: Bytes) {
    exists s1: Bytes ::
      && AsksLogin(protocol, Incoming(arrivals), s1) && CutAt(arrivals, |Incoming(arrivals)| - |s1|)
      && GivesProfile(protocol, s1, profile, s2)
  }

  ghost predicate Responds(protocol: Protocol, s2: Bytes, response: EncryptionResponse, s3: Bytes) {
    exists p3: Bytes ::
      Begins(s2, protocol.encryptionResponseId, p3, s3) && protocol.readEncryptionResponse(p3) == Some(response)
  }

  // The response carries this login's token and a secret of which key is the front, both decryptable by the server.
  ghost predicate Proven(service: Service, response: EncryptionResponse, key: Block) {
    && service.tokenAccepted && service.secretAccepted
    && service.decrypt(response.token) == Some(service.token)
    && exists rest: Bytes :: service.decrypt(response.secret) == Some(key + rest)
  }

  lemma ProvenIsProves(service: Service, response: EncryptionResponse, key: Block)
    ensures Proven(service, response, key) <==> SecretOf(service, response) == Key(key)
  {
    SecretIffProof(service, response, key);
    if Proven(service, response, key) {
      var rest: Bytes :| service.decrypt(response.secret) == Some(key + rest);
      assert (key + rest)[..16] == key;
    }
    if Proves(service, response, key) {
      var secret := service.decrypt(response.secret).value;
      assert secret == key + secret[16..];
    }
  }

  // The login actor begins on the rest of the stream, with its decoder between frames.
  lemma LoginPath(aes: Aes, protocol: Protocol, service: Service, arrivals: seq<ReadEvent>, profile: Profile, s2: Bytes)
    returns (e: ReadEnd)
    requires StartsLogin(protocol, arrivals, profile, s2)
    ensures e.state == Len && e.mode == Cleartext && e.buf == []
    ensures HandshakeSession(aes, protocol, service, Accepted(arrivals))
      == AfterHandshake(LoginSession(aes, protocol, service, e))
    ensures FirstPacket(Ahead(aes, e), protocol.loginStartId, protocol.readLoginStart) == (Some(profile), s2)
    ensures CleanAfter(arrivals, 3) ==> CleanAfter(e.arrivals, 2)
  {
    var s1: Bytes :|
      && AsksLogin(protocol, Incoming(arrivals), s1) && CutAt(arrivals, |Incoming(arrivals)| - |s1|)
      && GivesProfile(protocol, s1, profile, s2);
    StartOfLogin(protocol, Incoming(arrivals), s1, profile, s2);
    CutIsClean(arrivals, s1);
    e := LosslessHandover(aes, protocol, service, arrivals, s1);
  }

  lemma StartOfLogin(protocol: Protocol, s: Bytes, s1: Bytes, profile: Profile, s2: Bytes)
    requires AsksLogin(protocol, s, s1) && GivesProfile(protocol, s1, profile, s2)
    ensures FirstPacket(s, protocol.handshakeId, protocol.readHandshake) == (Some(ToLogin), s1)
    ensures FirstPacket(s1, protocol.loginStartId, protocol.readLoginStart) == (Some(profile), s2)
    ensures ParseFrame(s).Whole? && s1 == s[ParseFrame(s).size..]
  {
    FirstPacketMeaning(s, protocol.handshakeId, protocol.readHandshake, ToLogin, s1);
    FirstPacketMeaning(s1, protocol.loginStartId, protocol.readLoginStart, profile, s2);
  }

  lemma LosslessHandover(aes: Aes, protocol: Protocol, service: Service, arrivals: seq<ReadEvent>, s1: Bytes)
    returns (e: ReadEnd)
    requires FirstPacket(Incoming(arrivals), protocol.handshakeId, protocol.readHandshake) == (Some(ToLogin), s1)
    requires CleanAfter(arrivals, 1)
    ensures e.state == Len && e.mode == Cleartext && e.buf == [] && Ahead(aes, e) == s1
    ensures HandshakeSession(aes, protocol, service, Accepted(arrivals))
      == AfterHandshake(LoginSession(aes, protocol, service, e))
    ensures CleanAfter(arrivals, 3) ==> CleanAfter(e.arrivals, 2)
  {
    var e0 := Accepted(arrivals);
    ClearAhead(aes, e0);
    ReadPacketIsFirstPacket(aes, e0, protocol.handshakeId, protocol.readHandshake);
    FirstFrameEmptiesBuffer(aes, arrivals);
    e := NextFrame(aes, e0).1;
    if CleanAfter(arrivals, 3) {
      FirstFrameLeavesClean(aes, arrivals, 2);
    }
  }

  lemma CutIsClean(arrivals: seq<ReadEvent>, s1: Bytes)
    requires var s := Incoming(arrivals); ParseFrame(s).Whole? && s1 == s[ParseFrame(s).size..]
    requires CutAt(arrivals, |Incoming(arrivals)| - |s1|)
    ensures CleanAfter(arrivals, 1)
  {
    assert AfterFrames(Incoming(arrivals), 1) == AfterFrames(s1, 0);
  }

  // Without the public key, or without a packet that can be written, no request goes out and the login is over.
  lemma LoginUnanswered(aes: Aes, protocol: Protocol, service: Service, arrivals: seq<ReadEvent>, profile: Profile,
                        s2: Bytes)
    requires StartsLogin(protocol, arrivals, profile, s2)
    requires service.der.Reply? ==> protocol.write(EncryptionRequest(service.der.value, service.token)) == None
    ensures HandshakeSession(aes, protocol, service, Accepted(arrivals)) == Session([], Released, 2)
  {
    var e := LoginPath(aes, protocol, service, arrivals, profile, s2);
    ReadPacketIsFirstPacket(aes, e, protocol.loginStartId, protocol.readLoginStart);
  }

  // A client that proves a key is sent the request, in clear, and login success for the profile it started with, under
  // this key.
  lemma LoginServed(aes: Aes, protocol: Protocol, service: Service, arrivals: seq<ReadEvent>, profile: Profile,
                    s2: Bytes, response: EncryptionResponse, s3: Bytes, der: Bytes, key: Block)
    requires StartsLogin(protocol, arrivals, profile, s2) && Responds(protocol, s2, response, s3)
    requires service.der == Reply(der) && Proven(service, response, key)
    requires protocol.write(EncryptionRequest(der, service.token)).Some? && protocol.write(LoginSuccess(profile)).Some?
    ensures var r := HandshakeSession(aes, protocol, service, Accepted(arrivals));
      && r.outputs == [Output(None, EncryptionRequest(der, service.token)), Output(Some(key), LoginSuccess(profile))]
      && r.waits == 4 && (r.end == Configured(profile) || r.end == Released)
  {
    var e := LoginPath(aes, protocol, service, arrivals, profile, s2);
    var ack := LoginReads(aes, protocol, service, e, profile, s2, response, s3);
    ProvenIsProves(service, response, key);
    VerdictServed(protocol, service, profile, response, ack, der, key);
  }

  lemma VerdictServed(protocol: Protocol, service: Service, profile: Profile, response: EncryptionResponse, ack: bool,
                      der: Bytes, key: Block)
    requires service.der == Reply(der) && SecretOf(service, response) == Key(key)
    requires protocol.write(EncryptionRequest(der, service.token)).Some?
    ensures var r := LoginVerdict(protocol, service, Some(profile), Some(response), ack);
      && (protocol.write(LoginSuccess(profile)).Some? ==>
            r.outputs
            == [Output(None, EncryptionRequest(der, service.token)), Output(Some(key), LoginSuccess(profile))])
      && r.waits == 3 && r.end == if ack then Configured(profile) else Released
  {
  }

  // If a chunk ends with the response, too, the login goes on to configuration exactly if what follows begins, once
  // decrypted under the key, with the acknowledgement.
  lemma LoginConcluded(aes: Aes, protocol: Protocol, service: Service, arrivals: seq<ReadEvent>, profile: Profile,
                       s2: Bytes, response: EncryptionResponse, s3: Bytes, der: Bytes, key: Block, plain: Bytes)
    requires StartsLogin(protocol, arrivals, profile, s2) && Responds(protocol, s2, response, s3)
    requires service.der == Reply(der) && Proven(service, response, key)
    requires protocol.write(EncryptionRequest(der, service.token)).Some?
    requires CleanAfter(arrivals, 3) && IsCfb8(aes(key), key, plain, s3)
    ensures HandshakeSession(aes, protocol, service, Accepted(arrivals)).end == Configured(profile)
      <==> exists payload: Bytes, rest: Bytes :: Begins(plain, protocol.loginAcknowledgedId, payload, rest)
  {
    var e := LoginPath(aes, protocol, service, arrivals, profile, s2);
    var _ := LoginReads(aes, protocol, service, e, profile, s2, response, s3);
    LoginFromBytes(aes, protocol, service, e);
    ProvenIsProves(service, response, key);
    Cfb8IsDecrypt(aes(key), key, plain, s3);
    AcknowledgedMeaning(protocol, plain);
    VerdictServed(protocol, service, profile, response,
                  AcknowledgedOf(aes, protocol, service, response, s3), der, key);
  }

  lemma AcknowledgedMeaning(protocol: Protocol, plain: Bytes)
    ensures FirstPacket(plain, protocol.loginAcknowledgedId, Anything).0.Some?
      <==> exists payload: Bytes, rest: Bytes :: Begins(plain, protocol.loginAcknowledgedId, payload, rest)
  {
    var (ack, rest) := FirstPacket(plain, protocol.loginAcknowledgedId, Anything);
    if ack.Some? {
      FirstPacketMeaning(plain, protocol.loginAcknowledgedId, Anything, ack.value, rest);
    }
  }

  lemma LoginReads(aes: Aes, protocol: Protocol, service: Service, e: ReadEnd, profile: Profile, s2: Bytes,
                   response: EncryptionResponse, s3: Bytes) returns (ack: bool)
    requires e.state == Len && Responds(protocol, s2, response, s3)
    requires FirstPacket(Ahead(aes, e), protocol.loginStartId, protocol.readLoginStart) == (Some(profile), s2)
    ensures FirstPacket(s2, protocol.encryptionResponseId, protocol.readEncryptionResponse) == (Some(response), s3)
    ensures LoginSession(aes, protocol, service, e)
      == LoginVerdict(protocol, service, Some(profile), Some(response), ack)
  {
    FirstPacketMeaning(s2, protocol.encryptionResponseId, protocol.readEncryptionResponse, response, s3);
    ReadPacketIsFirstPacket(aes, e, protocol.loginStartId, protocol.readLoginStart);
    var (_, e1) := ReadPacket(aes, e, protocol.loginStartId, protocol.readLoginStart);
    ReadPacketIsFirstPacket(aes, e1, protocol.encryptionResponseId, protocol.readEncryptionResponse);
    var (_, e2) := ReadPacket(aes, e1, protocol.encryptionResponseId, protocol.readEncryptionResponse);
    ack := Acknowledged(aes, protocol, service, response, e2);
  }

  // A client that starts a login is sent the request; if it then proves nothing, it is sent nothing more.
  lemma LoginUnproven(aes: Aes, protocol: Protocol, service: Service, arrivals: seq<ReadEvent>, profile: Profile,
                      s2: Bytes, der: Bytes)
    requires StartsLogin(protocol, arrivals, profile, s2) && service.der == Reply(der)
    requires forall response, s3: Bytes, key :: Responds(protocol, s2, response, s3) ==> !Proven(service, response, key)
    requires protocol.write(EncryptionRequest(der, service.token)).Some?
    ensures var r := HandshakeSession(aes, protocol, service, Accepted(arrivals));
      && r.outputs == [Output(None, EncryptionRequest(der, service.token))]
      && r.waits == 3 && (r.end.Released? || r.end.Aborted?)
  {
    var e := LoginPath(aes, protocol, service, arrivals, profile, s2);
    ReadPacketIsFirstPacket(aes, e, protocol.loginStartId, protocol.readLoginStart);
    var (_, e1) := ReadPacket(aes, e, protocol.loginStartId, protocol.readLoginStart);
    ReadPacketIsFirstPacket(aes, e1, protocol.encryptionResponseId, protocol.readEncryptionResponse);
    var (response, s3) := FirstPacket(s2, protocol.encryptionResponseId, protocol.readEncryptionResponse);
    if response.Some? {
      FirstPacketMeaning(s2, protocol.encryptionResponseId, protocol.readEncryptionResponse, response.value, s3);
      assert Responds(protocol, s2, response.value, s3);
      var secret := SecretOf(service, response.value);
      if secret.Key? {
        ProvenIsProves(service, response.value, secret.key);
      }
    }
  }
}

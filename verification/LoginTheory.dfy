// What a login can and cannot do, whatever the client sends and however it arrives.
module LoginTheory {
  import opened Common
  import opened Cfb8
  import opened VarInts
  import opened Codec
  import opened CodecTheory
  import opened Sockets
  import opened Framing
  import opened Connection
  import opened ConnectionTheory

  // The response proves possession of this login's token and agrees on this key.
  ghost predicate Proves(service: Service, response: EncryptionResponse, key: Block) {
    && service.tokenAccepted && service.secretAccepted
    && service.decrypt(response.token) == Some(service.token)
    && exists secret: Bytes ::
         service.decrypt(response.secret) == Some(secret) && |secret| >= BLOCK_SIZE && secret[..BLOCK_SIZE] == key
  }

  lemma SecretIffProof(service: Service, response: EncryptionResponse, key: Block)
    ensures SecretOf(service, response) == Key(key) <==> Proves(service, response, key)
  {
    if SecretOf(service, response) == Key(key) {
      var secret := service.decrypt(response.secret).value;
      assert service.decrypt(response.secret) == Some(secret) && |secret| >= BLOCK_SIZE && secret[..BLOCK_SIZE] == key;
    }
  }

  // The client's stream, decoded: a login start, then a response that proves the key.
  ghost predicate Authenticated(protocol: Protocol, service: Service, s: Bytes, profile: Profile, key: Block) {
    var (start, s1) := FirstPacket(s, protocol.loginStartId, protocol.readLoginStart);
    var (response, _) := FirstPacket(s1, protocol.encryptionResponseId, protocol.readEncryptionResponse);
    start == Some(profile) && response.Some? && Proves(service, response.value, key)
  }

  predicate IsRequest(service: Service, out: Output) {
    && out.key == None && out.packet.EncryptionRequest?
    && out.packet.token == service.token && service.der == Reply(out.packet.der)
  }

  // The safety of one login, given what its first two awaited frames were.
  ghost predicate SafeLogin(service: Service, r: Session, start: Option<Profile>,
                            response: Option<EncryptionResponse>) {
    && |r.outputs| <= 2 && r.waits <= 3
    && (|r.outputs| >= 1 ==> IsRequest(service, r.outputs[0]))
    && (|r.outputs| == 2 ==>
          && r.outputs[1].key.Some? && r.outputs[1].packet.LoginSuccess?
          && start == Some(r.outputs[1].packet.profile)
          && response.Some? && Proves(service, response.value, r.outputs[1].key.value))
    && (r.end.Configured? ==>
          && |r.outputs| >= 1 && start == Some(r.end.profile)
          && response.Some? && exists key :: Proves(service, response.value, key))
  }

  lemma VerdictSafe(protocol: Protocol, service: Service, start: Option<Profile>,
                    response: Option<EncryptionResponse>, ack: bool)
    ensures SafeLogin(service, LoginVerdict(protocol, service, start, response, ack), start, response)
  {
    if response.Some? && SecretOf(service, response.value).Key? {
      SecretIffProof(service, response.value, SecretOf(service, response.value).key);
    }
  }

  // The outputs of a login are a prefix of: the encryption request in clear, login success under the proven key.
  // Login success and the handover to configuration happen only for the profile of an authenticated stream.
  lemma LoginTraceSafe(aes: Aes, protocol: Protocol, service: Service, e: ReadEnd)
    requires e.state == Len
    ensures var r := LoginSession(aes, protocol, service, e);
      && |r.outputs| <= 2 && r.waits <= 3
      && (|r.outputs| >= 1 ==> IsRequest(service, r.outputs[0]))
      && (|r.outputs| == 2 ==>
            && r.outputs[1].key.Some? && r.outputs[1].packet.LoginSuccess?
            && Authenticated(protocol, service, Ahead(aes, e), r.outputs[1].packet.profile, r.outputs[1].key.value))
      && (r.end.Configured? ==>
            |r.outputs| >= 1 && exists key :: Authenticated(protocol, service, Ahead(aes, e), r.end.profile, key))
  {
    var (start, e1) := ReadPacket(aes, e, protocol.loginStartId, protocol.readLoginStart);
    var (response, e2) := ReadPacket(aes, e1, protocol.encryptionResponseId, protocol.readEncryptionResponse);
    var ack := response.Some? && Acknowledged(aes, protocol, service, response.value, e2);
    VerdictSafe(protocol, service, start, response, ack);
    ReadPacketIsFirstPacket(aes, e, protocol.loginStartId, protocol.readLoginStart);
    if start.Some? {
      ReadPacketIsFirstPacket(aes, e1, protocol.encryptionResponseId, protocol.readEncryptionResponse);
      var r := LoginVerdict(protocol, service, start, response, ack);
      SafeMeansAuthenticated(protocol, service, r, start, response, Ahead(aes, e));
    }
  }

  lemma SafeMeansAuthenticated(protocol: Protocol, service: Service, r: Session, start: Option<Profile>,
                               response: Option<EncryptionResponse>, s: Bytes)
    requires SafeLogin(service, r, start, response)
    requires start == FirstPacket(s, protocol.loginStartId, protocol.readLoginStart).0
    requires response == FirstPacket(FirstPacket(s, protocol.loginStartId, protocol.readLoginStart).1,
                                     protocol.encryptionResponseId, protocol.readEncryptionResponse).0
    ensures |r.outputs| == 2 ==>
      Authenticated(protocol, service, s, r.outputs[1].packet.profile, r.outputs[1].key.value)
    ensures r.end.Configured? ==> exists key :: Authenticated(protocol, service, s, r.end.profile, key)
  {
    if r.end.Configured? {
      var key :| Proves(service, response.value, key);
      assert Authenticated(protocol, service, s, r.end.profile, key);
    }
  }

  // Conversely, an authenticated client is sent login success, provided the packets can be written and the server
  // gave its public key.
  lemma AuthenticatedSucceeds(aes: Aes, protocol: Protocol, service: Service, e: ReadEnd, profile: Profile, key: Block)
    requires e.state == Len && Authenticated(protocol, service, Ahead(aes, e), profile, key)
    requires service.der.Reply? && protocol.write(EncryptionRequest(service.der.value, service.token)).Some?
    requires protocol.write(LoginSuccess(profile)).Some?
    ensures LoginSession(aes, protocol, service, e).outputs ==
      [Output(None, EncryptionRequest(service.der.value, service.token)), Output(Some(key), LoginSuccess(profile))]
  {
    ReadPacketIsFirstPacket(aes, e, protocol.loginStartId, protocol.readLoginStart);
    var (start, e1) := ReadPacket(aes, e, protocol.loginStartId, protocol.readLoginStart);
    ReadPacketIsFirstPacket(aes, e1, protocol.encryptionResponseId, protocol.readEncryptionResponse);
    var (response, e2) := ReadPacket(aes, e1, protocol.encryptionResponseId, protocol.readEncryptionResponse);
    SecretIffProof(service, response.value, key);
  }

  // The response a login gets, read off the stream behind its start.
  function ResponseIn(protocol: Protocol, s: Bytes): Option<EncryptionResponse> {
    var (start, s1) := FirstPacket(s, protocol.loginStartId, protocol.readLoginStart);
    if start.None? then None else FirstPacket(s1, protocol.encryptionResponseId, protocol.readEncryptionResponse).0
  }

  // The secret the client of this stream sent, decrypted.
  function SecretIn(protocol: Protocol, service: Service, s: Bytes): Option<Bytes> {
    match ResponseIn(protocol, s)
    case Some(response) => service.decrypt(response.secret)
    case None => None
  }

  // The login got its request out, the response proves this login's token, and its secret is shorter than a key.
  predicate GivesUp(protocol: Protocol, service: Service, response: Option<EncryptionResponse>) {
    && response.Some?
    && service.der.Reply? && protocol.write(EncryptionRequest(service.der.value, service.token)).Some?
    && service.tokenAccepted && service.secretAccepted
    && service.decrypt(response.value.token) == Some(service.token)
    && service.decrypt(response.value.secret).Some? && |service.decrypt(response.value.secret).value| < BLOCK_SIZE
  }

  lemma VerdictAborts(protocol: Protocol, service: Service, start: Option<Profile>,
                      response: Option<EncryptionResponse>, ack: bool)
    ensures LoginVerdict(protocol, service, start, response, ack).end.Aborted?
      <==> start.Some? && GivesUp(protocol, service, response)
  {
  }

  // A login task gives up exactly if the response in its client's stream makes it.
  lemma LoginAbortsIff(aes: Aes, protocol: Protocol, service: Service, e: ReadEnd)
    requires e.state == Len
    ensures LoginSession(aes, protocol, service, e).end.Aborted?
      <==> GivesUp(protocol, service, ResponseIn(protocol, Ahead(aes, e)))
  {
    ReadPacketIsFirstPacket(aes, e, protocol.loginStartId, protocol.readLoginStart);
    var (start, e1) := ReadPacket(aes, e, protocol.loginStartId, protocol.readLoginStart);
    var (response, e2) := ReadPacket(aes, e1, protocol.encryptionResponseId, protocol.readEncryptionResponse);
    var ack := response.Some? && Acknowledged(aes, protocol, service, response.value, e2);
    VerdictAborts(protocol, service, start, response, ack);
    if start.Some? {
      ReadPacketIsFirstPacket(aes, e1, protocol.encryptionResponseId, protocol.readEncryptionResponse);
    }
  }

  // What a login started by this connection gets to see: what follows the handshake, less what was buffered.
  function LoginSees(aes: Aes, arrivals: seq<ReadEvent>): Bytes {
    Ahead(aes, HandOver(Cleartext, NextFrame(aes, Accepted(arrivals)).1))
  }

  // How a connection can end without its stream being shut down: exactly when a login it leads to gives up, or the
  // server does not take its status request.
  lemma SessionAbortsIff(aes: Aes, protocol: Protocol, service: Service, arrivals: seq<ReadEvent>)
    ensures var end := HandshakeSession(aes, protocol, service, Accepted(arrivals)).end;
      var next := FirstPacket(Incoming(arrivals), protocol.handshakeId, protocol.readHandshake).0;
      && (end.Aborted? <==>
            next == Some(ToLogin) && GivesUp(protocol, service, ResponseIn(protocol, LoginSees(aes, arrivals))))
      && (end.Abandoned? <==> next == Some(ToStatus) && service.status.Refused?)
  {
    var e := Accepted(arrivals);
    ClearAhead(aes, e);
    ReadPacketIsFirstPacket(aes, e, protocol.handshakeId, protocol.readHandshake);
    var (handshake, e') := ReadPacket(aes, e, protocol.handshakeId, protocol.readHandshake);
    if handshake == Some(ToLogin) {
      LoginAbortsIff(aes, protocol, service, HandOver(Cleartext, e'));
      NeverAbandoned(aes, protocol, service, HandOver(Cleartext, e'));
    } else if handshake == Some(ToStatus) {
      StatusBounds(aes, protocol, service.status, e');
    }
  }

  lemma NeverAbandoned(aes: Aes, protocol: Protocol, service: Service, e: ReadEnd)
    ensures !LoginSession(aes, protocol, service, e).end.Abandoned?
  {
  }

  // A run whose own secret, if it can be decrypted, has at least sixteen bytes is never given up, whatever its token
  // and whatever else could be decrypted.
  lemma LongSecretNeverAborts(aes: Aes, protocol: Protocol, service: Service, arrivals: seq<ReadEvent>)
    requires var secret := SecretIn(protocol, service, LoginSees(aes, arrivals));
      secret.Some? ==> |secret.value| >= BLOCK_SIZE
    ensures !HandshakeSession(aes, protocol, service, Accepted(arrivals)).end.Aborted?
  {
    SessionAbortsIff(aes, protocol, service, arrivals);
  }

  predicate IsStatusReply(out: Output) {
    out.key == None && (out.packet.StatusResponse? || out.packet.PingResponse?)
  }

  // A status session sends at most two packets, in clear, and awaits at most two frames.
  lemma StatusBounds(aes: Aes, protocol: Protocol, status: Asked<Bytes>, e: ReadEnd)
    ensures var r := StatusSession(aes, protocol, status, e);
      && |r.outputs| <= 2 && 1 <= r.waits <= 2 && r.end == Released
      && forall i :: 0 <= i < |r.outputs| ==> IsStatusReply(r.outputs[i])
  {
  }

  // Any connection: at most two packets out, at most four awaited frames, three on the status path; only the
  // handshake's own choice leads to login or status packets.
  lemma SessionBounds(aes: Aes, protocol: Protocol, service: Service, arrivals: seq<ReadEvent>)
    ensures var r := HandshakeSession(aes, protocol, service, Accepted(arrivals));
      && |r.outputs| <= 2 && 1 <= r.waits <= 4
      && match FirstPacket(Incoming(arrivals), protocol.handshakeId, protocol.readHandshake).0
         case Some(next) =>
           if next.ToLogin? then |r.outputs| >= 1 ==> IsRequest(service, r.outputs[0])
           else r.waits <= 3 && forall i :: 0 <= i < |r.outputs| ==> IsStatusReply(r.outputs[i])
         case None => r == Session([], Released, 1)
  {
    var e := Accepted(arrivals);
    ClearAhead(aes, e);
    ReadPacketIsFirstPacket(aes, e, protocol.handshakeId, protocol.readHandshake);
    var (handshake, e') := ReadPacket(aes, e, protocol.handshakeId, protocol.readHandshake);
    StatusBounds(aes, protocol, service.status, e');
    if handshake == Some(ToLogin) {
      LoginTraceSafe(aes, protocol, service, HandOver(Cleartext, e'));
    }
  }

  // ---- The handover after the handshake can lose bytes ----

  const PLAIN_PROTOCOL := Protocol(0, 0, 1, 0, 1, 3,
    (payload: Bytes) => Some(ToLogin), (payload: Bytes) => None, (payload: Bytes) => Some(Profile([], [])),
    (payload: Bytes) => None, (packet: ClientPacket) => Some([1]))

  const PLAIN_SERVICE := Service(Refused, Reply([]), true, true, (data: Bytes) => None, [])

  // A frame that holds only the id 0.
  const ID_ONLY: Bytes := [1, 0]

  lemma IdOnlyFrame(tail: Bytes)
    ensures DecodeStep(Len, ID_ONLY + tail) == Emit(Packet(0, []), tail)
  {
    assert FrameOf([0]) == ID_ONLY by { assert ToI32(1) == 1; }
    assert Read([0]) == Value(0, 1);
    FrameRoundTrip([0], tail);
  }

  lemma ReadsIdOnly(aes: Aes, m: Mode, chunk: Bytes, tail: Bytes, arrivals: seq<ReadEvent>)
    requires Received(aes, m, chunk).1 == ID_ONLY + tail
    ensures NextFrame(aes, ReadEnd(m, Len, [], [Arrived(chunk)] + arrivals))
      == (Item(Packet(0, [])), ReadEnd(Received(aes, m, chunk).0, Len, tail, arrivals))
  {
    IdOnlyFrame(tail);
    var all := [Arrived(chunk)] + arrivals;
    var e := ReadEnd(m, Len, [], all);
    assert DecodeStep(Len, []) == NeedMore(Len, []);
    assert ArrivalsLeft(all) == arrivals && [] + (ID_ONLY + tail) == ID_ONLY + tail;
    var e1 := ReadEnd(Received(aes, m, chunk).0, Len, ID_ONLY + tail, arrivals);
    assert PollStep(aes, e) == PollStep(aes, e1);
    assert PollStep(aes, e1) == (Item(Packet(0, [])), e1.(buf := tail));
  }

  // A client that sends its handshake and its login start together and one that sends them apart send the same
  // bytes; only the second gets an answer. The boundary demanded of the login path is therefore needed.
  lemma SegmentationMattersForLogin(aes: Aes)
    ensures var together := [Arrived(ID_ONLY + ID_ONLY)]; var apart := [Arrived(ID_ONLY), Arrived(ID_ONLY)];
      && Incoming(together) == Incoming(apart)
      && CleanAfter(apart, 1) && !CleanAfter(together, 1)
      && HandshakeSession(aes, PLAIN_PROTOCOL, PLAIN_SERVICE, Accepted(together)).outputs == []
      && HandshakeSession(aes, PLAIN_PROTOCOL, PLAIN_SERVICE, Accepted(apart)).outputs
         == [Output(None, EncryptionRequest([], []))]
  {
    var together, apart := [Arrived(ID_ONLY + ID_ONLY)], [Arrived(ID_ONLY), Arrived(ID_ONLY)];
    assert ID_ONLY + [] == ID_ONLY;
    assert together == [Arrived(ID_ONLY + ID_ONLY)] + [] && apart == [Arrived(ID_ONLY + [])] + [Arrived(ID_ONLY)];
    ReadsIdOnly(aes, Cleartext, ID_ONLY + ID_ONLY, ID_ONLY, []);
    ReadsIdOnly(aes, Cleartext, ID_ONLY, [], [Arrived(ID_ONLY)]);
    ReadsIdOnly(aes, Cleartext, ID_ONLY, [], []);
    assert [Arrived(ID_ONLY)] == [Arrived(ID_ONLY + [])] + [];
    assert together[1..] == [] && apart[1..] == [Arrived(ID_ONLY)] && [Arrived(ID_ONLY)][1..] == [];
    assert Incoming([Arrived(ID_ONLY)]) == ID_ONLY;
    NothingArrives(aes, Cleartext);
    FirstOfTwo();
  }

  lemma NothingArrives(aes: Aes, m: Mode)
    ensures NextFrame(aes, ReadEnd(m, Len, [], [])).0 == Ended
  {
    assert DecodeStep(Len, []) == NeedMore(Len, []);
  }

  lemma FirstOfTwo()
    ensures AfterFrames(ID_ONLY + ID_ONLY, 1) == Some(ID_ONLY)
    ensures !CutBeforeEnd([Arrived(ID_ONLY + ID_ONLY)], 2)
    ensures CutBeforeEnd([Arrived(ID_ONLY), Arrived(ID_ONLY)], 2)
  {
    IdOnlyFrame(ID_ONLY);
    StepIsParseFrame(ID_ONLY + ID_ONLY);
    assert [Arrived(ID_ONLY + ID_ONLY)][1..] == [];
    assert [Arrived(ID_ONLY), Arrived(ID_ONLY)][1..] == [Arrived(ID_ONLY)] && [Arrived(ID_ONLY)][1..] == [];
    assert Incoming([Arrived(ID_ONLY)]) == ID_ONLY;
    assert Incoming([Arrived(ID_ONLY), Arrived(ID_ONLY)]) == ID_ONLY + ID_ONLY;
  }

  // ---- So can the switch to encryption ----

  // A client that sends frames with only the id 0, and a server that decrypts what it is told to be as it stands.
  function KeyedProtocol(key: Block): Protocol {
    Protocol(0, 0, 1, 0, 0, 0,
      (payload: Bytes) => Some(ToLogin), (payload: Bytes) => None, (payload: Bytes) => Some(Profile([], [])),
      (payload: Bytes) => Some(EncryptionResponse(key, [1, 2, 3, 4])), (packet: ClientPacket) => Some([1]))
  }

  const OPEN_SERVICE := Service(Refused, Reply([]), true, true, (data: Bytes) => Some(data), [1, 2, 3, 4])

  function Sealed(aes: Aes, key: Block): Bytes {
    Encrypt(aes(key), key, ID_ONLY)
  }

  lemma KeyAgreed(key: Block)
    ensures SecretOf(OPEN_SERVICE, EncryptionResponse(key, [1, 2, 3, 4])) == Key(key)
  {
    assert key[..BLOCK_SIZE] == key;
  }

  // The session of such a client, given what is left to read once its response has been decoded.
  lemma EndsAfterResponse(aes: Aes, key: Block, arrivals: seq<ReadEvent>, e: ReadEnd)
    requires NextFrame(aes, Accepted(arrivals)).0 == Item(Packet(0, []))
    requires var e1 := HandOver(Cleartext, NextFrame(aes, Accepted(arrivals)).1);
      && NextFrame(aes, e1).0 == Item(Packet(0, []))
      && NextFrame(aes, NextFrame(aes, e1).1) == (Item(Packet(0, [])), e)
    ensures var next := NextFrame(aes, HandOver(FreshMode(key), e)).0;
      HandshakeSession(aes, KeyedProtocol(key), OPEN_SERVICE, Accepted(arrivals)).end
        == if next.Item? && next.packet.id == 0 then Configured(Profile([], [])) else Released
  {
    KeyAgreed(key);
    var e1 := HandOver(Cleartext, NextFrame(aes, Accepted(arrivals)).1);
    assert LoginSession(aes, KeyedProtocol(key), OPEN_SERVICE, e1).end
      == if Acknowledged(aes, KeyedProtocol(key), OPEN_SERVICE, EncryptionResponse(key, [1, 2, 3, 4]), e)
         then Configured(Profile([], [])) else Released;
  }

  lemma TwoIdsThen(aes: Aes, chunk: Bytes, tail: Bytes, rest: seq<ReadEvent>)
    requires chunk == ID_ONLY + tail
    ensures var arrivals := [Arrived(ID_ONLY), Arrived(ID_ONLY), Arrived(chunk)] + rest;
      var (next, e) := NextFrame(aes, Accepted(arrivals)); var e1 := HandOver(Cleartext, e);
      && next == Item(Packet(0, []))
      && NextFrame(aes, e1).0 == Item(Packet(0, []))
      && NextFrame(aes, NextFrame(aes, e1).1) == (Item(Packet(0, [])), ReadEnd(Cleartext, Len, tail, rest))
  {
    assert ID_ONLY + [] == ID_ONLY;
    var third := [Arrived(chunk)] + rest;
    var second := [Arrived(ID_ONLY)] + third;
    assert [Arrived(ID_ONLY), Arrived(ID_ONLY), Arrived(chunk)] + rest == [Arrived(ID_ONLY)] + second;
    ReadsIdOnly(aes, Cleartext, ID_ONLY, [], second);
    ReadsIdOnly(aes, Cleartext, ID_ONLY, [], third);
    ReadsIdOnly(aes, Cleartext, chunk, tail, rest);
  }

  // A client whose encrypted acknowledgement arrives together with the response before it sends the same bytes as one
  // whose acknowledgement arrives apart; only the second gets to configuration. Both cut after the handshake, so the
  // boundary demanded before the switch is needed, too.
  lemma SegmentationMattersAtSwitch(aes: Aes, key: Block)
    ensures var sealed := Sealed(aes, key);
      var together := [Arrived(ID_ONLY), Arrived(ID_ONLY), Arrived(ID_ONLY + sealed)];
      var apart := [Arrived(ID_ONLY), Arrived(ID_ONLY), Arrived(ID_ONLY), Arrived(sealed)];
      && Incoming(together) == Incoming(apart)
      && CleanAfter(together, 1) && CleanAfter(apart, 1) && CleanAfter(apart, 3) && !CleanAfter(together, 3)
      && HandshakeSession(aes, KeyedProtocol(key), OPEN_SERVICE, Accepted(together)).end == Released
      && HandshakeSession(aes, KeyedProtocol(key), OPEN_SERVICE, Accepted(apart)).end == Configured(Profile([], []))
  {
    var sealed := Sealed(aes, key);
    var together := [Arrived(ID_ONLY), Arrived(ID_ONLY), Arrived(ID_ONLY + sealed)];
    var apart := [Arrived(ID_ONLY), Arrived(ID_ONLY), Arrived(ID_ONLY), Arrived(sealed)];
    assert together == together + [];
    assert apart == [Arrived(ID_ONLY), Arrived(ID_ONLY), Arrived(ID_ONLY)] + [Arrived(sealed)];
    assert ID_ONLY + [] == ID_ONLY;
    TwoIdsThen(aes, ID_ONLY + sealed, sealed, []);
    EndsAfterResponse(aes, key, together, ReadEnd(Cleartext, Len, sealed, []));
    NothingArrives(aes, FreshMode(key));
    TwoIdsThen(aes, ID_ONLY, [], [Arrived(sealed)]);
    EndsAfterResponse(aes, key, apart, ReadEnd(Cleartext, Len, [], [Arrived(sealed)]));
    DecryptEncrypt(aes(key), key, ID_ONLY);
    assert [Arrived(sealed)] == [Arrived(sealed)] + [];
    ReadsIdOnly(aes, FreshMode(key), sealed, [], []);
    CutsTogether(sealed);
    CutsApart(sealed);
  }

  lemma FirstChunk(chunk: Bytes, rest: seq<ReadEvent>, n: nat)
    requires chunk != []
    ensures Incoming([Arrived(chunk)] + rest) == chunk + Incoming(rest)
    ensures CutAt([Arrived(chunk)] + rest, n) <==> n == 0 || (|chunk| <= n && CutAt(rest, n - |chunk|))
  {
    assert ([Arrived(chunk)] + rest)[1..] == rest;
  }

  // Two whole frames, then these arrivals.
  lemma TwoIdsFirst(rest: seq<ReadEvent>)
    ensures var arrivals := [Arrived(ID_ONLY), Arrived(ID_ONLY)] + rest;
      && Incoming(arrivals) == ID_ONLY + (ID_ONLY + Incoming(rest))
      && CutAt(arrivals, 2)
      && forall n: nat :: n >= 4 ==> (CutAt(arrivals, n) <==> CutAt(rest, n - 4))
  {
    var second := [Arrived(ID_ONLY)] + rest;
    var arrivals := [Arrived(ID_ONLY), Arrived(ID_ONLY)] + rest;
    assert arrivals == [Arrived(ID_ONLY)] + second;
    FirstChunk(ID_ONLY, second, 2);
    FirstChunk(ID_ONLY, rest, 0);
    forall n: nat | n >= 4 ensures CutAt(arrivals, n) <==> CutAt(rest, n - 4) {
      FirstChunk(ID_ONLY, second, n);
      FirstChunk(ID_ONLY, rest, n - 2);
    }
  }

  lemma CutsTogether(sealed: Bytes)
    requires |sealed| == 2
    ensures var together := [Arrived(ID_ONLY), Arrived(ID_ONLY), Arrived(ID_ONLY + sealed)];
      && Incoming(together) == ID_ONLY + (ID_ONLY + (ID_ONLY + sealed))
      && CleanAfter(together, 1) && !CleanAfter(together, 3)
  {
    var one := [Arrived(ID_ONLY + sealed)];
    assert [Arrived(ID_ONLY), Arrived(ID_ONLY)] + one
      == [Arrived(ID_ONLY), Arrived(ID_ONLY), Arrived(ID_ONLY + sealed)];
    assert one == one + [] && ID_ONLY + sealed + [] == ID_ONLY + sealed;
    TwoIdsFirst(one);
    FirstChunk(ID_ONLY + sealed, [], 2);
    FramesOfThree(sealed);
  }

  lemma CutsApart(sealed: Bytes)
    requires |sealed| == 2
    ensures var apart := [Arrived(ID_ONLY), Arrived(ID_ONLY), Arrived(ID_ONLY), Arrived(sealed)];
      && Incoming(apart) == ID_ONLY + (ID_ONLY + (ID_ONLY + sealed))
      && CleanAfter(apart, 1) && CleanAfter(apart, 3)
  {
    var two := [Arrived(ID_ONLY), Arrived(sealed)];
    assert [Arrived(ID_ONLY), Arrived(ID_ONLY)] + two
      == [Arrived(ID_ONLY), Arrived(ID_ONLY), Arrived(ID_ONLY), Arrived(sealed)];
    assert two == [Arrived(ID_ONLY)] + [Arrived(sealed)] && [Arrived(sealed)] == [Arrived(sealed)] + [];
    assert sealed + [] == sealed;
    TwoIdsFirst(two);
    FirstChunk(ID_ONLY, [Arrived(sealed)], 2);
    FirstChunk(sealed, [], 0);
    FramesOfThree(sealed);
  }

  lemma FramesOfThree(tail: Bytes)
    ensures var s := ID_ONLY + (ID_ONLY + (ID_ONLY + tail));
      AfterFrames(s, 1) == Some(ID_ONLY + (ID_ONLY + tail)) && AfterFrames(s, 3) == Some(tail)
  {
    FirstIdOnly(tail);
    FirstIdOnly(ID_ONLY + tail);
    FirstIdOnly(ID_ONLY + (ID_ONLY + tail));
    assert AfterFrames(ID_ONLY + tail, 1) == AfterFrames(tail, 0);
    assert AfterFrames(ID_ONLY + (ID_ONLY + tail), 2) == AfterFrames(ID_ONLY + tail, 1);
  }

  lemma FirstIdOnly(tail: Bytes)
    ensures ParseFrame(ID_ONLY + tail) == Whole(Packet(0, []), 2) && (ID_ONLY + tail)[2..] == tail
  {
    IdOnlyFrame(tail);
    StepIsParseFrame(ID_ONLY + tail);
  }
}

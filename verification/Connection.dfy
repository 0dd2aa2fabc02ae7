// What one connection does from its handshake on, as a function of what arrives and of the server's answers.
module Connection {
  import opened Common
  import opened Cfb8
  import opened Codec
  import opened Sockets
  import opened Framing

  datatype NextState = ToStatus | ToLogin | ToOther

  datatype Profile = Profile(id: Bytes, name: Bytes)

  datatype EncryptionResponse = EncryptionResponse(secret: Bytes, token: Bytes)

  datatype ClientPacket =
    | StatusResponse(json: Bytes)
    | PingResponse(payload: int)
    | EncryptionRequest(der: Bytes, token: Bytes)
    | LoginSuccess(profile: Profile)

  // The packet layer: ids and field formats are defined elsewhere, and reading or writing a packet may fail.
  datatype Protocol = Protocol(
    handshakeId: int, statusRequestId: int, pingRequestId: int,
    loginStartId: int, encryptionResponseId: int, loginAcknowledgedId: int,
    readHandshake: Bytes -> Option<NextState>,
    readPing: Bytes -> Option<int>,
    readLoginStart: Bytes -> Option<Profile>,
    readEncryptionResponse: Bytes -> Option<EncryptionResponse>,
    write: ClientPacket -> Option<Bytes>)

  // The outcome of asking the server: the mailbox refused, the reply sender was dropped, or the reply came.
  datatype Asked<+T> = Refused | Lost | Reply(value: T)

  // What the rest of the system answers during this connection. The private key's decryption is partial; token is
  // the verify token drawn for this login.
  datatype Service = Service(
    status: Asked<Bytes>, der: Asked<Bytes>,
    tokenAccepted: bool, secretAccepted: bool,
    decrypt: Bytes -> Option<Bytes>, token: Bytes)

  function AskDecrypt(accepted: bool, decrypt: Bytes -> Option<Bytes>, data: Bytes): Asked<Bytes> {
    if !accepted then Refused
    else match decrypt(data) case Some(plain) => Reply(plain) case None => Lost
  }

  // Released: the actor shut the stream down. Abandoned: the framer was dropped because the status request was not
  // accepted. Aborted: the task gave up on a secret shorter than a key. Configured: handed to the configuration actor.
  datatype End = Released | Abandoned | Aborted | Configured(profile: Profile)

  datatype Output = Output(key: Option<Block>, packet: ClientPacket)

  // outputs: the packets sent, each with the key of the socket it left through. waits: how often a frame was awaited.
  datatype Session = Session(outputs: seq<Output>, end: End, waits: nat)

  function Outgoing(protocol: Protocol, key: Option<Block>, packet: ClientPacket): seq<Output> {
    if protocol.write(packet).Some? then [Output(key, packet)] else []
  }

  // Await a frame with this id and parse its payload.
  function ReadPacket<T>(aes: Aes, e: ReadEnd, id: int, parse: Bytes -> Option<T>): (Option<T>, ReadEnd) {
    var (next, e') := NextFrame(aes, e);
    if next.Item? && next.packet.id == id then (parse(next.packet.payload), e') else (None, e')
  }

  function Anything(payload: Bytes): Option<()> {
    Some(())
  }

  // ---- Status ----

  function StatusSession(aes: Aes, protocol: Protocol, status: Asked<Bytes>, e: ReadEnd): Session {
    var (request, e1) := ReadPacket(aes, e, protocol.statusRequestId, Anything);
    if request.None? then Session([], Released, 1)
    else
      var out := if status.Reply? then Outgoing(protocol, None, StatusResponse(status.value)) else [];
      var (ping, e2) := ReadPacket(aes, e1, protocol.pingRequestId, protocol.readPing);
      match ping
      case None => Session(out, Released, 2)
      case Some(payload) => Session(out + Outgoing(protocol, None, PingResponse(payload)), Released, 2)
  }

  // ---- Login ----

  // What the encryption response yields: a key, nothing, or a secret too short for one.
  datatype Secret = NoSecret | Key(key: Block) | TooShort

  function SecretOf(service: Service, response: EncryptionResponse): Secret {
    var token := AskDecrypt(service.tokenAccepted, service.decrypt, response.token);
    var secret := AskDecrypt(service.secretAccepted, service.decrypt, response.secret);
    if token.Refused? || secret.Refused? then NoSecret
    else if token.Lost? || token.value != service.token then NoSecret
    else if secret.Lost? then NoSecret
    else if |secret.value| < BLOCK_SIZE then TooShort
    else Key(secret.value[..BLOCK_SIZE])
  }

  // The handover of a socket and codec to a new framer: what was buffered stays behind.
  function HandOver(mode: Mode, e: ReadEnd): ReadEnd {
    e.(mode := mode, buf := [])
  }

  // What login does once its request is out, given the response it then gets.
  function ResponseVerdict(protocol: Protocol, service: Service, profile: Profile, response: Option<EncryptionResponse>,
                           acknowledged: bool): Session {
    if response.None? then Session([], Released, 1)
    else
      match SecretOf(service, response.value)
      case NoSecret => Session([], Released, 1)
      case TooShort => Session([], Aborted, 1)
      case Key(key) =>
        Session(Outgoing(protocol, Some(key), LoginSuccess(profile)),
                if acknowledged then Configured(profile) else Released, 2)
  }

  // What login does, given what its three awaited frames were; a later one matters only if the session got there.
  function LoginVerdict(protocol: Protocol, service: Service, start: Option<Profile>,
                        response: Option<EncryptionResponse>, acknowledged: bool): Session {
    if start.None? || !service.der.Reply? then Session([], Released, 1)
    else
      var request := Outgoing(protocol, None, EncryptionRequest(service.der.value, service.token));
      if request == [] then Session([], Released, 1)
      else
        var rest := ResponseVerdict(protocol, service, start.value, response, acknowledged);
        Session(request + rest.outputs, rest.end, 1 + rest.waits)
  }

  function Acknowledged(aes: Aes, protocol: Protocol, service: Service, response: EncryptionResponse, e: ReadEnd): bool
  {
    var secret := SecretOf(service, response);
    secret.Key? && ReadPacket(aes, HandOver(FreshMode(secret.key), e), protocol.loginAcknowledgedId, Anything).0.Some?
  }

  // A login from its request on.
  function ResponseSession(aes: Aes, protocol: Protocol, service: Service, profile: Profile, e: ReadEnd): Session {
    var (response, e') := ReadPacket(aes, e, protocol.encryptionResponseId, protocol.readEncryptionResponse);
    var ack := response.Some? && Acknowledged(aes, protocol, service, response.value, e');
    ResponseVerdict(protocol, service, profile, response, ack)
  }

  function LoginSession(aes: Aes, protocol: Protocol, service: Service, e: ReadEnd): Session {
    var (start, e1) := ReadPacket(aes, e, protocol.loginStartId, protocol.readLoginStart);
    var (response, e2) := ReadPacket(aes, e1, protocol.encryptionResponseId, protocol.readEncryptionResponse);
    var ack := response.Some? && Acknowledged(aes, protocol, service, response.value, e2);
    LoginVerdict(protocol, service, start, response, ack)
  }

  // ---- Handshake ----

  function AfterHandshake(s: Session): Session {
    s.(waits := s.waits + 1)
  }

  function HandshakeSession(aes: Aes, protocol: Protocol, service: Service, e: ReadEnd): Session {
    var (handshake, e') := ReadPacket(aes, e, protocol.handshakeId, protocol.readHandshake);
    if handshake.None? then Session([], Released, 1)
    else
      match handshake.value
      case ToOther => Session([], Released, 1)
      case ToStatus =>
        if service.status.Refused? then Session([], Abandoned, 1)
        else AfterHandshake(StatusSession(aes, protocol, service.status, e'))
      case ToLogin => AfterHandshake(LoginSession(aes, protocol, service, HandOver(Cleartext, e')))
  }

  // A connection just accepted.
  function Accepted(arrivals: seq<ReadEvent>): ReadEnd {
    ReadEnd(Cleartext, Len, [], arrivals)
  }
}

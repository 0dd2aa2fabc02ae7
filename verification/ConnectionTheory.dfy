// What a connection does depends on the bytes that arrive, not on how they are cut; except where it changes framers.
module ConnectionTheory {
  import opened Common
  import opened Cfb8
  import opened VarInts
  import opened Codec
  import opened CodecTheory
  import opened Sockets
  import opened ReaderTheory
  import opened Framing
  import opened Connection

  // ---- The bytes an actor gets to see ----

  // Everything that arrives before the stream ends, fails or the timer fires.
  function Incoming(arrivals: seq<ReadEvent>): Bytes {
    if arrivals == [] then []
    else
      match arrivals[0]
      case NotYet => Incoming(arrivals[1..])
      case Arrived(chunk) => if chunk == [] then [] else chunk + Incoming(arrivals[1..])
      case _ => []
  }

  // A stream on which nothing fails and no timer fires loses nothing, however often it is not ready.
  lemma {:induction false} IncomingIsAll(arrivals: seq<ReadEvent>)
    requires forall i :: 0 <= i < |arrivals| ==>
      arrivals[i].NotYet? || (arrivals[i].Arrived? && arrivals[i].chunk != [])
    ensures Incoming(arrivals) == Concat(Chunks(arrivals))
    decreases |arrivals|
  {
    if arrivals != [] {
      IncomingIsAll(arrivals[1..]);
    }
  }

  function Chunks(arrivals: seq<ReadEvent>): seq<Bytes> {
    if arrivals == [] then []
    else if arrivals[0].Arrived? then [arrivals[0].chunk] + Chunks(arrivals[1..])
    else Chunks(arrivals[1..])
  }

  // The plaintext still to be decoded from e.
  function Ahead(aes: Aes, e: ReadEnd): Bytes {
    e.buf + Received(aes, e.mode, Incoming(e.arrivals)).1
  }

  // One poll moves along the stream of bytes without losing any: the packet it returns is the one decoding all that
  // will ever come returns.
  lemma {:induction false} PollAlongStream(aes: Aes, e: ReadEnd)
    ensures var (next, e') := PollStep(aes, e); var whole := DecodeStep(e.state, Ahead(aes, e));
      match next
      case Item(packet) => whole == Emit(packet, Ahead(aes, e')) && e'.state == Len && KeyOf(e'.mode) == KeyOf(e.mode)
      case Ended => !whole.Emit?
      case NoFrameYet =>
        && DecodeStep(e'.state, Ahead(aes, e')) == whole && KeyOf(e'.mode) == KeyOf(e.mode)
        && DecodeStep(e'.state, e'.buf).NeedMore?
    decreases |e.arrivals|
  {
    var incoming := Received(aes, e.mode, Incoming(e.arrivals)).1;
    DecodeStepExtend(e.state, e.buf, incoming);
    DecodeProgress(e.state, e.buf);
    var step := DecodeStep(e.state, e.buf);
    if step.NeedMore? {
      PollFills(aes, e);
      ReceivedNothing(aes, e.mode);
      var (mode, plain) := Received(aes, e.mode, Delivered(e.arrivals));
      var e1 := ReadEnd(mode, step.state, step.rest + plain, ArrivalsLeft(e.arrivals));
      if ReadResult(e.arrivals).Ready? && plain != [] {
        PollAlongStream(aes, e1);
      } else {
        assert step.rest + [] == step.rest;
      }
    }
  }

  // What a poll of the socket does to the bytes ahead: it moves some of them into the buffer.
  lemma PollFills(aes: Aes, e: ReadEnd)
    ensures var step := DecodeStep(e.state, e.buf); step.NeedMore? ==>
      var (mode, plain) := Received(aes, e.mode, Delivered(e.arrivals));
      var e1 := ReadEnd(mode, step.state, step.rest + plain, ArrivalsLeft(e.arrivals));
      && ((ReadResult(e.arrivals).Ready? && plain == []) || ReadResult(e.arrivals).Broken? ==>
            Received(aes, e.mode, Incoming(e.arrivals)).1 == [])
      && (ReadResult(e.arrivals).Pending? || plain != [] ==>
            Ahead(aes, e1) == step.rest + Received(aes, e.mode, Incoming(e.arrivals)).1)
  {
    var step := DecodeStep(e.state, e.buf);
    if step.NeedMore? {
      ReceivedNothing(aes, e.mode);
      assert step.rest + [] == step.rest;
      if e.arrivals != [] && e.arrivals[0].Arrived? && e.arrivals[0].chunk != [] {
        ReceivedConcat(aes, e.mode, e.arrivals[0].chunk, Incoming(e.arrivals[1..]));
        var (mode, plain) := Received(aes, e.mode, e.arrivals[0].chunk);
        var more := Received(aes, mode, Incoming(e.arrivals[1..])).1;
        assert step.rest + plain + more == step.rest + (plain + more);
      }
    }
  }

  // The next frame is the one the parser finds at the front of all that is ahead.
  lemma {:induction false} NextFrameAlongStream(aes: Aes, e: ReadEnd)
    ensures var (next, e') := NextFrame(aes, e); var whole := DecodeStep(e.state, Ahead(aes, e));
      if next.Item? then
        whole == Emit(next.packet, Ahead(aes, e')) && e'.state == Len && KeyOf(e'.mode) == KeyOf(e.mode)
      else !whole.Emit?
    decreases |e.arrivals|
  {
    PollAlongStream(aes, e);
    var (next, e') := PollStep(aes, e);
    if next.NoFrameYet? {
      if e'.arrivals != [] && e'.arrivals[0].Elapsed? {
        ReceivedNothing(aes, e'.mode);
        assert e'.buf + [] == e'.buf;
      } else {
        NextFrameAlongStream(aes, e');
      }
    }
  }

  // ---- The reference: the same sessions, read off the byte stream with the one-shot parser ----

  function FirstPacket<T>(s: Bytes, id: int, parse: Bytes -> Option<T>): (r: (Option<T>, Bytes))
    ensures r.0.Some? ==> ParseFrame(s).Whole? && r.1 == s[ParseFrame(s).size..]
  {
    match ParseFrame(s)
    case Whole(packet, size) => if packet.id == id then (parse(packet.payload), s[size..]) else (None, s)
    case _ => (None, s)
  }

  function StatusOf(protocol: Protocol, status: Asked<Bytes>, s: Bytes): Session {
    var (request, s1) := FirstPacket(s, protocol.statusRequestId, Anything);
    if request.None? then Session([], Released, 1)
    else
      var out := if status.Reply? then Outgoing(protocol, None, StatusResponse(status.value)) else [];
      var (ping, _) := FirstPacket(s1, protocol.pingRequestId, protocol.readPing);
      Session(if ping.Some? then out + Outgoing(protocol, None, PingResponse(ping.value)) else out, Released, 2)
  }

  // After the encryption response the rest of the stream is one ciphertext under the agreed key.
  function AcknowledgedOf(aes: Aes, protocol: Protocol, service: Service, response: EncryptionResponse, s: Bytes): bool
  {
    var secret := SecretOf(service, response);
    secret.Key? && FirstPacket(Decrypt(aes(secret.key), secret.key, s), protocol.loginAcknowledgedId, Anything).0.Some?
  }

  function LoginOf(aes: Aes, protocol: Protocol, service: Service, s: Bytes): Session {
    var (start, s1) := FirstPacket(s, protocol.loginStartId, protocol.readLoginStart);
    var (response, s2) := FirstPacket(s1, protocol.encryptionResponseId, protocol.readEncryptionResponse);
    var ack := response.Some? && AcknowledgedOf(aes, protocol, service, response.value, s2);
    LoginVerdict(protocol, service, start, response, ack)
  }

  function HandshakeOf(aes: Aes, protocol: Protocol, service: Service, s: Bytes): Session {
    var (handshake, s') := FirstPacket(s, protocol.handshakeId, protocol.readHandshake);
    if handshake.None? then Session([], Released, 1)
    else
      match handshake.value
      case ToOther => Session([], Released, 1)
      case ToStatus =>
        if service.status.Refused? then Session([], Abandoned, 1)
        else AfterHandshake(StatusOf(protocol, service.status, s'))
      case ToLogin => AfterHandshake(LoginOf(aes, protocol, service, s'))
  }

  lemma ReadPacketIsFirstPacket<T>(aes: Aes, e: ReadEnd, id: int, parse: Bytes -> Option<T>)
    requires e.state == Len
    ensures var (r, e') := ReadPacket(aes, e, id, parse); var (q, rest) := FirstPacket(Ahead(aes, e), id, parse);
      r == q && (r.Some? ==> e'.state == Len && Ahead(aes, e') == rest && KeyOf(e'.mode) == KeyOf(e.mode))
  {
    NextFrameAlongStream(aes, e);
    StepIsParseFrame(Ahead(aes, e));
  }

  // A status session depends on the bytes ahead alone.
  lemma StatusFromBytes(aes: Aes, protocol: Protocol, status: Asked<Bytes>, e: ReadEnd)
    requires e.state == Len
    ensures StatusSession(aes, protocol, status, e) == StatusOf(protocol, status, Ahead(aes, e))
  {
    ReadPacketIsFirstPacket(aes, e, protocol.statusRequestId, Anything);
    var (request, e1) := ReadPacket(aes, e, protocol.statusRequestId, Anything);
    if request.Some? {
      ReadPacketIsFirstPacket(aes, e1, protocol.pingRequestId, protocol.readPing);
    }
  }

  // ---- Chunk boundaries ----

  // Whether a chunk ends exactly n bytes into what arrives.
  predicate CutAt(arrivals: seq<ReadEvent>, n: nat) {
    n == 0 ||
    (arrivals != [] &&
      match arrivals[0]
      case NotYet => CutAt(arrivals[1..], n)
      case Arrived(chunk) => 0 < |chunk| <= n && CutAt(arrivals[1..], n - |chunk|)
      case _ => false)
  }

  // The same, counted back from the end of what arrives.
  predicate CutBeforeEnd(arrivals: seq<ReadEvent>, r: nat) {
    var n := |Incoming(arrivals)|;
    r <= n && CutAt(arrivals, n - r)
  }

  // A decoder that asks for more needs at least one more byte for its frame.
  lemma FrameEndsBeyond(state: DecodeState, a: Bytes, b: Bytes)
    requires DecodeStep(state, a).NeedMore? && DecodeStep(state, a + b).Emit?
    ensures |DecodeStep(state, a + b).rest| < |b|
  {
    DecodeStepExtend(state, a, b);
    var held := DecodeStep(state, a);
    if held.state.Len? {
      var whole := held.rest + b;
      assert whole[..|held.rest|] == held.rest;
      ReadConfined(whole, |held.rest|);
    }
  }

  // Taking one read event leaves the boundaries behind the frame in hand where they were: the chunk taken ends no
  // later than the frame, or the frame ends inside it.
  lemma TakeKeepsCuts(arrivals: seq<ReadEvent>, r: nat)
    requires r < |Incoming(arrivals)|
    ensures CutBeforeEnd(arrivals, r) <==> CutBeforeEnd(ArrivalsLeft(arrivals), r)
  {
  }

  lemma {:induction false} PollKeepsCuts(aes: Aes, e: ReadEnd, rest: nat, r: nat)
    requires DecodeStep(e.state, Ahead(aes, e)).Emit?
    requires r <= rest == |DecodeStep(e.state, Ahead(aes, e)).rest|
    ensures CutBeforeEnd(e.arrivals, r) <==> CutBeforeEnd(PollStep(aes, e).1.arrivals, r)
    decreases |e.arrivals|
  {
    var step := DecodeStep(e.state, e.buf);
    var incoming := Received(aes, e.mode, Incoming(e.arrivals)).1;
    DecodeStepExtend(e.state, e.buf, incoming);
    if step.NeedMore? {
      FrameEndsBeyond(e.state, e.buf, incoming);
      TakeKeepsCuts(e.arrivals, r);
      PollFills(aes, e);
      var (mode, plain) := Received(aes, e.mode, Delivered(e.arrivals));
      if plain != [] && ReadResult(e.arrivals).Ready? {
        PollKeepsCuts(aes, ReadEnd(mode, step.state, step.rest + plain, ArrivalsLeft(e.arrivals)), rest, r);
      }
    }
  }

  // Awaiting a frame reads no chunk beyond the one the frame ends in.
  lemma {:induction false} NextFrameKeepsCuts(aes: Aes, e: ReadEnd, r: nat)
    requires NextFrame(aes, e).0.Item? && r <= |Ahead(aes, NextFrame(aes, e).1)|
    ensures CutBeforeEnd(e.arrivals, r) <==> CutBeforeEnd(NextFrame(aes, e).1.arrivals, r)
    decreases |e.arrivals|
  {
    NextFrameAlongStream(aes, e);
    PollAlongStream(aes, e);
    PollKeepsCuts(aes, e, |Ahead(aes, NextFrame(aes, e).1)|, r);
    var (next, e') := PollStep(aes, e);
    if next.NoFrameYet? {
      NextFrameKeepsCuts(aes, e', r);
    }
  }

  // Nothing is left in the read buffer exactly when a chunk ends where the frame ends.
  lemma BufferEmptyIffCut(aes: Aes, e: ReadEnd)
    requires NextFrame(aes, e).0.Item?
    ensures var e' := NextFrame(aes, e).1;
      e'.buf == [] <==> CutBeforeEnd(e.arrivals, |Ahead(aes, e')|)
  {
    var e' := NextFrame(aes, e).1;
    NextFrameKeepsCuts(aes, e, |Ahead(aes, e')|);
    assert |Ahead(aes, e')| == |e'.buf| + |Incoming(e'.arrivals)|;
    EndIsCut(e'.arrivals);
  }

  lemma EndIsCut(arrivals: seq<ReadEvent>)
    ensures CutBeforeEnd(arrivals, |Incoming(arrivals)|)
  {
  }

  // ---- The handovers ----

  // The login actor sees the true rest of the stream exactly when a chunk ends with the handshake frame.
  lemma HandoverLosslessIffCut(aes: Aes, arrivals: seq<ReadEvent>)
    requires ParseFrame(Incoming(arrivals)).Whole?
    ensures var s := Incoming(arrivals); var size := ParseFrame(s).size;
      var (next, e) := NextFrame(aes, Accepted(arrivals));
      && next == Item(ParseFrame(s).packet)
      && (Ahead(aes, HandOver(Cleartext, e)) == s[size..] <==> CutAt(arrivals, size))
  {
    var s := Incoming(arrivals);
    var e0 := Accepted(arrivals);
    assert Ahead(aes, e0) == s;
    NextFrameAlongStream(aes, e0);
    StepIsParseFrame(s);
    BufferEmptyIffCut(aes, e0);
  }

  // The encrypted socket decrypts the true rest of the stream exactly when a chunk ends with the frame before the
  // switch.
  lemma SwitchLosslessIffCut(aes: Aes, e: ReadEnd, key: Block)
    requires e.state == Len && e.mode == Cleartext && NextFrame(aes, e).0.Item?
    ensures var e' := NextFrame(aes, e).1;
      Ahead(aes, HandOver(FreshMode(key), e')) == Decrypt(aes(key), key, Ahead(aes, e'))
      <==> CutBeforeEnd(e.arrivals, |Ahead(aes, e')|)
  {
    NextFrameAlongStream(aes, e);
    BufferEmptyIffCut(aes, e);
    var e' := NextFrame(aes, e).1;
    var seen := Ahead(aes, HandOver(FreshMode(key), e'));
    assert seen == Decrypt(aes(key), key, Incoming(e'.arrivals));
    assert |Ahead(aes, e')| == |e'.buf| + |Incoming(e'.arrivals)|;
    if e'.buf == [] {
      ClearAhead(aes, e');
    }
  }

  // What follows the first k frames of s, if it has that many.
  function AfterFrames(s: Bytes, k: nat): (r: Option<Bytes>)
    ensures r.Some? ==> |r.value| <= |s|
    decreases k
  {
    if k == 0 then Some(s)
    else if ParseFrame(s).Whole? then AfterFrames(s[ParseFrame(s).size..], k - 1)
    else None
  }

  // A chunk ends with the k-th frame that arrives, if there is one.
  predicate CleanAfter(arrivals: seq<ReadEvent>, k: nat) {
    var rest := AfterFrames(Incoming(arrivals), k);
    rest.Some? ==> CutBeforeEnd(arrivals, |rest.value|)
  }

  lemma FrameTaken(aes: Aes, e: ReadEnd)
    requires e.state == Len && NextFrame(aes, e).0.Item?
    ensures var e' := NextFrame(aes, e).1; var s := Ahead(aes, e);
      && ParseFrame(s).Whole? && ParseFrame(s).packet == NextFrame(aes, e).0.packet
      && Ahead(aes, e') == s[ParseFrame(s).size..] && e'.state == Len && KeyOf(e'.mode) == KeyOf(e.mode)
  {
    NextFrameAlongStream(aes, e);
    StepIsParseFrame(Ahead(aes, e));
  }

  lemma FrameTakenCounts(aes: Aes, e: ReadEnd, k: nat)
    requires e.state == Len && NextFrame(aes, e).0.Item?
    ensures AfterFrames(Ahead(aes, e), k + 1) == AfterFrames(Ahead(aes, NextFrame(aes, e).1), k)
  {
    FrameTaken(aes, e);
  }

  // After two more frames the read buffer is empty if a chunk ends with the second of them.
  lemma SecondFrameEmptiesBuffer(aes: Aes, e: ReadEnd)
    requires e.state == Len && e.mode == Cleartext && e.buf == []
    requires NextFrame(aes, e).0.Item? && NextFrame(aes, NextFrame(aes, e).1).0.Item?
    requires CleanAfter(e.arrivals, 2)
    ensures var e2 := NextFrame(aes, NextFrame(aes, e).1).1;
      e2.buf == [] && Ahead(aes, e2) == Incoming(e2.arrivals)
  {
    var e1 := NextFrame(aes, e).1;
    var e2 := NextFrame(aes, e1).1;
    ClearAhead(aes, e);
    FrameTaken(aes, e);
    FrameTaken(aes, e1);
    FrameTakenCounts(aes, e, 1);
    FrameTakenCounts(aes, e1, 0);
    NextFrameKeepsCuts(aes, e, |Ahead(aes, e2)|);
    BufferEmptyIffCut(aes, e1);
    ClearAhead(aes, e2);
  }

  lemma ClearAhead(aes: Aes, e: ReadEnd)
    requires e.mode == Cleartext && e.buf == []
    ensures Ahead(aes, e) == Incoming(e.arrivals)
  {
  }

  lemma EncryptedStage(aes: Aes, protocol: Protocol, service: Service, response: EncryptionResponse, e2: ReadEnd)
    requires e2.state == Len && e2.buf == [] && Ahead(aes, e2) == Incoming(e2.arrivals)
    ensures Acknowledged(aes, protocol, service, response, e2)
      == AcknowledgedOf(aes, protocol, service, response, Ahead(aes, e2))
  {
    var secret := SecretOf(service, response);
    if secret.Key? {
      var e3 := HandOver(FreshMode(secret.key), e2);
      assert Ahead(aes, e3) == Decrypt(aes(secret.key), secret.key, Ahead(aes, e2));
      ReadPacketIsFirstPacket(aes, e3, protocol.loginAcknowledgedId, Anything);
    }
  }

  // The login path changes framers after the first frame (to the login actor) and after the third (to the encrypted
  // socket). When chunks end there, what the session does depends on the bytes alone.
  lemma LoginFromBytes(aes: Aes, protocol: Protocol, service: Service, e: ReadEnd)
    requires e.state == Len && e.mode == Cleartext && e.buf == [] && CleanAfter(e.arrivals, 2)
    ensures LoginSession(aes, protocol, service, e) == LoginOf(aes, protocol, service, Ahead(aes, e))
  {
    ReadPacketIsFirstPacket(aes, e, protocol.loginStartId, protocol.readLoginStart);
    var (start, e1) := ReadPacket(aes, e, protocol.loginStartId, protocol.readLoginStart);
    if start.Some? {
      ReadPacketIsFirstPacket(aes, e1, protocol.encryptionResponseId, protocol.readEncryptionResponse);
      var (response, e2) := ReadPacket(aes, e1, protocol.encryptionResponseId, protocol.readEncryptionResponse);
      if response.Some? {
        SecondFrameEmptiesBuffer(aes, e);
        EncryptedStage(aes, protocol, service, response.value, e2);
      }
    }
  }

  // A whole connection, from its first byte. On the status path the cut of the stream never matters. On the login
  // path it does not matter as long as chunks end with the first and with the third frame.
  lemma SessionFromBytes(aes: Aes, protocol: Protocol, service: Service, arrivals: seq<ReadEvent>)
    requires
      FirstPacket(Incoming(arrivals), protocol.handshakeId, protocol.readHandshake).0 == Some(ToLogin) ==>
        CleanAfter(arrivals, 1) && CleanAfter(arrivals, 3)
    ensures HandshakeSession(aes, protocol, service, Accepted(arrivals))
      == HandshakeOf(aes, protocol, service, Incoming(arrivals))
  {
    var s := Incoming(arrivals);
    var e := Accepted(arrivals);
    assert Ahead(aes, e) == s;
    ReadPacketIsFirstPacket(aes, e, protocol.handshakeId, protocol.readHandshake);
    var (handshake, e') := ReadPacket(aes, e, protocol.handshakeId, protocol.readHandshake);
    if handshake == Some(ToStatus) {
      StatusFromBytes(aes, protocol, service.status, e');
    } else if handshake == Some(ToLogin) {
      LoginAfterHandshake(aes, protocol, service, arrivals);
    }
  }

  lemma LoginAfterHandshake(aes: Aes, protocol: Protocol, service: Service, arrivals: seq<ReadEvent>)
    requires NextFrame(aes, Accepted(arrivals)).0.Item? && CleanAfter(arrivals, 1) && CleanAfter(arrivals, 3)
    ensures var e' := NextFrame(aes, Accepted(arrivals)).1;
      LoginSession(aes, protocol, service, HandOver(Cleartext, e')) == LoginOf(aes, protocol, service, Ahead(aes, e'))
  {
    FirstFrameEmptiesBuffer(aes, arrivals);
    FirstFrameLeavesClean(aes, arrivals, 2);
    LoginFromBytes(aes, protocol, service, NextFrame(aes, Accepted(arrivals)).1);
  }

  lemma FirstFrameEmptiesBuffer(aes: Aes, arrivals: seq<ReadEvent>)
    requires NextFrame(aes, Accepted(arrivals)).0.Item? && CleanAfter(arrivals, 1)
    ensures var e' := NextFrame(aes, Accepted(arrivals)).1;
      && e'.state == Len && e'.mode == Cleartext && e'.buf == [] && HandOver(Cleartext, e') == e'
      && Ahead(aes, e') == Incoming(e'.arrivals)
  {
    var e := Accepted(arrivals);
    ClearAhead(aes, e);
    FrameTaken(aes, e);
    FrameTakenCounts(aes, e, 0);
    BufferEmptyIffCut(aes, e);
    ClearAhead(aes, NextFrame(aes, e).1);
  }

  // A boundary behind the (k + 1)-st frame is one behind the k-th frame of what follows the first.
  lemma FirstFrameLeavesClean(aes: Aes, arrivals: seq<ReadEvent>, k: nat)
    requires NextFrame(aes, Accepted(arrivals)).0.Item? && CleanAfter(arrivals, 1) && CleanAfter(arrivals, k + 1)
    ensures CleanAfter(NextFrame(aes, Accepted(arrivals)).1.arrivals, k)
  {
    var e := Accepted(arrivals);
    var e' := NextFrame(aes, e).1;
    FirstFrameEmptiesBuffer(aes, arrivals);
    ClearAhead(aes, e);
    FrameTakenCounts(aes, e, k);
    var rest := AfterFrames(Incoming(e'.arrivals), k);
    if rest.Some? {
      NextFrameKeepsCuts(aes, e, |rest.value|);
    }
  }
}

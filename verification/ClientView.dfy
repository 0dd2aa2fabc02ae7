// What the client at the other end makes of the bytes of a login.
module ClientView {
  import opened Common
  import opened Cfb8
  import opened Codec
  import opened CodecTheory
  import opened Sockets
  import opened WriterTheory
  import opened Framing
  import opened Connection
  import opened ConnectionTheory
  import opened LoginTheory
  import opened Actors

  // What a login leaves on the wire if every write succeeded: its first frame in clear, and nothing of its second but
  // the ciphertext under the key it was sent with.
  lemma LoginWire(aes: Aes, protocol: Protocol, request: Output, success: Output, wire: Bytes)
    requires request.key == None && success.key.Some?
    requires protocol.write(request.packet).Some? && protocol.write(success.packet).Some?
    requires Accounted(aes, Record(protocol, [request, success]), wire)
    ensures var key := success.key.value;
      wire == FrameOf(protocol.write(request.packet).value)
            + Encrypt(aes(key), key, FrameOf(protocol.write(success.packet).value))
  {
    var first := Handed(None, FrameOf(protocol.write(request.packet).value));
    var second := Handed(success.key, FrameOf(protocol.write(success.packet).value));
    assert [request, success] == [request] + [success];
    RecordAppend(protocol, [request], [success]);
    assert [request][1..] == [] && [success][1..] == [];
    assert Record(protocol, [request]) == [first] && Record(protocol, [success]) == [second];
    assert Record(protocol, [request, success]) == [first, second];
    WireOfTwo(aes, first, second, wire);
  }

  lemma WireOfTwo(aes: Aes, first: Handed, second: Handed, wire: Bytes)
    requires first.key.None? && second.key.Some? && Accounted(aes, [first, second], wire)
    ensures wire == first.frame + Encrypt(aes(second.key.value), second.key.value, second.frame)
  {
    var handed := [first, second];
    var key :| KeysAgree(handed, key) && wire == ClearPart(handed) + Seal(aes, key, SealedPart(handed));
    assert handed[..1] == [first] && [first][..0] == [];
    assert ClearPart([first]) == [] + first.frame == first.frame && SealedPart([first]) == [] + [] == [];
    assert ClearPart(handed) == first.frame + [] == first.frame;
    assert SealedPart(handed) == [] + second.frame == second.frame;
  }

  // A client that decodes the front of the wire as it is, and the rest after decrypting it under the key, gets exactly
  // the two packets of these bodies, and nothing is left over.
  ghost predicate Understood(aes: Aes, key: Block, request: Bytes, success: Bytes, wire: Bytes)
    requires Sendable(request) && Sendable(success)
  {
    match DecodeStep(Len, wire)
    case Emit(packet, sealed) =>
      packet == PacketOf(request)
      && Drain(Len, Decrypt(aes(key), key, sealed)) == Drained([PacketOf(success)], Len, [], true)
    case _ => false
  }

  lemma TwoFramesUnderstood(aes: Aes, key: Block, request: Bytes, success: Bytes, wire: Bytes)
    requires Sendable(request) && Sendable(success)
    requires wire == FrameOf(request) + Encrypt(aes(key), key, FrameOf(success))
    ensures Understood(aes, key, request, success, wire)
  {
    FrameRoundTrip(request, Encrypt(aes(key), key, FrameOf(success)));
    DecryptEncrypt(aes(key), key, FrameOf(success));
    DrainOne(success);
  }

  lemma DrainOne(body: Bytes)
    requires Sendable(body)
    ensures Drain(Len, FrameOf(body)) == Drained([PacketOf(body)], Len, [], true)
  {
    DrainEncodeAll([body]);
    assert EncodeAll([body]) == FrameOf(body) + [] == FrameOf(body);
    assert PacketsOf([body]) == [PacketOf(body)] + [];
  }

  // Whenever a login got as far as its second packet, the client that proved the key understands both: the request it
  // was to answer, and its own profile.
  lemma LoginUnderstood(aes: Aes, protocol: Protocol, service: Service, e: ReadEnd, r: Session, wire: Bytes)
    requires e.state == Len && r == LoginSession(aes, protocol, service, e) && |r.outputs| == 2
    requires Accounted(aes, Record(protocol, r.outputs), wire)
    requires forall packet :: protocol.write(packet).Some? ==> Sendable(protocol.write(packet).value)
    ensures r.outputs[1].key.Some? && r.outputs[1].packet.LoginSuccess?
    ensures Authenticated(protocol, service, Ahead(aes, e), r.outputs[1].packet.profile, r.outputs[1].key.value)
    ensures var request, success := protocol.write(r.outputs[0].packet), protocol.write(r.outputs[1].packet);
      && request.Some? && success.Some?
      && Understood(aes, r.outputs[1].key.value, request.value, success.value, wire)
  {
    LoginTraceSafe(aes, protocol, service, e);
    OutputsWritable(aes, protocol, service, e);
    PairUnderstood(aes, protocol, r.outputs, wire);
  }

  lemma PairUnderstood(aes: Aes, protocol: Protocol, outputs: seq<Output>, wire: Bytes)
    requires |outputs| == 2 && outputs[0].key.None? && outputs[1].key.Some?
    requires protocol.write(outputs[0].packet).Some? && protocol.write(outputs[1].packet).Some?
    requires Sendable(protocol.write(outputs[0].packet).value) && Sendable(protocol.write(outputs[1].packet).value)
    requires Accounted(aes, Record(protocol, outputs), wire)
    ensures Understood(aes, outputs[1].key.value, protocol.write(outputs[0].packet).value,
                       protocol.write(outputs[1].packet).value, wire)
  {
    assert outputs == [outputs[0], outputs[1]];
    LoginWire(aes, protocol, outputs[0], outputs[1], wire);
    TwoFramesUnderstood(aes, outputs[1].key.value, protocol.write(outputs[0].packet).value,
                        protocol.write(outputs[1].packet).value, wire);
  }

  lemma OutputsWritable(aes: Aes, protocol: Protocol, service: Service, e: ReadEnd)
    ensures var r := LoginSession(aes, protocol, service, e);
      forall i :: 0 <= i < |r.outputs| ==> protocol.write(r.outputs[i].packet).Some?
  {
  }

  // ---- Whole connections ----

  predicate Readable(protocol: Protocol, outputs: seq<Output>) {
    forall i :: 0 <= i < |outputs| ==>
      protocol.write(outputs[i].packet).Some? && Sendable(protocol.write(outputs[i].packet).value)
  }

  function Bodies(protocol: Protocol, outputs: seq<Output>): (bodies: seq<Bytes>)
    requires Readable(protocol, outputs)
    ensures |bodies| == |outputs| && AllSendable(bodies)
  {
    if outputs == [] then []
    else Bodies(protocol, outputs[..|outputs| - 1]) + [protocol.write(outputs[|outputs| - 1].packet).value]
  }

  lemma {:induction false} ClearRecord(protocol: Protocol, outputs: seq<Output>)
    requires Readable(protocol, outputs) && forall i :: 0 <= i < |outputs| ==> outputs[i].key.None?
    ensures ClearPart(Record(protocol, outputs)) == EncodeAll(Bodies(protocol, outputs))
    ensures SealedPart(Record(protocol, outputs)) == []
    decreases |outputs|
  {
    if outputs != [] {
      var n := |outputs| - 1;
      var body := protocol.write(outputs[n].packet).value;
      ClearRecord(protocol, outputs[..n]);
      assert outputs == outputs[..n] + [outputs[n]];
      RecordAppend(protocol, outputs[..n], [outputs[n]]);
      assert [outputs[n]][1..] == [];
      assert Record(protocol, [outputs[n]]) == [Handed(None, FrameOf(body))];
      RecordSnoc(Record(protocol, outputs[..n]), Handed(None, FrameOf(body)));
      EncodeAllAppend(Bodies(protocol, outputs[..n]), [body]);
      assert EncodeAll([body]) == FrameOf(body) + [] == FrameOf(body);
    }
  }

  lemma RecordSnoc(handed: seq<Handed>, next: Handed)
    requires next.key.None?
    ensures ClearPart(handed + [next]) == ClearPart(handed) + next.frame
    ensures SealedPart(handed + [next]) == SealedPart(handed)
  {
    assert (handed + [next])[..|handed|] == handed;
  }

  lemma ClearUnderstood(aes: Aes, protocol: Protocol, outputs: seq<Output>, wire: Bytes)
    requires Readable(protocol, outputs) && forall i :: 0 <= i < |outputs| ==> outputs[i].key.None?
    requires Accounted(aes, Record(protocol, outputs), wire)
    ensures Drain(Len, wire) == Drained(PacketsOf(Bodies(protocol, outputs)), Len, [], true)
  {
    ClearRecord(protocol, outputs);
    ClearWire(aes, Record(protocol, outputs), wire);
    DrainEncodeAll(Bodies(protocol, outputs));
  }

  lemma ClearWire(aes: Aes, handed: seq<Handed>, wire: Bytes)
    requires Accounted(aes, handed, wire) && SealedPart(handed) == []
    ensures wire == ClearPart(handed)
  {
    var key :| KeysAgree(handed, key) && wire == ClearPart(handed) + Seal(aes, key, SealedPart(handed));
    assert ClearPart(handed) + [] == ClearPart(handed);
  }

  // The keys under which the outputs of any connection leave: none, except that the second may be sealed; then it is
  // login success, and the connection is a login.
  lemma KeysOfSession(aes: Aes, protocol: Protocol, service: Service, arrivals: seq<ReadEvent>)
    ensures var r := HandshakeSession(aes, protocol, service, Accepted(arrivals));
      && |r.outputs| <= 2
      && (|r.outputs| >= 1 ==> r.outputs[0].key.None?)
      && (|r.outputs| == 2 && r.outputs[1].key.Some? ==>
            r.outputs[1].packet.LoginSuccess? &&
            Authenticated(protocol, service, LoginSees(aes, arrivals), r.outputs[1].packet.profile,
                          r.outputs[1].key.value))
  {
    var e := Accepted(arrivals);
    ClearAhead(aes, e);
    ReadPacketIsFirstPacket(aes, e, protocol.handshakeId, protocol.readHandshake);
    var (handshake, e') := ReadPacket(aes, e, protocol.handshakeId, protocol.readHandshake);
    if handshake == Some(ToLogin) {
      LoginTraceSafe(aes, protocol, service, HandOver(Cleartext, e'));
    } else if handshake == Some(ToStatus) {
      StatusBounds(aes, protocol, service.status, e');
    }
  }

  lemma SessionWritable(aes: Aes, protocol: Protocol, service: Service, arrivals: seq<ReadEvent>)
    requires forall packet :: protocol.write(packet).Some? ==> Sendable(protocol.write(packet).value)
    ensures Readable(protocol, HandshakeSession(aes, protocol, service, Accepted(arrivals)).outputs)
  {
    var (_, e') := ReadPacket(aes, Accepted(arrivals), protocol.handshakeId, protocol.readHandshake);
    OutputsWritable(aes, protocol, service, HandOver(Cleartext, e'));
    StatusWritable(aes, protocol, service.status, e');
  }

  lemma StatusWritable(aes: Aes, protocol: Protocol, status: Asked<Bytes>, e: ReadEnd)
    ensures var r := StatusSession(aes, protocol, status, e);
      forall i :: 0 <= i < |r.outputs| ==> protocol.write(r.outputs[i].packet).Some?
  {
  }

  // What the wire of a whole connection means to its client, if every write succeeded: for a login that got as far as
  // its second packet, the request in clear and then login success under the key the client itself proved; in every
  // other case exactly the packets sent, in clear.
  lemma ConnectionUnderstood(aes: Aes, protocol: Protocol, service: Service, arrivals: seq<ReadEvent>, wire: Bytes)
    requires forall packet :: protocol.write(packet).Some? ==> Sendable(protocol.write(packet).value)
    requires
      Accounted(aes, Record(protocol, HandshakeSession(aes, protocol, service, Accepted(arrivals)).outputs), wire)
    ensures var outputs := HandshakeSession(aes, protocol, service, Accepted(arrivals)).outputs;
      && Readable(protocol, outputs)
      && if |outputs| == 2 && outputs[1].key.Some? then
           && outputs[1].packet.LoginSuccess?
           && Authenticated(protocol, service, LoginSees(aes, arrivals), outputs[1].packet.profile,
                            outputs[1].key.value)
           && Understood(aes, outputs[1].key.value, protocol.write(outputs[0].packet).value,
                         protocol.write(outputs[1].packet).value, wire)
         else Drain(Len, wire) == Drained(PacketsOf(Bodies(protocol, outputs)), Len, [], true)
  {
    var outputs := HandshakeSession(aes, protocol, service, Accepted(arrivals)).outputs;
    SessionWritable(aes, protocol, service, arrivals);
    KeysOfSession(aes, protocol, service, arrivals);
    if |outputs| == 2 && outputs[1].key.Some? {
      PairUnderstood(aes, protocol, outputs, wire);
    } else {
      ClearUnderstood(aes, protocol, outputs, wire);
    }
  }
}

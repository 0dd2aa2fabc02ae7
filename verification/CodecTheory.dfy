// What the codec guarantees over whole byte streams, however they are cut.
module CodecTheory {
  import opened Common
  import opened VarInts
  import opened Codec

  // ---- One decode call ----

  // Bytes that arrive later change nothing that was already decided: a call that asked for more resumes from the
  // stored state, and a packet or a failure stands.
  lemma DecodeStepExtend(state: DecodeState, a: Bytes, b: Bytes)
    ensures match DecodeStep(state, a)
      case NeedMore(next, rest) => DecodeStep(state, a + b) == DecodeStep(next, rest + b)
      case Emit(packet, rest) => DecodeStep(state, a + b) == Emit(packet, rest + b)
      case Malformed => DecodeStep(state, a + b) == Malformed
  {
    if state.Data? {
      BodyStepExtend(state.n, a, b);
    } else {
      ReadExtend(a, b);
      var head := Read(a);
      if head.Value? && head.val >= 0 {
        assert (a + b)[head.len..] == a[head.len..] + b;
        BodyStepExtend(head.val, a[head.len..], b);
      }
    }
  }

  lemma BodyStepExtend(n: nat, a: Bytes, b: Bytes)
    ensures match BodyStep(n, a)
      case NeedMore(next, rest) => next == Data(n) && rest == a
      case Emit(packet, rest) => BodyStep(n, a + b) == Emit(packet, rest + b)
      case Malformed => BodyStep(n, a + b) == Malformed
  {
    if |a| >= n {
      var ab := a + b;
      assert ab[..n] == a[..n];
      ReadConfined(a, n);
      ReadConfined(ab, n);
      if Read(a).Value? && Read(a).len <= n {
        var l := Read(a).len;
        assert ab[l..n] == a[l..n];
        assert ab[n..] == a[n..] + b;
      }
    }
  }

  // A packet takes at least one byte off the front of the buffer; a call that asks for more can be repeated without
  // effect until bytes arrive.
  lemma DecodeProgress(state: DecodeState, src: Bytes)
    ensures match DecodeStep(state, src)
      case NeedMore(next, rest) => DecodeStep(next, rest) == NeedMore(next, rest)
      case Emit(_, rest) => |rest| < |src| && rest == src[|src| - |rest|..]
      case Malformed => true
  {
  }

  // ---- Decoding until nothing more comes out ----

  // ok is false from the first malformed frame on; state and rest then carry no information.
  datatype Drained = Drained(packets: seq<Packet>, state: DecodeState, rest: Bytes, ok: bool)

  const NOTHING_YET := Drained([], Len, [], true)

  function Drain(state: DecodeState, src: Bytes): Drained
    decreases |src|
  {
    match DecodeStep(state, src)
    case NeedMore(next, rest) => Drained([], next, rest, true)
    case Malformed => Drained([], Len, [], false)
    case Emit(packet, rest) =>
      DecodeProgress(state, src);
      Cons(packet, Drain(Len, rest))
  }

  function Cons(packet: Packet, d: Drained): Drained {
    Prepend([packet], d)
  }

  function Prepend(packets: seq<Packet>, d: Drained): Drained {
    d.(packets := packets + d.packets)
  }

  // Continue after d with whatever the bytes more add.
  function Resume(d: Drained, more: Bytes): Drained {
    if d.ok then Prepend(d.packets, Drain(d.state, d.rest + more)) else d
  }

  function Feed(d: Drained, chunks: seq<Bytes>): Drained
    decreases |chunks|
  {
    if chunks == [] then d else Feed(Resume(d, chunks[0]), chunks[1..])
  }

  lemma {:induction false} DrainSplit(state: DecodeState, a: Bytes, b: Bytes)
    ensures Drain(state, a + b) == Resume(Drain(state, a), b)
    decreases |a|
  {
    DecodeStepExtend(state, a, b);
    DecodeProgress(state, a);
    match DecodeStep(state, a) {
      case Malformed =>
      case NeedMore(next, rest) =>
        DrainSameStep(state, a + b, next, rest + b);
      case Emit(packet, rest) =>
        DrainSplit(Len, rest, b);
        ResumePrepend([packet], Drain(Len, rest), b);
    }
  }

  lemma DrainSameStep(s: DecodeState, a: Bytes, t: DecodeState, b: Bytes)
    requires DecodeStep(s, a) == DecodeStep(t, b)
    ensures Drain(s, a) == Drain(t, b)
  {
  }

  lemma ResumeConcat(d: Drained, a: Bytes, b: Bytes)
    ensures Resume(Resume(d, a), b) == Resume(d, a + b)
  {
    if d.ok {
      DrainSplit(d.state, d.rest + a, b);
      assert d.rest + a + b == d.rest + (a + b);
      ResumePrepend(d.packets, Drain(d.state, d.rest + a), b);
    }
  }

  lemma ResumePrepend(packets: seq<Packet>, d: Drained, more: Bytes)
    ensures Resume(Prepend(packets, d), more) == Prepend(packets, Resume(d, more))
  {
    var more' := Drain(d.state, d.rest + more).packets;
    assert packets + d.packets + more' == packets + (d.packets + more');
  }

  // d is a state in which the decoder has asked for more.
  ghost predicate Settled(d: Drained) {
    d.ok ==> Drain(d.state, d.rest) == Drained([], d.state, d.rest, true)
  }

  // Cutting the stream does not matter: decoding chunk by chunk, draining after each, gives the packets, the state
  // and the unconsumed bytes of decoding the whole at once.
  lemma {:induction false} ChunkingIrrelevant(d: Drained, chunks: seq<Bytes>)
    requires Settled(d)
    ensures Feed(d, chunks) == Resume(d, Concat(chunks))
    decreases |chunks|
  {
    if chunks == [] {
      assert d.ok ==> d.rest + [] == d.rest;
    } else {
      ResumeSettles(d, chunks[0]);
      ChunkingIrrelevant(Resume(d, chunks[0]), chunks[1..]);
      ResumeConcat(d, chunks[0], Concat(chunks[1..]));
    }
  }

  lemma ResumeSettles(d: Drained, more: Bytes)
    ensures Settled(Resume(d, more)) || !d.ok
  {
    if d.ok {
      DrainStable(d.state, d.rest + more);
    }
  }

  // What Drain leaves over yields nothing by itself.
  lemma {:induction false} DrainStable(state: DecodeState, src: Bytes)
    ensures var d := Drain(state, src); d.ok ==> Drain(d.state, d.rest) == Drained([], d.state, d.rest, true)
    decreases |src|
  {
    DecodeProgress(state, src);
    var step := DecodeStep(state, src);
    if step.Emit? {
      DrainStable(Len, step.rest);
    }
  }

  // ---- The one-shot parser ----

  // One whole frame at the front of s, read without any decoder state: the prefix gives the length of the body, and
  // the body alone gives id and payload.
  datatype ParsedFrame = Whole(packet: Packet, size: nat) | Partial | Bad

  function ParseFrame(s: Bytes): (r: ParsedFrame)
    ensures r.Whole? ==> 0 < r.size <= |s|
  {
    match Read(s)
    case Truncated => Partial
    case TooLong => Bad
    case Value(n, l) =>
      if n < 0 then Bad
      else if |s| < l + n then Partial
      else
        var body := s[l..l + n];
        match Read(body)
        case Value(id, k) => Whole(Packet(id, body[k..]), l + n)
        case _ => Bad
  }

  datatype Parsed = Parsed(packets: seq<Packet>, rest: Bytes, ok: bool)

  function Parse(s: Bytes): Parsed
    decreases |s|
  {
    match ParseFrame(s)
    case Partial => Parsed([], s, true)
    case Bad => Parsed([], [], false)
    case Whole(packet, size) =>
      var p := Parse(s[size..]);
      p.(packets := [packet] + p.packets)
  }

  // The decoder state in which the bytes of an incomplete frame are held: the prefix is gone once it is complete.
  function Held(s: Bytes): (DecodeState, Bytes) {
    match Read(s)
    case Value(n, l) => if n < 0 then (Len, s) else (Data(n), s[l..])
    case _ => (Len, s)
  }

  lemma StepIsParseFrame(s: Bytes)
    ensures match ParseFrame(s)
      case Whole(packet, size) => DecodeStep(Len, s) == Emit(packet, s[size..])
      case Partial => DecodeStep(Len, s) == NeedMore(Held(s).0, Held(s).1)
      case Bad => DecodeStep(Len, s) == Malformed
  {
    var head := Read(s);
    if head.Value? && head.val >= 0 && |s| >= head.len + head.val {
      var src := s[head.len..];
      var n := head.val;
      assert src[..n] == s[head.len..head.len + n];
      assert src[n..] == s[head.len + n..];
      ReadConfined(src, n);
      if Read(src[..n]).Value? {
        assert src[..n][Read(src).len..] == src[Read(src).len..n];
      }
    }
  }

  lemma {:induction false} DrainIsParse(s: Bytes)
    ensures var p := Parse(s);
      Drain(Len, s) == if p.ok then Drained(p.packets, Held(p.rest).0, Held(p.rest).1, true)
                       else Drained(p.packets, Len, [], false)
    decreases |s|
  {
    StepIsParseFrame(s);
    match ParseFrame(s) {
      case Whole(packet, size) => DrainIsParse(s[size..]);
      case _ =>
    }
  }

  // The incremental decoder refines the one-shot parser on every byte stream and every way to cut it.
  lemma DecoderRefinesParser(chunks: seq<Bytes>)
    ensures var d := Feed(NOTHING_YET, chunks); var p := Parse(Concat(chunks));
      && d.packets == p.packets
      && d.ok == p.ok
      && (p.ok ==> (d.state, d.rest) == Held(p.rest))
  {
    assert Drain(Len, []) == NOTHING_YET;
    ChunkingIrrelevant(NOTHING_YET, chunks);
    assert [] + Concat(chunks) == Concat(chunks);
    DrainIsParse(Concat(chunks));
  }

  // ---- Encode, then decode ----

  function EncodeAll(bodies: seq<Bytes>): Bytes {
    if bodies == [] then [] else FrameOf(bodies[0]) + EncodeAll(bodies[1..])
  }

  // A body a peer can read back: short enough for the prefix and led by a complete id.
  predicate Sendable(body: Bytes) {
    |body| < TWO_31 && Read(body).Value?
  }

  predicate AllSendable(bodies: seq<Bytes>) {
    forall i :: 0 <= i < |bodies| ==> Sendable(bodies[i])
  }

  function PacketOf(body: Bytes): Packet
    requires Read(body).Value?
  {
    Packet(Read(body).val, body[Read(body).len..])
  }

  function PacketsOf(bodies: seq<Bytes>): (packets: seq<Packet>)
    requires AllSendable(bodies)
    ensures |packets| == |bodies|
  {
    if bodies == [] then [] else [PacketOf(bodies[0])] + PacketsOf(bodies[1..])
  }

  // On the wire a frame is the length of its body, in groups of seven bits, followed by the body.
  lemma FrameFormat(body: Bytes)
    requires |body| < 0x8000_0000
    ensures exists prefix: Bytes ::
      IsVarInt(prefix) && Groups(prefix) == |body| && (prefix[|prefix| - 1] == 0 ==> |body| == 0)
      && FrameOf(body) == prefix + body
  {
    WriteLength(|body|);
    assert FrameOf(body) == Write(ToI32(|body|)) + body;
  }

  // A body shorter than 2^31 bytes survives encoding and decoding, whatever follows it, exactly when a complete id
  // leads it.
  lemma FrameRoundTrip(body: Bytes, tail: Bytes)
    requires |body| < TWO_31
    ensures Read(body).Value? <==> DecodeStep(Len, FrameOf(body) + tail).Emit?
    ensures Read(body).Value? ==> DecodeStep(Len, FrameOf(body) + tail) == Emit(PacketOf(body), tail)
  {
    var head := Write(|body|);
    var s := FrameOf(body) + tail;
    assert s == head + (body + tail);
    ReadWrite(|body|, body + tail);
    assert s[|head|..|head| + |body|] == body;
    assert s[|head| + |body|..] == tail;
    StepIsParseFrame(s);
  }

  // A packet built as its id followed by its payload comes back as that id and payload, for every 32-bit id.
  lemma PacketRoundTrip(id: i32, payload: Bytes)
    ensures Read(Write(id) + payload).Value?
    ensures PacketOf(Write(id) + payload) == Packet(id, payload)
  {
    ReadWrite(id, payload);
  }

  lemma DrainFrame(body: Bytes, rest: Bytes)
    requires Sendable(body)
    ensures Drain(Len, FrameOf(body) + rest) == Cons(PacketOf(body), Drain(Len, rest))
  {
    FrameRoundTrip(body, rest);
  }

  lemma PrependCons(packet: Packet, packets: seq<Packet>, d: Drained)
    ensures Cons(packet, Prepend(packets, d)) == Prepend([packet] + packets, d)
  {
    assert [packet] + (packets + d.packets) == [packet] + packets + d.packets;
  }

  // A list of frames followed by anything decodes to exactly those packets and then goes on with what follows.
  lemma {:induction false} FrameListRoundTrip(bodies: seq<Bytes>, tail: Bytes)
    requires AllSendable(bodies)
    ensures Drain(Len, EncodeAll(bodies) + tail) == Prepend(PacketsOf(bodies), Drain(Len, tail))
    decreases |bodies|
  {
    if bodies == [] {
      assert EncodeAll(bodies) + tail == tail;
    } else {
      var rest := EncodeAll(bodies[1..]) + tail;
      EncodeAllCons(bodies, tail);
      DrainFrame(bodies[0], rest);
      FrameListRoundTrip(bodies[1..], tail);
      PrependCons(PacketOf(bodies[0]), PacketsOf(bodies[1..]), Drain(Len, tail));
    }
  }

  lemma EncodeAllCons(bodies: seq<Bytes>, tail: Bytes)
    requires bodies != []
    ensures EncodeAll(bodies) + tail == FrameOf(bodies[0]) + (EncodeAll(bodies[1..]) + tail)
  {
  }

  lemma {:induction false} EncodeAllAppend(bodies: seq<Bytes>, more: seq<Bytes>)
    ensures EncodeAll(bodies + more) == EncodeAll(bodies) + EncodeAll(more)
    decreases |bodies|
  {
    if bodies == [] {
      assert bodies + more == more;
    } else {
      assert (bodies + more)[1..] == bodies[1..] + more;
      EncodeAllAppend(bodies[1..], more);
    }
  }

  // A prefix of a stream of frames decodes without failure to a prefix of the packets.
  lemma PrefixDecodesToPrefix(bodies: seq<Bytes>, n: nat)
    requires AllSendable(bodies)
    requires n <= |EncodeAll(bodies)|
    ensures var d := Drain(Len, EncodeAll(bodies)[..n]); d.ok && d.packets <= PacketsOf(bodies)
  {
    DrainEncodeAll(bodies);
    PrefixOfDrained(EncodeAll(bodies), n, PacketsOf(bodies));
  }

  lemma PrefixOfDrained(s: Bytes, n: nat, packets: seq<Packet>)
    requires n <= |s| && Drain(Len, s) == Drained(packets, Len, [], true)
    ensures var d := Drain(Len, s[..n]); d.ok && d.packets <= packets
  {
    assert s[..n] + s[n..] == s;
    DrainSplit(Len, s[..n], s[n..]);
    ResumeGrows(Drain(Len, s[..n]), s[n..], packets);
  }

  lemma ResumeGrows(d: Drained, more: Bytes, packets: seq<Packet>)
    requires Resume(d, more) == Drained(packets, Len, [], true)
    ensures d.ok && d.packets <= packets
  {
  }

  // The whole stream decodes to all of them and leaves nothing.
  lemma DrainEncodeAll(bodies: seq<Bytes>)
    requires AllSendable(bodies)
    ensures Drain(Len, EncodeAll(bodies)) == Drained(PacketsOf(bodies), Len, [], true)
  {
    assert EncodeAll(bodies) + [] == EncodeAll(bodies);
    FrameListRoundTrip(bodies, []);
    assert DecodeStep(Len, []) == NeedMore(Len, []);
  }
}

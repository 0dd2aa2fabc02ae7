// One direction of a connection, end to end: encode, encrypted write, network, peer decryption, decode.
// The two ends switch from clear to encrypted at their own moments.
module Pipe {
  import opened Common
  import opened Cfb8
  import opened Codec
  import opened CodecTheory
  import opened Sockets
  import opened WriterTheory

  // sent: the bodies given to the encoder. acked: the plaintext the socket has acknowledged. cut: how much of it went
  // in clear before the sender switched. taken: how much of the wire the receiver has read. got: the packets decoded.
  datatype Pipe = Pipe(
    outMode: Mode, outBuf: Bytes, sent: seq<Bytes>, acked: Bytes, cut: nat,
    wire: Bytes,
    taken: nat, inMode: Mode, inState: DecodeState, inBuf: Bytes, got: seq<Packet>)

  datatype Action =
    | Send(body: Bytes)
    | Flush(event: WriteEvent)
    | SwitchSender
    | Deliver(most: nat)
    | Decode
    | SwitchReceiver

  const IDLE := Pipe(Cleartext, [], [], [], 0, [], 0, Cleartext, Len, [], [])

  // The pending ciphertext never exceeds the buffer it stands for.
  predicate InRange(s: Pipe) {
    |Pend(s.outMode)| <= |s.outBuf|
  }

  function Step(aes: Aes, key: Block, s: Pipe, a: Action): (t: Pipe)
    requires InRange(s)
    ensures InRange(t)
  {
    match a
    case Send(body) => s.(outBuf := s.outBuf + FrameOf(body), sent := s.sent + [body])
    case Flush(event) => if s.outBuf == [] then s else Flushed(aes, s, event)
    case SwitchSender =>
      if s.outMode.Cleartext? then s.(outMode := FreshMode(key), outBuf := [], cut := |s.acked|) else s
    case Deliver(most) => if s.taken <= |s.wire| then DeliveredTo(aes, s, Min(most, |s.wire| - s.taken)) else s
    case Decode => Decoding(s)
    case SwitchReceiver =>
      if s.inMode.Cleartext? then s.(inMode := FreshMode(key), inBuf := []) else s
  }

  function Flushed(aes: Aes, s: Pipe, event: WriteEvent): (t: Pipe)
    requires InRange(s)
    ensures InRange(t)
  {
    WriteKeepsPendingWithin(aes, s.outMode, s.outBuf, event);
    var w := WriteStep(aes, s.outMode, s.outBuf, event);
    var t := s.(outMode := w.mode, wire := s.wire + w.sent);
    match w.poll
    case Ready(n) => t.(outBuf := s.outBuf[n..], acked := s.acked + s.outBuf[..n])
    case _ => t
  }

  function DeliveredTo(aes: Aes, s: Pipe, n: nat): Pipe
    requires s.taken + n <= |s.wire|
  {
    var (mode, plain) := Received(aes, s.inMode, s.wire[s.taken..s.taken + n]);
    s.(taken := s.taken + n, inMode := mode, inBuf := s.inBuf + plain)
  }

  function Decoding(s: Pipe): Pipe {
    match DecodeStep(s.inState, s.inBuf)
    case NeedMore(next, rest) => s.(inState := next, inBuf := rest)
    case Emit(packet, rest) => s.(inState := Len, inBuf := rest, got := s.got + [packet])
    case Malformed => s
  }

  function Run(aes: Aes, key: Block, s: Pipe, actions: seq<Action>): (t: Pipe)
    requires InRange(s)
    ensures InRange(t)
    decreases |actions|
  {
    if actions == [] then s else Run(aes, key, Step(aes, key, s, actions[0]), actions[1..])
  }

  // The discipline of a lock-step pair: no write fails; the sender switches once its own frames are flushed; nothing is
  // sent while only one end has switched; and the receiver switches when it has decoded the last frame sent so far.
  predicate Legal(s: Pipe, a: Action) {
    match a
    case Send(body) => Sendable(body) && s.outMode.Encrypted? == s.inMode.Encrypted?
    case Flush(event) => !event.WriteFailed?
    case SwitchSender => s.outMode.Cleartext? && s.outBuf == []
    case SwitchReceiver => s.inMode.Cleartext? && |s.got| == |s.sent|
    case _ => true
  }

  predicate LegalRun(aes: Aes, key: Block, s: Pipe, actions: seq<Action>)
    requires InRange(s)
    decreases |actions|
  {
    actions == [] ||
    (Legal(s, actions[0]) && LegalRun(aes, key, Step(aes, key, s, actions[0]), actions[1..]))
  }

  // ---- The invariant ----

  ghost predicate SenderInv(aes: Aes, key: Block, s: Pipe) {
    && AllSendable(s.sent)
    && s.acked + s.outBuf == EncodeAll(s.sent)
    && (s.outMode.Cleartext? ==> InStep(aes, s.outMode, [], s.acked, s.outBuf, s.wire))
    && (s.outMode.Encrypted? ==>
          && s.outMode.key == key && s.cut <= |s.acked|
          && InStep(aes, s.outMode, s.acked[..s.cut], s.acked[s.cut..], s.outBuf, s.wire))
  }

  ghost predicate ReceiverInv(key: Block, s: Pipe) {
    && s.taken <= |s.wire| == |s.acked|
    && (s.inMode.Cleartext? && s.outMode.Encrypted? ==> s.cut == |s.acked| && s.outBuf == [])
    && (s.inMode.Encrypted? ==> s.inMode.key == key)
    && (s.inMode.Encrypted? && s.outMode.Cleartext? ==>
          s.taken == |s.wire| && s.outBuf == [] && s.inMode.decrypt == key)
    && (s.inMode.Encrypted? && s.outMode.Encrypted? ==>
          s.cut <= s.taken && s.inMode.decrypt == After(key, s.wire[s.cut..s.taken]))
  }

  // What was decoded, followed by what the buffer still yields, is the decoding of the plaintext that arrived.
  ghost predicate DecoderInv(s: Pipe) {
    && s.taken <= |s.acked|
    && Drain(Len, s.acked[..s.taken]) == Prepend(s.got, Drain(s.inState, s.inBuf))
  }

  ghost predicate Inv(aes: Aes, key: Block, s: Pipe) {
    SenderInv(aes, key, s) && ReceiverInv(key, s) && DecoderInv(s)
  }

  lemma IdleInv(aes: Aes, key: Block)
    ensures Inv(aes, key, IDLE)
  {
    assert IDLE.acked[..0] == [];
  }

  lemma SendKeepsSenderInv(aes: Aes, key: Block, s: Pipe, body: Bytes)
    requires SenderInv(aes, key, s) && Sendable(body)
    ensures SenderInv(aes, key, Step(aes, key, s, Send(body)))
  {
    var frame := FrameOf(body);
    SentGrows(s.sent, body, s.acked, s.outBuf);
    if s.outMode.Cleartext? {
      InStepExtend(aes, s.outMode, [], s.acked, s.outBuf, s.wire, frame);
    } else {
      InStepExtend(aes, s.outMode, s.acked[..s.cut], s.acked[s.cut..], s.outBuf, s.wire, frame);
    }
  }

  lemma SentGrows(sent: seq<Bytes>, body: Bytes, acked: Bytes, outBuf: Bytes)
    requires AllSendable(sent) && Sendable(body) && acked + outBuf == EncodeAll(sent)
    ensures AllSendable(sent + [body]) && acked + (outBuf + FrameOf(body)) == EncodeAll(sent + [body])
  {
    EncodeAllAppend(sent, [body]);
    EncodeOne(body);
    assert acked + (outBuf + FrameOf(body)) == acked + outBuf + FrameOf(body);
  }

  lemma EncodeOne(body: Bytes)
    ensures EncodeAll([body]) == FrameOf(body)
  {
    assert FrameOf(body) + [] == FrameOf(body);
  }

  lemma SendKeepsInv(aes: Aes, key: Block, s: Pipe, body: Bytes)
    requires Inv(aes, key, s) && Legal(s, Send(body))
    ensures Inv(aes, key, Step(aes, key, s, Send(body)))
  {
    SendKeepsSenderInv(aes, key, s, body);
    SendKeepsRest(key, s, s.(outBuf := s.outBuf + FrameOf(body), sent := s.sent + [body]));
  }

  lemma SendKeepsRest(key: Block, s: Pipe, t: Pipe)
    requires ReceiverInv(key, s) && DecoderInv(s) && s.outMode.Encrypted? == s.inMode.Encrypted?
    requires t == s.(outBuf := t.outBuf, sent := t.sent)
    ensures ReceiverInv(key, t) && DecoderInv(t)
  {
  }

  lemma FlushKeepsSenderInv(aes: Aes, key: Block, s: Pipe, event: WriteEvent)
    requires SenderInv(aes, key, s) && !event.WriteFailed?
    ensures var t := Flushed(aes, s, event);
      SenderInv(aes, key, t) && s.wire <= t.wire && s.acked <= t.acked && |t.wire| - |s.wire| == |t.acked| - |s.acked|
  {
    var w := WriteStep(aes, s.outMode, s.outBuf, event);
    var start := if s.outMode.Cleartext? then [] else s.acked[..s.cut];
    var acked := if s.outMode.Cleartext? then s.acked else s.acked[s.cut..];
    WriteStaysInStep(aes, s.outMode, start, acked, s.outBuf, s.wire, event);
    if w.poll.Ready? {
      AckKeepsCut(s.acked, s.outBuf, w.poll.value, s.cut);
    }
  }

  lemma AckKeepsCut(acked: Bytes, buf: Bytes, n: nat, cut: nat)
    requires n <= |buf|
    ensures acked + buf[..n] + buf[n..] == acked + buf
    ensures cut <= |acked| ==>
      (acked + buf[..n])[..cut] == acked[..cut] && (acked + buf[..n])[cut..] == acked[cut..] + buf[..n]
  {
    SplitEnds(acked, buf, n);
  }

  lemma FlushKeepsInv(aes: Aes, key: Block, s: Pipe, event: WriteEvent)
    requires Inv(aes, key, s) && Legal(s, Flush(event))
    ensures Inv(aes, key, Step(aes, key, s, Flush(event)))
  {
    if s.outBuf != [] {
      FlushKeepsSenderInv(aes, key, s, event);
      FlushKeepsRest(key, s, Flushed(aes, s, event));
    }
  }

  lemma FlushKeepsRest(key: Block, s: Pipe, t: Pipe)
    requires ReceiverInv(key, s) && DecoderInv(s) && s.outBuf != []
    requires t == s.(outMode := t.outMode, outBuf := t.outBuf, wire := t.wire, acked := t.acked)
    requires t.outMode.Encrypted? == s.outMode.Encrypted?
    requires s.wire <= t.wire && s.acked <= t.acked && |t.wire| == |t.acked|
    ensures ReceiverInv(key, t) && DecoderInv(t)
  {
    assert t.acked[..s.taken] == s.acked[..s.taken];
    assert t.wire[..s.taken] == s.wire[..s.taken];
    if s.cut <= s.taken {
      assert t.wire[s.cut..s.taken] == t.wire[..s.taken][s.cut..] == s.wire[s.cut..s.taken];
    }
  }

  lemma SwitchSenderKeepsInv(aes: Aes, key: Block, s: Pipe)
    requires Inv(aes, key, s) && Legal(s, SwitchSender)
    ensures Inv(aes, key, Step(aes, key, s, SwitchSender))
  {
    assert [] + s.acked == s.acked;
    assert s.acked[..|s.acked|] == s.acked && s.acked[|s.acked|..] == [];
    StartsInStep(aes, key, s.acked, []);
    assert After(key, []) == key;
  }

  // A stream that ends between frames and from whose front all its packets have been decoded has been read to the end.
  lemma AllOutMeansAllIn(a: Bytes, b: Bytes, packets: seq<Packet>, got: seq<Packet>, state: DecodeState, buf: Bytes)
    requires Drain(Len, a) == Prepend(got, Drain(state, buf))
    requires Drain(Len, a + b) == Drained(packets, Len, [], true) && |packets| == |got|
    ensures b == [] && state == Len && buf == [] && got == packets
  {
    DrainSplit(Len, a, b);
    DrainStable(Len, a);
    var d := Drain(state, buf);
    SilentMeansEmpty(d.state, d.rest + b);
    SilentMeansEmpty(state, buf);
  }

  // Only an empty buffer yields nothing and leaves the decoder between frames with nothing in hand.
  lemma SilentMeansEmpty(state: DecodeState, src: Bytes)
    ensures Drain(state, src) == Drained([], Len, [], true) ==> state == Len && src == []
  {
  }

  // Once the last frame sent has been decoded, nothing is buffered or on its way anywhere.
  lemma LastFrameDrains(aes: Aes, key: Block, s: Pipe)
    requires Inv(aes, key, s) && |s.got| == |s.sent|
    ensures s.outBuf == [] && s.taken == |s.wire| && s.inBuf == [] && s.inState == Len
    ensures s.got == PacketsOf(s.sent) && s.acked == EncodeAll(s.sent)
  {
    DrainEncodeAll(s.sent);
    AllDecodedMeansAllIn(EncodeAll(s.sent), PacketsOf(s.sent), s.acked, s.outBuf, s.taken, s.got, s.inState, s.inBuf);
  }

  lemma AllDecodedMeansAllIn(all: Bytes, packets: seq<Packet>, acked: Bytes, outBuf: Bytes, taken: nat,
                             got: seq<Packet>, state: DecodeState, buf: Bytes)
    requires Drain(Len, all) == Drained(packets, Len, [], true) && |got| == |packets|
    requires acked + outBuf == all && taken <= |acked|
    requires Drain(Len, acked[..taken]) == Prepend(got, Drain(state, buf))
    ensures outBuf == [] && taken == |acked| && state == Len && buf == []
    ensures got == packets && acked == all
  {
    NothingLeft(acked, outBuf, taken);
    AllOutMeansAllIn(acked[..taken], acked[taken..] + outBuf, packets, got, state, buf);
  }

  lemma NothingLeft(acked: Bytes, outBuf: Bytes, taken: nat)
    requires taken <= |acked|
    ensures acked[..taken] + (acked[taken..] + outBuf) == acked + outBuf
    ensures acked[taken..] + outBuf == [] ==> outBuf == [] && taken == |acked| && acked + outBuf == acked
  {
    assert acked == acked[..taken] + acked[taken..];
    if acked[taken..] + outBuf == [] {
      assert |acked[taken..] + outBuf| == |acked| - taken + |outBuf|;
    }
  }

  lemma SwitchReceiverKeepsInv(aes: Aes, key: Block, s: Pipe)
    requires Inv(aes, key, s) && Legal(s, SwitchReceiver)
    ensures Inv(aes, key, Step(aes, key, s, SwitchReceiver))
  {
    LastFrameDrains(aes, key, s);
    assert After(key, []) == key;
    if s.outMode.Encrypted? {
      assert s.wire[s.cut..s.taken] == [];
    }
  }

  // Any slice of a ciphertext decrypts to the same slice of the plaintext under the register its prefix leaves.
  lemma DecryptSlice(cipher: BlockCipher, key: Block, p: Bytes, i: nat, j: nat)
    requires i <= j <= |p|
    ensures var c := Encrypt(cipher, key, p); Decrypt(cipher, After(key, c[..i]), c[i..j]) == p[i..j]
  {
    var c := Encrypt(cipher, key, p);
    assert c[..j] == c[..i] + c[i..j];
    DecryptConcat(cipher, key, c[..i], c[i..j]);
    DecryptPrefix(cipher, key, p, i);
    DecryptPrefix(cipher, key, p, j);
    assert p[..j] == p[..i] + p[i..j];
  }

  // The wire in terms of the acknowledged plaintext: a clear part up to the sender's switch, then its encryption.
  lemma WireOfSender(aes: Aes, key: Block, s: Pipe)
    requires SenderInv(aes, key, s)
    ensures s.outMode.Cleartext? ==> s.wire == s.acked
    ensures s.outMode.Encrypted? ==>
      && s.wire == s.acked[..s.cut] + Encrypt(aes(key), key, s.acked[s.cut..])
      && (s.outBuf == [] ==> s.outMode.encrypt == After(key, Encrypt(aes(key), key, s.acked[s.cut..])))
  {
    if s.outMode.Cleartext? {
      WireIsAcked(aes, s.outMode, [], s.acked, s.outBuf, s.wire);
    } else {
      WireIsAcked(aes, s.outMode, s.acked[..s.cut], s.acked[s.cut..], s.outBuf, s.wire);
    }
  }

  lemma SplitSlices(wire: Bytes, clear: Bytes, c: Bytes, i: nat, j: nat)
    requires wire == clear + c && |clear| <= i <= j <= |wire|
    ensures wire[|clear|..i] == c[..i - |clear|]
    ensures wire[i..j] == c[i - |clear|..j - |clear|]
  {
  }

  // The receiver recovers exactly the plaintext that went out at this place of the stream, whichever ends have
  // switched.
  lemma DeliversPlaintext(aes: Aes, key: Block, s: Pipe, n: nat)
    requires SenderInv(aes, key, s) && ReceiverInv(key, s) && s.taken + n <= |s.wire|
    ensures Received(aes, s.inMode, s.wire[s.taken..s.taken + n]).1 == s.acked[s.taken..s.taken + n]
  {
    WireOfSender(aes, key, s);
    if s.outMode.Encrypted? {
      if s.inMode.Cleartext? {
        assert s.acked[s.cut..] == [] && s.acked[..s.cut] == s.acked;
      } else {
        DeliversSealed(aes(key), key, s.wire, s.acked, s.cut, s.taken, s.taken + n);
      }
    }
  }

  lemma DeliversSealed(cipher: BlockCipher, key: Block, wire: Bytes, acked: Bytes, cut: nat, i: nat, j: nat)
    requires cut <= i <= j <= |wire| == |acked|
    requires wire == acked[..cut] + Encrypt(cipher, key, acked[cut..])
    ensures Decrypt(cipher, After(key, wire[cut..i]), wire[i..j]) == acked[i..j]
  {
    var clear, hidden := acked[..cut], acked[cut..];
    assert acked == clear + hidden;
    SplitSlices(wire, clear, Encrypt(cipher, key, hidden), i, j);
    SplitSlices(acked, clear, hidden, i, j);
    DecryptSlice(cipher, key, hidden, i - cut, j - cut);
  }

  lemma DeliverKeepsDecoderInv(s: Pipe, t: Pipe)
    requires DecoderInv(s) && s.taken <= t.taken <= |s.acked|
    requires t == s.(taken := t.taken, inMode := t.inMode, inBuf := s.inBuf + s.acked[s.taken..t.taken])
    ensures DecoderInv(t)
  {
    var plain := s.acked[s.taken..t.taken];
    assert s.acked[..t.taken] == s.acked[..s.taken] + plain;
    DrainSplit(Len, s.acked[..s.taken], plain);
    DrainSplit(s.inState, s.inBuf, plain);
    ResumePrepend(s.got, Drain(s.inState, s.inBuf), plain);
  }

  lemma DeliverKeepsReceiverInv(aes: Aes, key: Block, s: Pipe, n: nat)
    requires ReceiverInv(key, s) && s.taken + n <= |s.wire|
    ensures ReceiverInv(key, DeliveredTo(aes, s, n))
  {
    if s.inMode.Encrypted? {
      var j := s.taken + n;
      assert n == 0 ==> s.wire[s.taken..j] == [] && After(s.inMode.decrypt, []) == s.inMode.decrypt;
      if s.outMode.Encrypted? {
        AfterConcat(key, s.wire[s.cut..s.taken], s.wire[s.taken..j]);
        assert s.wire[s.cut..s.taken] + s.wire[s.taken..j] == s.wire[s.cut..j];
      }
    }
  }

  lemma DeliverAddsPlaintext(aes: Aes, key: Block, s: Pipe, n: nat)
    requires SenderInv(aes, key, s) && ReceiverInv(key, s) && s.taken + n <= |s.wire|
    ensures var t := DeliveredTo(aes, s, n);
      t == s.(taken := s.taken + n, inMode := t.inMode, inBuf := s.inBuf + s.acked[s.taken..t.taken])
  {
    DeliversPlaintext(aes, key, s, n);
  }

  lemma DeliveredKeepsInv(aes: Aes, key: Block, s: Pipe, n: nat)
    requires Inv(aes, key, s) && s.taken + n <= |s.wire|
    ensures Inv(aes, key, DeliveredTo(aes, s, n))
  {
    var t := DeliveredTo(aes, s, n);
    DeliverAddsPlaintext(aes, key, s, n);
    DeliverKeepsDecoderInv(s, t);
    DeliverKeepsReceiverInv(aes, key, s, n);
    SenderInvOnSenderOnly(aes, key, s, t);
  }

  lemma DeliverStep(aes: Aes, key: Block, s: Pipe, most: nat)
    requires InRange(s) && s.taken <= |s.wire|
    ensures Step(aes, key, s, Deliver(most)) == DeliveredTo(aes, s, Min(most, |s.wire| - s.taken))
  {
  }

  lemma DeliverKeepsInv(aes: Aes, key: Block, s: Pipe, most: nat)
    requires Inv(aes, key, s)
    ensures Inv(aes, key, Step(aes, key, s, Deliver(most)))
  {
    DeliverStep(aes, key, s, most);
    DeliveredKeepsInv(aes, key, s, Min(most, |s.wire| - s.taken));
  }

  lemma SenderInvOnSenderOnly(aes: Aes, key: Block, s: Pipe, t: Pipe)
    requires SenderInv(aes, key, s)
    requires t == s.(taken := t.taken, inMode := t.inMode, inState := t.inState, inBuf := t.inBuf, got := t.got)
    ensures SenderInv(aes, key, t)
  {
  }

  lemma DecodeKeepsInv(aes: Aes, key: Block, s: Pipe)
    requires Inv(aes, key, s)
    ensures Inv(aes, key, Step(aes, key, s, Decode))
  {
    DecodeProgress(s.inState, s.inBuf);
    match DecodeStep(s.inState, s.inBuf) {
      case NeedMore(next, rest) => DrainSameStep(s.inState, s.inBuf, next, rest);
      case Emit(packet, rest) =>
        var d := Drain(Len, rest);
        assert s.got + ([packet] + d.packets) == s.got + [packet] + d.packets;
      case Malformed =>
    }
  }

  lemma StepKeepsInv(aes: Aes, key: Block, s: Pipe, a: Action)
    requires Inv(aes, key, s) && Legal(s, a)
    ensures Inv(aes, key, Step(aes, key, s, a))
  {
    match a {
      case Send(body) => SendKeepsInv(aes, key, s, body);
      case Flush(event) => FlushKeepsInv(aes, key, s, event);
      case SwitchSender => SwitchSenderKeepsInv(aes, key, s);
      case Deliver(most) => DeliverKeepsInv(aes, key, s, most);
      case Decode => DecodeKeepsInv(aes, key, s);
      case SwitchReceiver => SwitchReceiverKeepsInv(aes, key, s);
    }
  }

  lemma {:induction false} RunKeepsInv(aes: Aes, key: Block, s: Pipe, actions: seq<Action>)
    requires InRange(s) && Inv(aes, key, s) && LegalRun(aes, key, s, actions)
    ensures Inv(aes, key, Run(aes, key, s, actions))
    decreases |actions|
  {
    if actions != [] {
      StepKeepsInv(aes, key, s, actions[0]);
      RunKeepsInv(aes, key, Step(aes, key, s, actions[0]), actions[1..]);
    }
  }

  // ---- The theorems ----

  predicate Quiescent(s: Pipe) {
    s.outBuf == [] && s.taken == |s.wire| && DecodeStep(s.inState, s.inBuf).NeedMore?
  }

  // For every schedule of writes, reads, decode calls and switches of a lock-step pair: what has come out is a prefix
  // of what went in, in order, nothing lost, doubled or damaged.
  lemma PipeIsOrderly(aes: Aes, key: Block, actions: seq<Action>)
    requires LegalRun(aes, key, IDLE, actions)
    ensures var s := Run(aes, key, IDLE, actions); AllSendable(s.sent) && s.got <= PacketsOf(s.sent)
  {
    IdleInv(aes, key);
    RunKeepsInv(aes, key, IDLE, actions);
    var s := Run(aes, key, IDLE, actions);
    PrefixDecodesToPrefix(s.sent, s.taken);
    assert EncodeAll(s.sent)[..s.taken] == s.acked[..s.taken];
  }

  // Once the writer's buffer and the network are empty and the decoder has asked for more, everything sent has come
  // out, the decoder is between frames with an empty buffer, and the registers of the two ends agree.
  lemma PipeDelivers(aes: Aes, key: Block, actions: seq<Action>)
    requires LegalRun(aes, key, IDLE, actions) && Quiescent(Run(aes, key, IDLE, actions))
    ensures var s := Run(aes, key, IDLE, actions);
      && AllSendable(s.sent) && s.got == PacketsOf(s.sent)
      && s.inState == Len && s.inBuf == []
      && (s.outMode.Encrypted? && s.inMode.Encrypted? ==> s.outMode.encrypt == s.inMode.decrypt)
  {
    IdleInv(aes, key);
    RunKeepsInv(aes, key, IDLE, actions);
    var s := Run(aes, key, IDLE, actions);
    QuiescentDecoder(s);
    if s.outMode.Encrypted? && s.inMode.Encrypted? {
      RegistersAgree(aes, key, s);
    }
  }

  lemma QuiescentDecoder(s: Pipe)
    requires DecoderInv(s) && Quiescent(s) && AllSendable(s.sent) && s.acked + s.outBuf == EncodeAll(s.sent)
    requires |s.wire| == |s.acked|
    ensures s.got == PacketsOf(s.sent) && s.inState == Len && s.inBuf == []
  {
    assert s.acked[..s.taken] == s.acked == s.acked + s.outBuf;
    DrainEncodeAll(s.sent);
  }

  lemma RegistersAgree(aes: Aes, key: Block, s: Pipe)
    requires SenderInv(aes, key, s) && ReceiverInv(key, s) && s.outMode.Encrypted? && s.inMode.Encrypted?
    requires s.outBuf == [] && s.taken == |s.wire|
    ensures s.outMode.encrypt == s.inMode.decrypt
  {
    WireOfSender(aes, key, s);
    var c := Encrypt(aes(key), key, s.acked[s.cut..]);
    SplitSlices(s.wire, s.acked[..s.cut], c, s.taken, s.taken);
    assert c[..|c|] == c;
  }

  lemma {:induction false} SealedStaysSealed(aes: Aes, key: Block, s: Pipe, actions: seq<Action>)
    requires Inv(aes, key, s) && s.outMode.Encrypted? && LegalRun(aes, key, s, actions)
    ensures var t := Run(aes, key, s, actions);
      t.outMode.Encrypted? && t.cut == s.cut && s.wire <= t.wire && s.acked <= t.acked
    decreases |actions|
  {
    if actions != [] {
      StepKeepsInv(aes, key, s, actions[0]);
      SealedStep(aes, key, s, actions[0]);
      SealedStaysSealed(aes, key, Step(aes, key, s, actions[0]), actions[1..]);
    }
  }

  lemma SealedStep(aes: Aes, key: Block, s: Pipe, a: Action)
    requires Inv(aes, key, s) && s.outMode.Encrypted? && Legal(s, a)
    ensures var t := Step(aes, key, s, a);
      t.outMode.Encrypted? && t.cut == s.cut && s.wire <= t.wire && s.acked <= t.acked
  {
    if a.Flush? && s.outBuf != [] {
      FlushKeepsSenderInv(aes, key, s, a.event);
    }
  }

  // The sender's switch divides the wire: up to it every byte went in clear, and everything acknowledged after it is
  // one ciphertext under the key with the key as initialisation vector.
  lemma SwitchDividesWire(aes: Aes, key: Block, before: seq<Action>, after: seq<Action>)
    requires LegalRun(aes, key, IDLE, before) && Legal(Run(aes, key, IDLE, before), SwitchSender)
    requires LegalRun(aes, key, Step(aes, key, Run(aes, key, IDLE, before), SwitchSender), after)
    ensures var s := Run(aes, key, IDLE, before);
      var t := Run(aes, key, Step(aes, key, s, SwitchSender), after);
      && s.wire == s.acked && s.acked <= t.acked && s.wire <= t.wire
      && IsCfb8(aes(key), key, t.acked[|s.acked|..], t.wire[|s.wire|..])
  {
    IdleInv(aes, key);
    RunKeepsInv(aes, key, IDLE, before);
    var s := Run(aes, key, IDLE, before);
    StepKeepsInv(aes, key, s, SwitchSender);
    WireOfSender(aes, key, s);
    var u := Step(aes, key, s, SwitchSender);
    SealedStaysSealed(aes, key, u, after);
    RunKeepsInv(aes, key, u, after);
    var t := Run(aes, key, u, after);
    WireOfSender(aes, key, t);
    SealedTail(aes(key), key, t.wire, t.acked, t.cut);
  }

  lemma SealedTail(cipher: BlockCipher, key: Block, wire: Bytes, acked: Bytes, cut: nat)
    requires cut <= |acked| && wire == acked[..cut] + Encrypt(cipher, key, acked[cut..])
    ensures cut <= |wire| && IsCfb8(cipher, key, acked[cut..], wire[cut..])
  {
    assert wire[cut..] == Encrypt(cipher, key, acked[cut..]);
    EncryptIsCfb8(cipher, key, acked[cut..]);
  }

  // When the receiver switches, because it has decoded the last frame sent, its decoder is between frames, and neither
  // end nor the network holds a byte that the switch could lose or turn into noise.
  lemma SwitchAtFrameBoundary(aes: Aes, key: Block, actions: seq<Action>)
    requires LegalRun(aes, key, IDLE, actions) && Legal(Run(aes, key, IDLE, actions), SwitchReceiver)
    ensures var s := Run(aes, key, IDLE, actions);
      && s.inState == Len && AllSendable(s.sent) && s.got == PacketsOf(s.sent)
      && s.acked == EncodeAll(s.sent)
      && s.outBuf == [] && s.taken == |s.wire| && s.inBuf == []
  {
    IdleInv(aes, key);
    RunKeepsInv(aes, key, IDLE, actions);
    LastFrameDrains(aes, key, Run(aes, key, IDLE, actions));
  }

  // ---- Progress ----

  // Writer, network and decoder at work, with nothing new sent and no end switching.
  predicate IsTransport(a: Action) {
    a.Flush? || a.Deliver? || a.Decode?
  }

  // The actions that move something: a write that takes a byte, a delivery of a byte, a call that yields a packet.
  predicate Moves(s: Pipe, a: Action) {
    match a
    case Flush(event) => s.outBuf != [] && event.Accept? && event.most > 0
    case Deliver(most) => s.taken < |s.wire| && most > 0
    case Decode => DecodeStep(s.inState, s.inBuf).Emit?
    case _ => false
  }

  function InFlight(s: Pipe): nat {
    if s.taken <= |s.wire| then |s.wire| - s.taken else 0
  }

  // How far everything on its way still has to go.
  function Work(s: Pipe): nat {
    3 * |s.outBuf| + 2 * InFlight(s) + |s.inBuf|
  }

  // How many actions of a schedule move something.
  function Moving(aes: Aes, key: Block, s: Pipe, actions: seq<Action>): nat
    requires InRange(s)
    decreases |actions|
  {
    if actions == [] then 0
    else (if Moves(s, actions[0]) then 1 else 0) + Moving(aes, key, Step(aes, key, s, actions[0]), actions[1..])
  }

  lemma FlushWorks(aes: Aes, s: Pipe, event: WriteEvent)
    requires InRange(s) && s.outBuf != [] && s.taken <= |s.wire|
    ensures Work(Flushed(aes, s, event)) + (if Moves(s, Flush(event)) then 1 else 0) <= Work(s)
  {
  }

  lemma DeliverWorks(aes: Aes, s: Pipe, most: nat)
    requires s.taken <= |s.wire|
    ensures var n := Min(most, |s.wire| - s.taken);
      Work(DeliveredTo(aes, s, n)) + (if Moves(s, Deliver(most)) then 1 else 0) <= Work(s)
  {
  }

  lemma DecodeWorks(s: Pipe)
    ensures Work(Decoding(s)) + (if Moves(s, Decode) then 1 else 0) <= Work(s)
  {
    DecodeProgress(s.inState, s.inBuf);
  }

  lemma TransportWorks(aes: Aes, key: Block, s: Pipe, a: Action)
    requires InRange(s) && s.taken <= |s.wire| && IsTransport(a)
    ensures var t := Step(aes, key, s, a);
      t.sent == s.sent && Work(t) + (if Moves(s, a) then 1 else 0) <= Work(s)
  {
    match a {
      case Flush(event) => if s.outBuf != [] { FlushWorks(aes, s, event); }
      case Deliver(most) => DeliverWorks(aes, s, most);
      case Decode => DecodeWorks(s);
    }
  }

  // However writer, network and decoder take turns, they move things only so often before all is done.
  lemma {:induction false} TransportEnds(aes: Aes, key: Block, s: Pipe, actions: seq<Action>)
    requires Inv(aes, key, s) && LegalRun(aes, key, s, actions)
    requires forall i :: 0 <= i < |actions| ==> IsTransport(actions[i])
    ensures var t := Run(aes, key, s, actions);
      t.sent == s.sent && Moving(aes, key, s, actions) + Work(t) <= Work(s)
    decreases |actions|
  {
    if actions != [] {
      StepKeepsInv(aes, key, s, actions[0]);
      TransportWorks(aes, key, s, actions[0]);
      TransportEnds(aes, key, Step(aes, key, s, actions[0]), actions[1..]);
    }
  }

  // What is not done yet can be moved on: the decoder never chokes on what a peer sent.
  lemma StuckIsQuiescent(aes: Aes, key: Block, s: Pipe)
    requires Inv(aes, key, s)
    ensures Quiescent(s) <==> forall a :: !Moves(s, a)
  {
    if !Quiescent(s) {
      DecoderNeverFails(aes, key, s);
      assert Moves(s, Flush(Accept(1))) || Moves(s, Deliver(1)) || Moves(s, Decode);
    }
  }

  lemma DecoderNeverFails(aes: Aes, key: Block, s: Pipe)
    requires Inv(aes, key, s)
    ensures !DecodeStep(s.inState, s.inBuf).Malformed?
  {
    PrefixDecodesToPrefix(s.sent, s.taken);
    assert EncodeAll(s.sent)[..s.taken] == s.acked[..s.taken];
  }

  // From any point of a lock-step run, let writer, network and decoder take turns in any order: they move things at
  // most Work times, and when nothing moves any more, everything sent has come out.
  lemma TransportDelivers(aes: Aes, key: Block, actions: seq<Action>, more: seq<Action>)
    requires LegalRun(aes, key, IDLE, actions) && LegalRun(aes, key, Run(aes, key, IDLE, actions), more)
    requires forall i :: 0 <= i < |more| ==> IsTransport(more[i])
    ensures var s := Run(aes, key, IDLE, actions); var t := Run(aes, key, s, more);
      && AllSendable(s.sent)
      && Moving(aes, key, s, more) <= Work(s)
      && ((forall a :: !Moves(t, a)) ==> t.got == PacketsOf(s.sent))
  {
    IdleInv(aes, key);
    RunKeepsInv(aes, key, IDLE, actions);
    var s := Run(aes, key, IDLE, actions);
    RunKeepsInv(aes, key, s, more);
    TransportEnds(aes, key, s, more);
    var t := Run(aes, key, s, more);
    StuckIsQuiescent(aes, key, t);
    if Quiescent(t) {
      QuiescentDecoder(t);
    }
  }

  // And there is always such a schedule that delivers everything.
  lemma {:induction false} CanCatchUp(aes: Aes, key: Block, s: Pipe) returns (more: seq<Action>)
    requires Inv(aes, key, s)
    ensures LegalRun(aes, key, s, more) && |more| <= Work(s)
    ensures var t := Run(aes, key, s, more); t.sent == s.sent && AllSendable(s.sent) && t.got == PacketsOf(s.sent)
    decreases Work(s)
  {
    StuckIsQuiescent(aes, key, s);
    if Quiescent(s) {
      QuiescentDecoder(s);
      more := [];
    } else {
      DecoderNeverFails(aes, key, s);
      var a :=
        if Moves(s, Flush(Accept(1))) then Flush(Accept(1)) else if Moves(s, Deliver(1)) then Deliver(1) else Decode;
      TransportWorks(aes, key, s, a);
      StepKeepsInv(aes, key, s, a);
      var rest := CanCatchUp(aes, key, Step(aes, key, s, a));
      more := [a] + rest;
      assert more[1..] == rest;
    }
  }
}

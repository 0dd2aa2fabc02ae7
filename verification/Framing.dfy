// Framed: a socket with a codec, a read buffer and a write buffer. Sending flushes; reading decodes what is buffered
// and polls the socket for more.
module Framing {
  import opened Common
  import opened Cfb8
  import opened Codec
  import opened Sockets
  import opened WriterTheory

  // ---- Sending ----

  function ClearPart(handed: seq<Handed>): Bytes {
    if handed == [] then []
    else
      var n := |handed| - 1;
      ClearPart(handed[..n]) + if handed[n].key.None? then handed[n].frame else []
  }

  function SealedPart(handed: seq<Handed>): Bytes {
    if handed == [] then []
    else
      var n := |handed| - 1;
      SealedPart(handed[..n]) + if handed[n].key.Some? then handed[n].frame else []
  }

  // The frames handed over so far went out under this key, after others that went out in clear.
  ghost predicate KeysAgree(handed: seq<Handed>, key: Option<Block>) {
    handed == [] ||
    (var n := |handed| - 1;
      if handed[n].key.Some? then handed[n].key == key && KeysAgree(handed[..n], key) else AllClear(handed))
  }

  ghost predicate AllClear(handed: seq<Handed>) {
    forall i :: 0 <= i < |handed| ==> handed[i].key.None?
  }

  // Between sends, as long as none failed: the wire is the clear frames followed by one continuous encryption of the
  // others, nothing is pending, and the register is the one after all of it.
  ghost predicate Flushed(aes: Aes, m: Mode, handed: seq<Handed>, wire: Bytes) {
    && KeysAgree(handed, KeyOf(m))
    && Pend(m) == []
    && wire == ClearPart(handed) + Seal(aes, KeyOf(m), SealedPart(handed))
    && (m.Encrypted? ==> m.encrypt == After(m.key, Seal(aes, KeyOf(m), SealedPart(handed))))
    && (m.Cleartext? ==> SealedPart(handed) == [])
  }

  // The same, whatever socket the stream was last owned through.
  ghost predicate Accounted(aes: Aes, handed: seq<Handed>, wire: Bytes) {
    exists key: Option<Block> ::
      KeysAgree(handed, key) && wire == ClearPart(handed) + Seal(aes, key, SealedPart(handed))
  }

  // While a send is being flushed: acked is what the socket has acknowledged under its present mode.
  ghost predicate Flushing(aes: Aes, m: Mode, handed: seq<Handed>, acked: Bytes, buf: Bytes, wire: Bytes) {
    && KeysAgree(handed, KeyOf(m))
    && (m.Cleartext? ==>
          SealedPart(handed) == [] && acked + buf == ClearPart(handed) && InStep(aes, m, [], acked, buf, wire))
    && (m.Encrypted? ==>
          acked + buf == SealedPart(handed) && InStep(aes, m, ClearPart(handed), acked, buf, wire))
  }

  function Acked(m: Mode, handed: seq<Handed>): Bytes {
    if m.Cleartext? then ClearPart(handed) else SealedPart(handed)
  }

  lemma StartFlushing(aes: Aes, m: Mode, handed: seq<Handed>, wire: Bytes, frame: Bytes)
    requires Flushed(aes, m, handed, wire)
    ensures Flushing(aes, m, handed + [Handed(KeyOf(m), frame)], Acked(m, handed), frame, wire)
  {
    RecordHandOver(handed, Handed(KeyOf(m), frame), KeyOf(m));
    StartFlushingAll(aes, m, handed, wire, frame, handed + [Handed(KeyOf(m), frame)]);
  }

  lemma StartFlushingAll(aes: Aes, m: Mode, handed: seq<Handed>, wire: Bytes, frame: Bytes, all: seq<Handed>)
    requires Flushed(aes, m, handed, wire) && KeysAgree(all, KeyOf(m))
    requires ClearPart(all) == ClearPart(handed) + if m.Cleartext? then frame else []
    requires SealedPart(all) == SealedPart(handed) + if m.Encrypted? then frame else []
    ensures Flushing(aes, m, all, Acked(m, handed), frame, wire)
  {
    if m.Cleartext? {
      StartClear(aes, ClearPart(handed), frame, wire);
    } else {
      StartSealed(aes, m, ClearPart(handed), SealedPart(handed), frame, wire);
      assert ClearPart(handed) + [] == ClearPart(handed);
    }
  }

  lemma StartClear(aes: Aes, clear: Bytes, frame: Bytes, wire: Bytes)
    requires wire == clear + []
    ensures InStep(aes, Cleartext, [], clear, frame, wire)
  {
    assert wire == [] + clear;
  }

  lemma StartSealed(aes: Aes, m: Mode, clear: Bytes, hidden: Bytes, frame: Bytes, wire: Bytes)
    requires m.Encrypted? && Pend(m) == [] && wire == clear + Seal(aes, KeyOf(m), hidden)
    requires m.encrypt == After(m.key, Seal(aes, KeyOf(m), hidden))
    ensures InStep(aes, m, clear, hidden, frame, wire)
  {
    assert hidden + frame[..0] == hidden;
    assert wire + [] == wire;
  }

  lemma RecordHandOver(handed: seq<Handed>, next: Handed, key: Option<Block>)
    requires KeysAgree(handed, key) && next.key == key
    requires key.None? ==> AllClear(handed)
    ensures KeysAgree(handed + [next], key)
    ensures ClearPart(handed + [next]) == ClearPart(handed) + if next.key.None? then next.frame else []
    ensures SealedPart(handed + [next]) == SealedPart(handed) + if next.key.Some? then next.frame else []
  {
    assert (handed + [next])[..|handed|] == handed;
  }

  lemma EndFlushing(aes: Aes, m: Mode, handed: seq<Handed>, acked: Bytes, wire: Bytes)
    requires Flushing(aes, m, handed, acked, [], wire)
    ensures Flushed(aes, m, handed, wire)
  {
    assert acked + [] == acked;
    if m.Cleartext? {
      WireIsAcked(aes, m, [], acked, [], wire);
      assert ClearPart(handed) + [] == [] + acked;
    } else {
      WireIsAcked(aes, m, ClearPart(handed), acked, [], wire);
    }
  }

  lemma WriteKeepsFlushing(aes: Aes, m: Mode, handed: seq<Handed>, acked: Bytes, buf: Bytes, wire: Bytes,
                           event: WriteEvent)
    requires Flushing(aes, m, handed, acked, buf, wire) && !event.WriteFailed?
    ensures |Pend(m)| <= |buf|
    ensures var w := WriteStep(aes, m, buf, event);
      match w.poll
      case Ready(n) => n <= |buf| && Flushing(aes, w.mode, handed, acked + buf[..n], buf[n..], wire + w.sent)
      case _ => Flushing(aes, w.mode, handed, acked, buf, wire + w.sent)
  {
    var w := WriteStep(aes, m, buf, event);
    WriteStaysInStep(aes, m, if m.Cleartext? then [] else ClearPart(handed), acked, buf, wire, event);
    if w.poll.Ready? {
      SplitEnds(acked, buf, w.poll.value);
    }
  }

  // Encryption set up at a moment when everything is flushed keeps the account of the wire.
  lemma SwitchKeepsFlushed(aes: Aes, key: Block, handed: seq<Handed>, wire: Bytes)
    requires Flushed(aes, Cleartext, handed, wire)
    ensures Flushed(aes, FreshMode(key), handed, wire)
  {
    assert After(key, []) == key;
  }

  // ---- Reading ----

  // The receiving half: what the next frames depend on.
  datatype ReadEnd = ReadEnd(mode: Mode, state: DecodeState, buf: Bytes, arrivals: seq<ReadEvent>)

  // The mode as far as reading is concerned, with the writing half as it was when encryption began.
  function Reader(m: Mode): Mode {
    if m.Cleartext? then m else Encrypted(m.key, m.decrypt, m.key, None)
  }

  // Ended covers a malformed frame, a read error, the end of the stream and the timer: no frame will come.
  datatype Next = Item(packet: Packet) | NoFrameYet | Ended

  // One poll for a frame. After Ended the state is of no interest.
  function PollStep(aes: Aes, e: ReadEnd): (r: (Next, ReadEnd))
    ensures r.0.NoFrameYet? ==>
      |r.1.arrivals| < |e.arrivals| || (|r.1.arrivals| == |e.arrivals| > 0 && r.1.arrivals[0].Elapsed?)
    decreases |e.arrivals|
  {
    match DecodeStep(e.state, e.buf)
    case Emit(packet, rest) => (Item(packet), e.(state := Len, buf := rest))
    case Malformed => (Ended, e)
    case NeedMore(next, rest) =>
      var (mode, plain) := Received(aes, e.mode, Delivered(e.arrivals));
      var e' := ReadEnd(mode, next, rest + plain, ArrivalsLeft(e.arrivals));
      match ReadResult(e.arrivals)
      case Pending => (NoFrameYet, e')
      case Broken => (Ended, e')
      case Ready(_) => if plain == [] then (Ended, e') else PollStep(aes, e')
  }

  // The next frame, waiting for as long as the timer allows.
  function NextFrame(aes: Aes, e: ReadEnd): (r: (Next, ReadEnd))
    ensures !r.0.NoFrameYet?
    decreases |e.arrivals|
  {
    var (next, e') := PollStep(aes, e);
    if !next.NoFrameYet? then (next, e')
    else if e'.arrivals != [] && e'.arrivals[0].Elapsed? then (Ended, e'.(arrivals := e'.arrivals[1..]))
    else NextFrame(aes, e')
  }

  // A write leaves the receiving half of the socket as it was.
  predicate SameReader(m: Mode, n: Mode) {
    KeyOf(m) == KeyOf(n) && (m.Encrypted? && n.Encrypted? ==> m.decrypt == n.decrypt)
  }

  // How much may wait in the write buffer before a send flushes ahead of encoding.
  const BACKPRESSURE := 8192

  class Framed {
    const io: MCSocket
    const codec: MCCodec
    const readBuf: BytesMut
    const writeBuf: BytesMut

    // Every owner of the connection keeps this between its calls. It holds after a failed write, too: then the write
    // buffer and the wire are no longer described, but a later write is still in range.
    ghost predicate Valid()
      reads io, io.stream, readBuf, writeBuf
    {
      && readBuf != writeBuf
      && |Pend(io.mode)| <= |writeBuf.data|
      && (!io.stream.lost ==>
            writeBuf.data == [] && Flushed(io.aes, io.mode, io.stream.handed, io.stream.wire))
    }

    ghost function End(): ReadEnd
      reads io, io.stream, codec, readBuf
    {
      ReadEnd(Reader(io.mode), codec.state, readBuf.data, io.stream.arrivals)
    }

    // A framer over a socket and a codec, with empty buffers: whatever an earlier framer had buffered is not in it.
    constructor FromParts(io: MCSocket, codec: MCCodec)
      requires |Pend(io.mode)| == 0
      requires !io.stream.lost ==> Flushed(io.aes, io.mode, io.stream.handed, io.stream.wire)
      ensures this.io == io && this.codec == codec && Valid()
      ensures fresh(readBuf) && fresh(writeBuf)
      ensures readBuf.data == [] && writeBuf.data == []
    {
      this.io, this.codec := io, codec;
      var r := new BytesMut();
      var w := new BytesMut();
      this.readBuf, this.writeBuf := r, w;
    }

    // One write of the whole buffer; what the socket acknowledges is dropped from its front.
    method WriteOnce(ghost acked: Bytes) returns (poll: Poll<nat>, ghost now: Bytes)
      requires |Pend(io.mode)| <= |writeBuf.data|
      requires !io.stream.lost ==>
        Flushing(io.aes, io.mode, io.stream.handed, acked, writeBuf.data, io.stream.wire)
      modifies io`mode, io.stream`grants, io.stream`wire, writeBuf
      ensures |Pend(io.mode)| <= |writeBuf.data| && SameReader(old(io.mode), io.mode)
      ensures !io.stream.lost && !poll.Broken? ==>
        Flushing(io.aes, io.mode, io.stream.handed, now, writeBuf.data, io.stream.wire)
      ensures io.stream.grants == Rest(old(io.stream.grants))
      ensures old(io.stream.grants) == [] ==> poll == Ready(|old(writeBuf.data)|)
      ensures poll.Ready? ==> poll.value <= |old(writeBuf.data)| && writeBuf.data == old(writeBuf.data)[poll.value..]
      ensures !poll.Ready? ==> writeBuf.data == old(writeBuf.data)
      ensures Willing(old(io.stream.grants)) && old(writeBuf.data) != [] ==>
        poll.Pending? || (poll.Ready? && poll.value > 0)
    {
      ghost var m, buf, wire := io.mode, writeBuf.data, io.stream.wire;
      ghost var event := NextWrite(io.stream.grants, |buf|);
      WriteKeepsPendingWithin(io.aes, m, buf, event);
      if !io.stream.lost && !event.WriteFailed? {
        WriteKeepsFlushing(io.aes, m, io.stream.handed, acked, buf, wire, event);
      }
      poll := io.PollWrite(writeBuf.data);
      now := acked;
      if poll.Ready? {
        writeBuf.Advance(poll.value);
        now := acked + buf[..poll.value];
      }
    }

    // Writes until the buffer is empty or a write fails.
    method Flush(ghost from: Bytes) returns (ok: bool)
      requires |Pend(io.mode)| <= |writeBuf.data|
      requires !io.stream.lost ==>
        Flushing(io.aes, io.mode, io.stream.handed, from, writeBuf.data, io.stream.wire)
      modifies io`mode, io.stream`grants, io.stream`wire, io.stream`lost, writeBuf
      ensures |Pend(io.mode)| <= |writeBuf.data|
      ensures !io.stream.lost ==>
        writeBuf.data == [] && Flushed(io.aes, io.mode, io.stream.handed, io.stream.wire)
      ensures SameReader(old(io.mode), io.mode)
      ensures io.stream.lost == (old(io.stream.lost) || !ok)
      ensures Willing(old(io.stream.grants)) ==> ok && Willing(io.stream.grants)
    {
      ghost var acked := from;
      while writeBuf.data != []
        invariant |Pend(io.mode)| <= |writeBuf.data|
        invariant SameReader(old(io.mode), io.mode)
        invariant io.stream.lost == old(io.stream.lost)
        invariant Willing(old(io.stream.grants)) ==> Willing(io.stream.grants)
        invariant !io.stream.lost ==>
          Flushing(io.aes, io.mode, io.stream.handed, acked, writeBuf.data, io.stream.wire)
        decreases |io.stream.grants|, |writeBuf.data|
      {
        var poll;
        poll, acked := WriteOnce(acked);
        if poll.Broken? || (poll.Ready? && poll.value == 0) {
          io.stream.lost := true;
          return false;
        }
      }
      if !io.stream.lost {
        EndFlushing(io.aes, io.mode, io.stream.handed, acked, io.stream.wire);
      }
      return true;
    }

    // Encodes the body behind whatever the buffer still holds and flushes. When a failed write has left much there,
    // that is flushed first, and if this fails again nothing is encoded; the frame counts as handed over either way.
    method Send(body: Bytes) returns (ok: bool)
      requires Valid()
      modifies io`mode, io.stream`grants, io.stream`wire, io.stream`handed, io.stream`lost, writeBuf
      ensures Valid()
      ensures io.stream.handed == old(io.stream.handed) + [Handed(KeyOf(old(io.mode)), FrameOf(body))]
      ensures SameReader(old(io.mode), io.mode)
      ensures io.stream.lost == (old(io.stream.lost) || !ok)
      ensures Willing(old(io.stream.grants)) ==> ok && Willing(io.stream.grants)
    {
      ghost var acked := Acked(io.mode, io.stream.handed);
      if !io.stream.lost {
        StartFlushing(io.aes, io.mode, io.stream.handed, io.stream.wire, FrameOf(body));
        assert [] + FrameOf(body) == FrameOf(body);
      }
      io.stream.handed := io.stream.handed + [Handed(KeyOf(io.mode), FrameOf(body))];
      if |writeBuf.data| >= BACKPRESSURE {
        ok := Flush(acked);
        if !ok {
          return false;
        }
      }
      codec.Encode(body, writeBuf);
      ok := Flush(acked);
    }

    // One poll of the socket for more bytes; what it delivers goes to the end of the read buffer.
    method Fill() returns (poll: Poll<nat>)
      requires Valid()
      modifies io`mode, io.stream`arrivals, readBuf
      ensures Valid() && KeyOf(io.mode) == KeyOf(old(io.mode))
      ensures var (mode, plain) := Received(io.aes, old(io.mode), Delivered(old(io.stream.arrivals)));
        && io.mode == mode && readBuf.data == old(readBuf.data) + plain
        && io.stream.arrivals == ArrivalsLeft(old(io.stream.arrivals))
        && match ReadResult(old(io.stream.arrivals))
           case Pending => poll == Pending
           case Broken => poll == Broken
           case Ready(_) => poll == Ready(|plain|)
    {
      var spare := new ReadBuf(|Delivered(io.stream.arrivals)|);
      var result := io.PollRead(spare);
      assert readBuf.data + [] == readBuf.data;
      match result {
        case Pending => poll := Pending;
        case Broken => poll := Broken;
        case Ready(_) =>
          readBuf.Extend(spare.data[..spare.filled]);
          poll := Ready(spare.filled);
      }
    }

    // One poll of the stream of frames.
    method PollNext() returns (next: Next)
      requires Valid()
      modifies io`mode, io.stream`arrivals, codec, readBuf
      ensures Valid()
      ensures KeyOf(io.mode) == KeyOf(old(io.mode))
      ensures var (r, e) := PollStep(io.aes, old(End()));
        next == r && (!next.Ended? ==> End() == e)
    {
      while true
        invariant Valid() && KeyOf(io.mode) == KeyOf(old(io.mode))
        invariant PollStep(io.aes, End()) == PollStep(io.aes, old(End()))
        decreases |io.stream.arrivals|
      {
        var decoded := codec.Decode(readBuf);
        match decoded {
          case Frame(packet) => return Item(packet);
          case Failed => return Ended;
          case Nothing =>
        }
        var poll := Fill();
        match poll {
          case Pending => return NoFrameYet;
          case Broken => return Ended;
          case Ready(n) =>
            if n == 0 {
              return Ended;
            }
        }
      }
    }
  }
}

// What the bytes on the wire are, in terms of the plaintext the caller has been told is written.
module WriterTheory {
  import opened Common
  import opened Cfb8
  import opened Sockets

  // acked is the plaintext acknowledged since start was the whole of the wire, buf the caller's unacknowledged bytes.
  // The wire with the pending ciphertext is the encryption of acked and of exactly the bytes of buf that the pending
  // ciphertext stands for, and the register is the one after precisely that plaintext.
  ghost predicate InStep(aes: Aes, m: Mode, start: Bytes, acked: Bytes, buf: Bytes, wire: Bytes) {
    && |Pend(m)| <= |buf|
    && |wire| == |start| + |acked|
    && match m
       case Cleartext => wire == start + acked
       case Encrypted(key, _, reg, _) =>
         var c := Encrypt(aes(key), key, acked + buf[..|Pend(m)|]);
         wire + Pend(m) == start + c && reg == After(key, c)
  }

  // The ciphertext of p under m's key, or p itself in clear.
  function Seal(aes: Aes, key: Option<Block>, p: Bytes): (c: Bytes)
    ensures |c| == |p|
  {
    if key.Some? then Encrypt(aes(key.value), key.value, p) else p
  }

  // The wire carries the acknowledged plaintext and nothing else, encrypted once.
  lemma WireIsAcked(aes: Aes, m: Mode, start: Bytes, acked: Bytes, buf: Bytes, wire: Bytes)
    requires InStep(aes, m, start, acked, buf, wire)
    ensures wire == start + Seal(aes, KeyOf(m), acked)
    ensures m.Encrypted? && Pend(m) == [] ==> m.encrypt == After(m.key, Seal(aes, KeyOf(m), acked))
  {
    if m.Encrypted? {
      var p := acked + buf[..|Pend(m)|];
      assert p[..|acked|] == acked;
      DecryptPrefix(aes(m.key), m.key, p, |acked|);
      var c := Encrypt(aes(m.key), m.key, p);
      assert wire == (wire + Pend(m))[..|wire|] == (start + c)[..|wire|] == start + c[..|acked|];
      if Pend(m) == [] {
        assert p == acked;
      }
    }
  }

  lemma StartsInStep(aes: Aes, key: Block, wire: Bytes, buf: Bytes)
    ensures InStep(aes, FreshMode(key), wire, [], buf, wire)
    ensures InStep(aes, Cleartext, [], wire, buf, wire)
  {
    assert After(key, []) == key;
    assert [] + buf[..0] == [];
    assert [] + wire == wire;
  }

  // The buffer may be extended between writes.
  lemma InStepExtend(aes: Aes, m: Mode, start: Bytes, acked: Bytes, buf: Bytes, wire: Bytes, more: Bytes)
    requires InStep(aes, m, start, acked, buf, wire)
    ensures InStep(aes, m, start, acked, buf + more, wire)
  {
    assert (buf + more)[..|Pend(m)|] == buf[..|Pend(m)|];
  }

  // What a write offers is the ciphertext of the whole buffer, continued from the acknowledged plaintext; the part
  // that was already encrypted is not encrypted again.
  lemma OfferedInStep(aes: Aes, m: Mode, start: Bytes, acked: Bytes, buf: Bytes, wire: Bytes)
    requires InStep(aes, m, start, acked, buf, wire)
    ensures var out := Offered(aes, m, buf);
      && wire + out == start + Seal(aes, KeyOf(m), acked + buf)
      && (m.Encrypted? ==> After(m.encrypt, out[|Pend(m)|..]) == After(m.key, Seal(aes, KeyOf(m), acked + buf)))
  {
    match m {
      case Cleartext =>
        assert wire + buf == start + (acked + buf);
      case Encrypted(key, _, reg, _) =>
        var k := |Pend(m)|;
        var d := Encrypt(aes(key), reg, buf[k..]);
        SealContinues(aes(key), key, acked + buf[..k], reg, buf[k..]);
        assert acked + buf == acked + buf[..k] + buf[k..];
        assert (Pend(m) + d)[k..] == d;
        AppendSealed(wire, Pend(m), d, start, Encrypt(aes(key), key, acked + buf[..k]));
    }
  }

  lemma AppendSealed(wire: Bytes, pending: Bytes, d: Bytes, start: Bytes, c: Bytes)
    requires wire + pending == start + c
    ensures wire + (pending + d) == start + (c + d)
  {
    assert wire + (pending + d) == wire + pending + d;
    assert start + (c + d) == start + c + d;
  }

  // Encryption goes on from the register as if it had never stopped.
  lemma SealContinues(cipher: BlockCipher, key: Block, p: Bytes, reg: Block, more: Bytes)
    requires reg == After(key, Encrypt(cipher, key, p))
    ensures Encrypt(cipher, key, p + more) == Encrypt(cipher, key, p) + Encrypt(cipher, reg, more)
    ensures After(reg, Encrypt(cipher, reg, more)) == After(key, Encrypt(cipher, key, p + more))
  {
    EncryptConcat(cipher, key, p, more);
    AfterConcat(key, Encrypt(cipher, key, p), Encrypt(cipher, reg, more));
  }

  // One write keeps everything in step, whatever the stream accepts: after Pending the buffer must stay, after
  // Ready(n) its first n bytes are acknowledged. The count never exceeds the buffer.
  lemma WriteStaysInStep(aes: Aes, m: Mode, start: Bytes, acked: Bytes, buf: Bytes, wire: Bytes, event: WriteEvent)
    requires InStep(aes, m, start, acked, buf, wire)
    requires !event.WriteFailed?
    ensures var w := WriteStep(aes, m, buf, event);
      match w.poll
      case Pending => InStep(aes, w.mode, start, acked, buf, wire + w.sent)
      case Ready(n) => n <= |buf| && InStep(aes, w.mode, start, acked + buf[..n], buf[n..], wire + w.sent)
      case Broken => false
  {
    if m.Encrypted? {
      SealedWriteStaysInStep(aes, m, start, acked, buf, wire, event);
    } else if event.Busy? {
      assert wire + [] == wire;
    } else {
      var n := Min(event.most, |buf|);
      assert wire + buf[..n] == start + (acked + buf[..n]);
    }
  }

  lemma SealedWriteStaysInStep(aes: Aes, m: Mode, start: Bytes, acked: Bytes, buf: Bytes, wire: Bytes,
                               event: WriteEvent)
    requires InStep(aes, m, start, acked, buf, wire)
    requires m.Encrypted? && !event.WriteFailed?
    ensures var w := WriteStep(aes, m, buf, event);
      match w.poll
      case Pending => InStep(aes, w.mode, start, acked, buf, wire + w.sent)
      case Ready(n) => n <= |buf| && InStep(aes, w.mode, start, acked + buf[..n], buf[n..], wire + w.sent)
      case Broken => false
  {
    OfferedInStep(aes, m, start, acked, buf, wire);
    var out := Offered(aes, m, buf);
    var w := WriteStep(aes, m, buf, event);
    if event.Busy? {
      assert wire + [] == wire;
      HeldInStep(aes, w.mode, start, acked, buf, wire, out);
    } else {
      var n := Min(event.most, |out|);
      assert Pend(w.mode) == out[n..];
      TakenInStep(aes, w.mode, start, acked, buf, wire, out, n);
    }
  }

  lemma HeldInStep(aes: Aes, m: Mode, start: Bytes, acked: Bytes, buf: Bytes, wire: Bytes, out: Bytes)
    requires m.Encrypted? && |out| == |buf| && Pend(m) == out && |wire| == |start| + |acked|
    requires wire + out == start + Seal(aes, KeyOf(m), acked + buf)
    requires m.encrypt == After(m.key, Seal(aes, KeyOf(m), acked + buf))
    ensures InStep(aes, m, start, acked, buf, wire)
  {
    assert buf[..|buf|] == buf;
  }

  lemma TakenInStep(aes: Aes, m: Mode, start: Bytes, acked: Bytes, buf: Bytes, wire: Bytes, out: Bytes, n: nat)
    requires m.Encrypted? && n <= |out| == |buf| && Pend(m) == out[n..] && |wire| == |start| + |acked|
    requires wire + out == start + Seal(aes, KeyOf(m), acked + buf)
    requires m.encrypt == After(m.key, Seal(aes, KeyOf(m), acked + buf))
    ensures InStep(aes, m, start, acked + buf[..n], buf[n..], wire + out[..n])
  {
    SplitEnds(wire, out, n);
    SplitEnds(acked, buf, n);
  }

  lemma SplitEnds(a: Bytes, b: Bytes, n: nat)
    requires n <= |b|
    ensures a + b[..n] + b[n..] == a + b
    ensures b[n..][..|b| - n] == b[n..]
    ensures n == |b| ==> b[n..] == []
  {
    assert b[..n] + b[n..] == b;
    assert a + b[..n] + b[n..] == a + (b[..n] + b[n..]);
  }

  // After a failed write nothing is pending, so the next write is still in range.
  lemma WriteKeepsPendingWithin(aes: Aes, m: Mode, buf: Bytes, event: WriteEvent)
    requires |Pend(m)| <= |buf|
    ensures var w := WriteStep(aes, m, buf, event);
      |Pend(w.mode)| <= |buf| - (if w.poll.Ready? then w.poll.value else 0)
  {
  }

  // One write in the terms of the standard: the bytes of buf behind the pending ciphertext are encrypted from the
  // register as it stands, which moves on by exactly these bytes, whatever the stream does; and what the stream does
  // not take is kept, in order, except when the write fails.
  lemma WriteSealsOnce(aes: Aes, m: Mode, buf: Bytes, event: WriteEvent) returns (added: Bytes)
    requires m.Encrypted? && |Pend(m)| <= |buf|
    ensures IsCfb8(aes(m.key), m.encrypt, buf[|Pend(m)|..], added)
    ensures var w := WriteStep(aes, m, buf, event);
      && w.mode.Encrypted? && w.mode.key == m.key && w.mode.decrypt == m.decrypt
      && w.mode.encrypt == (m.encrypt + added)[|added|..|added| + 16]
      && match event
         case Busy => w.poll == Pending && w.sent == [] && Pend(w.mode) == Pend(m) + added
         case WriteFailed => w.poll == Broken && w.sent == [] && Pend(w.mode) == []
         case Accept(most) =>
           && w.poll == Ready(|w.sent|) && w.sent + Pend(w.mode) == Pend(m) + added
           && |w.sent| == if most < |buf| then most else |buf|
  {
    added := Encrypt(aes(m.key), m.encrypt, buf[|Pend(m)|..]);
    EncryptIsCfb8(aes(m.key), m.encrypt, buf[|Pend(m)|..]);
    RegisterAfter(m.encrypt, added);
    var out := Pend(m) + added;
    assert out[|Pend(m)|..] == added;
    if event.Accept? {
      var n := Min(event.most, |out|);
      assert out[..n] + out[n..] == out;
    }
  }

  // ---- Whole runs of a writer ----

  // A caller's buffer in front of an encrypted socket. given is everything the caller ever appended.
  datatype Writer = Writer(mode: Mode, buf: Bytes, wire: Bytes, acked: Bytes, given: Bytes)

  datatype Action = Append(more: Bytes) | Write(event: WriteEvent)

  // After Ready(n) the caller drops n bytes; after Pending it keeps its buffer.
  function WriterStep(aes: Aes, w: Writer, a: Action): (w': Writer)
    requires |Pend(w.mode)| <= |w.buf|
    ensures |Pend(w'.mode)| <= |w'.buf|
  {
    match a
    case Append(more) => w.(buf := w.buf + more, given := w.given + more)
    case Write(event) =>
      WriteKeepsPendingWithin(aes, w.mode, w.buf, event);
      var r := WriteStep(aes, w.mode, w.buf, event);
      var t := w.(mode := r.mode, wire := w.wire + r.sent);
      match r.poll
      case Ready(n) => t.(buf := w.buf[n..], acked := w.acked + w.buf[..n])
      case _ => t
  }

  function WriterRun(aes: Aes, w: Writer, actions: seq<Action>): (w': Writer)
    requires |Pend(w.mode)| <= |w.buf|
    ensures |Pend(w'.mode)| <= |w'.buf|
    decreases |actions|
  {
    if actions == [] then w else WriterRun(aes, WriterStep(aes, w, actions[0]), actions[1..])
  }

  ghost predicate WriterInv(aes: Aes, start: Bytes, w: Writer) {
    InStep(aes, w.mode, start, w.acked, w.buf, w.wire) && w.acked + w.buf == w.given
  }

  lemma {:induction false} WriterRunInv(aes: Aes, start: Bytes, w: Writer, actions: seq<Action>)
    requires WriterInv(aes, start, w) && Write(WriteFailed) !in actions
    ensures WriterInv(aes, start, WriterRun(aes, w, actions))
    ensures KeyOf(WriterRun(aes, w, actions).mode) == KeyOf(w.mode)
    decreases |actions|
  {
    if actions != [] {
      match actions[0] {
        case Append(more) =>
          InStepExtend(aes, w.mode, start, w.acked, w.buf, w.wire, more);
          assert w.acked + (w.buf + more) == w.acked + w.buf + more;
        case Write(event) =>
          WriteStaysInStep(aes, w.mode, start, w.acked, w.buf, w.wire, event);
          var r := WriteStep(aes, w.mode, w.buf, event);
          if r.poll.Ready? {
            SplitEnds(w.acked, w.buf, r.poll.value);
          }
      }
      WriterRunInv(aes, start, WriterStep(aes, w, actions[0]), actions[1..]);
    }
  }

  // For every schedule of appends, refusals and partial writes from the moment encryption starts: the wire is the
  // ciphertext of exactly the acknowledged plaintext; with the pending bytes it is the ciphertext of that and of the
  // buffer's front, and the register is the one after precisely that; nothing appended is lost or doubled.
  lemma WriterRefinesCipher(aes: Aes, key: Block, start: Bytes, actions: seq<Action>)
    requires Write(WriteFailed) !in actions
    ensures var w := WriterRun(aes, Writer(FreshMode(key), [], start, [], []), actions);
      && w.wire == start + Encrypt(aes(key), key, w.acked)
      && var sealed := Encrypt(aes(key), key, w.acked + w.buf[..|Pend(w.mode)|]);
      && w.wire + Pend(w.mode) == start + sealed
      && w.mode.Encrypted? && w.mode.encrypt == After(key, sealed)
      && w.acked + w.buf == w.given
  {
    StartsInStep(aes, key, start, []);
    var w0 := Writer(FreshMode(key), [], start, [], []);
    WriterRunInv(aes, start, w0, actions);
    var w := WriterRun(aes, w0, actions);
    WireIsAcked(aes, w.mode, start, w.acked, w.buf, w.wire);
  }
}

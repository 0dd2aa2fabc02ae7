// The socket under every client actor: a TCP stream, in clear or behind an AES-128/CFB8 duplex.
module Sockets {
  import opened Common
  import opened Cfb8

  // ---- The network ----

  // What the next poll of the read side meets. Elapsed is the timer of the waiting actor: no data came in time.
  datatype ReadEvent = NotYet | Arrived(chunk: Bytes) | ReadFailed | Elapsed

  // What the next poll of the write side meets: Accept(most) takes at most that many bytes.
  datatype WriteEvent = Busy | Accept(most: nat) | WriteFailed

  datatype Poll<+T> = Pending | Ready(value: T) | Broken

  function Min(a: nat, b: nat): nat {
    if a < b then a else b
  }

  // The stream takes something whenever it is not busy.
  predicate Willing(grants: seq<WriteEvent>) {
    forall i :: 0 <= i < |grants| ==> grants[i].Busy? || (grants[i].Accept? && grants[i].most > 0)
  }

  // A write side with nothing left to say takes everything.
  function NextWrite(grants: seq<WriteEvent>, len: nat): WriteEvent {
    if grants == [] then Accept(len) else grants[0]
  }

  function Rest<T>(events: seq<T>): seq<T> {
    if events == [] then [] else events[1..]
  }

  // The bytes one read poll delivers: none unless data has arrived.
  function Delivered(arrivals: seq<ReadEvent>): Bytes {
    if arrivals != [] && arrivals[0].Arrived? then arrivals[0].chunk else []
  }

  function ReadResult(arrivals: seq<ReadEvent>): Poll<()> {
    if arrivals == [] || arrivals[0].Arrived? then Ready(())
    else if arrivals[0].ReadFailed? then Broken
    else Pending
  }

  function ArrivalsLeft(arrivals: seq<ReadEvent>): seq<ReadEvent> {
    if arrivals != [] && arrivals[0].Elapsed? then arrivals else Rest(arrivals)
  }

  class ReadBuf {
    const data: array<byte>
    var filled: nat

    ghost predicate Valid()
      reads this
    {
      filled <= data.Length
    }

    constructor (capacity: nat)
      ensures Valid() && filled == 0 && data.Length == capacity && fresh(data)
    {
      data := new byte[capacity](_ => 0);
      filled := 0;
    }
  }

  // One entry of the record of what was handed to a socket: the frame, and the key it left under, if any.
  datatype Handed = Handed(key: Option<Block>, frame: Bytes)

  // A connected stream, with the script of what the network is going to do to it. wire is what the peer has been
  // sent. The ghost fields record what the owners of the stream meant to send, whether some send failed, and how
  // often they awaited a frame.
  class TcpStream {
    var arrivals: seq<ReadEvent>
    var grants: seq<WriteEvent>
    var wire: Bytes
    var open: bool
    ghost var handed: seq<Handed>
    ghost var lost: bool
    ghost var awaited: nat

    constructor (arrivals: seq<ReadEvent>, grants: seq<WriteEvent>)
      ensures this.arrivals == arrivals && this.grants == grants && wire == [] && open
      ensures handed == [] && !lost && awaited == 0
    {
      this.arrivals := arrivals;
      this.grants := grants;
      wire, open := [], true;
      handed, lost, awaited := [], false, 0;
    }

    // As long as the stream takes something whenever it is not busy, no send fails.
    twostate predicate StaysWilling()
      reads this
    {
      Willing(old(grants)) ==> Willing(grants) && lost == old(lost)
    }

    // A chunk is what one read call returns, so it fits the space the caller offers.
    method PollRead(buf: ReadBuf) returns (poll: Poll<()>)
      requires buf.Valid() && |Delivered(arrivals)| <= buf.data.Length - buf.filled
      modifies `arrivals, buf`filled, buf.data
      ensures poll == ReadResult(old(arrivals)) && arrivals == ArrivalsLeft(old(arrivals))
      ensures buf.Valid() && buf.filled == old(buf.filled) + |Delivered(old(arrivals))|
      ensures buf.data[..old(buf.filled)] == old(buf.data[..buf.filled])
      ensures buf.data[old(buf.filled)..buf.filled] == Delivered(old(arrivals))
    {
      var chunk := Delivered(arrivals);
      poll := ReadResult(arrivals);
      arrivals := ArrivalsLeft(arrivals);
      var start := buf.filled;
      forall i | 0 <= i < |chunk| {
        buf.data[start + i] := chunk[i];
      }
      buf.filled := start + |chunk|;
    }

    method PollWrite(buf: Bytes) returns (poll: Poll<nat>)
      modifies `grants, `wire
      ensures grants == Rest(old(grants))
      ensures match NextWrite(old(grants), |buf|)
        case Busy => poll == Pending && wire == old(wire)
        case WriteFailed => poll == Broken && wire == old(wire)
        case Accept(most) => poll == Ready(Min(most, |buf|)) && wire == old(wire) + buf[..Min(most, |buf|)]
    {
      var event := NextWrite(grants, |buf|);
      grants := Rest(grants);
      match event {
        case Busy => poll := Pending;
        case WriteFailed => poll := Broken;
        case Accept(most) =>
          var n := Min(most, |buf|);
          wire := wire + buf[..n];
          poll := Ready(n);
      }
    }

    method Shutdown()
      modifies `open
      ensures !open
    {
      open := false;
    }
  }

  // ---- The socket ----

  // pending holds ciphertext that the stream has not taken yet, for plaintext the caller still has in its buffer.
  datatype Mode =
    | Cleartext
    | Encrypted(key: Block, decrypt: Block, encrypt: Block, pending: Option<Bytes>)

  function Pend(m: Mode): Bytes {
    if m.Encrypted? && m.pending.Some? then m.pending.value else []
  }

  function KeyOf(m: Mode): Option<Block> {
    if m.Encrypted? then Some(m.key) else None
  }

  function FreshMode(key: Block): Mode {
    Encrypted(key, key, key, None)
  }

  // What a write of buf offers to the stream: the pending ciphertext, then the rest of buf newly encrypted.
  function Offered(aes: Aes, m: Mode, buf: Bytes): (out: Bytes)
    requires |Pend(m)| <= |buf|
    ensures |out| == |buf|
  {
    match m
    case Cleartext => buf
    case Encrypted(key, _, reg, _) => Pend(m) + Encrypt(aes(key), reg, buf[|Pend(m)|..])
  }

  datatype Written = Written(mode: Mode, sent: Bytes, poll: Poll<nat>)

  function Keep(out: Bytes): Option<Bytes> {
    if out == [] then None else Some(out)
  }

  function WriteStep(aes: Aes, m: Mode, buf: Bytes, event: WriteEvent): Written
    requires |Pend(m)| <= |buf|
  {
    var out := Offered(aes, m, buf);
    var reg := if m.Encrypted? then After(m.encrypt, out[|Pend(m)|..]) else [];
    match event
    case Busy =>
      Written(if m.Encrypted? then m.(encrypt := reg, pending := Some(out)) else m, [], Pending)
    case WriteFailed =>
      Written(if m.Encrypted? then m.(encrypt := reg, pending := None) else m, [], Broken)
    case Accept(most) =>
      var n := Min(most, |out|);
      Written(if m.Encrypted? then m.(encrypt := reg, pending := Keep(out[n..])) else m, out[..n], Ready(n))
  }

  function Received(aes: Aes, m: Mode, chunk: Bytes): (Mode, Bytes) {
    match m
    case Cleartext => (m, chunk)
    case Encrypted(key, reg, _, _) =>
      (m.(decrypt := After(reg, chunk)), Decrypt(aes(key), reg, chunk))
  }

  // Decrypts data[start..end] byte by byte where it lies and returns the register reached.
  method DecryptInPlace(cipher: BlockCipher, reg0: Block, data: array<byte>, start: nat, end: nat) returns (reg: Block)
    requires start <= end <= data.Length
    modifies data
    ensures data[..start] == old(data[..start]) && data[end..] == old(data[end..])
    ensures data[start..end] == Decrypt(cipher, reg0, old(data[start..end]))
    ensures reg == After(reg0, old(data[start..end]))
  {
    reg := reg0;
    ghost var before := data[..];
    assert After(reg0, []) == reg0;
    var i := start;
    while i < end
      invariant start <= i <= end
      invariant data[..start] == before[..start] && data[i..] == before[i..]
      invariant data[start..i] == Decrypt(cipher, reg0, before[start..i])
      invariant reg == After(reg0, before[start..i])
    {
      ghost var done := data[start..i];
      var c := data[i];
      assert c == before[i..][0];
      DecryptSnoc(cipher, reg0, before[start..i], c);
      assert before[start..i] + [c] == before[start..i + 1];
      data[i] := Xor(c, KeyByte(cipher, reg));
      reg := After(reg, [c]);
      i := i + 1;
      assert data[start..i] == done + [data[i - 1]];
      assert data[i..] == before[i - 1..][1..];
    }
  }

  class MCSocket {
    const aes: Aes
    const stream: TcpStream
    var mode: Mode

    constructor (aes: Aes, stream: TcpStream)
      ensures this.aes == aes && this.stream == stream && mode == Cleartext
    {
      this.aes, this.stream := aes, stream;
      mode := Cleartext;
    }

    // Both directions start from the key as initialisation vector. False: the socket was encrypted already.
    method SetEncrypted(key: Block) returns (ok: bool)
      modifies `mode
      ensures ok == old(mode).Cleartext?
      ensures mode == if ok then Encrypted(key, key, key, None) else old(mode)
    {
      if mode.Cleartext? {
        mode := Encrypted(key, key, key, None);
        return true;
      }
      return false;
    }

    method PollRead(buf: ReadBuf) returns (poll: Poll<()>)
      requires buf.Valid() && |Delivered(stream.arrivals)| <= buf.data.Length - buf.filled
      modifies `mode, stream`arrivals, buf`filled, buf.data
      ensures poll == ReadResult(old(stream.arrivals)) && stream.arrivals == ArrivalsLeft(old(stream.arrivals))
      ensures buf.Valid() && buf.filled == old(buf.filled) + |Delivered(old(stream.arrivals))|
      ensures buf.data[..old(buf.filled)] == old(buf.data[..buf.filled])
      ensures (mode, buf.data[old(buf.filled)..buf.filled])
           == Received(aes, old(mode), Delivered(old(stream.arrivals)))
    {
      match mode {
        case Cleartext =>
          poll := stream.PollRead(buf);
        case Encrypted(key, reg0, encrypt, pending) =>
          assert After(reg0, []) == reg0;
          var start := buf.filled;
          poll := stream.PollRead(buf);
          if poll.Ready? {
            var reg := DecryptInPlace(aes(key), reg0, buf.data, start, buf.filled);
            mode := Encrypted(key, reg, encrypt, pending);
          }
      }
    }

    method PollWrite(buf: Bytes) returns (poll: Poll<nat>)
      requires |Pend(mode)| <= |buf|
      modifies `mode, stream`grants, stream`wire
      ensures stream.grants == Rest(old(stream.grants))
      ensures var w := WriteStep(aes, old(mode), buf, NextWrite(old(stream.grants), |buf|));
        mode == w.mode && poll == w.poll && stream.wire == old(stream.wire) + w.sent
    {
      match mode {
        case Cleartext =>
          poll := stream.PollWrite(buf);
        case Encrypted(key, decrypt, reg0, taken) =>
          var cipher := aes(key);
          ghost var m := mode;
          var out := Pend(mode);
          var already := |out|;
          ghost var unsealed := buf[already..];
          var reg := reg0;
          var i := already;
          assert After(reg0, []) == reg0;
          while i < |buf|
            invariant already <= i <= |buf| && mode == m
            invariant out == Pend(m) + Encrypt(cipher, reg0, unsealed[..i - already])
            invariant reg == After(reg0, Encrypt(cipher, reg0, unsealed[..i - already]))
            modifies {}
          {
            EncryptSnoc(cipher, reg0, unsealed[..i - already], buf[i]);
            assert unsealed[..i - already] + [buf[i]] == unsealed[..i + 1 - already];
            var c := Xor(buf[i], KeyByte(cipher, reg));
            reg := After(reg, [c]);
            out := out + [c];
            i := i + 1;
          }
          assert unsealed[..i - already] == unsealed;
          assert out == Offered(aes, m, buf);
          assert out[already..] == Encrypt(cipher, reg0, unsealed);
          mode := Encrypted(key, decrypt, reg, None);
          poll := stream.PollWrite(out);
          match poll {
            case Pending =>
              mode := Encrypted(key, decrypt, reg, Some(out));
            case Ready(written) =>
              if written < |out| {
                mode := Encrypted(key, decrypt, reg, Some(out[written..]));
              }
            case Broken =>
          }
      }
    }
  }

  lemma EncryptSnoc(cipher: BlockCipher, reg: Block, p: Bytes, x: byte)
    ensures var c := Encrypt(cipher, reg, p); var y := Xor(x, KeyByte(cipher, After(reg, c)));
      Encrypt(cipher, reg, p + [x]) == c + [y] && After(reg, c + [y]) == After(After(reg, c), [y])
  {
    EncryptConcat(cipher, reg, p, [x]);
    var r := After(reg, Encrypt(cipher, reg, p));
    var y := Xor(x, KeyByte(cipher, r));
    assert Encrypt(cipher, r, [x]) == [y];
    AfterConcat(reg, Encrypt(cipher, reg, p), [y]);
  }

  lemma DecryptSnoc(cipher: BlockCipher, reg: Block, c: Bytes, x: byte)
    ensures Decrypt(cipher, reg, c + [x]) == Decrypt(cipher, reg, c) + [Xor(x, KeyByte(cipher, After(reg, c)))]
    ensures After(reg, c + [x]) == After(After(reg, c), [x])
  {
    DecryptConcat(cipher, reg, c, [x]);
    var r := After(reg, c);
    assert Decrypt(cipher, r, [x]) == [Xor(x, KeyByte(cipher, r))];
    AfterConcat(reg, c, [x]);
  }
}

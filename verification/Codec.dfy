// The framing codec: VarInt-length-prefixed packets, decoded incrementally from a growing buffer.
module Codec {
  import opened Common
  import opened VarInts

  datatype Packet = Packet(id: int, payload: Bytes)

  // Len: the length prefix comes next. Data(n): the prefix has been consumed and n bytes of frame are due.
  datatype DecodeState = Len | Data(n: nat)

  // What one decode call makes of a buffer. Malformed stands for every input on which the decoder gives up on the
  // stream; nothing is said about what follows it.
  datatype Outcome =
    | NeedMore(state: DecodeState, rest: Bytes)
    | Emit(packet: Packet, rest: Bytes)
    | Malformed

  function BodyStep(n: nat, src: Bytes): Outcome {
    if |src| < n then NeedMore(Data(n), src)
    else
      match Read(src)
      case Value(id, l) => if l <= n then Emit(Packet(id, src[l..n]), src[n..]) else Malformed
      case _ => Malformed
  }

  function DecodeStep(state: DecodeState, src: Bytes): Outcome {
    match state
    case Data(n) => BodyStep(n, src)
    case Len =>
      match Read(src)
      case Truncated => NeedMore(Len, src)
      case TooLong => Malformed
      case Value(v, l) => if v < 0 then Malformed else BodyStep(v, src[l..])
  }

  function FrameOf(body: Bytes): Bytes {
    Write(ToI32(|body|)) + body
  }

  // A byte buffer that is consumed at the front and extended at the back.
  class BytesMut {
    var data: Bytes

    constructor ()
      ensures data == []
    {
      data := [];
    }

    method Advance(n: nat)
      requires n <= |data|
      modifies this
      ensures data == old(data)[n..]
    {
      data := data[n..];
    }

    method SplitTo(n: nat) returns (front: Bytes)
      requires n <= |data|
      modifies this
      ensures front == old(data)[..n] && data == old(data)[n..]
    {
      front := data[..n];
      data := data[n..];
    }

    method Extend(more: Bytes)
      modifies this
      ensures data == old(data) + more
    {
      data := data + more;
    }
  }

  datatype Head = NoHead | Length(n: nat) | BadHead

  datatype Decoded = Nothing | Frame(packet: Packet) | Failed

  class MCCodec {
    var state: DecodeState

    constructor ()
      ensures state == Len
    {
      state := Len;
    }

    method DecodeHead(src: BytesMut) returns (r: Head)
      modifies src
      ensures r.NoHead? ==> Read(old(src.data)).Truncated? && src.data == old(src.data)
      ensures r.Length? ==>
        var head := Read(old(src.data));
        head.Value? && head.val == r.n && src.data == old(src.data)[head.len..]
      ensures r.BadHead? ==>
        var head := Read(old(src.data));
        head.TooLong? || (head.Value? && head.val < 0)
    {
      if src.data == [] {
        return NoHead;
      }
      match Read(src.data) {
        case Truncated => r := NoHead;
        case TooLong => r := BadHead;
        case Value(v, l) =>
          src.Advance(l);
          r := if v < 0 then BadHead else Length(v);
      }
    }

    method DecodeBody(n: nat, src: BytesMut) returns (r: Decoded)
      modifies src
      ensures match BodyStep(n, old(src.data))
        case NeedMore(_, rest) => r == Nothing && src.data == rest == old(src.data)
        case Emit(packet, rest) => r == Frame(packet) && src.data == rest
        case Malformed => r == Failed
    {
      if |src.data| < n {
        return Nothing;
      }
      match Read(src.data) {
        case Value(id, l) =>
          src.Advance(l);
          if n < l {
            return Failed;
          }
          var payload := src.SplitTo(n - l);
          r := Frame(Packet(id, payload));
        case _ =>
          r := Failed;
      }
    }

    method Decode(src: BytesMut) returns (r: Decoded)
      modifies this, src
      ensures match DecodeStep(old(state), old(src.data))
        case NeedMore(next, rest) => r == Nothing && state == next && src.data == rest
        case Emit(packet, rest) => r == Frame(packet) && state == Len && src.data == rest
        case Malformed => r == Failed
    {
      var n: nat;
      match state {
        case Data(due) =>
          n := due;
        case Len =>
          var head := DecodeHead(src);
          match head {
            case NoHead => return Nothing;
            case BadHead => return Failed;
            case Length(due) =>
              state := Data(due);
              n := due;
          }
      }
      r := DecodeBody(n, src);
      if r.Frame? {
        state := Len;
      }
    }

    method Encode(data: Bytes, dst: BytesMut)
      modifies dst
      ensures dst.data == old(dst.data) + FrameOf(data)
    {
      dst.Extend(Write(ToI32(|data|)));
      dst.Extend(data);
    }
  }
}

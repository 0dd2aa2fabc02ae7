// VarInt as the wire format defines it: unsigned LEB128 (section 7.6 of DWARF 5) of the 32-bit two's complement
// value, at most five bytes.
module VarInts {
  import opened Common

  const MAX_LEN := 5
  const TWO_31 := 0x8000_0000
  const TWO_32 := 0x1_0000_0000

  type i32 = v: int | -0x8000_0000 <= v < 0x8000_0000
  type u32 = u: int | 0 <= u < 0x1_0000_0000

  function ToU32(v: i32): u32 {
    if v < 0 then v + TWO_32 else v
  }

  // The 32-bit value the low bits of u stand for.
  function ToI32(u: nat): i32 {
    var w := u % TWO_32;
    if w < TWO_31 then w else w - TWO_32
  }

  function WriteUnsigned(u: nat): (s: Bytes)
    ensures |s| >= 1
  {
    if u < 128 then [u] else [u % 128 + 128] + WriteUnsigned(u / 128)
  }

  function Write(v: i32): Bytes {
    WriteUnsigned(ToU32(v))
  }

  // Value: the number read and the count of bytes it took. Truncated: the input ended first. TooLong: a fifth byte
  // asked for a sixth.
  datatype Reading = Value(val: int, len: nat) | Truncated | TooLong

  // Reads with k bytes already behind.
  function ReadUnsigned(s: Bytes, k: nat): (r: Reading)
    requires k < MAX_LEN
    ensures r.Value? ==> 1 <= r.len <= |s| && r.len <= MAX_LEN - k && r.val >= 0
    decreases |s|
  {
    if s == [] then Truncated
    else if s[0] < 128 then Value(s[0], 1)
    else if k + 1 == MAX_LEN then TooLong
    else
      match ReadUnsigned(s[1..], k + 1)
      case Value(v, l) => Value(s[0] - 128 + 128 * v, l + 1)
      case other => other
  }

  function Read(s: Bytes): (r: Reading)
    ensures r.Value? ==> 1 <= r.len <= |s| && r.len <= MAX_LEN && -TWO_31 <= r.val < TWO_31
  {
    match ReadUnsigned(s, 0)
    case Value(u, l) => Value(ToI32(u), l)
    case other => other
  }

  lemma {:induction false} ReadUnsignedWrite(u: nat, k: nat, tail: Bytes)
    requires k < MAX_LEN
    requires u < 128 || k + 1 < MAX_LEN
    requires u < 16384 || k + 2 < MAX_LEN
    requires u < 2097152 || k + 3 < MAX_LEN
    requires u < 268435456 || k + 4 < MAX_LEN
    requires u < 34359738368
    ensures ReadUnsigned(WriteUnsigned(u) + tail, k) == Value(u, |WriteUnsigned(u)|)
  {
    var s := WriteUnsigned(u) + tail;
    if u >= 128 {
      assert s[1..] == WriteUnsigned(u / 128) + tail;
      ReadUnsignedWrite(u / 128, k + 1, tail);
    }
  }

  // Reading back what was written returns the value, its length, and looks at nothing after it.
  lemma ReadWrite(v: i32, tail: Bytes)
    ensures Read(Write(v) + tail) == Value(v, |Write(v)|)
    ensures 1 <= |Write(v)| <= MAX_LEN
  {
    ReadUnsignedWrite(ToU32(v), 0, tail);
  }

  // No encoding is a prefix of another value's encoding.
  lemma PrefixFree(v: i32, w: i32)
    requires Write(v) <= Write(w)
    ensures v == w
  {
    var tail := Write(w)[|Write(v)|..];
    assert Write(w) == Write(v) + tail;
    ReadWrite(v, tail);
    ReadWrite(w, []);
    assert Write(w) + [] == Write(w);
  }

  // A reading that ended stays the same when more bytes follow; only Truncated can change.
  lemma {:induction false} ReadUnsignedExtend(s: Bytes, t: Bytes, k: nat)
    requires k < MAX_LEN
    ensures !ReadUnsigned(s, k).Truncated? ==> ReadUnsigned(s + t, k) == ReadUnsigned(s, k)
    decreases |s|
  {
    if s != [] {
      assert (s + t)[1..] == s[1..] + t;
      if s[0] >= 128 && k + 1 < MAX_LEN {
        ReadUnsignedExtend(s[1..], t, k + 1);
      }
    }
  }

  lemma ReadExtend(s: Bytes, t: Bytes)
    ensures !Read(s).Truncated? ==> Read(s + t) == Read(s)
  {
    ReadUnsignedExtend(s, t, 0);
  }

  // Reading inside the first n bytes succeeds exactly when the unconfined reading ends within them.
  lemma {:induction false} ReadUnsignedConfined(s: Bytes, n: nat, k: nat)
    requires n <= |s| && k < MAX_LEN
    ensures ReadUnsigned(s[..n], k).Value? <==> ReadUnsigned(s, k).Value? && ReadUnsigned(s, k).len <= n
    decreases |s|
  {
    if n > 0 && s[0] >= 128 && k + 1 < MAX_LEN {
      assert s[..n][1..] == s[1..][..n - 1];
      ReadUnsignedConfined(s[1..], n - 1, k + 1);
    }
  }

  lemma ReadConfined(s: Bytes, n: nat)
    requires n <= |s|
    ensures Read(s[..n]).Value? <==> Read(s).Value? && Read(s).len <= n
    ensures Read(s[..n]).Value? ==> Read(s[..n]) == Read(s)
  {
    ReadUnsignedConfined(s, n, 0);
    assert s[..n] + s[n..] == s;
    ReadExtend(s[..n], s[n..]);
  }

  // ---- The format itself ----

  // The i-th group of seven bits, least significant first.
  function Group(s: Bytes, i: nat): nat {
    if i < |s| then s[i] % 128 else 0
  }

  // What up to five groups stand for.
  function Groups(s: Bytes): nat {
    Group(s, 0) + 128 * Group(s, 1) + 16384 * Group(s, 2) + 2097152 * Group(s, 3) + 268435456 * Group(s, 4)
  }

  // One to five bytes of which all but the last ask for another.
  predicate IsVarInt(s: Bytes) {
    1 <= |s| <= 5 && s[|s| - 1] < 128 && forall i :: 0 <= i < |s| - 1 ==> s[i] >= 128
  }

  lemma GroupsCons(s: Bytes)
    requires 1 <= |s| <= 5
    ensures Groups(s) == s[0] % 128 + 128 * Groups(s[1..])
  {
    var t := s[1..];
    assert Group(s, 1) == Group(t, 0) && Group(s, 2) == Group(t, 1);
    assert Group(s, 3) == Group(t, 2) && Group(s, 4) == Group(t, 3) && Group(t, 4) == 0;
  }

  lemma {:induction false} WriteUnsignedFormat(u: nat, n: nat)
    requires 1 <= n <= 5
    requires u < 128 || (n >= 2 && u < 16384) || (n >= 3 && u < 2097152) || (n >= 4 && u < 268435456)
      || (n >= 5 && u < 34359738368)
    ensures var s := WriteUnsigned(u); IsVarInt(s) && |s| <= n && Groups(s) == u && (s[|s| - 1] == 0 ==> u == 0)
  {
    var s := WriteUnsigned(u);
    if u >= 128 {
      WriteUnsignedFormat(u / 128, n - 1);
      var t := WriteUnsigned(u / 128);
      assert s == [u % 128 + 128] + t && s[1..] == t;
      GroupsCons(s);
    }
  }

  // Every value is written as groups of seven bits of its 32-bit two's complement, low groups first, all bytes but the
  // last marked as having a successor, and no superfluous group at the end.
  lemma WriteFormat(v: i32)
    ensures var s := Write(v);
      && 1 <= |s| <= 5
      && (forall i :: 0 <= i < |s| - 1 ==> s[i] >= 128) && s[|s| - 1] < 128
      && Groups(s) == (if v < 0 then v + 0x1_0000_0000 else v)
      && (s[|s| - 1] == 0 ==> v == 0)
  {
    WriteUnsignedFormat(ToU32(v), 5);
  }

  // A length, read as a 32-bit value, is written as itself.
  lemma WriteLength(n: nat)
    requires n < 0x8000_0000
    ensures var s := Write(ToI32(n)); IsVarInt(s) && Groups(s) == n && (s[|s| - 1] == 0 ==> n == 0)
  {
    ToI32Congruent(n);
    WriteUnsignedFormat(n, 5);
  }

  lemma {:induction false} ReadUnsignedFormat(s: Bytes, t: Bytes, k: nat)
    requires IsVarInt(s) && k + |s| <= MAX_LEN
    ensures ReadUnsigned(s + t, k) == Value(Groups(s), |s|)
  {
    GroupsCons(s);
    if |s| > 1 {
      assert (s + t)[1..] == s[1..] + t;
      assert IsVarInt(s[1..]);
      ReadUnsignedFormat(s[1..], t, k + 1);
    }
  }

  // Reading any such string, whoever wrote it and whatever follows it, gives the 32-bit value of its groups: the one
  // congruent to their sum modulo 2^32.
  lemma ReadFormat(s: Bytes, t: Bytes)
    requires IsVarInt(s)
    ensures var r := Read(s + t);
      && r.Value? && r.len == |s|
      && -0x8000_0000 <= r.val < 0x8000_0000 && (r.val - Groups(s)) % 0x1_0000_0000 == 0
      && (Groups(s) < 0x8000_0000 ==> r.val == Groups(s))
  {
    ReadUnsignedFormat(s, t, 0);
    ToI32Congruent(Groups(s));
  }

  lemma ToI32Congruent(u: nat)
    ensures (ToI32(u) - u) % 0x1_0000_0000 == 0
    ensures u < 0x8000_0000 ==> ToI32(u) == u
  {
    var q := u / 0x1_0000_0000;
    assert u == 0x1_0000_0000 * q + u % 0x1_0000_0000;
    assert ToI32(u) - u == 0x1_0000_0000 * -q || ToI32(u) - u == 0x1_0000_0000 * (-q - 1);
  }

  // Every other input begins with bytes that all ask for a successor: five of them are too long, fewer are truncated.
  lemma {:induction false} ReadUnsignedOtherwise(s: Bytes, k: nat)
    requires k < MAX_LEN
    ensures ReadUnsigned(s, k).Truncated? <==> |s| + k < MAX_LEN && forall i :: 0 <= i < |s| ==> s[i] >= 128
    ensures ReadUnsigned(s, k).TooLong?
      <==> |s| + k >= MAX_LEN && forall i :: 0 <= i < MAX_LEN - k ==> s[i] >= 128
    decreases |s|
  {
    if s != [] && s[0] >= 128 && k + 1 < MAX_LEN {
      ReadUnsignedOtherwise(s[1..], k + 1);
      assert forall i :: 0 <= i < |s| - 1 ==> s[1..][i] == s[i + 1];
      assert forall i :: 1 <= i < |s| ==> s[i] == s[1..][i - 1];
    }
  }

  lemma ReadOtherwise(s: Bytes)
    ensures Read(s).Truncated? <==> |s| < 5 && forall i :: 0 <= i < |s| ==> s[i] >= 128
    ensures Read(s).TooLong? <==> |s| >= 5 && forall i :: 0 <= i < 5 ==> s[i] >= 128
  {
    ReadUnsignedOtherwise(s, 0);
  }
}

// What a socket delivers does not depend on how the ciphertext is cut.
module ReaderTheory {
  import opened Common
  import opened Cfb8
  import opened Sockets

  lemma ReceivedConcat(aes: Aes, m: Mode, a: Bytes, b: Bytes)
    ensures var (m1, p) := Received(aes, m, a);
      Received(aes, m, a + b) == (Received(aes, m1, b).0, p + Received(aes, m1, b).1)
  {
    if m.Encrypted? {
      DecryptConcat(aes(m.key), m.decrypt, a, b);
      AfterConcat(m.decrypt, a, b);
    }
  }

  // One read in the terms of the standard: what arrives is the encryption of what is delivered from the register as it
  // stands, which moves on by exactly these bytes; nothing else of the socket changes.
  lemma ReceivedOpens(aes: Aes, m: Mode, chunk: Bytes)
    ensures var (m', plain) := Received(aes, m, chunk);
      match m
      case Cleartext => m' == m && plain == chunk
      case Encrypted(key, reg, _, _) =>
        && IsCfb8(aes(key), reg, plain, chunk)
        && m' == m.(decrypt := (reg + chunk)[|chunk|..|chunk| + 16])
  {
    if m.Encrypted? {
      Cfb8IsDecrypt(aes(m.key), m.decrypt, Decrypt(aes(m.key), m.decrypt, chunk), chunk);
      RegisterAfter(m.decrypt, chunk);
    }
  }

  lemma ReceivedNothing(aes: Aes, m: Mode)
    ensures Received(aes, m, []) == (m, [])
  {
    if m.Encrypted? {
      assert After(m.decrypt, []) == m.decrypt;
    }
  }

  // The deliveries of successive reads.
  function ReceivedAll(aes: Aes, m: Mode, chunks: seq<Bytes>): (Mode, Bytes)
    decreases |chunks|
  {
    if chunks == [] then (m, [])
    else
      var (m1, p) := Received(aes, m, chunks[0]);
      var (m2, q) := ReceivedAll(aes, m1, chunks[1..]);
      (m2, p + q)
  }

  // However the stream is cut into reads, the plaintext delivered is that of the whole, and so is the register after.
  lemma {:induction false} FragmentationIrrelevant(aes: Aes, m: Mode, chunks: seq<Bytes>)
    ensures ReceivedAll(aes, m, chunks) == Received(aes, m, Concat(chunks))
    decreases |chunks|
  {
    if chunks == [] {
      ReceivedNothing(aes, m);
    } else {
      FragmentationIrrelevant(aes, Received(aes, m, chunks[0]).0, chunks[1..]);
      ReceivedConcat(aes, m, chunks[0], Concat(chunks[1..]));
    }
  }

  // A freshly keyed reader recovers what a freshly keyed writer encrypted, in whatever fragments it arrives.
  lemma ReaderInvertsWriter(aes: Aes, key: Block, p: Bytes, chunks: seq<Bytes>)
    requires Concat(chunks) == Encrypt(aes(key), key, p)
    ensures ReceivedAll(aes, FreshMode(key), chunks).1 == p
  {
    FragmentationIrrelevant(aes, FreshMode(key), chunks);
    DecryptEncrypt(aes(key), key, p);
  }
}

// The CFB-8 mode of a 16-byte block cipher: section 6.3 of NIST SP 800-38A with s = 8.
module Cfb8 {
  import opened Common

  const BLOCK_SIZE := 16

  type Block = b: Bytes | |b| == 16 witness seq(16, _ => 0)

  // The block cipher under one key. AES itself is not modelled: every result holds for any such function.
  type BlockCipher = Block -> Block

  // A cipher family: the key selects the block cipher.
  type Aes = Block -> BlockCipher

  // The shift register after the ciphertext c has gone by: the last 16 bytes of reg followed by c.
  function After(reg: Block, c: Bytes): Block {
    (reg + c)[|c|..]
  }

  function KeyByte(cipher: BlockCipher, reg: Block): byte {
    cipher(reg)[0]
  }

  function Encrypt(cipher: BlockCipher, reg: Block, p: Bytes): (c: Bytes)
    ensures |c| == |p|
    decreases |p|
  {
    if p == [] then []
    else
      var c := Xor(p[0], KeyByte(cipher, reg));
      [c] + Encrypt(cipher, After(reg, [c]), p[1..])
  }

  function Decrypt(cipher: BlockCipher, reg: Block, c: Bytes): (p: Bytes)
    ensures |p| == |c|
    decreases |c|
  {
    if c == [] then []
    else [Xor(c[0], KeyByte(cipher, reg))] + Decrypt(cipher, After(reg, [c[0]]), c[1..])
  }

  lemma AfterConcat(reg: Block, a: Bytes, b: Bytes)
    ensures After(After(reg, a), b) == After(reg, a + b)
  {
    assert (reg + a)[|a|..] + b == (reg + (a + b))[|a|..];
  }

  lemma {:induction false} EncryptConcat(cipher: BlockCipher, reg: Block, a: Bytes, b: Bytes)
    ensures Encrypt(cipher, reg, a + b)
      == Encrypt(cipher, reg, a) + Encrypt(cipher, After(reg, Encrypt(cipher, reg, a)), b)
    decreases |a|
  {
    if a == [] {
      assert a + b == b;
      assert After(reg, []) == reg;
    } else {
      var c := Xor(a[0], KeyByte(cipher, reg));
      var reg' := After(reg, [c]);
      var ca := Encrypt(cipher, reg', a[1..]);
      assert (a + b)[1..] == a[1..] + b;
      EncryptConcat(cipher, reg', a[1..], b);
      AfterConcat(reg, [c], ca);
    }
  }

  lemma {:induction false} DecryptConcat(cipher: BlockCipher, reg: Block, a: Bytes, b: Bytes)
    ensures Decrypt(cipher, reg, a + b) == Decrypt(cipher, reg, a) + Decrypt(cipher, After(reg, a), b)
    decreases |a|
  {
    if a == [] {
      assert a + b == b;
      assert After(reg, []) == reg;
    } else {
      var reg' := After(reg, [a[0]]);
      assert (a + b)[1..] == a[1..] + b;
      DecryptConcat(cipher, reg', a[1..], b);
      AfterConcat(reg, [a[0]], a[1..]);
      assert [a[0]] + a[1..] == a;
      var first: Bytes := [Xor(a[0], KeyByte(cipher, reg))];
      assert first + (Decrypt(cipher, reg', a[1..]) + Decrypt(cipher, After(reg, a), b))
        == first + Decrypt(cipher, reg', a[1..]) + Decrypt(cipher, After(reg, a), b);
    }
  }

  // Decryption undoes encryption under the same register.
  lemma {:induction false} DecryptEncrypt(cipher: BlockCipher, reg: Block, p: Bytes)
    ensures Decrypt(cipher, reg, Encrypt(cipher, reg, p)) == p
    decreases |p|
  {
    if p != [] {
      var c := Xor(p[0], KeyByte(cipher, reg));
      XorInvolution(p[0], KeyByte(cipher, reg));
      assert Encrypt(cipher, reg, p)[1..] == Encrypt(cipher, After(reg, [c]), p[1..]);
      DecryptEncrypt(cipher, After(reg, [c]), p[1..]);
    }
  }

  // Any prefix of a ciphertext decrypts to the same prefix of the plaintext.
  lemma DecryptPrefix(cipher: BlockCipher, reg: Block, p: Bytes, n: nat)
    requires n <= |p|
    ensures Encrypt(cipher, reg, p)[..n] == Encrypt(cipher, reg, p[..n])
    ensures Decrypt(cipher, reg, Encrypt(cipher, reg, p)[..n]) == p[..n]
  {
    assert p[..n] + p[n..] == p;
    EncryptConcat(cipher, reg, p[..n], p[n..]);
    DecryptEncrypt(cipher, reg, p[..n]);
  }

  // The equations of the standard: ciphertext byte j is the exclusive or of plaintext byte j and the leading byte of
  // the cipher on the input block of segment j, which is the last 16 bytes of iv followed by the ciphertext before j.
  ghost predicate IsCfb8(cipher: BlockCipher, iv: Block, p: Bytes, c: Bytes) {
    |c| == |p| &&
    forall j :: 0 <= j < |p| ==> IsExclusiveOr(p[j], cipher((iv + c[..j])[j..j + 16])[0], c[j])
  }

  lemma SegmentAt(cipher: BlockCipher, iv: Block, c: Bytes, j: nat)
    requires j < |c|
    ensures (iv + c[..j])[j..j + 16] == After(iv, c[..j])
    ensures KeyByte(cipher, After(iv, c[..j])) == cipher((iv + c[..j])[j..j + 16])[0]
  {
    assert |iv + c[..j]| == 16 + j;
  }

  // The plaintext and ciphertext byte by byte, in the terms Encrypt and Decrypt use.
  lemma {:induction false} EncryptAt(cipher: BlockCipher, iv: Block, p: Bytes, j: nat)
    requires j < |p|
    ensures var c := Encrypt(cipher, iv, p); c[j] == Xor(p[j], KeyByte(cipher, After(iv, c[..j])))
  {
    DecryptPrefix(cipher, iv, p, j);
    assert p == p[..j] + p[j..];
    EncryptConcat(cipher, iv, p[..j], p[j..]);
  }

  lemma EncryptIsCfb8(cipher: BlockCipher, iv: Block, p: Bytes)
    ensures IsCfb8(cipher, iv, p, Encrypt(cipher, iv, p))
  {
    var c := Encrypt(cipher, iv, p);
    forall j | 0 <= j < |p| ensures IsExclusiveOr(p[j], cipher((iv + c[..j])[j..j + 16])[0], c[j]) {
      EncryptAt(cipher, iv, p, j);
      SegmentAt(cipher, iv, c, j);
      XorIsExclusiveOr(p[j], KeyByte(cipher, After(iv, c[..j])));
    }
  }

  // The equations have exactly one solution for the ciphertext, the one Encrypt computes.
  lemma Cfb8IsEncrypt(cipher: BlockCipher, iv: Block, p: Bytes, c: Bytes)
    ensures IsCfb8(cipher, iv, p, c) <==> c == Encrypt(cipher, iv, p)
  {
    EncryptIsCfb8(cipher, iv, p);
    if IsCfb8(cipher, iv, p, c) {
      SolutionUnique(cipher, iv, p, c, Encrypt(cipher, iv, p), |p|);
      assert c[..|p|] == c && Encrypt(cipher, iv, p)[..|p|] == Encrypt(cipher, iv, p);
    }
  }

  lemma {:induction false} SolutionUnique(cipher: BlockCipher, iv: Block, p: Bytes, c: Bytes, d: Bytes, n: nat)
    requires n <= |p| && IsCfb8(cipher, iv, p, c) && IsCfb8(cipher, iv, p, d)
    ensures c[..n] == d[..n]
  {
    if n > 0 {
      var j := n - 1;
      SolutionUnique(cipher, iv, p, c, d, j);
      ExclusiveOrIsXor(p[j], cipher((iv + c[..j])[j..j + 16])[0], c[j]);
      ExclusiveOrIsXor(p[j], cipher((iv + d[..j])[j..j + 16])[0], d[j]);
      assert c[..n] == c[..j] + [c[j]];
      assert d[..n] == d[..j] + [d[j]];
    }
  }

  // And exactly one for the plaintext, the one Decrypt computes: every byte string is the ciphertext of what it
  // decrypts to.
  lemma Cfb8IsDecrypt(cipher: BlockCipher, iv: Block, p: Bytes, c: Bytes)
    ensures IsCfb8(cipher, iv, p, c) <==> p == Decrypt(cipher, iv, c)
  {
    Cfb8IsEncrypt(cipher, iv, p, c);
    DecryptEncrypt(cipher, iv, p);
    EncryptDecrypt(cipher, iv, c);
  }

  lemma {:induction false} EncryptDecrypt(cipher: BlockCipher, reg: Block, c: Bytes)
    ensures Encrypt(cipher, reg, Decrypt(cipher, reg, c)) == c
    decreases |c|
  {
    if c != [] {
      XorInvolution(c[0], KeyByte(cipher, reg));
      assert Decrypt(cipher, reg, c)[1..] == Decrypt(cipher, After(reg, [c[0]]), c[1..]);
      EncryptDecrypt(cipher, After(reg, [c[0]]), c[1..]);
    }
  }

  // The register is the last 16 bytes of the initial block followed by all the ciphertext gone by.
  lemma RegisterAfter(reg: Block, c: Bytes)
    ensures After(reg, c) == (reg + c)[|c|..|c| + 16]
  {
  }
}

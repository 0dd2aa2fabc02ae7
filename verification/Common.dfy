// Types shared by every layer of the connection stack.
module Common {
  datatype Option<+T> = None | Some(value: T)

  type byte = b: int | 0 <= b < 256
  type Bytes = seq<byte>

  function Concat(chunks: seq<Bytes>): Bytes {
    if chunks == [] then [] else chunks[0] + Concat(chunks[1..])
  }

  lemma {:induction false} ConcatAppend(a: seq<Bytes>, b: seq<Bytes>)
    ensures Concat(a + b) == Concat(a) + Concat(b)
  {
    if a == [] {
      assert a + b == b;
    } else {
      assert (a + b)[1..] == a[1..] + b;
      ConcatAppend(a[1..], b);
    }
  }

  // Bitwise exclusive or of the k low bits of a and b.
  function XorBits(a: nat, b: nat, k: nat): nat {
    if k == 0 then 0 else (a + b) % 2 + 2 * XorBits(a / 2, b / 2, k - 1)
  }

  function Pow2(k: nat): nat {
    if k == 0 then 1 else 2 * Pow2(k - 1)
  }

  lemma {:induction false} XorBitsBound(a: nat, b: nat, k: nat)
    ensures XorBits(a, b, k) < Pow2(k)
  {
    if k > 0 {
      XorBitsBound(a / 2, b / 2, k - 1);
    }
  }

  lemma {:induction false} XorBitsInvolution(a: nat, b: nat, k: nat)
    requires a < Pow2(k)
    ensures XorBits(XorBits(a, b, k), b, k) == a
  {
    if k > 0 {
      var y := XorBits(a / 2, b / 2, k - 1);
      XorBitsInvolution(a / 2, b / 2, k - 1);
      LowBit(a, b, y);
    }
  }

  lemma LowBit(a: nat, b: nat, y: nat)
    ensures var x := (a + b) % 2 + 2 * y; x / 2 == y && a == (x + b) % 2 + 2 * (a / 2)
  {
    var x := (a + b) % 2 + 2 * y;
    assert x + b == a + 2 * (b + y - (a + b) / 2);
  }

  function Xor(a: byte, b: byte): byte {
    XorBitsBound(a, b, 8);
    assert Pow2(8) == 256 by { Pow2Of8(); }
    XorBits(a, b, 8)
  }

  lemma Pow2Of8()
    ensures Pow2(8) == 256
  {
    assert Pow2(4) == 16;
  }

  lemma XorInvolution(a: byte, b: byte)
    ensures Xor(Xor(a, b), b) == a
  {
    Pow2Of8();
    XorBitsInvolution(a, b, 8);
  }

  // What each of the eight bits of a byte is worth.
  const BITS: seq<nat> := [1, 2, 4, 8, 16, 32, 64, 128]

  predicate BitSet(x: nat, bit: nat)
    requires bit > 0
  {
    x / bit % 2 == 1
  }

  // The exclusive or, bit by bit: each bit of c is set exactly if it is set in just one of a and b.
  predicate IsExclusiveOr(a: byte, b: byte, c: byte) {
    forall i :: 0 <= i < 8 ==> (BitSet(c, BITS[i]) <==> BitSet(a, BITS[i]) != BitSet(b, BITS[i]))
  }

  function Halved(x: nat, k: nat): nat {
    if k == 0 then x else Halved(x / 2, k - 1)
  }

  lemma {:induction false} XorBitsAt(a: nat, b: nat, k: nat, i: nat)
    requires i < k
    ensures Halved(XorBits(a, b, k), i) % 2 == (Halved(a, i) + Halved(b, i)) % 2
  {
    var rest := XorBits(a / 2, b / 2, k - 1);
    assert XorBits(a, b, k) == (a + b) % 2 + 2 * rest;
    if i > 0 {
      assert XorBits(a, b, k) / 2 == rest;
      XorBitsAt(a / 2, b / 2, k - 1, i - 1);
    }
  }

  lemma HalvedIsDivided(x: nat)
    ensures Halved(x, 0) == x / 1 && Halved(x, 1) == x / 2 && Halved(x, 2) == x / 4 && Halved(x, 3) == x / 8
    ensures Halved(x, 4) == x / 16 && Halved(x, 5) == x / 32 && Halved(x, 6) == x / 64 && Halved(x, 7) == x / 128
  {
    assert Halved(x, 4) == Halved(x / 2 / 2 / 2, 1) && Halved(x, 5) == Halved(x / 2 / 2 / 2, 2);
    assert Halved(x, 6) == Halved(x / 2 / 2 / 2, 3) && Halved(x, 7) == Halved(x / 2 / 2 / 2 / 2, 3);
  }

  lemma BitIsHalved(x: nat, i: nat)
    requires i < 8
    ensures BitSet(x, BITS[i]) <==> Halved(x, i) % 2 == 1
  {
    HalvedIsDivided(x);
  }

  lemma {:induction false} SameHalves(c: nat, d: nat, k: nat)
    requires c < Pow2(k) && d < Pow2(k)
    requires forall i :: 0 <= i < k ==> Halved(c, i) % 2 == Halved(d, i) % 2
    ensures c == d
  {
    if k > 0 {
      assert Halved(c, 0) % 2 == Halved(d, 0) % 2;
      forall i | 0 <= i < k - 1 ensures Halved(c / 2, i) % 2 == Halved(d / 2, i) % 2 {
        assert Halved(c, i + 1) % 2 == Halved(d, i + 1) % 2;
      }
      SameHalves(c / 2, d / 2, k - 1);
    }
  }

  lemma XorAt(a: byte, b: byte, i: nat)
    requires i < 8
    ensures Halved(Xor(a, b), i) % 2 == (Halved(a, i) + Halved(b, i)) % 2
  {
    XorBitsAt(a, b, 8, i);
  }

  lemma BitFromHalves(a: byte, b: byte, c: byte, i: nat)
    requires i < 8 && Halved(c, i) % 2 == (Halved(a, i) + Halved(b, i)) % 2
    ensures BitSet(c, BITS[i]) <==> BitSet(a, BITS[i]) != BitSet(b, BITS[i])
  {
    BitIsHalved(a, i);
    BitIsHalved(b, i);
    BitIsHalved(c, i);
    ParityOfSum(Halved(a, i), Halved(b, i), Halved(c, i));
  }

  lemma ParityOfSum(x: nat, y: nat, z: nat)
    requires z % 2 == (x + y) % 2
    ensures z % 2 == 1 <==> (x % 2 == 1) != (y % 2 == 1)
  {
  }

  lemma XorIsExclusiveOr(a: byte, b: byte)
    ensures IsExclusiveOr(a, b, Xor(a, b))
  {
    var c := Xor(a, b);
    forall i | 0 <= i < 8 ensures BitSet(c, BITS[i]) <==> BitSet(a, BITS[i]) != BitSet(b, BITS[i]) {
      XorAt(a, b, i);
      BitFromHalves(a, b, c, i);
    }
  }

  // There is just one such byte.
  lemma ExclusiveOrIsXor(a: byte, b: byte, c: byte)
    ensures IsExclusiveOr(a, b, c) <==> c == Xor(a, b)
  {
    XorIsExclusiveOr(a, b);
    if IsExclusiveOr(a, b, c) {
      Pow2Of8();
      forall i | 0 <= i < 8 ensures Halved(c, i) % 2 == Halved(Xor(a, b), i) % 2 {
        BitIsHalved(c, i);
        BitIsHalved(Xor(a, b), i);
        assert BitSet(c, BITS[i]) <==> BitSet(a, BITS[i]) != BitSet(b, BITS[i]);
      }
      SameHalves(c, Xor(a, b), 8);
    }
  }
}

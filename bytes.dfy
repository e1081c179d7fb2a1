/** Go's `byte`: an unsigned 8-bit value, and its exclusive or. */
module Bytes {

  newtype byte = b: int | 0 <= b < 256

  /** 2^k. */
  function Pow2(k: nat): (p: nat)
    ensures p > 0
  {
    if k == 0 then 1 else 2 * Pow2(k - 1)
  }

  /** Bit `j` of `x`, counting from the least significant bit 0. */
  function Bit(x: nat, j: nat): (b: nat)
    ensures b < 2
  {
    if j == 0 then x % 2 else Bit(x / 2, j - 1)
  }

  /** The exclusive or of the low `k` bits of `a` and `b`, taken bit by bit
      from the least significant one. */
  function XorBits(a: nat, b: nat, k: nat): (r: nat)
    ensures r < Pow2(k)
  {
    if k == 0 then 0 else 2 * XorBits(a / 2, b / 2, k - 1) + (a + b) % 2
  }

  /** Bit `j` of a byte. */
  function ByteBit(x: byte, j: nat): (b: nat)
    ensures b < 2
  {
    Bit(x as nat, j)
  }

  /** Each of the low `k` bits of XorBits is set exactly when one of the
      two corresponding input bits is set. */
  lemma {:induction false} XorBitsBit(a: nat, b: nat, k: nat, j: nat)
    requires j < k
    ensures Bit(XorBits(a, b, k), j) == (Bit(a, j) + Bit(b, j)) % 2
    decreases j
  {
    var r := XorBits(a, b, k);
    var rest, low := XorBits(a / 2, b / 2, k - 1), (a + b) % 2;
    assert r == 2 * rest + low;
    ShiftOut(rest, low);
    if j == 0 {
      ParitySum(a, b);
      assert Bit(r, 0) == low;
    } else {
      assert Bit(r, j) == Bit(rest, j - 1);
      XorBitsBit(a / 2, b / 2, k - 1, j - 1);
    }
  }

  /** The parity of a sum is the sum of the parities, modulo 2. */
  lemma ParitySum(a: nat, b: nat)
    ensures (a + b) % 2 == (a % 2 + b % 2) % 2
  {
  }

  /** Appending a low bit `c` to `x` and shifting it out again. */
  lemma ShiftOut(x: nat, c: nat)
    requires c < 2
    ensures (2 * x + c) / 2 == x && (2 * x + c) % 2 == c
  {
  }

  /** Go's `^` on two bytes: each of the eight result bits is set exactly
      when one of the two input bits is set. */
  function Xor(a: byte, b: byte): (r: byte)
    ensures forall j: nat :: j < 8 ==> ByteBit(r, j) == (ByteBit(a, j) + ByteBit(b, j)) % 2
  {
    assert Pow2(8) == 256;
    var r := XorBits(a as nat, b as nat, 8);
    forall j: nat | j < 8
      ensures Bit(r, j) == (Bit(a as nat, j) + Bit(b as nat, j)) % 2
    {
      XorBitsBit(a as nat, b as nat, 8, j);
    }
    r as byte
  }

  /** Bits 0 to 7 determine a byte: two bytes that agree on them are equal. */
  lemma {:induction false} BitsDetermine(x: nat, y: nat, k: nat)
    requires x < Pow2(k) && y < Pow2(k)
    requires forall j :: 0 <= j < k ==> Bit(x, j) == Bit(y, j)
    ensures x == y
    decreases k
  {
    if k > 0 {
      assert Bit(x, 0) == Bit(y, 0);
      forall j | 0 <= j < k - 1
        ensures Bit(x / 2, j) == Bit(y / 2, j)
      {
        assert Bit(x, j + 1) == Bit(y, j + 1);
      }
      BitsDetermine(x / 2, y / 2, k - 1);
    }
  }

  /** A byte is determined by its eight bits. */
  lemma ByteFromBits(x: byte, y: byte)
    requires forall j: nat :: j < 8 ==> ByteBit(x, j) == ByteBit(y, j)
    ensures x == y
  {
    assert Pow2(8) == 256;
    var m, n := x as nat, y as nat;
    forall j | 0 <= j < 8
      ensures Bit(m, j) == Bit(n, j)
    {
      assert ByteBit(x, j) == ByteBit(y, j);
    }
    BitsDetermine(m, n, 8);
  }

  /** XOR is commutative, 0 is its identity, and a byte XOR itself is 0. */
  lemma XorLaws(a: byte, b: byte)
    ensures Xor(a, b) == Xor(b, a)
    ensures Xor(a, 0) == a
    ensures Xor(a, a) == 0
  {
    assert Pow2(8) == 256;
    var r, s := Xor(a, b), Xor(b, a);
    forall j: nat | j < 8
      ensures ByteBit(r, j) == ByteBit(s, j)
    {
    }
    ByteFromBits(r, s);
    var z := Xor(a, 0);
    forall j: nat | j < 8
      ensures ByteBit(z, j) == ByteBit(a, j)
    {
      ZeroBit(j);
    }
    ByteFromBits(z, a);
    var c := Xor(a, a);
    forall j: nat | j < 8
      ensures ByteBit(c, j) == ByteBit(0, j)
    {
      ZeroBit(j);
    }
    ByteFromBits(c, 0);
  }

  /** Every bit of 0 is clear. */
  lemma {:induction false} ZeroBit(j: nat)
    ensures Bit(0, j) == 0
    decreases j
  {
    if j > 0 {
      ZeroBit(j - 1);
    }
  }

  /** XOR-ing twice with the same key gives the byte back. */
  lemma XorInvolution(k: byte, x: byte)
    ensures Xor(k, Xor(k, x)) == x
  {
    var y := Xor(k, x);
    var z := Xor(k, y);
    forall j: nat | j < 8
      ensures ByteBit(z, j) == ByteBit(x, j)
    {
      assert ByteBit(y, j) == (ByteBit(k, j) + ByteBit(x, j)) % 2;
    }
    ByteFromBits(z, x);
  }
}

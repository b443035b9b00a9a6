/**
 * The bitwise operations on bytes, bit by bit.
 */
module Bits {
  import opened Words

  function BitAnd(x: Byte, y: Byte): Byte { (x as bv8 & y as bv8) as int }

  function BitOr(x: Byte, y: Byte): Byte { (x as bv8 | y as bv8) as int }

  function BitXor(x: Byte, y: Byte): Byte { (x as bv8 ^ y as bv8) as int }

  /** Bit i of a number. */
  function Bit(x: nat, i: nat): bool {
    if i == 0 then x % 2 == 1 else Bit(x / 2, i - 1)
  }

  function ToInt(v: bv8): Byte { v as int }

  function ToBits(x: Byte): bv8 { x as bv8 }

  function Lowest(v: bv8): bool { v & 1 == 1 }

  function Halved(v: bv8): bv8 { v >> 1 }

  function And(u: bv8, v: bv8): bv8 { u & v }

  function Or(u: bv8, v: bv8): bv8 { u | v }

  function Xor(u: bv8, v: bv8): bv8 { u ^ v }

  lemma LowestIs(v: bv8)
    ensures Lowest(v) <==> ToInt(v) % 2 == 1
  {
  }

  lemma HalfIs(v: bv8)
    ensures ToInt(Halved(v)) == ToInt(v) / 2
  {
  }

  lemma Halves(u: bv8, v: bv8)
    ensures Lowest(And(u, v)) <==> Lowest(u) && Lowest(v)
    ensures Lowest(Or(u, v)) <==> Lowest(u) || Lowest(v)
    ensures Lowest(Xor(u, v)) <==> Lowest(u) != Lowest(v)
    ensures Halved(And(u, v)) == And(Halved(u), Halved(v))
    ensures Halved(Or(u, v)) == Or(Halved(u), Halved(v))
    ensures Halved(Xor(u, v)) == Xor(Halved(u), Halved(v))
  {
  }

  lemma {:induction false} BitsOfBoth(u: bv8, v: bv8, i: nat)
    ensures Bit(ToInt(And(u, v)), i) <==> Bit(ToInt(u), i) && Bit(ToInt(v), i)
    ensures Bit(ToInt(Or(u, v)), i) <==> Bit(ToInt(u), i) || Bit(ToInt(v), i)
    ensures Bit(ToInt(Xor(u, v)), i) <==> Bit(ToInt(u), i) != Bit(ToInt(v), i)
    decreases i
  {
    hide ToInt, Lowest, Halved, And, Or, Xor;
    Halves(u, v);
    if i == 0 {
      LowestIs(u);
      LowestIs(v);
      LowestIs(And(u, v));
      LowestIs(Or(u, v));
      LowestIs(Xor(u, v));
    } else {
      HalfIs(u);
      HalfIs(v);
      HalfIs(And(u, v));
      HalfIs(Or(u, v));
      HalfIs(Xor(u, v));
      BitsOfBoth(Halved(u), Halved(v), i - 1);
    }
  }

  // Bytes as bit-vectors and back.

  lemma OneMore(v: bv8)
    ensures ToInt(v) < 255 ==> v < 255 && ToInt(v + 1) == ToInt(v) + 1
  {
  }

  lemma {:induction false} HasBits(x: Byte) returns (v: bv8)
    ensures ToInt(v) == x
  {
    if x == 0 {
      v := 0;
    } else {
      v := HasBits(x - 1);
      OneMore(v);
      v := v + 1;
    }
  }

  lemma BitsAndBack(v: bv8)
    ensures ToBits(ToInt(v)) == v
  {
  }

  lemma ByteAndBack(x: Byte)
    ensures ToInt(ToBits(x)) == x
  {
    hide ToInt, ToBits;
    var v := HasBits(x);
    BitsAndBack(v);
  }

  lemma OnBits(x: Byte, y: Byte)
    ensures BitAnd(x, y) == ToInt(And(ToBits(x), ToBits(y)))
    ensures BitOr(x, y) == ToInt(Or(ToBits(x), ToBits(y)))
    ensures BitXor(x, y) == ToInt(Xor(ToBits(x), ToBits(y)))
  {
  }

  /** Each bit of the result is what the operation makes of that bit of both operands. */
  lemma BitByBit(x: Byte, y: Byte, i: nat)
    ensures Bit(BitAnd(x, y), i) <==> Bit(x, i) && Bit(y, i)
    ensures Bit(BitOr(x, y), i) <==> Bit(x, i) || Bit(y, i)
    ensures Bit(BitXor(x, y), i) <==> Bit(x, i) != Bit(y, i)
  {
    hide ToInt, ToBits, And, Or, Xor, BitAnd, BitOr, BitXor;
    OnBits(x, y);
    BitsOfBoth(ToBits(x), ToBits(y), i);
    ByteAndBack(x);
    ByteAndBack(y);
  }
}

/** Three-bit codes: the octant numbers 0..7 used by the subdivision, the
    octant enumeration and the traversal order, and their bits. */
module Bits {

  /** An octant code. */
  type Code3 = k: int | 0 <= k < 8

  /** The bits of a code: `b2` is `(v >> 2) & 1`, `b1` is `(v >> 1) & 1`,
      `b0` is `v & 1`. */
  datatype Bits3 = Bits3(b2: bool, b1: bool, b0: bool)

  function B(b: bool): int { if b then 1 else 0 }

  /** `(b2 << 2) | (b1 << 1) | b0`. */
  function Pack(t: Bits3): Code3
  {
    4 * B(t.b2) + 2 * B(t.b1) + B(t.b0)
  }

  /** The bits of a code. */
  function Unpack(v: Code3): (t: Bits3)
    ensures Pack(t) == v
  {
    if v == 0 then Bits3(false, false, false)
    else if v == 1 then Bits3(false, false, true)
    else if v == 2 then Bits3(false, true, false)
    else if v == 3 then Bits3(false, true, true)
    else if v == 4 then Bits3(true, false, false)
    else if v == 5 then Bits3(true, false, true)
    else if v == 6 then Bits3(true, true, false)
    else Bits3(true, true, true)
  }

  /** `Unpack` reads the shifted-and-masked bits. */
  lemma UnpackIsShift(v: Code3)
    ensures Unpack(v).b2 <==> (v / 4) % 2 == 1
    ensures Unpack(v).b1 <==> (v / 2) % 2 == 1
    ensures Unpack(v).b0 <==> v % 2 == 1
  {
  }

  /** Packing and unpacking are inverse. */
  lemma UnpackPack(t: Bits3)
    ensures Unpack(Pack(t)) == t
  {
  }

  /** Bit-wise exclusive or. */
  function XorBits(a: Bits3, m: Bits3): Bits3
  {
    Bits3(a.b2 != m.b2, a.b1 != m.b1, a.b0 != m.b0)
  }

  /** Bit-wise complement. */
  function NotBits(a: Bits3): Bits3
  {
    Bits3(!a.b2, !a.b1, !a.b0)
  }

  /** Exclusive or of two codes, `a ^ m`. */
  function Xor(a: Code3, m: Code3): Code3
  {
    Pack(XorBits(Unpack(a), Unpack(m)))
  }

  /** Xor with a fixed mask undoes itself. */
  lemma XorInvolution(a: Code3, m: Code3)
    ensures Xor(Xor(a, m), m) == a
  {
    UnpackPack(XorBits(Unpack(a), Unpack(m)));
  }

  /** `7 - v` is the complement of `v`. */
  lemma Complement(v: Code3)
    ensures Unpack(7 - v) == NotBits(Unpack(v))
  {
  }

  /** Xor with 0 changes nothing; xor with 7 complements. */
  lemma XorZeroSeven(a: Code3)
    ensures Xor(a, 0) == a && Xor(0, a) == a
    ensures Xor(a, 7) == 7 - a && Xor(7, a) == 7 - a
  {
    Complement(a);
  }

  /** Setting a clear bit adds its weight. */
  lemma SetBit(k: Code3)
    ensures !Unpack(k).b0 ==> k + 1 < 8 && Unpack(k + 1) == Unpack(k).(b0 := true)
    ensures !Unpack(k).b1 ==> k + 2 < 8 && Unpack(k + 2) == Unpack(k).(b1 := true)
    ensures !Unpack(k).b2 ==> k + 4 < 8 && Unpack(k + 4) == Unpack(k).(b2 := true)
  {
  }
}

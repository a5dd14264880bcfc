/** The ray-direction traversal order of the eight octants and the octant
    printer. Octant codes here put z in bit 2, x in bit 1 and y in bit 0. */
module Traversal {
  import opened Bits
  import opened Geometry
  import opened Octants

  /** The flip mask, one bit per axis that is flipped: bit 2 when z is
      negative, bit 1 when x is, bit 0 when y is; zero counts as positive. */
  function SignMask(d: Vec3): Bits3
  {
    Bits3(d.z < 0.0, d.x < 0.0, d.y < 0.0)
  }

  /** The order for a flip mask: entry k is k with the masked bits flipped. */
  function Order(m: Bits3): (order: seq<Code3>)
    ensures |order| == 8
  {
    seq(8, (k: int) requires 0 <= k < 8 => Pack(XorBits(Unpack(k), m)))
  }

  /** The order for a direction. */
  function OrderFor(d: Vec3): (order: seq<Code3>)
    ensures |order| == 8
  {
    Order(SignMask(d))
  }

  /** Entry k of an order is `k ^ mask`. */
  lemma OrderIsXor(m: Bits3, k: Code3)
    ensures Order(m)[k] == Xor(k, Pack(m))
  {
    UnpackPack(m);
  }

  /** Entry k of an order is `k ^ mask`; the first entry is the mask and
      the last its complement. */
  lemma OrderEnds(m: Bits3)
    ensures forall k :: 0 <= k < 8 ==> Order(m)[k] == Xor(k, Pack(m))
    ensures Order(m)[0] == Pack(m) && Order(m)[7] == 7 - Pack(m)
  {
    forall k | 0 <= k < 8
      ensures Order(m)[k] == Xor(k, Pack(m))
    {
      OrderIsXor(m, k);
    }
    XorZeroSeven(Pack(m));
  }

  /** The step that adds the entry for loop counters z, x, y: packed as
      `(z << 2) | (x << 1) | y` the counters name position `4z + 2x + y`,
      and flipping each counter on a negative axis gives that position's
      entry. */
  lemma StepEntry(order: seq<int>, z: int, x: int, y: int, d: Vec3)
    requires 0 <= z < 2 && 0 <= x < 2 && 0 <= y < 2
    requires |order| == 4 * z + 2 * x + y && order == OrderFor(d)[..|order|]
    ensures var zBit := if d.z < 0.0 then 1 - z else z;
            var xBit := if d.x < 0.0 then 1 - x else x;
            var yBit := if d.y < 0.0 then 1 - y else y;
            order + [4 * zBit + 2 * xBit + yBit] == OrderFor(d)[..|order| + 1]
  {
    UnpackPack(Bits3(z == 1, x == 1, y == 1));
    var target := OrderFor(d);
    assert target[..|order| + 1] == target[..|order|] + [target[|order|]];
  }

  /** `calculate_traversal_order`: z outermost, then x, then y; each bit
      flipped when that direction component is negative, packed as
      `(z << 2) | (x << 1) | y` (the three shifted bits are disjoint, so the
      or is a sum). */
  method CalculateTraversalOrder(d: Vec3) returns (order: seq<int>)
    ensures order == OrderFor(d)
    ensures order[0] == Pack(SignMask(d)) && order[7] == 7 - Pack(SignMask(d))
  {
    order := [];
    for z := 0 to 2
      invariant |order| == 4 * z && order == OrderFor(d)[..|order|]
    {
      for x := 0 to 2
        invariant |order| == 4 * z + 2 * x && order == OrderFor(d)[..|order|]
      {
        for y := 0 to 2
          invariant |order| == 4 * z + 2 * x + y && order == OrderFor(d)[..|order|]
        {
          var zBit := if d.z < 0.0 then 1 - z else z;
          var xBit := if d.x < 0.0 then 1 - x else x;
          var yBit := if d.y < 0.0 then 1 - y else y;
          StepEntry(order, z, x, y, d);
          order := order + [4 * zBit + 2 * xBit + yBit];
        }
      }
    }
    assert order == OrderFor(d);
    OrderEnds(SignMask(d));
  }

  /** Every octant appears exactly once. */
  lemma OrderIsPermutation(d: Vec3)
    ensures forall k :: 0 <= k < 8 ==> 0 <= OrderFor(d)[k] < 8
    ensures forall i, j :: 0 <= i < j < 8 ==> OrderFor(d)[i] != OrderFor(d)[j]
    ensures forall o :: 0 <= o < 8 ==> o in OrderFor(d)
  {
    var order, m := OrderFor(d), SignMask(d);
    forall i, j | 0 <= i < j < 8
      ensures order[i] != order[j]
    {
      UnpackPack(XorBits(Unpack(i), m));
      UnpackPack(XorBits(Unpack(j), m));
    }
    forall o | 0 <= o < 8
      ensures o in order
    {
      var k := Pack(XorBits(Unpack(o), m));
      UnpackPack(XorBits(Unpack(o), m));
      assert order[k] == o;
    }
  }

  /** The order depends on nothing but the signs: two directions give the
      same order exactly when each component has the same sign test. */
  lemma OrderDependsOnlyOnSigns(d: Vec3, e: Vec3)
    ensures OrderFor(d) == OrderFor(e)
            <==> (d.x < 0.0 <==> e.x < 0.0) && (d.y < 0.0 <==> e.y < 0.0) && (d.z < 0.0 <==> e.z < 0.0)
  {
    if OrderFor(d) == OrderFor(e) {
      assert OrderFor(d)[0] == OrderFor(e)[0];
      UnpackPack(SignMask(d));
      UnpackPack(SignMask(e));
    }
  }

  /** A zero component is treated as a positive one. */
  lemma ZeroActsPositive(d: Vec3)
    ensures OrderFor(d.(x := 0.0)) == OrderFor(d.(x := 1.0))
    ensures OrderFor(d.(y := 0.0)) == OrderFor(d.(y := 1.0))
    ensures OrderFor(d.(z := 0.0)) == OrderFor(d.(z := 1.0))
  {
    OrderDependsOnlyOnSigns(d.(x := 0.0), d.(x := 1.0));
    OrderDependsOnlyOnSigns(d.(y := 0.0), d.(y := 1.0));
    OrderDependsOnlyOnSigns(d.(z := 0.0), d.(z := 1.0));
  }

  /** No negative component gives 0, 1, ..., 7; all negative gives
      7, 6, ..., 0. */
  lemma IdentityAndReversedOrders(d: Vec3, k: Code3)
    ensures d.x >= 0.0 && d.y >= 0.0 && d.z >= 0.0 ==> OrderFor(d)[k] == k
    ensures d.x < 0.0 && d.y < 0.0 && d.z < 0.0 ==> OrderFor(d)[k] == 7 - k
  {
    Complement(k);
  }

  function Negate(d: Vec3): Vec3 { Vec3(-d.x, -d.y, -d.z) }

  /** Complementing the mask reverses the order. */
  lemma ComplementReverses(m: Bits3)
    ensures forall k :: 0 <= k < 8 ==> Order(NotBits(m))[k] == Order(m)[7 - k]
  {
    forall k | 0 <= k < 8
      ensures Order(NotBits(m))[k] == Order(m)[7 - k]
    {
      Complement(k);
    }
  }

  /** Negating a component flips its sign bit unless it is zero. */
  lemma NegatedSignMask(d: Vec3)
    ensures var m, n := SignMask(d), SignMask(Negate(d));
            && (n.b2 == if d.z == 0.0 then m.b2 else !m.b2)
            && (n.b1 == if d.x == 0.0 then m.b1 else !m.b1)
            && (n.b0 == if d.y == 0.0 then m.b0 else !m.b0)
  {
  }

  /** With no zero component, the opposite direction visits the octants in
      exactly the reverse order. */
  lemma NegationReverses(d: Vec3)
    requires d.x != 0.0 && d.y != 0.0 && d.z != 0.0
    ensures forall k :: 0 <= k < 8 ==> OrderFor(Negate(d))[k] == OrderFor(d)[7 - k]
  {
    NegatedSignMask(d);
    assert SignMask(Negate(d)) == NotBits(SignMask(d));
    ComplementReverses(SignMask(d));
  }

  /** The converse: with a zero component the opposite direction does not
      visit the octants in reverse, since the zero axis keeps its half
      first in both. */
  lemma ZeroComponentBreaksReversal(d: Vec3)
    requires d.x == 0.0 || d.y == 0.0 || d.z == 0.0
    ensures OrderFor(Negate(d))[0] != OrderFor(d)[7]
  {
    var m, n := SignMask(d), SignMask(Negate(d));
    assert OrderFor(Negate(d))[0] == Pack(n);
    assert OrderFor(d)[7] == Pack(NotBits(m));
    if d.z == 0.0 {
      assert n.b2 != NotBits(m).b2;
    } else if d.x == 0.0 {
      assert n.b1 != NotBits(m).b1;
    } else {
      assert n.b0 != NotBits(m).b0;
    }
    UnpackPack(n);
    UnpackPack(NotBits(m));
  }

  /** In the traversal numbering (z, x, y from bit 2 down) the position for
      a choice of halves holds the octant with those halves mirrored on
      every negative axis. */
  lemma OrderMirrorsHalves(d: Vec3, xUp: bool, yUp: bool, zUp: bool)
    ensures OrderFor(d)[TraversalCode(xUp, yUp, zUp)]
            == TraversalCode(xUp != (d.x < 0.0), yUp != (d.y < 0.0), zUp != (d.z < 0.0))
  {
    UnpackPack(Bits3(zUp, xUp, yUp));
  }

  /** Front to back on each axis: when bit b of position k is clear,
      positions k and k + 2^b hold octants that differ only in bit b, and
      the earlier one is on the side the ray enters first: the lower half
      for a non-negative component, the upper half for a negative one. */
  lemma NearerHalfFirst(d: Vec3, k: Code3)
    ensures var m, t := SignMask(d), Unpack(k);
            !t.b0 ==> (k + 1 < 8 &&
                        var near, far := Unpack(OrderFor(d)[k]), Unpack(OrderFor(d)[k + 1]);
                        near.b0 == m.b0 && far == near.(b0 := !m.b0))
    ensures var m, t := SignMask(d), Unpack(k);
            !t.b1 ==> (k + 2 < 8 &&
                        var near, far := Unpack(OrderFor(d)[k]), Unpack(OrderFor(d)[k + 2]);
                        near.b1 == m.b1 && far == near.(b1 := !m.b1))
    ensures var m, t := SignMask(d), Unpack(k);
            !t.b2 ==> (k + 4 < 8 &&
                        var near, far := Unpack(OrderFor(d)[k]), Unpack(OrderFor(d)[k + 4]);
                        near.b2 == m.b2 && far == near.(b2 := !m.b2))
  {
    var m, t := SignMask(d), Unpack(k);
    SetBit(k);
    UnpackPack(XorBits(t, m));
    if !t.b0 { UnpackPack(XorBits(Unpack(k + 1), m)); }
    if !t.b1 { UnpackPack(XorBits(Unpack(k + 2), m)); }
    if !t.b2 { UnpackPack(XorBits(Unpack(k + 4), m)); }
  }

  // ---------------------------------------------------------------------
  // print_octant_bits

  /** The decimal digits of a natural number, most significant first. */
  function NatDigits(n: nat): (s: string)
    ensures |s| >= 1
    ensures forall i :: 0 <= i < |s| ==> '0' <= s[i] <= '9'
    ensures |s| > 1 ==> s[0] != '0'
    decreases n
  {
    if n < 10 then [(48 + n) as char]
    else NatDigits(n / 10) + [(48 + n % 10) as char]
  }

  /** The value of a digit string. */
  function DigitsValue(s: string): int
    decreases |s|
  {
    if |s| == 0 then 0
    else 10 * DigitsValue(s[..|s| - 1]) + (s[|s| - 1] as int - 48)
  }

  /** Python's `f"{o}"`: the decimal numeral, with a minus sign when
      negative. */
  function PrintOctantBits(o: int): (s: string)
    ensures |s| >= 1
    ensures o < 0 <==> s[0] == '-'
    ensures var digits := if o < 0 then s[1..] else s;
            && |digits| >= 1
            && (forall i :: 0 <= i < |digits| ==> '0' <= digits[i] <= '9')
            && (|digits| > 1 ==> digits[0] != '0')
  {
    if o < 0 then "-" + NatDigits(-o) else NatDigits(o)
  }

  /** Reading the numeral back gives the octant, whatever its bits. */
  lemma {:induction false} NatDigitsRoundTrip(n: nat)
    ensures DigitsValue(NatDigits(n)) == n
    decreases n
  {
    if n >= 10 {
      NatDigitsRoundTrip(n / 10);
      var s := NatDigits(n);
      assert s[..|s| - 1] == NatDigits(n / 10);
    }
  }

  lemma PrintOctantBitsRoundTrip(o: int)
    ensures var s := PrintOctantBits(o);
            o >= 0 ==> DigitsValue(s) == o
    ensures var s := PrintOctantBits(o);
            o < 0 ==> DigitsValue(s[1..]) == -o
  {
    if o >= 0 {
      assert PrintOctantBits(o) == NatDigits(o);
      NatDigitsRoundTrip(o);
    } else {
      NatDigitsRoundTrip(-o);
      assert PrintOctantBits(o)[1..] == NatDigits(-o);
    }
  }
}

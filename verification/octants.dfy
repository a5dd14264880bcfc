/** The `OctantPosition` enumeration and the three octant numberings in use:
    the enumeration's, the split's and the traversal order's. */
module Octants {
  import opened Bits
  import opened Geometry

  /** Named by vertical (Bottom = min y, Top = max y), horizontal
      (Left = min x, Right = max x) and depth (Back = min z, Front = max z)
      position. */
  datatype OctantPosition =
    | BottomLeftBack | BottomLeftFront | BottomRightBack | BottomRightFront
    | TopLeftBack | TopLeftFront | TopRightBack | TopRightFront
  {
    /** The enumerator's value. */
    function Value(): Code3
    {
      match this
      case BottomLeftBack => 0
      case BottomLeftFront => 1
      case BottomRightBack => 2
      case BottomRightFront => 3
      case TopLeftBack => 4
      case TopLeftFront => 5
      case TopRightBack => 6
      case TopRightFront => 7
    }

    predicate IsTop() { this in {TopLeftBack, TopLeftFront, TopRightBack, TopRightFront} }

    predicate IsRight() { this in {BottomRightBack, BottomRightFront, TopRightBack, TopRightFront} }

    predicate IsFront() { this in {BottomLeftFront, BottomRightFront, TopLeftFront, TopRightFront} }
  }

  /** The enumerator with a given value. */
  function FromValue(c: Code3): (p: OctantPosition)
    ensures p.Value() == c
  {
    [BottomLeftBack, BottomLeftFront, BottomRightBack, BottomRightFront,
     TopLeftBack, TopLeftFront, TopRightBack, TopRightFront][c]
  }

  /** The eight names have eight distinct values. */
  lemma ValuesDistinct(p: OctantPosition, q: OctantPosition)
    ensures p.Value() == q.Value() <==> p == q
    ensures FromValue(p.Value()) == p
  {
  }

  /** The value's bits spell the name: bit 2 is y (Top), bit 1 is x
      (Right), bit 0 is z (Front). */
  lemma ValueBits(p: OctantPosition)
    ensures Unpack(p.Value()) == Bits3(p.IsTop(), p.IsRight(), p.IsFront())
  {
  }

  /** The box corner the name refers to. */
  function Corner(p: OctantPosition, b: Box): (v: Vec3)
    ensures ValidBox(b) ==> Contains(b, v)
  {
    Vec3(if p.IsRight() then b.max.x else b.min.x,
         if p.IsTop() then b.max.y else b.min.y,
         if p.IsFront() then b.max.z else b.min.z)
  }

  /** The split numbers octants x = bit 0, y = bit 1, z = bit 2. */
  function SplitCode(xUp: bool, yUp: bool, zUp: bool): Code3
  {
    Pack(Bits3(zUp, yUp, xUp))
  }

  /** The enumeration numbers them y = bit 2, x = bit 1, z = bit 0. */
  function EnumCode(xUp: bool, yUp: bool, zUp: bool): (c: Code3)
    ensures FromValue(c).IsRight() == xUp && FromValue(c).IsTop() == yUp
            && FromValue(c).IsFront() == zUp
  {
    var c := Pack(Bits3(yUp, xUp, zUp));
    UnpackPack(Bits3(yUp, xUp, zUp));
    ValueBits(FromValue(c));
    c
  }

  /** The traversal order numbers them z = bit 2, x = bit 1, y = bit 0. */
  function TraversalCode(xUp: bool, yUp: bool, zUp: bool): Code3
  {
    Pack(Bits3(zUp, xUp, yUp))
  }

  /** The three numberings are pairwise different: the upper-x octant is
      1, 2, 2 and the upper-y octant 2, 4, 1 in split, enumeration and
      traversal numbering respectively. */
  lemma NumberingsDisagree()
    ensures SplitCode(true, false, false) == 1 && EnumCode(true, false, false) == 2
            && TraversalCode(true, false, false) == 2
    ensures SplitCode(false, true, false) == 2 && EnumCode(false, true, false) == 4
            && TraversalCode(false, true, false) == 1
  {
  }
}

/** The octree over spheres: nodes, the root build, the recursive split into
    eight octants and the sphere/box test that decides where an index goes. */
module Octree {
  import opened Results
  import opened Bits
  import opened Geometry
  import opened Spheres
  import opened Octants

  /** A node covers `box`. A leaf holds the indices of the spheres placed in
      it; an internal node has had its index list cleared and holds its
      children, eight of them in a well-formed tree. `objectCount` is the
      node's stored counter, which a split does not reset. */
  datatype Node =
    | Leaf(box: Box, objectIndices: seq<int>, objectCount: int)
    | Internal(box: Box, objectCount: int, children: seq<Node>)

  /** The octree and its limits; `root` is null until a build. */
  datatype Octree = Octree(maxDepth: int, maxSpheresPerNode: int, root: Option<Node>)

  datatype BuildError = InvalidArgument(message: string)

  /** The index list a node currently holds. */
  function Indices(n: Node): seq<int>
  {
    if n.Leaf? then n.objectIndices else []
  }

  /** Every index names a sphere of the list. */
  predicate InRange(indices: seq<int>, count: int)
  {
    forall j :: j in indices ==> 0 <= j < count
  }

  /** A fresh node: a leaf over the given box with no sphere and count 0. */
  function NewNode(box: Box): (n: Node)
    ensures n.Leaf? && n.box == box
    ensures Indices(n) == [] && n.objectCount == |Indices(n)|
  {
    Leaf(box, [], 0)
  }

  /** The constructor's default limits are depth 8 and 8 spheres per node. */
  function NewOctree(maxDepth: int := 8, maxSpheresPerNode: int := 8): (t: Octree)
    ensures t.root.None?
    ensures t.maxDepth == maxDepth && t.maxSpheresPerNode == maxSpheresPerNode
  {
    Octree(maxDepth, maxSpheresPerNode, None)
  }

  lemma NewOctreeDefaults()
    ensures NewOctree().maxDepth == 8 && NewOctree().maxSpheresPerNode == 8
    ensures NewOctree().root == None
  {
  }

  // ---------------------------------------------------------------------
  // Root bounds

  /** The hull of `acc` and every sphere extent, folded left to right. */
  function FoldBounds(acc: Box, spheres: seq<Sphere>): (r: Box)
    ensures ContainsBox(r, acc)
    ensures forall i :: 0 <= i < |spheres| ==> ContainsBox(r, Extent(spheres[i]))
    decreases |spheres|
  {
    if |spheres| == 0 then acc
    else
      var r := FoldBounds(Hull(acc, Extent(spheres[0])), spheres[1..]);
      assert forall i :: 1 <= i < |spheres| ==> spheres[i] == spheres[1..][i - 1];
      r
  }

  /** The fold adds nothing beyond its inputs: a box holding the start box
      and every extent holds the result. */
  lemma {:induction false} FoldBoundsLeast(acc: Box, spheres: seq<Sphere>, c: Box)
    requires ContainsBox(c, acc)
    requires forall i :: 0 <= i < |spheres| ==> ContainsBox(c, Extent(spheres[i]))
    ensures ContainsBox(c, FoldBounds(acc, spheres))
    decreases |spheres|
  {
    if |spheres| > 0 {
      assert ContainsBox(c, Extent(spheres[0]));
      assert forall i :: 0 <= i < |spheres| - 1 ==> spheres[1..][i] == spheres[i + 1];
      FoldBoundsLeast(Hull(acc, Extent(spheres[0])), spheres[1..], c);
    }
  }

  /** The root box: start from the first sphere's extent and fold every
      sphere's extent into it. */
  function RootBox(spheres: seq<Sphere>): (b: Box)
    requires |spheres| > 0
    ensures forall i :: 0 <= i < |spheres| ==> ContainsBox(b, Extent(spheres[i]))
  {
    FoldBounds(Extent(spheres[0]), spheres)
  }

  /** The root box is the least box containing every extent: any box that
      holds them all holds it. */
  lemma RootBoxLeast(spheres: seq<Sphere>, c: Box)
    requires |spheres| > 0
    requires forall i :: 0 <= i < |spheres| ==> ContainsBox(c, Extent(spheres[i]))
    ensures ContainsBox(c, RootBox(spheres))
  {
    FoldBoundsLeast(Extent(spheres[0]), spheres, c);
  }

  /** With no negative radius the root box is proper and holds every centre. */
  lemma RootBoxValid(spheres: seq<Sphere>, i: int)
    requires 0 <= i < |spheres|
    requires forall k :: 0 <= k < |spheres| ==> spheres[k].radius >= 0.0
    ensures ValidBox(RootBox(spheres))
    ensures Contains(RootBox(spheres), spheres[i].center)
  {
    var b := RootBox(spheres);
    var e := Extent(spheres[i]);
    assert ContainsBox(b, e) && ValidBox(e) && Contains(e, spheres[i].center);
  }

  /** `0, 1, ..., n-1`. */
  function Range(n: nat): (r: seq<int>)
    ensures |r| == n
    ensures forall i :: 0 <= i < n ==> r[i] == i
  {
    seq(n, i => i)
  }

  /** `build`: throws on an empty list; otherwise the root becomes a leaf
      over the root box holding every index in order. The root is not
      split. */
  function Build(t: Octree, spheres: seq<Sphere>): (r: Result<Octree, BuildError>)
    ensures r.Err? <==> |spheres| == 0
    ensures r.Ok? ==> r.value.maxDepth == t.maxDepth
                      && r.value.maxSpheresPerNode == t.maxSpheresPerNode
    ensures r.Ok? ==> r.value.root.Some? && r.value.root.value.Leaf?
    ensures r.Ok? ==> r.value.root.value.box == RootBox(spheres)
    ensures r.Ok? ==> var root := r.value.root.value;
                      && |root.objectIndices| == |spheres| == root.objectCount
                      && (forall i :: 0 <= i < |spheres| ==> root.objectIndices[i] == i)
                      && (forall i :: 0 <= i < |spheres| ==> ContainsBox(root.box, Extent(spheres[i])))
  {
    if |spheres| == 0 then Err(InvalidArgument("Sphere list is empty"))
    else
      var root := NewNode(RootBox(spheres));
      Ok(t.(root := Some(root.(objectIndices := Range(|spheres|), objectCount := |spheres|))))
  }

  // ---------------------------------------------------------------------
  // Octants

  /** Child `i` of a split: upper half of x when bit 0 of `i` is set, of y
      when bit 1 is, of z when bit 2 is; lower half otherwise. */
  function ChildBox(b: Box, i: Code3): Box
  {
    var m, t := Mid(b), Unpack(i);
    Box(Vec3(if t.b0 then m.x else b.min.x,
             if t.b1 then m.y else b.min.y,
             if t.b2 then m.z else b.min.z),
        Vec3(if t.b0 then b.max.x else m.x,
             if t.b1 then b.max.y else m.y,
             if t.b2 then b.max.z else m.z))
  }

  /** Every child of a proper box is a proper box inside it, has the centre
      as one corner, and spans half the parent on each axis. */
  lemma ChildBoxInside(b: Box, i: Code3)
    requires ValidBox(b)
    ensures ValidBox(ChildBox(b, i)) && ContainsBox(b, ChildBox(b, i))
    ensures var c := ChildBox(b, i);
            && (c.min.x == Mid(b).x || c.max.x == Mid(b).x)
            && (c.min.y == Mid(b).y || c.max.y == Mid(b).y)
            && (c.min.z == Mid(b).z || c.max.z == Mid(b).z)
            && 2.0 * (c.max.x - c.min.x) == b.max.x - b.min.x
            && 2.0 * (c.max.y - c.min.y) == b.max.y - b.min.y
            && 2.0 * (c.max.z - c.min.z) == b.max.z - b.min.z
    ensures Contains(ChildBox(b, i), Mid(b))
  {
  }

  /** The octant of `b` that a point falls in under the split's bit order
      (points on the centre plane go to the upper half). */
  function OctantOf(b: Box, p: Vec3): Code3
  {
    var m := Mid(b);
    Pack(Bits3(p.z >= m.z, p.y >= m.y, p.x >= m.x))
  }

  /** The eight children cover their parent: each point of the box lies in
      the child `OctantOf` names. */
  lemma ChildrenCover(b: Box, p: Vec3)
    requires Contains(b, p)
    ensures Contains(ChildBox(b, OctantOf(b, p)), p)
  {
    var m := Mid(b);
    UnpackPack(Bits3(p.z >= m.z, p.y >= m.y, p.x >= m.x));
  }

  /** Translating between numberings: the split child numbered by
      `SplitCode` holds the corner the enumeration names for the same
      halves. */
  lemma SplitChildHoldsNamedCorner(b: Box, xUp: bool, yUp: bool, zUp: bool)
    requires ValidBox(b)
    ensures Contains(ChildBox(b, SplitCode(xUp, yUp, zUp)),
                     Corner(FromValue(EnumCode(xUp, yUp, zUp)), b))
  {
    UnpackPack(Bits3(zUp, yUp, xUp));
  }

  /** Read as a child index, an enumerator value picks the wrong octant:
      child `BottomRightBack` (2) of [0,2]^3 is the upper-y one and does not
      hold the bottom-right-back corner (2, 0, 0). */
  lemma EnumValueIsNotChildIndex()
    ensures var b := Box(Splat(0.0), Splat(2.0));
            && Corner(BottomRightBack, b) == Vec3(2.0, 0.0, 0.0)
            && !Contains(ChildBox(b, BottomRightBack.Value()), Corner(BottomRightBack, b))
  {
    var b := Box(Splat(0.0), Splat(2.0));
    assert Mid(b) == Splat(1.0);
    assert ChildBox(b, 2) == Box(Vec3(0.0, 1.0, 0.0), Vec3(1.0, 2.0, 1.0));
  }

  // ---------------------------------------------------------------------
  // Sphere / box tests

  /** `sphereIntersectsBox` as written: clamp the centre into the box, then
      compare the LENGTH of the offset (not its square) with radius squared.
      Both sides are non-negative, so `length <= r*r` is `length^2 <= (r*r)^2`,
      which is stated here without a square root. */
  function SphereIntersectsBox(s: Sphere, b: Box): (r: bool)
    ensures Contains(b, s.center) ==> r
  {
    var d := Sub(ClosestPoint(b, s.center), s.center);
    SqNorm(d) <= (s.radius * s.radius) * (s.radius * s.radius)
  }

  /** What the as-written test decides: overlap with a sphere whose radius
      is the squared radius, so some point of the box lies within `r*r` of
      the centre. */
  lemma AsWrittenIsOverlapAtSquaredRadius(s: Sphere, b: Box)
    ensures SphereIntersectsBox(s, b) == SphereOverlapsBox(s.(radius := s.radius * s.radius), b)
  {
  }

  /** For any non-negative `len` with `len * len == SqNorm(d)` (the value
      `glm::length(d)` stands for), `len <= k` with `k >= 0` is the same test
      as `SqNorm(d) <= k * k`. */
  lemma LengthComparison(d: Vec3, len: real, k: real)
    requires len >= 0.0 && len * len == SqNorm(d) && k >= 0.0
    ensures len <= k <==> SqNorm(d) <= k * k
  {
    if len <= k {
      assert len * len <= k * len <= k * k;
    } else {
      MulStrict(k, len);
    }
  }

  lemma MulStrict(k: real, len: real)
    requires 0.0 <= k < len
    ensures k * k < len * len
  {
    PositiveProduct(len - k, len + k);
    assert (len - k) * (len + k) == len * len - k * k;
  }

  lemma PositiveProduct(a: real, c: real)
    requires a > 0.0 && c > 0.0
    ensures a * c > 0.0
  {
  }

  /** The evidently intended test: the squared distance from the centre to
      the nearest point of the box, against the squared radius. */
  function SphereOverlapsBox(s: Sphere, b: Box): (r: bool)
    ensures Contains(b, s.center) ==> r
    ensures r && ValidBox(b) ==>
              Contains(b, ClosestPoint(b, s.center))
              && SqNorm(Sub(ClosestPoint(b, s.center), s.center)) <= s.radius * s.radius
  {
    SqNorm(Sub(ClosestPoint(b, s.center), s.center)) <= s.radius * s.radius
  }

  /** The intended test is exact: it holds iff some point of the box lies
      within the radius of the centre (given by `p` in one direction, by the
      clamped point in the other). */
  lemma OverlapIffNearPoint(s: Sphere, b: Box, p: Vec3)
    requires Contains(b, p) && SqNorm(Sub(p, s.center)) <= s.radius * s.radius
    ensures SphereOverlapsBox(s, b)
  {
    ClosestPointNearest(b, s.center, p);
  }

  /** Overlap with a box implies overlap with every box around it. */
  lemma OverlapMonotone(s: Sphere, inner: Box, outer: Box)
    requires ValidBox(inner) && ContainsBox(outer, inner)
    requires SphereOverlapsBox(s, inner)
    ensures SphereOverlapsBox(s, outer)
  {
    var c := ClosestPoint(inner, s.center);
    OverlapIffNearPoint(s, outer, c);
  }

  /** The test as written disagrees with true overlap in both directions:
      a radius-0.5 sphere 0.3 away from the unit cube is rejected, and a
      radius-2 sphere 3 away is accepted. */
  lemma LengthTestMisjudges()
    ensures var cube := Box(Splat(0.0), Splat(1.0));
            var near := NewSphere(Vec3(-0.3, 0.5, 0.5), 0.5);
            var far := NewSphere(Vec3(-3.0, 0.5, 0.5), 2.0);
            && Contains(cube, Vec3(0.0, 0.5, 0.5))
            && SqNorm(Sub(Vec3(0.0, 0.5, 0.5), near.center)) <= near.radius * near.radius
            && !SphereIntersectsBox(near, cube)
            && SphereIntersectsBox(far, cube) && !SphereOverlapsBox(far, cube)
  {
    var cube := Box(Splat(0.0), Splat(1.0));
    var near := NewSphere(Vec3(-0.3, 0.5, 0.5), 0.5);
    assert ClosestPoint(cube, near.center) == Vec3(0.0, 0.5, 0.5);
    assert Sub(Vec3(0.0, 0.5, 0.5), near.center) == Vec3(0.3, 0.0, 0.0);
    assert SqNorm(Vec3(0.3, 0.0, 0.0)) == 0.09;
    assert (0.5 * 0.5) * (0.5 * 0.5) == 0.0625;
    var far := NewSphere(Vec3(-3.0, 0.5, 0.5), 2.0);
    assert ClosestPoint(cube, far.center) == Vec3(0.0, 0.5, 0.5);
    assert Sub(Vec3(0.0, 0.5, 0.5), far.center) == Vec3(3.0, 0.0, 0.0);
    assert SqNorm(Vec3(3.0, 0.0, 0.0)) == 9.0;
  }

  // ---------------------------------------------------------------------
  // Subdivision

  /** The parent's indices, in order, whose sphere passes `test` against
      `box`: the list a child receives. */
  function Accepted(indices: seq<int>, spheres: seq<Sphere>, box: Box,
                    test: (Sphere, Box) -> bool): (r: seq<int>)
    requires InRange(indices, |spheres|)
    ensures IsSubsequence(r, indices)
    ensures forall j :: j in r <==> j in indices && test(spheres[j], box)
    ensures forall j :: j in indices ==>
              multiset(r)[j] == if test(spheres[j], box) then multiset(indices)[j] else 0
    decreases |indices|
  {
    if |indices| == 0 then []
    else
      assert forall j :: j in indices <==> j == indices[0] || j in indices[1..];
      assert indices[0] in indices;
      assert indices == [indices[0]] + indices[1..];
      var rest := Accepted(indices[1..], spheres, box, test);
      if test(spheres[indices[0]], box) then [indices[0]] + rest else rest
  }

  /** `a` is `b` with some entries removed, order kept. */
  predicate IsSubsequence(a: seq<int>, b: seq<int>)
    decreases |b|
  {
    if |a| == 0 then true
    else if |b| == 0 then false
    else if a[0] == b[0] then IsSubsequence(a[1..], b[1..])
    else IsSubsequence(a, b[1..])
  }

  lemma {:induction false} SubsequenceOfTail(a: seq<int>, b: seq<int>)
    requires |b| > 0 && IsSubsequence(a, b[1..])
    ensures IsSubsequence(a, b)
    decreases |b|, |a|
  {
    if |a| > 0 && a[0] == b[0] {
      SubsequenceDropHead(a, b[1..]);
    }
  }

  lemma {:induction false} SubsequenceDropHead(a: seq<int>, b: seq<int>)
    requires |a| > 0 && IsSubsequence(a, b)
    ensures IsSubsequence(a[1..], b)
    decreases |b|, |a|
  {
    if |b| > 0 {
      if a[0] == b[0] {
        SubsequenceOfTail(a[1..], b);
      } else {
        SubsequenceDropHead(a, b[1..]);
        SubsequenceOfTail(a[1..], b);
      }
    }
  }

  /** A subsequence of a subsequence is a subsequence. */
  lemma {:induction false} SubsequenceTransitive(a: seq<int>, b: seq<int>, c: seq<int>)
    requires IsSubsequence(a, b) && IsSubsequence(b, c)
    ensures IsSubsequence(a, c)
    decreases |c|
  {
    if |a| == 0 {
    } else if |c| == 0 {
    } else if b[0] == c[0] {
      if a[0] == b[0] {
        SubsequenceTransitive(a[1..], b[1..], c[1..]);
      } else {
        SubsequenceTransitive(a, b[1..], c[1..]);
        SubsequenceOfTail(a, c);
      }
    } else {
      SubsequenceTransitive(a, b, c[1..]);
      SubsequenceOfTail(a, c);
    }
  }

  /** `static_cast<size_t>(m)` on a 64-bit `size_t`: reduction modulo 2^64,
      so a negative `int` limit wraps to a huge one. */
  function SizeT(m: int): (r: int)
    ensures 0 <= r < 0x1_0000_0000_0000_0000
    ensures 0 <= m < 0x1_0000_0000_0000_0000 ==> r == m
    ensures -0x1_0000_0000_0000_0000 <= m < 0 ==> r == m + 0x1_0000_0000_0000_0000
  {
    m % 0x1_0000_0000_0000_0000
  }

  /** The stop rule: too deep, or few enough indices. */
  predicate Stops(n: Node, depth: int, maxDepth: int, maxSpheres: int)
  {
    depth >= maxDepth || |Indices(n)| <= SizeT(maxSpheres)
  }

  /** The fresh child `i` of `n` after distribution: a leaf over the child
      box holding the accepted indices, its counter bumped once per index. */
  function SplitChild(n: Node, spheres: seq<Sphere>, i: Code3,
                      test: (Sphere, Box) -> bool): (c: Node)
    requires InRange(Indices(n), |spheres|)
    ensures c.Leaf? && c.box == ChildBox(n.box, i)
    ensures c.objectIndices == Accepted(Indices(n), spheres, ChildBox(n.box, i), test)
    ensures c.objectCount == |c.objectIndices|
    ensures InRange(c.objectIndices, |spheres|)
  {
    var box := ChildBox(n.box, i);
    var list := Accepted(Indices(n), spheres, box, test);
    NewNode(box).(objectIndices := list, objectCount := |list|)
  }

  /** `n` is the result of distributing `indices` down from its box: a leaf
      holds exactly `indices`; an internal node has eight children, child `i`
      over octant `i` of its box, with the in-order subsequence of `indices`
      that `test` accepts for that octant and a counter equal to its length,
      distributed further in turn. */
  ghost predicate Distributed(n: Node, indices: seq<int>, spheres: seq<Sphere>,
                              test: (Sphere, Box) -> bool)
    requires InRange(indices, |spheres|)
    decreases n
  {
    match n
    case Leaf(_, list, _) => list == indices
    case Internal(box, _, kids) =>
      && |kids| == 8
      && forall i: Code3 | i < 8 ::
           var list := Accepted(indices, spheres, ChildBox(box, i), test);
           && kids[i].box == ChildBox(box, i)
           && kids[i].objectCount == |list|
           && Distributed(kids[i], list, spheres, test)
  }

  /** Splits happen only above `maxDepth`, and only on nodes whose list
      exceeded the per-node limit. */
  ghost predicate RespectsLimits(n: Node, depth: int, maxDepth: int, maxSpheres: int)
    decreases n
  {
    match n
    case Leaf(_, _, _) => true
    case Internal(_, _, kids) =>
      && depth < maxDepth
      && forall i | 0 <= i < |kids| ::
           && (kids[i].Internal? ==> kids[i].objectCount > SizeT(maxSpheres))
           && RespectsLimits(kids[i], depth + 1, maxDepth, maxSpheres)
  }

  /** Every leaf below `n`, `n` sitting at `depth`, meets the stop rule at
      its own depth: the recursion went on until it held. */
  ghost predicate LeavesStop(n: Node, depth: int, maxDepth: int, maxSpheres: int)
    decreases n
  {
    match n
    case Leaf(_, _, _) => Stops(n, depth, maxDepth, maxSpheres)
    case Internal(_, _, kids) =>
      forall i | 0 <= i < |kids| :: LeavesStop(kids[i], depth + 1, maxDepth, maxSpheres)
  }

  /** `subdivideNode`, with the overlap test as a parameter: unchanged when
      it stops; otherwise split into eight octant children, the list
      distributed and the parent's list cleared (its counter kept), and
      every non-empty child subdivided one level deeper. */
  function Subdivide(n: Node, spheres: seq<Sphere>, depth: int, maxDepth: int,
                     maxSpheres: int, test: (Sphere, Box) -> bool): (r: Node)
    requires InRange(Indices(n), |spheres|)
    ensures r.box == n.box && r.objectCount == n.objectCount
    ensures Stops(n, depth, maxDepth, maxSpheres) ==> r == n
    ensures !Stops(n, depth, maxDepth, maxSpheres) ==> r.Internal? && Indices(r) == []
    ensures n.Leaf? ==> Distributed(r, Indices(n), spheres, test)
    ensures n.Leaf? ==> RespectsLimits(r, depth, maxDepth, maxSpheres)
    ensures n.Leaf? ==> LeavesStop(r, depth, maxDepth, maxSpheres)
    decreases maxDepth - depth
  {
    if Stops(n, depth, maxDepth, maxSpheres) then n
    else
      Internal(n.box, n.objectCount, seq(8, (i: int) requires 0 <= i < 8 =>
        var c := SplitChild(n, spheres, i, test);
        if |c.objectIndices| > 0 then Subdivide(c, spheres, depth + 1, maxDepth, maxSpheres, test) else c))
  }

  /** The source's own instance, with its configured limits and its test. */
  function SubdivideNode(t: Octree, n: Node, spheres: seq<Sphere>, depth: int): (r: Node)
    requires InRange(Indices(n), |spheres|)
    ensures r.box == n.box && r.objectCount == n.objectCount
    ensures Stops(n, depth, t.maxDepth, t.maxSpheresPerNode) ==> r == n
    ensures !Stops(n, depth, t.maxDepth, t.maxSpheresPerNode) ==> r.Internal?
    ensures n.Leaf? ==> Distributed(r, Indices(n), spheres, SphereIntersectsBox)
    ensures n.Leaf? ==> RespectsLimits(r, depth, t.maxDepth, t.maxSpheresPerNode)
    ensures n.Leaf? ==> LeavesStop(r, depth, t.maxDepth, t.maxSpheresPerNode)
  {
    Subdivide(n, spheres, depth, t.maxDepth, t.maxSpheresPerNode, SphereIntersectsBox)
  }

  // ---------------------------------------------------------------------
  // What a subdivided tree guarantees

  /** The tree has at most `h` levels below `n`. */
  ghost predicate HeightAtMost(n: Node, h: int)
    decreases n
  {
    match n
    case Leaf(_, _, _) => h >= 0
    case Internal(_, _, kids) => h >= 1 && forall i | 0 <= i < |kids| :: HeightAtMost(kids[i], h - 1)
  }

  /** A tree that splits only above `maxDepth` has at most
      `maxDepth - depth` levels below a node at `depth`. */
  lemma {:induction false} LimitsBoundHeight(n: Node, depth: int, maxDepth: int, maxSpheres: int)
    requires RespectsLimits(n, depth, maxDepth, maxSpheres)
    ensures HeightAtMost(n, if maxDepth > depth then maxDepth - depth else 0)
    decreases n
  {
    match n
    case Leaf(_, _, _) =>
    case Internal(_, _, kids) =>
      forall i | 0 <= i < |kids|
        ensures HeightAtMost(kids[i], maxDepth - depth - 1)
      {
        LimitsBoundHeight(kids[i], depth + 1, maxDepth, maxSpheres);
      }
  }

  /** The node layout's invariants: every box is proper, an internal node
      has exactly eight children whose boxes lie inside its own, and a leaf
      below the top counts exactly the indices it holds. */
  ghost predicate WellFormed(n: Node)
    decreases n
  {
    match n
    case Leaf(box, _, _) => ValidBox(box)
    case Internal(box, _, kids) =>
      && ValidBox(box)
      && |kids| == 8
      && forall i | 0 <= i < |kids| ::
           && ContainsBox(box, kids[i].box)
           && (kids[i].Leaf? ==> kids[i].objectCount == |kids[i].objectIndices|)
           && WellFormed(kids[i])
  }

  /** A distributed tree over a proper box is well formed. */
  lemma {:induction false} DistributedWellFormed(
    n: Node, indices: seq<int>, spheres: seq<Sphere>, test: (Sphere, Box) -> bool)
    requires InRange(indices, |spheres|)
    requires Distributed(n, indices, spheres, test) && ValidBox(n.box)
    ensures WellFormed(n)
    decreases n
  {
    match n
    case Leaf(_, _, _) =>
    case Internal(box, _, kids) =>
      forall i: Code3 | i < 8
        ensures ContainsBox(box, kids[i].box) && WellFormed(kids[i])
      {
        ChildBoxInside(box, i);
        var list := Accepted(indices, spheres, ChildBox(box, i), test);
        DistributedWellFormed(kids[i], list, spheres, test);
      }
  }

  /** Every leaf below `n` holds a subsequence of `indices`. */
  ghost predicate LeavesWithin(n: Node, indices: seq<int>)
    decreases n
  {
    match n
    case Leaf(_, list, _) => IsSubsequence(list, indices)
    case Internal(_, _, kids) => forall i | 0 <= i < |kids| :: LeavesWithin(kids[i], indices)
  }

  lemma {:induction false} SubsequenceReflexive(a: seq<int>)
    ensures IsSubsequence(a, a)
    decreases |a|
  {
    if |a| > 0 {
      SubsequenceReflexive(a[1..]);
    }
  }

  lemma {:induction false} LeavesWithinWiden(n: Node, a: seq<int>, b: seq<int>)
    requires LeavesWithin(n, a) && IsSubsequence(a, b)
    ensures LeavesWithin(n, b)
    decreases n
  {
    match n
    case Leaf(_, list, _) =>
      SubsequenceTransitive(list, a, b);
    case Internal(_, _, kids) =>
      forall i | 0 <= i < |kids|
        ensures LeavesWithin(kids[i], b)
      {
        LeavesWithinWiden(kids[i], a, b);
      }
  }

  /** After distribution every leaf holds an in-order subsequence of the
      list the distribution started from. */
  lemma {:induction false} DistributedLeavesAreSubsequences(
    n: Node, indices: seq<int>, spheres: seq<Sphere>, test: (Sphere, Box) -> bool)
    requires InRange(indices, |spheres|)
    requires Distributed(n, indices, spheres, test)
    ensures LeavesWithin(n, indices)
    decreases n
  {
    match n
    case Leaf(_, _, _) =>
      SubsequenceReflexive(indices);
    case Internal(box, _, kids) =>
      forall i: Code3 | i < 8
        ensures LeavesWithin(kids[i], indices)
      {
        var list := Accepted(indices, spheres, ChildBox(box, i), test);
        DistributedLeavesAreSubsequences(kids[i], list, spheres, test);
        LeavesWithinWiden(kids[i], list, indices);
      }
  }

  /** Sphere `s`, numbered `j`, is listed in every leaf whose box it
      overlaps. */
  ghost predicate Covers(n: Node, s: Sphere, j: int)
    decreases n
  {
    match n
    case Leaf(box, list, _) => SphereOverlapsBox(s, box) ==> j in list
    case Internal(_, _, kids) => forall i | 0 <= i < |kids| :: Covers(kids[i], s, j)
  }

  /** A sphere that misses a node's box misses every leaf below it. */
  lemma {:induction false} OutsideCovers(
    n: Node, indices: seq<int>, spheres: seq<Sphere>, test: (Sphere, Box) -> bool, s: Sphere, j: int)
    requires InRange(indices, |spheres|)
    requires Distributed(n, indices, spheres, test)
    requires ValidBox(n.box) && !SphereOverlapsBox(s, n.box)
    ensures Covers(n, s, j)
    decreases n
  {
    match n
    case Leaf(_, _, _) =>
    case Internal(box, _, kids) =>
      forall i: Code3 | i < 8
        ensures Covers(kids[i], s, j)
      {
        ChildBoxInside(box, i);
        if SphereOverlapsBox(s, kids[i].box) {
          OverlapMonotone(s, kids[i].box, box);
        }
        var list := Accepted(indices, spheres, ChildBox(box, i), test);
        OutsideCovers(kids[i], list, spheres, test, s, j);
      }
  }

  /** With the intended overlap test no reference is missed: a sphere of the
      starting list is in every leaf whose box it overlaps. */
  lemma {:induction false} NoMissedReference(
    n: Node, indices: seq<int>, spheres: seq<Sphere>, j: int)
    requires InRange(indices, |spheres|)
    requires Distributed(n, indices, spheres, SphereOverlapsBox)
    requires ValidBox(n.box) && j in indices
    ensures Covers(n, spheres[j], j)
    decreases n
  {
    match n
    case Leaf(_, _, _) =>
    case Internal(box, _, kids) =>
      forall i: Code3 | i < 8
        ensures Covers(kids[i], spheres[j], j)
      {
        ChildBoxInside(box, i);
        var list := Accepted(indices, spheres, ChildBox(box, i), SphereOverlapsBox);
        if SphereOverlapsBox(spheres[j], ChildBox(box, i)) {
          NoMissedReference(kids[i], list, spheres, j);
        } else {
          OutsideCovers(kids[i], list, spheres, SphereOverlapsBox, spheres[j], j);
        }
      }
  }

  /** Subdividing a proper leaf with the intended test keeps every sphere
      of its list in every leaf it overlaps, and keeps every leaf list an
      in-order subsequence of the original. */
  lemma SubdivideMissesNothing(n: Node, spheres: seq<Sphere>, depth: int, maxDepth: int,
                               maxSpheres: int, j: int)
    requires n.Leaf? && InRange(n.objectIndices, |spheres|) && ValidBox(n.box)
    requires j in n.objectIndices
    ensures Covers(Subdivide(n, spheres, depth, maxDepth, maxSpheres, SphereOverlapsBox), spheres[j], j)
    ensures LeavesWithin(Subdivide(n, spheres, depth, maxDepth, maxSpheres, SphereOverlapsBox), n.objectIndices)
  {
    var r := Subdivide(n, spheres, depth, maxDepth, maxSpheres, SphereOverlapsBox);
    NoMissedReference(r, n.objectIndices, spheres, j);
    DistributedLeavesAreSubsequences(r, n.objectIndices, spheres, SphereOverlapsBox);
  }

  /** With the test as written a reference is missed: one split of the box
      [0,2]^3 holding a radius-0.5 sphere centred at (-0.3, 0.5, 0.5) leaves
      the octant [0,1]^3, which the sphere overlaps, without it. */
  lemma AsWrittenMissesReference()
    ensures var t := NewOctree(1, 0);
            var spheres := [NewSphere(Vec3(-0.3, 0.5, 0.5), 0.5)];
            var n := Leaf(Box(Splat(0.0), Splat(2.0)), [0], 1);
            !Covers(SubdivideNode(t, n, spheres, 0), spheres[0], 0)
  {
    var t := NewOctree(1, 0);
    var spheres := [NewSphere(Vec3(-0.3, 0.5, 0.5), 0.5)];
    var n := Leaf(Box(Splat(0.0), Splat(2.0)), [0], 1);
    var r := SubdivideNode(t, n, spheres, 0);
    var cube := Box(Splat(0.0), Splat(1.0));
    assert ChildBox(n.box, 0) == cube;
    LengthTestMisjudges();
    assert Accepted([0], spheres, cube, SphereIntersectsBox) == [];
    assert r.children[0] == Leaf(cube, [], 0);
    assert SphereOverlapsBox(spheres[0], cube) by {
      OverlapIffNearPoint(spheres[0], cube, Vec3(0.0, 0.5, 0.5));
    }
  }
}

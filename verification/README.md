# Octree ray tracer core in Dafny

A model of the spatial index at the heart of OctreeRayTracer, a GPU ray
tracer over spheres, together with the proofs about it:

- the octree over spheres. This covers the node record, the tree's default limits and `build`, which folds the
  spheres' extents into a root box and puts every index in the root. It also covers
  `subdivideNode`, which splits a node at its centre into eight octants and
  hands every index to each child whose box passes `sphereIntersectsBox`,
  then recurses. Sources: `src/octree.cpp` and `src/octree.h`;
- the `OctantPosition` enumeration and the three different octant
  numberings in the code (`src/octree.h`, `src/octree.cpp`, `test.py`);
- the ray-direction traversal order `calculate_traversal_order` and the
  printer `print_octant_bits` (`test.py`);
- the `Triangle` constructor, `getCenter` and `isInBox`
  (`src/triangle.cpp`), and the `Sphere` record with its defaults
  (`src/sphere.h`).

Coordinates are `real`. Nodes are an immutable datatype: `Leaf` holds its
index list and `Internal` holds a sequence of children. Build errors are a
`Result`.

Modules, one per file:

| file | module | contents |
|---|---|---|
| results.dfy | Results | `Option`, `Result` |
| bits.dfy | Bits | three-bit octant codes and their bits |
| geometry.dfy | Geometry | vectors, boxes, centre, hull, clamping |
| sphere.dfy | Spheres | the `Sphere` record |
| triangle.dfy | Triangles | the `Triangle` record and its box test |
| octants.dfy | Octants | `OctantPosition` and the three numberings |
| octree.dfy | Octree | nodes, build, split, the overlap tests, tree properties |
| traversal.dfy | Traversal | traversal order and octant printing |

Points where the code's behaviour is easy to misread, stated as the code has it:

- The code uses three octant numberings:
  - the split puts x in bit 0, y in bit 1 and z in bit 2;
  - the `OctantPosition` enumeration puts y in bit 2, x in bit 1 and z in bit 0;
  - the traversal order puts z in bit 2, x in bit 1 and y in bit 0.

  `Octants.NumberingsDisagree` and `Octree.EnumValueIsNotChildIndex` show the mismatch.
- `build` fails only on an empty list. It accepts a negative radius or a flat root box (`Octree.Build`, `Spheres.Extent`).
- `build` never calls `subdivideNode`: the root stays a single leaf. Build and subdivision are separate functions here.
- A split clears the parent's index list but keeps its `objectCount`, so an internal node carries a stale count.
- order(−d) is the reverse of order(d) only when no component of d is zero (`Traversal.NegationReverses`, `Traversal.ZeroComponentBreaksReversal`).

## Model

| member | source | states |
|---|---|---|
| Octree.NewNode | src/octree.cpp:4-9 | a fresh node is a leaf over the given box with no indices and a count of 0 |
| Octree.NewOctree | src/octree.cpp:17-18 | a new tree keeps the limits it is given and has no root |
| Octree.NewOctreeDefaults | src/octree.h:52 | the default limits are depth 8 and 8 spheres per node |
| Octree.FoldBounds | src/octree.cpp:33-39 | the folded box contains the starting box and every sphere's extent |
| Octree.FoldBoundsLeast | src/octree.cpp:33-39 | any box holding the starting box and every extent holds the folded box |
| Octree.RootBoxLeast | src/octree.cpp:30-42 | the root box lies inside every box that holds all the extents, so it is the least such box |
| Octree.RootBoxValid | src/octree.cpp:30-42 | with no negative radius, the root box is proper (min ≤ max) and holds every centre |
| Octree.Build | src/octree.cpp:24-49 | an error exactly when the list is empty; otherwise the limits are kept, and the root is a leaf holding indices 0..n-1 in order with count n, over the folded root box, which contains every extent |
| Spheres.Extent | src/octree.cpp:34-35 | the extent is centre ∓ radius; it is a proper box exactly when the radius is not negative; it is centred on the sphere |
| Geometry.ClosestPoint | src/octree.cpp:106-108 | the clamped point lies in a proper box, and is the centre itself when the centre is inside |
| Geometry.ClosestPointNearest | src/octree.cpp:106-108 | no point of the box is closer to the centre than the clamped point |
| Octree.ChildBoxInside | src/octree.cpp:58-75 | each child of a proper box is proper and lies inside it; on each axis it has the centre as one bound and spans half the parent; it contains the centre |
| Octree.ChildrenCover | src/octree.cpp:64-75 | each point of the box lies in the child whose bits give its upper and lower halves, so the eight children cover the parent |
| Octree.SphereIntersectsBox | src/octree.cpp:101-113 | as written: a sphere whose centre is inside the box always passes the test |
| Octree.AsWrittenIsOverlapAtSquaredRadius | src/octree.cpp:111-112 | the as-written test is the intended overlap test for a sphere of radius r², so it passes exactly when some point of the box lies within r² of the centre |
| Octree.LengthComparison | src/octree.cpp:111-112 | comparing the vector length with k is the same test as comparing its squared length with k²; this justifies modelling `length ≤ r·r` without a square root |
| Octree.SphereOverlapsBox | src/octree.cpp:101-112 | corrected test: a centre inside the box passes, and a pass yields a point of the box within the radius of the centre |
| Octree.OverlapIffNearPoint | src/octree.cpp:106-112 | any point of the box within the radius makes the corrected test pass, which is the converse of the pass guarantee |
| Octree.OverlapMonotone | src/octree.cpp:101-112 | a sphere that overlaps a box overlaps every box around it |
| Octree.LengthTestMisjudges | src/octree.cpp:111-112 | the as-written test rejects a sphere that reaches into the unit cube and accepts one that does not |
| Octree.Accepted | src/octree.cpp:78-88 | a child's list is an in-order subsequence of the parent's. It holds exactly the parent's indices whose sphere passes the test for that child's box, each as many times as the parent lists it |
| Octree.SizeT | src/octree.cpp:53 | the size_t conversion keeps limits in 0..2^64-1 unchanged and wraps a negative limit to 2^64 + m |
| Octree.Subdivide | src/octree.cpp:51-99 | the box and count are kept. When the stop rule holds, the node is unchanged. Otherwise it becomes internal with an empty list. A split leaf becomes a correctly distributed tree (8 children over the octant boxes; each list the accepted subsequence, with its length as count) that splits only above max depth and only over-full children, and whose every leaf meets the stop rule at its own depth, so the recursion reaches every non-empty child |
| Octree.SubdivideNode | src/octree.cpp:51-99 | the same guarantees for the source's own instance, with the tree's limits and the as-written test, including that every leaf meets the stop rule |
| Octree.LimitsBoundHeight | src/octree.cpp:53-98 | a tree that splits only above max depth has at most maxDepth − depth levels, so subdivision terminates by depth |
| Octree.DistributedWellFormed | src/octree.h:34-44 | in a distributed tree over a proper box, every box is proper. Each internal node has exactly 8 children inside its box, and each leaf below the top node has a count equal to its list length |
| Octree.DistributedLeavesAreSubsequences | src/octree.cpp:78-91 | every leaf list is an in-order subsequence of the list that was split |
| Octree.NoMissedReference | src/octree.cpp:78-88 | with the corrected test, a sphere of the list appears in every leaf whose box it overlaps |
| Octree.SubdivideMissesNothing | src/octree.cpp:51-99 | subdividing a proper leaf with the corrected test misses no overlapping leaf, and keeps every leaf list a subsequence of the original |
| Octree.AsWrittenMissesReference | src/octree.cpp:78-112 | with the as-written test, one split leaves a sphere out of an octant it overlaps |
| Octants.FromValue | src/octree.h:10-20 | the enumerator looked up by value has that value |
| Octants.ValuesDistinct | src/octree.h:10-20 | the eight names have eight distinct values, and lookup by value inverts the naming |
| Octants.ValueBits | src/octree.h:11-19 | a value's bits read y (Top), x (Right) and z (Front), from bit 2 down |
| Octants.Corner | src/octree.h:12-19 | the corner a name denotes lies in a proper box |
| Octants.EnumCode | src/octree.h:11-19 | the enumerator numbered from three half choices has exactly those halves in its name |
| Octants.NumberingsDisagree | src/octree.cpp:70-72 | no two of the three numberings agree on both octants: upper-x is numbered 1, 2, 2 and upper-y 2, 4, 1 (split, enumeration, traversal) |
| Octree.SplitChildHoldsNamedCorner | src/octree.cpp:70-72 | the split child chosen by the split's own numbering holds the corner the enumeration names for the same halves |
| Octree.EnumValueIsNotChildIndex | src/octree.cpp:70-72 | an enumerator value used as a child index selects the wrong octant |
| Bits.UnpackIsShift | test.py:20-22 | the three bits of a code are `(v >> 2) & 1`, `(v >> 1) & 1` and `v & 1` |
| Bits.UnpackPack | test.py:13 | packing three bits into a code and unpacking it gives the same bits back |
| Bits.XorInvolution | test.py:9-13 | flipping with the same mask twice restores the code |
| Traversal.CalculateTraversalOrder | test.py:1-16 | the loops produce exactly the order for the direction's sign mask; the first entry is the mask and the last is 7 − mask |
| Traversal.StepEntry | test.py:9-14 | the value the inner loop appends is the entry at position 4z + 2x + y |
| Traversal.OrderEnds | test.py:5-14 | entry k is k XOR m; the first entry is m and the last is 7 XOR m |
| Traversal.OrderIsPermutation | test.py:5-14 | all eight entries lie in 0..7, are pairwise distinct, and every octant appears |
| Traversal.OrderDependsOnlyOnSigns | test.py:9-13 | two directions give the same order exactly when each component passes the same `< 0` test |
| Traversal.ZeroActsPositive | test.py:9-11 | a zero component gives the same order as a positive one |
| Traversal.IdentityAndReversedOrders | test.py:9-11 | all components non-negative gives 0..7; all negative gives 7..0 |
| Traversal.ComplementReverses | test.py:9-13 | complementing the mask reverses the order |
| Traversal.NegatedSignMask | test.py:9-11 | negating the direction flips each sign bit except on a zero axis |
| Traversal.NegationReverses | test.py:9-13 | with no zero component, the opposite direction gives the reverse order |
| Traversal.ZeroComponentBreaksReversal | test.py:9-11 | with a zero component, the opposite direction's order is not the reverse |
| Traversal.OrderMirrorsHalves | test.py:5-14 | in the traversal numbering, the position for a choice of halves holds the octant with those halves mirrored on each negative axis |
| Traversal.NearerHalfFirst | test.py:5-14 | on each axis, paired positions hold octants that differ on that axis alone; the earlier is the half the ray enters first |
| Traversal.PrintOctantBits | test.py:18-23 | the string starts with a minus sign exactly when the octant is negative; the rest is a non-empty run of decimal digits with no leading zero (the canonical numeral) |
| Traversal.NatDigitsRoundTrip | test.py:23 | reading the decimal digits back gives the number |
| Traversal.PrintOctantBitsRoundTrip | test.py:18-23 | the printed string reads back as the octant, whatever its bits, including after the sign of a negative value |
| Triangles.NewTriangle | src/triangle.cpp:13 | the constructor stores the vertices and colour unchanged |
| Triangles.GetCenter | src/triangle.cpp:71-77 | each centre coordinate is one third of the vertex sum on that axis |
| Triangles.CenterInBox | src/triangle.cpp:71-77 | the centre lies in every box that holds the three vertices |
| Triangles.CenterSymmetric | src/triangle.cpp:71-77 | the centre ignores vertex order, and a triangle collapsed to a point has that point as its centre |
| Triangles.IsInBox | src/triangle.cpp:86-90 | true exactly when some vertex lies in the closed box |
| Triangles.IsInBoxInclusive | src/triangle.cpp:87-89 | any of the three vertices lying on any of the box's eight corners counts as inside |
| Triangles.IsInBoxPermutation | src/triangle.cpp:87-89 | the answer does not depend on vertex order |
| Triangles.IsInBoxMonotone | src/triangle.cpp:87-89 | true for a box implies true for any box around it |
| Triangles.IsInBoxIgnoresEdges | src/triangle.cpp:86-90 | a triangle whose edge crosses the box, with no vertex inside, gives false |
| Spheres.NewSphere | src/sphere.h:20-21 | the constructor stores every field as given, with no check on the radius |
| Spheres.NewSphereDefaults | src/sphere.h:20 | by default the material is 0, the albedo (1, 1, 1), the fuzz 0 and the refraction index 1, with the radius as given |

## Left out

- The renderer, window, shaders, GPU buffers and main program (`src/raytracer.cpp`, `src/main.cpp`, the mesh and shader wrappers): graphics I/O with no logic to state.
- The benchmark runner script and the compile-time configuration header: file and process I/O, and constants only.
- `Triangle::intersect`: floating-point Möller–Trumbore with epsilon tolerances, which is outside the real-number model.
- The triangle's stored normal: it needs a normalised cross product, which involves a square root.
- The node's `childrenOffset` and `objectsOffset`: only the constructor sets them (to −1), and `setGPUData`, which would assign them, is not part of this model. The node's `children[8]` pointer array is the datatype's child sequence, so a fresh leaf has no children.
- `setGPUData`, `printFlattenedTree` and `cleanup`: declared in the header but not defined in any of the program's source files. The `Octree` class's `flattenedTree` and `objectIndices` vectors (src/octree.h:56-57) are left out with them, since only `setGPUData` fills them; the `Octree` datatype has no counterpart.
- Octree traversal by rays, slab tests and pruning: these live in a fragment shader that is not part of this model.
- The `debug` parameter that the header declares on `build` and `subdivideNode`: the definitions take no such parameter, so the model follows the definitions.
- Float rounding: coordinates are reals, and `(min + max) * 0.5` is exact. Reals have no NaN and no −0.0. Python's `< 0.0` at test.py:9-11 treats both as non-negative, so they would take the non-negative branch; the model has no such values.
- Octree.SphereIntersectsBox: `glm::length` is not computed, since there is no square root. The test is stated as `|d|² ≤ (r·r)²`, which `Octree.LengthComparison` proves equivalent to `length ≤ r·r` for the non-negative length.
- Octree.SizeT: `size_t` is taken to be 64 bits wide.
- Traversal.PrintOctantBits: prints every int. Python's `f"{octant}"` (test.py:23) raises `ValueError` for an int of more than 4300 decimal digits, under the default integer string conversion limit of current CPython releases; that error path is not modelled. The callers (test.py:52-54, 59-61) pass only octants 0..7.
- Octree.Build: counts and indices are treated as unbounded, while the source uses 32-bit `int`. The loop index `int i` (src/octree.cpp:45), the narrowing `objectCount = spheres.size()` (line 48) and a child's `objectCount++` (line 85) would all overflow past 2^31 − 1 spheres.
- DistributedWellFormed: the count of the top node itself is not constrained. It is whatever the caller stored: `build` sets it to the list length, and a split keeps it even after clearing the list.

## Findings

| source | as written | input that shows it | evidently intended | confidence | as-written member | corrected member |
|---|---|---|---|---|---|---|
| src/octree.cpp:111-112 | `glm::length(closest - center) <= radius * radius`: a distance is compared with a squared radius | a sphere at (−0.3, 0.5, 0.5) with radius 0.5 reaches the unit cube (distance 0.3) but is rejected, since 0.3 > 0.25; a sphere at (−3, 0.5, 0.5) with radius 2 is 3 away but accepted, since 3 ≤ 4. After one split of [0,2]³, the first sphere is missing from the octant [0,1]³ | compare the squared distance with the squared radius (or the distance with the radius), so that a sphere is listed in every child it overlaps | not executed | Octree.SphereIntersectsBox (shown by Octree.LengthTestMisjudges and Octree.AsWrittenMissesReference) | Octree.SphereOverlapsBox (proved by Octree.OverlapIffNearPoint, Octree.NoMissedReference and Octree.SubdivideMissesNothing) |

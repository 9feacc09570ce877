# OPCODE collision trees and the SDL2 patch applier, verified

This project models two parts of the engine repository in Dafny and proves what they are for.

**OPCODE** (`Externals/OPCODE`) builds an axis-aligned box tree over a triangle mesh, flattens it
into one of two tagged-pointer layouts, and answers ray, sphere, box, oriented-box, plane-set and
tree-against-tree queries by walking the array with pruning, bulk dumps of contained subtrees,
first-contact exits and temporal caches. Every fast query has an obvious slow meaning: test every
triangle, or every pair. The main results say how the two agree, on every mesh, tree and volume:

- the build permutes one shared index array in place, cuts every node as its splitting rule says and
  yields a tight, nested tree with every primitive in one leaf (`AABBTrees`, `Splits`, `Trees`), whose two flattenings decode back to it
  (`OptimizedTrees`), also after being saved and loaded at another address (`ModelStream`);
- each primitive test is exact against the geometry it stands for (`SphereTri`, `SphereBox`,
  `RayTri`, `RayBox`, `PlaneTests`, and with all 13 axes `TriBoxExact`, by Helly's theorem), or
  never rejects solids sharing a point (`TriBox` without the edge axes, `BoxBox`); the
  triangle-triangle test is exact away from its epsilon and from faces without area (`TriTri`);
- each query reports what brute force does, in depth-first order and alike on both layouts
  (`VolumeColliders`, `PlanesColliders`, `RayColliders`), and a query on two trees the pairs that
  touch (`TreeColliders`);
- the box and the sphere cache of coherent queries give complete answers over a run of queries in
  any modes exactly under conditions the queries alone decide (`AABBCaches`, `SphereCaches`).

`Search` holds the one notion all queries share: a report in which every candidate that *must* be
listed is, and only candidates that *may* be listed are. Where the two sets coincide (boxes of both
kinds, rays, planes, spheres over meshes without degenerate faces) the report is the brute-force
list. A degenerate face is listed by a sphere query only with a box that lies inside the sphere,
because the sphere-triangle test refuses it; the list is then still stated exactly, box by box. A
query on two no-leaf trees calls the triangle test in one frame or another, depending on the shapes
of the trees, so each pair carries its frame. Its answer holds every accepted pair that shares a
point, and only accepted pairs, for any test; pair by pair, faces the source's own test is right
about are listed exactly when they share a point in the world.

**The patch applier** (`cmake/ios/apply_sdl2_scene_patch.py`) splices hunks with a running offset
and writes files one atomic write at a time. The splice is the simultaneous replacement in original
coordinates and can be undone (`Hunks`); a run decides everything before its first write, and a
rerun after a crash completes, confirms or refuses (`PatchRun`). The parser reads exactly the
texts a grammar of patches allows (`PatchGrammar`), and gives back a well-formed patch from its text
under the condition stated below (`PatchFile`, `TextLines`).

## Conventions

Coordinates are `real`. The integer tricks on float patterns are handled separately: `FloatBits`
proves, on the patterns, that they are the real comparisons used everywhere else. Flag words and clip
masks are 32-bit values with bitwise operators defined bit by bit; `ColliderFlags` shows that the
flag word behaves as a record of four booleans, which the colliders then use. A pointer to node i is
the word 2i in the flattened trees and a real 64-bit address in `ModelStream`. Mutable source objects
are classes; immutable node arrays are sequences during a query. A ghost tree accompanies each
recursion and names the subtree the array encodes at the current node.

The settings a query reads (faces, vertices, modes, the maximal distance) are constants or fields
set before it. World matrices are rotations with translation, as the source demands, or absent;
`Motions` carries their algebra, and each collider has a lemma turning its model-space answer into
one about the world (spheres, oriented boxes, rays, planes, pairs of models). Box queries take no
matrix in the source either.

Some properties do not hold as one might expect. Each has a concrete failing input and the exact
condition under which it holds:

- the triangle-triangle test accepts faces that share no point, near the other's plane or without
  an area: `TriTri.ExactGuardIff`, `NearbyAccepted`, `NeedleAccepted`, and for whole queries
  `FalseContacts`;
- the sphere cache's guard squares a difference of radii without looking at its sign, and a list is
  kept when a query with coherence off or in first-contact mode overwrites it under the old sphere:
  `SphereCaches.SphereRunCompleteIff`, `GrownQueryMisses`, `NewCacheMisses`;
- the box cache keeps its box in the same way when such a query overwrites its list:
  `AABBCaches.RunCompleteIff`, `MixedRunMisses`;
- a world matrix may change which faces a plane culls: `PlanesColliders.TransformVerdictIff`,
  `VisibleFaceCulled`;
- a saved model a few bytes short may be loaded: `ModelStream.ModelImage.Load`,
  `ShortStreamAccepted`;
- a patch is not read back when a removed line's text starts with two dashes and a space, because
  such a line is written like the header of a file section, nor when a line holds a second line
  boundary or lacks its own: `PatchFile.TextRoundTripIff`, `RemovedDashesRefused`,
  `FormFeedNotReadBack`;
- a patched tree may be patched again, when two manifest paths name one file:
  `PatchRun.PatchedThenPostimageIff`, `AliasedPathsPatchAgain`.

The code and its comments disagree in one place that shows here: the build never splits at the
geometric center, because `OPC_TreeBuilders.cpp:161` declares an overload instead of overriding
`GetSplittingValueEx` (`OPC_TreeBuilders.h:81`), so SPLIT_GEOMCENTER has no effect. The model follows
the code.

## Model

| member | source | states |
|---|---|---|
| `FloatBits.ConvertToSortable` | Externals/OPCODE/OPC_FPU.h:196-204 | the xor/and/subtract sequence yields plus or minus the magnitude pattern, by the sign bit |
| `FloatBits.SortableOrder` | Externals/OPCODE/OPC_FPU.h:196-204 | over all finite binary32 patterns the sortable integers are ordered exactly as the represented numbers; equal only for equal values, the two zeros both giving 0 |
| `FloatBits.SignAndMagnitude` | Externals/OPCODE/OPC_FPU.h:17-31 | IS_NEGATIVE_FLOAT is the sign bit and AIR the pattern without it |
| `FloatBits.GreaterIsComparison` | Externals/OPCODE/OPC_Common.h:23-28 | GREATER(x, y) is abs(x) > y when the sign bit of y is clear, and never holds when it is set |
| `ColliderFlags.SettingFlags` | Externals/OPCODE/OPC_Collider.h:23-34 | or-ing a flag constant into the word sets exactly the booleans it stands for |
| `ColliderFlags.ClearingFlags` | Externals/OPCODE/OPC_Collider.h:90-134 | and-ing with a complement clears exactly those; InitQueryEx forgets contact and temporal hit and keeps both modes |
| `ColliderFlags.StatusGetters` | Externals/OPCODE/OPC_Collider.h:51-79 | each mask getter reads its boolean, TemporalHit included; ContactFound needs first-contact mode and a contact together |
| `TriBox.PlaneBoxOverlap` | Externals/OPCODE/OPC_TriBoxOverlap.h:16-38 | for any plane offset the loop picks the extreme corners: TRUE exactly when the offset is within the projected half-width |
| `TriBox.AxisTest` | Externals/OPCODE/OPC_TriBoxOverlap.h:41-126 | the swap-and-compare tail of each axis macro is two-sided separation |
| `TriBox.EdgeAxisPairs` | Externals/OPCODE/OPC_TriBoxOverlap.h:41-126 | the two vertices of an edge project alike on its cross axes, so testing two of the three vertices decides separation |
| `TriBox.Class3Tests` | Externals/OPCODE/OPC_TriBoxOverlap.h:129-158 | the nine macro calls decide the nine edge-cross-axis separations |
| `TriBox.TriBoxOverlap` | Externals/OPCODE/OPC_TriBoxOverlap.h:169-426 | every version of the test returns TRUE exactly when no axis of the SAT family separates triangle and box (edge axes optional in the tree collider) |
| `TriBox.SharedPointPasses` | Externals/OPCODE/OPC_TriBoxOverlap.h:334-426 | FALSE is a proof of disjointness: a triangle sharing a point with the box always passes |
| `TriBox.PassesMonotone` | Externals/OPCODE/OPC_TriBoxOverlap.h:334-426 | growing the box keeps every accepted triangle |
| `TriBoxExact.FullTestIff` | Externals/OPCODE/OPC_TriBoxOverlap.h:334-426 | TRUE exactly when triangle and solid box have a common point: the 13 axes are complete, for every triangle, degenerate ones included |
| `SphereTri.StationaryIsMinimum` | Externals/OPCODE/OPC_SphereTriOverlap.h:4-236 | a point satisfying the first-order conditions is the global minimum of the convex quadratic over the triangle |
| `SphereTri.MinimizeAlongU` | Externals/OPCODE/OPC_SphereTriOverlap.h:84-102 | the clamped minimum along one edge and its distance value |
| `SphereTri.MinimizeAlongV` | Externals/OPCODE/OPC_SphereTriOverlap.h:64-83 | the clamped minimum along the other edge and its distance value |
| `SphereTri.Region0` | Externals/OPCODE/OPC_SphereTriOverlap.h:103-120 | the interior minimiser is stationary and the value computed there is the quadratic |
| `SphereTri.Region1` | Externals/OPCODE/OPC_SphereTriOverlap.h:207-232 | the clamped minimum on the hypotenuse is stationary over the whole triangle |
| `SphereTri.Region2` | Externals/OPCODE/OPC_SphereTriOverlap.h:125-165 | every branch of region 2 ends at a stationary point |
| `SphereTri.Region6` | Externals/OPCODE/OPC_SphereTriOverlap.h:166-206 | every branch of region 6 ends at a stationary point |
| `SphereTri.SphereTriOverlap` | Externals/OPCODE/OPC_SphereTriOverlap.h:4-236 | for every triangle and sphere: TRUE exactly when the triangle is non-degenerate and has a point strictly inside the sphere |
| `SphereBox.SphereAABBOverlap` | Externals/OPCODE/OPC_SphereAABBOverlap.h:11-60 | despite the early exits, TRUE exactly when the closed sphere meets the solid box |
| `SphereBox.CornersSuffice` | Externals/OPCODE/OPC_SphereCollider.cpp:433-470 | eight corners strictly inside if and only if the whole solid box is |
| `SphereBox.SphereContainsBox` | Externals/OPCODE/OPC_SphereCollider.cpp:433-470 | the corner walk visits all eight corners: TRUE exactly when the whole box is strictly inside |
| `RayTri.AcceptsIffHits` | Externals/OPCODE/OPC_RayTriOverlap.h:19-92 | the test accepts exactly the triangles some point of the ray's line lies in, when the direction meets the normal (v1-v0)x(v2-v0) at -0.000001 or less, or without culling at 0.000001 or more either way; the stored distance and coordinates are that point, the only one |
| `RayTri.HitIsQuotients` | Externals/OPCODE/OPC_RayTriOverlap.h:19-92 | a hit determines its distance and coordinates: Cramer's quotients, uniquely |
| `RayTri.RayTriOverlap` | Externals/OPCODE/OPC_RayTriOverlap.h:19-92 | both branches (scaling before or after the bounds tests) accept exactly those triangles, back faces only without culling, and store distance and coordinates of the common point |
| `RayBox.SegmentQuerySound` | Externals/OPCODE/OPC_RayAABBOverlap.h:17-44 | a box holding a ray point with 0 <= s <= maxDist is never rejected by the segment test on the cached half-segment |
| `RayBox.RayQuerySound` | Externals/OPCODE/OPC_RayAABBOverlap.h:54-92 | a box holding a ray point with s >= 0 is never rejected by the ray test |
| `RayBox.SegmentTestIff` | Externals/OPCODE/OPC_RayAABBOverlap.h:17-44 | the six-axis segment test is exact: TRUE if and only if the segment meets the solid box |
| `RayBox.SegmentQueryIff` | Externals/OPCODE/OPC_RayAABBOverlap.h:17-44 | on the cached half-segment: TRUE exactly when a ray point with 0 <= s <= maxDist lies in the box |
| `RayBox.RayQueryIff` | Externals/OPCODE/OPC_RayAABBOverlap.h:54-92 | TRUE exactly when a ray point with s >= 0 lies in the box |
| `BoxBox.RotationBasis` | Externals/OPCODE/OPC_BoxBoxOverlap.h:21-100 | two orthonormal rows and their cross product form a full rotation basis |
| `BoxBox.BoxesSharingPointOverlap` | Externals/OPCODE/OPC_BoxBoxOverlap.h:21-100 | for every rotation and non-negative extents, boxes sharing a point are never rejected, with or without the class III axes and the epsilon |
| `BoxBox.OverlapIff` | Externals/OPCODE/OPC_BoxBoxOverlap.h:21-100 | the test rejects exactly when an axis separates the boxes: one of six face normals, or in the full test one of nine cross products of edges, each with 0.000001 of the extents to spare |
| `BoxBox.AlignedOverlapIff` | Externals/OPCODE/OPC_BoxBoxOverlap.h:189-208 | two axis-aligned boxes are kept exactly when they share a point |
| `BoxBox.PrecomputedIsGeneral` | Externals/OPCODE/OPC_BoxBoxOverlap.h:106-186 | the version on precomputed box data decides what the general 15-axis test does |
| `BoxBox.PruneImpliesTriBoxFails` | Externals/OPCODE/OPC_BoxBoxOverlap.h:189-208 | if the box-box test rejects a node box, the triangle test rejects every triangle in it |
| `FlatTriTri.EdgeEdgeTestIff` | Externals/OPCODE/OPC_TriTriOverlap.h:17-37 | the edge test accepts exactly the edges that have a common point and are not parallel |
| `FlatTriTri.PointInTriIff` | Externals/OPCODE/OPC_TriTriOverlap.h:56-81 | the point test accepts exactly the points strictly inside |
| `FlatTriTri.FlatTestIff` | Externals/OPCODE/OPC_TriTriOverlap.h:84-131 | nine edge tests and two point tests together are exact for two triangles with an area in the plane, although each ignores parallel edges or the boundary |
| `TriTri.CoplanarIff` | Externals/OPCODE/OPC_TriTriOverlap.h:84-131 | for coplanar triangles with an area the test on the chosen projection accepts exactly those sharing a point |
| `TriTri.IntervalIff` | Externals/OPCODE/OPC_TriTriOverlap.h:134-187 | every branch computes the interval of the triangle's points on the other plane: the coordinates between its ends are exactly those |
| `TriTri.SpansOverlapIff` | Externals/OPCODE/OPC_TriTriOverlap.h:301-320 | the comparison of the intervals scaled to a common denominator decides whether they meet |
| `TriTri.TriTriOverlapIff` | Externals/OPCODE/OPC_TriTriOverlap.h:211-321 | for two triangles with an area, none of whose six plane distances is non-zero and below the epsilon: TRUE exactly when they share a point |
| `TriTri.ExactGuardIff` | Externals/OPCODE/OPC_TriTriOverlap.h:229-262 | of the conditions "an area of the first, of the second, no plane distance non-zero and below e" exactly those that ask both areas and an e not below the epsilon make the test right for all triangles |
| `TriTri.NearbyAccepted` | Externals/OPCODE/OPC_TriTriOverlap.h:229-262 | parallel triangles whose plane distances are below the epsilon are accepted |
| `TriTri.NeedleAccepted` | Externals/OPCODE/OPC_TriTriOverlap.h:189-321 | a face without area is accepted with one beside it, as far away as one likes |
| `PlaneTests.PlanesAABBOverlap` | Externals/OPCODE/OPC_PlanesAABBOverlap.h:16-54 | FALSE exactly when an active plane culls the box; the out-mask keeps exactly the active planes the box straddles; the doubling loop ends without wrapping |
| `PlaneTests.PlanesTriOverlap` | Externals/OPCODE/OPC_PlanesTriOverlap.h:11-43 | FALSE exactly when an active plane has all three vertices on its positive side |
| `PlaneTests.BoxDecides` | Externals/OPCODE/OPC_PlanesAABBOverlap.h:16-54 | a culled box holds only culled triangles; a plane the box does not straddle culls none of them |
| `PlaneTests.NarrowingKeepsVerdict` | Externals/OPCODE/OPC_PlanesCollider.cpp:359-390 | narrowing the mask at a box changes the verdict on no triangle of the box |
| `PlaneTests.CullingSound` | Externals/OPCODE/OPC_PlanesCollider.cpp:359-366 | a triangle that passes keeps every box that holds it |
| `ClipMask.FullMaskActive` | Externals/OPCODE/OPC_PlanesCollider.cpp:232 | (1 << n) - 1 activates the first n planes and no other |
| `ClipMask.NoWrap` | Externals/OPCODE/OPC_PlanesAABBOverlap.h:18-50 | with at most 31 planes a mask bit still within the mask doubles without wrapping |
| `Trees.CompleteIffCount` | Externals/OPCODE/OPC_OptimizedTree.cpp:225-229 | the 2N-1 node-count check accepts exactly the trees with one primitive per leaf |
| `Trees.TightBoxUnique` | Externals/OPCODE/OPC_TreeBuilders.cpp:103-126 | two smallest boxes of the same triangles are equal |
| `Trees.TightBoxReordered` | Externals/OPCODE/OPC_AABBTree.cpp:324-340 | a node's box stays tight when its descendants reorder its slice |
| `Trees.TightTreeEncloses` | Externals/OPCODE/OPC_AABBTree.cpp:324-340 | in a tight tree every box, as stored by the optimized layouts, holds every triangle below it |
| `Trees.CollisionBoxHas` | Externals/OPCODE/OPC_OptimizedTree.cpp:101-102 | the stored center and extents are the box with the points between the two corners |
| `Trees.TightTreeNested` | Externals/OPCODE/OPC_AABBTree.cpp:324-340 | every box is contained in its parent's |
| `AABBTrees.AABBTreeBuilder.ComputeGlobalBox` | Externals/OPCODE/OPC_TreeBuilders.cpp:103-126 | from the two sentinels the accumulation gives the smallest box around the slice |
| `AABBTrees.AABBTreeNode.Split` | Externals/OPCODE/OPC_AABBTree.cpp:94-120 | exactly the primitives whose middle, the point with three equal weights, lies beyond the middle of the box along the axis are put first, in their order; the others follow as a queue that each of those moves on by one; nothing outside the slice changes |
| `Splits.SplitSizeFixed` | Externals/OPCODE/OPC_AABBTree.cpp:94-120 | how many primitives lie beyond the split value does not depend on their order, so a trial split tells how every other one along that axis comes out |
| `Splits.SplitTestIff` | Externals/OPCODE/OPC_TreeBuilders.cpp:136-149 | the two values compared: the coordinate of the triangle's point with three equal weights, and the mean of the box's two bounds |
| `Splits.ImbalanceIff` | Externals/OPCODE/OPC_AABBTree.cpp:216-233 | of two cuts the one with the smaller squared distance from one half is the one whose sides are closer in size |
| `Samples.VarianceOfPairs` | Externals/OPCODE/OPC_AABBTree.cpp:178-201 | the variance, from a mean and a second pass, is the sum of the squared differences of all pairs over n(n-1) |
| `Splits.SpreadKept` | Externals/OPCODE/OPC_AABBTree.cpp:178-201 | moving the mesh changes no spread, hence not the axis chosen |
| `AABBTrees.AABBTreeNode.BalancedSplit` | Externals/OPCODE/OPC_AABBTree.cpp:213-241 | leaves a permutation of the slice cut along the first axis whose cut has the most even sides: no cut of it along any axis has sides closer in size, and none along an earlier axis as close |
| `AABBTrees.AABBTreeNode.BestAxisSplit` | Externals/OPCODE/OPC_AABBTree.cpp:242-276 | a valid split is one along some axis with both sides non-empty, while every larger axis, and every earlier one of the same extent, leaves one side empty; an invalid one means that all three axes do |
| `AABBTrees.AABBTreeNode.VarianceAxis` | Externals/OPCODE/OPC_AABBTree.cpp:178-204 | the two accumulation loops pick the first axis along which the primitives' middles are spread the most: the squared differences of all pairs have the greatest sum |
| `AABBTrees.SortedAxes` | Externals/OPCODE/OPC_AABBTree.cpp:242-262 | the swap network sorts the three axes by decreasing extent, equal ones by index |
| `AABBTrees.AABBTreeNode.ChooseSplit` | Externals/OPCODE/OPC_AABBTree.cpp:155-290 | the first enabled rule decides the cut: along the largest axis, along the first axis of greatest spread, the most even one, the largest axis that separates, or the middle of the untouched slice |
| `AABBTrees.AABBTreeNode.Subdivide` | Externals/OPCODE/OPC_AABBTree.cpp:146-314 | two fresh children on adjacent, non-empty slices cut as the rule chose, or in the middle where that leaves one side empty and the tree must be complete; none for one primitive, up to the limit, without a known rule, or where an incomplete tree may stop, and no node left out of either case |
| `AABBTrees.AABBTreeNode.BuildHierarchy` | Externals/OPCODE/OPC_AABBTree.cpp:324-338 | terminates on the slice length; the objects represent a tight tree whose leaves are adjacent pieces of the permuted slice, every node of it cut as its rule says, with the node count counted |
| `AABBTrees.AABBTreeNode.SliceOnly` | Externals/OPCODE/OPC_AABBTree.cpp:324-338 | a subtree depends on its own slice of the shared array only, so the sibling's reordering cannot disturb it |
| `AABBTrees.AABBTree.Build` | Externals/OPCODE/OPC_AABBTree.cpp:358-386 | mIndices ends as a permutation of 0..N-1 equal to the leaf order, every box is tight, every node is cut as its rule says from 0..N-1 on; with SPLIT_COMPLETE, a rule and a limit of at most one it has 2N-1 nodes |
| `AABBTrees.AABBTree.ComputeDepth` | Externals/OPCODE/OPC_AABBTree.cpp:395-442 | the counters passed by reference end at the number of nodes on a longest path from the root to a leaf |
| `OptimizedTrees.BuildCollisionTree` | Externals/OPCODE/OPC_OptimizedTree.cpp:95-127 | each subtree fills its root slot and one contiguous range of slots, siblings side by side, and touches no other slot |
| `OptimizedTrees.WordIs` | Externals/OPCODE/OPC_OptimizedTree.h:30-53 | a tagged word is 2p+1 for primitive p in the low 33 bits, an untagged one 2i for node i |
| `OptimizedTrees.LayoutEncodes` | Externals/OPCODE/OPC_OptimizedTree.h:24-41 | following the tagged words from the root spells out the source tree |
| `OptimizedTrees.LayoutSlots` | Externals/OPCODE/OPC_OptimizedTree.cpp:95-127 | every slot of the range belongs to exactly one node of the subtree |
| `OptimizedTrees.EncodesOneTree` | Externals/OPCODE/OPC_OptimizedTree.h:24-41 | decoding is unambiguous: an array spells at most one tree, boxes included |
| `OptimizedTrees.AABBCollisionTree.Build` | Externals/OPCODE/OPC_OptimizedTree.cpp:220-251 | accepts exactly complete trees; 2N-1 slots that decode to the source tree |
| `OptimizedTrees.BuildNoLeafTree` | Externals/OPCODE/OPC_OptimizedTree.cpp:147-199 | internal nodes fill contiguous slots, leaves are folded into tagged words of their parents, no other slot is touched |
| `OptimizedTrees.FlattenChild` | Externals/OPCODE/OPC_OptimizedTree.cpp:157-198 | a child's word and slots, for a leaf or an internal node, leaving the parent's other fields alone |
| `OptimizedTrees.ChildLayoutSlots` | Externals/OPCODE/OPC_OptimizedTree.cpp:147-199 | every slot of a child's range belongs to exactly one internal node |
| `OptimizedTrees.NoLeafEncodesOneTree` | Externals/OPCODE/OPC_OptimizedTree.h:42-58 | decoding is unambiguous up to the leaf boxes this layout drops |
| `OptimizedTrees.AABBNoLeafTree.Build` | Externals/OPCODE/OPC_OptimizedTree.cpp:270-301 | the check accepts exactly complete trees; one of at least two triangles is stored in N-1 slots that decode to it with leaves folded into parents; one of a single triangle gets no slot and ends at the null children of its root |
| `Models.OPCODE_Model.Build` | Externals/OPCODE/OPC_Model.cpp:187-260 | refuses exactly an empty mesh, rules without SPLIT_COMPLETE and, for more than one face, none of the five split rules; otherwise the chosen layout encodes a tree holding every face once with enclosing boxes, each node cut as its rule says, except that the no-leaf layout of one face ends at null children |
| `Models.EveryHitOnce` | Externals/OPCODE/OPC_Model.cpp:187-260 | over a built tree a brute-force list in tree order holds every hit of the mesh exactly once |
| `Search.ReportsJoin` | Externals/OPCODE/OPC_AABBCollider.cpp:436-447 | two consecutive searches with an early exit between them are one search of the concatenated candidates |
| `Search.ExactReport` | Externals/OPCODE/OPC_AABBCollider.cpp:423-512 | when what must and what may be reported coincide, a search returns the brute-force list, or its first element in first-contact mode |
| `Search.AllContacts` | Externals/OPCODE/OPC_VolumeCollider.cpp:78-117 | all-contacts mode: nothing required is missed, nothing disallowed or repeated is reported |
| `Search.FirstContact` | Externals/OPCODE/OPC_VolumeCollider.cpp:78-117 | first-contact mode: at most one report, an allowed one, and one as soon as a required candidate exists |
| `Motions.InvertUndoes` | Externals/OPCODE/OPC_Matrix4x4.cpp:52-73 | InvertPRMatrix is a two-sided inverse of a rotation with translation |
| `Motions.MotionsClosed` | Externals/OPCODE/OPC_Matrix4x4.h:420-441 | products and inverses of rotations with translation are again rotations with translation |
| `Motions.ComposeActs` | Externals/OPCODE/OPC_Matrix4x4.h:420-441 | the matrix product moves a point first by the left, then by the right factor |
| `Motions.RelativeMotions` | Externals/OPCODE/OPC_TreeCollider.cpp:255-272 | World0to1 and World1to0, computed separately, are each other's inverse |
| `Motions.DistanceKept` | Externals/OPCODE/OPC_SphereCollider.cpp:159-176 | rigid motions keep distances |
| `Motions.TrianglesMove` | Externals/OPCODE/OPC_Common.h:127-132 | a moved triangle holds exactly the moved points |
| `Volumes.SphereInWorld` | Externals/OPCODE/OPC_SphereCollider.cpp:159-176 | the model-space sphere reaches a face exactly when, in the world, the placed sphere reaches the placed face |
| `Volumes.OrientedTestIff` | Externals/OPCODE/OPC_OBBCollider.cpp:198-226 | the triangle test in box space accepts exactly the triangles sharing a point with the oriented box |
| `Volumes.LeafBetween` | Externals/OPCODE/OPC_AABBCollider.cpp:55-69 | for each volume kind the leaf test accepts what must be reported and nothing that may not; for boxes of either kind the three agree |
| `Volumes.PruneSound` | Externals/OPCODE/OPC_AABBCollider.cpp:423-427 | for each volume kind, rejecting a node box loses no triangle that may be reported |
| `Volumes.DumpSound` | Externals/OPCODE/OPC_AABBCollider.cpp:408-414 | for each volume kind, every triangle of a contained node box may be reported, degenerate ones included |
| `Volumes.OBBHolds` | Externals/OPCODE/OPC_OBBCollider.cpp:427-486 | a point of a model box that passes OBBContainsBox lies in the oriented box |
| `Volumes.OBBContainsIff` | Externals/OPCODE/OPC_OBBCollider.cpp:427-486 | OBBContainsBox accepts exactly the model boxes all of whose points lie in the oriented box |
| `Volumes.AABBContainsIff` | Externals/OPCODE/OPC_AABBCollider.cpp:389-406 | AABBContainsBox accepts exactly the boxes all of whose points lie between the two corners |
| `VolumeColliders.Dump` | Externals/OPCODE/OPC_VolumeCollider.cpp:98-117 | appends all primitives of the subtree in order, or one once a first contact is flagged |
| `VolumeColliders.DumpNoLeaf` | Externals/OPCODE/OPC_VolumeCollider.cpp:78-96 | the same on the no-leaf layout |
| `VolumeColliders.VolumeCollider.Prim` | Externals/OPCODE/OPC_AABBCollider.cpp:55-69 | one leaf: listed and flagged exactly when the leaf test of the volume kind accepts it |
| `VolumeColliders.VolumeCollider.Collide` | Externals/OPCODE/OPC_AABBCollider.cpp:423-447 | pruning, dumping and early exits together report, in depth-first order, exactly the list that does not mention pruning, or its head: contained boxes whole, other leaves by the leaf test; every primitive that must and only ones that may be reported |
| `VolumeColliders.VolumeCollider.CollideNoLeaf` | Externals/OPCODE/OPC_AABBCollider.cpp:488-512 | the same promise on the no-leaf layout |
| `VolumeColliders.ListedIff` | Externals/OPCODE/OPC_SphereCollider.cpp:433-576 | that list holds the primitives that must be reported and those below a contained box, degenerate ones included, and no other |
| `VolumeColliders.NothingListedBelow` | Externals/OPCODE/OPC_SphereCollider.cpp:472-479 | pruning takes nothing from it |
| `VolumeColliders.VolumeCollider.TestCachedFace` | Externals/OPCODE/OPC_AABBCollider.cpp:152-170 | the cached face is relisted exactly when it still passes, else the list is emptied |
| `VolumeColliders.VolumeCollider.InitAABBQuery` | Externals/OPCODE/OPC_AABBCollider.cpp:137-213 | every branch of the coherence logic prepares a search whose result is the brute-force transition of the cache, or has already made it |
| `VolumeColliders.VolumeCollider.CollideAABB` | Externals/OPCODE/OPC_AABBCollider.cpp:224-246 | cache and status change exactly as the brute-force transition says, in all four modes; contact if and only if the list is not empty; the temporal-hit flag exactly when a list or cached face answers without a search |
| `VolumeColliders.VolumeCollider.CollideAABBNoLeaf` | Externals/OPCODE/OPC_AABBCollider.cpp:256-278 | the same answer in the same order on the no-leaf layout |
| `SphereCaches.ReuseIsRightIff` | Externals/OPCODE/OPC_SphereCollider.cpp:205-216 | when the guard lets the cached list be reused: every proper face the query reaches is reached by the cached sphere if and only if the query's radius does not exceed the cached fat radius |
| `SphereCaches.GuardIff` | Externals/OPCODE/OPC_SphereCollider.cpp:205-212 | the guard holds for spheres strictly inside the cached one, and for spheres strictly around it |
| `SphereCaches.SearchedInRadius` | Externals/OPCODE/OPC_SphereCollider.cpp:205-233 | an all-contacts search lists only faces with a point within the radius, or with coherence within the radius whose square is the coefficient times its square, and every such face that has an area; that square is then cached |
| `SphereCaches.QueryWithinIff` | Externals/OPCODE/OPC_SphereCollider.cpp:205-216 | what the guard should decide: every proper face the query reaches is reached by the cached sphere if and only if the query sphere lies inside it, or has no size |
| `SphereCaches.SphereRunCompleteIff` | Externals/OPCODE/OPC_SphereCollider.cpp:153-233 | over any run of queries in any modes the list of an all-contacts query holds every proper face its sphere reaches, on every mesh, if and only if the query searches, reaches nothing, or lies inside the ball the cached list was last searched with in all-contacts mode |
| `SphereCaches.RunSourced` | Externals/OPCODE/OPC_SphereCollider.cpp:153-233 | the list of any run answers for a ball the queries alone determine |
| `SphereCaches.UndisturbedRun` | Externals/OPCODE/OPC_SphereCollider.cpp:205-233 | since the cached sphere was set: if every query was coherent and none that passed the guard was larger than that sphere, the list is a possible search result for the cached sphere |
| `SphereCaches.GrownQueryMisses` | Externals/OPCODE/OPC_SphereCollider.cpp:205-216 | a failing run: radius 1, then radius 3 around the same center; the guard squares a negative difference |
| `SphereCaches.NewCacheMisses` | Externals/OPCODE/OPC_SphereCollider.h:23-31 | another: a new cache passes for a sphere of no size at the origin, so a first query there does not replace it and a second one near it gets the first one's list |
| `VolumeColliders.VolumeCollider.CheckFatSphere` | Externals/OPCODE/OPC_SphereCollider.cpp:205-232 | the guard, with its test for an empty list: reuses the list and raises contact, searches with the query's own sphere, or empties the cache and searches with the fat sphere it then stores |
| `VolumeColliders.VolumeCollider.InitSphereQuery` | Externals/OPCODE/OPC_SphereCollider.cpp:153-240 | contact exactly when the cached list is reused or the cached face still touches, and the list is then that; otherwise a search over an empty list is prepared with the ball the answer is about |
| `VolumeColliders.VolumeCollider.CollideSphere` | Externals/OPCODE/OPC_SphereCollider.cpp:255-279 | in all four modes the list is exactly the cached one, the cached face, or the contained boxes and accepted leaves of the ball searched with; the cache changes as the transition relation says; contact if and only if the list is not empty; the temporal-hit flag exactly when a list or cached face answers without a search |
| `VolumeColliders.VolumeCollider.CollideSphereNoLeaf` | Externals/OPCODE/OPC_SphereCollider.cpp:291-315 | the same on the no-leaf layout |
| `VolumeColliders.SphereExactIff` | Externals/OPCODE/OPC_SphereCollider.cpp:433-576 | what must and what may be reported coincide for every sphere if and only if the mesh has no degenerate face |
| `Search.ExactAnswer` | Externals/OPCODE/OPC_AABBCollider.cpp:152-170 | with an exact criterion the status is the existence of a brute-force hit, cached face or not |
| `Volumes.OrientedBoxPrepared` | Externals/OPCODE/OPC_OBBCollider.cpp:152-226 | for rigid world matrices the fields InitQuery computes satisfy what the recursion relies on: the two matrices, computed separately, are inverse motions |
| `Volumes.OBBInWorld` | Externals/OPCODE/OPC_OBBCollider.cpp:157-196 | sharing a point in model space is sharing one in the world, where box and model are placed |
| `VolumeColliders.VolumeCollider.InitOBBQuery` | Externals/OPCODE/OPC_OBBCollider.cpp:231-264 | contact exactly when a first-contact query has a cached face that still shares a point with the box, which is then relisted; otherwise the search starts empty |
| `VolumeColliders.VolumeCollider.CollideOBB` | Externals/OPCODE/OPC_OBBCollider.cpp:279-303 | lists exactly the triangles sharing a point with the oriented box, in tree order, in first-contact mode the first of them or the cached face if it still does; the conservative box pruning costs nothing |
| `VolumeColliders.VolumeCollider.CollideOBBNoLeaf` | Externals/OPCODE/OPC_OBBCollider.cpp:315-339 | the same on the no-leaf layout |
| `AABBCaches.IsInsideIsBoxInside` | Externals/OPCODE/OPC_Common.h:69-84 | IsInside on corners is inclusion of the solid boxes, axis by axis |
| `AABBCaches.HitsGrow` | Externals/OPCODE/OPC_AABBCollider.cpp:176-184 | the fat box hits every triangle the box inside it hits |
| `AABBCaches.HitsTouch` | Externals/OPCODE/OPC_AABBCollider.cpp:55-69 | the brute-force hits of a box are the faces with a point in it |
| `AABBCaches.FattenScales` | Externals/OPCODE/OPC_AABBCollider.cpp:188-195 | the fat box is the query box scaled by the coefficient about its center, point by point |
| `AABBCaches.SearchedFaces` | Externals/OPCODE/OPC_AABBCollider.cpp:172-203 | an all-contacts search lists exactly the faces with a point in the query box, or with coherence in the box scaled by the coefficient about its center, which becomes FatBox |
| `AABBCaches.AnswerCoherent` | Externals/OPCODE/OPC_AABBCollider.cpp:172-200 | one coherent query makes the list the fat box's brute-force answer with the query box inside it, from a new cache, a coherent one, or any cache whose box does not hold the query |
| `AABBCaches.RunCoherent` | Externals/OPCODE/OPC_AABBCollider.cpp:137-213 | after any run, in any modes, in which no query has overwritten the list since FatBox was set: the list is exactly FatBox's hits in tree order and FatBox holds the last box |
| `AABBCaches.RunCompleteIff` | Externals/OPCODE/OPC_AABBCollider.cpp:137-213 | over any run in any modes the list of an all-contacts query misses no face touching its box, on every mesh, if and only if the query searches, no query has overwritten the list since FatBox was set, or the last that did was an all-contacts query for a box holding the current one |
| `AABBCaches.OverwrittenList` | Externals/OPCODE/OPC_AABBCollider.cpp:199-203 | after an all-contacts query with coherence off its list stays in the cache under the old FatBox, unless it is empty |
| `AABBCaches.MixedRunMisses` | Externals/OPCODE/OPC_AABBCollider.cpp:172-203 | a failing run: a coherent query, one elsewhere with coherence off, and the first again |
| `AABBCaches.FirstContactAnswer` | Externals/OPCODE/OPC_AABBCollider.cpp:149-171 | first-contact mode lists exactly one hit if brute force finds one, whatever valid face is cached and whether coherence is on |
| `PlanesColliders.FullMaskHits` | Externals/OPCODE/OPC_PlanesCollider.cpp:213-238 | with the full mask the hits are the triangles no plane has entirely on its positive side |
| `PlanesColliders.TransformPlaneExact` | Externals/OPCODE/OPC_Plane.h:105-117 | a transformed plane has the given one's distances at all points if and only if its normal has unit length or its offset is zero |
| `PlanesColliders.TransformVerdictIff` | Externals/OPCODE/OPC_Plane.h:105-117 | over all faces it culls in model space what the given plane culls in the world if and only if its normal has unit length, its offset is zero, or its normal is null and its offset negative |
| `PlanesColliders.VisibleFaceCulled` | Externals/OPCODE/OPC_PlanesCollider.cpp:148-158 | a normal of length two and an identity matrix: a visible face is culled |
| `PlanesColliders.PlanesInWorld` | Externals/OPCODE/OPC_PlanesCollider.cpp:148-158 | such planes, and any without a matrix, cull a face in model space exactly when they cull the placed face in the world |
| `PlanesColliders.PlanesCollider.Prim` | Externals/OPCODE/OPC_PlanesCollider.cpp:40-52 | one leaf: listed and flagged exactly when PlanesTriOverlap accepts it with the mask |
| `PlanesColliders.PlanesCollider.Collide` | Externals/OPCODE/OPC_PlanesCollider.cpp:359-392 | with the inherited mask: exactly the triangles the mask accepts, though the mask is narrowed below and dumping happens at mask 0 |
| `PlanesColliders.PlanesCollider.CollideNoLeaf` | Externals/OPCODE/OPC_PlanesCollider.cpp:446-481 | the same on the no-leaf layout, leaf children tested with the parent's mask |
| `PlanesColliders.PlanesCollider.InitQuery` | Externals/OPCODE/OPC_PlanesCollider.cpp:135-200 | the cached face is re-tested with the full mask: contact exactly when a first-contact query has one that still passes |
| `PlanesColliders.PlanesCollider.CollidePlanes` | Externals/OPCODE/OPC_PlanesCollider.cpp:213-238 | refused without planes, changing nothing; otherwise exactly the brute-force list of unculled triangles in tree order, in first-contact mode its first or the cached face if it is still one |
| `PlanesColliders.PlanesCollider.CollidePlanesNoLeaf` | Externals/OPCODE/OPC_PlanesCollider.cpp:249-274 | the same on the no-leaf layout |
| `RayColliders.StabKeepsBox` | Externals/OPCODE/OPC_RayCollider.cpp:611-615 | a stabbed triangle's hit point lies in every box holding the triangle, so no such box is rejected |
| `RayColliders.StabHitsIff` | Externals/OPCODE/OPC_RayCollider.cpp:145-200 | what a list holds, in points: the faces the line meets as the culling mode asks, at a parameter from 0, included, to the maximal distance, excluded, or without end; the counter counts those from 0 on |
| `RayColliders.CacheSettlesIff` | Externals/OPCODE/OPC_RayCollider.cpp:359-390 | the cached face settles a first-contact query exactly when the ray meets it at a parameter strictly between 0 and the maximal distance |
| `RayColliders.RayCollider.HandleContact` | Externals/OPCODE/OPC_RayCollider.cpp:101-121 | stores the face, or keeps the closer of it and the stored one |
| `RayColliders.RayCollider.StabPrim` | Externals/OPCODE/OPC_RayCollider.cpp:145-200 | one leaf: handled exactly when the ray hits it at a valid distance; the counter grows by one exactly when it hits it at a non-negative distance, beyond the segment or not |
| `RayColliders.RayCollider.StabNode` | Externals/OPCODE/OPC_RayCollider.cpp:611-630 | below a node: all hits handled in tree order, stopping at a first contact (segment and unbounded versions); the counter grows by the visited hits not behind the origin |
| `RayColliders.RayCollider.StabNoLeaf` | Externals/OPCODE/OPC_RayCollider.cpp:672-694 | the same on the no-leaf layout |
| `RayColliders.VisitedHits` | Externals/OPCODE/OPC_RayCollider.cpp:611-630 | the leaves a search visits hold the same hits, in the same order, as the whole tree |
| `RayColliders.VisitedIff` | Externals/OPCODE/OPC_RayCollider.cpp:611-694 | which leaves a search visits, hence which hits it counts: those below boxes that the ray, up to the maximal distance, meets all the way from the root |
| `RayColliders.RayCollider.TestCachedFace` | Externals/OPCODE/OPC_RayCollider.cpp:359-390 | the cached face answers the query exactly when the ray hits it strictly between the origin and the maximal distance |
| `RayColliders.RayCollider.InitQuery` | Externals/OPCODE/OPC_RayCollider.cpp:300-391 | the cached half-segment matches the ray and the maximal distance; contact exactly when the cached face settles the query, which is then a complete answer |
| `RayColliders.RayCollider.Collide` | Externals/OPCODE/OPC_RayCollider.cpp:414-440 | status and stored faces are exactly those of the cached face, when it settles the query, or of the brute-force hits in tree order, or their first in first-contact mode; the counter is exactly the number of hits not behind the origin in the leaves visited, up to a first contact, or zero when the cached face settles the query; after a search that stored a face the cache is the first stored one |
| `RayColliders.RayCollider.CollideNoLeaf` | Externals/OPCODE/OPC_RayCollider.cpp:452-479 | the same on the no-leaf layout |
| `RayColliders.StabInWorld` | Externals/OPCODE/OPC_RayCollider.cpp:311-326 | the triangle test on the local ray gives the verdict, distance and coordinates of the world ray on the placed triangle |
| `RayColliders.AllStabbedFaces` | Externals/OPCODE/OPC_RayCollider.cpp:145-163 | all-contacts mode stores exactly the brute-force hits in tree order, each with O + tD equal to its barycentric point and a valid distance |
| `RayColliders.ClosestStabbedFace` | Externals/OPCODE/OPC_RayCollider.cpp:101-121 | closest-hit mode stores one face, the first in tree order of the nearest hits, and none without a hit |
| `RayColliders.IntersectionCount` | Externals/OPCODE/OPC_RayCollider.cpp:766-849 | an unbounded all-contacts query counts the faces hit at a non-negative distance, each once |
| `TreeColliders.CandidatesComplete` | Externals/OPCODE/OPC_TreeCollider.cpp:802-916 | the order in which the recursion meets pairs covers every pair, as often as its primitives occur |
| `TreeColliders.LeafCandidates` | Externals/OPCODE/OPC_TreeCollider.cpp:569-625 | against a leaf the pairs come in the depth-first order of the other tree, or reversed in trees with leaves |
| `TreeColliders.FlattenAt` | Externals/OPCODE/OPC_TreeCollider.cpp:640-714 | the pair list holds the k-th pair at 2k and 2k+1, tree 0 first |
| `TreeColliders.FramedPairs` | Externals/OPCODE/OPC_TreeCollider.cpp:802-916 | the pairs with the frame each is tested in are the same pairs in the same order |
| `TreeColliders.FrameByDepth` | Externals/OPCODE/OPC_TreeCollider.cpp:814-916 | in no-leaf trees a pair is tested with the shallower of its two leaves fetched into the other space, tree 0's at equal depth |
| `TreeColliders.ContactTouches` | Externals/OPCODE/OPC_TreeCollider.cpp:666-715 | a pair that is accepted in any frame and shares a point shares one in space 0 and in space 1, which is why pruning in either loses none |
| `TreeColliders.BoxesKept` | Externals/OPCODE/OPC_TreeCollider.cpp:802-806 | box-box rejection loses no pair of triangles sharing a point |
| `TreeColliders.LeafKept` | Externals/OPCODE/OPC_TreeCollider.cpp:723-757 | triangle-box rejection of a fetched leaf loses none either |
| `TreeColliders.AABBTreeCollider.PrimTestTriIndex` | Externals/OPCODE/OPC_TreeCollider.cpp:666-687 | the pair (scratch index, id1) is added in that order exactly when the test in space 1 passes |
| `TreeColliders.AABBTreeCollider.PrimTestIndexTri` | Externals/OPCODE/OPC_TreeCollider.cpp:694-715 | the pair (id0, scratch index) is added in that order exactly when the test in space 0 on the fetched leaf passes |
| `TreeColliders.AABBTreeCollider.CollideTriBox` | Externals/OPCODE/OPC_TreeCollider.cpp:723-743 | a fetched leaf of tree 0 against a branch of tree 1: of the pairs accepted in space 1 all that share a point; the scratch leaf is not disturbed |
| `TreeColliders.AABBTreeCollider.CollideBoxTri` | Externals/OPCODE/OPC_TreeCollider.cpp:751-771 | a fetched leaf of tree 1 against a branch of tree 0: of the pairs accepted in space 0 all that share a point |
| `TreeColliders.AABBTreeCollider.CollideNoLeaf` | Externals/OPCODE/OPC_TreeCollider.cpp:802-916 | for every pair of branches and any triangle test: in order, every pair that its frame's test accepts and that shares a point, and only accepted pairs, although the scratch leaf is overwritten between the sub-searches; terminates on the sum of subtree sizes |
| `TreeColliders.AABBTreeCollider.ChildAgainst` | Externals/OPCODE/OPC_TreeCollider.cpp:814-862 | one child, leaf or branch, against both children of the other node |
| `TreeColliders.AABBTreeCollider.NodeAgainstChild` | Externals/OPCODE/OPC_TreeCollider.cpp:834-860 | a branch against a leaf (fetched anew) or a branch |
| `TreeColliders.AABBTreeCollider.PrimTest` | Externals/OPCODE/OPC_TreeCollider.cpp:625-659 | the pair is added exactly when the test passes in space 0 |
| `TreeColliders.AABBTreeCollider.CollideNodes` | Externals/OPCODE/OPC_TreeCollider.cpp:569-614 | trees with leaves, any test: every pair that the leaf test accepts and that shares a point, and only accepted pairs, negative children first |
| `TreeColliders.PlacedSceneValid` | Externals/OPCODE/OPC_TreeCollider.cpp:246-285 | rigid world matrices, or none, give inverse relative motions |
| `TreeColliders.ContactInWorld` | Externals/OPCODE/OPC_TreeCollider.cpp:255-272 | triangles share a point in space 0 exactly when they do in the world, where both models are placed |
| `TreeColliders.TouchingInWorld` | Externals/OPCODE/OPC_TreeCollider.cpp:246-285 | sharing a point in space 0 is sharing one in the world |
| `TreeColliders.PlacedByMatrix` | Externals/OPCODE/OPC_TreeCollider.cpp:255-272 | a null matrix leaves its model where it is |
| `TreeColliders.AABBTreeCollider.StartQuery` | Externals/OPCODE/OPC_TreeCollider.cpp:246-307 | sets the relative motions from the two optional world matrices; a cached pair settles a first-contact query exactly when it still passes in space 0 |
| `TreeColliders.AABBTreeCollider.CollideNoLeafTrees` | Externals/OPCODE/OPC_TreeCollider.cpp:371-405 | the whole query, from two optional world matrices: the cached pair, or of all pairs, each in its own frame in the placed scene, at least the accepted ones that share a point and at most the accepted ones, or the first of them; nothing when the root boxes are apart; the new cache is the first pair reported |
| `TreeColliders.AABBTreeCollider.CollideTrees` | Externals/OPCODE/OPC_TreeCollider.cpp:328-362 | the same for trees with leaf nodes, every pair tested in space 0 |
| `TreeColliders.SoundAnswer` | Externals/OPCODE/OPC_TreeCollider.cpp:666-916 | with a test that only accepts triangles sharing a point the answer is brute force over the framed pairs, or its head |
| `TreeColliders.EveryPairOnce` | Externals/OPCODE/OPC_TreeCollider.cpp:666-916 | all-contacts mode, any test: a pair accepted in every frame that shares a point is listed, in the order (tree 0, tree 1), as often as its primitives occur, once in built trees; no pair more often; one accepted in no frame never |
| `TreeColliders.ReliableMoves` | Externals/OPCODE/OPC_TriTriOverlap.h:229-262 | whether two faces are fit for the triangle test does not depend on the space they are given in |
| `TreeColliders.TouchingPairsListed` | Externals/OPCODE/OPC_TreeCollider.cpp:328-405 | with the source's test, pair by pair: two placed faces fit for it are listed, as often as the trees hold them, if they share a point in the world, and not at all otherwise |
| `FalseContacts.SmallPairUnreported` | Externals/OPCODE/OPC_TriTriOverlap.h:229-262 | two small parallel faces half a unit apart: accepted, without a common point, listed by brute force and by no query |
| `FalseContacts.NeedlePairUnreported` | Externals/OPCODE/OPC_TriTriOverlap.h:189-321 | a face without area and one five units beside it: the same |
| `ModelStream.ModelImage.Save` | Externals/OPCODE/OPC_Model.cpp:320-353 | the stream holds position-independent nodes with their count and checksum, 40 bytes a node; the model keeps its addresses |
| `ModelStream.ModelImage.Load` | Externals/OPCODE/OPC_Model.cpp:279-318 | loads exactly when the first word is not 0, the second is, 40 bytes a node are left and, where it is read and not skipped, the checksum word equals the checksum of the nodes; hence also a node block one to four bytes short when the bytes behind the end fit; the pointers become absolute at the new address; a refusal keeps the nodes but has set the two kind flags |
| `ModelStream.ChangedWordRefused` | Externals/OPCODE/OPC_Model.cpp:292-298 | with checksums checked no accepted stream is accepted with another checksum word |
| `ModelStream.ShortStreamAccepted` | Externals/OPCODE/OPC_Model.cpp:287-298 | a concrete stream of one node, four bytes short, accepted unchecked |
| `ModelStream.RelocationSteps` | Externals/OPCODE/OPC_Model.cpp:301-308 | subtracting one base and adding another in 64-bit words turns the old address of a node into its new one and leaves tagged words alone |
| `ModelStream.DecodeImage` | Externals/OPCODE/OPC_Model.cpp:301-308 | a memory image decodes to the nodes it was made from, wherever it was placed |
| `ModelStream.BuiltInRange` | Externals/OPCODE/OPC_OptimizedTree.cpp:147-199 | built arrays only point at their own nodes |
| `ModelStream.SaveThenLoad` | Externals/OPCODE/OPC_Model.cpp:279-355 | Save then Load at any address passes the checks and gives an array decoding to the same tree |
| `ModelStream.ChangeThenLoad` | Externals/OPCODE/OPC_Model.cpp:279-355 | a saved stream whose checksum word is then changed loads if and only if the check is skipped |
| `Hunks.ApplyHunks` | cmake/ios/apply_sdl2_scene_patch.py:169-180 | the loop is the running-offset splice, with list slicing clamped as in Python |
| `Hunks.SpliceIsSimultaneous` | cmake/ios/apply_sdl2_scene_patch.py:169-180 | for any ascending, non-overlapping hunks, insertions behind the end of the file counting as ones at it: the running-offset splice succeeds if and only if the first hunk is not before the start and every old side occurs at its original position, and then it is the simultaneous replacement |
| `Hunks.RunningIsSimultaneous` | cmake/ios/apply_sdl2_scene_patch.py:169-180 | the loop state: a rewritten prefix followed by the original file from the last old side on |
| `Hunks.ReverseRestores` | cmake/ios/apply_sdl2_scene_patch.py:169-180 | applying the reversed hunks to the patched file gives the original file back |
| `PatchRun.SourceTree.ComputeOutputs` | cmake/ios/apply_sdl2_scene_patch.py:228-241 | the dictionary of new contents by resolved path, filled in manifest order, or a refusal when a hunk, the decoding or a postimage hash fails |
| `PatchRun.SourceTree.ApplyPatch` | cmake/ios/apply_sdl2_scene_patch.py:201-245 | the outcome and the final tree are decided before the first write; a verify-only run, and every outcome but "patched", leaves the tree and its history alone; otherwise the intermediate trees are the start with the outputs written in order |
| `PatchRun.InputsIff` | cmake/ios/apply_sdl2_scene_patch.py:96-112 | what the inputs must be, field by field: the expected URL and archive digest, 64 lowercase hexadecimal digits, the recorded patch digest, and at least one file, each with a relative path and two digests |
| `PatchRun.AnswerIff` | cmake/ios/apply_sdl2_scene_patch.py:209-221 | exactly when a run answers "postimage" (every file has its postimage hash), "preimage" (verify-only, every file its preimage hash, not every one its postimage hash), and when a verify-only run refuses; "patched" is no answer of a verify-only run |
| `PatchRun.NotRefused` | cmake/ios/apply_sdl2_scene_patch.py:201-245 | any run that does not refuse had inputs that check out and a tree all original or all final |
| `PatchRun.PatchedIff` | cmake/ios/apply_sdl2_scene_patch.py:201-245 | a run patches exactly when it may write, the inputs check out, every controlled file has its preimage hash and not every one its postimage hash, the patch is read and names exactly the paths whose two hashes differ, and every new content has its postimage hash |
| `PatchRun.SourceTree.LoadPatch` | cmake/ios/apply_sdl2_scene_patch.py:115-166 | the patch file is unreadable, refused, or the dictionary of its sections |
| `PatchRun.WrittenPatchRuns` | cmake/ios/apply_sdl2_scene_patch.py:201-245 | the text of a well-formed patch whose lines stay lines reaches the run section by section; with a removed line that reads as a file header no run ever patches |
| `PatchRun.DecidedIsPlanned` | cmake/ios/apply_sdl2_scene_patch.py:228-241 | one output a file, with the postimage hash of an entry for it; a file whose entry changes nothing is written back as it is |
| `PatchRun.WrittenInOrder` | cmake/ios/apply_sdl2_scene_patch.py:228-244 | the files are written in the order in which the manifest first names them |
| `PatchRun.PatchedFiles` | cmake/ios/apply_sdl2_scene_patch.py:169-244 | a "patched" run leaves each controlled file as the last entry that names it says: as it was when the patch does not name that path, else with every old side, found in its place, replaced at once; every other file is untouched |
| `PatchRun.FileAfter` | cmake/ios/apply_sdl2_scene_patch.py:243-244 | after k writes each file of the outputs has its new content or its original, never a mixture |
| `PatchRun.CrashRerun` | cmake/ios/apply_sdl2_scene_patch.py:201-245 | under a manifest whose paths to one file agree on it: after a crash between any two writes the rerun completes to the same final tree, reports "postimage" on it, or refuses, according to which changed files were written |
| `PatchRun.PatchedThenPostimageIff` | cmake/ios/apply_sdl2_scene_patch.py:201-245 | a "patched" run is followed by "postimage" if and only if manifest paths that resolve to one file agree on its postimage |
| `PatchRun.AliasedPathsPatchAgain` | cmake/ios/apply_sdl2_scene_patch.py:228-245 | two paths to one file that do not agree: the run says "patched", leaves the file as it was, and will say so again |
| `PatchFile.ParseBody` | cmake/ios/apply_sdl2_scene_patch.py:148-157 | reads hunk lines up to the next header or file section, or refuses, leaving the index on the first line not read |
| `PatchFile.ParseHunks` | cmake/ios/apply_sdl2_scene_patch.py:139-162 | reads the hunks of one section and their counts, or refuses |
| `PatchFile.ParsePatch` | cmake/ios/apply_sdl2_scene_patch.py:115-166 | the index loop is the reading of whole sections, each path once |
| `PatchFile.EverySectionKept` | cmake/ios/apply_sdl2_scene_patch.py:128-166 | the dictionary loses no section: a patch that is read names each path once |
| `PatchFile.PatchRoundTrip` | cmake/ios/apply_sdl2_scene_patch.py:115-166 | line by line, a well-formed patch written out is read back as it was, or refused; the latter exactly when the text of some removed line starts with two dashes and a space |
| `PatchGrammar.ReadIff` | cmake/ios/apply_sdl2_scene_patch.py:121-166 | any sequence of lines is read if and only if it is a patch: sections of one path under a/ and b/, no path twice, at least one hunk each, hunk headers that give the sizes of both sides, and no removed line that reads as a file header; it is read as what it says, and everything else is refused |
| `PatchGrammar.TextReadIff` | cmake/ios/apply_sdl2_scene_patch.py:115-166 | any text, with universal newlines, is read if and only if it is the text of such a patch whose lines stay lines |
| `PatchGrammar.ReadPathIff` | cmake/ios/apply_sdl2_scene_patch.py:124-136 | the two path lines are one path behind "--- a/" and "+++ b/", followed by newlines only |
| `TextLines.LinesReadBackIff` | cmake/ios/apply_sdl2_scene_patch.py:116-117 | lines joined to a text and read in text mode come back exactly when none is empty or holds a carriage return, and line boundaries stand at the end of each, where only the last may lack one, and nowhere else |
| `TextLines.SplitLinesIff` | cmake/ios/apply_sdl2_scene_patch.py:117 | the lines of any text are the one way to cut it after each boundary, "\r\n" counting as one |
| `TextLines.UniversalPieces` | cmake/ios/apply_sdl2_scene_patch.py:117 | universal newlines act piece by piece, wherever "\r\n" is not cut apart |
| `TextLines.UniversalUnits` | cmake/ios/apply_sdl2_scene_patch.py:117 | ... and turn "\r\n" and a lone "\r" into "\n", every other character into itself |
| `PatchFile.TextRoundTripIff` | cmake/ios/apply_sdl2_scene_patch.py:115-166 | a well-formed patch written out as one text is read back as it was if and only if no removed line's text starts with two dashes and a space and its lines come back |
| `PatchFile.FormFeedNotReadBack` | cmake/ios/apply_sdl2_scene_patch.py:116-117 | a one-hunk patch with a form feed inside a context line, which is not |
| `PatchFile.RemovedDashesRefused` | cmake/ios/apply_sdl2_scene_patch.py:148 | a one-hunk patch that is refused for that reason |

## Left out

- Quantized trees and their queries: the build writes through casts into 16-bit fields, and Save and Load do not support them.
- Queries on the generic tree (`Collide(const AABBTree*)` and the box-list ray query), which list boxes, not triangles.
- Completeness of the 15-axis box-box test and of the shortened tests: they prune, so only that they reject nothing touching matters for an answer, and the box-box test widens by an epsilon; which axes it tries, and how wide, is stated.
- The library square root of the sphere cache's guard: any function that returns the non-negative root.
- Float rounding, overflow and the sign of a computed zero: geometry is over the reals, so an exact -0 bound or distance is taken as 0.
- Statistics counters, except the box-test counters that switch the class III axes and `mNbIntersections`.
- Index and count overflow beyond 2^31 triangles, allocation failure, logging, callbacks and validation messages.
- The hunk-header regular expression, JSON and argument parsing: the pattern is a parameter of the parser, the manifest one of a run, as are SHA-256, CRC32 and UTF-8 decoding.
- The dictionary of parsed sections keeps its insertion order; the parser's result is the sequence of sections, whose paths are distinct.
- The POSIX `diff -u` convention for hunks with an empty old side, which counts one line further: the model places them where the code does.
- File modes, temporary files and fsync inside an atomic write: the write either happened or did not.

# VulkanCompute ray tracer core, modelled in Dafny

VulkanCompute is a Vulkan compute-shader path tracer with a CPU prototype.
This project models four pieces of its logic:

- **The BVH builder** (`src/App/BvhBuilder.cpp`, module `Bvh`). The class
  `Bvh.BvhBuilder` keeps the builder's state as fields:
  - the triangles, which it reorders in place;
  - the flat node vector;
  - the capacity that `Build` reserves.

  `Build` grows the root box over every triangle. `BuildLayer` then splits
  each node at the midpoint of its longest axis, down to `maxDepth` levels.
  The split works like a quicksort partition: each triangle whose centre lies
  left of the split is swapped into the left block. Each node's children are
  appended as a pair, and the node records where they start (`ChildIndex`,
  where 0 means a leaf). With statistics requested, `PrintStats` counts:
  - the leaves;
  - the 32-bit average triangle count over the non-empty leaves;
  - the largest leaf.
- **The memory-type search and image layout transitions** (`src/Vulkan/Utils.cpp`,
  and the verbatim copy of `findMemoryType` in `src/Vulkan/Buffer.cpp`; module
  `VulkanUtils`).
  - `findMemoryType` picks the first memory type that the resource's filter
    allows and whose flags include all requested properties. If there is none
    it returns `UINT32_MAX`.
  - `changeLayout` chooses access masks and pipeline stages for eight supported
    layout transitions (Vulkan 1.0, "Synchronization and Cache Control", image
    memory barriers). It does nothing for an identity transition, and reports
    failure for anything else.
- **The CPU prototype's nearest-hit search** (`main.cpp` `Scene::closestHit`,
  `mesh.cpp` `Mesh::intersect`; modules `NearestHit`, `CpuMesh`, `CpuScene`).
  - Both loops start from the sentinel distance `1e30f`. They keep a test's
    hit only when it is strictly nearer than the one kept so far.
  - `NearestHit.NearestIn` is an index-based reference definition of that
    search. Both loops are proved against it.
  - The reported hit is the nearest one. Among equally near hits it is the
    first one visited: spheres, then planes, then meshes, and within a mesh
    its triangles in index order.
- **The bounce skeleton of `Scene::trace`** (`CpuScene.Trace`). It makes at
  most `maxBounces` closest-hit queries. Each query uses the ray scattered
  from the previous hit, and the loop stops at the first miss.
- **The loading half of `Mesh::FromFile`** (`CpuMesh.FromFile`). It builds one
  vertex per face corner, in file order, plus an identity index list.

Shared value types from `common.h` are in `Common`. The vector types are in
`Vectors`, and an `Option` type is in `Wrappers`.

## Model

| member | source | states |
|---|---|---|
| VulkanUtils.FindMemoryType | src/Vulkan/Utils.cpp:3-17 | The result is the least index below memoryTypeCount whose filter bit is set and whose flags include every requested property. It is UINT32_MAX exactly when no index qualifies. |
| VulkanUtils.FirstSuitableIsLeast | src/Vulkan/Buffer.cpp:3-17 | The search specification finds the first suitable memory type at or after a start index, and finds nothing exactly when none there is suitable (the verbatim copy in Buffer.cpp). |
| VulkanUtils.NoPropertiesPicksLowestBit | src/Vulkan/Utils.cpp:8-13 | With no required properties, the chosen memory type is the lowest set bit of the type filter below memoryTypeCount. |
| VulkanUtils.FilteredOutNeverChosen | src/Vulkan/Utils.cpp:8-16 | A memory type excluded by the filter is never returned. Any result is either a valid index or UINT32_MAX. |
| VulkanUtils.ChangeLayout | src/Vulkan/Utils.cpp:76-170 | Returns true iff the layouts agree or the pair is one of the eight supported transitions. A barrier is recorded iff the layouts differ and the pair is supported. The barrier carries both layouts and the image, ignored queue families, the colour aspect, and one mip level and one layer. |
| VulkanUtils.ChangeLayoutIsTableLookup | src/Vulkan/Utils.cpp:92-164 | The if/else chain equals a lookup in the transition table. A supported pair records exactly that row's access masks and stages; any other distinct pair records nothing and fails. |
| VulkanUtils.LookupFindsFirst | src/Vulkan/Utils.cpp:96-164 | The table lookup returns the first row matching the pair, in the order the chain tests them, and nothing when no row matches. |
| VulkanUtils.UndefinedSourceWaitsForNothing | src/Vulkan/Utils.cpp:112-151 | A recorded barrier has an empty source access mask iff it leaves UNDEFINED, and starts at the top of the pipe iff it leaves UNDEFINED. |
| VulkanUtils.ReverseTransitionMirrors | src/Vulkan/Utils.cpp:96-144 | For a transition supported in both directions (not involving UNDEFINED), the reverse barrier swaps the source and destination access masks and stages. |
| Bvh.GrowEncloses | src/App/BvhBuilder.cpp:9-12 | Growing a box by a triangle keeps the old box inside and contains the triangle. |
| Bvh.GrowIsLeast | src/App/BvhBuilder.cpp:9-12 | Any box that encloses the old box and contains the triangle encloses the grown box, so Grow is the least such box. |
| Bvh.GrowCommutes | src/App/BvhBuilder.cpp:9-12 | Growing by two triangles gives the same box in either order. |
| Bvh.BoundsOfPermutation | src/App/BvhBuilder.cpp:64-66 | The box grown over a triangle list depends only on its multiset of triangles, not their order. |
| Bvh.BoundsInContains | src/App/BvhBuilder.cpp:92-96 | The box grown over a range of triangles contains each triangle of the range. |
| Bvh.BoundsInIsLeast | src/App/BvhBuilder.cpp:92-96 | Any box containing every triangle of a range, and enclosing the empty default box, encloses the grown box. |
| Bvh.SeparatedTriangleSides | src/App/BvhBuilder.cpp:14-20 | A triangle wholly below the split plane is classified left; one wholly at or above it is classified right. |
| Bvh.LongestAxisIsLongest | src/App/BvhBuilder.cpp:22-34 | The chosen axis has the greatest extent, with ties going to X before Y before Z. The split position is the midpoint of the box on that axis, and lies inside a well-formed box. |
| Bvh.ExtractTriangles | src/App/BvhBuilder.cpp:36-50 | One triangle per three indices; corner c of triangle k is the position of vertex indices[3k+c]. |
| Bvh.BvhBuilder.constructor | src/App/BvhBuilder.cpp:52-55 | The builder holds the mesh's extracted triangles and maxDepth, and no nodes. |
| Bvh.TreeSizeWithinReserve | src/App/BvhBuilder.cpp:57-59 | The finished tree has 2^maxDepth - 1 nodes (1 when maxDepth <= 1), which fits in the 2^maxDepth slots Build reserves. |
| Bvh.AppendedClosedForm | src/App/BvhBuilder.cpp:77-107 | The nodes BuildLayer appends below a node at depth d total 2^(maxDepth-d+1) - 2. |
| Bvh.BvhBuilder.Build | src/App/BvhBuilder.cpp:57-75 | Build stays within the reserve, and the root covers every triangle with the least enclosing box. Every node satisfies the subtree invariant: children are adjacent and split the parent's range at the longest-axis midpoint, and every box is tight. The triangles end up a permutation of the old ones. With statistics, the leaf count, the uint32 average over non-empty leaves and the largest leaf are returned. |
| Bvh.BvhBuilder.BuildLayer | src/App/BvhBuilder.cpp:77-107 | Appends exactly the subtree's nodes and never exceeds the capacity. It sets the parent's ChildIndex and leaves every other earlier node untouched. It permutes only the parent's triangle range, and establishes the subtree invariant below the parent. |
| Bvh.BvhBuilder.Partition | src/App/BvhBuilder.cpp:85-103 | The two new children split the parent's range: left-centred triangles first, the right block right after. Each child's box is the least box over its block, both children are leaves, and the range is permuted in place. |
| Bvh.ParentSurvives | src/App/BvhBuilder.cpp:105-106 | Rebuilding the children's ranges keeps the parent's box tight and its split valid, and the parent's range stays a permutation. |
| Bvh.SubtreeFrame | src/App/BvhBuilder.cpp:105-106 | A finished subtree stays valid when later appends and the sibling's partition leave its nodes and triangle range alone. |
| Bvh.SubtreeNodes | src/App/BvhBuilder.cpp:77-107 | In a finished subtree every node lies inside its ancestor's triangle range, and its box is tight. |
| Bvh.SubtreeLeafSums | src/App/BvhBuilder.cpp:77-107 | The leaves of a subtree hold exactly the subtree root's triangle count between them, and there are 2^(maxDepth-depth) of them. |
| Bvh.LeafTotalClosedForm | src/App/BvhBuilder.cpp:77-80 | A tree built from depth d has 2^(maxDepth-d) leaves. |
| Bvh.TreeLeafSums | src/App/BvhBuilder.cpp:109-129 | Over the whole tree, the leaf triangle counts sum to the root's count, and there are 2^(maxDepth-1) leaves (one when maxDepth <= 1). With any triangle there is a non-empty leaf (so the division is defined). The uint32 running total is the true total mod 2^32. |
| Bvh.MaxLeafTrianglesIsMax | src/App/BvhBuilder.cpp:123-125 | The largest-leaf statistic bounds every leaf's count. It is attained by some leaf, or is 0. |
| Bvh.WrappedTotalIsTotalMod | src/App/BvhBuilder.cpp:120 | Accumulating leaf counts in a uint32 gives the sum mod 2^32. |
| Bvh.BvhBuilder.CountLeaves | src/App/BvhBuilder.cpp:110-127 | The loop returns the number of leaves, the number of non-empty leaves, the uint32 sum of leaf triangle counts and the largest leaf count. |
| Bvh.BvhBuilder.PrintStats | src/App/BvhBuilder.cpp:109-133 | Returns the leaf count, the uint32 total divided by the number of non-empty leaves, and the largest leaf. It requires a non-empty leaf, because the division needs one. |
| NearestHit.NearestInIsWinner | main.cpp:99-119 | The reference search names a hit nearer than the sentinel: every earlier hit is strictly farther and every later one at least as far. When it names nothing, no outcome is a hit. |
| NearestHit.NearestInIsTheWinner | mesh.cpp:59-71 | A hit is found iff some outcome beats the sentinel, and then the index found is the one and only first nearest hit. |
| NearestHit.ScanStep | main.cpp:101-104 | One loop step keeps a test's hit exactly when it is strictly nearer than the current best, which preserves agreement with the reference search. |
| CpuMesh.FromFile | mesh.cpp:9-54 | A parser failure gives no mesh. Otherwise there is one vertex per face corner in file order: its position, its normal and uv when present (zero otherwise). Index k points at vertex k, and the mesh has the fixed orange material. |
| CpuMesh.LoadedMeshIsWalkable | mesh.cpp:22-46 | A loaded file whose faces are triangles gives a mesh whose indices come in whole triangles and name existing vertices. |
| CpuMesh.Intersect | mesh.cpp:56-75 | Reports a hit iff the reference search over the mesh's triangles does, and returns that hit. Otherwise it returns the caller's record with the sentinel distance. |
| CpuMesh.MeshHitIsFirstNearest | mesh.cpp:56-75 | The mesh reports a hit iff some triangle is hit nearer than the sentinel. The hit is then that triangle's test result with the mesh's material, strictly nearer than every earlier hit triangle and no farther than every later one. |
| CpuScene.ClosestHit | main.cpp:94-123 | Reports a hit iff the reference search over all sphere, plane and mesh outcomes (in that order) finds one, and copies that outcome out. Otherwise the output is the local record with the sentinel distance. |
| CpuScene.SceneHitIsFirstNearest | main.cpp:94-123 | A hit is reported iff some primitive is hit nearer than the sentinel. The reported hit is the winning outcome copied verbatim: strictly nearer than every earlier hit and no farther than every later one (so of two equally near hits the later is never reported), and the winner is unique. |
| CpuScene.PathBounded | main.cpp:73-88 | A path holds at most `bounces` hits, each nearer than the sentinel. |
| CpuScene.Trace | main.cpp:67-91 | The loop's hits are exactly the path of at most maxBounces closest-hit queries from the camera ray. The loop stops right after the first miss, which it reports together with the number of queries made. |

## Left out

- Floating point: coordinates, distances and extents are real numbers, so float rounding is not modelled. In particular, the `1e30f` sentinel is its exact value as a float, and the `/ 3.0f` in IsLeft and the `/ 2.0f` in GetLongestAxis are exact.
- Bvh.BvhBuilder.Build: the uint32 cast of the triangle count and the uint32 node indices are unbounded naturals. Only the average's running total wraps mod 2^32, as the statistics print it.
- Bvh.BvhBuilder.Build: `printStats` on a mesh with no triangles divides by zero in the source (`nonEmpty` is 0). Build instead requires at least one triangle when statistics are requested.
- Bvh.BvhBuilder.BuildLayer: the C++ `BvhNode&` references into `mBvh` are node indices here, and the children live in the sequence as soon as they are appended. The proof that appends stay within the reserve is what keeps those references valid in the source. Reallocation itself is not modelled.
- Bvh.BvhBuilder.Partition and Bvh.BvhBuilder.CountLeaves are the inner loops of BuildLayer and PrintStats, written as separate methods.
- BvhBuilder::ExportToCSV and the LOG_INFO line: file output and logging are I/O. PrintStats returns the logged values instead.
- The builder's `mMesh` member is stored by the constructor's initialiser list but never read (the triangles come from the `mesh` parameter), so the class has no such field.
- The OBJ parser (`tinyobj::LoadObj`) is a foreign call: its outcome is the input of CpuMesh.FromFile. Indices are assumed within the attribute arrays, and this assumption is a precondition.
- CpuMesh.FromFile: the `static_cast<uint32_t>` of the vertex count is not modelled (indices are unbounded naturals).
- The ray/sphere, ray/plane and ray/triangle tests (math.cpp) are function parameters. Their outcome is an optional hit, and no geometry is proved about them.
- The radiance arithmetic of Scene::trace is not modelled: emitted light, the colour product, the background colour, and the offset and scattered ray. Random hemisphere sampling is inside the `scatter` parameter.
- The Scene constructor and its material list: materials are values, so which `Material*` address a hit holds is not modelled. The bounce limit is the `maxBounces` field.
- The uninitialised parts of local `RayHit` records are the `scratch` / `closestHit` parameters.
- Vulkan plumbing: device queries, buffer creation, copies and command recording are not modelled. The memory-type table is a parameter, and the recorded barrier is a result. The LOG_WARNING for an unsupported transition is I/O.
- The GPU shaders, the GUI, the window and surface code, and the application drivers are outside this model.

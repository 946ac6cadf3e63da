/**
 * The BVH builder of src/App/BvhBuilder.cpp: triangle extraction from an
 * indexed mesh, the root bounding box, and the recursive spatial-median split
 * that partitions the triangle array in place and appends nodes to a flat
 * arena (ChildIndex 0 means leaf; otherwise the children sit at ChildIndex and
 * ChildIndex + 1).
 *
 * The node vector `mBvh` is a sequence field together with the capacity
 * Build reserves for it (2^maxDepth); the C++ references `parent`,
 * `leftChild` and `rightChild` into that vector are indices. Every append is
 * proved to stay within the reserved capacity, which is what keeps those
 * references valid in the C++ code.
 */
module Bvh {
  import opened Vectors
  import opened Wrappers

  // ---------------------------------------------------------------------------
  // Geometry: triangles, boxes, Grow, the split axis
  // ---------------------------------------------------------------------------

  /** A triangle as the builder stores it: three vertex positions. */
  datatype Triangle = Triangle(V0: Vec3, V1: Vec3, V2: Vec3)

  /** A mesh vertex as the asset importer hands it over. */
  datatype Vertex = Vertex(position: Vec3, normal: Vec3, uv: Vec2)

  datatype SplitAxis = X | Y | Z

  /** FLT_MAX, the magnitude of the empty-box sentinel. */
  const FltMax: real := 340282346638528859811704183484516925440.0

  /** An axis-aligned box; the C++ node holds Min and Max directly. */
  datatype Aabb = Aabb(Min: Vec3, Max: Vec3)

  /** The box of a default-constructed node: Min = FLT_MAX, Max = -FLT_MAX. */
  const EmptyBox: Aabb := Aabb(Vec3(FltMax, FltMax, FltMax), Vec3(-FltMax, -FltMax, -FltMax))

  /** A node of the flat tree. */
  datatype BvhNode = BvhNode(Box: Aabb, ChildIndex: nat, TriangleIndex: nat, TriangleCount: nat)

  /** A default-constructed node (BvhBuilder.h). */
  const DefaultNode: BvhNode := BvhNode(EmptyBox, 0, 0, 0)

  /** All three vertices of `t` lie inside `b`. */
  predicate Contains(b: Aabb, t: Triangle)
  {
    LessEq(b.Min, t.V0) && LessEq(t.V0, b.Max)
    && LessEq(b.Min, t.V1) && LessEq(t.V1, b.Max)
    && LessEq(b.Min, t.V2) && LessEq(t.V2, b.Max)
  }

  /** `outer` spans at least what `inner` spans, componentwise. */
  predicate Encloses(outer: Aabb, inner: Aabb)
  {
    LessEq(outer.Min, inner.Min) && LessEq(inner.Max, outer.Max)
  }

  /** Grow: widen a node's box by a triangle (see GrowEncloses and GrowIsLeast). */
  function Grow(b: Aabb, t: Triangle): Aabb
  {
    Aabb(MinV(b.Min, MinV(t.V0, MinV(t.V1, t.V2))), MaxV(b.Max, MaxV(t.V0, MaxV(t.V1, t.V2))))
  }

  /** The grown box never shrinks and holds the triangle. */
  lemma GrowEncloses(b: Aabb, t: Triangle)
    ensures Encloses(Grow(b, t), b)
    ensures Contains(Grow(b, t), t)
  {
  }

  /** Grow adds nothing beyond what is needed: any box holding `b` and `t` holds the grown box. */
  lemma GrowIsLeast(b: Aabb, t: Triangle, c: Aabb)
    requires Encloses(c, b) && Contains(c, t)
    ensures Encloses(c, Grow(b, t))
  {
  }

  /** Growing by two triangles gives the same box in either order. */
  lemma GrowCommutes(b: Aabb, s: Triangle, t: Triangle)
    ensures Grow(Grow(b, s), t) == Grow(Grow(b, t), s)
  {
  }

  /** The box obtained by growing the empty box over `ts` in order. */
  function BoundsOf(ts: seq<Triangle>): Aabb
  {
    if ts == [] then EmptyBox else Grow(BoundsOf(ts[..|ts| - 1]), ts[|ts| - 1])
  }

  /** Taking one triangle out of the middle and growing by it last gives the same box. */
  lemma {:induction false} BoundsOfRemove(ts: seq<Triangle>, j: nat)
    requires j < |ts|
    ensures BoundsOf(ts) == Grow(BoundsOf(ts[..j] + ts[j + 1..]), ts[j])
  {
    var n := |ts|;
    if j == n - 1 {
      assert ts[..j] + ts[j + 1..] == ts[..n - 1];
    } else {
      var init := ts[..n - 1];
      var u := ts[n - 1];
      BoundsOfRemove(init, j);
      var rest := init[..j] + init[j + 1..];
      GrowCommutes(BoundsOf(rest), ts[j], u);
      assert rest + [u] == ts[..j] + ts[j + 1..];
      assert (rest + [u])[..|rest + [u]| - 1] == rest;
    }
  }

  /** BoundsOf depends only on the multiset of triangles, not on their order. */
  lemma {:induction false} BoundsOfPermutation(s: seq<Triangle>, t: seq<Triangle>)
    requires multiset(s) == multiset(t)
    ensures BoundsOf(s) == BoundsOf(t)
    decreases |s|
  {
    if s != [] {
      var n := |s|;
      var x := s[n - 1];
      assert s == s[..n - 1] + [x];
      assert x in multiset(t);
      var j :| 0 <= j < |t| && t[j] == x;
      assert t == t[..j] + [t[j]] + t[j + 1..];
      var rest := t[..j] + t[j + 1..];
      assert multiset(t) == multiset(t[..j]) + multiset{x} + multiset(t[j + 1..]);
      assert multiset(rest) == multiset(t) - multiset{x};
      assert multiset(s[..n - 1]) == multiset(s) - multiset{x};
      BoundsOfPermutation(s[..n - 1], rest);
      BoundsOfRemove(t, j);
    } else {
      assert |t| == |multiset(t)| == 0;
    }
  }

  /** The box of the triangles ts[lo..hi], grown in index order from the empty box. */
  function BoundsIn(ts: seq<Triangle>, lo: nat, hi: nat): Aabb
    requires lo <= hi <= |ts|
    decreases hi - lo, 1
  {
    if lo == hi then EmptyBox else GrownBounds(ts, lo, hi)
  }

  /** The box of a non-empty range: the box of all but its last triangle, grown by that one. */
  function GrownBounds(ts: seq<Triangle>, lo: nat, hi: nat): Aabb
    requires lo < hi <= |ts|
    decreases hi - lo, 0
  {
    Grow(BoundsIn(ts, lo, hi - 1), ts[hi - 1])
  }

  /** The box holds every triangle it was grown over. */
  lemma {:induction false} BoundsInContains(ts: seq<Triangle>, lo: nat, hi: nat)
    requires lo <= hi <= |ts|
    ensures forall k :: lo <= k < hi ==> Contains(BoundsIn(ts, lo, hi), ts[k])
    decreases hi - lo
  {
    if lo < hi {
      BoundsInContains(ts, lo, hi - 1);
      GrowEncloses(BoundsIn(ts, lo, hi - 1), ts[hi - 1]);
    }
  }

  /**
   * The box is tight: every box that holds all of ts[lo..hi] (and is no smaller
   * than the empty sentinel box) holds BoundsIn(ts, lo, hi).
   */
  lemma {:induction false} BoundsInIsLeast(ts: seq<Triangle>, lo: nat, hi: nat, c: Aabb)
    requires lo <= hi <= |ts|
    requires Encloses(c, EmptyBox)
    requires forall k :: lo <= k < hi ==> Contains(c, ts[k])
    ensures Encloses(c, BoundsIn(ts, lo, hi))
    decreases hi - lo
  {
    if lo < hi {
      BoundsInIsLeast(ts, lo, hi - 1, c);
      GrowIsLeast(BoundsIn(ts, lo, hi - 1), ts[hi - 1], c);
    }
  }

  lemma {:induction false} BoundsInSlice(ts: seq<Triangle>, lo: nat, hi: nat)
    requires lo <= hi <= |ts|
    ensures BoundsIn(ts, lo, hi) == BoundsOf(ts[lo..hi])
    decreases hi - lo
  {
    if lo < hi {
      BoundsInSlice(ts, lo, hi - 1);
      assert ts[lo..hi][..hi - lo - 1] == ts[lo..hi - 1];
    }
  }

  /** The box depends only on the triangles in the range. */
  lemma {:induction false} BoundsInAgree(a: seq<Triangle>, b: seq<Triangle>, lo: nat, hi: nat)
    requires lo <= hi <= |a| && hi <= |b|
    requires forall k :: lo <= k < hi ==> a[k] == b[k]
    ensures BoundsIn(a, lo, hi) == BoundsIn(b, lo, hi)
    decreases hi - lo
  {
    if lo < hi {
      BoundsInAgree(a, b, lo, hi - 1);
    }
  }

  /** A non-empty range's box is that of all but its last triangle, grown by the last. */
  lemma BoundsInStep(ts: seq<Triangle>, lo: nat, hi: nat)
    requires lo < hi <= |ts|
    ensures BoundsIn(ts, lo, hi) == Grow(BoundsIn(ts, lo, hi - 1), ts[hi - 1])
  {
    assert BoundsIn(ts, lo, hi) == GrownBounds(ts, lo, hi);
  }

  /** Growing by the first triangle last gives the same box. */
  lemma {:induction false} BoundsInFirst(ts: seq<Triangle>, lo: nat, hi: nat)
    requires lo < hi <= |ts|
    ensures BoundsIn(ts, lo, hi) == Grow(BoundsIn(ts, lo + 1, hi), ts[lo])
    decreases hi - lo
  {
    BoundsInStep(ts, lo, hi);
    if lo + 1 < hi {
      BoundsInFirst(ts, lo, hi - 1);
      BoundsInStep(ts, lo + 1, hi);
      GrowCommutes(BoundsIn(ts, lo + 1, hi - 1), ts[lo], ts[hi - 1]);
    }
  }

  /** The box depends only on the multiset of triangles in the range. */
  lemma BoundsInPermutation(a: seq<Triangle>, b: seq<Triangle>, lo: nat, hi: nat)
    requires lo <= hi <= |a| && hi <= |b|
    requires multiset(a[lo..hi]) == multiset(b[lo..hi])
    ensures BoundsIn(a, lo, hi) == BoundsIn(b, lo, hi)
  {
    BoundsInSlice(a, lo, hi);
    BoundsInSlice(b, lo, hi);
    BoundsOfPermutation(a[lo..hi], b[lo..hi]);
  }

  /** Coordinate of `v` on `axis`. */
  function Coord(v: Vec3, axis: SplitAxis): real
  {
    match axis
    case X => v.x
    case Y => v.y
    case Z => v.z
  }

  /** The centroid of `t` on `axis`. */
  function Centre(t: Triangle, axis: SplitAxis): real
  {
    (Coord(t.V0, axis) + Coord(t.V1, axis) + Coord(t.V2, axis)) / 3.0
  }

  /** IsLeft: the triangle's centroid on the split axis lies below the split position. */
  predicate IsLeft(t: Triangle, axis: SplitAxis, pos: real)
  {
    Centre(t, axis) < pos
  }

  /**
   * A triangle entirely below the split position is classified left, and one
   * entirely at or above it is classified right.
   */
  lemma SeparatedTriangleSides(t: Triangle, axis: SplitAxis, pos: real)
    ensures Coord(t.V0, axis) < pos && Coord(t.V1, axis) < pos && Coord(t.V2, axis) < pos ==> IsLeft(t, axis, pos)
    ensures Coord(t.V0, axis) >= pos && Coord(t.V1, axis) >= pos && Coord(t.V2, axis) >= pos ==> !IsLeft(t, axis, pos)
  {
  }

  /** The split chosen for a node: an axis and a position on it. */
  datatype Split = Split(axis: SplitAxis, pos: real)

  function Extent(b: Aabb, axis: SplitAxis): real
  {
    Coord(b.Max, axis) - Coord(b.Min, axis)
  }

  /** X before Y before Z, the order GetLongestAxis tests them in. */
  function AxisRank(axis: SplitAxis): nat
  {
    match axis
    case X => 0
    case Y => 1
    case Z => 2
  }

  /**
   * GetLongestAxis: the first axis, in X, Y, Z order, of greatest extent, and the
   * midpoint of the box on it.
   */
  function GetLongestAxis(b: Aabb): Split
  {
    var e := Vec3(b.Max.x - b.Min.x, b.Max.y - b.Min.y, b.Max.z - b.Min.z);
    if e.x >= e.y && e.x >= e.z then
      Split(X, (b.Min.x + b.Max.x) / 2.0)
    else if e.y >= e.x && e.y >= e.z then
      Split(Y, (b.Min.y + b.Max.y) / 2.0)
    else
      Split(Z, (b.Min.z + b.Max.z) / 2.0)
  }

  /**
   * The chosen axis has the greatest extent, every axis tested before it a
   * strictly smaller one, and the position is the box's midpoint on it.
   */
  lemma LongestAxisIsLongest(b: Aabb)
    ensures forall a :: Extent(b, a) <= Extent(b, GetLongestAxis(b).axis)
    ensures forall a :: AxisRank(a) < AxisRank(GetLongestAxis(b).axis) ==> Extent(b, a) < Extent(b, GetLongestAxis(b).axis)
    ensures 2.0 * GetLongestAxis(b).pos == Coord(b.Min, GetLongestAxis(b).axis) + Coord(b.Max, GetLongestAxis(b).axis)
    ensures LessEq(b.Min, b.Max) ==> Coord(b.Min, GetLongestAxis(b).axis) <= GetLongestAxis(b).pos <= Coord(b.Max, GetLongestAxis(b).axis)
  {
  }

  // ---------------------------------------------------------------------------
  // ExtractTriangles
  // ---------------------------------------------------------------------------

  /** The index buffer is fully triangulated and refers only to existing vertices. */
  predicate ValidIndices(vertices: seq<Vertex>, indices: seq<nat>)
  {
    |indices| % 3 == 0 && forall k :: 0 <= k < |indices| ==> indices[k] < |vertices|
  }

  /** Corner `c` (0, 1 or 2) of a triangle. */
  function Corner(t: Triangle, c: nat): Vec3
    requires c < 3
  {
    if c == 0 then t.V0 else if c == 1 then t.V1 else t.V2
  }

  /**
   * ExtractTriangles: one triangle per consecutive index triple, in index
   * order; corner c of triangle k is the position of vertex indices[3k + c].
   */
  method ExtractTriangles(vertices: seq<Vertex>, indices: seq<nat>) returns (triangles: seq<Triangle>)
    requires ValidIndices(vertices, indices)
    ensures 3 * |triangles| == |indices|
    ensures forall k, c :: 0 <= k < |triangles| && 0 <= c < 3 ==>
      Corner(triangles[k], c) == vertices[indices[3 * k + c]].position
  {
    triangles := [];
    var i := 0;
    while i < |indices|
      invariant i <= |indices| && i == 3 * |triangles|
      invariant forall k, c :: 0 <= k < |triangles| && 0 <= c < 3 ==>
        Corner(triangles[k], c) == vertices[indices[3 * k + c]].position
    {
      var tri := Triangle(vertices[indices[i]].position, vertices[indices[i + 1]].position, vertices[indices[i + 2]].position);
      triangles := triangles + [tri];
      i := i + 3;
    }
  }

  // ---------------------------------------------------------------------------
  // Tree shape: sizes, ranges, the shape of a finished subtree
  // ---------------------------------------------------------------------------

  function Pow2(n: nat): (r: nat)
    ensures r >= 1
  {
    if n == 0 then 1 else 2 * Pow2(n - 1)
  }

  /** How many nodes BuildLayer appends below a node it is called on at `depth`. */
  function Appended(depth: nat, maxDepth: nat): nat
    decreases maxDepth - depth
  {
    if depth >= maxDepth then 0 else 2 + 2 * Appended(depth + 1, maxDepth)
  }

  /** The number of nodes Build produces: the root and everything appended below it. */
  function TreeSize(maxDepth: nat): nat
  {
    1 + Appended(1, maxDepth)
  }

  lemma {:induction false} AppendedClosedForm(depth: nat, maxDepth: nat)
    requires depth <= maxDepth
    ensures Appended(depth, maxDepth) + 2 == Pow2(maxDepth - depth + 1)
    decreases maxDepth - depth
  {
    if depth < maxDepth {
      AppendedClosedForm(depth + 1, maxDepth);
    }
  }

  /**
   * The finished tree has 2^maxDepth - 1 nodes for maxDepth >= 1 (only the root
   * for maxDepth <= 1), never more than the 2^maxDepth slots Build reserves.
   */
  lemma TreeSizeWithinReserve(maxDepth: nat)
    ensures maxDepth >= 1 ==> TreeSize(maxDepth) == Pow2(maxDepth) - 1
    ensures maxDepth <= 1 ==> TreeSize(maxDepth) == 1
    ensures TreeSize(maxDepth) <= Pow2(maxDepth)
  {
    if maxDepth >= 1 {
      AppendedClosedForm(1, maxDepth);
    }
  }

  /** The node's triangle range lies inside an array of `count` triangles. */
  predicate InBounds(n: BvhNode, count: nat)
  {
    n.TriangleIndex + n.TriangleCount <= count
  }

  /** The triangle range of `inner` lies inside that of `outer`. */
  predicate Within(inner: BvhNode, outer: BvhNode)
  {
    outer.TriangleIndex <= inner.TriangleIndex
    && inner.TriangleIndex + inner.TriangleCount <= outer.TriangleIndex + outer.TriangleCount
  }

  /** Every triangle of ts[lo..hi] lies on the given side of the split. */
  ghost predicate OnSide(ts: seq<Triangle>, lo: nat, hi: nat, sp: Split, left: bool)
  {
    forall k {:trigger IsLeft(ts[k], sp.axis, sp.pos)} :: lo <= k < hi && k < |ts| ==> IsLeft(ts[k], sp.axis, sp.pos) == left
  }

  /** The child ranges are contiguous and disjoint and cover the parent's. */
  predicate Adjacent(p: BvhNode, l: BvhNode, r: BvhNode)
  {
    l.TriangleIndex == p.TriangleIndex
    && r.TriangleIndex == l.TriangleIndex + l.TriangleCount
    && l.TriangleCount + r.TriangleCount == p.TriangleCount
  }

  /**
   * An internal node's children split its range at its spatial median: left
   * centroids below the split position, right ones at or above it.
   */
  ghost predicate SplitsRange(ts: seq<Triangle>, p: BvhNode, l: BvhNode, r: BvhNode)
  {
    Adjacent(p, l, r) && InBounds(p, |ts|)
    && OnSide(ts, l.TriangleIndex, l.TriangleIndex + l.TriangleCount, GetLongestAxis(p.Box), true)
    && OnSide(ts, r.TriangleIndex, r.TriangleIndex + r.TriangleCount, GetLongestAxis(p.Box), false)
  }

  /** The node's box is exactly the bounds of the triangles in its range. */
  ghost predicate Tight(ts: seq<Triangle>, n: BvhNode)
  {
    InBounds(n, |ts|) && n.Box == BoundsIn(ts, n.TriangleIndex, n.TriangleIndex + n.TriangleCount)
  }

  /**
   * What BuildLayer leaves below node k, called at `depth` when the node vector
   * held `s` nodes: k's box is the bounds of its range, and k is a leaf exactly
   * when depth >= maxDepth; otherwise its children are as Children says. All of
   * the subtree's other nodes lie in [s, s + Appended(depth, maxDepth)).
   */
  ghost predicate Subtree(ns: seq<BvhNode>, ts: seq<Triangle>, k: nat, s: nat, depth: nat, maxDepth: nat)
    decreases maxDepth - depth, 1
  {
    k < s && s + Appended(depth, maxDepth) <= |ns| && Tight(ts, ns[k])
    && if depth >= maxDepth then ns[k].ChildIndex == 0 else Children(ns, ts, k, s, depth, maxDepth)
  }

  /**
   * The children of an internal node k: they sit at s and s + 1 and split k's
   * range at the midpoint of its box's longest axis; the left child's subtree
   * follows at s + 2 and then the right child's (pre-order).
   */
  ghost predicate Children(ns: seq<BvhNode>, ts: seq<Triangle>, k: nat, s: nat, depth: nat, maxDepth: nat)
    requires k < s && s + Appended(depth, maxDepth) <= |ns| && depth < maxDepth
    decreases maxDepth - depth, 0
  {
    ns[k].ChildIndex == s
    && SplitsRange(ts, ns[k], ns[s], ns[s + 1])
    && Subtree(ns, ts, s, s + 2, depth + 1, maxDepth)
    && Subtree(ns, ts, s + 1, s + 2 + Appended(depth + 1, maxDepth), depth + 1, maxDepth)
  }

  /**
   * A subtree depends only on its own nodes and on the triangles in its root's
   * range: it survives any change elsewhere.
   */
  lemma {:induction false} SubtreeFrame(ns: seq<BvhNode>, ts: seq<Triangle>, ns': seq<BvhNode>, ts': seq<Triangle>,
                                        k: nat, s: nat, depth: nat, maxDepth: nat)
    requires Subtree(ns, ts, k, s, depth, maxDepth)
    requires s + Appended(depth, maxDepth) <= |ns'| && ns'[k] == ns[k]
    requires forall j :: s <= j < s + Appended(depth, maxDepth) ==> ns'[j] == ns[j]
    requires |ts'| == |ts|
    requires forall i :: ns[k].TriangleIndex <= i < ns[k].TriangleIndex + ns[k].TriangleCount ==> ts'[i] == ts[i]
    ensures Subtree(ns', ts', k, s, depth, maxDepth)
    decreases maxDepth - depth
  {
    BoundsInAgree(ts, ts', ns[k].TriangleIndex, ns[k].TriangleIndex + ns[k].TriangleCount);
    if depth < maxDepth {
      var a := Appended(depth + 1, maxDepth);
      SubtreeFrame(ns, ts, ns', ts', s, s + 2, depth + 1, maxDepth);
      SubtreeFrame(ns, ts, ns', ts', s + 1, s + 2 + a, depth + 1, maxDepth);
      var sp := GetLongestAxis(ns[k].Box);
      assert OnSide(ts', ns[s].TriangleIndex, ns[s].TriangleIndex + ns[s].TriangleCount, sp, true);
      assert OnSide(ts', ns[s + 1].TriangleIndex, ns[s + 1].TriangleIndex + ns[s + 1].TriangleCount, sp, false);
    }
  }

  /**
   * Node j of a tree whose nodes after the root k occupy [s, e): its box is the
   * bounds of its range, the range lies inside k's, and an internal node's
   * children sit after it, inside [s, e), and split its range at the midpoint of
   * its box's longest axis.
   */
  ghost predicate NodeOk(ns: seq<BvhNode>, ts: seq<Triangle>, k: nat, s: nat, e: nat, j: nat)
  {
    k < |ns| && j < |ns| && Tight(ts, ns[j]) && Within(ns[j], ns[k])
    && (ns[j].ChildIndex != 0 ==>
          j < ns[j].ChildIndex && s <= ns[j].ChildIndex && ns[j].ChildIndex + 1 < e <= |ns|
          && SplitsRange(ts, ns[j], ns[ns[j].ChildIndex], ns[ns[j].ChildIndex + 1]))
  }

  /** Every node of [s, e) is a well-formed node of k's tree. */
  ghost predicate NodesOk(ns: seq<BvhNode>, ts: seq<Triangle>, k: nat, s: nat, e: nat)
  {
    forall j :: s <= j < e ==> NodeOk(ns, ts, k, s, e, j)
  }

  /** A node of a subtree is also a node of any enclosing subtree. */
  lemma NodeOkWiden(ns: seq<BvhNode>, ts: seq<Triangle>, k': nat, s': nat, e': nat, k: nat, s: nat, e: nat, j: nat)
    requires NodeOk(ns, ts, k', s', e', j)
    requires k < |ns| && Within(ns[k'], ns[k]) && s <= s' && e' <= e <= |ns|
    ensures NodeOk(ns, ts, k, s, e, j)
  {
  }

  /**
   * Every node of a finished subtree, its root included, is well formed on its
   * own: the flat view a consumer walking the node vector by index relies on.
   */
  lemma {:induction false} SubtreeNodes(ns: seq<BvhNode>, ts: seq<Triangle>, k: nat, s: nat, depth: nat, maxDepth: nat)
    requires Subtree(ns, ts, k, s, depth, maxDepth)
    ensures NodeOk(ns, ts, k, s, s + Appended(depth, maxDepth), k)
    ensures NodesOk(ns, ts, k, s, s + Appended(depth, maxDepth))
    decreases maxDepth - depth
  {
    var e := s + Appended(depth, maxDepth);
    if depth < maxDepth {
      var a := Appended(depth + 1, maxDepth);
      SubtreeNodes(ns, ts, s, s + 2, depth + 1, maxDepth);
      SubtreeNodes(ns, ts, s + 1, s + 2 + a, depth + 1, maxDepth);
      forall j | s <= j < e
        ensures NodeOk(ns, ts, k, s, e, j)
      {
        if j == s || s + 2 <= j < s + 2 + a {
          NodeOkWiden(ns, ts, s, s + 2, s + 2 + a, k, s, e, j);
        } else {
          NodeOkWiden(ns, ts, s + 1, s + 2 + a, e, k, s, e, j);
        }
      }
    }
  }

  // ---------------------------------------------------------------------------
  // Leaf statistics (the counting loop of PrintStats)
  // ---------------------------------------------------------------------------

  /** What a leaf contributes to each statistic PrintStats gathers. */
  datatype LeafStat = Leaves | Triangles | NonEmpty

  function Weight(n: BvhNode, stat: LeafStat): nat
  {
    if n.ChildIndex != 0 then 0
    else match stat
      case Leaves => 1
      case Triangles => n.TriangleCount
      case NonEmpty => if n.TriangleCount > 0 then 1 else 0
  }

  /** The sum of a statistic over the leaves among ns[lo..hi]. */
  function LeafSum(ns: seq<BvhNode>, lo: nat, hi: nat, stat: LeafStat): nat
    requires lo <= hi <= |ns|
    decreases hi - lo
  {
    if lo == hi then 0 else LeafSum(ns, lo, hi - 1, stat) + Weight(ns[hi - 1], stat)
  }

  lemma {:induction false} LeafSumSplit(ns: seq<BvhNode>, lo: nat, mid: nat, hi: nat, stat: LeafStat)
    requires lo <= mid <= hi <= |ns|
    ensures LeafSum(ns, lo, hi, stat) == LeafSum(ns, lo, mid, stat) + LeafSum(ns, mid, hi, stat)
    decreases hi - mid
  {
    if mid < hi {
      LeafSumSplit(ns, lo, mid, hi - 1, stat);
    }
  }

  /** If the leaves hold some triangle, some leaf is non-empty. */
  lemma {:induction false} SomeLeafNonEmpty(ns: seq<BvhNode>, lo: nat, hi: nat)
    requires lo <= hi <= |ns|
    requires LeafSum(ns, lo, hi, Triangles) > 0
    ensures LeafSum(ns, lo, hi, NonEmpty) > 0
    decreases hi - lo
  {
    if LeafSum(ns, lo, hi - 1, Triangles) > 0 {
      SomeLeafNonEmpty(ns, lo, hi - 1);
    }
  }

  /** The number of leaves below a node reached at `depth`. */
  function LeafTotal(depth: nat, maxDepth: nat): nat
    decreases maxDepth - depth
  {
    if depth >= maxDepth then 1 else 2 * LeafTotal(depth + 1, maxDepth)
  }

  lemma {:induction false} LeafTotalClosedForm(depth: nat, maxDepth: nat)
    requires depth <= maxDepth
    ensures LeafTotal(depth, maxDepth) == Pow2(maxDepth - depth)
    decreases maxDepth - depth
  {
    if depth < maxDepth {
      LeafTotalClosedForm(depth + 1, maxDepth);
    }
  }

  /** The sum over a node's appended block: both children, then both child blocks. */
  lemma ChildSums(ns: seq<BvhNode>, s: nat, a: nat, e: nat, stat: LeafStat)
    requires e == s + 2 + 2 * a <= |ns|
    ensures LeafSum(ns, s, e, stat) == Weight(ns[s], stat) + Weight(ns[s + 1], stat)
                                       + LeafSum(ns, s + 2, s + 2 + a, stat) + LeafSum(ns, s + 2 + a, s + 2 + a + a, stat)
  {
    LeafSumSplit(ns, s, s + 2 + a, e, stat);
    LeafSumSplit(ns, s, s + 2, s + 2 + a, stat);
    assert LeafSum(ns, s, s + 1, stat) == Weight(ns[s], stat);
    assert LeafSum(ns, s, s + 2, stat) == Weight(ns[s], stat) + Weight(ns[s + 1], stat);
  }

  /**
   * The leaves of a subtree hold exactly its root's triangle count between them,
   * and there are 2^(maxDepth - depth) of them.
   */
  lemma {:induction false} SubtreeLeafSums(ns: seq<BvhNode>, ts: seq<Triangle>, k: nat, s: nat, depth: nat, maxDepth: nat)
    requires Subtree(ns, ts, k, s, depth, maxDepth)
    ensures Weight(ns[k], Triangles) + LeafSum(ns, s, s + Appended(depth, maxDepth), Triangles) == ns[k].TriangleCount
    ensures Weight(ns[k], Leaves) + LeafSum(ns, s, s + Appended(depth, maxDepth), Leaves) == LeafTotal(depth, maxDepth)
    decreases maxDepth - depth
  {
    if depth < maxDepth {
      var a := Appended(depth + 1, maxDepth);
      var e := s + Appended(depth, maxDepth);
      SubtreeLeafSums(ns, ts, s, s + 2, depth + 1, maxDepth);
      SubtreeLeafSums(ns, ts, s + 1, s + 2 + a, depth + 1, maxDepth);
      ChildSums(ns, s, a, e, Triangles);
      ChildSums(ns, s, a, e, Leaves);
    }
  }

  /** The largest triangle count of any leaf among ns[..hi] (0 if there is none). */
  function MaxLeafTriangles(ns: seq<BvhNode>, hi: nat): nat
    requires hi <= |ns|
  {
    if hi == 0 then 0
    else
      var m := MaxLeafTriangles(ns, hi - 1);
      if ns[hi - 1].ChildIndex == 0 && ns[hi - 1].TriangleCount > m then ns[hi - 1].TriangleCount else m
  }

  /** MaxLeafTriangles bounds every leaf and is attained by one (or is 0). */
  lemma {:induction false} MaxLeafTrianglesIsMax(ns: seq<BvhNode>, hi: nat)
    requires hi <= |ns|
    ensures forall j :: 0 <= j < hi && ns[j].ChildIndex == 0 ==> ns[j].TriangleCount <= MaxLeafTriangles(ns, hi)
    ensures MaxLeafTriangles(ns, hi) == 0
         || exists j :: 0 <= j < hi && ns[j].ChildIndex == 0 && ns[j].TriangleCount == MaxLeafTriangles(ns, hi)
  {
    if hi != 0 {
      MaxLeafTrianglesIsMax(ns, hi - 1);
    }
  }

  /** 2^32: PrintStats accumulates in uint32. */
  const U32: nat := 0x1_0000_0000

  /** Adding to a uint32 accumulator: wrapping before or after the addition agrees. */
  lemma WrappingAdd(acc: nat, n: nat)
    ensures (acc % U32 + n) % U32 == (acc + n) % U32
  {
    var q := acc / U32;
    assert acc == q * U32 + acc % U32;
    assert acc + n == q * U32 + (acc % U32 + n);
  }

  /**
   * The triangle total of the leaves among ns[..hi] as PrintStats accumulates it
   * in a uint32: wrapping after every addition.
   */
  function WrappedTotal(ns: seq<BvhNode>, hi: nat): (r: nat)
    requires hi <= |ns|
    ensures r < U32
  {
    if hi == 0 then 0 else (WrappedTotal(ns, hi - 1) + Weight(ns[hi - 1], Triangles)) % U32
  }

  /** Wrapping after every addition is wrapping the exact total once. */
  lemma {:induction false} WrappedTotalIsTotalMod(ns: seq<BvhNode>, hi: nat)
    requires hi <= |ns|
    ensures WrappedTotal(ns, hi) == LeafSum(ns, 0, hi, Triangles) % U32
  {
    if hi > 0 {
      WrappedTotalIsTotalMod(ns, hi - 1);
      WrappingAdd(LeafSum(ns, 0, hi - 1, Triangles), Weight(ns[hi - 1], Triangles));
    }
  }

  /**
   * Over the whole tree Build produces: the leaves hold every triangle of the
   * root between them (so some leaf is non-empty when there is a triangle),
   * there are 2^(maxDepth - 1) of them, and the uint32 total is the triangle
   * count wrapped once.
   */
  lemma TreeLeafSums(ns: seq<BvhNode>, ts: seq<Triangle>, maxDepth: nat)
    requires Subtree(ns, ts, 0, 1, 1, maxDepth) && |ns| == TreeSize(maxDepth)
    ensures LeafSum(ns, 0, |ns|, Triangles) == ns[0].TriangleCount
    ensures LeafSum(ns, 0, |ns|, Leaves) == LeafTotal(1, maxDepth)
    ensures ns[0].TriangleCount > 0 ==> LeafSum(ns, 0, |ns|, NonEmpty) > 0
    ensures WrappedTotal(ns, |ns|) == ns[0].TriangleCount % U32
  {
    SubtreeLeafSums(ns, ts, 0, 1, 1, maxDepth);
    LeafSumSplit(ns, 0, 1, |ns|, Triangles);
    LeafSumSplit(ns, 0, 1, |ns|, Leaves);
    if ns[0].TriangleCount > 0 {
      SomeLeafNonEmpty(ns, 0, |ns|);
    }
    WrappedTotalIsTotalMod(ns, |ns|);
  }

  /** What PrintStats logs about the leaves. */
  datatype Stats = Stats(leaves: nat, avgTriangles: nat, maxTriangles: nat)

  // ---------------------------------------------------------------------------
  // Permutations of a range of the triangle array
  // ---------------------------------------------------------------------------

  /** How many times `t` occurs in ts[lo..hi]. */
  ghost function Occurrences(ts: seq<Triangle>, lo: nat, hi: nat, t: Triangle): nat
    requires lo <= hi <= |ts|
    decreases hi - lo
  {
    if lo == hi then 0 else Occurrences(ts, lo, hi - 1, t) + (if ts[hi - 1] == t then 1 else 0)
  }

  /** Occurrences counts what the multiset of the slice holds. */
  lemma {:induction false} OccurrencesIsMultiset(ts: seq<Triangle>, lo: nat, hi: nat, t: Triangle)
    requires lo <= hi <= |ts|
    ensures Occurrences(ts, lo, hi, t) == multiset(ts[lo..hi])[t]
    decreases hi - lo
  {
    if lo < hi {
      OccurrencesIsMultiset(ts, lo, hi - 1, t);
      assert ts[lo..hi] == ts[lo..hi - 1] + [ts[hi - 1]];
    }
  }

  /** Counting over [lo, hi) is counting over [lo, mid) and then over [mid, hi). */
  lemma {:induction false} OccurrencesSplit(ts: seq<Triangle>, lo: nat, mid: nat, hi: nat, t: Triangle)
    requires lo <= mid <= hi <= |ts|
    ensures Occurrences(ts, lo, hi, t) == Occurrences(ts, lo, mid, t) + Occurrences(ts, mid, hi, t)
    decreases hi - mid
  {
    if mid < hi {
      OccurrencesSplit(ts, lo, mid, hi - 1, t);
    }
  }

  /** The count depends only on the entries in the range. */
  lemma {:induction false} OccurrencesAgree(a: seq<Triangle>, b: seq<Triangle>, lo: nat, hi: nat, t: Triangle)
    requires lo <= hi <= |a| && hi <= |b|
    requires forall k :: lo <= k < hi ==> a[k] == b[k]
    ensures Occurrences(a, lo, hi, t) == Occurrences(b, lo, hi, t)
    decreases hi - lo
  {
    if lo < hi {
      OccurrencesAgree(a, b, lo, hi - 1, t);
    }
  }

  /**
   * `b` is `a` with only the entries in [lo, hi) rearranged among themselves:
   * equal outside the range, and every triangle as often inside it.
   */
  ghost predicate PermutedWithin(a: seq<Triangle>, b: seq<Triangle>, lo: nat, hi: nat)
  {
    lo <= hi <= |a| && |a| == |b|
    && (forall k :: 0 <= k < |a| && (k < lo || hi <= k) ==> a[k] == b[k])
    && (forall t :: Occurrences(a, lo, hi, t) == Occurrences(b, lo, hi, t))
  }

  /** A rearrangement within a range is one within any range around it. */
  lemma PermutedWithinWiden(a: seq<Triangle>, b: seq<Triangle>, lo: nat, hi: nat, lo': nat, hi': nat)
    requires PermutedWithin(a, b, lo, hi)
    requires lo' <= lo && hi <= hi' <= |a|
    ensures PermutedWithin(a, b, lo', hi')
  {
    forall t
      ensures Occurrences(a, lo', hi', t) == Occurrences(b, lo', hi', t)
    {
      OccurrencesSplit(a, lo', lo, hi', t);
      OccurrencesSplit(a, lo, hi, hi', t);
      OccurrencesSplit(b, lo', lo, hi', t);
      OccurrencesSplit(b, lo, hi, hi', t);
      OccurrencesAgree(a, b, lo', lo, t);
      OccurrencesAgree(a, b, hi, hi', t);
    }
  }

  lemma PermutedWithinTrans(a: seq<Triangle>, b: seq<Triangle>, c: seq<Triangle>, lo: nat, hi: nat)
    requires PermutedWithin(a, b, lo, hi) && PermutedWithin(b, c, lo, hi)
    ensures PermutedWithin(a, c, lo, hi)
  {
  }

  /** The rearranged range itself keeps its multiset. */
  lemma PermutedRange(a: seq<Triangle>, b: seq<Triangle>, lo: nat, hi: nat)
    requires PermutedWithin(a, b, lo, hi)
    ensures multiset(a[lo..hi]) == multiset(b[lo..hi])
  {
    forall t
      ensures multiset(a[lo..hi])[t] == multiset(b[lo..hi])[t]
    {
      OccurrencesIsMultiset(a, lo, hi, t);
      OccurrencesIsMultiset(b, lo, hi, t);
    }
  }

  /** A range rearrangement keeps the box of the range. */
  lemma PermutedBounds(a: seq<Triangle>, b: seq<Triangle>, lo: nat, hi: nat)
    requires PermutedWithin(a, b, lo, hi)
    ensures BoundsIn(a, lo, hi) == BoundsIn(b, lo, hi)
  {
    PermutedRange(a, b, lo, hi);
    BoundsInPermutation(a, b, lo, hi);
  }

  /** A range rearrangement keeps every triangle of the range on its side. */
  lemma PermutedOnSide(a: seq<Triangle>, b: seq<Triangle>, lo: nat, hi: nat, sp: Split, left: bool)
    requires PermutedWithin(a, b, lo, hi) && OnSide(a, lo, hi, sp, left)
    ensures OnSide(b, lo, hi, sp, left)
  {
    PermutedRange(a, b, lo, hi);
    forall k | lo <= k < hi ensures IsLeft(b[k], sp.axis, sp.pos) == left {
      assert b[k] == b[lo..hi][k - lo];
      assert b[k] in multiset(a[lo..hi]);
      var j :| 0 <= j < hi - lo && a[lo..hi][j] == b[k];
      assert a[lo + j] == b[k];
    }
  }

  /**
   * The state of the partition loop over [lo, hi) before position i: the left
   * child holds the left-side triangles gathered at the front of the range, the
   * right child the right-side ones after them up to i, each box is the bounds
   * of its block, and only [lo, hi) of the original array `a0` has been
   * rearranged.
   */
  ghost predicate PartitionInv(a0: seq<Triangle>, a: seq<Triangle>, lo: nat, hi: nat, i: nat,
                               l: BvhNode, r: BvhNode, sp: Split)
  {
    lo <= i <= hi <= |a|
    && l.ChildIndex == 0 && r.ChildIndex == 0
    && l.TriangleIndex == lo && r.TriangleIndex == lo + l.TriangleCount
    && r.TriangleIndex + r.TriangleCount == i
    && l.Box == BoundsIn(a, lo, r.TriangleIndex) && r.Box == BoundsIn(a, r.TriangleIndex, i)
    && OnSide(a, lo, r.TriangleIndex, sp, true) && OnSide(a, r.TriangleIndex, i, sp, false)
    && PermutedWithin(a0, a, lo, hi)
  }

  /**
   * Swapping the triangle at i with the first one of the block [j, i): the block
   * before j grows by it, and the block, moved up by one, keeps its box.
   */
  lemma SwapBounds(a: seq<Triangle>, b: seq<Triangle>, lo: nat, j: nat, i: nat)
    requires lo <= j <= i < |a| && b == a[i := a[j]][j := a[i]]
    ensures BoundsIn(b, lo, j + 1) == Grow(BoundsIn(a, lo, j), a[i])
    ensures BoundsIn(b, j + 1, i + 1) == BoundsIn(a, j, i)
  {
    BoundsInAgree(a, b, lo, j);
    BoundsInStep(b, lo, j + 1);
    if j < i {
      BoundsInAgree(a, b, j + 1, i);
      BoundsInStep(b, j + 1, i + 1);
      BoundsInFirst(a, j, i);
    }
  }

  /** The same swap keeps both blocks on their sides. */
  lemma SwapSides(a: seq<Triangle>, b: seq<Triangle>, lo: nat, j: nat, i: nat, sp: Split)
    requires lo <= j <= i < |a| && b == a[i := a[j]][j := a[i]]
    requires IsLeft(a[i], sp.axis, sp.pos)
    requires OnSide(a, lo, j, sp, true) && OnSide(a, j, i, sp, false)
    ensures OnSide(b, lo, j + 1, sp, true) && OnSide(b, j + 1, i + 1, sp, false)
  {
  }

  /** A swap of two entries of [lo, hi) keeps a rearrangement within [lo, hi). */
  lemma SwapPermuted(a0: seq<Triangle>, a: seq<Triangle>, b: seq<Triangle>, lo: nat, hi: nat, j: nat, i: nat)
    requires PermutedWithin(a0, a, lo, hi) && lo <= j <= i < hi
    requires b == a[i := a[j]][j := a[i]]
    ensures PermutedWithin(a0, b, lo, hi)
  {
    var s := a[lo..hi];
    assert b[lo..hi] == s[i - lo := s[j - lo]][j - lo := s[i - lo]];
    forall t
      ensures Occurrences(a, lo, hi, t) == Occurrences(b, lo, hi, t)
    {
      OccurrencesIsMultiset(a, lo, hi, t);
      OccurrencesIsMultiset(b, lo, hi, t);
    }
  }

  /**
   * A left step of the partition loop: the left child grows by the triangle at
   * i, which is swapped with the first triangle of the right block; the right
   * block moves up by one and keeps its box.
   */
  lemma LeftStep(a0: seq<Triangle>, a: seq<Triangle>, lo: nat, hi: nat, i: nat, swap: nat,
                 l: BvhNode, r: BvhNode, sp: Split)
    requires PartitionInv(a0, a, lo, hi, i, l, r, sp) && i < hi
    requires IsLeft(a[i], sp.axis, sp.pos)
    requires swap == r.TriangleIndex
    ensures PartitionInv(a0, a[i := a[swap]][swap := a[i]], lo, hi, i + 1,
                         l.(Box := Grow(l.Box, a[i]), TriangleCount := l.TriangleCount + 1),
                         r.(TriangleIndex := r.TriangleIndex + 1), sp)
  {
    var b := a[i := a[swap]][swap := a[i]];
    SwapBounds(a, b, lo, swap, i);
    SwapSides(a, b, lo, swap, i, sp);
    SwapPermuted(a0, a, b, lo, hi, swap, i);
  }

  /** A right step of the partition loop: the right child grows by the triangle at i. */
  lemma RightStep(a0: seq<Triangle>, a: seq<Triangle>, lo: nat, hi: nat, i: nat,
                  l: BvhNode, r: BvhNode, sp: Split)
    requires PartitionInv(a0, a, lo, hi, i, l, r, sp) && i < hi
    requires !IsLeft(a[i], sp.axis, sp.pos)
    ensures PartitionInv(a0, a, lo, hi, i + 1, l,
                         r.(Box := Grow(r.Box, a[i]), TriangleCount := r.TriangleCount + 1), sp)
  {
  }

  /**
   * After the partition, the left child rearranges [lo, mid) and the right one
   * [mid, hi): the parent's box stays the bounds of its range, its children
   * still split it, and the whole range has only been rearranged.
   */
  lemma ParentSurvives(ts0: seq<Triangle>, ts1: seq<Triangle>, ts2: seq<Triangle>, ts3: seq<Triangle>,
                       p: BvhNode, l: BvhNode, r: BvhNode, l': BvhNode, r': BvhNode)
    requires Tight(ts0, p) && SplitsRange(ts1, p, l, r)
    requires PermutedWithin(ts0, ts1, p.TriangleIndex, p.TriangleIndex + p.TriangleCount)
    requires PermutedWithin(ts1, ts2, l.TriangleIndex, l.TriangleIndex + l.TriangleCount)
    requires PermutedWithin(ts2, ts3, r.TriangleIndex, r.TriangleIndex + r.TriangleCount)
    requires l'.TriangleIndex == l.TriangleIndex && l'.TriangleCount == l.TriangleCount
    requires r'.TriangleIndex == r.TriangleIndex && r'.TriangleCount == r.TriangleCount
    ensures Tight(ts3, p) && SplitsRange(ts3, p, l', r')
    ensures PermutedWithin(ts0, ts3, p.TriangleIndex, p.TriangleIndex + p.TriangleCount)
  {
    var lo, mid, hi := p.TriangleIndex, r.TriangleIndex, p.TriangleIndex + p.TriangleCount;
    var sp := GetLongestAxis(p.Box);
    PermutedWithinWiden(ts1, ts2, lo, mid, lo, hi);
    PermutedWithinWiden(ts2, ts3, mid, hi, lo, hi);
    PermutedWithinTrans(ts0, ts1, ts2, lo, hi);
    PermutedWithinTrans(ts0, ts2, ts3, lo, hi);
    PermutedBounds(ts0, ts3, lo, hi);
    PermutedOnSide(ts1, ts2, lo, mid, sp, true);
    assert OnSide(ts3, lo, mid, sp, true);
    assert OnSide(ts2, mid, hi, sp, false);
    PermutedOnSide(ts2, ts3, mid, hi, sp, false);
  }

  // ---------------------------------------------------------------------------
  // The builder
  // ---------------------------------------------------------------------------

  class BvhBuilder {
    /** mMaxDepth */
    const maxDepth: nat
    /** mTriangles, reordered in place by Build */
    var triangles: seq<Triangle>
    /** mBvh, and the capacity Build reserves for it */
    var nodes: seq<BvhNode>
    var capacity: nat

    /** The constructor: extract the mesh's triangles; no nodes yet. */
    constructor (vertices: seq<Vertex>, indices: seq<nat>, maxDepth: nat)
      requires ValidIndices(vertices, indices)
      ensures nodes == [] && this.maxDepth == maxDepth
      ensures 3 * |triangles| == |indices|
      ensures forall k, c :: 0 <= k < |triangles| && 0 <= c < 3 ==>
        Corner(triangles[k], c) == vertices[indices[3 * k + c]].position
    {
      var ts := ExtractTriangles(vertices, indices);
      this.maxDepth := maxDepth;
      triangles := ts;
      nodes := [];
      capacity := 0;
    }

    /**
     * Build: discard previous nodes, reserve 2^maxDepth slots, push the root
     * (range [0, N), box grown over every triangle) and split it recursively.
     * With printStats, also gather the leaf statistics PrintStats logs.
     */
    method Build(printStats: bool) returns (stats: Option<Stats>)
      requires printStats ==> |triangles| > 0
      modifies this
      ensures capacity == Pow2(maxDepth) && |nodes| == TreeSize(maxDepth) <= capacity
      ensures maxDepth >= 1 ==> |nodes| == Pow2(maxDepth) - 1
      ensures |triangles| == |old(triangles)|
      ensures nodes[0] == BvhNode(BoundsIn(old(triangles), 0, |old(triangles)|),
                                  if maxDepth > 1 then 1 else 0, 0, |triangles|)
      ensures Subtree(nodes, triangles, 0, 1, 1, maxDepth)
      ensures forall j :: 0 <= j < |nodes| ==> NodeOk(nodes, triangles, 0, 1, |nodes|, j)
      ensures multiset(triangles) == multiset(old(triangles))
      ensures stats.Some? <==> printStats
      ensures stats.Some? ==>
        LeafSum(nodes, 0, |nodes|, NonEmpty) > 0
        && stats.value.leaves == LeafTotal(1, maxDepth)
        && stats.value.avgTriangles == (|triangles| % U32) / LeafSum(nodes, 0, |nodes|, NonEmpty)
        && stats.value.maxTriangles == MaxLeafTriangles(nodes, |nodes|)
    {
      TreeSizeWithinReserve(maxDepth);
      nodes := [];
      capacity := Pow2(maxDepth);

      var root := DefaultNode.(TriangleCount := |triangles|);
      var i := 0;
      while i < |triangles|
        modifies {}
        invariant i <= |triangles|
        invariant root == DefaultNode.(Box := BoundsIn(triangles, 0, i), TriangleCount := |triangles|)
      {
        BoundsInStep(triangles, 0, i + 1);
        root := root.(Box := Grow(root.Box, triangles[i]));
        i := i + 1;
      }
      nodes := nodes + [root];

      BuildLayer(0, 1);
      PermutedRange(old(triangles), triangles, 0, |triangles|);
      assert old(triangles)[0..|triangles|] == old(triangles) && triangles[0..|triangles|] == triangles;
      SubtreeNodes(nodes, triangles, 0, 1, 1, maxDepth);

      if printStats {
        TreeLeafSums(nodes, triangles, maxDepth);
        var s := PrintStats();
        stats := Some(s);
      } else {
        stats := None;
      }
    }

    /**
     * BuildLayer: below maxDepth, append two children at the end of the node
     * vector, partition the parent's range between them and recurse left, then
     * right. The appends never exceed the reserved capacity.
     */
    method BuildLayer(parent: nat, depth: nat)
      requires parent < |nodes| && |nodes| + Appended(depth, maxDepth) <= capacity
      requires nodes[parent].ChildIndex == 0 && Tight(triangles, nodes[parent])
      modifies this`nodes, this`triangles
      ensures |nodes| == old(|nodes|) + Appended(depth, maxDepth)
      ensures Subtree(nodes, triangles, parent, old(|nodes|), depth, maxDepth)
      ensures forall j :: 0 <= j < old(|nodes|) && j != parent ==> nodes[j] == old(nodes[j])
      ensures nodes[parent] == old(nodes[parent]).(ChildIndex := if depth < maxDepth then old(|nodes|) else 0)
      ensures PermutedWithin(old(triangles), triangles, old(nodes[parent]).TriangleIndex,
                             old(nodes[parent]).TriangleIndex + old(nodes[parent]).TriangleCount)
      decreases maxDepth - depth
    {
      if depth >= maxDepth {
        return;
      }
      ghost var ts0 := triangles;
      var c := |nodes|;
      nodes := nodes[parent := nodes[parent].(ChildIndex := c)] + [DefaultNode, DefaultNode];
      Partition(parent, c);
      ghost var ts1, left := triangles, |nodes|;
      ghost var p, l, r := nodes[parent], nodes[c], nodes[c + 1];

      BuildLayer(c, depth + 1);
      ghost var ts2, ns2, right := triangles, nodes, |nodes|;
      BoundsInAgree(ts1, ts2, r.TriangleIndex, r.TriangleIndex + r.TriangleCount);

      BuildLayer(c + 1, depth + 1);
      assert nodes[parent] == p;

      // The parent keeps its box and its split while its children rearrange their ranges.
      ParentSurvives(ts0, ts1, ts2, triangles, p, l, r, nodes[c], nodes[c + 1]);
      // The left subtree is untouched by the right child's build.
      SubtreeFrame(ns2, ts2, nodes, triangles, c, left, depth + 1, maxDepth);
      assert left == c + 2 && right == c + 2 + Appended(depth + 1, maxDepth);
    }

    /**
     * The single pass of BuildLayer that partitions the parent's range between
     * its two fresh children: a left triangle grows the left child and is
     * swapped to the end of the left block (moving the right child's start
     * forward); a right one grows the right child in place.
     */
    method Partition(parent: nat, c: nat)
      requires parent < c && c + 1 < |nodes|
      requires InBounds(nodes[parent], |triangles|)
      modifies this`nodes, this`triangles
      ensures |nodes| == old(|nodes|)
      ensures forall j :: 0 <= j < |nodes| && j != c && j != c + 1 ==> nodes[j] == old(nodes[j])
      ensures nodes[c].ChildIndex == 0 && nodes[c + 1].ChildIndex == 0
      ensures SplitsRange(triangles, nodes[parent], nodes[c], nodes[c + 1])
      ensures Tight(triangles, nodes[c]) && Tight(triangles, nodes[c + 1])
      ensures PermutedWithin(old(triangles), triangles, nodes[parent].TriangleIndex,
                             nodes[parent].TriangleIndex + nodes[parent].TriangleCount)
    {
      var p := nodes[parent];
      var lo, hi := p.TriangleIndex, p.TriangleIndex + p.TriangleCount;
      var sp := GetLongestAxis(p.Box);
      var ts := triangles;
      ghost var ts0 := ts;
      var leftChild := DefaultNode.(TriangleIndex := lo);
      var rightChild := DefaultNode.(TriangleIndex := lo);
      var i := lo;
      while i < hi
        modifies {}
        invariant PartitionInv(ts0, ts, lo, hi, i, leftChild, rightChild, sp)
      {
        var t := ts[i];
        ghost var a, l, r := ts, leftChild, rightChild;
        if IsLeft(t, sp.axis, sp.pos) {
          leftChild := leftChild.(Box := Grow(leftChild.Box, t), TriangleCount := leftChild.TriangleCount + 1);
          var swapIndex := leftChild.TriangleIndex + leftChild.TriangleCount - 1;
          LeftStep(ts0, ts, lo, hi, i, swapIndex, l, r, sp);
          ts := ts[i := ts[swapIndex]][swapIndex := ts[i]];
          rightChild := rightChild.(TriangleIndex := rightChild.TriangleIndex + 1);
        } else {
          rightChild := rightChild.(Box := Grow(rightChild.Box, t), TriangleCount := rightChild.TriangleCount + 1);
          RightStep(ts0, a, lo, hi, i, l, r, sp);
        }
        i := i + 1;
      }
      triangles := ts;
      nodes := nodes[c := leftChild][c + 1 := rightChild];
    }

    /**
     * PrintStats: the number of leaves, the uint32 average triangle count over
     * the non-empty leaves, and the largest leaf. The average divides by the
     * number of non-empty leaves, so at least one leaf must hold a triangle.
     */
    method PrintStats() returns (stats: Stats)
      requires LeafSum(nodes, 0, |nodes|, NonEmpty) > 0
      ensures stats.leaves == LeafSum(nodes, 0, |nodes|, Leaves)
      ensures stats.avgTriangles == WrappedTotal(nodes, |nodes|) / LeafSum(nodes, 0, |nodes|, NonEmpty)
      ensures stats.maxTriangles == MaxLeafTriangles(nodes, |nodes|)
    {
      var leavesCount, avgTriangles, maxTriangles, nonEmpty := CountLeaves();
      stats := Stats(leavesCount, avgTriangles / nonEmpty, maxTriangles);
    }

    /** The counting loop of PrintStats, over every node of the vector. */
    method CountLeaves() returns (leavesCount: nat, avgTriangles: nat, maxTriangles: nat, nonEmpty: nat)
      ensures leavesCount == LeafSum(nodes, 0, |nodes|, Leaves)
      ensures nonEmpty == LeafSum(nodes, 0, |nodes|, NonEmpty)
      ensures avgTriangles == WrappedTotal(nodes, |nodes|)
      ensures maxTriangles == MaxLeafTriangles(nodes, |nodes|)
    {
      var ns := nodes;
      leavesCount, avgTriangles, maxTriangles, nonEmpty := 0, 0, 0, 0;
      var i := 0;
      while i < |ns|
        modifies {}
        invariant i <= |ns|
        invariant leavesCount == LeafSum(ns, 0, i, Leaves)
        invariant nonEmpty == LeafSum(ns, 0, i, NonEmpty)
        invariant avgTriangles == WrappedTotal(ns, i)
        invariant maxTriangles == MaxLeafTriangles(ns, i)
      {
        var node := ns[i];
        if node.ChildIndex == 0 {
          leavesCount := leavesCount + 1;
          if node.TriangleCount > 0 {
            nonEmpty := nonEmpty + 1;
            avgTriangles := (avgTriangles + node.TriangleCount) % U32;
          }
          if node.TriangleCount > maxTriangles {
            maxTriangles := node.TriangleCount;
          }
        }
        i := i + 1;
      }
    }
  }
}

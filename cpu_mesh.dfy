/**
 * The CPU prototype's mesh (mesh.cpp): loading an OBJ file into a vertex list
 * with an identity index list, and intersecting a ray with every triangle of
 * the mesh, keeping the first nearest hit. The OBJ parser is a foreign call:
 * its outcome (the parsed attribute arrays and shapes, or a failure) is the
 * input of FromFile. The ray/triangle test is a function parameter.
 */
module CpuMesh {
  import opened Vectors
  import opened Wrappers
  import opened Common
  import opened NearestHit

  // ---------------------------------------------------------------------------
  // Loading
  // ---------------------------------------------------------------------------

  /** One corner of a face as the OBJ parser reports it; -1 means "absent". */
  datatype ObjIndex = ObjIndex(vertexIndex: int, normalIndex: int, texcoordIndex: int)

  /** The parser's flat attribute arrays: 3 reals per position and normal, 2 per texture coordinate. */
  datatype Attrib = Attrib(vertices: seq<real>, normals: seq<real>, texcoords: seq<real>)

  /** A parsed file: the attributes and, per shape, its corner list. */
  datatype ObjFile = ObjFile(attrib: Attrib, shapes: seq<seq<ObjIndex>>)

  /** Every corner refers to attributes that exist (a position always, the others when not -1). */
  predicate CornerOk(a: Attrib, c: ObjIndex)
  {
    0 <= c.vertexIndex && 3 * c.vertexIndex + 2 < |a.vertices|
    && (c.normalIndex >= 0 ==> 3 * c.normalIndex + 2 < |a.normals|)
    && (c.texcoordIndex >= 0 ==> 2 * c.texcoordIndex + 1 < |a.texcoords|)
  }

  predicate ObjOk(f: ObjFile)
  {
    forall s, c :: 0 <= s < |f.shapes| && c in f.shapes[s] ==> CornerOk(f.attrib, c)
  }

  /** The vertex built for one corner; absent normals and coordinates stay zero. */
  function VertexOf(a: Attrib, c: ObjIndex): Vertex
    requires CornerOk(a, c)
  {
    Vertex(
      Vec3(a.vertices[3 * c.vertexIndex], a.vertices[3 * c.vertexIndex + 1], a.vertices[3 * c.vertexIndex + 2]),
      if c.normalIndex >= 0
      then Vec3(a.normals[3 * c.normalIndex], a.normals[3 * c.normalIndex + 1], a.normals[3 * c.normalIndex + 2])
      else Vec3(0.0, 0.0, 0.0),
      if c.texcoordIndex >= 0
      then Vec2(a.texcoords[2 * c.texcoordIndex], a.texcoords[2 * c.texcoordIndex + 1])
      else Vec2(0.0, 0.0))
  }

  /** All corners of all shapes, shape after shape. */
  function Corners(shapes: seq<seq<ObjIndex>>): seq<ObjIndex>
  {
    if |shapes| == 0 then [] else Corners(shapes[..|shapes| - 1]) + shapes[|shapes| - 1]
  }

  lemma {:induction false} CornersFrom(shapes: seq<seq<ObjIndex>>, c: ObjIndex)
    requires c in Corners(shapes)
    ensures exists s :: 0 <= s < |shapes| && c in shapes[s]
    decreases |shapes|
  {
    var last := |shapes| - 1;
    if c !in shapes[last] {
      CornersFrom(shapes[..last], c);
      var s :| 0 <= s < last && c in shapes[..last][s];
      assert shapes[s] == shapes[..last][s];
    }
  }

  /** A mesh with its own material, a vertex list, and an index list read three at a time. */
  datatype Mesh = Mesh(material: Material, vertices: seq<Vertex>, indices: seq<nat>)

  /** The material every loaded mesh receives. */
  const LoadedMaterial: Material := Material(Vec3(1.0, 0.64, 0.22), Vec3(0.0, 0.0, 0.0), 0.0, 0.2)

  /**
   * Mesh::FromFile: None when the parser fails; otherwise one vertex per
   * corner, in order, and index k pointing at vertex k.
   */
  method FromFile(file: Option<ObjFile>) returns (mesh: Option<Mesh>)
    requires file.Some? ==> ObjOk(file.value)
    ensures mesh.Some? <==> file.Some?
    ensures mesh.Some? ==>
      var cs := Corners(file.value.shapes);
      && mesh.value.material == LoadedMaterial
      && |mesh.value.vertices| == |mesh.value.indices| == |cs|
      && (forall k :: 0 <= k < |cs| ==> CornerOk(file.value.attrib, cs[k]))
      && (forall k :: 0 <= k < |cs| ==> mesh.value.indices[k] == k)
      && (forall k :: 0 <= k < |cs| ==> mesh.value.vertices[k] == VertexOf(file.value.attrib, cs[k]))
  {
    if file.None? {
      return None;
    }
    var attrib, shapes := file.value.attrib, file.value.shapes;
    var vertices: seq<Vertex> := [];
    var indices: seq<nat> := [];
    var s := 0;
    while s < |shapes|
      invariant s <= |shapes|
      invariant |vertices| == |indices| == |Corners(shapes[..s])|
      invariant forall k :: 0 <= k < |indices| ==> indices[k] == k
      invariant forall k :: 0 <= k < |vertices| ==>
        CornerOk(attrib, Corners(shapes[..s])[k]) && vertices[k] == VertexOf(attrib, Corners(shapes[..s])[k])
    {
      ghost var done := Corners(shapes[..s]);
      var shape := shapes[s];
      var i := 0;
      while i < |shape|
        invariant i <= |shape|
        invariant |vertices| == |indices| == |done| + i
        invariant forall k :: 0 <= k < |indices| ==> indices[k] == k
        invariant forall k :: 0 <= k < |vertices| ==>
          CornerOk(attrib, (done + shape[..i])[k]) && vertices[k] == VertexOf(attrib, (done + shape[..i])[k])
      {
        var index := shape[i];
        assert CornerOk(attrib, index);
        var vertex := VertexOf(attrib, index);
        vertices := vertices + [vertex];
        indices := indices + [|vertices| - 1];
        assert done + shape[..i + 1] == (done + shape[..i]) + [index];
        i := i + 1;
      }
      assert shapes[..s + 1][..s] == shapes[..s];
      assert shape[..i] == shape;
      s := s + 1;
    }
    assert shapes[..s] == shapes;
    mesh := Some(Mesh(LoadedMaterial, vertices, indices));
  }

  /** A loaded file whose faces are all triangles gives a mesh Intersect may walk. */
  lemma LoadedMeshIsWalkable(file: ObjFile, mesh: Mesh)
    requires forall s :: 0 <= s < |file.shapes| ==> |file.shapes[s]| % 3 == 0
    requires |mesh.vertices| == |mesh.indices| == |Corners(file.shapes)|
    requires forall k :: 0 <= k < |mesh.indices| ==> mesh.indices[k] == k
    ensures Walkable(mesh)
  {
    TriangleCorners(file.shapes);
  }

  lemma {:induction false} TriangleCorners(shapes: seq<seq<ObjIndex>>)
    requires forall s :: 0 <= s < |shapes| ==> |shapes[s]| % 3 == 0
    ensures |Corners(shapes)| % 3 == 0
    decreases |shapes|
  {
    if |shapes| > 0 {
      TriangleCorners(shapes[..|shapes| - 1]);
    }
  }

  // ---------------------------------------------------------------------------
  // Intersection
  // ---------------------------------------------------------------------------

  /** What Mesh::intersect needs to stay in bounds: whole triangles, indices naming vertices. */
  predicate Walkable(mesh: Mesh)
  {
    |mesh.indices| % 3 == 0 && forall k :: 0 <= k < |mesh.indices| ==> mesh.indices[k] < |mesh.vertices|
  }

  /** Triangle k of the mesh: the positions of the vertices named by indices 3k, 3k+1, 3k+2. */
  function TriangleOf(mesh: Mesh, k: nat): Triangle
    requires Walkable(mesh) && k < |mesh.indices| / 3
  {
    Triangle(
      mesh.vertices[mesh.indices[3 * k]].position,
      mesh.vertices[mesh.indices[3 * k + 1]].position,
      mesh.vertices[mesh.indices[3 * k + 2]].position)
  }

  /** A triangle test's outcome with the hit's material pointing at the mesh's material. */
  function Tagged(h: Option<RayHit>, m: Material): Option<RayHit>
  {
    if h.Some? then Some(h.value.(material := Some(m))) else None
  }

  /** The outcome of testing each of the first n triangles of the mesh, in index order. */
  function TriangleOutcomes(mesh: Mesh, ray: Ray, test: (Ray, Triangle) -> Option<RayHit>, n: nat): (cs: seq<Option<RayHit>>)
    requires Walkable(mesh) && n <= |mesh.indices| / 3
    ensures |cs| == n
  {
    if n == 0 then []
    else TriangleOutcomes(mesh, ray, test, n - 1) + [Tagged(test(ray, TriangleOf(mesh, n - 1)), mesh.material)]
  }

  lemma {:induction false} TriangleOutcomeAt(mesh: Mesh, ray: Ray, test: (Ray, Triangle) -> Option<RayHit>, n: nat, k: nat)
    requires Walkable(mesh) && k < n <= |mesh.indices| / 3
    ensures TriangleOutcomes(mesh, ray, test, n)[k] == Tagged(test(ray, TriangleOf(mesh, k)), mesh.material)
    decreases n
  {
    if k < n - 1 {
      TriangleOutcomeAt(mesh, ray, test, n - 1, k);
    }
  }

  /** The hit Mesh::intersect reports, if any (characterised by MeshHitIsFirstNearest). */
  function MeshHit(mesh: Mesh, ray: Ray, test: (Ray, Triangle) -> Option<RayHit>): (r: Option<RayHit>)
    requires Walkable(mesh)
  {
    var cs := TriangleOutcomes(mesh, ray, test, |mesh.indices| / 3);
    var n := NearestIn(cs, |cs|);
    if n.Some? then
      Some(cs[n.value].value)
    else None
  }

  /**
   * Mesh::intersect. The caller's hit record `closestHit` always leaves with the
   * sentinel distance when nothing is hit; otherwise it is the first nearest
   * triangle hit, with the mesh's material.
   */
  method Intersect(mesh: Mesh, ray: Ray, closestHit: RayHit, test: (Ray, Triangle) -> Option<RayHit>)
    returns (hitSomething: bool, hit: RayHit)
    requires Walkable(mesh)
    ensures hitSomething <==> MeshHit(mesh, ray, test).Some?
    ensures hitSomething ==> hit == MeshHit(mesh, ray, test).value
    ensures !hitSomething ==> hit == closestHit.(distance := Far)
  {
    ghost var cs := TriangleOutcomes(mesh, ray, test, |mesh.indices| / 3);
    hit := closestHit.(distance := Far);
    ghost var start := hit;
    hitSomething := false;
    var index := 0;
    ghost var k := 0;
    while index < |mesh.indices|
      invariant index == 3 * k <= |mesh.indices|
      invariant Scanned(cs, k, hitSomething, hit, start)
    {
      var v0 := mesh.vertices[mesh.indices[index]];
      index := index + 1;
      var v1 := mesh.vertices[mesh.indices[index]];
      index := index + 1;
      var v2 := mesh.vertices[mesh.indices[index]];
      index := index + 1;
      var tri := Triangle(v0.position, v1.position, v2.position);
      var h := test(ray, tri);
      assert tri == TriangleOf(mesh, k);
      TriangleOutcomeAt(mesh, ray, test, |mesh.indices| / 3, k);
      ScanStep(cs, k, hitSomething, hit, start, Tagged(h, mesh.material));
      if h.Some? && h.value.distance < hit.distance {
        hit := h.value;
        hit := hit.(material := Some(mesh.material));
        hitSomething := true;
      }
      k := k + 1;
    }
  }

  /** Triangle k's test succeeds nearer than the sentinel. */
  predicate TriangleHit(mesh: Mesh, ray: Ray, test: (Ray, Triangle) -> Option<RayHit>, k: nat)
    requires Walkable(mesh) && k < |mesh.indices| / 3
  {
    test(ray, TriangleOf(mesh, k)).Some? && test(ray, TriangleOf(mesh, k)).value.distance < Far
  }

  /** Characterises Intersect: a hit is reported iff some triangle is hit, and it is the first nearest one. */
  lemma MeshHitIsFirstNearest(mesh: Mesh, ray: Ray, test: (Ray, Triangle) -> Option<RayHit>)
    requires Walkable(mesh)
    ensures MeshHit(mesh, ray, test).Some? <==> exists k :: 0 <= k < |mesh.indices| / 3 && TriangleHit(mesh, ray, test, k)
    ensures MeshHit(mesh, ray, test).Some? ==>
      exists k :: 0 <= k < |mesh.indices| / 3 && TriangleHit(mesh, ray, test, k)
        && MeshHit(mesh, ray, test).value == test(ray, TriangleOf(mesh, k)).value.(material := Some(mesh.material))
        && (forall j :: 0 <= j < k && TriangleHit(mesh, ray, test, j) ==>
              test(ray, TriangleOf(mesh, k)).value.distance < test(ray, TriangleOf(mesh, j)).value.distance)
        && (forall j :: k < j < |mesh.indices| / 3 && TriangleHit(mesh, ray, test, j) ==>
              test(ray, TriangleOf(mesh, k)).value.distance <= test(ray, TriangleOf(mesh, j)).value.distance)
  {
    var n := |mesh.indices| / 3;
    var cs := TriangleOutcomes(mesh, ray, test, n);
    NearestInIsTheWinner(cs, |cs|);
    forall k | 0 <= k < |cs|
      ensures Hit(cs, k) <==> TriangleHit(mesh, ray, test, k)
      ensures Hit(cs, k) ==> cs[k].value == test(ray, TriangleOf(mesh, k)).value.(material := Some(mesh.material))
    {
      TriangleOutcomeAt(mesh, ray, test, n, k);
    }
  }
}

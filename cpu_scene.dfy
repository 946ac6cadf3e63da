/**
 * The CPU prototype's scene (main.cpp): Scene::closestHit, which runs the
 * nearest-hit search over all spheres, then all planes, then all meshes, and
 * the control skeleton of Scene::trace, which asks for at most maxBounces
 * closest hits and stops at the first miss. The sphere and plane tests, and
 * the choice of the next ray after a bounce (which draws a random direction),
 * are function parameters; the radiance arithmetic is not modelled.
 */
module CpuScene {
  import opened Wrappers
  import opened Common
  import opened NearestHit
  import opened CpuMesh

  /** The geometric tests the search relies on (math.cpp's `intersect` overloads). */
  datatype Tests = Tests(
    sphere: (Ray, Sphere) -> Option<RayHit>,
    plane: (Ray, Plane) -> Option<RayHit>,
    triangle: (Ray, Triangle) -> Option<RayHit>)

  /** The primitives of a scene (its material list only backs the `Material*` fields) and its bounce limit (4 in the constructor; nothing reassigns it). */
  datatype Scene = Scene(spheres: seq<Sphere>, planes: seq<Plane>, meshes: seq<Mesh>, maxBounces: nat)

  predicate MeshesWalkable(scene: Scene)
  {
    forall m :: 0 <= m < |scene.meshes| ==> Walkable(scene.meshes[m])
  }

  /** How many tests closestHit performs: one per sphere, plane and mesh. */
  function Count(scene: Scene): nat
  {
    |scene.spheres| + |scene.planes| + |scene.meshes|
  }

  /** The outcome of the i-th test closestHit performs: spheres first, then planes, then meshes. */
  function OutcomeAt(scene: Scene, ray: Ray, tests: Tests, i: nat): Option<RayHit>
    requires MeshesWalkable(scene) && i < Count(scene)
  {
    if i < |scene.spheres| then tests.sphere(ray, scene.spheres[i])
    else if i < |scene.spheres| + |scene.planes| then tests.plane(ray, scene.planes[i - |scene.spheres|])
    else MeshHit(scene.meshes[i - |scene.spheres| - |scene.planes|], ray, tests.triangle)
  }

  /** The outcomes of the first n tests, in order. */
  function Outcomes(scene: Scene, ray: Ray, tests: Tests, n: nat): (cs: seq<Option<RayHit>>)
    requires MeshesWalkable(scene) && n <= Count(scene)
    ensures |cs| == n
  {
    if n == 0 then [] else Outcomes(scene, ray, tests, n - 1) + [OutcomeAt(scene, ray, tests, n - 1)]
  }

  /** All outcomes of one closestHit call. */
  function AllOutcomes(scene: Scene, ray: Ray, tests: Tests): seq<Option<RayHit>>
    requires MeshesWalkable(scene)
  {
    Outcomes(scene, ray, tests, Count(scene))
  }

  lemma {:induction false} OutcomesAt(scene: Scene, ray: Ray, tests: Tests, n: nat, i: nat)
    requires MeshesWalkable(scene) && i < n <= Count(scene)
    ensures Outcomes(scene, ray, tests, n)[i] == OutcomeAt(scene, ray, tests, i)
    decreases n
  {
    if i < n - 1 {
      OutcomesAt(scene, ray, tests, n - 1, i);
    }
  }

  /** The position, among all outcomes, of the hit closestHit reports, if any. */
  function SceneWinner(scene: Scene, ray: Ray, tests: Tests): Option<nat>
    requires MeshesWalkable(scene)
  {
    NearestIn(AllOutcomes(scene, ray, tests), Count(scene))
  }

  /** The hit closestHit reports, if any. */
  function SceneHit(scene: Scene, ray: Ray, tests: Tests): Option<RayHit>
    requires MeshesWalkable(scene)
  {
    var cs := AllOutcomes(scene, ray, tests);
    var n := SceneWinner(scene, ray, tests);
    if n.Some? then Some(cs[n.value].value) else None
  }

  /**
   * Scene::closestHit. `scratch` is the indeterminate content of the local
   * hit record; only its distance is initialised (to the sentinel). The result
   * is a verbatim copy of the first nearest outcome, or that record.
   */
  method ClosestHit(scene: Scene, ray: Ray, tests: Tests, scratch: RayHit) returns (didHit: bool, outHit: RayHit)
    requires MeshesWalkable(scene)
    ensures didHit <==> SceneHit(scene, ray, tests).Some?
    ensures didHit ==> outHit == SceneHit(scene, ray, tests).value
    ensures !didHit ==> outHit == scratch.(distance := Far)
  {
    ghost var cs := AllOutcomes(scene, ray, tests);
    var closestHit := scratch.(distance := Far);
    ghost var start := closestHit;
    didHit := false;
    var i := 0;
    while i < |scene.spheres|
      invariant i <= |scene.spheres|
      invariant Scanned(cs, i, didHit, closestHit, start)
    {
      var hit := tests.sphere(ray, scene.spheres[i]);
      OutcomesAt(scene, ray, tests, Count(scene), i);
      ScanStep(cs, i, didHit, closestHit, start, hit);
      if hit.Some? && hit.value.distance < closestHit.distance {
        closestHit := hit.value;
        didHit := true;
      }
      i := i + 1;
    }
    ghost var n := i;
    i := 0;
    while i < |scene.planes|
      invariant i <= |scene.planes| && n == |scene.spheres| + i
      invariant Scanned(cs, n, didHit, closestHit, start)
    {
      var hit := tests.plane(ray, scene.planes[i]);
      OutcomesAt(scene, ray, tests, Count(scene), n);
      ScanStep(cs, n, didHit, closestHit, start, hit);
      if hit.Some? && hit.value.distance < closestHit.distance {
        closestHit := hit.value;
        didHit := true;
      }
      i, n := i + 1, n + 1;
    }
    i := 0;
    while i < |scene.meshes|
      invariant i <= |scene.meshes| && n == |scene.spheres| + |scene.planes| + i
      invariant Scanned(cs, n, didHit, closestHit, start)
    {
      var hits, hit := Intersect(scene.meshes[i], ray, scratch, tests.triangle);
      ghost var outcome := if hits then Some(hit) else None;
      OutcomesAt(scene, ray, tests, Count(scene), n);
      ScanStep(cs, n, didHit, closestHit, start, outcome);
      if hits && hit.distance < closestHit.distance {
        closestHit := hit;
        didHit := true;
      }
      i, n := i + 1, n + 1;
    }
    outHit := closestHit;
  }

  /**
   * Characterises ClosestHit: a hit is reported iff some outcome is a hit
   * nearer than the sentinel; the reported hit is a verbatim copy of the
   * winning outcome, which is strictly nearer than every earlier hit and no
   * farther than every later one, so among equally near hits the one visited
   * first (spheres, then planes, then meshes) is the one reported.
   */
  lemma SceneHitIsFirstNearest(scene: Scene, ray: Ray, tests: Tests)
    requires MeshesWalkable(scene)
    ensures var cs := AllOutcomes(scene, ray, tests);
      && (SceneHit(scene, ray, tests).Some? <==> exists i :: 0 <= i < Count(scene) && Hit(cs, i))
      && (SceneHit(scene, ray, tests).Some? ==>
            exists i :: 0 <= i < Count(scene) && Hit(cs, i) && SceneHit(scene, ray, tests).value == cs[i].value)
      && (forall j :: 0 <= j < Count(scene) && Hit(cs, j) ==> SceneHit(scene, ray, tests).value.distance <= cs[j].value.distance)
      && (forall i, j :: 0 <= i < j < Count(scene) && Hit(cs, i) && Hit(cs, j) && cs[i].value.distance == cs[j].value.distance
            ==> SceneWinner(scene, ray, tests) != Some(j))
    ensures SceneHit(scene, ray, tests).Some? ==>
      SceneWinner(scene, ray, tests).Some?
      && Winner(AllOutcomes(scene, ray, tests), Count(scene), SceneWinner(scene, ray, tests).value)
      && SceneHit(scene, ray, tests).value == AllOutcomes(scene, ray, tests)[SceneWinner(scene, ray, tests).value].value
    ensures forall i :: Winner(AllOutcomes(scene, ray, tests), Count(scene), i) ==> SceneWinner(scene, ray, tests) == Some(i)
  {
    var cs := AllOutcomes(scene, ray, tests);
    NearestInIsTheWinner(cs, Count(scene));
  }

  /** The hits of a path of at most `bounces` closest-hit queries, stopping at the first miss. */
  function Path(scene: Scene, tests: Tests, scatter: (Ray, RayHit) -> Ray, ray: Ray, bounces: nat): seq<RayHit>
    requires MeshesWalkable(scene)
    decreases bounces
  {
    if bounces == 0 then []
    else
      match SceneHit(scene, ray, tests)
      case None => []
      case Some(h) => [h] + Path(scene, tests, scatter, scatter(ray, h), bounces - 1)
  }

  lemma PathStep(scene: Scene, tests: Tests, scatter: (Ray, RayHit) -> Ray, ray: Ray, bounces: nat, hit: Option<RayHit>)
    requires MeshesWalkable(scene) && bounces > 0 && hit == SceneHit(scene, ray, tests)
    ensures hit.None? ==> Path(scene, tests, scatter, ray, bounces) == []
    ensures hit.Some? ==>
      Path(scene, tests, scatter, ray, bounces) == [hit.value] + Path(scene, tests, scatter, scatter(ray, hit.value), bounces - 1)
  {
  }

  lemma AppendOne<T>(a: seq<T>, x: T, b: seq<T>)
    ensures (a + [x]) + b == a + ([x] + b)
  {
  }

  /** A path holds at most `bounces` hits, each nearer than the sentinel distance. */
  lemma {:induction false} PathBounded(scene: Scene, tests: Tests, scatter: (Ray, RayHit) -> Ray, ray: Ray, bounces: nat)
    requires MeshesWalkable(scene)
    ensures |Path(scene, tests, scatter, ray, bounces)| <= bounces
    ensures forall h :: h in Path(scene, tests, scatter, ray, bounces) ==> h.distance < Far
    decreases bounces
  {
    if bounces > 0 && SceneHit(scene, ray, tests).Some? {
      var h := SceneHit(scene, ray, tests).value;
      PathBounded(scene, tests, scatter, scatter(ray, h), bounces - 1);
      SceneHitIsFirstNearest(scene, ray, tests);
    }
  }

  /**
   * The control skeleton of Scene::trace: at most scene.maxBounces closest-hit
   * queries, each from the ray the previous hit scattered, ending right after
   * the first miss. `scatter` stands for the choice of the next ray (a random
   * hemisphere direction blended with the reflection); the colour arithmetic
   * is not modelled. `missed` tells whether the background colour was added.
   */
  method Trace(scene: Scene, ray0: Ray, tests: Tests, scatter: (Ray, RayHit) -> Ray, scratch: RayHit)
    returns (hits: seq<RayHit>, queries: nat, missed: bool)
    requires MeshesWalkable(scene)
    ensures hits == Path(scene, tests, scatter, ray0, scene.maxBounces)
    ensures queries <= scene.maxBounces
    ensures missed <==> queries == |hits| + 1
    ensures !missed <==> queries == |hits| == scene.maxBounces
  {
    var ray := ray0;
    hits, queries, missed := [], 0, false;
    var i := 0;
    ghost var left := scene.maxBounces;
    while i < scene.maxBounces
      invariant i <= scene.maxBounces && queries == i == |hits| && left == scene.maxBounces - i
      invariant hits + Path(scene, tests, scatter, ray, left) == Path(scene, tests, scatter, ray0, scene.maxBounces)
    {
      var didHit, closestHit := ClosestHit(scene, ray, tests, scratch);
      PathStep(scene, tests, scatter, ray, left, if didHit then Some(closestHit) else None);
      queries := queries + 1;
      if didHit {
        AppendOne(hits, closestHit, Path(scene, tests, scatter, scatter(ray, closestHit), left - 1));
        hits := hits + [closestHit];
        ray := scatter(ray, closestHit);
      } else {
        missed := true;
        break;
      }
      i, left := i + 1, left - 1;
    }
  }
}

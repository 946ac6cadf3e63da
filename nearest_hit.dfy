/**
 * The search shared by Scene::closestHit (main.cpp) and Mesh::intersect
 * (mesh.cpp): walk a list of intersection-test outcomes, starting from the
 * sentinel distance Far, and keep a hit only when it is strictly nearer than
 * the one kept so far. Here that search is given an independent, index-based
 * reference definition, NearestIn, against which both loops are proved.
 */
module NearestHit {
  import opened Wrappers
  import opened Common

  /** Outcome i is a successful test nearer than the sentinel. */
  predicate Hit(cs: seq<Option<RayHit>>, i: int)
    requires 0 <= i < |cs|
  {
    cs[i].Some? && cs[i].value.distance < Far
  }

  /**
   * Among the first n outcomes, i is the nearest hit, and the earliest one
   * among hits at that distance: every earlier hit is strictly farther, every
   * later hit is at least as far.
   */
  predicate Winner(cs: seq<Option<RayHit>>, n: nat, i: int)
    requires n <= |cs|
  {
    0 <= i < n && Hit(cs, i)
    && (forall j :: 0 <= j < i && Hit(cs, j) ==> cs[i].value.distance < cs[j].value.distance)
    && (forall j :: i < j < n && Hit(cs, j) ==> cs[i].value.distance <= cs[j].value.distance)
  }

  /** The index of the first nearest hit among the first n outcomes, if there is a hit. */
  function NearestIn(cs: seq<Option<RayHit>>, n: nat): (r: Option<nat>)
    requires n <= |cs|
    ensures r.Some? ==> r.value < n && Hit(cs, r.value)
    decreases n
  {
    if n == 0 then None
    else
      var p := NearestIn(cs, n - 1);
      if Hit(cs, n - 1) && (p.None? || cs[n - 1].value.distance < cs[p.value].value.distance)
      then Some(n - 1)
      else p
  }

  /** What NearestIn names is the winner; when it names nothing there is no hit. */
  lemma {:induction false} NearestInIsWinner(cs: seq<Option<RayHit>>, n: nat)
    requires n <= |cs|
    ensures NearestIn(cs, n).Some? ==> Winner(cs, n, NearestIn(cs, n).value)
    ensures NearestIn(cs, n).None? ==> forall i :: 0 <= i < n ==> !Hit(cs, i)
    decreases n
  {
    if n > 0 {
      NearestInIsWinner(cs, n - 1);
    }
  }

  /** There is exactly one winner, so NearestIn names the only index Winner admits. */
  lemma WinnerUnique(cs: seq<Option<RayHit>>, n: nat, i: int, j: int)
    requires n <= |cs| && Winner(cs, n, i) && Winner(cs, n, j)
    ensures i == j
  {
  }

  /** NearestIn finds a hit exactly when some outcome is a hit, and then the only winner. */
  lemma NearestInIsTheWinner(cs: seq<Option<RayHit>>, n: nat)
    requires n <= |cs|
    ensures NearestIn(cs, n).Some? <==> exists i :: 0 <= i < n && Hit(cs, i)
    ensures NearestIn(cs, n).Some? ==> Winner(cs, n, NearestIn(cs, n).value)
    ensures forall i :: Winner(cs, n, i) ==> NearestIn(cs, n) == Some(i)
  {
    NearestInIsWinner(cs, n);
    forall i | Winner(cs, n, i)
      ensures NearestIn(cs, n) == Some(i)
    {
      WinnerUnique(cs, n, NearestIn(cs, n).value, i);
    }
  }

  /**
   * The state of the search after the first n outcomes: `found` tells whether
   * a hit was kept, and `best` is that hit, or else the initial value `start`
   * whose distance is the sentinel.
   */
  predicate Scanned(cs: seq<Option<RayHit>>, n: nat, found: bool, best: RayHit, start: RayHit)
    requires n <= |cs|
  {
    var r := NearestIn(cs, n);
    found == r.Some? && (if found then best == cs[r.value].value else best == start)
  }

  /** One step of the loops: a test outcome `h` at position n is kept iff it is strictly nearer. */
  lemma ScanStep(cs: seq<Option<RayHit>>, n: nat, found: bool, best: RayHit, start: RayHit, h: Option<RayHit>)
    requires n < |cs| && cs[n] == h && start.distance == Far
    requires Scanned(cs, n, found, best, start)
    ensures h.Some? && h.value.distance < best.distance ==> Scanned(cs, n + 1, true, h.value, start)
    ensures !(h.Some? && h.value.distance < best.distance) ==> Scanned(cs, n + 1, found, best, start)
  {
  }
}

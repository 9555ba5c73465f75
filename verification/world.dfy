/** The scene: an ordered list of primitives, and the query for the nearest of their hits. */
module Worlds {
  import opened Options
  import opened Vectors
  import opened Rays
  import opened Hittables

  datatype World = World(objects: seq<Hittable>)

  /** One step of the scan: a new hit replaces the kept one only when it is strictly nearer. */
  function Keep(closest: Option<HitInfo>, candidate: Option<HitInfo>): (r: Option<HitInfo>)
    ensures r == closest || r == candidate
    ensures r.None? <==> closest.None? && candidate.None?
    ensures r.Some? && closest.Some? ==> r.value.distance <= closest.value.distance
    ensures r.Some? && candidate.Some? ==> r.value.distance <= candidate.value.distance
    ensures closest.Some? && candidate.Some? && closest.value.distance <= candidate.value.distance ==> r == closest
  {
    match candidate
    case None => closest
    case Some(hit) =>
      if closest.None? || hit.distance < closest.value.distance then candidate else closest
  }

  /** The scan over the first `n` objects, in order, starting from no hit. */
  function NearestAmong(lib: MathLib, objects: seq<Hittable>, ray: Ray, n: nat): (r: Option<HitInfo>)
    requires n <= |objects|
    ensures r.Some? ==> 0.0 <= r.value.distance && r.value.position == ray.Follow(r.value.distance)
  {
    if n == 0 then None
    else Keep(NearestAmong(lib, objects, ray, n - 1), Hittables.Intersect(lib, objects[n - 1], ray))
  }

  /**
   * Object `k`, one of the first `n`, is hit, no farther away than any of them
   * that is hit, and strictly nearer than every earlier one that is hit: the
   * earliest of the nearest.
   */
  ghost predicate IsNearest(lib: MathLib, objects: seq<Hittable>, ray: Ray, n: nat, k: int) {
    && n <= |objects| && 0 <= k < n
    && Hittables.Intersect(lib, objects[k], ray).Some?
    && (forall j :: 0 <= j < n && Hittables.Intersect(lib, objects[j], ray).Some? ==>
          Hittables.Intersect(lib, objects[k], ray).value.distance <= Hittables.Intersect(lib, objects[j], ray).value.distance)
    && (forall j :: 0 <= j < k && Hittables.Intersect(lib, objects[j], ray).Some? ==>
          Hittables.Intersect(lib, objects[k], ray).value.distance < Hittables.Intersect(lib, objects[j], ray).value.distance)
  }

  /** The scan finds nothing exactly when no object is hit, and otherwise finds the hit of the earliest nearest object. */
  lemma NearestAmongIsNearest(lib: MathLib, objects: seq<Hittable>, ray: Ray, n: nat)
    requires n <= |objects|
    ensures NearestAmong(lib, objects, ray, n).None?
        <==> forall i :: 0 <= i < n ==> Hittables.Intersect(lib, objects[i], ray).None?
    ensures NearestAmong(lib, objects, ray, n).Some? ==>
      exists k :: IsNearest(lib, objects, ray, n, k) && Hittables.Intersect(lib, objects[k], ray) == NearestAmong(lib, objects, ray, n)
  {
    NearestAmongMisses(lib, objects, ray, n);
    NearestAmongFinds(lib, objects, ray, n);
    if NearestAmong(lib, objects, ray, n).Some? {
      var k := KeptIndex(lib, objects, ray, n);
      assert IsNearest(lib, objects, ray, n, k) && Hittables.Intersect(lib, objects[k], ray) == NearestAmong(lib, objects, ray, n);
    }
  }

  /** The scan finds nothing exactly when none of the first `n` objects is hit. */
  lemma {:induction false} NearestAmongMisses(lib: MathLib, objects: seq<Hittable>, ray: Ray, n: nat)
    requires n <= |objects|
    ensures NearestAmong(lib, objects, ray, n).None?
        <==> forall i :: 0 <= i < n ==> Hittables.Intersect(lib, objects[i], ray).None?
  {
    if n > 0 {
      NearestAmongMisses(lib, objects, ray, n - 1);
      assert NearestAmong(lib, objects, ray, n)
          == Keep(NearestAmong(lib, objects, ray, n - 1), Hittables.Intersect(lib, objects[n - 1], ray));
    }
  }

  /** Whether object `n - 1` replaces the hit kept from the first `n - 1` objects. */
  predicate Replaces(lib: MathLib, objects: seq<Hittable>, ray: Ray, n: nat)
    requires 0 < n <= |objects|
  {
    var prev, candidate := NearestAmong(lib, objects, ray, n - 1), Hittables.Intersect(lib, objects[n - 1], ray);
    candidate.Some? && (prev.None? || candidate.value.distance < prev.value.distance)
  }

  /** The index of the object whose hit the scan over the first `n` objects keeps (meaningful only when it keeps one). */
  function KeptIndex(lib: MathLib, objects: seq<Hittable>, ray: Ray, n: nat): int
    requires n <= |objects|
  {
    if n == 0 then -1
    else if Replaces(lib, objects, ray, n) then n - 1
    else KeptIndex(lib, objects, ray, n - 1)
  }

  /** A hit the scan finds is the hit of the object `KeptIndex` names, and that object is the earliest nearest. */
  lemma {:induction false} NearestAmongFinds(lib: MathLib, objects: seq<Hittable>, ray: Ray, n: nat)
    requires n <= |objects|
    ensures NearestAmong(lib, objects, ray, n).Some? ==>
      && IsNearest(lib, objects, ray, n, KeptIndex(lib, objects, ray, n))
      && Hittables.Intersect(lib, objects[KeptIndex(lib, objects, ray, n)], ray) == NearestAmong(lib, objects, ray, n)
  {
    if n > 0 {
      NearestAmongMisses(lib, objects, ray, n - 1);
      NearestAmongFinds(lib, objects, ray, n - 1);
      if Replaces(lib, objects, ray, n) {
        LastIsNearest(lib, objects, ray, n);
      } else if NearestAmong(lib, objects, ray, n - 1).Some? {
        EarlierStaysNearest(lib, objects, ray, n, KeptIndex(lib, objects, ray, n - 1));
      }
    }
  }

  /** A hit by object `n - 1` that beats the scan over the earlier objects makes it the earliest nearest. */
  lemma LastIsNearest(lib: MathLib, objects: seq<Hittable>, ray: Ray, n: nat)
    requires 0 < n <= |objects|
    requires NearestAmong(lib, objects, ray, n - 1).None?
        <==> forall i :: 0 <= i < n - 1 ==> Hittables.Intersect(lib, objects[i], ray).None?
    requires NearestAmong(lib, objects, ray, n - 1).Some? ==>
      && IsNearest(lib, objects, ray, n - 1, KeptIndex(lib, objects, ray, n - 1))
      && Hittables.Intersect(lib, objects[KeptIndex(lib, objects, ray, n - 1)], ray) == NearestAmong(lib, objects, ray, n - 1)
    requires Replaces(lib, objects, ray, n)
    ensures IsNearest(lib, objects, ray, n, n - 1)
    ensures Hittables.Intersect(lib, objects[n - 1], ray) == NearestAmong(lib, objects, ray, n)
  {
  }

  /** The earliest nearest among the first `n - 1` objects stays so when object `n - 1` does not beat it. */
  lemma EarlierStaysNearest(lib: MathLib, objects: seq<Hittable>, ray: Ray, n: nat, k: int)
    requires 0 < n <= |objects|
    requires IsNearest(lib, objects, ray, n - 1, k)
    requires var candidate := Hittables.Intersect(lib, objects[n - 1], ray);
      candidate.Some? ==> Hittables.Intersect(lib, objects[k], ray).value.distance <= candidate.value.distance
    ensures IsNearest(lib, objects, ray, n, k)
  {
  }

  /** At most one object is the earliest nearest, so the query's result is determined. */
  lemma NearestIsUnique(lib: MathLib, objects: seq<Hittable>, ray: Ray, n: nat, k1: int, k2: int)
    requires IsNearest(lib, objects, ray, n, k1) && IsNearest(lib, objects, ray, n, k2)
    ensures k1 == k2
  {
  }

  /**
   * `World::intersect`: nothing exactly when no object is hit; otherwise the hit
   * of the earliest object among those hit at the smallest distance.
   */
  function Intersect(lib: MathLib, world: World, ray: Ray): (r: Option<HitInfo>)
    ensures r.None? <==> forall i :: 0 <= i < |world.objects| ==> Hittables.Intersect(lib, world.objects[i], ray).None?
    ensures r.Some? ==>
      exists k :: IsNearest(lib, world.objects, ray, |world.objects|, k) && Hittables.Intersect(lib, world.objects[k], ray) == r
  {
    NearestAmongIsNearest(lib, world.objects, ray, |world.objects|);
    NearestAmong(lib, world.objects, ray, |world.objects|)
  }
}

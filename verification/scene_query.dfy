/** The two linear scans over a scene's shapes: the nearest hit along a ray
    with one shape skipped, and the first occluder between a point and the
    light. */
module SceneQuery {
  import opened Vectors
  import opened Geometry

  datatype Option<T> = None | Some(value: T)

  /** `std::numeric_limits<float>::max()`, where the running minimum of the
      nearest-hit scan starts: a hit no nearer than this is never kept. */
  const FloatMax: real := 340282346638528859811704183484516925440.0

  /** A shadow-ray hit this close to the ray's origin is the surface itself. */
  const SelfHitEpsilon: real := 0.00001

  /** A shadow-ray hit must lie this much short of the light to count. */
  const LightMargin: real := 0.01

  /** Distance from the ray's origin to the point where `s` reports its hit. */
  function HitDistance(m: Maths, s: Shape, ray: Ray): real {
    m.distance(s.intersect(ray).point, ray.origin)
  }

  /** A shape the nearest-hit scan may keep: not skipped, and hit. */
  predicate Candidate(s: Shape, ray: Ray, skipId: int) {
    s.id != skipId && s.intersect(ray).numberOfIntersections != 0
  }

  /** The index of the first shape whose hit is strictly nearest, scanning in
      scene order with a running minimum that starts at `FloatMax`. */
  function Nearest(m: Maths, shapes: seq<Shape>, ray: Ray, skipId: int): (r: Option<nat>)
    decreases |shapes|
    ensures r.Some? ==> r.value < |shapes| && Candidate(shapes[r.value], ray, skipId)
    ensures r.Some? ==> HitDistance(m, shapes[r.value], ray) < FloatMax
    ensures r.Some? ==> forall j :: 0 <= j < |shapes| && Candidate(shapes[j], ray, skipId) ==>
              HitDistance(m, shapes[r.value], ray) <= HitDistance(m, shapes[j], ray)
    ensures r.Some? ==> forall j :: 0 <= j < r.value && Candidate(shapes[j], ray, skipId) ==>
              HitDistance(m, shapes[r.value], ray) < HitDistance(m, shapes[j], ray)
    ensures r.None? <==> forall j :: 0 <= j < |shapes| && Candidate(shapes[j], ray, skipId) ==>
              FloatMax <= HitDistance(m, shapes[j], ray)
  {
    if |shapes| == 0 then None
    else
      var best := Nearest(m, shapes[..|shapes| - 1], ray, skipId);
      var min := if best.Some? then HitDistance(m, shapes[best.value], ray) else FloatMax;
      var last := shapes[|shapes| - 1];
      if Candidate(last, ray, skipId) && HitDistance(m, last, ray) < min then Some(|shapes| - 1)
      else best
  }

  /** `k` is the first candidate at the least distance, and that distance is
      below `FloatMax`. */
  ghost predicate IsFirstNearest(m: Maths, shapes: seq<Shape>, ray: Ray, skipId: int, k: nat) {
    && k < |shapes|
    && Candidate(shapes[k], ray, skipId)
    && HitDistance(m, shapes[k], ray) < FloatMax
    && (forall j :: 0 <= j < |shapes| && Candidate(shapes[j], ray, skipId) ==>
          HitDistance(m, shapes[k], ray) <= HitDistance(m, shapes[j], ray))
    && (forall j :: 0 <= j < k && Candidate(shapes[j], ray, skipId) ==>
          HitDistance(m, shapes[k], ray) < HitDistance(m, shapes[j], ray))
  }

  /** The scan picks exactly the first nearest candidate: ties go to the
      shape earlier in scene order. */
  lemma NearestIsFirstNearest(m: Maths, shapes: seq<Shape>, ray: Ray, skipId: int, k: nat)
    ensures Nearest(m, shapes, ray, skipId) == Some(k) <==> IsFirstNearest(m, shapes, ray, skipId, k)
  {
  }

  /** `getClosestIntersection`: the hit of the shape `Nearest` picks, or the
      default-constructed miss. */
  function ClosestIntersection(m: Maths, scene: Scene, ray: Ray, skipId: int): (r: Intersection)
    ensures r.numberOfIntersections == 0 ==> r == NoIntersection
  {
    match Nearest(m, scene.shapes, ray, skipId)
    case None => NoIntersection
    case Some(k) => scene.shapes[k].intersect(ray)
  }

  /** The closest intersection is a miss exactly when no unskipped shape
      reports a hit nearer than `FloatMax`; otherwise it is the hit of an
      unskipped shape, and no unskipped hit is nearer. */
  lemma ClosestIntersectionIsNearestHit(m: Maths, scene: Scene, ray: Ray, skipId: int)
    ensures var r := ClosestIntersection(m, scene, ray, skipId);
            r.numberOfIntersections == 0 <==>
              forall j :: 0 <= j < |scene.shapes| && Candidate(scene.shapes[j], ray, skipId) ==>
                FloatMax <= HitDistance(m, scene.shapes[j], ray)
    ensures var r := ClosestIntersection(m, scene, ray, skipId);
            r.numberOfIntersections != 0 ==>
              exists k :: 0 <= k < |scene.shapes| && scene.shapes[k].id != skipId && r == scene.shapes[k].intersect(ray)
    ensures var r := ClosestIntersection(m, scene, ray, skipId);
            r.numberOfIntersections != 0 ==>
              forall j :: 0 <= j < |scene.shapes| && Candidate(scene.shapes[j], ray, skipId) ==>
                m.distance(r.point, ray.origin) <= HitDistance(m, scene.shapes[j], ray)
  {
  }

  /** In a well-formed scene the nearest hit never carries the skipped id. */
  lemma ClosestNeverSkipped(m: Maths, scene: Scene, ray: Ray, skipId: int)
    requires WellFormed(scene)
    ensures ClosestIntersection(m, scene, ray, skipId).numberOfIntersections != 0 ==>
              ClosestIntersection(m, scene, ray, skipId).id != skipId
  {
  }

  /** The four-part shadow test of one shape: not the surface the shadow ray
      leaves, hit, beyond the self-hit epsilon, and short of the light. */
  predicate Occludes(m: Maths, scene: Scene, ray: Ray, skipId: int, s: Shape) {
    var hit := s.intersect(ray);
    && s.id != skipId
    && hit.numberOfIntersections != 0
    && m.distance(hit.point, ray.origin) > SelfHitEpsilon
    && m.distance(hit.point, ray.origin) < m.distance(ray.origin, scene.lightPosition) - LightMargin
  }

  /** The index of the first occluder at or after `from`, in scene order. */
  function FirstOccluder(m: Maths, scene: Scene, ray: Ray, skipId: int, from: nat): (r: Option<nat>)
    requires from <= |scene.shapes|
    decreases |scene.shapes| - from
    ensures r.Some? ==> from <= r.value < |scene.shapes| && Occludes(m, scene, ray, skipId, scene.shapes[r.value])
    ensures r.Some? ==> forall j :: from <= j < r.value ==> !Occludes(m, scene, ray, skipId, scene.shapes[j])
    ensures r.None? <==> forall j :: from <= j < |scene.shapes| ==> !Occludes(m, scene, ray, skipId, scene.shapes[j])
  {
    if from == |scene.shapes| then None
    else if Occludes(m, scene, ray, skipId, scene.shapes[from]) then Some(from)
    else FirstOccluder(m, scene, ray, skipId, from + 1)
  }

  /** `hasIntersection`: the id reported by the first occluder's hit, or
      `NoShape` when no shape occludes. */
  function HasIntersection(m: Maths, scene: Scene, ray: Ray, skipId: int): (r: int)
    ensures (forall k :: 0 <= k < |scene.shapes| ==> !Occludes(m, scene, ray, skipId, scene.shapes[k])) ==>
              r == NoShape
    ensures forall k :: (0 <= k < |scene.shapes| && Occludes(m, scene, ray, skipId, scene.shapes[k])
                         && forall j :: 0 <= j < k ==> !Occludes(m, scene, ray, skipId, scene.shapes[j])) ==>
              r == scene.shapes[k].intersect(ray).id
  {
    match FirstOccluder(m, scene, ray, skipId, 0)
    case None => NoShape
    case Some(k) => scene.shapes[k].intersect(ray).id
  }

  /** In a well-formed scene the answer is `NoShape` exactly when no shape
      passes the shadow test, and otherwise the id of the first one that does. */
  lemma OccludedIff(m: Maths, scene: Scene, ray: Ray, skipId: int)
    requires WellFormed(scene)
    ensures HasIntersection(m, scene, ray, skipId) != NoShape <==>
              exists k :: 0 <= k < |scene.shapes| && Occludes(m, scene, ray, skipId, scene.shapes[k])
    ensures HasIntersection(m, scene, ray, skipId) != NoShape ==>
              exists k :: 0 <= k < |scene.shapes| && Occludes(m, scene, ray, skipId, scene.shapes[k])
                && HasIntersection(m, scene, ray, skipId) == scene.shapes[k].id
  {
    match FirstOccluder(m, scene, ray, skipId, 0)
    case None =>
    case Some(k) =>
      assert scene.shapes[k].intersect(ray).id == scene.shapes[k].id;
  }
}

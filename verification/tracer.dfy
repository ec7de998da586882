/** `raytraceSingleRay`: nearest hit, shadow test, local Phong colour, and a
    reflection traced one level deeper that skips the surface just left. */
module Tracer {
  import opened Vectors
  import opened Geometry
  import opened SceneQuery

  /** The ray from a hit point toward the light. */
  function ShadowRay(m: Maths, scene: Scene, hit: Intersection): Ray {
    Ray(hit.point, m.normalize(Sub(scene.lightPosition, hit.point)))
  }

  /** The mirror ray leaving a hit point. */
  function ReflectionRay(m: Maths, ray: Ray, hit: Intersection): Ray {
    Ray(hit.point, m.reflect(ray.direction, hit.normal))
  }

  /** Whether the shadow ray from `hit` meets an occluder other than the
      surface it leaves. */
  predicate Shadowed(m: Maths, scene: Scene, hit: Intersection) {
    HasIntersection(m, scene, ShadowRay(m, scene, hit), hit.id) != NoShape
  }

  /** The local colour: ambient only in shadow, the full Phong sum otherwise. */
  function LightingColor(m: Maths, scene: Scene, ray: Ray, hit: Intersection): Vec3 {
    if Shadowed(m, scene, hit) then m.ambientTerm(ray, scene.lightPosition, hit)
    else m.phongTerm(ray, scene.lightPosition, hit)
  }

  /** The material's reflective strength, zeroed once the budget is spent. */
  function EffectiveStrength(level: int, hit: Intersection): Vec3 {
    if level < 1 then Black else hit.material.reflectionStrength
  }

  /** One invocation of the tracer: its ray, budget, skipped id, and the
      nearest hit it found. */
  datatype Call = Call(ray: Ray, level: int, sourceId: int, hit: Intersection)

  /** `next` is the reflection call that `prev` makes: `prev` hit something
      with budget left, and `next` traces its mirror ray one level down,
      skipping the surface `prev` hit. */
  predicate Follows(m: Maths, prev: Call, next: Call) {
    && prev.hit.numberOfIntersections != 0
    && prev.level > 0
    && next.ray == ReflectionRay(m, prev.ray, prev.hit)
    && next.level == prev.level - 1
    && next.sourceId == prev.hit.id
  }

  /** Every invocation a trace makes, outermost first: each one after the
      first is the reflection of its predecessor's hit, one level down, with
      the predecessor's surface skipped. */
  function Chain(m: Maths, scene: Scene, ray: Ray, level: int, sourceId: int): (c: seq<Call>)
    decreases if level > 0 then level else 0
    ensures 1 <= |c| <= (if level > 0 then level else 0) + 1
    ensures c[0] == Call(ray, level, sourceId, ClosestIntersection(m, scene, ray, sourceId))
    ensures forall k :: 0 <= k < |c| ==> c[k].hit == ClosestIntersection(m, scene, c[k].ray, c[k].sourceId)
    // consecutive entries are named k, k' (not k, k + 1) so that the trigger
    // c[k] does not produce c[k + 1], c[k + 2], ... without end
    ensures forall k, k' :: 0 <= k && k' == k + 1 && k' < |c| ==> Follows(m, c[k], c[k'])
    ensures c[|c| - 1].hit.numberOfIntersections == 0 || c[|c| - 1].level < 1
  {
    var hit := ClosestIntersection(m, scene, ray, sourceId);
    var here := Call(ray, level, sourceId, hit);
    if hit.numberOfIntersections != 0 && level > 0 then
      [here] + Chain(m, scene, ReflectionRay(m, ray, hit), level - 1, hit.id)
    else
      [here]
  }

  /** The colour a chain of invocations adds up to, innermost first:
      each hit's local colour plus the deeper colour weighted by its
      effective strength; a miss is black. */
  function Radiance(m: Maths, scene: Scene, c: seq<Call>): Vec3
    decreases |c|
  {
    if |c| == 0 || c[0].hit.numberOfIntersections == 0 then Black
    else
      Add(LightingColor(m, scene, c[0].ray, c[0].hit),
          Mul(Radiance(m, scene, c[1..]), EffectiveStrength(c[0].level, c[0].hit)))
  }

  /** `raytraceSingleRay`. The source computes the shadow test and the Phong
      terms before it looks at the hit count; they are pure, so the order is
      immaterial. */
  function Trace(m: Maths, scene: Scene, ray: Ray, level: int, sourceId: int): (color: Vec3)
    decreases if level > 0 then level else 0
    ensures ClosestIntersection(m, scene, ray, sourceId).numberOfIntersections == 0 ==> color == Black
    ensures color == Radiance(m, scene, Chain(m, scene, ray, level, sourceId))
  {
    var result := ClosestIntersection(m, scene, ray, sourceId);
    var lightingColor := LightingColor(m, scene, ray, result);
    if result.numberOfIntersections == 0 then Black
    else
      var reflectionColor :=
        if level > 0 then Trace(m, scene, ReflectionRay(m, ray, result), level - 1, result.id)
        else Black;
      Add(lightingColor, Mul(reflectionColor, EffectiveStrength(level, result)))
  }

  /** With the budget spent, a hit's colour is its local colour alone:
      ambient only when the shadow ray finds an occluder. */
  lemma LocalShadingAtLastLevel(m: Maths, scene: Scene, ray: Ray, level: int, sourceId: int)
    requires level < 1
    requires ClosestIntersection(m, scene, ray, sourceId).numberOfIntersections != 0
    ensures var hit := ClosestIntersection(m, scene, ray, sourceId);
            Trace(m, scene, ray, level, sourceId) ==
              if Shadowed(m, scene, hit) then m.ambientTerm(ray, scene.lightPosition, hit)
              else m.phongTerm(ray, scene.lightPosition, hit)
  {
    var hit := ClosestIntersection(m, scene, ray, sourceId);
    var lighting := LightingColor(m, scene, ray, hit);
    assert Trace(m, scene, ray, level, sourceId) == Add(lighting, Mul(Black, Black));
  }

  /** With budget left, a hit's call makes exactly one nested call: the
      mirror ray one level down, skipping the surface just hit. The colour is
      the local colour plus that nested call's chain colour weighted by the
      material's reflective strength. */
  lemma ReflectionStep(m: Maths, scene: Scene, ray: Ray, level: int, sourceId: int)
    requires level > 0
    requires ClosestIntersection(m, scene, ray, sourceId).numberOfIntersections != 0
    ensures var c := Chain(m, scene, ray, level, sourceId);
            && |c| >= 2
            && c[1].ray == ReflectionRay(m, ray, c[0].hit)
            && c[1].level == level - 1
            && c[1].sourceId == c[0].hit.id
            && Trace(m, scene, ray, level, sourceId) ==
                 Add(LightingColor(m, scene, ray, c[0].hit),
                     Mul(Radiance(m, scene, c[1..]), c[0].hit.material.reflectionStrength))
  {
  }

  /** In a well-formed scene a reflected ray never stops on the surface it
      just left. */
  lemma ChainSkipsSurfaceJustLeft(m: Maths, scene: Scene, ray: Ray, level: int, sourceId: int)
    requires WellFormed(scene)
    ensures var c := Chain(m, scene, ray, level, sourceId);
            // k, k' rather than k, k + 1: avoids a c[k] -> c[k + 1] matching loop
            forall k, k' :: 0 <= k && k' == k + 1 && k' < |c| && c[k'].hit.numberOfIntersections != 0 ==>
              c[k'].hit.id != c[k].hit.id
  {
    var c := Chain(m, scene, ray, level, sourceId);
    // consecutive entries as k, k' to avoid a c[k] -> c[k + 1] matching loop
    forall k, k' | 0 <= k && k' == k + 1 && k' < |c| && c[k'].hit.numberOfIntersections != 0
      ensures c[k'].hit.id != c[k].hit.id
    {
      assert Follows(m, c[k], c[k']);
      ClosestNeverSkipped(m, scene, c[k'].ray, c[k'].sourceId);
    }
  }

  /** Every ray, whatever it skips, hits some shape: a hall of mirrors. */
  ghost predicate AlwaysHits(m: Maths, scene: Scene) {
    forall ray, skipId :: ClosestIntersection(m, scene, ray, skipId).numberOfIntersections != 0
  }

  /** In a hall of mirrors the bound on nested reflections is reached: a trace
      with budget `level` makes exactly `level` nested calls. */
  lemma {:induction false} MirrorHallUsesWholeBudget(m: Maths, scene: Scene, ray: Ray, level: nat, sourceId: int)
    requires AlwaysHits(m, scene)
    ensures |Chain(m, scene, ray, level, sourceId)| == level + 1
    decreases level
  {
    var hit := ClosestIntersection(m, scene, ray, sourceId);
    assert hit.numberOfIntersections != 0;
    if level > 0 {
      assert Chain(m, scene, ray, level, sourceId) ==
        [Call(ray, level, sourceId, hit)] + Chain(m, scene, ReflectionRay(m, ray, hit), level - 1, hit.id);
      MirrorHallUsesWholeBudget(m, scene, ReflectionRay(m, ray, hit), level - 1, hit.id);
    }
  }
}

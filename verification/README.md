# Recursive ray tracer: control logic

This project models the control logic of a small Whitted-style ray tracer
(`main.cpp`) in Dafny. The model covers five parts:

- the nearest-hit query over the scene's shapes (`getClosestIntersection`);
- the shadow/occluder query (`hasIntersection`);
- the depth-bounded recursive tracer (`raytraceSingleRay`);
- the primary-ray generator (`getRaysForViewpoint`);
- the image driver (`raytraceImage`).

Geometry and shading are kept abstract. Each shape carries its intersection
query as a function value, `Shape(id, intersect)`. The vector maths
(`distance`, `normalize`, `reflect`) and the Phong terms `Ia()` and `I()` are
function fields of a `Maths` value that every operation takes as a parameter.
Colours and points are triples of `real`s, and `+`, `-` and the component-wise
`*` are exact.

Modules:

- `Vectors` (`vectors.dfy`): `Vec3`, `Add`, `Sub`, `Mul`, `Black`.
- `Geometry` (`geometry.dfy`): `Ray`, `Material`, `Intersection`, `Shape`,
  `Scene`, `Maths`, and the scene invariant `WellFormed`. The invariant says
  no shape uses id -1, ids are unique, and a shape's hits carry its id.
- `SceneQuery` (`scene_query.dfy`): the two linear scans. The constants
  `FloatMax`, `SelfHitEpsilon` (1e-5) and `LightMargin` (0.01) are defined here.
- `Tracer` (`tracer.dfy`): `Trace`, plus `Chain`, the sequence of nested
  invocations a trace makes, and `Radiance`, which folds the colours along a
  chain.
- `ImageDriver` (`image_driver.dfy`): the pixel enumeration and the image as a
  map from `(x, y)` to colour.

## Model

| member | source | states |
|---|---|---|
| SceneQuery.Nearest | main.cpp:44-61 | The chosen shape is an unskipped shape with a nonzero hit count, and its distance is below FLT_MAX. No unskipped hit is nearer, and every earlier unskipped hit is strictly farther, so the first shape wins ties. Nothing is chosen exactly when every unskipped hit is at distance FLT_MAX or more. |
| SceneQuery.NearestIsFirstNearest | main.cpp:54-57 | The scan's answer is `k` if and only if `k` is the first candidate at the least distance (both directions). |
| SceneQuery.ClosestIntersection | main.cpp:45-60 | A zero-count result is exactly the default-constructed intersection. |
| SceneQuery.ClosestIntersectionIsNearestHit | main.cpp:44-61 | The result is a miss exactly when no unskipped shape reports a hit nearer than FLT_MAX. Otherwise it is the hit of a shape whose id differs from `skipID`, and no unskipped hit is nearer. |
| SceneQuery.ClosestNeverSkipped | main.cpp:48-52 | In a well-formed scene, a returned hit never carries the skipped id. |
| SceneQuery.FirstOccluder | main.cpp:30-40 | The index found passes all four shadow conditions, and no earlier shape passes them. No index is found exactly when no shape passes. |
| SceneQuery.HasIntersection | main.cpp:29-42 | The result is -1 when no shape passes the four-part test. Otherwise it is the hit id of the first shape in scene order that passes. |
| SceneQuery.OccludedIff | main.cpp:29-42 | In a well-formed scene, the result differs from -1 if and only if some shape passes the test, and it is then the id of a passing shape. |
| Tracer.Chain | main.cpp:91-97 | A trace at budget `level` makes at most `max(level, 0)` nested calls. Each nested call traces the mirror ray of the previous hit at `level - 1`, skips the previous hit's id, and happens only after a hit with budget left. Each call's hit is the nearest hit for its ray and skip id. The chain stops only at a miss or when the budget is spent. |
| Tracer.Trace | main.cpp:64-102 | A miss gives exactly black at every level. The colour equals the fold of local colours along the chain of nested calls, each deeper colour weighted by the material's effective reflective strength. |
| Tracer.LocalShadingAtLastLevel | main.cpp:79-100 | With `level < 1`, a hit's colour is its lighting term alone. That term is the ambient component when the shadow query finds an occluder, and the full Phong sum otherwise. |
| Tracer.ReflectionStep | main.cpp:94-101 | With `level > 0` and a hit, the call makes exactly one nested call. That call traces the mirror ray of the hit at `level - 1`, skipping the surface just hit. The colour is the local lighting term plus the colour of the nested chain, weighted by the material's reflective strength. |
| Tracer.ChainSkipsSurfaceJustLeft | main.cpp:94-97 | In a well-formed scene, a reflected ray's hit never has the id of the surface it left. |
| Tracer.MirrorHallUsesWholeBudget | main.cpp:91-97 | When every ray hits something, a trace at budget `n >= 0` makes exactly `n` nested calls, so the bound is tight. |
| ImageDriver.GetRaysForViewpoint | main.cpp:110-127 | There are exactly `W * H` entries. Entry `k` is pixel `(k / H, k % H)`, and its ray leaves the origin in direction `(-1 + x*2/W, -1 + y*2/H, -2)`. |
| ImageDriver.EachPixelOnce | main.cpp:115-125 | Every pixel `(x, y)` of the grid appears exactly once, at position `x*H + y`. |
| ImageDriver.ScanOrder | main.cpp:115-125 | Entries come in x-outer, y-inner order. |
| ImageDriver.NdcRange | main.cpp:115-124 | The image-plane coordinate of every in-grid column or row lies in [-1, 1). |
| ImageDriver.RaytraceImage | main.cpp:129-140 | Starting from a cleared image, exactly the pixels of the W-by-H grid are written. Each gets the colour of its primary ray, traced with budget 10 and skip id -1. |

## Left out

- Shape intersection solvers and the Phong formulas live in `Geometry.h` and `Lighting.h`. Those files are not part of this model, so they appear only as uninterpreted function values.
- `Ray` and `Intersection` are plain records here. The model assumes that the `Ray(origin, direction)` constructor in `RayTrace.h` stores both vectors unchanged. `RayTrace.h` is not part of this model.
- ImageDriver.GetRaysForViewpoint: the stated direction `(-1 + x*2/W, -1 + y*2/H, -2)` is the vector handed to the `Ray` constructor. If that constructor normalises its direction, the stored ray points the same way but with unit length.
- `glm::distance`, `glm::normalize` and `reflect` are uninterpreted as well. Floating-point rounding is not modelled: distances, coordinates and colours are exact reals.
- The diffuse and specular terms `Id()` and `Is()` are computed by `raytraceSingleRay` but never used in the colour, so they are left out. Only `Ia()` and `I()` are modelled.
- The default-constructed `Intersection` has count 0. Its other fields are placeholders (zero vectors, id -1) because `Geometry.h` is not part of this model. The tracer returns black before any of them can affect the colour.
- When `level < 1`, the source leaves `reflectionColor` default-initialised and multiplies it by a zeroed strength. The model uses black. In exact arithmetic the product is zero either way; an IEEE NaN or infinity left in that vector is not modelled.
- The order of the source's work is not modelled: it computes the shadow query and the Phong terms before checking for a miss. These are pure, so only the result matters.
- `getRaysForViewpoint` takes a scene and a viewpoint that it never reads, so the model omits both parameters.
- Image sizes are `nat`: a negative width or height from the image buffer is not modelled.
- `ImageBuffer::Initialize`, `SetPixel` and `Render` are modelled only as a map that starts empty and receives one write per entry. The buffer's storage and display are I/O.
- The `Assignment5` callbacks, window and GL setup, the render loop and `main` are UI and I/O (main.cpp:143-213). Scene construction (`initScene1`, `initScene2`) is external data.
- Running the driver twice on an unchanged scene gives the same image. This holds by construction, because every member is a pure function of its arguments; it is not stated as a separate lemma.

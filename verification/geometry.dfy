/** Rays, materials, intersections, shapes and scenes. The shape solvers,
    the vector maths and the Phong formulas are not part of this model: a
    shape carries its intersection query as a function value, and the maths
    the tracer calls is gathered in `Maths`. */
module Geometry {
  import opened Vectors

  datatype Ray = Ray(origin: Vec3, direction: Vec3)

  datatype Material = Material(
    ambient: Vec3,
    diffuse: Vec3,
    specular: Vec3,
    shininess: real,
    reflectionStrength: Vec3)

  /** The result of one ray/shape query; `numberOfIntersections == 0` is a miss,
      and then the other fields carry no meaning. */
  datatype Intersection = Intersection(
    numberOfIntersections: int,
    point: Vec3,
    normal: Vec3,
    material: Material,
    id: int)

  /** The id that names no shape: the "skip nothing" argument and the
      "no occluder" answer. */
  const NoShape: int := -1

  /** A default-constructed intersection: a miss. Only its count is read. */
  const NoIntersection := Intersection(0, Black, Black, Material(Black, Black, Black, 0.0, Black), NoShape)

  /** A shape is its id and its one capability: intersect a ray. */
  datatype Shape = Shape(id: int, intersect: Ray -> Intersection)

  /** Shapes in scene order, and the single point light. */
  datatype Scene = Scene(shapes: seq<Shape>, lightPosition: Vec3)

  /** The maths the tracer calls but this model leaves uninterpreted:
      `glm::distance`, `glm::normalize`, `reflect`, and the Phong terms
      `Ia()` (ambient only) and `I()` (ambient + diffuse + specular), each of
      which depends on the incoming ray, the light and the hit. */
  datatype Maths = Maths(
    distance: (Vec3, Vec3) -> real,
    normalize: Vec3 -> Vec3,
    reflect: (Vec3, Vec3) -> Vec3,
    ambientTerm: (Ray, Vec3, Intersection) -> Vec3,
    phongTerm: (Ray, Vec3, Intersection) -> Vec3)

  /** The scene invariant the construction code is expected to keep: no shape
      uses the reserved id, ids are unique, and every hit a shape reports
      carries that shape's id. */
  ghost predicate WellFormed(scene: Scene) {
    && (forall i :: 0 <= i < |scene.shapes| ==> scene.shapes[i].id != NoShape)
    && (forall i, j :: 0 <= i < j < |scene.shapes| ==> scene.shapes[i].id != scene.shapes[j].id)
    && (forall i, r: Ray :: 0 <= i < |scene.shapes| && scene.shapes[i].intersect(r).numberOfIntersections != 0
          ==> scene.shapes[i].intersect(r).id == scene.shapes[i].id)
  }
}

/** `getRaysForViewpoint` and `raytraceImage`: one pinhole ray per pixel of a
    width-by-height grid, x outer and y inner, each traced with the top-level
    budget and nothing skipped. The image is a map from pixel to colour. */
module ImageDriver {
  import opened Vectors
  import opened Geometry
  import Tracer

  datatype RayAndPixel = RayAndPixel(ray: Ray, x: int, y: int)

  /** All primary rays leave from the origin. */
  const Pinhole := Vec3(0.0, 0.0, 0.0)

  /** The reflection budget of a primary ray. */
  const PrimaryDepth: int := 10

  /** The image-plane coordinate of column or row `p` of `n`: start at -1 and
      step by 2/n. */
  function Ndc(p: int, n: nat): real
    requires n > 0
  {
    -1.0 + (p as real) * (2.0 / (n as real))
  }

  /** The primary ray through pixel (x, y): from the pinhole toward the
      image plane at depth -2. */
  function PrimaryRay(width: nat, height: nat, x: int, y: int): Ray
    requires width > 0 && height > 0
  {
    Ray(Pinhole, Vec3(Ndc(x, width), Ndc(y, height), -2.0))
  }

  /** Entry `e` sits at position `k` of the x-outer, y-inner enumeration. */
  predicate PixelAt(e: RayAndPixel, width: nat, height: nat, k: int) {
    && width > 0 && height > 0
    && e.x == k / height
    && e.y == k % height
    && e.ray == PrimaryRay(width, height, e.x, e.y)
  }

  /** A multiple of a positive `height` strictly between -height and height
      is zero. */
  lemma SmallMultiple(d: int, height: int)
    requires height > 0
    requires -height < d * height < height
    ensures d == 0
  {
  }

  /** The pixel enumeration position of (x, y) and back. */
  lemma GridIndex(x: int, y: int, height: nat, k: int)
    requires 0 <= y < height
    requires 0 <= x
    ensures k == x * height + y <==> (k / height == x && k % height == y)
  {
    var q, r := k / height, k % height;
    assert k == q * height + r && 0 <= r < height;
    if k == x * height + y {
      assert (q - x) * height == q * height - x * height;
      SmallMultiple(q - x, height);
    }
  }

  /** `(x, y)` lies before the row-major position `n` exactly when its index
      does. */
  lemma GridBound(x: int, y: int, height: nat, n: nat)
    requires 0 <= y < height
    requires 0 <= x
    ensures x * height + y < n * height <==> x < n
  {
    if x < n {
      assert x * height + y < x * height + height == (x + 1) * height <= n * height;
    } else {
      assert n * height <= x * height;
    }
  }

  /** `getRaysForViewpoint`: the primary ray of every pixel, x outer and y
      inner. The coordinates are accumulated step by step, as the source
      does. */
  method GetRaysForViewpoint(width: nat, height: nat) returns (rays: seq<RayAndPixel>)
    ensures |rays| == width * height
    ensures forall k :: 0 <= k < |rays| ==> PixelAt(rays[k], width, height, k)
  {
    rays := [];
    var x := 0;
    var i := -1.0;
    while x < width
      invariant 0 <= x <= width
      invariant |rays| == x * height
      invariant forall k :: 0 <= k < |rays| ==> PixelAt(rays[k], width, height, k)
      invariant width > 0 ==> i == Ndc(x, width)
    {
      var y := 0;
      var j := -1.0;
      while y < height
        invariant 0 <= y <= height
        invariant |rays| == x * height + y
        invariant forall k :: 0 <= k < |rays| ==> PixelAt(rays[k], width, height, k)
        invariant height > 0 ==> j == Ndc(y, height)
      {
        GridIndex(x, y, height, |rays|);
        var direction := Vec3(i, j, -2.0);
        rays := rays + [RayAndPixel(Ray(Pinhole, direction), x, y)];
        j := j + 2.0 / (height as real);
        y := y + 1;
      }
      i := i + 2.0 / (width as real);
      x := x + 1;
    }
  }

  /** Every pixel of the grid appears exactly once, at position x*height + y. */
  lemma EachPixelOnce(rays: seq<RayAndPixel>, width: nat, height: nat, x: int, y: int)
    requires |rays| == width * height
    requires forall k :: 0 <= k < |rays| ==> PixelAt(rays[k], width, height, k)
    requires 0 <= x < width && 0 <= y < height
    ensures (set k | 0 <= k < |rays| && rays[k].x == x && rays[k].y == y) == {x * height + y}
  {
    GridBound(x, y, height, width);
    forall k | 0 <= k < |rays|
      ensures (rays[k].x == x && rays[k].y == y) <==> k == x * height + y
    {
      GridIndex(x, y, height, k);
    }
  }

  /** Entries come in x-outer, y-inner order. */
  lemma ScanOrder(rays: seq<RayAndPixel>, width: nat, height: nat, k: int, k': int)
    requires forall k :: 0 <= k < |rays| ==> PixelAt(rays[k], width, height, k)
    requires 0 <= k < k' < |rays|
    ensures rays[k].x < rays[k'].x || (rays[k].x == rays[k'].x && rays[k].y < rays[k'].y)
  {
    assert PixelAt(rays[k], width, height, k) && PixelAt(rays[k'], width, height, k');
    var x, y := rays[k].x, rays[k].y;
    var x', y' := rays[k'].x, rays[k'].y;
    GridIndex(x, y, height, k);
    GridIndex(x', y', height, k');
    if x' < x {
      MulMonotone(x' + 1, x, height);
      assert false;
    }
  }

  /** Multiplying by a nonnegative factor keeps order. */
  lemma MulMonotone(a: int, b: int, c: nat)
    requires a <= b
    ensures a * c <= b * c
  {
    assert b * c - a * c == (b - a) * c;
  }

  /** Image-plane coordinates of pixels inside the grid lie in [-1, 1). */
  lemma NdcRange(p: int, n: nat)
    requires 0 <= p < n
    ensures -1.0 <= Ndc(p, n) < 1.0
  {
    var step := 2.0 / (n as real);
    assert step * (n as real) == 2.0;
    assert (p as real) * step < (n as real) * step;
  }

  /** Pixel (x, y) is among the first `n` of the enumeration. */
  predicate Enumerated(x: int, y: int, height: nat, n: int) {
    0 <= x && 0 <= y < height && x * height + y < n
  }

  /** `raytraceImage`: starting from a cleared image, every pixel of the grid
      receives the colour of its primary ray traced with budget 10 and no
      skipped shape, and no other pixel is written. */
  method RaytraceImage(m: Maths, scene: Scene, width: nat, height: nat) returns (image: map<(int, int), Vec3>)
    ensures forall x, y :: (x, y) in image <==> 0 <= x < width && 0 <= y < height
    ensures forall x, y :: 0 <= x < width && 0 <= y < height ==>
              image[(x, y)] == Tracer.Trace(m, scene, PrimaryRay(width, height, x, y), PrimaryDepth, NoShape)
  {
    image := map[];
    var rays := GetRaysForViewpoint(width, height);
    var n := 0;
    while n < |rays|
      invariant 0 <= n <= |rays|
      invariant forall x, y :: (x, y) in image <==> Enumerated(x, y, height, n)
      invariant forall x, y :: (x, y) in image ==>
                  0 <= x < width && 0 <= y < height &&
                  image[(x, y)] == Tracer.Trace(m, scene, PrimaryRay(width, height, x, y), PrimaryDepth, NoShape)
    {
      var r := rays[n];
      assert PixelAt(r, width, height, n);
      GridBound(r.x, r.y, height, width);
      GridIndex(r.x, r.y, height, n);
      var color := Tracer.Trace(m, scene, r.ray, PrimaryDepth, NoShape);
      image := image[(r.x, r.y) := color];
      forall x, y | 0 <= x && 0 <= y < height
        ensures Enumerated(x, y, height, n + 1) <==> (Enumerated(x, y, height, n) || (x, y) == (r.x, r.y))
      {
        GridIndex(x, y, height, n);
      }
      n := n + 1;
    }
    forall x, y | 0 <= x && 0 <= y < height
      ensures Enumerated(x, y, height, width * height) <==> x < width
    {
      GridBound(x, y, height, width);
    }
  }
}

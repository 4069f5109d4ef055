/** The standalone prototype tracer of TilesRT/main.cpp: one primary ray per
    pixel, the nearest of a list of spheres and planes, Lambert shading, and
    an RGBA byte buffer that takes the grid rows in reverse order, the top
    of the view first. The intersection tests and
    `glm::normalize` are external and enter as functions. */
module Prototype {
  import opened Base

  /** The prototype's own `Ray`: origin and direction, no time. */
  datatype SimpleRay = SimpleRay(origin: Vec3, direction: Vec3)

  /** `Sphere` and `Plane`, the two subclasses of `Object`. */
  datatype Object =
    | Sphere(center: Vec3, radius: real, color: Vec3)
    | Plane(normal: Vec3, distance: real, color: Vec3)

  /** `intersect(ray, t)` of each object (a `Some(t)` when it returns true)
      and `glm::normalize`. */
  datatype Geometry = Geometry(intersect: (Object, SimpleRay) -> Option<real>,
                               normalize: Vec3 -> Vec3)

  /** `Plane(normal, distance, color)` stores the normal normalised. */
  function MakePlane(normal: Vec3, distance: real, color: Vec3, geo: Geometry): (o: Object)
    ensures o.Plane? && o.normal == geo.normalize(normal)
    ensures o.distance == distance && o.color == color
  {
    Plane(geo.normalize(normal), distance, color)
  }

  /** `getNormal(hitPoint)`. */
  function NormalAt(o: Object, hitPoint: Vec3, geo: Geometry): Vec3 {
    match o
    case Sphere(center, _, _) => geo.normalize(Sub(hitPoint, center))
    case Plane(normal, _, _) => normal
  }

  // ---------------------------------------------------- nearest-hit search

  /** `tClosest`, which starts at `infinity`. */
  datatype Distance = Finite(t: real) | Infinity

  /** `t < tClosest` */
  predicate Closer(t: real, d: Distance) {
    d.Infinity? || t < d.t
  }

  /** The object `trace` settles on and its hit distance. */
  datatype Closest = Closest(index: nat, t: real)

  /** The selection after the first `n` objects: a later object replaces the
      current one only when strictly closer. */
  function Nearest(objects: seq<Object>, ray: SimpleRay, geo: Geometry, n: nat): (c: Option<Closest>)
    requires n <= |objects|
    ensures c.Some? ==> c.value.index < n
    decreases n
  {
    if n == 0 then None
    else
      var prev := Nearest(objects, ray, geo, n - 1);
      match geo.intersect(objects[n - 1], ray)
      case None => prev
      case Some(t) =>
        if Closer(t, if prev.None? then Infinity else Finite(prev.value.t))
        then Some(Closest(n - 1, t)) else prev
  }

  /** The argmin a nearest-hit search should find among the first `n`
      objects: nothing when no object is hit; otherwise a hit object whose
      distance is no larger than any other hit, and strictly smaller than
      that of every hit object before it. */
  ghost predicate IsNearest(objects: seq<Object>, ray: SimpleRay, geo: Geometry, n: nat,
                            c: Option<Closest>)
    requires n <= |objects|
  {
    match c
    case None => forall k :: 0 <= k < n ==> geo.intersect(objects[k], ray).None?
    case Some(h) =>
      && h.index < n
      && geo.intersect(objects[h.index], ray) == Some(h.t)
      && (forall k :: 0 <= k < n && geo.intersect(objects[k], ray).Some? ==>
            h.t <= geo.intersect(objects[k], ray).value)
      && (forall k :: 0 <= k < h.index && geo.intersect(objects[k], ray).Some? ==>
            h.t < geo.intersect(objects[k], ray).value)
  }

  /** The fold finds the argmin: the nearest hit, the earliest object on a tie. */
  lemma {:induction false} NearestIsArgmin(objects: seq<Object>, ray: SimpleRay, geo: Geometry, n: nat)
    requires n <= |objects|
    ensures IsNearest(objects, ray, geo, n, Nearest(objects, ray, geo, n))
    decreases n
  {
    if n > 0 {
      NearestIsArgmin(objects, ray, geo, n - 1);
    }
  }

  /** There is only one such argmin. */
  lemma ArgminUnique(objects: seq<Object>, ray: SimpleRay, geo: Geometry, n: nat,
                     c: Option<Closest>, c': Option<Closest>)
    requires n <= |objects|
    requires IsNearest(objects, ray, geo, n, c) && IsNearest(objects, ray, geo, n, c')
    ensures c == c'
  {
    if c.Some? && c'.Some? {
      var h, h' := c.value, c'.value;
      assert h.t <= h'.t && h'.t <= h.t;
    }
  }

  /** Lambert shading of the chosen object: its colour times
      `max(0, dot(normal, -direction))`. */
  function Shade(o: Object, ray: SimpleRay, t: real, geo: Geometry): Vec3 {
    var hitPoint := Add(ray.origin, Times(ray.direction, t));
    var normal := NormalAt(o, hitPoint, geo);
    var lambert := Dot(normal, Neg(ray.direction));
    Times(o.color, if 0.0 < lambert then lambert else 0.0)
  }

  /** The colour `trace` returns. */
  function TraceColor(ray: SimpleRay, objects: seq<Object>, geo: Geometry): Vec3 {
    match Nearest(objects, ray, geo, |objects|)
    case None => Black
    case Some(h) => Shade(objects[h.index], ray, h.t, geo)
  }

  /** No intersection anywhere: the background, black. */
  lemma TraceMiss(ray: SimpleRay, objects: seq<Object>, geo: Geometry)
    requires forall k :: 0 <= k < |objects| ==> geo.intersect(objects[k], ray).None?
    ensures TraceColor(ray, objects, geo) == Black
  {
    NearestIsArgmin(objects, ray, geo, |objects|);
  }

  /** Otherwise the shade of the argmin object at its distance. */
  lemma TraceHit(ray: SimpleRay, objects: seq<Object>, geo: Geometry, c: Closest)
    requires IsNearest(objects, ray, geo, |objects|, Some(c))
    ensures TraceColor(ray, objects, geo) == Shade(objects[c.index], ray, c.t, geo)
  {
    NearestIsArgmin(objects, ray, geo, |objects|);
    ArgminUnique(objects, ray, geo, |objects|, Some(c), Nearest(objects, ray, geo, |objects|));
  }

  /** An object of non-negative colour never shades negative. */
  lemma ShadeNonNegative(o: Object, ray: SimpleRay, t: real, geo: Geometry)
    requires NonNegative(o.color)
    ensures NonNegative(Shade(o, ray, t, geo))
  {
    var hitPoint := Add(ray.origin, Times(ray.direction, t));
    var lambert := Dot(NormalAt(o, hitPoint, geo), Neg(ray.direction));
    var m := if 0.0 < lambert then lambert else 0.0;
    assert m >= 0.0;
    assert o.color.x * m >= 0.0 && o.color.y * m >= 0.0 && o.color.z * m >= 0.0;
  }

  /** `trace(ray, objects)` */
  method Trace(ray: SimpleRay, objects: seq<Object>, geo: Geometry) returns (c: Vec3)
    ensures c == TraceColor(ray, objects, geo)
  {
    var tClosest := Infinity;
    var closestObject: Option<nat> := None;
    var n := 0;
    while n < |objects|
      invariant 0 <= n <= |objects|
      invariant closestObject.None? <==> tClosest.Infinity?
      invariant closestObject.Some? ==> closestObject.value < n
      invariant Nearest(objects, ray, geo, n) ==
                if closestObject.None? then None else Some(Closest(closestObject.value, tClosest.t))
    {
      var hit := geo.intersect(objects[n], ray);
      if hit.Some? && Closer(hit.value, tClosest) {
        tClosest := Finite(hit.value);
        closestObject := Some(n);
      }
      n := n + 1;
    }
    if closestObject.Some? {
      var o := objects[closestObject.value];
      var hitPoint := Add(ray.origin, Times(ray.direction, tClosest.t));
      var normal := NormalAt(o, hitPoint, geo);
      var lambert := Dot(normal, Neg(ray.direction));
      return Times(o.color, if 0.0 < lambert then lambert else 0.0);
    }
    return Black;
  }

  // ------------------------------------------------------------- the image

  /** The primary ray of pixel `(i, j)`: from the origin through
      `(u - 0.5, v - 0.5, -1)` with `u = i / width`, `v = j / height`. */
  function CameraRay(i: int, j: int, width: int, height: int, geo: Geometry): SimpleRay
    requires width > 0 && height > 0
  {
    var u := i as real / width as real;
    var v := j as real / height as real;
    SimpleRay(Zero, geo.normalize(Vec3(u - 0.5, v - 0.5, -1.0)))
  }

  /** `image[i][j]`, width columns of height colours, every cell the traced
      colour of its camera ray. */
  ghost predicate TracedGrid(image: seq<seq<Vec3>>, width: int, height: int, objects: seq<Object>,
                             geo: Geometry)
  {
    && |image| == width
    && (forall i :: 0 <= i < width ==> |image[i]| == height)
    && (forall i, j :: 0 <= i < width && 0 <= j < height ==>
          image[i][j] == TraceColor(CameraRay(i, j, width, height, geo), objects, geo))
  }

  /** The nested `i`/`j` loop that fills the grid. */
  method RenderGrid(width: int, height: int, objects: seq<Object>, geo: Geometry)
    returns (image: seq<seq<Vec3>>)
    requires width >= 0 && height >= 0
    ensures TracedGrid(image, width, height, objects, geo)
  {
    image := seq(width, _ => seq(height, _ => Black));
    for i := 0 to width
      invariant |image| == width
      invariant forall i' :: 0 <= i' < width ==> |image[i']| == height
      invariant forall i', j :: 0 <= i' < i && 0 <= j < height ==>
                  image[i'][j] == TraceColor(CameraRay(i', j, width, height, geo), objects, geo)
    {
      for j := 0 to height
        invariant |image| == width
        invariant forall i' :: 0 <= i' < width ==> |image[i']| == height
        invariant forall i', j' :: 0 <= i' < i && 0 <= j' < height ==>
                    image[i'][j'] == TraceColor(CameraRay(i', j', width, height, geo), objects, geo)
        invariant forall j' :: 0 <= j' < j ==>
                    image[i][j'] == TraceColor(CameraRay(i, j', width, height, geo), objects, geo)
      {
        var ray := CameraRay(i, j, width, height, geo);
        var c := Trace(ray, objects, geo);
        image := image[i := image[i][j := c]];
      }
    }
  }

  // ---------------------------------------------------------- RGBA packing

  /** `static_cast<unsigned char>(255.0f * x)`: truncation toward zero, then
      reduction modulo 256. */
  function ToByte(x: real): (b: int)
    ensures 0 <= b < 256
  {
    var y := 255.0 * x;
    (if y >= 0.0 then y.Floor else -((-y).Floor)) % 256
  }

  /** On `[0, 1]` the cast is the plain floor of `255 x`. */
  lemma ToByteUnit(x: real)
    requires 0.0 <= x <= 1.0
    ensures ToByte(x) == (255.0 * x).Floor
    ensures x == 1.0 ==> ToByte(x) == 255
  {
    assert 0.0 <= 255.0 * x <= 255.0;
  }

  ghost predicate GridShape(image: seq<seq<Vec3>>, width: int, height: int) {
    width > 0 && height > 0 && |image| == width &&
    forall i :: 0 <= i < width ==> |image[i]| == height
  }

  /** Byte `k` of the packed buffer: pixel `k / 4` counted from the top row
      of the output, which is grid row `height - 1`, and channel `k % 4`,
      alpha last. */
  function PackedByte(image: seq<seq<Vec3>>, width: int, height: int, k: int): int
    requires GridShape(image, width, height) && 0 <= k < 4 * width * height
  {
    var p := k / 4;
    var i := p % width;
    PackedRowInRange(width, height, k);
    var j := height - 1 - p / width;
    if k % 4 == 3 then 255 else ToByte(Channel(image[i][j], k % 4))
  }

  lemma PackedRowInRange(width: int, height: int, k: int)
    requires width > 0 && 0 <= k < 4 * width * height
    ensures 0 <= (k / 4) / width < height
  {
    var p := k / 4;
    assert p < width * height;
    if p / width >= height {
      MulMonotone(height, p / width, width);
    }
  }

  /** Pixel `(i, j)`'s red, green, blue and alpha bytes sit at
      `4 * ((height - 1 - j) * width + i)`. */
  lemma PackedPixel(image: seq<seq<Vec3>>, width: int, height: int, i: int, j: int, c: int)
    requires GridShape(image, width, height)
    requires 0 <= i < width && 0 <= j < height && 0 <= c < 4
    ensures 0 <= 4 * ((height - 1 - j) * width + i) + c < 4 * width * height
    ensures PackedByte(image, width, height, 4 * ((height - 1 - j) * width + i) + c) ==
            if c == 3 then 255 else ToByte(Channel(image[i][j], c))
  {
    var row := height - 1 - j;
    var p := row * width + i;
    MulMonotone(row, height - 1, width);
    MulMonotone(0, row, width);
    assert p < width * height;
    DivModUnique(4 * p + c, 4, p, c);
    DivModUnique(p, width, row, i);
  }

  /** Pushing pixel `(i, j)`'s four bytes onto a correct prefix that ends
      just before it gives a correct prefix that ends just after it. */
  lemma PackStep(image: seq<seq<Vec3>>, width: int, height: int, i: int, j: int, data: seq<int>)
    requires GridShape(image, width, height) && 0 <= i < width && 0 <= j < height
    requires |data| == 4 * ((height - 1 - j) * width + i)
    requires forall k :: 0 <= k < |data| ==> data[k] == PackedByte(image, width, height, k)
    ensures var color := image[i][j];
            var next := data + [ToByte(color.x), ToByte(color.y), ToByte(color.z), 255];
            && |next| <= 4 * width * height
            && forall k :: 0 <= k < |next| ==> next[k] == PackedByte(image, width, height, k)
  {
    var color := image[i][j];
    var next := data + [ToByte(color.x), ToByte(color.y), ToByte(color.z), 255];
    PackedPixel(image, width, height, i, j, 0);
    PackedPixel(image, width, height, i, j, 1);
    PackedPixel(image, width, height, i, j, 2);
    PackedPixel(image, width, height, i, j, 3);
    forall k | 0 <= k < |next|
      ensures next[k] == PackedByte(image, width, height, k)
    {
      if k >= |data| {
        var c := k - |data|;
        assert next[k] == if c == 3 then 255 else ToByte(Channel(color, c));
      }
    }
  }

  /** The output loop: for `j` from `height - 1` down to 0 and `i` from 0,
      push red, green, blue and 255. */
  method PackRGBA(image: seq<seq<Vec3>>, width: int, height: int) returns (data: seq<int>)
    requires GridShape(image, width, height)
    ensures |data| == 4 * width * height
    ensures forall k :: 0 <= k < |data| ==> data[k] == PackedByte(image, width, height, k)
  {
    data := [];
    var j := height - 1;
    while j >= 0
      invariant -1 <= j < height
      invariant |data| == 4 * ((height - 1 - j) * width) && |data| <= 4 * width * height
      invariant forall k :: 0 <= k < |data| ==> data[k] == PackedByte(image, width, height, k)
    {
      for i := 0 to width
        invariant |data| == 4 * ((height - 1 - j) * width + i) && |data| <= 4 * width * height
        invariant forall k :: 0 <= k < |data| ==> data[k] == PackedByte(image, width, height, k)
      {
        var color := image[i][j];
        var r := ToByte(color.x);
        var g := ToByte(color.y);
        var b := ToByte(color.z);
        PackStep(image, width, height, i, j, data);
        data := data + [r, g, b, 255];
      }
      assert (height - 1 - j) * width + width == (height - 1 - (j - 1)) * width;
      j := j - 1;
    }
  }

  /** Every fourth byte, the alpha channel, is 255. */
  lemma PackedAlpha(image: seq<seq<Vec3>>, width: int, height: int, k: int)
    requires GridShape(image, width, height) && 0 <= k < 4 * width * height && k % 4 == 3
    ensures PackedByte(image, width, height, k) == 255
  {
  }

  /** The scene of `main`: a red unit sphere at `(0, 0, -5)` and a green
      plane `y = -1`. */
  function PrototypeScene(geo: Geometry): seq<Object> {
    [Sphere(Vec3(0.0, 0.0, -5.0), 1.0, Vec3(1.0, 0.0, 0.0)),
     MakePlane(Vec3(0.0, 1.0, 0.0), -1.0, Vec3(0.0, 1.0, 0.0), geo)]
  }

  const Width: int := 800
  const Height: int := 600

  /** `main` up to the PNG write: an 800 by 600 grid, packed to
      `4 * 800 * 600` RGBA bytes. */
  method RenderPrototype(geo: Geometry) returns (image: seq<seq<Vec3>>, data: seq<int>)
    ensures TracedGrid(image, Width, Height, PrototypeScene(geo), geo)
    ensures |data| == 4 * Width * Height
    ensures forall k :: 0 <= k < |data| ==> data[k] == PackedByte(image, Width, Height, k)
  {
    var objects := PrototypeScene(geo);
    image := RenderGrid(Width, Height, objects, geo);
    data := PackRGBA(image, Width, Height);
  }
}

/** Values shared by all parts of the renderer: the `vec3` type (used for points,
    directions and colours alike), rays, material references, optional results,
    and two arithmetic facts the framebuffer proofs lean on. */
module Base {

  datatype Option<+T> = None | Some(value: T)

  /** The renderer's `vec3`; `color` and `point3` are aliases of it. */
  datatype Vec3 = Vec3(x: real, y: real, z: real)

  type Color = Vec3

  const Zero: Vec3 := Vec3(0.0, 0.0, 0.0)

  /** `color(0,0,0)` */
  const Black: Color := Zero

  function Add(a: Vec3, b: Vec3): Vec3 { Vec3(a.x + b.x, a.y + b.y, a.z + b.z) }

  function Sub(a: Vec3, b: Vec3): Vec3 { Vec3(a.x - b.x, a.y - b.y, a.z - b.z) }

  function Neg(a: Vec3): Vec3 { Vec3(-a.x, -a.y, -a.z) }

  /** Component-wise product, `vec3 * vec3`. */
  function Mul(a: Vec3, b: Vec3): Vec3 { Vec3(a.x * b.x, a.y * b.y, a.z * b.z) }

  /** `vec3 * double` */
  function Times(a: Vec3, k: real): Vec3 { Vec3(a.x * k, a.y * k, a.z * k) }

  function Dot(a: Vec3, b: Vec3): real { a.x * b.x + a.y * b.y + a.z * b.z }

  function Cross(a: Vec3, b: Vec3): Vec3 {
    Vec3(a.y * b.z - a.z * b.y, a.z * b.x - a.x * b.z, a.x * b.y - a.y * b.x)
  }

  /** `ray`: origin, direction (not necessarily unit length) and shutter time. */
  datatype Ray = Ray(origin: Vec3, direction: Vec3, time: real)

  /** What a hit record or a triangle points to through its `mat_ptr`. The
      loader's own Lambertian is the one material the model builds; the
      scene's materials are known only by an identity. */
  datatype Material = Lambertian(albedo: Color) | SceneMaterial(id: nat)

  /** Channel `c` of a colour: 0 red, 1 green, 2 blue. */
  function Channel(color: Color, c: int): real
    requires 0 <= c < 3
  {
    if c == 0 then color.x else if c == 1 then color.y else color.z
  }

  predicate NonNegative(c: Color) { c.x >= 0.0 && c.y >= 0.0 && c.z >= 0.0 }

  /** Component-wise order on colours. */
  predicate LessEq(a: Color, b: Color) { a.x <= b.x && a.y <= b.y && a.z <= b.z }

  /** Division with a positive divisor has one quotient and one remainder. */
  lemma DivModUnique(k: int, n: int, q: int, r: int)
    requires n > 0 && 0 <= r < n && k == q * n + r
    ensures k / n == q && k % n == r
  {
    var q', r' := k / n, k % n;
    assert k == q' * n + r';
    if q' < q {
      MulMonotone(q' + 1, q, n);
    } else if q < q' {
      MulMonotone(q + 1, q', n);
    }
  }

  lemma MulMonotone(a: int, b: int, c: int)
    requires a <= b && c >= 0
    ensures a * c <= b * c
  {
    assert b * c - a * c == (b - a) * c;
  }

  /** The component-wise product by a non-negative factor is monotone. */
  lemma MulMonotoneNonNeg(a: Color, lo: Color, hi: Color)
    requires NonNegative(a) && LessEq(lo, hi)
    ensures LessEq(Mul(a, lo), Mul(a, hi))
  {
    assert a.x * hi.x - a.x * lo.x == a.x * (hi.x - lo.x);
    assert a.y * hi.y - a.y * lo.y == a.y * (hi.y - lo.y);
    assert a.z * hi.z - a.z * lo.z == a.z * (hi.z - lo.z);
  }
}

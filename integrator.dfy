/** The light-transport integrator `ray_color` of main.cpp: a path is followed
    through the scene, bounce after bounce, until it leaves the scene, reaches a
    material that absorbs it, or runs out of depth. The scene and its materials
    are external: here they are oracles. */
module Integrator {
  import opened Base

  /** Upper end of a hit query's parameter window; the integrator asks up to `infinity`. */
  datatype TLimit = Finite(bound: real) | Infinity

  /** `hit_record`, filled by a successful intersection query. */
  datatype HitRecord = HitRecord(t: real, p: Vec3, normal: Vec3, u: real, v: real,
                                 frontFace: bool, mat: Material)

  /** What `material::scatter` hands back when it does not absorb the ray. */
  datatype Scattered = Scattered(attenuation: Color, scattered: Ray)

  /** The world (`hittable::hit`) and the material calls (`emitted`, `scatter`),
      as pure functions. Whatever randomness a material uses is folded into them. */
  datatype Scene = Scene(
    hit: (Ray, real, TLimit) -> Option<HitRecord>,
    emitted: (Material, real, real, Vec3) -> Color,
    scatter: (Material, Ray, HitRecord) -> Option<Scattered>)

  /** Lower end of the hit window, which keeps a scattered ray from hitting its own origin. */
  const TMin: real := 0.001

  /** Every light source and every attenuation the scene can produce is non-negative. */
  ghost predicate NonNegativeScene(world: Scene) {
    && (forall m, u, v, p :: NonNegative(world.emitted(m, u, v, p)))
    && (forall m, r, rec :: world.scatter(m, r, rec).Some? ==>
                              NonNegative(world.scatter(m, r, rec).value.attenuation))
  }

  /** `ray_color(r, background, world, depth)`. The recursion is bounded by
      `depth`, which falls by one per bounce; that is its termination proof. */
  function RayColor(r: Ray, background: Color, world: Scene, depth: int): (c: Color)
    ensures NonNegativeScene(world) && NonNegative(background) ==> NonNegative(c)
    decreases depth
  {
    if depth <= 0 then Black
    else match world.hit(r, TMin, Infinity)
      case None => background
      case Some(rec) =>
        var emitted := world.emitted(rec.mat, rec.u, rec.v, rec.p);
        match world.scatter(rec.mat, r, rec)
        case None => emitted
        case Some(s) =>
          Add(emitted, Mul(s.attenuation, RayColor(s.scattered, background, world, depth - 1)))
  }

  /** No depth left: black, whatever the scene. */
  lemma RayColorCutoff(r: Ray, background: Color, world: Scene, depth: int)
    requires depth <= 0
    ensures RayColor(r, background, world, depth) == Black
  {
  }

  /** A ray that hits nothing in `[0.001, infinity]` sees exactly the background. */
  lemma RayColorMiss(r: Ray, background: Color, world: Scene, depth: int)
    requires depth > 0 && world.hit(r, TMin, Infinity).None?
    ensures RayColor(r, background, world, depth) == background
  {
  }

  /** A hit on a material that does not scatter gives exactly what it emits,
      for every positive depth alike. */
  lemma RayColorAbsorbed(r: Ray, background: Color, world: Scene, depth: int)
    requires depth > 0 && world.hit(r, TMin, Infinity).Some?
    requires var rec := world.hit(r, TMin, Infinity).value;
             world.scatter(rec.mat, r, rec).None?
    ensures var rec := world.hit(r, TMin, Infinity).value;
            RayColor(r, background, world, depth) == world.emitted(rec.mat, rec.u, rec.v, rec.p)
    ensures RayColor(r, background, world, depth) == RayColor(r, background, world, 1)
  {
  }

  /** A scattering hit: emitted light plus the attenuated estimate of the
      scattered ray, with one bounce less. */
  lemma RayColorBounce(r: Ray, background: Color, world: Scene, depth: int)
    requires depth > 0 && world.hit(r, TMin, Infinity).Some?
    requires var rec := world.hit(r, TMin, Infinity).value;
             world.scatter(rec.mat, r, rec).Some?
    ensures var rec := world.hit(r, TMin, Infinity).value;
            var s := world.scatter(rec.mat, r, rec).value;
            RayColor(r, background, world, depth) ==
              Add(world.emitted(rec.mat, rec.u, rec.v, rec.p),
                  Mul(s.attenuation, RayColor(s.scattered, background, world, depth - 1)))
  {
  }

  /** How many times the path scatters before the integrator stops following it. */
  function Bounces(r: Ray, world: Scene, depth: int): (n: nat)
    ensures n <= if depth > 0 then depth else 0
    decreases depth
  {
    if depth <= 0 then 0
    else match world.hit(r, TMin, Infinity)
      case None => 0
      case Some(rec) =>
        match world.scatter(rec.mat, r, rec)
        case None => 0
        case Some(s) => 1 + Bounces(s.scattered, world, depth - 1)
  }

  /** A path that ended (missed or absorbed) before the depth budget was used
      up gives the same colour with any larger budget. */
  lemma {:induction false} RayColorSettles(r: Ray, background: Color, world: Scene, depth: int)
    requires Bounces(r, world, depth) < depth
    ensures RayColor(r, background, world, depth + 1) == RayColor(r, background, world, depth)
    ensures Bounces(r, world, depth + 1) == Bounces(r, world, depth)
    decreases depth
  {
    var rec := world.hit(r, TMin, Infinity);
    if rec.Some? {
      var sc := world.scatter(rec.value.mat, r, rec.value);
      if sc.Some? {
        RayColorSettles(sc.value.scattered, background, world, depth - 1);
      }
    }
  }

  /** With non-negative light, more depth never makes a pixel darker. */
  lemma {:induction false} RayColorDepthMonotone(r: Ray, background: Color, world: Scene, depth: int)
    requires NonNegativeScene(world) && NonNegative(background) && depth >= 0
    ensures LessEq(RayColor(r, background, world, depth), RayColor(r, background, world, depth + 1))
    decreases depth
  {
    if depth > 0 {
      var rec := world.hit(r, TMin, Infinity);
      if rec.Some? {
        var sc := world.scatter(rec.value.mat, r, rec.value);
        if sc.Some? {
          var s := sc.value;
          RayColorDepthMonotone(s.scattered, background, world, depth - 1);
          var lo := RayColor(s.scattered, background, world, depth - 1);
          var hi := RayColor(s.scattered, background, world, depth);
          assert NonNegative(s.attenuation);
          MulMonotoneNonNeg(s.attenuation, lo, hi);
        }
      }
    }
  }
}

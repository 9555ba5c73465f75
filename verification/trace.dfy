/**
 * `World::trace`: the bounded bounce loop that follows one camera ray through
 * the scene, carrying the throughput `color` and the accumulated `incoming_light`.
 * The random draws the source takes from a global generator are an explicit
 * sequence here, one `Draw` per bounce.
 */
module Tracing {
  import opened Options
  import opened Vectors
  import opened Rays
  import opened Materials
  import opened Hittables
  import opened Worlds

  /** `MAX_BOUNCE_COUNT`: the loop runs for at most one more iteration than this. */
  const MaxBounceCount: nat := 10

  /**
   * The random values one bounce consumes: `randomness::vector3()`, a unit
   * vector, and `fastrand::f32()`, a number in [0, 1).
   */
  datatype Draw = Draw(unitVector: Vec3, uniform: real)

  /** The colour the background blends towards white as the ray tilts down to the horizon. */
  const SkyColor := Vec3(0.0, 0.596078431372549, 0.8588235294117647)

  /** The throughput after a miss: halved for a downward ray, otherwise tinted by the sky gradient. */
  function MissThroughput(color: Vec3, direction: Vec3): Vec3 {
    if direction.y < 0.0 then
      color.Scale(0.5)
    else
      color.Mul(SkyColor.Lerp(One, (1.0 - direction.y) * (1.0 - direction.y)))
  }

  /** The mirror direction `d - 2 (d . n) n`. */
  function Reflect(d: Vec3, n: Vec3): Vec3 {
    d.Minus(n.Scale(2.0 * d.Dot(n)))
  }

  /** For a unit normal, mirroring flips the component along the normal, so mirroring twice gives back the direction. */
  lemma ReflectInvolution(d: Vec3, n: Vec3)
    requires n.LengthSquared() == 1.0
    ensures Reflect(d, n).Dot(n) == -d.Dot(n)
    ensures Reflect(Reflect(d, n), n) == d
  {
    var k := d.Dot(n);
    assert Reflect(d, n).Dot(n) == k - 2.0 * k * n.Dot(n);
  }

  /** For a unit normal, mirroring keeps the length of the direction. */
  lemma ReflectPreservesLength(d: Vec3, n: Vec3)
    requires n.LengthSquared() == 1.0
    ensures Reflect(d, n).LengthSquared() == d.LengthSquared()
  {
    var k := d.Dot(n);
    var r := Reflect(d, n);
    assert r == Vec3(d.x - n.x * (2.0 * k), d.y - n.y * (2.0 * k), d.z - n.z * (2.0 * k));
    assert r.LengthSquared() == d.LengthSquared() - 4.0 * k * k + 4.0 * k * k * n.LengthSquared();
  }

  /** The ray and throughput one hit hands to the next iteration, and whether the bounce was specular. */
  datatype Bounce = Bounce(ray: Ray, throughput: Vec3, specular: bool)

  /**
   * One bounce off `hit`: the draw's number decides a specular bounce against the
   * material's probability; the new ray starts at the hit and heads for the diffuse
   * direction, pulled towards the mirror direction by `smoothness` only when
   * specular; the throughput is filtered by the specular or the base colour.
   */
  function Scatter(lib: MathLib, ray: Ray, hit: HitInfo, draw: Draw, color: Vec3): (b: Bounce)
    ensures b.ray.origin == hit.position
    ensures b.specular <==> draw.uniform < hit.material.specularProbability
    ensures !b.specular ==> b.ray.direction == lib.normalize(hit.normal.Plus(draw.unitVector))
    ensures b.specular && hit.material.smoothness == 1.0 ==> b.ray.direction == Reflect(ray.direction, hit.normal)
    ensures b.throughput == color.Mul(if b.specular then hit.material.specularColor else hit.material.color)
  {
    var diffuseDirection := lib.normalize(hit.normal.Plus(draw.unitVector));
    var specularDirection := Reflect(ray.direction, hit.normal);
    var isSpecular := draw.uniform < hit.material.specularProbability;
    var next := Ray(hit.position, diffuseDirection.Lerp(specularDirection, hit.material.smoothness * (if isSpecular then 1.0 else 0.0)));
    Bounce(next, color.Mul(if isSpecular then hit.material.specularColor else hit.material.color), isSpecular)
  }

  /** Enough draws for every iteration the loop can run. */
  predicate EnoughDraws(draws: seq<Draw>) {
    MaxBounceCount < |draws|
  }

  /**
   * The loop from iteration `i` on, with the current ray, throughput and
   * accumulated light; iteration `i` that hits uses `draws[i]`, since every
   * earlier iteration hit as well.
   */
  function TraceFrom(lib: MathLib, world: World, ray: Ray, color: Vec3, incomingLight: Vec3, i: nat,
                     draws: seq<Draw>): (r: Vec3)
    requires i <= MaxBounceCount + 1 && EnoughDraws(draws)
    ensures color.x == 0.0 ==> r.x == incomingLight.x
    ensures color.y == 0.0 ==> r.y == incomingLight.y
    ensures color.z == 0.0 ==> r.z == incomingLight.z
    decreases MaxBounceCount + 1 - i
  {
    if i == MaxBounceCount + 1 || color == Zero then
      incomingLight
    else
      match Worlds.Intersect(lib, world, ray)
      case None =>
        MissKeepsDeadChannels(color, ray.direction);
        incomingLight.Plus(MissThroughput(color, ray.direction))
      case Some(hit) =>
        var bounce := Scatter(lib, ray, hit, draws[i], color);
        HitKeepsDeadChannels(lib, ray, hit, draws[i], color);
        TraceFrom(lib, world, bounce.ray, bounce.throughput,
                  incomingLight.Plus(hit.material.EmittedLight().Mul(color)), i + 1, draws)
  }

  /** A channel with zero throughput gets nothing from the background. */
  lemma MissKeepsDeadChannels(color: Vec3, direction: Vec3)
    ensures color.x == 0.0 ==> MissThroughput(color, direction).x == 0.0
    ensures color.y == 0.0 ==> MissThroughput(color, direction).y == 0.0
    ensures color.z == 0.0 ==> MissThroughput(color, direction).z == 0.0
  {
  }

  /** A channel with zero throughput gets no emission from a hit and keeps zero throughput after the bounce. */
  lemma HitKeepsDeadChannels(lib: MathLib, ray: Ray, hit: HitInfo, draw: Draw, color: Vec3)
    ensures var b, e := Scatter(lib, ray, hit, draw, color), hit.material.EmittedLight().Mul(color);
      && (color.x == 0.0 ==> b.throughput.x == 0.0 && e.x == 0.0)
      && (color.y == 0.0 ==> b.throughput.y == 0.0 && e.y == 0.0)
      && (color.z == 0.0 ==> b.throughput.z == 0.0 && e.z == 0.0)
  {
  }

  /**
   * An iteration that hits adds the surface's emission filtered by the throughput
   * from before the bounce, then continues from the bounce's ray and throughput
   * with the next draw.
   */
  lemma HitStep(lib: MathLib, world: World, ray: Ray, color: Vec3, incomingLight: Vec3, i: nat, draws: seq<Draw>,
                hit: HitInfo)
    requires i <= MaxBounceCount && EnoughDraws(draws)
    requires color != Zero && Worlds.Intersect(lib, world, ray) == Some(hit)
    ensures var bounce := Scatter(lib, ray, hit, draws[i], color);
      TraceFrom(lib, world, ray, color, incomingLight, i, draws)
      == TraceFrom(lib, world, bounce.ray, bounce.throughput, incomingLight.Plus(hit.material.EmittedLight().Mul(color)), i + 1, draws)
  {
  }

  /** An iteration that misses adds the background filtered by the throughput, once, and ends the loop. */
  lemma MissStep(lib: MathLib, world: World, ray: Ray, color: Vec3, incomingLight: Vec3, i: nat, draws: seq<Draw>)
    requires i <= MaxBounceCount && EnoughDraws(draws)
    requires color != Zero && Worlds.Intersect(lib, world, ray).None?
    ensures TraceFrom(lib, world, ray, color, incomingLight, i, draws) == incomingLight.Plus(MissThroughput(color, ray.direction))
  {
  }

  /** The light one camera ray brings back: the loop from its start, throughput one and no light. */
  function Trace(lib: MathLib, world: World, ray: Ray, draws: seq<Draw>): Vec3
    requires EnoughDraws(draws)
  {
    TraceFrom(lib, world, ray, One, Zero, 0, draws)
  }

  /**
   * The loop as the source writes it, counting the scene queries it makes: it
   * computes `Trace` and queries the scene at least once and at most
   * `MaxBounceCount + 1` times.
   */
  method TraceLoop(lib: MathLib, world: World, start: Ray, draws: seq<Draw>) returns (incomingLight: Vec3, queries: nat)
    requires EnoughDraws(draws)
    ensures 1 <= queries <= MaxBounceCount + 1
    ensures incomingLight == Trace(lib, world, start, draws)
  {
    var ray := start;
    var color := One;
    incomingLight := Zero;
    queries := 0;
    ghost var target := Trace(lib, world, start, draws);
    for i := 0 to MaxBounceCount + 1
      invariant queries <= i
      invariant i == 0 ==> color == One
      invariant 0 < i ==> 1 <= queries
      invariant TraceFrom(lib, world, ray, color, incomingLight, i, draws) == target
    {
      assert i == 0 ==> color != Zero;
      var queried, stop;
      ray, color, incomingLight, queried, stop := Iteration(lib, world, ray, color, incomingLight, i, draws);
      if queried {
        queries := queries + 1;
      } else {
        assert i != 0;
      }
      if stop {
        assert incomingLight == target;
        break;
      }
    }
    StopStep(lib, world, ray, color, incomingLight, MaxBounceCount + 1, draws);
  }

  /**
   * One pass of the loop body: it queries the scene exactly when the throughput
   * is not zero, and stops on a zero throughput or a miss with the final light;
   * otherwise the rest of the loop from the new state gives what the rest of the
   * loop from the old state gives.
   */
  method Iteration(lib: MathLib, world: World, ray: Ray, color: Vec3, incomingLight: Vec3, i: nat, draws: seq<Draw>)
    returns (nextRay: Ray, nextColor: Vec3, nextLight: Vec3, queried: bool, stop: bool)
    requires i <= MaxBounceCount && EnoughDraws(draws)
    ensures queried <==> color != Zero
    ensures stop ==> nextLight == TraceFrom(lib, world, ray, color, incomingLight, i, draws)
    ensures !stop ==> TraceFrom(lib, world, nextRay, nextColor, nextLight, i + 1, draws)
                      == TraceFrom(lib, world, ray, color, incomingLight, i, draws)
  {
    if color != Zero {
      var closest := Worlds.Intersect(lib, world, ray);
      queried := true;
      if closest.Some? {
        var hit := closest.value;
        HitStep(lib, world, ray, color, incomingLight, i, draws, hit);
        var bounce := Scatter(lib, ray, hit, draws[i], color);
        nextLight := incomingLight.Plus(hit.material.EmittedLight().Mul(color));
        nextRay, nextColor, stop := bounce.ray, bounce.throughput, false;
      } else {
        MissStep(lib, world, ray, color, incomingLight, i, draws);
        nextColor := MissThroughput(color, ray.direction);
        nextLight := incomingLight.Plus(nextColor);
        nextRay, stop := ray, true;
      }
    } else {
      StopStep(lib, world, ray, color, incomingLight, i, draws);
      nextRay, nextColor, nextLight, queried, stop := ray, color, incomingLight, false, true;
    }
  }

  /** The loop adds nothing once the throughput is zero or the bounces are used up. */
  lemma StopStep(lib: MathLib, world: World, ray: Ray, color: Vec3, incomingLight: Vec3, i: nat, draws: seq<Draw>)
    requires i <= MaxBounceCount + 1 && EnoughDraws(draws)
    requires i == MaxBounceCount + 1 || color == Zero
    ensures TraceFrom(lib, world, ray, color, incomingLight, i, draws) == incomingLight
  {
  }

  // ------------------------------------------------------------ properties

  /** Every primitive's material is non-negative. */
  ghost predicate NonNegativeScene(world: World) {
    forall i :: 0 <= i < |world.objects| ==> world.objects[i].material.NonNegative()
  }

  lemma ProductNonNegative(a: real, b: real)
    requires 0.0 <= a && 0.0 <= b
    ensures 0.0 <= a * b
  {
  }

  lemma MulNonNegative(u: Vec3, v: Vec3)
    requires u.NonNegative() && v.NonNegative()
    ensures u.Mul(v).NonNegative()
  {
    ProductNonNegative(u.x, v.x);
    ProductNonNegative(u.y, v.y);
    ProductNonNegative(u.z, v.z);
  }

  /** The background never makes a non-negative throughput negative, whatever the direction: the sky blend factor is a square. */
  lemma MissKeepsNonNegative(color: Vec3, direction: Vec3)
    requires color.NonNegative()
    ensures MissThroughput(color, direction).NonNegative()
  {
    if 0.0 <= direction.y {
      var f := (1.0 - direction.y) * (1.0 - direction.y);
      SquareNonNegative(1.0 - direction.y);
      var sky := SkyColor.Lerp(One, f);
      assert sky == Vec3(f, 0.596078431372549 + 0.403921568627451 * f, 0.8588235294117647 + 0.1411764705882353 * f);
      MulNonNegative(color, sky);
    }
  }

  /** With non-negative materials, the hit the scene reports has a non-negative material: it is one of the scene's. */
  lemma HitMaterialNonNegative(lib: MathLib, world: World, ray: Ray)
    requires NonNegativeScene(world) && Worlds.Intersect(lib, world, ray).Some?
    ensures Worlds.Intersect(lib, world, ray).value.material.NonNegative()
  {
    var k :| IsNearest(lib, world.objects, ray, |world.objects|, k)
          && Hittables.Intersect(lib, world.objects[k], ray) == Worlds.Intersect(lib, world, ray);
    assert world.objects[k].material.NonNegative();
  }

  /** A bounce off a non-negative material keeps the throughput and the gathered light non-negative. */
  lemma HitKeepsNonNegative(lib: MathLib, ray: Ray, hit: HitInfo, draw: Draw, color: Vec3, incomingLight: Vec3)
    requires hit.material.NonNegative() && color.NonNegative() && incomingLight.NonNegative()
    ensures Scatter(lib, ray, hit, draw, color).throughput.NonNegative()
    ensures incomingLight.Plus(hit.material.EmittedLight().Mul(color)).NonNegative()
  {
    var m := hit.material;
    MulNonNegative(color, m.specularColor);
    MulNonNegative(color, m.color);
    ProductNonNegative(m.emissionColor.x, m.emissionStrength);
    ProductNonNegative(m.emissionColor.y, m.emissionStrength);
    ProductNonNegative(m.emissionColor.z, m.emissionStrength);
    MulNonNegative(m.EmittedLight(), color);
  }

  /** With non-negative materials, throughput and light, the loop's result is non-negative in every component. */
  lemma {:induction false} TraceFromNonNegative(lib: MathLib, world: World, ray: Ray, color: Vec3, incomingLight: Vec3,
                                                i: nat, draws: seq<Draw>)
    requires i <= MaxBounceCount + 1 && EnoughDraws(draws)
    requires NonNegativeScene(world) && color.NonNegative() && incomingLight.NonNegative()
    ensures TraceFrom(lib, world, ray, color, incomingLight, i, draws).NonNegative()
    decreases MaxBounceCount + 1 - i
  {
    if i == MaxBounceCount + 1 || color == Zero {
    } else {
      match Worlds.Intersect(lib, world, ray)
      case None =>
        MissStep(lib, world, ray, color, incomingLight, i, draws);
        MissKeepsNonNegative(color, ray.direction);
      case Some(hit) =>
        HitStep(lib, world, ray, color, incomingLight, i, draws, hit);
        HitMaterialNonNegative(lib, world, ray);
        HitKeepsNonNegative(lib, ray, hit, draws[i], color, incomingLight);
        var bounce := Scatter(lib, ray, hit, draws[i], color);
        TraceFromNonNegative(lib, world, bounce.ray, bounce.throughput,
                             incomingLight.Plus(hit.material.EmittedLight().Mul(color)), i + 1, draws);
    }
  }

  /** A scene of non-negative materials returns non-negative light for every ray and every sequence of draws. */
  lemma TraceNonNegative(lib: MathLib, world: World, ray: Ray, draws: seq<Draw>)
    requires EnoughDraws(draws) && NonNegativeScene(world)
    ensures Trace(lib, world, ray, draws).NonNegative()
  {
    TraceFromNonNegative(lib, world, ray, One, Zero, 0, draws);
  }

  /** The background filters each channel independently, so it commutes with scaling the throughput channel by channel. */
  lemma MissLinear(s: Vec3, color: Vec3, direction: Vec3)
    ensures MissThroughput(s.Mul(color), direction) == s.Mul(MissThroughput(color, direction))
  {
  }

  /** A bounce's ray does not depend on the throughput, and its new throughput scales with it. */
  lemma ScatterLinear(lib: MathLib, ray: Ray, hit: HitInfo, draw: Draw, s: Vec3, color: Vec3)
    ensures Scatter(lib, ray, hit, draw, s.Mul(color)).ray == Scatter(lib, ray, hit, draw, color).ray
    ensures Scatter(lib, ray, hit, draw, s.Mul(color)).throughput == s.Mul(Scatter(lib, ray, hit, draw, color).throughput)
  {
  }

  /** If `s * color` is zero in every channel, `s` vanishes wherever `color` does not. */
  lemma ScaledAway(s: Vec3, color: Vec3, t: Vec3)
    requires s.Mul(color) == Zero
    requires color.x == 0.0 ==> t.x == 0.0
    requires color.y == 0.0 ==> t.y == 0.0
    requires color.z == 0.0 ==> t.z == 0.0
    ensures s.Mul(t) == Zero
  {
    assert s.x * color.x == 0.0 && s.y * color.y == 0.0 && s.z * color.z == 0.0;
  }

  /** Regrouping the light one hit adds when the throughput is scaled by `s`. */
  lemma Regroup(light: Vec3, e: Vec3, s: Vec3, color: Vec3, rest: Vec3)
    ensures light.Plus(e.Mul(s.Mul(color))).Plus(s.Mul(rest)) == light.Plus(s.Mul(Zero.Plus(e.Mul(color)).Plus(rest)))
  {
  }

  /**
   * The loop is linear in the throughput it starts with: scaling the throughput
   * channel by channel by `s` scales the light the loop adds by `s`, and the
   * light gathered before is only added to, never altered.
   */
  lemma {:induction false} TraceFromLinear(lib: MathLib, world: World, ray: Ray, s: Vec3, color: Vec3, incomingLight: Vec3,
                                           i: nat, draws: seq<Draw>)
    requires i <= MaxBounceCount + 1 && EnoughDraws(draws)
    ensures TraceFrom(lib, world, ray, s.Mul(color), incomingLight, i, draws)
         == incomingLight.Plus(s.Mul(TraceFrom(lib, world, ray, color, Zero, i, draws)))
    decreases MaxBounceCount + 1 - i, 2
  {
    var scaled := s.Mul(color);
    if i == MaxBounceCount + 1 || color == Zero {
      assert s.Mul(Zero) == Zero;
    } else if scaled == Zero {
      ScaledAway(s, color, TraceFrom(lib, world, ray, color, Zero, i, draws));
    } else {
      match Worlds.Intersect(lib, world, ray)
      case None =>
        MissStep(lib, world, ray, scaled, incomingLight, i, draws);
        MissStep(lib, world, ray, color, Zero, i, draws);
        MissLinear(s, color, ray.direction);
      case Some(hit) =>
        TraceFromLinearHit(lib, world, ray, s, color, incomingLight, i, draws, hit);
    }
  }

  /** The case of `TraceFromLinear` where both loops hit `hit` and bounce. */
  lemma {:induction false} TraceFromLinearHit(lib: MathLib, world: World, ray: Ray, s: Vec3, color: Vec3,
                                              incomingLight: Vec3, i: nat, draws: seq<Draw>, hit: HitInfo)
    requires i <= MaxBounceCount && EnoughDraws(draws)
    requires color != Zero && s.Mul(color) != Zero && Worlds.Intersect(lib, world, ray) == Some(hit)
    ensures TraceFrom(lib, world, ray, s.Mul(color), incomingLight, i, draws)
         == incomingLight.Plus(s.Mul(TraceFrom(lib, world, ray, color, Zero, i, draws)))
    decreases MaxBounceCount + 1 - i, 1
  {
    var bounce := Scatter(lib, ray, hit, draws[i], color);
    var e := hit.material.EmittedLight();
    var rest := TraceFrom(lib, world, bounce.ray, bounce.throughput, Zero, i + 1, draws);
    assert TraceFrom(lib, world, ray, s.Mul(color), incomingLight, i, draws)
        == incomingLight.Plus(e.Mul(s.Mul(color))).Plus(s.Mul(rest)) by {
      ScaledHit(lib, world, ray, s, color, incomingLight, i, draws, hit);
    }
    assert TraceFrom(lib, world, ray, color, Zero, i, draws) == Zero.Plus(e.Mul(color)).Plus(rest) by {
      UnscaledHit(lib, world, ray, color, i, draws, hit);
    }
    Regroup(incomingLight, e, s, color, rest);
  }

  /** The scaled loop after one hit, with the rest of the path unfolded by `TraceFromLinear`. */
  lemma {:induction false} ScaledHit(lib: MathLib, world: World, ray: Ray, s: Vec3, color: Vec3,
                                     incomingLight: Vec3, i: nat, draws: seq<Draw>, hit: HitInfo)
    requires i <= MaxBounceCount && EnoughDraws(draws)
    requires color != Zero && s.Mul(color) != Zero && Worlds.Intersect(lib, world, ray) == Some(hit)
    ensures var bounce := Scatter(lib, ray, hit, draws[i], color);
      TraceFrom(lib, world, ray, s.Mul(color), incomingLight, i, draws)
      == incomingLight.Plus(hit.material.EmittedLight().Mul(s.Mul(color)))
           .Plus(s.Mul(TraceFrom(lib, world, bounce.ray, bounce.throughput, Zero, i + 1, draws)))
    decreases MaxBounceCount + 1 - i, 0
  {
    var bounce := Scatter(lib, ray, hit, draws[i], color);
    var light := incomingLight.Plus(hit.material.EmittedLight().Mul(s.Mul(color)));
    HitStep(lib, world, ray, s.Mul(color), incomingLight, i, draws, hit);
    ScatterLinear(lib, ray, hit, draws[i], s, color);
    TraceFromLinear(lib, world, bounce.ray, s, bounce.throughput, light, i + 1, draws);
  }

  /** The unscaled loop after one hit, with the light gathered so far split off. */
  lemma UnscaledHit(lib: MathLib, world: World, ray: Ray, color: Vec3, i: nat, draws: seq<Draw>, hit: HitInfo)
    requires i <= MaxBounceCount && EnoughDraws(draws)
    requires color != Zero && Worlds.Intersect(lib, world, ray) == Some(hit)
    ensures var bounce := Scatter(lib, ray, hit, draws[i], color);
      TraceFrom(lib, world, ray, color, Zero, i, draws)
      == Zero.Plus(hit.material.EmittedLight().Mul(color))
           .Plus(TraceFrom(lib, world, bounce.ray, bounce.throughput, Zero, i + 1, draws))
  {
    var bounce := Scatter(lib, ray, hit, draws[i], color);
    HitStep(lib, world, ray, color, Zero, i, draws, hit);
    TraceFromAddsLight(lib, world, bounce.ray, bounce.throughput, Zero.Plus(hit.material.EmittedLight().Mul(color)), i + 1, draws);
  }

  /**
   * The loop only adds to the light it is handed: starting with `incomingLight`
   * gives `incomingLight` plus what starting from no light gives.
   */
  lemma {:induction false} TraceFromAddsLight(lib: MathLib, world: World, ray: Ray, color: Vec3, incomingLight: Vec3,
                                              i: nat, draws: seq<Draw>)
    requires i <= MaxBounceCount + 1 && EnoughDraws(draws)
    ensures TraceFrom(lib, world, ray, color, incomingLight, i, draws)
         == incomingLight.Plus(TraceFrom(lib, world, ray, color, Zero, i, draws))
    decreases MaxBounceCount + 1 - i, 1
  {
    if i == MaxBounceCount + 1 || color == Zero {
    } else {
      match Worlds.Intersect(lib, world, ray)
      case None =>
        MissStep(lib, world, ray, color, incomingLight, i, draws);
        MissStep(lib, world, ray, color, Zero, i, draws);
      case Some(hit) =>
        AddsLightHit(lib, world, ray, color, incomingLight, i, draws, hit);
    }
  }

  /** The case of `TraceFromAddsLight` where the ray hits `hit` and bounces. */
  lemma {:induction false} AddsLightHit(lib: MathLib, world: World, ray: Ray, color: Vec3, incomingLight: Vec3,
                                        i: nat, draws: seq<Draw>, hit: HitInfo)
    requires i <= MaxBounceCount && EnoughDraws(draws)
    requires color != Zero && Worlds.Intersect(lib, world, ray) == Some(hit)
    ensures TraceFrom(lib, world, ray, color, incomingLight, i, draws)
         == incomingLight.Plus(TraceFrom(lib, world, ray, color, Zero, i, draws))
    decreases MaxBounceCount + 1 - i, 0
  {
    var bounce := Scatter(lib, ray, hit, draws[i], color);
    var e := hit.material.EmittedLight().Mul(color);
    var rest := TraceFrom(lib, world, bounce.ray, bounce.throughput, Zero, i + 1, draws);
    assert TraceFrom(lib, world, ray, color, incomingLight, i, draws) == incomingLight.Plus(e).Plus(rest) by {
      HitStep(lib, world, ray, color, incomingLight, i, draws, hit);
      TraceFromAddsLight(lib, world, bounce.ray, bounce.throughput, incomingLight.Plus(e), i + 1, draws);
    }
    assert TraceFrom(lib, world, ray, color, Zero, i, draws) == Zero.Plus(e).Plus(rest) by {
      HitStep(lib, world, ray, color, Zero, i, draws, hit);
      TraceFromAddsLight(lib, world, bounce.ray, bounce.throughput, Zero.Plus(e), i + 1, draws);
    }
    Associate(incomingLight, e, rest);
  }

  lemma Associate(light: Vec3, e: Vec3, rest: Vec3)
    ensures light.Plus(e).Plus(rest) == light.Plus(Zero.Plus(e).Plus(rest))
  {
  }

  /**
   * The light a ray brings back, with the throughput scaled channel by channel by
   * `s` from the start, is `s` times the light it brings back unscaled.
   */
  lemma TraceLinear(lib: MathLib, world: World, ray: Ray, s: Vec3, draws: seq<Draw>)
    requires EnoughDraws(draws)
    ensures TraceFrom(lib, world, ray, s, Zero, 0, draws) == s.Mul(Trace(lib, world, ray, draws))
  {
    TraceFromLinear(lib, world, ray, s, One, Zero, 0, draws);
    assert s.Mul(One) == s;
    assert Zero.Plus(s.Mul(Trace(lib, world, ray, draws))) == s.Mul(Trace(lib, world, ray, draws));
  }

  /**
   * A camera ray that meets no primitive sees only the background: the sky
   * gradient, or a flat half grey when it points downward.
   */
  lemma MissedRaySeesBackground(lib: MathLib, world: World, ray: Ray, draws: seq<Draw>)
    requires EnoughDraws(draws)
    requires forall k :: 0 <= k < |world.objects| ==> Hittables.Intersect(lib, world.objects[k], ray).None?
    ensures Trace(lib, world, ray, draws) == MissThroughput(One, ray.direction)
    ensures ray.direction.y < 0.0 ==> Trace(lib, world, ray, draws) == Vec3(0.5, 0.5, 0.5)
  {
    MissStep(lib, world, ray, One, Zero, 0, draws);
    assert Zero.Plus(MissThroughput(One, ray.direction)) == MissThroughput(One, ray.direction);
  }
}

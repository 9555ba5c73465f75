/**
 * The two primitives the scene is built from and their hit tests: a sphere,
 * intersected by solving a quadratic for the nearer root, and a single-sided
 * triangle, intersected with the Möller–Trumbore construction.
 */
module Hittables {
  import opened Options
  import opened Vectors
  import opened Rays
  import opened Materials

  /** `f32::EPSILON`, 2^-23: the smallest determinant a triangle accepts. */
  const Epsilon: real := 0.00000011920928955078125

  /** What a hit test reports: how far along the ray, where, the shading normal and the surface's material. */
  datatype HitInfo = HitInfo(distance: real, position: Vec3, normal: Vec3, material: Material)

  datatype HittableType =
    | Sphere(position: Vec3, radius: real)
    | Triangle(a: Vec3, b: Vec3, c: Vec3, na: Vec3, nb: Vec3, nc: Vec3)

  datatype Hittable = Hittable(typ: HittableType, material: Material)

  /** Both branches of the hit test: whatever is hit lies ahead on the ray and carries the primitive's own material. */
  function Intersect(lib: MathLib, h: Hittable, ray: Ray): (r: Option<HitInfo>)
    ensures r.Some? ==> 0.0 <= r.value.distance && r.value.position == ray.Follow(r.value.distance)
    ensures r.Some? ==> r.value.material == h.material
  {
    match h.typ
    case Sphere(position, radius) => SphereHit(lib, position, radius, h.material, ray)
    case Triangle(a, b, c, na, nb, nc) => TriangleHit(lib, a, b, c, na, nb, nc, h.material, ray)
  }

  // ---------------------------------------------------------------- sphere

  /**
   * With the sphere moved to the origin, the squared distance from the sphere's
   * center of the point `t` along the ray, less the squared radius, is
   * `a t^2 + b t + c` with `a = |direction|^2`, `b = SphereB` and `c = SphereC`.
   */
  function SphereB(center: Vec3, ray: Ray): real {
    2.0 * ray.origin.Minus(center).Dot(ray.direction)
  }

  function SphereC(center: Vec3, radius: real, ray: Ray): real {
    var offset := ray.origin.Minus(center);
    offset.Dot(offset) - radius * radius
  }

  /**
   * The nearer root `(-b - sqrt(d)) / 2a` of `a t^2 + b t + c` with `d = b^2 - 4ac`,
   * when `d` is not negative and the root is not behind the origin. The hit test
   * fixes `a` to 1, taking the direction to have unit length.
   */
  function NearRoot(lib: MathLib, b: real, c: real): (r: Option<real>)
    ensures b * b - 4.0 * c < 0.0 ==> r.None?
    ensures r.Some? ==> 0.0 <= r.value
  {
    var a := 1.0;
    var d := b * b - 4.0 * a * c;
    if d >= 0.0 then
      var distance := (-b - lib.sqrt(d)) / (2.0 * a);
      if distance >= 0.0 then Some(distance) else None
    else
      None
  }

  /** The sphere test: the point at the near root, with the normal pointing away from the center. */
  function SphereHit(lib: MathLib, center: Vec3, radius: real, material: Material, ray: Ray): (r: Option<HitInfo>)
    ensures SphereB(center, ray) * SphereB(center, ray) - 4.0 * SphereC(center, radius, ray) < 0.0 ==> r.None?
    ensures r.Some? ==> 0.0 <= r.value.distance && r.value.position == ray.Follow(r.value.distance)
    ensures r.Some? ==> r.value.normal == lib.normalize(r.value.position.Minus(center))
    ensures r.Some? ==> r.value.material == material
  {
    match NearRoot(lib, SphereB(center, ray), SphereC(center, radius, ray))
    case None => None
    case Some(distance) =>
      var hitPosition := ray.Follow(distance);
      Some(HitInfo(distance, hitPosition, lib.normalize(hitPosition.Minus(center)), material))
  }

  /** The point `t` along the ray, measured against the sphere, is the quadratic of `SphereB` and `SphereC`. */
  lemma AlongRay(center: Vec3, radius: real, ray: Ray, t: real)
    ensures ray.Follow(t).Minus(center).LengthSquared() - radius * radius
         == t * t * ray.direction.LengthSquared() + SphereB(center, ray) * t + SphereC(center, radius, ray)
  {
    var o, d := ray.origin.Minus(center), ray.direction;
    assert ray.Follow(t).Minus(center) == Vec3(o.x + t * d.x, o.y + t * d.y, o.z + t * d.z);
  }

  /** A monic quadratic with negative discriminant is positive everywhere. */
  lemma QuadraticPositive(t: real, b: real, c: real)
    requires b * b - 4.0 * c < 0.0
    ensures 0.0 < t * t + b * t + c
  {
    assert 4.0 * (t * t + b * t + c) == (2.0 * t + b) * (2.0 * t + b) - (b * b - 4.0 * c);
    SquareNonNegative(2.0 * t + b);
  }

  /** A negative discriminant means the line of a unit-direction ray stays outside the sphere, and no hit is reported. */
  lemma NegativeDiscriminantMisses(lib: MathLib, center: Vec3, radius: real, material: Material, ray: Ray)
    requires ray.direction.LengthSquared() == 1.0
    requires SphereB(center, ray) * SphereB(center, ray) - 4.0 * SphereC(center, radius, ray) < 0.0
    ensures SphereHit(lib, center, radius, material, ray).None?
    ensures forall t: real :: radius * radius < ray.Follow(t).Minus(center).LengthSquared()
  {
    forall t: real
      ensures radius * radius < ray.Follow(t).Minus(center).LengthSquared()
    {
      AlongRay(center, radius, ray, t);
      QuadraticPositive(t, SphereB(center, ray), SphereC(center, radius, ray));
    }
  }

  /** With an exact square root, the near root is a root, and for `c < 0` (origin inside) there is none ahead. */
  lemma NearRootProperties(lib: MathLib, b: real, c: real)
    requires ExactSqrt(lib)
    ensures NearRoot(lib, b, c).Some? ==> var t := NearRoot(lib, b, c).value; t * t + b * t + c == 0.0
    ensures c < 0.0 ==> NearRoot(lib, b, c).None?
  {
    var d := b * b - 4.0 * 1.0 * c;
    if 0.0 <= d {
      var s := lib.sqrt(d);
      assert 0.0 <= s && s * s == d;
      var t := (-b - s) / (2.0 * 1.0);
      assert 4.0 * (t * t + b * t + c) == (b + s) * (b + s) - 2.0 * b * (b + s) + 4.0 * c == 0.0;
      if c < 0.0 {
        RootDominates(s, b);
      }
    }
  }

  /** If a non-negative `s` has a square above `b^2`, it exceeds `|b|`. */
  lemma RootDominates(s: real, b: real)
    requires 0.0 <= s && b * b < s * s
    ensures -b < s && b < s
  {
  }

  /** A ray starting strictly inside the sphere reports no hit: the nearer root is behind its origin. */
  lemma InsideOriginMisses(lib: MathLib, center: Vec3, radius: real, material: Material, ray: Ray)
    requires ExactSqrt(lib)
    requires ray.origin.Minus(center).LengthSquared() < radius * radius
    ensures SphereHit(lib, center, radius, material, ray).None?
  {
    NearRootProperties(lib, SphereB(center, ray), SphereC(center, radius, ray));
  }

  /** For a unit direction and an exact square root, a reported hit lies exactly on the sphere. */
  lemma SphereHitOnSurface(lib: MathLib, center: Vec3, radius: real, material: Material, ray: Ray)
    requires ExactSqrt(lib)
    requires ray.direction.LengthSquared() == 1.0
    requires SphereHit(lib, center, radius, material, ray).Some?
    ensures SphereHit(lib, center, radius, material, ray).value.position.Minus(center).LengthSquared() == radius * radius
  {
    var b, c := SphereB(center, ray), SphereC(center, radius, ray);
    NearRootProperties(lib, b, c);
    AlongRay(center, radius, ray, NearRoot(lib, b, c).value);
  }

  /** Two non-negative numbers with equal squares are equal. */
  lemma SquareInjective(s: real, q: real)
    requires 0.0 <= s && 0.0 <= q && s * s == q * q
    ensures s == q
  {
    assert (s - q) * (s + q) == s * s - q * q;
    if s + q != 0.0 {
      ZeroFactor(s - q, s + q);
    }
  }

  lemma ZeroFactor(a: real, b: real)
    requires a * b == 0.0 && b != 0.0
    ensures a == 0.0
  {
    assert a == (a * b) / b;
  }

  /** With `b = -2L` and `c = L^2 - r^2` for `0 < r <= L`, the near root is `L - r`. */
  lemma NearRootHeadOn(lib: MathLib, dist: real, radius: real)
    requires ExactSqrt(lib)
    requires 0.0 < radius <= dist
    ensures NearRoot(lib, -2.0 * dist, dist * dist - radius * radius) == Some(dist - radius)
  {
    var b, c := -2.0 * dist, dist * dist - radius * radius;
    var d := b * b - 4.0 * 1.0 * c;
    assert d == (2.0 * radius) * (2.0 * radius);
    SquareNonNegative(2.0 * radius);
    var s := lib.sqrt(d);
    assert 0.0 <= s && s * s == d;
    SquareInjective(s, 2.0 * radius);
    assert (-b - s) / (2.0 * 1.0) == dist - radius;
    assert 0.0 <= d;
    assert NearRoot(lib, b, c).Some?;
    assert NearRoot(lib, b, c).value == dist - radius;
  }

  /**
   * A ray from `dist` away aimed straight at the center of a sphere it starts
   * outside of hits the near surface, `dist - radius` along the ray.
   */
  lemma HeadOnHit(lib: MathLib, center: Vec3, radius: real, material: Material, ray: Ray, dist: real)
    requires ExactSqrt(lib)
    requires 0.0 < radius <= dist
    requires dist * dist == ray.origin.Minus(center).LengthSquared()
    requires ray.direction == center.Minus(ray.origin).Scale(1.0 / dist)
    ensures SphereHit(lib, center, radius, material, ray).Some?
    ensures SphereHit(lib, center, radius, material, ray).value.distance == dist - radius
  {
    var o := ray.origin.Minus(center);
    assert ray.direction == o.Scale(-1.0 / dist);
    assert o.Dot(ray.direction) == -(o.Dot(o)) / dist == -dist;
    assert SphereB(center, ray) == -2.0 * dist;
    assert SphereC(center, radius, ray) == dist * dist - radius * radius;
    NearRootHeadOn(lib, dist, radius);
  }

  /**
   * With an exact square root, the monic quadratic factors through its two roots
   * `t0 = (-b - s) / 2 <= t1 = (-b + s) / 2`, where `s = sqrt(b^2 - 4c)`.
   */
  lemma Factored(lib: MathLib, b: real, c: real, t: real)
    requires ExactSqrt(lib) && 0.0 <= b * b - 4.0 * c
    ensures var s := lib.sqrt(b * b - 4.0 * c);
      && 0.0 <= s
      && t * t + b * t + c == (t - (-b - s) / 2.0) * (t - (-b + s) / 2.0)
  {
    var s := lib.sqrt(b * b - 4.0 * c);
    assert 0.0 <= s && s * s == b * b - 4.0 * c;
    assert (t - (-b - s) / 2.0) * (t - (-b + s) / 2.0) == t * t + b * t + (b * b - s * s) / 4.0;
  }

  /** Before the near root, and not behind the origin, the quadratic is positive. */
  lemma NearRootFirst(lib: MathLib, b: real, c: real, t: real)
    requires ExactSqrt(lib)
    requires NearRoot(lib, b, c).Some? && 0.0 <= t < NearRoot(lib, b, c).value
    ensures 0.0 < t * t + b * t + c
  {
    var d := b * b - 4.0 * 1.0 * c;
    assert 0.0 <= d && d == b * b - 4.0 * c;
    var s := lib.sqrt(d);
    Factored(lib, b, c, t);
    var t0, t1 := (-b - s) / 2.0, (-b + s) / 2.0;
    assert NearRoot(lib, b, c).value == t0 <= t1;
    var x, y := t - t0, t - t1;
    assert x < 0.0 && y < 0.0;
    NegativeProduct(x, y);
    assert 0.0 < x * y;
    assert t * t + b * t + c == x * y;
  }

  lemma NegativeProduct(x: real, y: real)
    requires x < 0.0 && y < 0.0
    ensures 0.0 < x * y
  {
    assert x * y == (-x) * (-y);
  }

  /**
   * When `c > 0` (origin outside), a root `t >= 0` of the quadratic means the
   * near root exists and comes no later than `t`.
   */
  lemma NearRootComplete(lib: MathLib, b: real, c: real, t: real)
    requires ExactSqrt(lib)
    requires 0.0 < c && 0.0 <= t && t * t + b * t + c == 0.0
    ensures NearRoot(lib, b, c).Some? && NearRoot(lib, b, c).value <= t
  {
    assert b * b - 4.0 * c == (2.0 * t + b) * (2.0 * t + b);
    SquareNonNegative(2.0 * t + b);
    var s := lib.sqrt(b * b - 4.0 * c);
    Factored(lib, b, c, t);
    var t0, t1 := (-b - s) / 2.0, (-b + s) / 2.0;
    assert t0 <= t1;
    assert (t - t0) * (t - t1) == 0.0;
    assert t0 * t1 == c by {
      assert t0 * t1 == (b * b - s * s) / 4.0;
    }
    RootsPositive(t0, t1, c, t);
    assert NearRoot(lib, b, c) == Some(t0);
  }

  /**
   * If `t >= 0` is one of two ordered roots whose product is positive, the
   * smaller root is positive and comes no later than `t`.
   */
  lemma RootsPositive(t0: real, t1: real, c: real, t: real)
    requires t0 <= t1 && 0.0 < c && t0 * t1 == c
    requires 0.0 <= t && (t - t0) * (t - t1) == 0.0
    ensures 0.0 < t0 <= t
  {
    if t - t0 != 0.0 {
      ZeroFactor(t - t1, t - t0);
      PositiveFactor(t0, t1);
    }
  }

  /** A factor of a positive product whose other factor is positive is positive. */
  lemma PositiveFactor(x: real, y: real)
    requires 0.0 < x * y && 0.0 <= y
    ensures 0.0 < x
  {
  }

  /**
   * First contact: for a unit direction and an exact square root, no point of
   * the ray from the origin up to the reported distance is inside or on the
   * sphere; the reported hit is the first one.
   */
  lemma SphereHitIsFirst(lib: MathLib, center: Vec3, radius: real, material: Material, ray: Ray, t: real)
    requires ExactSqrt(lib)
    requires ray.direction.LengthSquared() == 1.0
    requires SphereHit(lib, center, radius, material, ray).Some?
    requires 0.0 <= t < SphereHit(lib, center, radius, material, ray).value.distance
    ensures radius * radius < ray.Follow(t).Minus(center).LengthSquared()
  {
    var b, c := SphereB(center, ray), SphereC(center, radius, ray);
    NearRootFirst(lib, b, c, t);
    AlongRay(center, radius, ray, t);
  }

  /**
   * Completeness: a unit ray whose origin is outside the sphere and that reaches
   * the sphere's surface at some `t >= 0` is reported hit, no later than `t`.
   */
  lemma SphereHitComplete(lib: MathLib, center: Vec3, radius: real, material: Material, ray: Ray, t: real)
    requires ExactSqrt(lib)
    requires ray.direction.LengthSquared() == 1.0
    requires radius * radius < ray.origin.Minus(center).LengthSquared()
    requires 0.0 <= t && ray.Follow(t).Minus(center).LengthSquared() == radius * radius
    ensures SphereHit(lib, center, radius, material, ray).Some?
    ensures SphereHit(lib, center, radius, material, ray).value.distance <= t
  {
    var b, c := SphereB(center, ray), SphereC(center, radius, ray);
    AlongRay(center, radius, ray, t);
    NearRootComplete(lib, b, c, t);
  }

  // -------------------------------------------------------------- triangle

  /**
   * `-direction . (ab x ac)`: positive exactly when the ray meets the face whose
   * vertices `a`, `b`, `c` it sees counter-clockwise, zero for a ray parallel to
   * the plane.
   */
  function Determinant(a: Vec3, b: Vec3, c: Vec3, ray: Ray): real {
    -ray.direction.Dot(b.Minus(a).Cross(c.Minus(a)))
  }

  /** The distance along the ray and the barycentric weights of `b` (`u`), `c` (`v`) and `a` (`w`). */
  datatype Barycentric = Barycentric(distance: real, u: real, v: real, w: real)

  /** Möller–Trumbore's ratios, each a triple product over the determinant. */
  function Solve(a: Vec3, b: Vec3, c: Vec3, ray: Ray): Barycentric
    requires Determinant(a, b, c, ray) != 0.0
  {
    var edgeAB := b.Minus(a);
    var edgeAC := c.Minus(a);
    var normalVector := edgeAB.Cross(edgeAC);
    var ao := ray.origin.Minus(a);
    var dao := ao.Cross(ray.direction);
    var inverseDeterminant := 1.0 / Determinant(a, b, c, ray);
    var u := edgeAC.Dot(dao) * inverseDeterminant;
    var v := -edgeAB.Dot(dao) * inverseDeterminant;
    Barycentric(ao.Dot(normalVector) * inverseDeterminant, u, v, 1.0 - u - v)
  }

  /** The point `w a + u b + v c`. */
  function Combine(a: Vec3, b: Vec3, c: Vec3, u: real, v: real, w: real): Vec3 {
    a.Scale(w).Plus(b.Scale(u)).Plus(c.Scale(v))
  }

  /**
   * The triangle test: front-facing and not grazing (determinant at least
   * `Epsilon`), ahead of the origin and inside the triangle (all three weights
   * non-negative). The normal interpolates the vertex normals by the weights.
   */
  function TriangleHit(lib: MathLib, a: Vec3, b: Vec3, c: Vec3, na: Vec3, nb: Vec3, nc: Vec3,
                       material: Material, ray: Ray): (r: Option<HitInfo>)
    ensures Determinant(a, b, c, ray) < Epsilon ==> r.None?
    ensures r.Some? ==>
      var s := Solve(a, b, c, ray);
      && 0.0 <= s.u && 0.0 <= s.v && 0.0 <= s.w && s.u + s.v + s.w == 1.0
      && 0.0 <= r.value.distance == s.distance
      && r.value.position == ray.Follow(r.value.distance)
      && r.value.normal == lib.normalize(Combine(na, nb, nc, s.u, s.v, s.w))
      && r.value.material == material
  {
    var determinant := Determinant(a, b, c, ray);
    if determinant >= Epsilon then
      var s := Solve(a, b, c, ray);
      if s.distance >= 0.0 && s.u >= 0.0 && s.v >= 0.0 && s.w >= 0.0 then
        Some(HitInfo(s.distance, ray.Follow(s.distance), lib.normalize(Combine(na, nb, nc, s.u, s.v, s.w)), material))
      else
        None
    else
      None
  }

  /** `x / D` recovers `k` from `x == k * D`. */
  lemma ScaledBack(x: real, k: real, D: real)
    requires D != 0.0 && x == k * D
    ensures x * (1.0 / D) == k
  {
  }

  /** One coordinate of Cramer's rule with the triple products replaced by the Möller–Trumbore ratios. */
  lemma CramerSolved(p: real, e: real, f: real, g: real, T: real, A: real, B: real, C: real,
                     D: real, u: real, v: real, t: real)
    requires D != 0.0 && p * T == e * A + f * B + g * C
    requires T == -D && A == -(u * D) && B == -(v * D) && C == t * D
    ensures p + g * t == e * u + f * v
  {
    assert (p - u * e - v * f + t * g) * D == 0.0;
  }

  /** The three Möller–Trumbore ratios times the determinant are the triple products of Cramer's rule. */
  lemma SolveTriples(a: Vec3, b: Vec3, c: Vec3, ray: Ray)
    requires Determinant(a, b, c, ray) != 0.0
    ensures var s, D := Solve(a, b, c, ray), Determinant(a, b, c, ray);
      var e1, e2, ao := b.Minus(a), c.Minus(a), ray.origin.Minus(a);
      && D == -Triple(e1, e2, ray.direction)
      && s.u * D == -Triple(ao, e2, ray.direction)
      && s.v * D == -Triple(e1, ao, ray.direction)
      && s.distance * D == Triple(e1, e2, ao)
  {
    var s, D := Solve(a, b, c, ray), Determinant(a, b, c, ray);
    var e1, e2, d, ao := b.Minus(a), c.Minus(a), ray.direction, ray.origin.Minus(a);
    TripleCyclic(d, e1, e2);
    TripleCyclic(ao, e2, d);
    TripleCyclic(ao, e1, e2);
    var X, Y, Z := e2.Dot(ao.Cross(d)), e1.Dot(ao.Cross(d)), ao.Dot(e1.Cross(e2));
    assert s.u == X * (1.0 / D) && s.v == -Y * (1.0 / D) && s.distance == Z * (1.0 / D);
    CancelInverse(X, D);
    CancelInverse(-Y, D);
    CancelInverse(Z, D);
  }

  lemma CancelInverse(x: real, D: real)
    requires D != 0.0
    ensures (x * (1.0 / D)) * D == x
  {
  }

  /** Cramer's rule, solved for `p + t d` once the triple products are known as multiples of the determinant. */
  lemma CramerSolvedVector(p: Vec3, e1: Vec3, e2: Vec3, d: Vec3, T: real, A: real, B: real, C: real,
                           D: real, u: real, v: real, t: real)
    requires D != 0.0 && p.Scale(T) == e1.Scale(A).Plus(e2.Scale(B)).Plus(d.Scale(C))
    requires T == -D && A == -(u * D) && B == -(v * D) && C == t * D
    ensures p.Plus(d.Scale(t)) == e1.Scale(u).Plus(e2.Scale(v))
  {
    CramerSolved(p.x, e1.x, e2.x, d.x, T, A, B, C, D, u, v, t);
    CramerSolved(p.y, e1.y, e2.y, d.y, T, A, B, C, D, u, v, t);
    CramerSolved(p.z, e1.z, e2.z, d.z, T, A, B, C, D, u, v, t);
    assert p.x + d.x * t == e1.x * u + e2.x * v;
    assert p.y + d.y * t == e1.y * u + e2.y * v;
    assert p.z + d.z * t == e1.z * u + e2.z * v;
    assert p.Plus(d.Scale(t)) == Vec3(p.x + d.x * t, p.y + d.y * t, p.z + d.z * t);
    assert e1.Scale(u).Plus(e2.Scale(v)) == Vec3(e1.x * u + e2.x * v, e1.y * u + e2.y * v, e1.z * u + e2.z * v);
  }

  /**
   * Measured from vertex `a` along the edges, `o + t d` is `u (b - a) + v (c - a)`
   * exactly when it is the barycentric combination `(1 - u - v) a + u b + v c`.
   */
  lemma Rebase(ray: Ray, a: Vec3, b: Vec3, c: Vec3, t: real, u: real, v: real)
    ensures ray.origin.Minus(a).Plus(ray.direction.Scale(t)) == b.Minus(a).Scale(u).Plus(c.Minus(a).Scale(v))
        <==> ray.Follow(t) == Combine(a, b, c, u, v, 1.0 - u - v)
  {
  }

  /** In exact arithmetic a triangle hit is the barycentric combination of the vertices by the reported weights. */
  lemma TriangleHitIsBarycentric(lib: MathLib, a: Vec3, b: Vec3, c: Vec3, na: Vec3, nb: Vec3, nc: Vec3,
                                 material: Material, ray: Ray)
    requires TriangleHit(lib, a, b, c, na, nb, nc, material, ray).Some?
    ensures var s := Solve(a, b, c, ray);
      TriangleHit(lib, a, b, c, na, nb, nc, material, ray).value.position == Combine(a, b, c, s.u, s.v, s.w)
  {
    SolvedPointIsBarycentric(a, b, c, ray);
  }

  /** For a non-zero determinant, the point at Möller–Trumbore's distance is the combination by its weights. */
  lemma SolvedPointIsBarycentric(a: Vec3, b: Vec3, c: Vec3, ray: Ray)
    requires Determinant(a, b, c, ray) != 0.0
    ensures var s := Solve(a, b, c, ray);
      ray.Follow(s.distance) == Combine(a, b, c, s.u, s.v, s.w)
  {
    var s, D := Solve(a, b, c, ray), Determinant(a, b, c, ray);
    var e1, e2, d, ao := b.Minus(a), c.Minus(a), ray.direction, ray.origin.Minus(a);
    var T, A, B, C := Triple(e1, e2, d), Triple(ao, e2, d), Triple(e1, ao, d), Triple(e1, e2, ao);
    assert T == -D && A == -(s.u * D) && B == -(s.v * D) && C == s.distance * D by {
      SolveTriples(a, b, c, ray);
    }
    assert ao.Scale(T) == e1.Scale(A).Plus(e2.Scale(B)).Plus(d.Scale(C)) by {
      Cramer(ao, e1, e2, d);
    }
    CramerSolvedVector(ao, e1, e2, d, T, A, B, C, D, s.u, s.v, s.distance);
    Rebase(ray, a, b, c, s.distance, s.u, s.v);
  }

  /** The dot product is linear in its first argument. */
  lemma DotLinear(p: Vec3, q: Vec3, r: Vec3, alpha: real, beta: real, gamma: real, n: Vec3)
    ensures p.Scale(alpha).Plus(q.Scale(beta)).Plus(r.Scale(gamma)).Dot(n) == alpha * p.Dot(n) + beta * q.Dot(n) + gamma * r.Dot(n)
  {
  }

  /**
   * Conversely, a front-facing ray that passes through a point of the triangle
   * at a non-negative distance is reported as a hit at that distance, with the
   * normal interpolated by that point's weights.
   */
  lemma TriangleHitComplete(lib: MathLib, a: Vec3, b: Vec3, c: Vec3, na: Vec3, nb: Vec3, nc: Vec3,
                            material: Material, ray: Ray, t: real, u: real, v: real)
    requires Epsilon <= Determinant(a, b, c, ray)
    requires 0.0 <= t && 0.0 <= u && 0.0 <= v && u + v <= 1.0
    requires ray.Follow(t) == Combine(a, b, c, u, v, 1.0 - u - v)
    ensures TriangleHit(lib, a, b, c, na, nb, nc, material, ray)
         == Some(HitInfo(t, ray.Follow(t), lib.normalize(Combine(na, nb, nc, u, v, 1.0 - u - v)), material))
  {
    var s, D := Solve(a, b, c, ray), Determinant(a, b, c, ray);
    var e1, e2, d, ao := b.Minus(a), c.Minus(a), ray.direction, ray.origin.Minus(a);
    Rebase(ray, a, b, c, t, u, v);
    Shift(ao, d, e1.Scale(u).Plus(e2.Scale(v)), t);
    assert ao == e1.Scale(u).Plus(e2.Scale(v)).Plus(d.Scale(-t));
    SolveTriples(a, b, c, ray);
    TriplesOfCombination(e1, e2, d, u, v, t);
    ScaledBack(s.distance * D, t, D);
    ScaledBack(s.u * D, u, D);
    ScaledBack(s.v * D, v, D);
    assert s == Barycentric(t, u, v, 1.0 - u - v);
  }

  /** Moving `d t` to the other side of an equation. */
  lemma Shift(p: Vec3, d: Vec3, q: Vec3, t: real)
    requires p.Plus(d.Scale(t)) == q
    ensures p == q.Plus(d.Scale(-t))
  {
  }

  /** The triple products Cramer's rule takes of `u e1 + v e2 - t d`. */
  lemma TriplesOfCombination(e1: Vec3, e2: Vec3, d: Vec3, u: real, v: real, t: real)
    ensures var p := e1.Scale(u).Plus(e2.Scale(v)).Plus(d.Scale(-t));
      && Triple(e1, e2, p) == -t * Triple(e1, e2, d)
      && Triple(p, e2, d) == u * Triple(e1, e2, d)
      && Triple(e1, p, d) == v * Triple(e1, e2, d)
  {
    var p := e1.Scale(u).Plus(e2.Scale(v)).Plus(d.Scale(-t));
    TripleCyclic(p, e1, e2);
    TripleCyclic(e1, p, d);
    TripleCyclic(d, e1, e2);
    TripleCyclic(e2, e1, d);
    DotLinear(e1, e2, d, u, v, -t, e1.Cross(e2));
    DotLinear(e1, e2, d, u, v, -t, e2.Cross(d));
    DotLinear(e1, e2, d, u, v, -t, e1.Cross(d));
    TripleRepeated(e1, e2);
    TripleRepeated(e2, e1);
    TripleRepeated(e2, d);
    TripleRepeated(d, e2);
    TripleRepeated(e1, d);
    TripleRepeated(d, e1);
  }
}

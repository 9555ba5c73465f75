/**
 * The part of glam's `Vec3` the renderer uses, over exact reals instead of `f32`,
 * together with the two floating-point primitives the model does not interpret:
 * the square root of `f32` and glam's `normalize`.
 */
module Vectors {

  datatype Vec3 = Vec3(x: real, y: real, z: real) {

    /** `self + v` */
    function Plus(v: Vec3): Vec3 {
      Vec3(x + v.x, y + v.y, z + v.z)
    }

    /** `self - v` */
    function Minus(v: Vec3): Vec3 {
      Vec3(x - v.x, y - v.y, z - v.z)
    }

    /** `self * s` for a scalar `s` */
    function Scale(s: real): Vec3 {
      Vec3(x * s, y * s, z * s)
    }

    /** `self * v`, the component-wise product glam uses for colours */
    function Mul(v: Vec3): Vec3 {
      Vec3(x * v.x, y * v.y, z * v.z)
    }

    function Dot(v: Vec3): real {
      x * v.x + y * v.y + z * v.z
    }

    function Cross(v: Vec3): Vec3 {
      Vec3(y * v.z - z * v.y, z * v.x - x * v.z, x * v.y - y * v.x)
    }

    function LengthSquared(): real {
      Dot(this)
    }

    /** glam's `lerp`: `self * (1 - s) + v * s` */
    function Lerp(v: Vec3, s: real): (r: Vec3)
      ensures s == 0.0 ==> r == this
      ensures s == 1.0 ==> r == v
    {
      Scale(1.0 - s).Plus(v.Scale(s))
    }

    predicate NonNegative() {
      0.0 <= x && 0.0 <= y && 0.0 <= z
    }
  }

  const Zero := Vec3(0.0, 0.0, 0.0)
  const One := Vec3(1.0, 1.0, 1.0)

  /**
   * The floating-point operations whose results the model leaves open:
   * `f32::sqrt` and glam's `Vec3::normalize`. Every operation that needs
   * them takes a `MathLib` and is correct for any choice of the two functions;
   * the properties that depend on the square root being exact say so with
   * `ExactSqrt`.
   */
  datatype MathLib = MathLib(sqrt: real -> real, normalize: Vec3 -> Vec3)

  /** The square root is the exact non-negative root on the non-negative reals. */
  ghost predicate ExactSqrt(lib: MathLib) {
    forall t: real :: 0.0 <= t ==> 0.0 <= lib.sqrt(t) && lib.sqrt(t) * lib.sqrt(t) == t
  }

  lemma SquareNonNegative(x: real)
    ensures 0.0 <= x * x
  {
  }

  /** The scalar triple product `p . (q x r)`. */
  function Triple(p: Vec3, q: Vec3, r: Vec3): real {
    p.Dot(q.Cross(r))
  }

  lemma TripleCyclic(p: Vec3, q: Vec3, r: Vec3)
    ensures Triple(p, q, r) == Triple(q, r, p) == Triple(r, p, q)
    ensures Triple(p, q, r) == -Triple(q, p, r)
  {
    TripleIsDet(p, q, r);
    TripleIsDet(q, r, p);
    TripleIsDet(r, p, q);
    TripleIsDet(q, p, r);
    DetRows(p.x, p.y, p.z, q.x, q.y, q.z, r.x, r.y, r.z);
  }

  /** Rotating the rows of a determinant keeps it; swapping two rows negates it. */
  lemma DetRows(a1: real, a2: real, a3: real, b1: real, b2: real, b3: real, c1: real, c2: real, c3: real)
    ensures Det(a1, a2, a3, b1, b2, b3, c1, c2, c3) == Det(b1, b2, b3, c1, c2, c3, a1, a2, a3)
    ensures Det(a1, a2, a3, b1, b2, b3, c1, c2, c3) == Det(c1, c2, c3, a1, a2, a3, b1, b2, b3)
    ensures Det(a1, a2, a3, b1, b2, b3, c1, c2, c3) == -Det(b1, b2, b3, a1, a2, a3, c1, c2, c3)
  {
  }

  lemma TripleRepeated(p: Vec3, q: Vec3)
    ensures Triple(p, p, q) == 0.0 && Triple(p, q, p) == 0.0 && Triple(q, p, p) == 0.0
  {
  }

  /** The 3x3 determinant with rows `(a1, a2, a3)`, `(b1, b2, b3)`, `(c1, c2, c3)`. */
  function Det(a1: real, a2: real, a3: real, b1: real, b2: real, b3: real, c1: real, c2: real, c3: real): real {
    a1 * (b2 * c3 - b3 * c2) + a2 * (b3 * c1 - b1 * c3) + a3 * (b1 * c2 - b2 * c1)
  }

  /** One coordinate of Cramer's rule, over plain reals. */
  lemma CramerCoordinate(p1: real, p2: real, p3: real, e1: real, e2: real, e3: real,
                         f1: real, f2: real, f3: real, d1: real, d2: real, d3: real)
    ensures p1 * Det(e1, e2, e3, f1, f2, f3, d1, d2, d3)
         == e1 * Det(p1, p2, p3, f1, f2, f3, d1, d2, d3)
          + f1 * Det(e1, e2, e3, p1, p2, p3, d1, d2, d3)
          + d1 * Det(e1, e2, e3, f1, f2, f3, p1, p2, p3)
  {
  }

  /**
   * Cramer's rule in three dimensions: any `p` is the combination of `e1`, `e2`, `d`
   * with the triple products as weights, scaled by their determinant.
   */
  lemma Cramer(p: Vec3, e1: Vec3, e2: Vec3, d: Vec3)
    ensures p.Scale(Triple(e1, e2, d))
         == e1.Scale(Triple(p, e2, d)).Plus(e2.Scale(Triple(e1, p, d))).Plus(d.Scale(Triple(e1, e2, p)))
  {
    TripleIsDet(e1, e2, d);
    TripleIsDet(p, e2, d);
    TripleIsDet(e1, p, d);
    TripleIsDet(e1, e2, p);
    CramerCoordinate(p.x, p.y, p.z, e1.x, e1.y, e1.z, e2.x, e2.y, e2.z, d.x, d.y, d.z);
    CramerCoordinate(p.y, p.z, p.x, e1.y, e1.z, e1.x, e2.y, e2.z, e2.x, d.y, d.z, d.x);
    CramerCoordinate(p.z, p.x, p.y, e1.z, e1.x, e1.y, e2.z, e2.x, e2.y, d.z, d.x, d.y);
  }

  /** The triple product is the determinant of the three vectors as rows, in any cyclic order of the coordinates. */
  lemma TripleIsDet(p: Vec3, q: Vec3, r: Vec3)
    ensures Triple(p, q, r) == Det(p.x, p.y, p.z, q.x, q.y, q.z, r.x, r.y, r.z)
    ensures Triple(p, q, r) == Det(p.y, p.z, p.x, q.y, q.z, q.x, r.y, r.z, r.x)
    ensures Triple(p, q, r) == Det(p.z, p.x, p.y, q.z, q.x, q.y, r.z, r.x, r.y)
  {
  }
}

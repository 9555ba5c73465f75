/** A ray: an origin and a direction. Each bounce builds a new value; none is changed in place. */
module Rays {
  import opened Vectors

  datatype Ray = Ray(origin: Vec3, direction: Vec3) {

    /**
     * The point `distance` units of `direction` along the ray: the origin at
     * distance zero, and `|distance|` times the direction's length away from it.
     */
    function Follow(distance: real): (p: Vec3)
      ensures distance == 0.0 ==> p == origin
      ensures p.Minus(origin).LengthSquared() == distance * distance * direction.LengthSquared()
    {
      var q := origin.Plus(direction.Scale(distance));
      assert q.Minus(origin) == direction.Scale(distance);
      q
    }
  }

  /**
   * Following a ray for `s` and then a ray with the same direction from there
   * for `t` reaches the point `s + t` along the first ray.
   */
  lemma FollowAdditive(ray: Ray, s: real, t: real)
    ensures Ray(ray.Follow(s), ray.direction).Follow(t) == ray.Follow(s + t)
  {
    var d := ray.direction;
    assert d.Scale(s).Plus(d.Scale(t)) == d.Scale(s + t);
  }
}

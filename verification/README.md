# A verified model of a small path tracer's hit tests, nearest-hit query and bounce loop

The renderer shoots camera rays into a scene of spheres and triangles, each with a
material. It follows every ray through at most `MAX_BOUNCE_COUNT + 1` bounces. At
each hit it adds the surface's emitted light, filtered by the current throughput
(`color`). On a miss it adds the sky. This project models three parts of it over
exact reals:

- the two primitive hit tests of `Hittable::intersect`: the sphere's near root of a
  quadratic, and a single-sided Möller–Trumbore triangle test;
- `World::intersect`, the scan that keeps the strictly nearest hit;
- `World::trace`, the bounded bounce loop, with the random numbers it draws
  supplied as a sequence.

The modules follow the source files:

- `Vectors`: the part of glam's `Vec3` the renderer uses.
- `Rays`: `src/ray.rs`.
- `Materials`: `src/material.rs`.
- `Hittables`: `src/hittable.rs`.
- `Worlds` and `Tracing`: `src/world.rs`.
- `Options`: Rust's `Option`.

Two floating-point functions are left open: `f32::sqrt` and glam's `normalize`.
They are passed in as a `MathLib` value. Every operation is defined for any choice
of them. The sphere lemmas that need the square root to be exact take
`ExactSqrt(lib)` as a precondition.

Ray directions need not have unit length, and the model does not assume they do:

- The sphere test fixes the quadratic's `a` to `1` (`src/hittable.rs:41`, with `ray.direction.dot(ray.direction)` commented out). That is the right coefficient only for a unit direction.
- The next ray's direction (`src/world.rs:40-50`) is a `lerp` of the normalised diffuse direction and the mirror of the incoming direction. For a unit normal the mirror is exactly as long as the incoming direction (`Tracing.ReflectPreservesLength`), so it is a unit vector only when the incoming direction is. Even between two distinct unit vectors, a `lerp` factor strictly between 0 and 1 (a specular bounce off a material whose smoothness is strictly between 0 and 1) gives a vector shorter than one. So the loop does not keep directions unit.
- So `SphereHit` models the code for any direction. The sphere lemmas whose geometry needs `a = |direction|^2 = 1` state that as a precondition.

## Model

| member | source | states |
|---|---|---|
| `Rays.Ray.Follow` | src/ray.rs:12-14 | following for distance zero stays at the origin; the squared distance of the point reached from the origin is `distance^2` times the direction's squared length |
| `Rays.FollowAdditive` | src/ray.rs:12-14 | following `s` and then, from there along the same direction, `t` reaches the point `s + t` along the ray |
| `Vectors.Vec3.Lerp` | src/world.rs:64-65 | glam's `lerp` gives the start at factor 0 and the end at factor 1 |
| `Hittables.Intersect` | src/hittable.rs:36-93 | for both primitive kinds, a reported hit is at a non-negative distance, at the point that distance along the ray, and carries the primitive's own material unchanged |
| `Hittables.SphereHit` | src/hittable.rs:38-61 | a negative discriminant gives no hit; a hit is ahead of the origin and on the ray; its normal is `normalize(position - center)`; its material is the sphere's |
| `Hittables.NearRoot` | src/hittable.rs:41-50 | a negative discriminant gives no distance; a distance returned is never behind the origin |
| `Hittables.AlongRay` | src/hittable.rs:39-43 | for the point `t` along the ray, the squared distance to the center minus `r^2` is `a t^2 + b t + c` with `a` the direction's squared length, with `b` and `c` as the code computes them |
| `Hittables.NegativeDiscriminantMisses` | src/hittable.rs:41-46 | for a unit direction and a negative discriminant: no hit, and every point of the ray's line lies strictly outside the sphere |
| `Hittables.NearRootProperties` | src/hittable.rs:44-50 | with an exact square root, the distance returned is a root of `t^2 + b t + c`; when `c < 0` no distance is returned |
| `Hittables.InsideOriginMisses` | src/hittable.rs:43-50 | a ray whose origin is strictly inside the sphere gets no hit, because its near root is behind the origin |
| `Hittables.SphereHitOnSurface` | src/hittable.rs:39-51 | for a unit direction and an exact square root, a reported hit lies exactly on the sphere: its squared distance from the center is `r^2` |
| `Hittables.NearRootFirst` | src/hittable.rs:44-50 | with an exact square root, `t^2 + b t + c` is positive at every `t` from 0 up to (not including) the distance returned: it is the first root ahead |
| `Hittables.NearRootComplete` | src/hittable.rs:44-50 | with an exact square root and `c > 0`, any root `t >= 0` of `t^2 + b t + c` means a distance is returned and it is at most `t` |
| `Hittables.SphereHitIsFirst` | src/hittable.rs:39-51 | for a unit direction and an exact square root, every point of the ray from the origin up to (not including) the reported hit lies strictly outside the sphere |
| `Hittables.SphereHitComplete` | src/hittable.rs:39-51 | for a unit direction, an exact square root and an origin strictly outside the sphere, a ray that touches the sphere at some distance `t >= 0` is reported hit at a distance no greater than `t` |
| `Hittables.NearRootHeadOn` | src/hittable.rs:44-50 | with `b = -2L` and `c = L^2 - r^2` for `0 < r <= L`, the near root is exactly `L - r` |
| `Hittables.HeadOnHit` | src/hittable.rs:38-51 | a unit ray from distance `L` outside a sphere, aimed at its center, hits at distance `L - r` |
| `Hittables.TriangleHit` | src/hittable.rs:62-91 | a determinant below `f32::EPSILON` (back-facing or grazing) gives no hit; on a hit, `u`, `v` and `w` are non-negative and sum to 1; the distance is non-negative and is the computed ratio; the position is on the ray; the normal is the normalised weighted vertex normal; the material is the triangle's |
| `Hittables.SolveTriples` | src/hittable.rs:70-82 | the computed distance, `u` and `v`, each times the determinant, are the triple products of Cramer's rule for `o - a = u (b - a) + v (c - a) - t d` |
| `Hittables.TriangleHitIsBarycentric` | src/hittable.rs:70-87 | the reported hit position `origin + distance * direction` equals `w a + u b + v c` for the reported weights |
| `Hittables.TriangleHitComplete` | src/hittable.rs:70-90 | conversely, a front-facing ray (determinant at least `EPSILON`) through the point `(1-u-v) a + u b + v c` of the triangle, at distance `t >= 0`, is reported hit at `t`, with exactly that point and that interpolated normal |
| `Worlds.Keep` | src/world.rs:20-26 | one step of the scan keeps either the hit so far or the new one; it has no hit exactly when neither is a hit; what it keeps is no farther than either; a new hit that is not strictly nearer leaves the hit so far in place |
| `Worlds.NearestAmong` | src/world.rs:17-30 | a hit the scan over the first `n` objects returns lies ahead of the origin, at the point that distance along the ray |
| `Worlds.NearestAmongMisses` | src/world.rs:18-30 | the scan over the first `n` objects returns no hit exactly when none of them is hit |
| `Worlds.NearestAmongFinds` | src/world.rs:18-30 | a hit the scan returns is the hit of the object `KeptIndex` names, and that object is the earliest of the nearest among the first `n` |
| `Worlds.NearestAmongIsNearest` | src/world.rs:18-30 | after scanning the first `n` objects: no hit exactly when none of them is hit; otherwise the result is the hit of one of them, no farther than any of their hits and strictly nearer than every earlier one's |
| `Worlds.LastIsNearest` | src/world.rs:20-25 | an object whose hit is strictly nearer than the hit kept so far, or that is the first hit, becomes the earliest nearest, and its hit is what the scan keeps |
| `Worlds.EarlierStaysNearest` | src/world.rs:21-24 | the kept hit stays the earliest nearest when the next object's hit is not strictly nearer; ties keep the earlier object |
| `Worlds.NearestIsUnique` | src/world.rs:21-25 | at most one object is the earliest nearest, so the tie-breaking determines the answer |
| `Worlds.Intersect` | src/world.rs:17-31 | `World::intersect` returns no hit exactly when no object is hit; otherwise it returns the hit of the earliest object at the minimum distance |
| `Tracing.ReflectInvolution` | src/world.rs:41-42 | for a unit normal, the specular direction flips the component along the normal, and reflecting twice gives back the direction |
| `Tracing.ReflectPreservesLength` | src/world.rs:41-42 | for a unit normal, the specular direction is as long as the incoming one |
| `Tracing.Scatter` | src/world.rs:40-59 | after a hit, the next ray starts at the hit position. The bounce is specular exactly when the draw is below `specular_probability`. A non-specular direction is the normalised normal plus the random vector. A specular direction with smoothness 1 is the mirror direction. The throughput is multiplied by `specular_color` or by `color` accordingly |
| `Tracing.Iteration` | src/world.rs:38-74 | one pass of the loop body queries the scene exactly when the throughput is not zero; it either stops with the loop's final light, or leaves a ray, throughput and light from which the remaining passes give the same final light |
| `Tracing.TraceLoop` | src/world.rs:33-78 | the loop as written computes `Trace`, and it queries the scene at least once and at most `MAX_BOUNCE_COUNT + 1` times |
| `Tracing.MissedRaySeesBackground` | src/world.rs:60-70 | a ray that no object hits (in particular, any ray in an empty world) returns the background; for a downward ray that is `(0.5, 0.5, 0.5)` |
| `Tracing.MissKeepsNonNegative` | src/world.rs:61-68 | the background never turns a non-negative throughput negative, whatever the direction |
| `Tracing.HitKeepsNonNegative` | src/world.rs:52-59 | a bounce off a non-negative material keeps the throughput and the gathered light non-negative |
| `Tracing.TraceFromNonNegative` | src/world.rs:37-75 | from any iteration, with non-negative materials, throughput and light, the final light is non-negative in every channel |
| `Tracing.TraceNonNegative` | src/world.rs:33-78 | a scene of non-negative materials returns non-negative light for every ray and every sequence of draws |
| `Tracing.MissKeepsDeadChannels` | src/world.rs:61-68 | on a miss, a colour channel whose throughput is zero gets no light from the sky |
| `Tracing.HitKeepsDeadChannels` | src/world.rs:52-59 | on a hit, a colour channel whose throughput is zero gets no emitted light and keeps a zero throughput |
| `Tracing.TraceFrom` | src/world.rs:37-75 | a colour channel whose throughput is zero gains no more light for the rest of the loop; so once the whole throughput is exactly zero, the light no longer changes |
| `Tracing.TraceFromAddsLight` | src/world.rs:34-68 | the loop only adds to the light it starts with: starting from `L` gives `L` plus what starting from zero gives |
| `Tracing.TraceFromLinear` | src/world.rs:37-75 | scaling the starting throughput channel by channel by `s` scales the light the loop adds by `s`, and leaves the light gathered before unchanged |
| `Tracing.TraceLinear` | src/world.rs:33-78 | tracing with starting throughput `s` instead of one gives `s` times the light |

Four definitions carry no contract of their own; the lemmas above state their properties:

- `Hittables.Solve` is the Möller–Trumbore arithmetic of `src/hittable.rs:70-82`; `Hittables.SolveTriples` and `Hittables.TriangleHitIsBarycentric` state what it computes.
- `Tracing.Reflect` is the specular direction of `src/world.rs:41-42`; see `Tracing.ReflectInvolution` and `Tracing.ReflectPreservesLength`.
- `Tracing.MissThroughput` is the sky factor of `src/world.rs:61-66`; see `Tracing.MissedRaySeesBackground`, `Tracing.MissKeepsNonNegative` and `Tracing.MissKeepsDeadChannels`.
- `Tracing.Trace` is `World::trace` (`src/world.rs:33-78`) as the loop from iteration 0 with throughput one and no light; `Tracing.TraceLoop` shows the loop as written computes it, and `Tracing.TraceNonNegative` and `Tracing.TraceLinear` are about it.

## Left out

- `src/camera.rs`: turning pixels into rays. It is trigonometry and glam quaternion and matrix calls, which are floating-point library code.
- `src/randomness.rs` and `fastrand`: global random state, and a rejection loop with no bound. Each hit instead consumes one `Draw`: a unit vector and a number in `[0, 1)`. The draws are given as a sequence with one entry per iteration.
- `src/main.rs`: the scene table, the parallel fan-out over pixels and samples, averaging, image conversion, saving and timing. These are I/O and concurrency. Only `MAX_BOUNCE_COUNT = 10` is taken from it.
- `f32` rounding, overflow, NaN and infinities: the model uses exact reals. Its results are the exact-arithmetic values the code approximates, not bit-exact.
- `f32::sqrt` and `Vec3::normalize` are parameters (`MathLib`), not definitions. The sphere lemmas that need an exact square root require `ExactSqrt`. Nothing assumes `normalize` returns a unit vector.
- `Hittables.Solve` is only defined for a non-zero determinant. The code divides by the determinant before testing it. A determinant below `EPSILON` rejects the hit whatever the divided values are, so nothing observable is lost.
- No hypothesis `|direction.y| <= 1` is needed for non-negativity (`Tracing.TraceNonNegative`). The sky factor `(1 - y)^2` is a square, so it is never negative.
- `Hittables.NegativeDiscriminantMisses`, `Hittables.SphereHitOnSurface`, `Hittables.SphereHitIsFirst`, `Hittables.SphereHitComplete` and `Hittables.HeadOnHit` require a unit direction, as the code's fixed `a = 1` presumes. The next ray's direction in the loop is a `lerp` that need not have unit length.
- glam's `lerp` is taken as `self * (1 - s) + v * s`. Over the reals this equals `self + (v - self) * s`.

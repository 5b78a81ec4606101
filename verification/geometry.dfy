/**
 Planar geometry of the arena. Math.sqrt is not modelled by a definition: every function that takes a
 square root receives it as a parameter `root`, and the facts that need real square roots assume
 `IsSqrt(root)`.
 */
module Geometry {
  import opened Types
  import Constants

  /** `root` agrees with the non-negative square root on the non-negative reals. */
  ghost predicate IsSqrt(root: real -> real)
  {
    forall x :: 0.0 <= x ==> 0.0 <= root(x) && root(x) * root(x) == x
  }

  function SqDist(p: Vec, q: Vec): real
  {
    (p.x - q.x) * (p.x - q.x) + (p.z - q.z) * (p.z - q.z)
  }

  function SqNorm(v: Vec): real
  {
    v.x * v.x + v.z * v.z
  }

  lemma SqDistNonNegative(p: Vec, q: Vec)
    ensures SqDist(p, q) >= 0.0
  {
  }

  /** `getDistance`: Euclidean distance on the ground plane, the non-negative root of the squared distance. */
  function Distance(root: real -> real, p: Vec, q: Vec): (d: real)
    ensures IsSqrt(root) ==> 0.0 <= d && d * d == SqDist(p, q)
  {
    SqDistNonNegative(p, q);
    root(SqDist(p, q))
  }

  lemma SquareMonotone(a: real, b: real)
    requires 0.0 <= a <= b
    ensures a * a <= b * b
  {
    var aa, ab, bb := a * a, a * b, b * b;
    assert aa <= ab;
    assert ab <= bb;
  }

  lemma SquareStrictlyMonotone(a: real, b: real)
    requires 0.0 <= a < b
    ensures a * a < b * b
  {
    var aa, ab, bb := a * a, a * b, b * b;
    assert aa <= ab;
    assert ab < bb;
  }

  /** The square root of a square is the non-negative base. */
  lemma RootOfSquare(root: real -> real, a: real)
    requires IsSqrt(root)
    requires 0.0 <= a
    ensures root(a * a) == a
  {
    var b := root(a * a);
    assert 0.0 <= b && b * b == a * a;
    if b < a {
      SquareStrictlyMonotone(b, a);
    } else if a < b {
      SquareStrictlyMonotone(a, b);
    }
  }

  /** Scaling a displacement by k >= 0 scales its length by k. */
  lemma ScaledDistance(root: real -> real, p: Vec, q: Vec, p': Vec, q': Vec, k: real)
    requires IsSqrt(root) && 0.0 <= k
    requires p'.x - q'.x == k * (p.x - q.x) && p'.z - q'.z == k * (p.z - q.z)
    ensures Distance(root, p', q') == k * Distance(root, p, q)
  {
    var dx, dz := p.x - q.x, p.z - q.z;
    var d := Distance(root, p, q);
    SqDistNonNegative(p, q);
    assert 0.0 <= d && d * d == dx * dx + dz * dz;
    var kk := k * k;
    assert (k * dx) * (k * dx) == kk * (dx * dx) && (k * dz) * (k * dz) == kk * (dz * dz);
    assert SqDist(p', q') == kk * (d * d);
    var kd := k * d;
    assert kk * (d * d) == kd * kd;
    RootOfSquare(root, kd);
  }

  /** The range check `dist <= range` on distances is the same as comparing squared distances. */
  lemma WithinIffSquared(root: real -> real, p: Vec, q: Vec, range: real)
    requires IsSqrt(root)
    ensures Distance(root, p, q) <= range <==> 0.0 <= range && SqDist(p, q) <= range * range
  {
    var s := SqDist(p, q);
    var d := Distance(root, p, q);
    assert 0.0 <= d && d * d == s;
    if d <= range {
      SquareMonotone(d, range);
    }
    if 0.0 <= range && s <= range * range && range < d {
      SquareStrictlyMonotone(range, d);
    }
  }

  /** Comparing distances (the nearest-enemy scan) is the same as comparing squared distances. */
  lemma CloserIffSquaredCloser(root: real -> real, p: Vec, q: Vec, p': Vec, q': Vec)
    requires IsSqrt(root)
    ensures Distance(root, p, q) < Distance(root, p', q') <==> SqDist(p, q) < SqDist(p', q')
  {
    var d, d' := Distance(root, p, q), Distance(root, p', q');
    assert 0.0 <= d && d * d == SqDist(p, q);
    assert 0.0 <= d' && d' * d' == SqDist(p', q');
    if d < d' {
      SquareStrictlyMonotone(d, d');
    } else {
      SquareMonotone(d', d);
    }
  }

  /** Half-width of the playable area: the arena size less a buffer of 2. */
  const Boundary: real := (Constants.ArenaSize - 2) as real

  /** `Math.max(-boundary, Math.min(boundary, v))`. */
  function Clamp(v: real): (r: real)
    ensures -Boundary <= r <= Boundary
    ensures -Boundary <= v <= Boundary ==> r == v
    ensures v > Boundary ==> r == Boundary
    ensures v < -Boundary ==> r == -Boundary
  {
    Constants.Max(-Boundary, Constants.Min(Boundary, v))
  }

  predicate InArena(p: Vec)
  {
    -Boundary <= p.x <= Boundary && -Boundary <= p.z <= Boundary
  }

  /**
   `(d / length) * scale` per axis, where d runs from `from` to `to`: a step on the line to `to`, of length
   |scale|, pointing at `to` when scale is non-negative.
   */
  function Toward(root: real -> real, from: Vec, to: Vec, scale: real): (v: Vec)
    requires Distance(root, from, to) > 0.0
    ensures v.x * (to.z - from.z) == v.z * (to.x - from.x)
    ensures IsSqrt(root) ==> SqNorm(v) == scale * scale
    ensures IsSqrt(root) && scale >= 0.0 ==> v.x * (to.x - from.x) + v.z * (to.z - from.z) >= 0.0
  {
    var len := Distance(root, from, to);
    var dx, dz := to.x - from.x, to.z - from.z;
    RescaledStep(dx, len, scale);
    RescaledStep(dz, len, scale);
    StepGeometry(root, from, to, scale, scale / len, dx / len * scale, dz / len * scale);
    Vec(dx / len * scale, dz / len * scale)
  }

  /** (vx, vz), the multiple c of the displacement from `from` to `to` with c * length == scale. */
  lemma StepGeometry(root: real -> real, from: Vec, to: Vec, scale: real, c: real, vx: real, vz: real)
    requires Distance(root, from, to) > 0.0 && c * Distance(root, from, to) == scale
    requires vx == c * (to.x - from.x) && vz == c * (to.z - from.z)
    ensures vx * (to.z - from.z) == vz * (to.x - from.x)
    ensures IsSqrt(root) ==> vx * vx + vz * vz == scale * scale
    ensures IsSqrt(root) && scale >= 0.0 ==> vx * (to.x - from.x) + vz * (to.z - from.z) >= 0.0
  {
    var dx, dz := to.x - from.x, to.z - from.z;
    assert vx * dz == c * (dx * dz) == vz * dx;
    if IsSqrt(root) {
      ScaledDirection(dx, dz, Distance(root, from, to), scale, c, vx, vz);
    }
  }

  /** The step `a / d * s` is the multiple `s / d` of a, and that multiple of d is s. */
  lemma RescaledStep(a: real, d: real, s: real)
    requires d > 0.0
    ensures a / d * s == (s / d) * a
    ensures (s / d) * d == s
  {
  }

  /** The arithmetic behind `Toward`: (vx, vz) is c times a displacement of length len. */
  lemma ScaledDirection(dx: real, dz: real, len: real, scale: real, c: real, vx: real, vz: real)
    requires len > 0.0 && len * len == dx * dx + dz * dz
    requires c * len == scale && vx == c * dx && vz == c * dz
    ensures vx * vx + vz * vz == scale * scale
    ensures vx * dz == vz * dx
    ensures scale >= 0.0 ==> vx * dx + vz * dz >= 0.0
  {
    SquareOfMultiple(c, dx);
    SquareOfMultiple(c, dz);
    SquareOfMultiple(c, len);
    assert vx * vx + vz * vz == (c * c) * (len * len);
    assert vx * dx + vz * dz == c * (len * len);
    if scale >= 0.0 {
      assert c >= 0.0;
    }
  }

  lemma SquareOfMultiple(c: real, a: real)
    ensures (c * a) * (c * a) == (c * c) * (a * a)
  {
  }
}

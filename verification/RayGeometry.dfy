// Rays, boxes and the slab test, over the reals.
module RayGeometry {
  datatype Vec3 = Vec3(x: real, y: real, z: real)

  datatype Ray = Ray(origin: Vec3, direction: Vec3)

  datatype Aabb = Aabb(min: Vec3, max: Vec3)

  function Min(a: real, b: real): real {
    if a <= b then a else b
  }

  function Max(a: real, b: real): real {
    if a >= b then a else b
  }

  // Component of a vector along axis 0, 1 or 2.
  function Along(v: Vec3, axis: int): real {
    if axis == 0 then v.x else if axis == 1 then v.y else v.z
  }

  predicate IsAxis(axis: int) {
    0 <= axis <= 2
  }

  predicate Slanted(r: Ray) {
    r.direction.x != 0.0 && r.direction.y != 0.0 && r.direction.z != 0.0
  }

  predicate ProperBox(box: Aabb) {
    box.min.x <= box.max.x && box.min.y <= box.max.y && box.min.z <= box.max.z
  }

  // The parameter at which a line of direction d has moved by x.
  function Scaled(x: real, d: real): real
    requires d != 0.0
  {
    x * (1.0 / d)
  }

  // Parameters at which a line crosses the two planes of one axis.
  function Enter(o: real, d: real, lo: real, hi: real): real
    requires d != 0.0
  {
    Min(Scaled(lo - o, d), Scaled(hi - o, d))
  }

  function Leave(o: real, d: real, lo: real, hi: real): real
    requires d != 0.0
  {
    Max(Scaled(lo - o, d), Scaled(hi - o, d))
  }

  function EnterBox(box: Aabb, r: Ray): real
    requires Slanted(r)
  {
    Max(Max(Enter(r.origin.x, r.direction.x, box.min.x, box.max.x),
            Enter(r.origin.y, r.direction.y, box.min.y, box.max.y)),
        Enter(r.origin.z, r.direction.z, box.min.z, box.max.z))
  }

  function LeaveBox(box: Aabb, r: Ray): real
    requires Slanted(r)
  {
    Min(Min(Leave(r.origin.x, r.direction.x, box.min.x, box.max.x),
            Leave(r.origin.y, r.direction.y, box.min.y, box.max.y)),
        Leave(r.origin.z, r.direction.z, box.min.z, box.max.z))
  }

  // aabb::hit
  predicate HitsBox(box: Aabb, r: Ray, tMin: real, tMax: real)
    requires Slanted(r)
  {
    Max(tMin, EnterBox(box, r)) < Min(tMax, LeaveBox(box, r))
  }

  /* ----- what the slab test decides ----- */

  lemma UnscaledIs(x: real, d: real)
    requires d != 0.0
    ensures Scaled(x, d) * d == x
  {
    assert (1.0 / d) * d == 1.0;
    assert x * (1.0 / d) * d == x * ((1.0 / d) * d);
  }

  // Parameters on either side of the one at which the line has moved by x.
  lemma MovedBy(x: real, d: real, t: real)
    requires d != 0.0
    ensures d > 0.0 ==> (Scaled(x, d) <= t <==> x <= t * d)
    ensures d < 0.0 ==> (Scaled(x, d) <= t <==> x >= t * d)
    ensures Scaled(x, d) == t <==> x == t * d
  {
    UnscaledIs(x, d);
    var s := Scaled(x, d);
    assert t * d - s * d == (t - s) * d;
    if s < t { assert if d > 0.0 then (t - s) * d > 0.0 else (t - s) * d < 0.0; }
    if s > t { assert if d > 0.0 then (t - s) * d < 0.0 else (t - s) * d > 0.0; }
  }

  // A slab is entered and left where the coordinate of the line is between its planes.
  lemma SlabExactly(o: real, d: real, lo: real, hi: real, t: real)
    requires d != 0.0 && lo <= hi
    ensures Enter(o, d, lo, hi) <= t <= Leave(o, d, lo, hi) <==> lo <= o + t * d <= hi
  {
    hide Scaled;
    MovedBy(lo - o, d, t);
    MovedBy(hi - o, d, t);
    ScaledOrder(lo - o, hi - o, d);
  }

  // The point of the ray at parameter t lies in the box.
  predicate PointInside(box: Aabb, r: Ray, t: real) {
    && box.min.x <= r.origin.x + t * r.direction.x <= box.max.x
    && box.min.y <= r.origin.y + t * r.direction.y <= box.max.y
    && box.min.z <= r.origin.z + t * r.direction.z <= box.max.z
  }

  lemma InsideExactly(box: Aabb, r: Ray, t: real)
    requires ProperBox(box) && Slanted(r)
    ensures EnterBox(box, r) <= t <= LeaveBox(box, r) <==> PointInside(box, r, t)
  {
    hide Enter, Leave;
    SlabExactly(r.origin.x, r.direction.x, box.min.x, box.max.x, t);
    SlabExactly(r.origin.y, r.direction.y, box.min.y, box.max.y, t);
    SlabExactly(r.origin.z, r.direction.z, box.min.z, box.max.z, t);
  }

  // The test succeeds exactly when two different points of the ray, at parameters in the
  // range, lie in the box.
  lemma HitsExactly(box: Aabb, r: Ray, tMin: real, tMax: real)
    requires ProperBox(box) && Slanted(r)
    ensures HitsBox(box, r, tMin, tMax) <==>
            exists t1, t2 :: tMin <= t1 < t2 <= tMax && PointInside(box, r, t1) && PointInside(box, r, t2)
  {
    hide EnterBox, LeaveBox, PointInside;
    var first, last := Max(tMin, EnterBox(box, r)), Min(tMax, LeaveBox(box, r));
    if first < last {
      InsideExactly(box, r, first);
      InsideExactly(box, r, last);
    }
    forall t1, t2 | tMin <= t1 < t2 <= tMax && PointInside(box, r, t1) && PointInside(box, r, t2)
      ensures first < last
    {
      InsideExactly(box, r, t1);
      InsideExactly(box, r, t2);
    }
  }

  // surrounding_box
  function Surrounding(a: Aabb, b: Aabb): Aabb {
    Aabb(Vec3(Min(a.min.x, b.min.x), Min(a.min.y, b.min.y), Min(a.min.z, b.min.z)),
         Vec3(Max(a.max.x, b.max.x), Max(a.max.y, b.max.y), Max(a.max.z, b.max.z)))
  }

  predicate Contains(outer: Aabb, inner: Aabb) {
    && outer.min.x <= inner.min.x && outer.min.y <= inner.min.y && outer.min.z <= inner.min.z
    && inner.max.x <= outer.max.x && inner.max.y <= outer.max.y && inner.max.z <= outer.max.z
  }

  lemma ScaleOrder(a: real, b: real, k: real)
    requires a <= b
    ensures k >= 0.0 ==> a * k <= b * k
    ensures k <= 0.0 ==> a * k >= b * k
  {
    if k >= 0.0 { assert (b - a) * k >= 0.0; } else { assert (b - a) * k <= 0.0; }
  }

  lemma ScaledOrder(a: real, b: real, d: real)
    requires d != 0.0 && a <= b
    ensures d > 0.0 ==> Scaled(a, d) <= Scaled(b, d)
    ensures d < 0.0 ==> Scaled(a, d) >= Scaled(b, d)
  {
    ScaleOrder(a, b, 1.0 / d);
  }

  // A wider slab is entered no later and left no earlier.
  lemma WiderSlab(o: real, d: real, lo: real, hi: real, lo': real, hi': real)
    requires d != 0.0 && lo' <= lo <= hi <= hi'
    ensures Enter(o, d, lo', hi') <= Enter(o, d, lo, hi)
    ensures Leave(o, d, lo, hi) <= Leave(o, d, lo', hi')
  {
    hide Scaled;
    ScaledOrder(lo' - o, lo - o, d);
    ScaledOrder(lo - o, hi - o, d);
    ScaledOrder(hi - o, hi' - o, d);
  }

  // Monotonicity: a ray that hits a box in a range hits every box around it, in
  // every wider range.
  lemma HitsBoxMonotone(outer: Aabb, inner: Aabb, r: Ray, tMin: real, tMax: real, tMax': real)
    requires Slanted(r) && ProperBox(inner) && Contains(outer, inner) && tMax <= tMax'
    requires HitsBox(inner, r, tMin, tMax)
    ensures HitsBox(outer, r, tMin, tMax')
  {
    hide Enter, Leave;
    WiderSlab(r.origin.x, r.direction.x, inner.min.x, inner.max.x, outer.min.x, outer.max.x);
    WiderSlab(r.origin.y, r.direction.y, inner.min.y, inner.max.y, outer.min.y, outer.max.y);
    WiderSlab(r.origin.z, r.direction.z, inner.min.z, inner.max.z, outer.min.z, outer.max.z);
  }

  lemma SurroundingContains(a: Aabb, b: Aabb)
    requires ProperBox(a) && ProperBox(b)
    ensures Contains(Surrounding(a, b), a) && Contains(Surrounding(a, b), b) && ProperBox(Surrounding(a, b))
    ensures forall c :: Contains(c, a) && Contains(c, b) <==> Contains(c, Surrounding(a, b))
  {
  }
}

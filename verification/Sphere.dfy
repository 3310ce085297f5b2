// The sphere as an object of the scene: it meets the contract the hierarchy relies on.
module Spheres {
  import opened Wrappers
  import opened RayGeometry
  import opened Bvh

  datatype Sphere = Sphere(center: Vec3, radius: real, material: int)

  function Minus(a: Vec3, b: Vec3): Vec3 {
    Vec3(a.x - b.x, a.y - b.y, a.z - b.z)
  }

  // A product with a name, so that most steps below are linear.
  function Times(x: real, y: real): real {
    x * y
  }

  function Dot(a: Vec3, b: Vec3): real {
    Times(a.x, b.x) + Times(a.y, b.y) + Times(a.z, b.z)
  }

  function Square(x: real): real {
    x * x
  }

  lemma PositiveProduct(x: real, y: real, z: real)
    requires z == x * y && ((x > 0.0 && y > 0.0) || (x < 0.0 && y < 0.0))
    ensures z > 0.0
  {
  }

  lemma SquareSign(x: real)
    ensures Square(x) >= 0.0
    ensures x != 0.0 ==> Square(x) > 0.0
  {
    if x != 0.0 { PositiveProduct(x, x, Square(x)); }
  }

  function LengthSquared(v: Vec3): real {
    Square(v.x) + Square(v.y) + Square(v.z)
  }

  lemma LengthSign(v: Vec3)
    ensures LengthSquared(v) >= 0.0
    ensures v.x != 0.0 ==> LengthSquared(v) > 0.0
  {
    hide Square;
    SquareSign(v.x);
    SquareSign(v.y);
    SquareSign(v.z);
  }

  function At(r: Ray, t: real): Vec3 {
    Vec3(r.origin.x + t * r.direction.x, r.origin.y + t * r.direction.y, r.origin.z + t * r.direction.z)
  }

  // The ray is on the surface at t.
  predicate OnSphere(s: Sphere, r: Ray, t: real) {
    LengthSquared(Minus(At(r, t), s.center)) == Square(s.radius)
  }

  // On coordinates: the point of the ray at t is at distance `radius` from the centre.
  lemma OnSphereIs(s: Sphere, r: Ray, t: real)
    ensures var x := r.origin.x + t * r.direction.x - s.center.x;
            var y := r.origin.y + t * r.direction.y - s.center.y;
            var z := r.origin.z + t * r.direction.z - s.center.z;
            OnSphere(s, r, t) <==> x * x + y * y + z * z == s.radius * s.radius
  {
  }

  ghost predicate IsSqrt(sqrt: real -> real) {
    forall x :: 0.0 <= x ==> 0.0 <= sqrt(x) && sqrt(x) * sqrt(x) == x
  }

  function HalfB(s: Sphere, r: Ray): real {
    Dot(Minus(r.origin, s.center), r.direction)
  }

  function Rest(s: Sphere, r: Ray): real {
    LengthSquared(Minus(r.origin, s.center)) - Square(s.radius)
  }

  function Discriminant(s: Sphere, r: Ray): real {
    HalfB(s, r) * HalfB(s, r) - LengthSquared(r.direction) * Rest(s, r)
  }

  // The answer of sphere::hit.
  function Nearest(s: Sphere, sqrt: real -> real, r: Ray, tMin: real, tMax: real): Option<Record> {
    var a := LengthSquared(r.direction);
    if a == 0.0 || Discriminant(s, r) < 0.0 then None
    else
      var near := (-HalfB(s, r) - sqrt(Discriminant(s, r))) / a;
      var far := (-HalfB(s, r) + sqrt(Discriminant(s, r))) / a;
      if tMin <= near <= tMax then Some(Record(near, s.material))
      else if tMin <= far <= tMax then Some(Record(far, s.material))
      else None
  }

  // sphere::hit
  method Hit(s: Sphere, sqrt: real -> real, r: Ray, tMin: real, tMax: real,
             rec: Record) returns (hit: bool, rec': Record)
    requires Slanted(r) && IsSqrt(sqrt)
    ensures hit ==> tMin <= rec'.t <= tMax && OnSphere(s, r, rec'.t) && rec'.data == s.material
    ensures hit ==> forall t :: tMin <= t < rec'.t ==> !OnSphere(s, r, t)
    ensures !hit ==> rec' == rec && forall t :: tMin <= t <= tMax ==> !OnSphere(s, r, t)
    ensures Nearest(s, sqrt, r, tMin, tMax) == if hit then Some(rec') else None
  {
    hide OnSphere, Discriminant, HalfB, LengthSquared;
    LengthSign(r.direction);
    NearestIsNearest(s, sqrt, r, tMin, tMax);
    rec' := rec;
    var a := LengthSquared(r.direction);
    var halfB := HalfB(s, r);
    var discriminant := Discriminant(s, r);
    if discriminant < 0.0 {
      return false, rec';
    }
    var sqrtd := sqrt(discriminant);
    var root := (-halfB - sqrtd) / a;
    if root < tMin || tMax < root {
      root := (-halfB + sqrtd) / a;
      if root < tMin || tMax < root {
        return false, rec';
      }
    }
    rec' := Record(root, s.material);
    hit := true;
  }

  lemma ShiftSquare(o: real, d: real, c: real, t: real)
    ensures Square(o + t * d - c) == Square(o - c) + 2.0 * Times(t, Times(o - c, d)) + Times(t * t, Square(d))
  {
    var v := o - c;
    assert o + t * d - c == v + t * d;
    assert (v + t * d) * (v + t * d) == v * v + 2.0 * (t * (v * d)) + (t * t) * (d * d);
  }

  lemma Distribute(k: real, a: real, b: real, c: real)
    ensures Times(k, a + b + c) == Times(k, a) + Times(k, b) + Times(k, c)
  {
  }

  // The surface is where the quadratic of the ray vanishes.
  lemma SurfaceEquation(s: Sphere, r: Ray, t: real)
    ensures OnSphere(s, r, t) <==>
            Times(t * t, LengthSquared(r.direction)) + 2.0 * Times(t, HalfB(s, r)) + Rest(s, r) == 0.0
  {
    hide Square, Times;
    var o, d, c := r.origin, r.direction, s.center;
    ShiftSquare(o.x, d.x, c.x, t);
    ShiftSquare(o.y, d.y, c.y, t);
    ShiftSquare(o.z, d.z, c.z, t);
    Distribute(t * t, Square(d.x), Square(d.y), Square(d.z));
    Distribute(t, Times(o.x - c.x, d.x), Times(o.y - c.y, d.y), Times(o.z - c.z, d.z));
    assert Minus(At(r, t), c) == Vec3(o.x + t * d.x - c.x, o.y + t * d.y - c.y, o.z + t * d.z - c.z);
    assert LengthSquared(d) == Square(d.x) + Square(d.y) + Square(d.z);
    assert HalfB(s, r) == Times(o.x - c.x, d.x) + Times(o.y - c.y, d.y) + Times(o.z - c.z, d.z);
  }

  lemma CompleteSquare(a: real, b: real, c: real, t: real)
    requires a > 0.0
    ensures Times(t * t, a) + 2.0 * Times(t, b) + c == 0.0 <==> Square(t * a + b) == b * b - a * c
  {
    var q := Times(t * t, a) + 2.0 * Times(t, b) + c;
    assert a * q == (t * a + b) * (t * a + b) - (b * b - a * c);
    assert q == 0.0 <==> a * q == 0.0;
  }

  lemma EqualSquares(x: real, y: real)
    ensures x * x == y * y <==> x == y || x == -y
  {
    assert (x - y) * (x + y) == x * x - y * y;
  }

  lemma Root(a: real, b: real, y: real, t: real)
    requires a > 0.0
    ensures t * a + b == y <==> t == (-b + y) / a
  {
    var q := (-b + y) / a;
    assert q * a == -b + y;
    if t * a + b == y { assert (t - q) * a == 0.0; }
  }

  // The ray is on the surface exactly at the two roots, the lesser one first.
  lemma TwoRoots(s: Sphere, sqrt: real -> real, r: Ray, t: real)
    requires Slanted(r) && IsSqrt(sqrt)
    ensures var a, d, b := LengthSquared(r.direction), Discriminant(s, r), HalfB(s, r);
            && a > 0.0
            && (OnSphere(s, r, t) <==> d >= 0.0 && (t == (-b - sqrt(d)) / a || t == (-b + sqrt(d)) / a))
            && (d >= 0.0 ==> (-b - sqrt(d)) / a <= (-b + sqrt(d)) / a)
  {
    hide OnSphere, LengthSquared, HalfB, Rest, Square, IsSqrt;
    LengthSign(r.direction);
    SurfaceEquation(s, r, t);
    RootsOfQuadratic(LengthSquared(r.direction), HalfB(s, r), Rest(s, r), Discriminant(s, r), sqrt, t);
  }

  lemma RootsOfQuadratic(a: real, b: real, c: real, d: real, sqrt: real -> real, t: real)
    requires a > 0.0 && d == b * b - a * c && IsSqrt(sqrt)
    ensures && (Times(t * t, a) + 2.0 * Times(t, b) + c == 0.0 <==>
                d >= 0.0 && (t == (-b - sqrt(d)) / a || t == (-b + sqrt(d)) / a))
            && (d >= 0.0 ==> (-b - sqrt(d)) / a <= (-b + sqrt(d)) / a)
  {
    hide Square, Times, IsSqrt;
    CompleteSquare(a, b, c, t);
    var u := t * a + b;
    SquareIs(u, d, sqrt);
    Root(a, b, sqrt(d), t);
    Root(a, b, -sqrt(d), t);
    if d >= 0.0 { DivideOrder(-b - sqrt(d), -b + sqrt(d), a); }
  }

  lemma SquareIs(x: real, d: real, sqrt: real -> real)
    requires IsSqrt(sqrt)
    ensures Square(x) == d <==> d >= 0.0 && (x == sqrt(d) || x == -sqrt(d))
    ensures d >= 0.0 ==> sqrt(d) >= 0.0
  {
    SquareSign(x);
    if d >= 0.0 { EqualSquares(x, sqrt(d)); }
  }

  lemma DivideOrder(x: real, y: real, a: real)
    requires a > 0.0 && x <= y
    ensures x / a <= y / a
  {
    ScaleOrder(x, y, 1.0 / a);
    assert x / a == x * (1.0 / a) && y / a == y * (1.0 / a);
  }

  // What sphere::hit is for: the nearest point of the surface in the range.
  lemma NearestIsNearest(s: Sphere, sqrt: real -> real, r: Ray, tMin: real, tMax: real)
    requires Slanted(r) && IsSqrt(sqrt)
    ensures match Nearest(s, sqrt, r, tMin, tMax)
            case None => forall t :: tMin <= t <= tMax ==> !OnSphere(s, r, t)
            case Some(rec) =>
              && tMin <= rec.t <= tMax && OnSphere(s, r, rec.t) && rec.data == s.material
              && forall t :: tMin <= t < rec.t ==> !OnSphere(s, r, t)
  {
    hide OnSphere, Dot, LengthSquared, HalfB, Discriminant;
    forall t ensures var a, d, b := LengthSquared(r.direction), Discriminant(s, r), HalfB(s, r);
            && a > 0.0
            && (OnSphere(s, r, t) <==> d >= 0.0 && (t == (-b - sqrt(d)) / a || t == (-b + sqrt(d)) / a))
            && (d >= 0.0 ==> (-b - sqrt(d)) / a <= (-b + sqrt(d)) / a)
    {
      TwoRoots(s, sqrt, r, t);
    }
  }

  // sphere::bounding_box
  function SphereBox(s: Sphere): Aabb {
    Aabb(Vec3(s.center.x - s.radius, s.center.y - s.radius, s.center.z - s.radius),
         Vec3(s.center.x + s.radius, s.center.y + s.radius, s.center.z + s.radius))
  }

  predicate InBox(box: Aabb, p: Vec3) {
    box.min.x <= p.x <= box.max.x && box.min.y <= p.y <= box.max.y && box.min.z <= p.z <= box.max.z
  }

  predicate OnSurface(s: Sphere, p: Vec3) {
    Square(p.x - s.center.x) + Square(p.y - s.center.y) + Square(p.z - s.center.z) == Square(s.radius)
  }

  // The box is the least one around the surface.
  lemma BoxIsLeast(s: Sphere, box: Aabb)
    requires 0.0 < s.radius
    ensures Contains(box, SphereBox(s)) <==> forall p :: OnSurface(s, p) ==> InBox(box, p)
  {
    hide Square;
    forall p | OnSurface(s, p) ensures InBox(SphereBox(s), p) {
      SurfaceInBox(s, p);
    }
    if forall p :: OnSurface(s, p) ==> InBox(box, p) {
      var c, q := s.center, s.radius;
      Extremes(s);
      assert InBox(box, Vec3(c.x - q, c.y, c.z)) && InBox(box, Vec3(c.x + q, c.y, c.z));
      assert InBox(box, Vec3(c.x, c.y - q, c.z)) && InBox(box, Vec3(c.x, c.y + q, c.z));
      assert InBox(box, Vec3(c.x, c.y, c.z - q)) && InBox(box, Vec3(c.x, c.y, c.z + q));
    }
  }

  lemma SurfaceInBox(s: Sphere, p: Vec3)
    requires 0.0 < s.radius && OnSurface(s, p)
    ensures InBox(SphereBox(s), p)
  {
    hide Square;
    SquareSign(p.x - s.center.x);
    SquareSign(p.y - s.center.y);
    SquareSign(p.z - s.center.z);
    WithinRadius(p.x - s.center.x, s.radius);
    WithinRadius(p.y - s.center.y, s.radius);
    WithinRadius(p.z - s.center.z, s.radius);
  }

  // The six points of the surface on the axes through the centre.
  lemma Extremes(s: Sphere)
    ensures var c, q := s.center, s.radius;
            && OnSurface(s, Vec3(c.x - q, c.y, c.z)) && OnSurface(s, Vec3(c.x + q, c.y, c.z))
            && OnSurface(s, Vec3(c.x, c.y - q, c.z)) && OnSurface(s, Vec3(c.x, c.y + q, c.z))
            && OnSurface(s, Vec3(c.x, c.y, c.z - q)) && OnSurface(s, Vec3(c.x, c.y, c.z + q))
  {
    hide Square;
    var c, q := s.center, s.radius;
    assert Square(0.0) == 0.0 by { SquareOfOne(); }
    SquareOfMinus(q);
    assert c.x - q - c.x == -q && c.y - q - c.y == -q && c.z - q - c.z == -q;
    assert c.x + q - c.x == q && c.y + q - c.y == q && c.z + q - c.z == q;
  }

  function AsObject(s: Sphere, sqrt: real -> real): Object {
    Object((r: Ray, tMin: real, tMax: real) => Nearest(s, sqrt, r, tMin, tMax), SphereBox(s))
  }

  lemma SquareOrder(x: real, y: real)
    requires 0.0 <= x && 0.0 <= y
    ensures Square(x) <= Square(y) <==> x <= y
  {
    if x <= y {
      ScaleOrder(x, y, x);
      ScaleOrder(x, y, y);
    } else {
      PositiveProduct(x - y, x, (x - y) * x);
      ScaleOrder(y, x, y);
    }
  }

  lemma WithinRadius(v: real, radius: real)
    requires 0.0 < radius && Square(v) <= Square(radius)
    ensures -radius <= v <= radius
  {
    hide Square;
    SquareOrder(if v >= 0.0 then v else -v, radius);
    SquareOfMinus(v);
  }

  lemma SquareOfMinus(v: real)
    ensures Square(-v) == Square(v)
  {
  }

  // Where the line is within the slab of one axis; on a face only at distance
  // exactly the radius from the centre along that axis.
  lemma InSlab(o: real, d: real, c: real, radius: real, t: real, v: real)
    requires d != 0.0 && 0.0 < radius && v == o + t * d - c && Square(v) <= Square(radius)
    ensures var enter, leave := Enter(o, d, c - radius, c + radius), Leave(o, d, c - radius, c + radius);
            && enter <= t <= leave && enter < leave
            && (enter == t || leave == t ==> Square(v) == Square(radius))
  {
    WithinRadius(v, radius);
    var k := 1.0 / d;
    assert d * k == 1.0;
    Crossing(c - radius, o, d, t);
    Crossing(c + radius, o, d, t);
    SquareOfMinus(radius);
    Spread(c - radius - o, c + radius - o, k);
  }

  lemma Crossing(face: real, o: real, d: real, t: real)
    requires d != 0.0
    ensures d > 0.0 ==>
              (face <= o + t * d <==> Scaled(face - o, d) <= t) && (face >= o + t * d <==> Scaled(face - o, d) >= t)
    ensures d < 0.0 ==>
              (face <= o + t * d <==> Scaled(face - o, d) >= t) && (face >= o + t * d <==> Scaled(face - o, d) <= t)
  {
    var u := Scaled(face - o, d);
    assert u * d == face - o;
    assert (u - t) * d == face - (o + t * d);
    ProductSign(u - t, d);
  }

  lemma ProductSign(x: real, d: real)
    requires d != 0.0
    ensures d > 0.0 ==> (x * d <= 0.0 <==> x <= 0.0) && (x * d >= 0.0 <==> x >= 0.0)
    ensures d < 0.0 ==> (x * d <= 0.0 <==> x >= 0.0) && (x * d >= 0.0 <==> x <= 0.0)
  {
    if x > 0.0 {
      if d > 0.0 { PositiveProduct(x, d, x * d); } else { PositiveProduct(x, -d, -(x * d)); }
    } else if x < 0.0 {
      if d > 0.0 { PositiveProduct(-x, d, -(x * d)); } else { PositiveProduct(x, d, x * d); }
    }
  }

  lemma Spread(a: real, b: real, k: real)
    requires a < b && k != 0.0
    ensures Min(a * k, b * k) < Max(a * k, b * k)
  {
    ProductSign(b - a, k);
    assert (b - a) * k == b * k - a * k;
  }

  // The box lets every ray through that meets the sphere strictly inside the range:
  // no point of the sphere is on faces of two axes.
  lemma BoxLetsThrough(s: Sphere, r: Ray, t: real, tMin: real, tMax: real)
    requires Slanted(r) && 0.0 < s.radius && OnSphere(s, r, t) && tMin < t < tMax
    ensures HitsBox(SphereBox(s), r, tMin, tMax)
  {
    hide Square, Enter, Leave;
    var o, d, c := r.origin, r.direction, s.center;
    var v := Minus(At(r, t), c);
    assert v == Vec3(o.x + t * d.x - c.x, o.y + t * d.y - c.y, o.z + t * d.z - c.z);
    assert Square(v.x) + Square(v.y) + Square(v.z) == Square(s.radius);
    SquareSign(v.x);
    SquareSign(v.y);
    SquareSign(v.z);
    SquareSign(s.radius);
    InSlab(o.x, d.x, c.x, s.radius, t, v.x);
    InSlab(o.y, d.y, c.y, s.radius, t, v.y);
    InSlab(o.z, d.z, c.z, s.radius, t, v.z);
  }

  lemma SphereAnswers(s: Sphere, sqrt: real -> real, r: Ray, tMin: real, tMax: real)
    requires Slanted(r) && 0.0 < s.radius && IsSqrt(sqrt)
    ensures Answers(AsObject(s, sqrt), r, tMin, tMax)
  {
    hide OnSphere, HitsBox, Nearest;
    NearestIsNearest(s, sqrt, r, tMin, tMax);
    forall t | t <= tMax
      ensures match Nearest(s, sqrt, r, tMin, tMax)
              case None => Nearest(s, sqrt, r, tMin, t) == None
              case Some(rec) => Nearest(s, sqrt, r, tMin, t) == if rec.t <= t then Some(rec) else None
    {
      NearestIsNearest(s, sqrt, r, tMin, t);
    }
    var res := Nearest(s, sqrt, r, tMin, tMax);
    if res.Some? && tMin < res.value.t < tMax { BoxLetsThrough(s, r, res.value.t, tMin, tMax); }
  }

  // A sphere without extent is met by rays its box, a single point, never lets through.
  lemma PointIsNotGood(s: Sphere, sqrt: real -> real)
    requires s.radius == 0.0 && IsSqrt(sqrt)
    ensures !Good(AsObject(s, sqrt))
  {
    hide OnSphere, Nearest;
    var r := Ray(Vec3(s.center.x - 1.0, s.center.y - 1.0, s.center.z - 1.0), Vec3(1.0, 1.0, 1.0));
    NearestIsNearest(s, sqrt, r, 0.0, 2.0);
    MeetsPointOnce(s, r, 1.0);
    var res := Nearest(s, sqrt, r, 0.0, 2.0);
    assert res.Some?;
    MeetsPointOnce(s, r, res.value.t);
    PointBox(s.center.x);
    PointBox(s.center.y);
    PointBox(s.center.z);
    assert !HitsBox(SphereBox(s), r, 0.0, 2.0);
    assert !Answers(AsObject(s, sqrt), r, 0.0, 2.0);
  }

  lemma PointBox(c: real)
    ensures Enter(c - 1.0, 1.0, c, c) == 1.0 && Leave(c - 1.0, 1.0, c, c) == 1.0
  {
  }

  lemma MeetsPointOnce(s: Sphere, r: Ray, t: real)
    requires s.radius == 0.0 && r.direction == Vec3(1.0, 1.0, 1.0)
    requires r.origin == Vec3(s.center.x - 1.0, s.center.y - 1.0, s.center.z - 1.0)
    ensures OnSphere(s, r, t) <==> t == 1.0
  {
    var v := Minus(At(r, t), s.center);
    assert v == Vec3(t - 1.0, t - 1.0, t - 1.0);
    SquareSign(t - 1.0);
    assert LengthSquared(v) == Square(t - 1.0) + Square(t - 1.0) + Square(t - 1.0);
  }

  // Main result: exactly the spheres of positive radius are objects the hierarchy may
  // hold.
  lemma SphereIsGood(s: Sphere, sqrt: real -> real)
    requires IsSqrt(sqrt)
    ensures Good(AsObject(s, sqrt)) <==> 0.0 < s.radius
  {
    hide Answers;
    if 0.0 < s.radius {
      forall r, tMin, tMax | Slanted(r) ensures Answers(AsObject(s, sqrt), r, tMin, tMax) {
        SphereAnswers(s, sqrt, r, tMin, tMax);
      }
    } else if s.radius == 0.0 {
      PointIsNotGood(s, sqrt);
    }
  }

  /* ----- a scene of spheres ----- */

  // The ray meets some sphere at t.
  ghost predicate Meets(spheres: seq<Sphere>, r: Ray, t: real) {
    exists i :: 0 <= i < |spheres| && OnSphere(spheres[i], r, t)
  }

  // It is met there by a sphere of the recorded material.
  ghost predicate ShowsMaterial(spheres: seq<Sphere>, r: Ray, rec: Record) {
    exists i :: 0 <= i < |spheres| && OnSphere(spheres[i], r, rec.t) && rec.data == spheres[i].material
  }

  function Scene(spheres: seq<Sphere>, sqrt: real -> real): (objects: seq<Object>)
    ensures |objects| == |spheres|
    ensures forall i :: 0 <= i < |spheres| ==> objects[i] == AsObject(spheres[i], sqrt)
  {
    seq(|spheres|, i requires 0 <= i < |spheres| => AsObject(spheres[i], sqrt))
  }

  lemma SceneIsGood(spheres: seq<Sphere>, sqrt: real -> real)
    requires IsSqrt(sqrt) && forall i :: 0 <= i < |spheres| ==> 0.0 < spheres[i].radius
    ensures AllGood(Scene(spheres, sqrt))
  {
    hide Good, AsObject, IsSqrt;
    forall i | 0 <= i < |spheres| ensures Good(Scene(spheres, sqrt)[i]) {
      SphereIsGood(spheres[i], sqrt);
    }
  }

  lemma SphereIsMet(s: Sphere, sqrt: real -> real, r: Ray, t: real)
    requires Slanted(r) && IsSqrt(sqrt) && 0.0 < s.radius && OnSphere(s, r, t)
    ensures MetAt(AsObject(s, sqrt), r, t)
  {
    hide OnSphere, Nearest, IsSqrt, HitsBox;
    forall tMin, tMax | tMin < t < tMax
      ensures HitsBox(SphereBox(s), r, tMin, tMax)
      ensures Nearest(s, sqrt, r, tMin, tMax).Some? && Nearest(s, sqrt, r, tMin, tMax).value.t <= t
    {
      BoxLetsThrough(s, r, t, tMin, tMax);
      NearestIsNearest(s, sqrt, r, tMin, tMax);
    }
  }

  // Every crossing strictly inside the range is reported, or one at least as near.
  lemma SceneMisses(spheres: seq<Sphere>, sqrt: real -> real, b: Tree, r: Ray, tMin: real, tMax: real, t: real)
    requires IsSqrt(sqrt) && Slanted(r) && forall i :: 0 <= i < |spheres| ==> 0.0 < spheres[i].radius
    requires Holds(b, Scene(spheres, sqrt)) && tMin < t < tMax && Meets(spheres, r, t)
    ensures Find(b, r, tMin, tMax).Some? && Find(b, r, tMin, tMax).value.t <= t
  {
    hide Good, AllGood, AsObject, IsSqrt, OnSphere, Find, Bounded, MetAt;
    SceneIsGood(spheres, sqrt);
    SameAreGood(Objects(b), Scene(spheres, sqrt));
    var i :| 0 <= i < |spheres| && OnSphere(spheres[i], r, t);
    SphereIsMet(spheres[i], sqrt, r, t);
    assert Scene(spheres, sqrt)[i] in Objects(b);
    var j :| 0 <= j < |Objects(b)| && Objects(b)[j] == Scene(spheres, sqrt)[i];
    MetIsFound(b, r, tMin, tMax, j, t);
  }

  // What is reported is a crossing in the range.
  lemma SceneHit(spheres: seq<Sphere>, sqrt: real -> real, b: Tree, r: Ray, tMin: real, tMax: real)
    requires IsSqrt(sqrt) && Slanted(r) && forall i :: 0 <= i < |spheres| ==> 0.0 < spheres[i].radius
    requires Holds(b, Scene(spheres, sqrt)) && Find(b, r, tMin, tMax).Some?
    ensures var found := Find(b, r, tMin, tMax).value;
            && tMin <= found.t <= tMax && Meets(spheres, r, found.t)
            && ShowsMaterial(spheres, r, found)
  {
    hide Good, AllGood, IsSqrt, OnSphere, Find, Bounded, Nearest;
    SceneIsGood(spheres, sqrt);
    SameAreGood(Objects(b), Scene(spheres, sqrt));
    var i := FindIsSound(b, r, tMin, tMax);
    assert Objects(b)[i] in Scene(spheres, sqrt);
    var j :| 0 <= j < |spheres| && Scene(spheres, sqrt)[j] == Objects(b)[i];
    NearestIsNearest(spheres[j], sqrt, r, tMin, tMax);
  }

  // Main result on the ray tracer: the hierarchy built over a scene of spheres, hit by
  // a ray, reports a point at which the ray meets one of them, and no sphere is met
  // before it strictly inside the range. If none is met exactly at an end of the range,
  // it is the first such point of the range.
  method HitScene(spheres: seq<Sphere>, sqrt: real -> real, sort: (seq<Object>, int) -> seq<Object>,
                  r: Ray, tMin: real, tMax: real, rec: Record) returns (hit: bool, rec': Record)
    requires spheres != [] && forall i :: 0 <= i < |spheres| ==> 0.0 < spheres[i].radius
    requires IsSqrt(sqrt) && IsSort(sort) && Slanted(r)
    ensures hit ==> tMin <= rec'.t <= tMax && Meets(spheres, r, rec'.t)
    ensures hit ==> ShowsMaterial(spheres, r, rec')
    ensures !hit ==> rec' == rec
    ensures forall t :: tMin < t < tMax && Meets(spheres, r, t) ==> hit && rec'.t <= t
    ensures !Meets(spheres, r, tMin) && !Meets(spheres, r, tMax) ==>
              if hit then forall t :: tMin <= t < rec'.t ==> !Meets(spheres, r, t)
              else forall t :: tMin <= t <= tMax ==> !Meets(spheres, r, t)
  {
    hide IsSqrt, IsSort, Meets, Holds, Find, OnSphere;
    var objects := Scene(spheres, sqrt);
    forall i | 0 <= i < |objects| ensures ProperBox(objects[i].box) {
    }
    var tree := Build(objects, 0, |objects|, sort);
    assert objects[0..|objects|] == objects;
    hit, rec' := Bvh.Hit(tree, r, tMin, tMax, rec);
    if hit { SceneHit(spheres, sqrt, tree, r, tMin, tMax); }
    forall t | tMin < t < tMax && Meets(spheres, r, t) ensures hit && rec'.t <= t {
      SceneMisses(spheres, sqrt, tree, r, tMin, tMax, t);
    }
  }

  /* ----- the ends of the range do matter ----- */

  function UnitSphere(): Sphere {
    Sphere(Vec3(0.0, 0.0, 0.0), 1.0, 0)
  }

  function Diagonal(x: real, y: real, z: real): Ray {
    Ray(Vec3(x, y, z), Vec3(1.0, 1.0, 1.0))
  }

  // A hierarchy over one sphere, as the constructor makes it.
  function Single(s: Sphere, sqrt: real -> real): Tree {
    var o := AsObject(s, sqrt);
    Node(Leaf(o), Leaf(o), Surrounding(o.box, o.box))
  }

  lemma SingleHolds(s: Sphere, sqrt: real -> real)
    requires 0.0 < s.radius
    ensures Holds(Single(s, sqrt), [AsObject(s, sqrt)])
  {
    hide SphereBox;
    assert ProperBox(SphereBox(s)) by { SphereBoxIsProper(s); }
    var o := AsObject(s, sqrt);
    JoinHolds(Leaf(o), Leaf(o), [o], [o]);
  }

  lemma SphereBoxIsProper(s: Sphere)
    requires 0.0 < s.radius
    ensures ProperBox(SphereBox(s))
  {
  }

  lemma ListOfOne(o: Object, r: Ray, tMin: real, tMax: real)
    ensures Scan([o], r, tMin, tMax) == o.hit(r, tMin, tMax)
  {
    assert [o][..0] == [];
    assert Scan([o][..0], r, tMin, tMax) == None;
  }

  lemma ShutOut(s: Sphere, sqrt: real -> real, r: Ray, tMin: real, tMax: real)
    requires Slanted(r) && !HitsBox(SphereBox(s), r, tMin, tMax)
    ensures Find(Single(s, sqrt), r, tMin, tMax) == None
  {
    hide Nearest;
    assert Surrounding(SphereBox(s), SphereBox(s)) == SphereBox(s);
  }

  // Where a diagonal ray meets the unit sphere.
  lemma OnUnitSphere(x: real, y: real, z: real, t: real)
    ensures OnSphere(UnitSphere(), Diagonal(x, y, z), t) <==>
            Square(x + t) + Square(y + t) + Square(z + t) == 1.0
  {
    hide Square;
    var v := Minus(At(Diagonal(x, y, z), t), UnitSphere().center);
    assert v == Vec3(x + t, y + t, z + t);
    assert Square(1.0) == 1.0 by { SquareOfOne(); }
  }

  lemma SquareOfOne()
    ensures Square(1.0) == 1.0 && Square(-1.0) == 1.0 && Square(0.0) == 0.0
  {
  }

  lemma UnitSlab(o: real)
    ensures Enter(o, 1.0, -1.0, 1.0) == -1.0 - o && Leave(o, 1.0, -1.0, 1.0) == 1.0 - o
  {
    assert Scaled(-1.0 - o, 1.0) == -1.0 - o && Scaled(1.0 - o, 1.0) == 1.0 - o;
  }

  // The far end: the unit sphere is met first at t = 1, on the near face of its box.
  // On the range [0, 1] the list reports that, the hierarchy nothing.
  lemma FarEndIsLost(sqrt: real -> real)
    requires IsSqrt(sqrt)
    ensures var s, r := UnitSphere(), Diagonal(-2.0, -1.0, -1.0);
            && Holds(Single(s, sqrt), [AsObject(s, sqrt)])
            && Scan([AsObject(s, sqrt)], r, 0.0, 1.0) == Some(Record(1.0, s.material))
            && Find(Single(s, sqrt), r, 0.0, 1.0) == None
  {
    hide OnSphere, Nearest, IsSqrt, Enter, Leave, Find, Scan, Square;
    var s, r := UnitSphere(), Diagonal(-2.0, -1.0, -1.0);
    SingleHolds(s, sqrt);
    ListOfOne(AsObject(s, sqrt), r, 0.0, 1.0);
    NearestIsNearest(s, sqrt, r, 0.0, 1.0);
    OnUnitSphere(-2.0, -1.0, -1.0, 1.0);
    SquareOfOne();
    assert OnSphere(s, r, 1.0);
    var res := Nearest(s, sqrt, r, 0.0, 1.0);
    assert res.Some?;
    OnUnitSphere(-2.0, -1.0, -1.0, res.value.t);
    FarCrossing(res.value.t);
    UnitSlab(-2.0);
    UnitSlab(-1.0);
    ShutOut(s, sqrt, r, 0.0, 1.0);
  }

  lemma FarCrossing(t: real)
    requires t <= 1.0 && Square(-2.0 + t) + Square(-1.0 + t) + Square(-1.0 + t) == 1.0
    ensures t == 1.0
  {
    var z := (3.0 * t - 5.0) * (t - 1.0);
    assert z == 0.0;
    if t < 1.0 { PositiveProduct(3.0 * t - 5.0, t - 1.0, z); }
  }

  // The near end: the unit sphere is met for the last time at t = 1, on the far face of
  // its box. On the range [1, 2] the list reports that, the hierarchy nothing.
  lemma NearEndIsLost(sqrt: real -> real)
    requires IsSqrt(sqrt)
    ensures var s, r := UnitSphere(), Diagonal(0.0, -1.0, -1.0);
            && Holds(Single(s, sqrt), [AsObject(s, sqrt)])
            && Scan([AsObject(s, sqrt)], r, 1.0, 2.0) == Some(Record(1.0, s.material))
            && Find(Single(s, sqrt), r, 1.0, 2.0) == None
  {
    hide OnSphere, Nearest, IsSqrt, Enter, Leave, Find, Scan, Square;
    var s, r := UnitSphere(), Diagonal(0.0, -1.0, -1.0);
    SingleHolds(s, sqrt);
    ListOfOne(AsObject(s, sqrt), r, 1.0, 2.0);
    NearestIsNearest(s, sqrt, r, 1.0, 2.0);
    OnUnitSphere(0.0, -1.0, -1.0, 1.0);
    SquareOfOne();
    assert OnSphere(s, r, 1.0);
    UnitSlab(0.0);
    UnitSlab(-1.0);
    ShutOut(s, sqrt, r, 1.0, 2.0);
  }
}

/** The sphere primitive: the ray-sphere quadratic (`Sphere::test`) and the
    nearest-hit and any-hit queries built on it. */
module Shapes {
  import opened Wrappers
  import opened Geometry

  /** Handle of the shading model (BSDF) attached to a primitive. */
  type Bsdf = nat

  /** A sphere with centre `o`, radius `r` and its BSDF; `r2` is `r * r`. */
  datatype Sphere = Sphere(o: Vec3, r: real, bsdf: Bsdf)

  function R2(s: Sphere): real { s.r * s.r }

  /** The intersection record: hit parameter, hit primitive, normal, BSDF. */
  datatype Isect = Isect(t: real, prim: Sphere, n: Vec3, bsdf: Bsdf)

  /** Outcome of a nearest-hit query: the hit flag, the ray with its possibly
      shrunk `maxT`, and the intersection record. */
  datatype Hit = Hit(hit: bool, ray: Ray, isect: Option<Isect>)

  /** A ray direction the quadratic can divide by. */
  predicate ValidDir(d: Vec3) { Dot(d, d) > 0.0 }

  /** Axis-aligned bounds of a sphere (centre plus/minus the radius). */
  function SphereBox(s: Sphere): BBox {
    Box(Sub(s.o, Vec3(s.r, s.r, s.r)), Add(s.o, Vec3(s.r, s.r, s.r)))
  }

  // Coefficients of a t^2 + b t + c = 0 for the ray against the sphere.
  function QA(s: Sphere, r: Ray): real { Dot(r.d, r.d) }
  function QB(s: Sphere, r: Ray): real { 2.0 * Dot(Sub(r.o, s.o), r.d) }
  function QC(s: Sphere, r: Ray): real { Dot(Sub(r.o, s.o), Sub(r.o, s.o)) - R2(s) }

  function Discriminant(s: Sphere, r: Ray): real {
    QB(s, r) * QB(s, r) - 4.0 * QA(s, r) * QC(s, r)
  }

  /** The point at parameter x along the ray lies on the sphere's surface. */
  ghost predicate OnSurface(s: Sphere, r: Ray, x: real) {
    var p := Sub(At(r, x), s.o);
    Dot(p, p) == R2(s)
  }

  /** Sphere::test: the two roots, smaller first, or None when the
      discriminant is negative. */
  function Test(s: Sphere, r: Ray, sqrt: real -> real): (res: Option<(real, real)>)
    requires ValidDir(r.d)
    ensures res.None? <==> Discriminant(s, r) < 0.0
    ensures res.Some? ==> res.value.0 <= res.value.1
  {
    var a := QA(s, r);
    var b := QB(s, r);
    var disc := Discriminant(s, r);
    if disc < 0.0 then None
    else
      var t1 := (-b - sqrt(disc)) / (2.0 * a);
      var t2 := (-b + sqrt(disc)) / (2.0 * a);
      if t1 > t2 then Some((t2, t1)) else Some((t1, t2))
  }

  /** Sphere::has_intersection. Like the source, it writes the hit parameter
      into the ray's `maxT` on success. */
  function HasIntersection(s: Sphere, r: Ray, sqrt: real -> real): (res: (bool, Ray))
    requires ValidDir(r.d)
    ensures !res.0 ==> res.1 == r
    ensures res.0 ==> res.1.maxT.Fin? && res.1 == r.(maxT := res.1.maxT)
    ensures res.0 ==> r.minT <= res.1.maxT.v && AtMost(res.1.maxT.v, r.maxT)
  {
    match Test(s, r, sqrt)
    case None => (false, r)
    case Some((t1, t2)) =>
      var tHit := if t1 < r.minT then t2 else t1;
      if tHit < r.minT || !AtMost(tHit, r.maxT) then (false, r)
      else (true, r.(maxT := Fin(tHit)))
  }

  /** Sphere::intersect: on a hit the ray's `maxT` becomes the hit parameter
      and the record names this sphere and its BSDF; on a miss nothing
      changes. */
  function Intersect(s: Sphere, r: Ray, i: Option<Isect>, sqrt: real -> real): (res: Hit)
    requires ValidDir(r.d)
    ensures !res.hit ==> res.ray == r && res.isect == i
    ensures res.hit ==> res.isect.Some? && res.ray == r.(maxT := Fin(res.isect.value.t))
    ensures res.hit ==> r.minT <= res.isect.value.t && AtMost(res.isect.value.t, r.maxT)
    ensures res.hit ==> res.isect.value.prim == s && res.isect.value.bsdf == s.bsdf
    ensures ExtLe(res.ray.maxT, r.maxT)
  {
    match Test(s, r, sqrt)
    case None => Hit(false, r, i)
    case Some((t1, t2)) =>
      var tHit := if t1 < r.minT then t2 else t1;
      if tHit < r.minT || !AtMost(tHit, r.maxT) then Hit(false, r, i)
      else
        Hit(true, r.(maxT := Fin(tHit)), Some(Isect(tHit, s, Unit(Sub(At(r, tHit), s.o), sqrt), s.bsdf)))
  }

  /** The parameter the sphere would report regardless of `maxT`: the smaller
      root unless it lies before `minT`, and only if the result is at or
      beyond `minT`. */
  function Candidate(s: Sphere, r: Ray, sqrt: real -> real): Option<real>
    requires ValidDir(r.d)
  {
    match Test(s, r, sqrt)
    case None => None
    case Some((t1, t2)) =>
      var t := if t1 < r.minT then t2 else t1;
      if t < r.minT then None else Some(t)
  }

  /** The sphere accepts the ray: a candidate exists within `maxT`. */
  predicate Accepts(s: Sphere, r: Ray, sqrt: real -> real)
    requires ValidDir(r.d)
  {
    var c := Candidate(s, r, sqrt);
    c.Some? && AtMost(c.value, r.maxT)
  }

  /** Both queries run the same acceptance test, so they agree on whether the
      sphere is hit, and both leave the ray in the same state. */
  lemma QueriesAgree(s: Sphere, r: Ray, i: Option<Isect>, sqrt: real -> real)
    requires ValidDir(r.d)
    ensures HasIntersection(s, r, sqrt).0 == Intersect(s, r, i, sqrt).hit
    ensures HasIntersection(s, r, sqrt).1 == Intersect(s, r, i, sqrt).ray
    ensures Intersect(s, r, i, sqrt).hit == Accepts(s, r, sqrt)
    ensures Intersect(s, r, i, sqrt).hit ==> Intersect(s, r, i, sqrt).isect.value.t == Candidate(s, r, sqrt).value
  {
  }

  /** The candidate does not depend on `maxT`. */
  lemma CandidateIgnoresMaxT(s: Sphere, r: Ray, m: Ext, sqrt: real -> real)
    requires ValidDir(r.d)
    ensures Candidate(s, r.(maxT := m), sqrt) == Candidate(s, r, sqrt)
  {
    var r' := r.(maxT := m);
    assert r'.o == r.o && r'.d == r.d && r'.minT == r.minT;
    assert QA(s, r') == QA(s, r) && QB(s, r') == QB(s, r) && QC(s, r') == QC(s, r);
    assert Discriminant(s, r') == Discriminant(s, r);
    assert Test(s, r', sqrt) == Test(s, r, sqrt);
  }

  /** |o + x d - c|^2 = a x^2 + b x + c': the surface condition is the
      quadratic Sphere::test solves. */
  lemma SurfaceIsQuadratic(s: Sphere, r: Ray, x: real)
    ensures OnSurface(s, r, x) <==> QA(s, r) * x * x + QB(s, r) * x + QC(s, r) == 0.0
  {
    var oc := Sub(r.o, s.o);
    var p := Sub(At(r, x), s.o);
    assert p == Add(oc, Scale(r.d, x));
    DistanceIsQuadratic(oc, r.d, x);
    assert Dot(p, p) == QA(s, r) * x * x + QB(s, r) * x + Dot(oc, oc);
  }

  /** |oc + x d|^2 = (d.d) x^2 + 2 (oc.d) x + oc.oc. */
  lemma DistanceIsQuadratic(oc: Vec3, d: Vec3, x: real)
    ensures var p := Add(oc, Scale(d, x)); Dot(p, p) == Dot(d, d) * x * x + 2.0 * Dot(oc, d) * x + Dot(oc, oc)
  {
    SquareExpands(oc.x, d.x, x);
    SquareExpands(oc.y, d.y, x);
    SquareExpands(oc.z, d.z, x);
  }

  lemma SquareExpands(o: real, d: real, x: real)
    ensures (o + x * d) * (o + x * d) == o * o + 2.0 * x * (o * d) + x * x * (d * d)
  {
  }

  lemma SquareNonNegative(v: real)
    ensures v * v >= 0.0
  {
    if v < 0.0 {
      assert v * v == (-v) * (-v);
    }
  }

  lemma ProductSign(p: real, q: real)
    ensures p >= 0.0 && q <= 0.0 ==> p * q <= 0.0
  {
  }

  lemma ProductIsZero(p: real, q: real)
    ensures p * q == 0.0 <==> p == 0.0 || q == 0.0
  {
    if p != 0.0 && p * q == 0.0 {
      assert q == (p * q) / p;
    }
  }

  /** With a > 0 and a negative discriminant, a x^2 + b x + c has no real
      root. */
  lemma NoRealRoot(a: real, b: real, c: real, x: real)
    requires a > 0.0 && b * b - 4.0 * a * c < 0.0
    ensures a * x * x + b * x + c != 0.0
  {
    // 4a (a x^2 + b x + c) = (2ax + b)^2 - disc > 0
    var q := a * x * x + b * x + c;
    assert 4.0 * a * q == (2.0 * a * x + b) * (2.0 * a * x + b) - (b * b - 4.0 * a * c);
    SquareNonNegative(2.0 * a * x + b);
    ProductSign(4.0 * a, q);
  }

  /** With a > 0 and s^2 = b^2 - 4ac, the reals solving a x^2 + b x + c = 0
      are exactly (-b - s) / 2a and (-b + s) / 2a. */
  lemma QuadraticRoots(a: real, b: real, c: real, s: real, x: real)
    requires a > 0.0 && s >= 0.0 && s * s == b * b - 4.0 * a * c
    ensures (-b - s) / (2.0 * a) <= (-b + s) / (2.0 * a)
    ensures a * x * x + b * x + c == 0.0 <==> x == (-b - s) / (2.0 * a) || x == (-b + s) / (2.0 * a)
  {
    var u := -b - s;
    var w := -b + s;
    assert 4.0 * a * (a * x * x + b * x + c) == (2.0 * a * x - u) * (2.0 * a * x - w);
    ProductIsZero(2.0 * a * x - u, 2.0 * a * x - w);
    assert 2.0 * a * x == u <==> x == u / (2.0 * a);
    assert 2.0 * a * x == w <==> x == w / (2.0 * a);
  }

  /** With an exact square root, the roots Sphere::test reports are exactly
      the solutions of its quadratic. */
  lemma TestSolvesQuadratic(s: Sphere, r: Ray, sqrt: real -> real, x: real)
    requires ValidDir(r.d) && IsSqrt(sqrt)
    ensures QA(s, r) * x * x + QB(s, r) * x + QC(s, r) == 0.0
        <==> Test(s, r, sqrt).Some? && (x == Test(s, r, sqrt).value.0 || x == Test(s, r, sqrt).value.1)
  {
    var disc := Discriminant(s, r);
    if disc < 0.0 {
      NoRealRoot(QA(s, r), QB(s, r), QC(s, r), x);
    } else {
      assert 0.0 <= sqrt(disc) && sqrt(disc) * sqrt(disc) == disc;
      RealRootsSolve(s, r, sqrt, x);
    }
  }

  /** The case of a non-negative discriminant, given that `sqrt` is exact
      there. */
  lemma RealRootsSolve(s: Sphere, r: Ray, sqrt: real -> real, x: real)
    requires ValidDir(r.d)
    requires var disc := Discriminant(s, r); 0.0 <= disc && 0.0 <= sqrt(disc) && sqrt(disc) * sqrt(disc) == disc
    ensures QA(s, r) * x * x + QB(s, r) * x + QC(s, r) == 0.0
        <==> Test(s, r, sqrt).Some? && (x == Test(s, r, sqrt).value.0 || x == Test(s, r, sqrt).value.1)
  {
    var a, b, c := QA(s, r), QB(s, r), QC(s, r);
    var sq := sqrt(Discriminant(s, r));
    QuadraticRoots(a, b, c, sq, x);
    assert Test(s, r, sqrt) == Some(((-b - sq) / (2.0 * a), (-b + sq) / (2.0 * a)));
  }

  /** With an exact square root, Sphere::test reports exactly the two
      parameters at which the ray meets the surface. */
  lemma TestFindsSurface(s: Sphere, r: Ray, sqrt: real -> real, x: real)
    requires ValidDir(r.d) && IsSqrt(sqrt)
    ensures OnSurface(s, r, x) <==> Test(s, r, sqrt).Some? && (x == Test(s, r, sqrt).value.0 || x == Test(s, r, sqrt).value.1)
  {
    SurfaceIsQuadratic(s, r, x);
    TestSolvesQuadratic(s, r, sqrt, x);
  }

  /** Sphere::intersect reports the nearest surface point at or beyond
      `minT`, and only when it lies within `maxT`; a miss means no surface
      point lies in `[minT, maxT]`. */
  lemma {:induction false} IntersectIsNearest(s: Sphere, r: Ray, i: Option<Isect>, sqrt: real -> real)
    requires ValidDir(r.d) && IsSqrt(sqrt)
    ensures var h := Intersect(s, r, i, sqrt);
            h.hit ==> OnSurface(s, r, h.isect.value.t)
                      && forall x :: OnSurface(s, r, x) && r.minT <= x ==> h.isect.value.t <= x
    ensures !Intersect(s, r, i, sqrt).hit ==>
              forall x :: OnSurface(s, r, x) && r.minT <= x ==> !AtMost(x, r.maxT)
  {
    forall x | OnSurface(s, r, x)
      ensures Test(s, r, sqrt).Some? && (x == Test(s, r, sqrt).value.0 || x == Test(s, r, sqrt).value.1)
    {
      TestFindsSurface(s, r, sqrt, x);
    }
    match Test(s, r, sqrt)
    case None =>
    case Some((t1, t2)) =>
      TestFindsSurface(s, r, sqrt, t1);
      TestFindsSurface(s, r, sqrt, t2);
  }

  /** With an exact square root, the candidate is the nearest point of the
      surface at or beyond `minT`, and there is none when it is absent. */
  lemma {:induction false} CandidateIsNearestSurface(s: Sphere, r: Ray, sqrt: real -> real)
    requires ValidDir(r.d) && IsSqrt(sqrt)
    ensures var c := Candidate(s, r, sqrt);
            c.Some? ==> OnSurface(s, r, c.value) && r.minT <= c.value
                        && forall x :: OnSurface(s, r, x) && r.minT <= x ==> c.value <= x
    ensures Candidate(s, r, sqrt).None? ==> forall x :: OnSurface(s, r, x) ==> x < r.minT
  {
    forall x | OnSurface(s, r, x)
      ensures Test(s, r, sqrt).Some? && (x == Test(s, r, sqrt).value.0 || x == Test(s, r, sqrt).value.1)
    {
      TestFindsSurface(s, r, sqrt, x);
    }
    match Test(s, r, sqrt)
    case None =>
    case Some((t1, t2)) =>
      TestFindsSurface(s, r, sqrt, t1);
      TestFindsSurface(s, r, sqrt, t2);
  }

  /** With an exact square root, the reported normal of a sphere of non-zero
      radius has unit length and points from the centre to the hit point. */
  lemma {:induction false} NormalIsUnit(s: Sphere, r: Ray, i: Option<Isect>, sqrt: real -> real)
    requires ValidDir(r.d) && IsSqrt(sqrt) && s.r != 0.0
    ensures var h := Intersect(s, r, i, sqrt);
            h.hit ==> Dot(h.isect.value.n, h.isect.value.n) == 1.0
                      && exists k: real :: k > 0.0 && h.isect.value.n == Scale(Sub(At(r, h.isect.value.t), s.o), k)
  {
    var h := Intersect(s, r, i, sqrt);
    if h.hit {
      var t := h.isect.value.t;
      var p := Sub(At(r, t), s.o);
      IntersectIsNearest(s, r, i, sqrt);
      assert Dot(p, p) == R2(s);
      SquareNonNegative(s.r);
      ProductIsZero(s.r, s.r);
      UnitHasLengthOne(p, sqrt);
      var len := sqrt(Dot(p, p));
      assert len * len == Dot(p, p);
      assert len != 0.0;
      assert len > 0.0;
      assert h.isect.value.n == Scale(p, 1.0 / len);
    }
  }

  /** A ray from outside a sphere, aimed at its centre from any direction
      `u`, first meets it at distance (origin distance - radius). */
  lemma {:induction false} AimedAtCentre(c: Vec3, u: Vec3, rad: real, dist: real, bsdf: Bsdf, sqrt: real -> real)
    requires Dot(u, u) == 1.0 && 0.0 < rad < dist
    requires sqrt(4.0 * rad * rad) == 2.0 * rad
    ensures var r := Ray(Add(c, Scale(u, dist)), Neg(u), 0.0, Inf, 0);
            var h := Intersect(Sphere(c, rad, bsdf), r, None, sqrt);
            h.hit && h.isect.value.t == dist - rad
  {
    var s := Sphere(c, rad, bsdf);
    var r := Ray(Add(c, Scale(u, dist)), Neg(u), 0.0, Inf, 0);
    AimedCoefficients(c, u, rad, dist, bsdf);
    assert Discriminant(s, r) == 4.0 * rad * rad;
    assert Test(s, r, sqrt) == Some((dist - rad, dist + rad));
  }

  /** The quadratic of such a ray: t^2 - 2 dist t + dist^2 - rad^2. */
  lemma AimedCoefficients(c: Vec3, u: Vec3, rad: real, dist: real, bsdf: Bsdf)
    requires Dot(u, u) == 1.0
    ensures var s := Sphere(c, rad, bsdf);
            var r := Ray(Add(c, Scale(u, dist)), Neg(u), 0.0, Inf, 0);
            QA(s, r) == 1.0 && QB(s, r) == -2.0 * dist && QC(s, r) == dist * dist - rad * rad
  {
    var s := Sphere(c, rad, bsdf);
    var r := Ray(Add(c, Scale(u, dist)), Neg(u), 0.0, Inf, 0);
    assert Sub(r.o, s.o) == Scale(u, dist);
    assert Dot(Neg(u), Neg(u)) == Dot(u, u);
    assert Dot(Scale(u, dist), Neg(u)) == -dist * Dot(u, u);
    assert Dot(Scale(u, dist), Scale(u, dist)) == dist * dist * Dot(u, u);
  }
}

/** Vectors, extended reals and axis-aligned bounding boxes (the parts of CGL's
    Vector3D and BBox that the renderer core relies on), over exact reals. */
module Geometry {

  /** A 3-vector; also used for RGB radiance, as Vector3D is in the renderer. */
  datatype Vec3 = Vec3(x: real, y: real, z: real)

  const Zero: Vec3 := Vec3(0.0, 0.0, 0.0)

  function Add(a: Vec3, b: Vec3): Vec3 { Vec3(a.x + b.x, a.y + b.y, a.z + b.z) }

  function Sub(a: Vec3, b: Vec3): Vec3 { Vec3(a.x - b.x, a.y - b.y, a.z - b.z) }

  function Neg(a: Vec3): Vec3 { Vec3(-a.x, -a.y, -a.z) }

  function Scale(a: Vec3, k: real): Vec3 { Vec3(a.x * k, a.y * k, a.z * k) }

  /** Component-wise product, Vector3D's `operator*` between two vectors. */
  function Mul(a: Vec3, b: Vec3): Vec3 { Vec3(a.x * b.x, a.y * b.y, a.z * b.z) }

  function Dot(a: Vec3, b: Vec3): real { a.x * b.x + a.y * b.y + a.z * b.z }

  /** Coordinate `axis` (0, 1 or 2) of a vector, Vector3D's `operator[]`. */
  function Coord(v: Vec3, axis: nat): real
    requires axis < 3
  {
    if axis == 0 then v.x else if axis == 1 then v.y else v.z
  }

  /** What the abstract square root promises: a non-negative root. */
  ghost predicate IsSqrt(sqrt: real -> real) {
    forall d :: 0.0 <= d ==> 0.0 <= sqrt(d) && sqrt(d) * sqrt(d) == d
  }

  /** Vector3D::unit: the vector divided by its length. The zero vector,
      whose unit is NaN in floating point, is returned unchanged. */
  function Unit(v: Vec3, sqrt: real -> real): Vec3 {
    var len := sqrt(Dot(v, v));
    if len == 0.0 then v else Scale(v, 1.0 / len)
  }

  /** With an exact square root, a non-zero vector's unit has length one. */
  lemma UnitHasLengthOne(v: Vec3, sqrt: real -> real)
    requires IsSqrt(sqrt) && Dot(v, v) > 0.0
    ensures Dot(Unit(v, sqrt), Unit(v, sqrt)) == 1.0
  {
    var len := sqrt(Dot(v, v));
    assert len * len == Dot(v, v);
    var k := 1.0 / len;
    assert Dot(Scale(v, k), Scale(v, k)) == k * k * Dot(v, v);
    assert k * len == 1.0;
  }

  lemma MulAssociates(a: Vec3, b: Vec3, c: Vec3)
    ensures Mul(Mul(a, b), c) == Mul(a, Mul(b, c))
  {
  }

  lemma MulDistributes(a: Vec3, b: Vec3, c: Vec3)
    ensures Mul(a, Add(b, c)) == Add(Mul(a, b), Mul(a, c))
  {
  }

  /** Scaling a product scales either factor. */
  lemma ScaleMulCommutes(a: Vec3, b: Vec3, t: real)
    ensures Scale(Mul(a, b), t) == Mul(Scale(a, t), b)
  {
    assert a.x * b.x * t == a.x * t * b.x;
    assert a.y * b.y * t == a.y * t * b.y;
    assert a.z * b.z * t == a.z * t * b.z;
  }

  /** Component-wise order. */
  predicate LeVec(a: Vec3, b: Vec3) { a.x <= b.x && a.y <= b.y && a.z <= b.z }

  function MinVec(a: Vec3, b: Vec3): Vec3 {
    Vec3(if a.x <= b.x then a.x else b.x, if a.y <= b.y then a.y else b.y, if a.z <= b.z then a.z else b.z)
  }

  function MaxVec(a: Vec3, b: Vec3): Vec3 {
    Vec3(if a.x >= b.x then a.x else b.x, if a.y >= b.y then a.y else b.y, if a.z >= b.z then a.z else b.z)
  }

  /** A real or plus infinity: a ray's `max_t` starts at infinity. */
  datatype Ext = Fin(v: real) | Inf

  /** `t <= e` */
  predicate AtMost(t: real, e: Ext) { e.Inf? || t <= e.v }

  /** `a <= b` on extended reals. */
  predicate ExtLe(a: Ext, b: Ext) { b.Inf? || (a.Fin? && a.v <= b.v) }

  /** A ray: origin, direction, the parametric window `[minT, maxT]` and the
      remaining bounce budget. */
  datatype Ray = Ray(o: Vec3, d: Vec3, minT: real, maxT: Ext, depth: int)

  /** Point at parameter t along the ray. */
  function At(r: Ray, t: real): Vec3 { Add(r.o, Scale(r.d, t)) }

  /** An axis-aligned box; `Empty` is the default-constructed BBox, which
      every expansion overwrites. */
  datatype BBox = Empty | Box(lo: Vec3, hi: Vec3)

  /** BBox::expand: the smallest box holding both arguments. */
  function Expand(a: BBox, b: BBox): BBox {
    match (a, b)
    case (Empty, _) => b
    case (_, Empty) => a
    case (Box(l1, h1), Box(l2, h2)) => Box(MinVec(l1, l2), MaxVec(h1, h2))
  }

  /** The expanded box holds both arguments and lies inside every box that
      holds both, so it is their least upper bound under containment. */
  lemma ExpandIsUnion(a: BBox, b: BBox)
    ensures Contains(Expand(a, b), a) && Contains(Expand(a, b), b)
    ensures forall d: BBox :: Contains(d, a) && Contains(d, b) ==> Contains(d, Expand(a, b))
  {
  }

  /** `outer` contains `inner`; the empty box is contained in every box. */
  predicate Contains(outer: BBox, inner: BBox) {
    match inner
    case Empty => true
    case Box(l, h) => outer.Box? && LeVec(outer.lo, l) && LeVec(h, outer.hi)
  }

  lemma ContainsTransitive(a: BBox, b: BBox, c: BBox)
    requires Contains(a, b) && Contains(b, c)
    ensures Contains(a, c)
  {
  }

  function Centroid(b: BBox): Vec3
    requires b.Box?
  {
    Scale(Add(b.lo, b.hi), 0.5)
  }

  function Extent(b: BBox): Vec3
    requires b.Box?
  {
    Sub(b.hi, b.lo)
  }

  /** 2 (dx dy + dy dz + dz dx), as the split-cost computation writes it; the
      empty box has no area. */
  function SurfaceArea(b: BBox): real {
    if b.Empty? then 0.0
    else
      var e := Extent(b);
      2.0 * (e.x * e.y + e.y * e.z + e.z * e.x)
  }
}

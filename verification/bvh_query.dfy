/** BVHAccel::intersect and BVHAccel::has_intersection: the recursive
    traversals that prune subtrees whose box the ray misses, and what they
    report for a tree built by construct_bvh. */
module BvhQuery {
  import opened Wrappers
  import opened Geometry
  import opened Shapes
  import opened Bvh

  /** The slab test BBox::intersect, against the ray's current window. */
  type BoxTest = (BBox, Ray) -> bool

  /** Every leaf's range lies inside the primitive array. */
  ghost predicate InRange(n: Node, len: nat) {
    match n
    case Null => true
    case Leaf(_, s, e) => s <= e <= len
    case Inner(_, l, r) => InRange(l, len) && InRange(r, len)
  }

  lemma {:induction false} TilesInRange(n: Node, lo: nat, hi: nat, len: nat)
    requires Tiles(n, lo, hi) && hi <= len
    ensures InRange(n, len)
  {
    match n
    case Leaf(_, _, _) =>
    case Inner(_, l, r) =>
      TilesBounds(l, lo, Hi(l));
      TilesInRange(l, lo, Hi(l), len);
      TilesInRange(r, Hi(l), hi, len);
  }

  /** What a nearest-hit query promises about one call: `maxT` never grows;
      a miss changes nothing; a hit shrinks `maxT` to the recorded parameter,
      which lies in the ray's window. */
  predicate Reports(r: Ray, i: Option<Isect>, res: Hit) {
    && ExtLe(res.ray.maxT, r.maxT)
    && (!res.hit ==> res.ray == r && res.isect == i)
    && (res.hit ==> res.isect.Some? && res.ray == r.(maxT := Fin(res.isect.value.t))
                    && r.minT <= res.isect.value.t && AtMost(res.isect.value.t, r.maxT))
  }

  /** The leaf loop of BVHAccel::intersect over `prims[k..e]`: every
      primitive is tested, each against the ray as the previous ones left
      it, and the flag records whether any of them hit. */
  function LeafHit(prims: seq<Sphere>, k: nat, e: nat, r: Ray, i: Option<Isect>, sqrt: real -> real): (res: Hit)
    requires k <= e <= |prims| && ValidDir(r.d)
    ensures Reports(r, i, res)
    decreases e - k
  {
    if k == e then Hit(false, r, i)
    else
      var h := Intersect(prims[k], r, i, sqrt);
      var rest := LeafHit(prims, k + 1, e, h.ray, h.isect, sqrt);
      Hit(h.hit || rest.hit, rest.ray, rest.isect)
  }

  /** BVHAccel::intersect(ray, i, node): a null node or a missed box reports
      no hit; a leaf runs its loop; an internal node visits the left child
      and then the right child with the ray the left one left behind. */
  function NodeHit(prims: seq<Sphere>, n: Node, r: Ray, i: Option<Isect>, boxHit: BoxTest, sqrt: real -> real): (res: Hit)
    requires InRange(n, |prims|) && ValidDir(r.d)
    ensures Reports(r, i, res)
    ensures n.Null? || !boxHit(n.bb, r) ==> !res.hit
  {
    match n
    case Null => Hit(false, r, i)
    case Leaf(bb, s, e) =>
      if !boxHit(bb, r) then Hit(false, r, i) else LeafHit(prims, s, e, r, i, sqrt)
    case Inner(bb, l, rt) =>
      if !boxHit(bb, r) then Hit(false, r, i)
      else
        var hl := NodeHit(prims, l, r, i, boxHit, sqrt);
        var hr := NodeHit(prims, rt, hl.ray, hl.isect, boxHit, sqrt);
        Hit(hl.hit || hr.hit, hr.ray, hr.isect)
  }

  /** What an any-hit query promises: a miss leaves the ray alone; a hit
      sets `maxT` to a parameter inside the ray's window. */
  predicate AnyReports(r: Ray, res: (bool, Ray)) {
    && (!res.0 ==> res.1 == r)
    && (res.0 ==> res.1.maxT.Fin? && res.1 == r.(maxT := res.1.maxT)
                  && r.minT <= res.1.maxT.v && AtMost(res.1.maxT.v, r.maxT))
  }

  /** The leaf loop of BVHAccel::has_intersection: it returns at the first
      primitive that reports a hit. */
  function LeafAny(prims: seq<Sphere>, k: nat, e: nat, r: Ray, sqrt: real -> real): (res: (bool, Ray))
    requires k <= e <= |prims| && ValidDir(r.d)
    ensures AnyReports(r, res)
    decreases e - k
  {
    if k == e then (false, r)
    else
      var h := HasIntersection(prims[k], r, sqrt);
      if h.0 then h else LeafAny(prims, k + 1, e, r, sqrt)
  }

  /** BVHAccel::has_intersection(ray, node): like the nearest-hit traversal,
      but it stops at the first hit, so the right child is visited only when
      the left one reports none. */
  function NodeAny(prims: seq<Sphere>, n: Node, r: Ray, boxHit: BoxTest, sqrt: real -> real): (res: (bool, Ray))
    requires InRange(n, |prims|) && ValidDir(r.d)
    ensures AnyReports(r, res)
    ensures n.Null? || !boxHit(n.bb, r) ==> !res.0
  {
    match n
    case Null => (false, r)
    case Leaf(bb, s, e) =>
      if !boxHit(bb, r) then (false, r) else LeafAny(prims, s, e, r, sqrt)
    case Inner(bb, l, rt) =>
      if !boxHit(bb, r) then (false, r)
      else
        var hl := NodeAny(prims, l, r, boxHit, sqrt);
        if hl.0 then hl else NodeAny(prims, rt, r, boxHit, sqrt)
  }

  /** BVHAccel::intersect(ray, i) on the whole tree. */
  function AccelHit(acc: Accel, r: Ray, i: Option<Isect>, boxHit: BoxTest, sqrt: real -> real): (res: Hit)
    requires InRange(acc.root, |acc.prims|) && ValidDir(r.d)
    ensures Reports(r, i, res)
  {
    NodeHit(acc.prims, acc.root, r, i, boxHit, sqrt)
  }

  /** BVHAccel::has_intersection(ray) on the whole tree. */
  function AccelAny(acc: Accel, r: Ray, boxHit: BoxTest, sqrt: real -> real): (res: (bool, Ray))
    requires InRange(acc.root, |acc.prims|) && ValidDir(r.d)
    ensures AnyReports(r, res)
  {
    NodeAny(acc.prims, acc.root, r, boxHit, sqrt)
  }

  // ----- the two traversals agree -----------------------------------------

  lemma {:induction false} LeafQueriesAgree(prims: seq<Sphere>, k: nat, e: nat, r: Ray, i: Option<Isect>, sqrt: real -> real)
    requires k <= e <= |prims| && ValidDir(r.d)
    ensures LeafHit(prims, k, e, r, i, sqrt).hit == LeafAny(prims, k, e, r, sqrt).0
    decreases e - k
  {
    if k < e {
      var h := Intersect(prims[k], r, i, sqrt);
      QueriesAgree(prims[k], r, i, sqrt);
      if !h.hit {
        LeafQueriesAgree(prims, k + 1, e, r, i, sqrt);
      }
    }
  }

  /** On every tree and every box test, the any-hit query reports a hit
      exactly when the nearest-hit query does: a primitive or subtree that
      misses leaves the ray unchanged, so short-circuiting loses nothing. */
  lemma {:induction false} QueriesAgreeOnTree(prims: seq<Sphere>, n: Node, r: Ray, i: Option<Isect>, boxHit: BoxTest, sqrt: real -> real)
    requires InRange(n, |prims|) && ValidDir(r.d)
    ensures NodeHit(prims, n, r, i, boxHit, sqrt).hit == NodeAny(prims, n, r, boxHit, sqrt).0
  {
    match n
    case Null =>
    case Leaf(bb, s, e) =>
      if boxHit(bb, r) {
        LeafQueriesAgree(prims, s, e, r, i, sqrt);
      }
    case Inner(bb, l, rt) =>
      if boxHit(bb, r) {
        QueriesAgreeOnTree(prims, l, r, i, boxHit, sqrt);
        var hl := NodeHit(prims, l, r, i, boxHit, sqrt);
        if !hl.hit {
          QueriesAgreeOnTree(prims, rt, r, i, boxHit, sqrt);
        }
      }
  }

  // ----- what the nearest-hit traversal finds -----------------------------

  /** No primitive of `prims[lo..hi]` accepts the ray. */
  ghost predicate NoneAccept(prims: seq<Sphere>, lo: nat, hi: nat, r: Ray, sqrt: real -> real)
    requires lo <= hi <= |prims| && ValidDir(r.d)
  {
    forall k :: lo <= k < hi ==> !Accepts(prims[k], r, sqrt)
  }

  /** `t` is the least candidate parameter among `prims[lo..hi]`. */
  ghost predicate LeastCandidate(prims: seq<Sphere>, lo: nat, hi: nat, r: Ray, sqrt: real -> real, t: real)
    requires lo <= hi <= |prims| && ValidDir(r.d)
  {
    && (exists k :: lo <= k < hi && Candidate(prims[k], r, sqrt) == Some(t))
    && (forall k :: lo <= k < hi && Candidate(prims[k], r, sqrt).Some? ==> t <= Candidate(prims[k], r, sqrt).value)
  }

  /** The outcome of a nearest-hit query over `prims[lo..hi]` is exact: a
      hit records the least candidate, a miss means none is in the window. */
  ghost predicate Exact(prims: seq<Sphere>, lo: nat, hi: nat, r: Ray, sqrt: real -> real, res: Hit)
    requires lo <= hi <= |prims| && ValidDir(r.d)
  {
    && (res.hit ==> res.isect.Some? && LeastCandidate(prims, lo, hi, r, sqrt, res.isect.value.t))
    && (!res.hit ==> NoneAccept(prims, lo, hi, r, sqrt))
  }

  /** The box test never misses a box holding a primitive the ray accepts;
      the slab test promises this, since the accepted point lies on the
      sphere, inside its box, within the ray's window. */
  ghost predicate Conservative(boxHit: BoxTest, sqrt: real -> real) {
    forall b: BBox, r: Ray, p: Sphere ::
      ValidDir(r.d) && Contains(b, SphereBox(p)) && Accepts(p, r, sqrt) ==> boxHit(b, r)
  }

  /** Candidates are the same for every `maxT` the traversal may set. */
  lemma SameCandidates(prims: seq<Sphere>, lo: nat, hi: nat, r: Ray, m: Ext, sqrt: real -> real)
    requires lo <= hi <= |prims| && ValidDir(r.d)
    ensures forall k :: lo <= k < hi ==> Candidate(prims[k], r.(maxT := m), sqrt) == Candidate(prims[k], r, sqrt)
  {
    forall k | lo <= k < hi
      ensures Candidate(prims[k], r.(maxT := m), sqrt) == Candidate(prims[k], r, sqrt)
    {
      CandidateIgnoresMaxT(prims[k], r, m, sqrt);
    }
  }

  /** Exactness over two adjacent ranges, the second searched with the ray
      the first search left behind, gives exactness over their union. */
  lemma JoinExact(prims: seq<Sphere>, lo: nat, mid: nat, hi: nat, r: Ray, sqrt: real -> real, h1: Hit, h2: Hit)
    requires lo <= mid <= hi <= |prims| && ValidDir(r.d)
    requires h1.hit ==> h1.isect.Some? && h1.ray == r.(maxT := Fin(h1.isect.value.t)) && AtMost(h1.isect.value.t, r.maxT)
    requires !h1.hit ==> h1.ray == r
    requires ValidDir(h1.ray.d)
    requires h2.hit ==> h2.isect.Some? && AtMost(h2.isect.value.t, h1.ray.maxT)
    requires !h2.hit ==> h2.isect == h1.isect
    requires Exact(prims, lo, mid, r, sqrt, h1) && Exact(prims, mid, hi, h1.ray, sqrt, h2)
    ensures Exact(prims, lo, hi, r, sqrt, Hit(h1.hit || h2.hit, h2.ray, h2.isect))
  {
    SameCandidates(prims, mid, hi, r, h1.ray.maxT, sqrt);
    assert h1.ray == r.(maxT := h1.ray.maxT);
    if h2.hit {
      var t := h2.isect.value.t;
      var k2 :| mid <= k2 < hi && Candidate(prims[k2], h1.ray, sqrt) == Some(t);
      assert Candidate(prims[k2], r, sqrt) == Some(t);
      if h1.hit {
        assert t <= h1.isect.value.t;
      }
    } else if h1.hit {
      var t := h1.isect.value.t;
      forall k | mid <= k < hi && Candidate(prims[k], r, sqrt).Some?
        ensures t <= Candidate(prims[k], r, sqrt).value
      {
        assert !Accepts(prims[k], h1.ray, sqrt);
      }
    } else {
      forall k | mid <= k < hi ensures !Accepts(prims[k], r, sqrt) {
        assert !Accepts(prims[k], h1.ray, sqrt);
      }
    }
  }

  /** The leaf loop finds the least candidate of its range, or reports that
      no primitive of the range accepts the ray. */
  lemma {:induction false} LeafIsExact(prims: seq<Sphere>, k: nat, e: nat, r: Ray, i: Option<Isect>, sqrt: real -> real)
    requires k <= e <= |prims| && ValidDir(r.d)
    ensures Exact(prims, k, e, r, sqrt, LeafHit(prims, k, e, r, i, sqrt))
    decreases e - k
  {
    if k < e {
      var h := Intersect(prims[k], r, i, sqrt);
      QueriesAgree(prims[k], r, i, sqrt);
      assert Exact(prims, k, k + 1, r, sqrt, h);
      LeafIsExact(prims, k + 1, e, h.ray, h.isect, sqrt);
      var rest := LeafHit(prims, k + 1, e, h.ray, h.isect, sqrt);
      JoinExact(prims, k, k + 1, e, r, sqrt, h, rest);
    }
  }

  /** A node whose box misses the ray holds no primitive the ray accepts,
      when the box test is conservative and the box is its range's union. */
  lemma PrunedRangeIsEmpty(prims: seq<Sphere>, lo: nat, hi: nat, bb: BBox, r: Ray, boxHit: BoxTest, sqrt: real -> real)
    requires lo <= hi <= |prims| && ValidDir(r.d)
    requires Conservative(boxHit, sqrt) && bb == Hull(prims[lo..hi]) && !boxHit(bb, r)
    ensures NoneAccept(prims, lo, hi, r, sqrt)
  {
    HullIsUnion(prims[lo..hi]);
    forall k | lo <= k < hi ensures !Accepts(prims[k], r, sqrt) {
      assert prims[k] == prims[lo..hi][k - lo];
      assert Contains(bb, SphereBox(prims[k]));
    }
  }

  /** For a subtree built over `prims[lo..hi]` and a conservative box test,
      the traversal is exact: pruning by boxes, even with the shrinking
      window, never skips the nearest candidate. */
  lemma {:induction false} NodeIsExact(prims: seq<Sphere>, n: Node, lo: nat, hi: nat, r: Ray, i: Option<Isect>, boxHit: BoxTest, sqrt: real -> real)
    requires Tiles(n, lo, hi) && hi <= |prims| && HullsHold(n, prims[lo..hi])
    requires Conservative(boxHit, sqrt) && ValidDir(r.d)
    ensures InRange(n, |prims|)
    ensures Exact(prims, lo, hi, r, sqrt, NodeHit(prims, n, r, i, boxHit, sqrt))
  {
    TilesBounds(n, lo, hi);
    TilesInRange(n, lo, hi, |prims|);
    match n
    case Leaf(bb, s, e) =>
      if !boxHit(bb, r) {
        PrunedRangeIsEmpty(prims, lo, hi, bb, r, boxHit, sqrt);
      } else {
        LeafIsExact(prims, s, e, r, i, sqrt);
      }
    case Inner(bb, l, rt) =>
      if !boxHit(bb, r) {
        PrunedRangeIsEmpty(prims, lo, hi, bb, r, boxHit, sqrt);
      } else {
        var mid := Hi(l);
        TilesBounds(l, lo, mid);
        assert prims[lo..hi][..mid - lo] == prims[lo..mid];
        assert prims[lo..hi][mid - lo..] == prims[mid..hi];
        NodeIsExact(prims, l, lo, mid, r, i, boxHit, sqrt);
        var hl := NodeHit(prims, l, r, i, boxHit, sqrt);
        NodeIsExact(prims, rt, mid, hi, hl.ray, hl.isect, boxHit, sqrt);
        var hr := NodeHit(prims, rt, hl.ray, hl.isect, boxHit, sqrt);
        JoinExact(prims, lo, mid, hi, r, sqrt, hl, hr);
      }
  }

  /** On an accelerator built by construct_bvh, with a conservative box
      test, BVHAccel::intersect is a brute-force search: it hits exactly when
      some primitive accepts the ray, records the least candidate parameter,
      and any-hit agrees with it. */
  lemma AccelIsExact(acc: Accel, maxLeaf: nat, r: Ray, i: Option<Isect>, boxHit: BoxTest, sqrt: real -> real)
    requires Valid(acc, maxLeaf) && Conservative(boxHit, sqrt) && ValidDir(r.d)
    ensures InRange(acc.root, |acc.prims|)
    ensures var h := AccelHit(acc, r, i, boxHit, sqrt);
            && (h.hit <==> exists k :: 0 <= k < |acc.prims| && Accepts(acc.prims[k], r, sqrt))
            && (h.hit ==> LeastCandidate(acc.prims, 0, |acc.prims|, r, sqrt, h.isect.value.t))
            && h.hit == AccelAny(acc, r, boxHit, sqrt).0
  {
    assert acc.prims[0..|acc.prims|] == acc.prims;
    NodeIsExact(acc.prims, acc.root, 0, |acc.prims|, r, i, boxHit, sqrt);
    QueriesAgreeOnTree(acc.prims, acc.root, r, i, boxHit, sqrt);
    var h := AccelHit(acc, r, i, boxHit, sqrt);
    if h.hit {
      var t := h.isect.value.t;
      var k :| 0 <= k < |acc.prims| && Candidate(acc.prims[k], r, sqrt) == Some(t);
      assert Accepts(acc.prims[k], r, sqrt);
    }
  }

  /** With an exact square root as well, the accelerator reports the first
      point along the ray, at or beyond `minT`, on any sphere of the scene,
      and a miss means no sphere's surface meets the window. */
  lemma AccelFindsNearestSurface(acc: Accel, maxLeaf: nat, r: Ray, i: Option<Isect>, boxHit: BoxTest, sqrt: real -> real)
    requires Valid(acc, maxLeaf) && Conservative(boxHit, sqrt) && ValidDir(r.d) && IsSqrt(sqrt)
    ensures InRange(acc.root, |acc.prims|)
    ensures var h := AccelHit(acc, r, i, boxHit, sqrt);
            h.hit ==> && (exists k :: 0 <= k < |acc.prims| && OnSurface(acc.prims[k], r, h.isect.value.t))
                      && forall k, x :: 0 <= k < |acc.prims| && OnSurface(acc.prims[k], r, x) && r.minT <= x ==>
                           h.isect.value.t <= x
    ensures var h := AccelHit(acc, r, i, boxHit, sqrt);
            !h.hit ==> forall k, x :: 0 <= k < |acc.prims| && OnSurface(acc.prims[k], r, x) && r.minT <= x ==>
                         !AtMost(x, r.maxT)
  {
    AccelIsExact(acc, maxLeaf, r, i, boxHit, sqrt);
    var h := AccelHit(acc, r, i, boxHit, sqrt);
    forall k | 0 <= k < |acc.prims| {
      CandidateIsNearestSurface(acc.prims[k], r, sqrt);
    }
    if h.hit {
      var t := h.isect.value.t;
      var k :| 0 <= k < |acc.prims| && Candidate(acc.prims[k], r, sqrt) == Some(t);
      assert OnSurface(acc.prims[k], r, t);
    } else {
      forall k, x | 0 <= k < |acc.prims| && OnSurface(acc.prims[k], r, x) && r.minT <= x
        ensures !AtMost(x, r.maxT)
      {
        assert !Accepts(acc.prims[k], r, sqrt);
      }
    }
  }
}

/** BVHAccel construction (`construct_bvh`): the node datatype, the
    mean-centroid split with its per-axis surface-area cost, the in-place
    partition, and the structural invariants every built tree satisfies. */
module Bvh {
  import opened Wrappers
  import opened Geometry
  import opened Shapes

  /** A node owns either a contiguous range `[start, end)` of the primitive
      array (a leaf) or two children (internal); `Null` is the null pointer
      the queries guard against and construction never produces. */
  datatype Node = Null | Leaf(bb: BBox, start: nat, end: nat) | Inner(bb: BBox, l: Node, r: Node)

  /** The accelerator: the reordered primitive array and the root. */
  datatype Accel = Accel(prims: seq<Sphere>, root: Node)

  function CentroidOf(p: Sphere): Vec3 { Centroid(SphereBox(p)) }

  // ----- bounding boxes of ranges -----------------------------------------

  /** Every primitive of `s` lies in box `b`. */
  ghost predicate Bounds(b: BBox, s: seq<Sphere>) {
    forall p :: p in s ==> Contains(b, SphereBox(p))
  }

  /** `b` is the union of the primitives' boxes: it bounds them all and lies
      inside every box that does. */
  ghost predicate IsHull(b: BBox, s: seq<Sphere>) {
    Bounds(b, s) && forall c: BBox :: Bounds(c, s) ==> Contains(c, b)
  }

  /** The loop at the top of construct_bvh: expand an empty box by every
      primitive's box, in array order. */
  function Hull(s: seq<Sphere>): BBox {
    if |s| == 0 then Empty else Expand(Hull(s[..|s| - 1]), SphereBox(s[|s| - 1]))
  }

  /** The box the loop computes is the union of the primitives' boxes. */
  lemma {:induction false} HullIsUnion(s: seq<Sphere>)
    ensures IsHull(Hull(s), s)
  {
    if |s| > 0 {
      var init := s[..|s| - 1];
      var p := s[|s| - 1];
      HullIsUnion(init);
      ExpandIsUnion(Hull(init), SphereBox(p));
      assert s == init + [p];
      forall c: BBox | Bounds(c, s) ensures Contains(c, Hull(s)) {
        assert Bounds(c, init);
      }
    }
  }

  /** A set of primitives has only one union box. */
  lemma HullUnique(b: BBox, c: BBox, s: seq<Sphere>)
    requires IsHull(b, s) && IsHull(c, s)
    ensures b == c
  {
    assert Contains(b, c) && Contains(c, b);
  }

  /** The union box depends only on which primitives are present, not on
      their order or multiplicity. */
  lemma HullOfPermutation(s: seq<Sphere>, t: seq<Sphere>)
    requires multiset(s) == multiset(t)
    ensures Hull(s) == Hull(t)
  {
    HullIsUnion(s);
    HullIsUnion(t);
    forall p ensures p in s <==> p in t {
      assert p in s <==> p in multiset(s);
      assert p in t <==> p in multiset(t);
    }
    forall c: BBox ensures Bounds(c, s) <==> Bounds(c, t) {
    }
    HullUnique(Hull(s), Hull(t), t);
  }

  // ----- the split heuristic ---------------------------------------------

  /** Sum of the primitives' centroids, accumulated in array order. */
  function CentroidSum(s: seq<Sphere>): Vec3 {
    if |s| == 0 then Zero else Add(CentroidSum(s[..|s| - 1]), CentroidOf(s[|s| - 1]))
  }

  function Mean(s: seq<Sphere>): Vec3
    requires |s| > 0
  {
    Scale(CentroidSum(s), 1.0 / (|s| as real))
  }

  /** The partition predicate: centroid at or below the split on `axis`. */
  predicate GoesLeft(p: Sphere, axis: nat, split: real)
    requires axis < 3
  {
    Coord(CentroidOf(p), axis) <= split
  }

  /** `left_prims`: the primitives going left, in array order. */
  function Left(s: seq<Sphere>, axis: nat, split: real): seq<Sphere>
    requires axis < 3
  {
    if |s| == 0 then []
    else
      var p := s[|s| - 1];
      Left(s[..|s| - 1], axis, split) + (if GoesLeft(p, axis, split) then [p] else [])
  }

  /** `right_prims`: the primitives going right, in array order. */
  function Right(s: seq<Sphere>, axis: nat, split: real): seq<Sphere>
    requires axis < 3
  {
    if |s| == 0 then []
    else
      var p := s[|s| - 1];
      Right(s[..|s| - 1], axis, split) + (if GoesLeft(p, axis, split) then [] else [p])
  }

  lemma {:induction false} LeftRightSplit(s: seq<Sphere>, axis: nat, split: real)
    requires axis < 3
    ensures |Left(s, axis, split)| + |Right(s, axis, split)| == |s|
    ensures forall p :: p in Left(s, axis, split) ==> p in s && GoesLeft(p, axis, split)
    ensures forall p :: p in Right(s, axis, split) ==> p in s && !GoesLeft(p, axis, split)
    ensures multiset(Left(s, axis, split)) + multiset(Right(s, axis, split)) == multiset(s)
  {
    if |s| > 0 {
      var init := s[..|s| - 1];
      LeftRightSplit(init, axis, split);
      assert s == init + [s[|s| - 1]];
    }
  }

  /** An axis is usable when both sides of its mean split are non-empty. */
  predicate AxisQualifies(s: seq<Sphere>, mean: Vec3, axis: nat)
    requires axis < 3
  {
    var l := |Left(s, axis, Coord(mean, axis))|;
    l > 0 && |Right(s, axis, Coord(mean, axis))| > 0
  }

  /** #left * area(left) + #right * area(right) for the mean split on `axis`. */
  function AxisCost(s: seq<Sphere>, mean: Vec3, axis: nat): real
    requires axis < 3
  {
    var sp := Coord(mean, axis);
    var l := Left(s, axis, sp);
    var r := Right(s, axis, sp);
    (|l| as real) * SurfaceArea(Hull(l)) + (|r| as real) * SurfaceArea(Hull(r))
  }

  /** The score the axis loop computes for one axis: its cost, or None when
      the split leaves a side empty (the loop's `continue`). */
  function AxisScore(s: seq<Sphere>, mean: Vec3, axis: nat): Option<real>
    requires axis < 3
  {
    if AxisQualifies(s, mean, axis) then Some(AxisCost(s, mean, axis)) else None
  }

  /** `best` is the first position of least score among the scored entries
      of `scores[..bound]`, or None when none is scored. */
  ghost predicate FirstMinBelow(scores: seq<Option<real>>, bound: nat, best: Option<nat>)
    requires bound <= |scores|
  {
    match best
    case None => forall a :: 0 <= a < bound ==> scores[a].None?
    case Some(b) =>
      && b < bound && scores[b].Some?
      && forall a :: 0 <= a < bound && scores[a].Some? ==>
           scores[b].value <= scores[a].value && (a < b ==> scores[b].value < scores[a].value)
  }

  /** The axis loop from position `i` on; `best` pairs the best position so
      far with its cost (None stands for minCost = infinity), and a strictly
      smaller cost is needed to replace it. */
  function ChooseFrom(scores: seq<Option<real>>, i: nat, best: Option<(nat, real)>): (res: Option<(nat, real)>)
    requires i <= |scores|
    requires best.Some? ==> best.value.0 < i && scores[best.value.0] == Some(best.value.1)
    ensures res.Some? ==> res.value.0 < |scores| && scores[res.value.0] == Some(res.value.1)
    decreases |scores| - i
  {
    if i == |scores| then best
    else
      match scores[i]
      case None => ChooseFrom(scores, i + 1, best)
      case Some(cost) =>
        if best.None? || cost < best.value.1 then ChooseFrom(scores, i + 1, Some((i, cost)))
        else ChooseFrom(scores, i + 1, best)
  }

  /** The loop keeps "best is the first least score seen so far" as its
      invariant, so it ends with the first least score of all. */
  lemma {:induction false} ChooseFromIsFirstMin(scores: seq<Option<real>>, i: nat, best: Option<(nat, real)>)
    requires i <= |scores|
    requires best.Some? ==> best.value.0 < i && scores[best.value.0] == Some(best.value.1)
    requires FirstMinBelow(scores, i, if best.None? then None else Some(best.value.0))
    ensures var res := ChooseFrom(scores, i, best);
            FirstMinBelow(scores, |scores|, if res.None? then None else Some(res.value.0))
    decreases |scores| - i
  {
    if i < |scores| {
      match scores[i]
      case None =>
        ChooseFromIsFirstMin(scores, i + 1, best);
      case Some(cost) =>
        if best.None? || cost < best.value.1 {
          ChooseFromIsFirstMin(scores, i + 1, Some((i, cost)));
        } else {
          ChooseFromIsFirstMin(scores, i + 1, best);
        }
    }
  }

  /** The scores of axes 0, 1 and 2, in loop order. */
  function Scores(s: seq<Sphere>, mean: Vec3): seq<Option<real>> {
    [AxisScore(s, mean, 0), AxisScore(s, mean, 1), AxisScore(s, mean, 2)]
  }

  /** The axis construct_bvh splits on: None when no axis qualifies
      (minCost stays infinite). */
  function ChooseAxis(s: seq<Sphere>, mean: Vec3): (best: Option<nat>)
    ensures best.Some? ==> best.value < 3
  {
    var res := ChooseFrom(Scores(s, mean), 0, None);
    if res.None? then None else Some(res.value.0)
  }

  /** Read back in terms of the split: an axis that leaves a side empty is
      never chosen, None means no axis qualifies, and the chosen axis costs
      no more than any qualifying axis and strictly less than any earlier
      one. */
  lemma ChosenAxisIsCheapest(s: seq<Sphere>, mean: Vec3)
    ensures var best := ChooseAxis(s, mean);
            && (best.None? <==> forall a: nat :: a < 3 ==> !AxisQualifies(s, mean, a))
            && (best.Some? ==> AxisQualifies(s, mean, best.value))
            && (best.Some? ==> forall a: nat :: a < 3 && AxisQualifies(s, mean, a) ==>
                  AxisCost(s, mean, best.value) <= AxisCost(s, mean, a)
                  && (a < best.value ==> AxisCost(s, mean, best.value) < AxisCost(s, mean, a)))
  {
    var sc := Scores(s, mean);
    ChooseFromIsFirstMin(sc, 0, None);
    assert forall a: nat :: a < 3 ==> sc[a] == AxisScore(s, mean, a);
  }

  /** std::partition on the best axis: reorders `s` in place so that the
      primitives going left come first; `mid` is where the right side
      begins. Order within a side is unspecified, as for std::partition. */
  method Partition(s: seq<Sphere>, axis: nat, split: real) returns (t: seq<Sphere>, mid: nat)
    requires axis < 3
    ensures |t| == |s| && multiset(t) == multiset(s)
    ensures mid == |Left(s, axis, split)| <= |t|
    ensures forall i :: 0 <= i < mid ==> GoesLeft(t[i], axis, split)
    ensures forall i :: mid <= i < |t| ==> !GoesLeft(t[i], axis, split)
  {
    t := s;
    mid := 0;
    var j := 0;
    while j < |t|
      invariant mid <= j <= |t| == |s|
      invariant multiset(t) == multiset(s)
      invariant forall k :: j <= k < |t| ==> t[k] == s[k]
      invariant mid == |Left(s[..j], axis, split)|
      invariant forall i :: 0 <= i < mid ==> GoesLeft(t[i], axis, split)
      invariant forall i :: mid <= i < j ==> !GoesLeft(t[i], axis, split)
    {
      LeftStep(s, j, axis, split);
      if GoesLeft(t[j], axis, split) {
        SwapKeepsMultiset(t, mid, j);
        t := t[mid := t[j]][j := t[mid]];
        mid := mid + 1;
      }
      j := j + 1;
    }
    assert s[..j] == s;
  }

  lemma LeftStep(s: seq<Sphere>, j: nat, axis: nat, split: real)
    requires j < |s| && axis < 3
    ensures |Left(s[..j + 1], axis, split)| == |Left(s[..j], axis, split)| + (if GoesLeft(s[j], axis, split) then 1 else 0)
  {
    assert s[..j + 1][..j] == s[..j];
  }

  lemma SwapKeepsMultiset(t: seq<Sphere>, i: nat, j: nat)
    requires i <= j < |t|
    ensures multiset(t[i := t[j]][j := t[i]]) == multiset(t)
  {
  }

  // ----- tree invariants -------------------------------------------------

  /** First and one-past-last index covered by a node. */
  function Lo(n: Node): nat {
    match n
    case Null => 0
    case Leaf(_, s, _) => s
    case Inner(_, l, _) => Lo(l)
  }

  function Hi(n: Node): nat {
    match n
    case Null => 0
    case Leaf(_, _, e) => e
    case Inner(_, _, r) => Hi(r)
  }

  /** The leaves of `n`, left to right, cover `[lo, hi)` exactly, and every
      internal node's children cover non-empty, adjacent ranges. */
  ghost predicate Tiles(n: Node, lo: nat, hi: nat) {
    match n
    case Null => false
    case Leaf(_, s, e) => s == lo && e == hi && s <= e
    case Inner(_, l, r) => lo < Hi(l) < hi && Tiles(l, lo, Hi(l)) && Tiles(r, Hi(l), hi)
  }

  lemma {:induction false} TilesBounds(n: Node, lo: nat, hi: nat)
    requires Tiles(n, lo, hi)
    ensures Lo(n) == lo && Hi(n) == hi && lo <= hi
  {
    match n
    case Leaf(_, _, _) =>
    case Inner(_, l, r) =>
      TilesBounds(l, lo, Hi(l));
      TilesBounds(r, Hi(l), hi);
  }

  /** No leaf holds more than `k` primitives. */
  ghost predicate LeavesAtMost(n: Node, k: nat) {
    match n
    case Null => true
    case Leaf(_, s, e) => e - s <= k
    case Inner(_, l, r) => LeavesAtMost(l, k) && LeavesAtMost(r, k)
  }

  /** Every node's box is the one the expansion loop computes over its
      range (the union of the primitives' boxes, by HullIsUnion), where `s`
      is the node's own range of the array and a child's range is the part
      of it its leaves cover. */
  ghost predicate HullsHold(n: Node, s: seq<Sphere>) {
    match n
    case Null => true
    case Leaf(bb, _, _) => bb == Hull(s)
    case Inner(bb, l, r) =>
      var m := Hi(l) - Lo(l);
      && bb == Hull(s) && 0 <= m <= |s|
      && HullsHold(l, s[..m]) && HullsHold(r, s[m..])
  }

  /** The primitives of all leaves, concatenated left to right. */
  function LeafContents(n: Node, all: seq<Sphere>): seq<Sphere> {
    match n
    case Null => []
    case Leaf(_, s, e) => if s <= e <= |all| then all[s..e] else []
    case Inner(_, l, r) => LeafContents(l, all) + LeafContents(r, all)
  }

  /** Leaves tile the range: concatenating their contents gives back exactly
      the array slice, so no primitive is lost or duplicated. */
  lemma {:induction false} LeavesTileRange(n: Node, all: seq<Sphere>, lo: nat, hi: nat)
    requires Tiles(n, lo, hi) && lo <= hi <= |all|
    ensures LeafContents(n, all) == all[lo..hi]
  {
    match n
    case Leaf(_, _, _) =>
    case Inner(_, l, r) =>
      LeavesTileRange(l, all, lo, Hi(l));
      LeavesTileRange(r, all, Hi(l), hi);
      assert all[lo..hi] == all[lo..Hi(l)] + all[Hi(l)..hi];
  }

  /** The outcome of splitting `prims` into `out`, with the left side
      `out[..m]`, given the chosen axis: with an axis, the left side holds
      exactly the primitives whose centroid is at or below the mean on that
      axis; with none, the range is cut at its index midpoint unreordered. */
  ghost predicate SplitOn(prims: seq<Sphere>, out: seq<Sphere>, m: nat, best: Option<nat>)
    requires |prims| > 0 && |out| == |prims| && m <= |out|
  {
    match best
    case None => m == |prims| / 2 && out == prims
    case Some(a) =>
      var sp := if a < 3 then Coord(Mean(prims), a) else 0.0;
      && a < 3
      && m == |Left(prims, a, sp)|
      && (forall i :: 0 <= i < m ==> GoesLeft(out[i], a, sp))
      && (forall i :: m <= i < |out| ==> !GoesLeft(out[i], a, sp))
  }

  /** A single primitive qualifies on no axis, since one side of any split
      is empty; so a one-primitive range that is not a leaf falls back to
      the split at `1 / 2 = 0`, whose right half is the whole range again. */
  lemma LoneSphereSplitsToItself(p: Sphere)
    ensures ChooseAxis([p], Mean([p])).None?
    ensures [p][|[p]| / 2..] == [p]
  {
    forall a: nat | a < 3
      ensures !AxisQualifies([p], Mean([p]), a)
    {
      LeftRightSplit([p], a, Coord(Mean([p]), a));
    }
    ChosenAxisIsCheapest([p], Mean([p]));
  }

  /** Steps 4 to 6 of construct_bvh for a range too big for a leaf: choose
      the axis, partition on its mean, and fall back to the index midpoint
      when no axis qualifies or the partition leaves a side empty. */
  method SplitRange(prims: seq<Sphere>) returns (arranged: seq<Sphere>, mid: nat, best: Option<nat>)
    requires |prims| >= 2
    ensures |arranged| == |prims| && multiset(arranged) == multiset(prims)
    ensures 0 < mid < |prims|
    ensures forall mean :: mean == Mean(prims) ==> best == ChooseAxis(prims, mean)
    ensures SplitOn(prims, arranged, mid, best)
  {
    var n := |prims|;
    var mean := Mean(prims);
    best := ChooseAxis(prims, mean);
    var half: nat := n / 2;
    arranged := prims;
    mid := half;
    if best.Some? {
      var a := best.value;
      ChosenAxisIsCheapest(prims, mean);
      LeftRightSplit(prims, a, Coord(mean, a));
      arranged, mid := Partition(prims, a, Coord(mean, a));
      if mid == 0 || mid == n {
        mid := half;
      }
    }
  }

  /** construct_bvh over the primitives `prims`, which sit at `base` in the
      array; `out` is the range after all in-place partitions. */
  method Build(prims: seq<Sphere>, base: nat, maxLeaf: nat) returns (node: Node, out: seq<Sphere>)
    requires maxLeaf >= 1
    ensures |out| == |prims| && multiset(out) == multiset(prims)
    ensures Tiles(node, base, base + |prims|)
    ensures node.Leaf? <==> |prims| <= maxLeaf
    ensures LeavesAtMost(node, maxLeaf)
    ensures HullsHold(node, out)
    decreases |prims|
  {
    var bb := Hull(prims);
    var n := |prims|;
    if n <= maxLeaf {
      node := Leaf(bb, base, base + n);
      out := prims;
      return;
    }
    var arranged, mid, best := SplitRange(prims);
    var l, outL := Build(arranged[..mid], base, maxLeaf);
    var r, outR := Build(arranged[mid..], base + mid, maxLeaf);
    node := Inner(bb, l, r);
    out := outL + outR;
    JoinChildren(prims, arranged, mid, base, maxLeaf, l, outL, r, outR);
  }

  /** The structural facts of an internal node follow from its children's. */
  lemma JoinChildren(prims: seq<Sphere>, arranged: seq<Sphere>, mid: nat, base: nat, maxLeaf: nat,
                     l: Node, outL: seq<Sphere>, r: Node, outR: seq<Sphere>)
    requires 0 < mid < |prims| == |arranged| && multiset(arranged) == multiset(prims)
    requires |outL| == mid && multiset(outL) == multiset(arranged[..mid])
    requires |outR| == |prims| - mid && multiset(outR) == multiset(arranged[mid..])
    requires Tiles(l, base, base + mid) && Tiles(r, base + mid, base + |prims|)
    requires LeavesAtMost(l, maxLeaf) && LeavesAtMost(r, maxLeaf)
    requires HullsHold(l, outL) && HullsHold(r, outR)
    ensures multiset(outL + outR) == multiset(prims)
    ensures Tiles(Inner(Hull(prims), l, r), base, base + |prims|)
    ensures LeavesAtMost(Inner(Hull(prims), l, r), maxLeaf)
    ensures HullsHold(Inner(Hull(prims), l, r), outL + outR)
    ensures base < Hi(l) < base + |prims|
  {
    var out := outL + outR;
    TilesBounds(l, base, base + mid);
    assert multiset(out) == multiset(prims) by {
      assert arranged == arranged[..mid] + arranged[mid..];
      assert multiset(out) == multiset(arranged[..mid]) + multiset(arranged[mid..]);
    }
    assert HullsHold(Inner(Hull(prims), l, r), out) by {
      HullOfPermutation(prims, out);
      assert out[..mid] == outL && out[mid..] == outR;
    }
  }

  /** Everything a tree built over `prims` satisfies. */
  ghost predicate Valid(acc: Accel, maxLeaf: nat) {
    && Tiles(acc.root, 0, |acc.prims|)
    && LeavesAtMost(acc.root, maxLeaf)
    && HullsHold(acc.root, acc.prims)
  }

  /** The BVHAccel constructor: build over the whole primitive list. The
      accelerator's array is a permutation of the input, and reading the
      leaves left to right yields that array, so every primitive sits in
      exactly one leaf. */
  method NewAccel(prims: seq<Sphere>, maxLeaf: nat) returns (acc: Accel)
    requires maxLeaf >= 1
    ensures Valid(acc, maxLeaf)
    ensures multiset(acc.prims) == multiset(prims)
    ensures multiset(LeafContents(acc.root, acc.prims)) == multiset(prims)
  {
    var root, out := Build(prims, 0, maxLeaf);
    acc := Accel(out, root);
    LeavesTileRange(root, out, 0, |out|);
    assert out[0..|out|] == out;
  }
}

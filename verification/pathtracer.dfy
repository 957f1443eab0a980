/** The Monte Carlo integrator of PathTracer: the two direct-lighting
    estimators, zero/one/at-least-one bounce radiance, the top-level radiance
    estimate and the per-pixel loop.

    The scene query, BSDFs, lights, camera, coordinate frames and random
    samplers are parameters collected in an `Env`. Every random draw
    (a BSDF sample, a light sample, a jittered pixel offset) reads one index
    of an abstract sample stream, and each estimator returns, with its value,
    the index of the next unused draw, so the order in which the source
    consumes random numbers is part of the model. */
module PathTracer {
  import opened Wrappers
  import opened Geometry
  import opened Shapes

  type PosReal = x: real | x > 0.0 witness 1.0

  /** BSDF::sample_f: the BSDF value, the sampled incoming direction in the
      local shading frame (normal along z) and its pdf. */
  datatype BsdfSample = BsdfSample(f: Vec3, wi: Vec3, pdf: real)

  /** SceneLight::sample_L: incoming radiance, world-space direction towards
      the light, distance to the light and pdf; lights never report a zero
      pdf. */
  datatype LightSample = LightSample(radiance: Vec3, wi: Vec3, dist: real, pdf: PosReal)

  /** A scene light; point and directional lights are `delta`. */
  datatype Light = Light(id: nat, delta: bool)

  /** Everything the integrator calls but does not define. */
  datatype Env = Env(
    trace: Ray -> Option<Isect>,           // BVHAccel::intersect, nearest hit
    emission: Bsdf -> Vec3,                // BSDF::get_emission
    evalF: (Bsdf, Vec3, Vec3) -> Vec3,     // BSDF::f(w_out, w_in)
    sampleF: (Bsdf, Vec3, nat) -> BsdfSample,
    lights: seq<Light>,
    sampleL: (Light, Vec3, nat) -> LightSample,
    toWorld: (Vec3, Vec3) -> Vec3,         // o2w of make_coord_space(n)
    toLocal: (Vec3, Vec3) -> Vec3,         // w2o, its transpose
    camera: (real, real) -> Ray,           // Camera::generate_ray
    grid: nat -> (real, real))             // gridSampler->get_sample

  /** ns_aa, ns_area_light, max_ray_depth, isAccumBounces,
      direct_hemisphere_sample, and the ray offset EPS_F. */
  datatype Config = Config(nsAa: nat, nsAreaLight: nat, maxRayDepth: int,
                           accumBounces: bool, hemisphere: bool, eps: real)

  /** A radiance estimate and the next unused draw index. */
  datatype Est = Est(value: Vec3, next: nat)

  const One: Vec3 := Vec3(1.0, 1.0, 1.0)

  function HitPoint(r: Ray, isect: Isect): Vec3 { At(r, isect.t) }

  /** w_out = w2o * (-r.d): towards the ray's origin, in the local frame. */
  function WOut(env: Env, r: Ray, isect: Isect): Vec3 { env.toLocal(isect.n, Neg(r.d)) }

  /** Sum of a sequence of colours, first to last. */
  function SumSeq(s: seq<Vec3>): Vec3 {
    if |s| == 0 then Zero else Add(s[0], SumSeq(s[1..]))
  }

  /** The mean of a sequence of colours; black for no samples. */
  function Average(s: seq<Vec3>): Vec3 {
    if |s| == 0 then Zero else Scale(SumSeq(s), 1.0 / |s| as real)
  }

  // ----- sample loops --------------------------------------------------------

  /** Running state of a sample loop: the sum of the terms added, how many
      samples were counted, and the next draw. */
  datatype Tally = Tally(sum: Vec3, count: nat, next: nat)

  /** A loop over `left` draws in which draw `k` yields `term(k)`: None is a
      sample skipped without being counted (`continue`); with `firstOnly`
      the loop stops after its first counted sample (`break`). */
  function Tallied(term: nat -> Option<Vec3>, firstOnly: bool, left: nat, acc: Tally): (res: Tally)
    ensures acc.next <= res.next <= acc.next + left
    ensures acc.count <= res.count <= acc.count + left
    ensures !firstOnly ==> res.next == acc.next + left
    ensures firstOnly ==> res.count <= acc.count + 1
    decreases left
  {
    if left == 0 then acc
    else if term(acc.next).None? then Tallied(term, firstOnly, left - 1, acc.(next := acc.next + 1))
    else
      var t := Tally(Add(acc.sum, term(acc.next).value), acc.count + 1, acc.next + 1);
      if firstOnly then t else Tallied(term, firstOnly, left - 1, t)
  }

  /** Reference: the counted terms among the `n` draws from `k`, in order. */
  ghost function Kept(term: nat -> Option<Vec3>, k: nat, n: nat): seq<Vec3>
    decreases n
  {
    if n == 0 then []
    else if term(k).None? then Kept(term, k + 1, n - 1)
    else [term(k).value] + Kept(term, k + 1, n - 1)
  }

  /** Without `break` the loop adds up exactly the counted terms, counts
      them, and uses all `left` draws. */
  lemma {:induction false} TalliedAll(term: nat -> Option<Vec3>, left: nat, acc: Tally)
    ensures var f := Kept(term, acc.next, left);
      Tallied(term, false, left, acc) == Tally(Add(acc.sum, SumSeq(f)), acc.count + |f|, acc.next + left)
    decreases left
  {
    if left > 0 {
      var rest := Kept(term, acc.next + 1, left - 1);
      if term(acc.next).None? {
        TalliedAll(term, left - 1, acc.(next := acc.next + 1));
      } else {
        var c := term(acc.next).value;
        TalliedAll(term, left - 1, Tally(Add(acc.sum, c), acc.count + 1, acc.next + 1));
        var f := [c] + rest;
        assert f[1..] == rest;
        assert SumSeq(f) == Add(c, SumSeq(rest));
      }
    }
  }

  /** How many of the `n` draws from `k` are read up to and including the
      first counted one; all `n` when none is counted. */
  ghost function Reach(term: nat -> Option<Vec3>, k: nat, n: nat): (res: nat)
    ensures res <= n
    ensures n > 0 ==> res > 0
    decreases n
  {
    if n == 0 then 0
    else if term(k).None? then 1 + Reach(term, k + 1, n - 1)
    else 1
  }

  /** With `break` the loop keeps only the first counted term ... */
  lemma {:induction false} TalliedFirst(term: nat -> Option<Vec3>, left: nat, acc: Tally)
    ensures var f := Kept(term, acc.next, left);
      var res := Tallied(term, true, left, acc);
      && res.count == acc.count + (if |f| == 0 then 0 else 1)
      && res.sum == (if |f| == 0 then acc.sum else Add(acc.sum, f[0]))
    decreases left
  {
    if left > 0 && term(acc.next).None? {
      TalliedFirst(term, left - 1, acc.(next := acc.next + 1));
    }
  }

  /** ... and stops reading draws right after it. */
  lemma {:induction false} TalliedFirstReads(term: nat -> Option<Vec3>, left: nat, acc: Tally)
    ensures Tallied(term, true, left, acc).next == acc.next + Reach(term, acc.next, left)
    decreases left
  {
    if left > 0 && term(acc.next).None? {
      TalliedFirstReads(term, left - 1, acc.(next := acc.next + 1));
    }
  }

  /** Sum of the terms of the `n` draws from `k`. */
  function SumOf(term: nat -> Vec3, k: nat, n: nat): Vec3
    decreases n
  {
    if n == 0 then Zero else Add(term(k), SumOf(term, k + 1, n - 1))
  }

  /** The same sum where a term may be undefined (None), which makes the
      whole sum undefined. */
  function PartialSumOf(term: nat -> Option<Vec3>, k: nat, n: nat): Option<Vec3>
    decreases n
  {
    if n == 0 then Some(Zero)
    else
      var rest := PartialSumOf(term, k + 1, n - 1);
      if term(k).Some? && rest.Some? then Some(Add(term(k).value, rest.value)) else None
  }

  lemma {:induction false} PartialSumDefinedIff(term: nat -> Option<Vec3>, k: nat, n: nat)
    ensures PartialSumOf(term, k, n).Some? <==> forall j :: k <= j < k + n ==> term(j).Some?
    decreases n
  {
    if n > 0 {
      PartialSumDefinedIff(term, k + 1, n - 1);
    }
  }

  /** Where every defined term agrees with `total`, a defined partial sum
      agrees with its sum. */
  lemma {:induction false} PartialSumAgrees(term: nat -> Option<Vec3>, total: nat -> Vec3, k: nat, n: nat)
    requires forall j :: k <= j < k + n && term(j).Some? ==> term(j).value == total(j)
    ensures PartialSumOf(term, k, n).Some? ==> PartialSumOf(term, k, n).value == SumOf(total, k, n)
    decreases n
  {
    if n > 0 {
      PartialSumAgrees(term, total, k + 1, n - 1);
    }
  }

  lemma {:induction false} SumOfPointwise(t1: nat -> Vec3, t2: nat -> Vec3, k: nat, n: nat)
    requires forall j :: k <= j < k + n ==> t1(j) == t2(j)
    ensures SumOf(t1, k, n) == SumOf(t2, k, n)
    decreases n
  {
    if n > 0 {
      SumOfPointwise(t1, t2, k + 1, n - 1);
    }
  }

  // ----- light importance sampling -----------------------------------------

  /** What light sample `k` contributes: None when the light lies behind the
      surface (the sample is skipped and not counted), zero when the shadow
      ray, clipped just short of the light, is blocked. As in the source,
      the BSDF is evaluated with the world-space light direction. */
  function LightTerm(env: Env, cfg: Config, r: Ray, isect: Isect, light: Light, k: nat): (res: Option<Vec3>)
    ensures var ls := env.sampleL(light, HitPoint(r, isect), k);
      && (res.None? <==> Dot(ls.wi, isect.n) <= 0.0)
      && (res.Some? && LeVec(Zero, ls.radiance) && LeVec(Zero, env.evalF(isect.bsdf, WOut(env, r, isect), ls.wi))
          ==> LeVec(Zero, res.value))
  {
    var p := HitPoint(r, isect);
    var ls := env.sampleL(light, p, k);
    var cos := Dot(ls.wi, isect.n);
    if cos <= 0.0 then None
    else
      var shadow := Ray(p, ls.wi, cfg.eps, Fin(ls.dist - cfg.eps), 1);
      if env.trace(shadow).Some? then Some(Zero)
      else Some(Scale(Mul(ls.radiance, env.evalF(isect.bsdf, WOut(env, r, isect), ls.wi)), cos / ls.pdf))
  }

  function LightTerms(env: Env, cfg: Config, r: Ray, isect: Isect, light: Light): nat -> Option<Vec3> {
    (k: nat) => LightTerm(env, cfg, r, isect, light, k)
  }

  /** One light's estimate: its inner sample loop, then the sum divided by
      the number of counted samples, or nothing when none was counted. */
  function LightEstimate(env: Env, cfg: Config, r: Ray, isect: Isect, light: Light, k: nat): (res: Est)
    ensures k <= res.next <= k + cfg.nsAreaLight
    ensures !light.delta ==> res.next == k + cfg.nsAreaLight
  {
    var t := Tallied(LightTerms(env, cfg, r, isect, light), light.delta, cfg.nsAreaLight, Tally(Zero, 0, k));
    Est(if t.count > 0 then Scale(t.sum, 1.0 / t.count as real) else Zero, t.next)
  }

  /** The outer loop over the scene's lights from index `j` on. */
  function ImportanceFrom(env: Env, cfg: Config, r: Ray, isect: Isect, j: nat, acc: Est): (res: Est)
    requires j <= |env.lights|
    ensures acc.next <= res.next <= acc.next + (|env.lights| - j) * cfg.nsAreaLight
    decreases |env.lights| - j
  {
    if j == |env.lights| then acc
    else
      var e := LightEstimate(env, cfg, r, isect, env.lights[j], acc.next);
      var res := ImportanceFrom(env, cfg, r, isect, j + 1, Est(Add(acc.value, e.value), e.next));
      assert (|env.lights| - j) * cfg.nsAreaLight == cfg.nsAreaLight + (|env.lights| - (j + 1)) * cfg.nsAreaLight;
      res
  }

  /** PathTracer::estimate_direct_lighting_importance. */
  function Importance(env: Env, cfg: Config, r: Ray, isect: Isect, k: nat): (res: Est)
    ensures k <= res.next <= k + |env.lights| * cfg.nsAreaLight
  {
    ImportanceFrom(env, cfg, r, isect, 0, Est(Zero, k))
  }

  /** The terms a light's loop counts among its `nsAreaLight` draws from `k`. */
  ghost function Counted(env: Env, cfg: Config, r: Ray, isect: Isect, light: Light, k: nat): seq<Vec3> {
    Kept(LightTerms(env, cfg, r, isect, light), k, cfg.nsAreaLight)
  }

  /** The draws a light's loop reads from `k`: all of them for an area
      light, up to its first counted sample for a delta light. */
  ghost function LightDraws(env: Env, cfg: Config, r: Ray, isect: Isect, light: Light, k: nat): nat {
    if light.delta then Reach(LightTerms(env, cfg, r, isect, light), k, cfg.nsAreaLight) else cfg.nsAreaLight
  }

  /** An area light contributes the average of its counted samples (black
      when every sample lay behind the surface); a delta light contributes
      its first counted sample alone. */
  lemma LightEstimateIsAverage(env: Env, cfg: Config, r: Ray, isect: Isect, light: Light, k: nat)
    ensures var f := Counted(env, cfg, r, isect, light, k);
      var e := LightEstimate(env, cfg, r, isect, light, k);
      && (!light.delta ==> e.value == Average(f))
      && (light.delta ==> e.value == (if |f| == 0 then Zero else f[0]))
  {
    var terms := LightTerms(env, cfg, r, isect, light);
    if light.delta {
      TalliedFirst(terms, cfg.nsAreaLight, Tally(Zero, 0, k));
    } else {
      TalliedAll(terms, cfg.nsAreaLight, Tally(Zero, 0, k));
    }
  }

  /** Reference: the sum over lights `j..` of each area light's average,
      light `j` reading the `nsAreaLight` draws from `k`. */
  ghost function AveragesFrom(env: Env, cfg: Config, r: Ray, isect: Isect, j: nat, k: nat): Vec3
    requires j <= |env.lights|
    decreases |env.lights| - j
  {
    if j == |env.lights| then Zero
    else
      Add(Average(Counted(env, cfg, r, isect, env.lights[j], k)),
          AveragesFrom(env, cfg, r, isect, j + 1, k + cfg.nsAreaLight))
  }

  predicate NoDeltaLights(env: Env) {
    forall j :: 0 <= j < |env.lights| ==> !env.lights[j].delta
  }

  lemma {:induction false} ImportanceFromSums(env: Env, cfg: Config, r: Ray, isect: Isect, j: nat, acc: Est)
    requires j <= |env.lights| && NoDeltaLights(env)
    ensures ImportanceFrom(env, cfg, r, isect, j, acc)
         == Est(Add(acc.value, AveragesFrom(env, cfg, r, isect, j, acc.next)), acc.next + (|env.lights| - j) * cfg.nsAreaLight)
    decreases |env.lights| - j
  {
    if j < |env.lights| {
      var light := env.lights[j];
      LightEstimateIsAverage(env, cfg, r, isect, light, acc.next);
      var e := LightEstimate(env, cfg, r, isect, light, acc.next);
      var acc2 := Est(Add(acc.value, e.value), e.next);
      ImportanceFromSums(env, cfg, r, isect, j + 1, acc2);
      var m := |env.lights| - (j + 1);
      var ns := cfg.nsAreaLight;
      assert (m + 1) * ns == ns + m * ns;
    }
  }

  /** A light's loop leaves the draw counter just past the draws it read. */
  lemma LightEstimateReads(env: Env, cfg: Config, r: Ray, isect: Isect, light: Light, k: nat)
    ensures LightEstimate(env, cfg, r, isect, light, k).next == k + LightDraws(env, cfg, r, isect, light, k)
  {
    if light.delta {
      TalliedFirstReads(LightTerms(env, cfg, r, isect, light), cfg.nsAreaLight, Tally(Zero, 0, k));
    }
  }

  /** What a light contributes given its counted samples `f`. */
  ghost function LightValue(light: Light, f: seq<Vec3>): Vec3 {
    if !light.delta then Average(f) else if |f| == 0 then Zero else f[0]
  }

  /** Reference for any mix of lights: the sum over lights `j..` of each
      light's contribution, light `j` reading draws from `k` and each later
      light starting where the previous one's reads ended; paired with the
      first draw left unread. */
  ghost function ContributionsFrom(env: Env, cfg: Config, r: Ray, isect: Isect, j: nat, k: nat): Est
    requires j <= |env.lights|
    decreases |env.lights| - j
  {
    if j == |env.lights| then Est(Zero, k)
    else
      var light := env.lights[j];
      var rest := ContributionsFrom(env, cfg, r, isect, j + 1, k + LightDraws(env, cfg, r, isect, light, k));
      Est(Add(LightValue(light, Counted(env, cfg, r, isect, light, k)), rest.value), rest.next)
  }

  lemma {:induction false} ImportanceFromChains(env: Env, cfg: Config, r: Ray, isect: Isect, j: nat, acc: Est)
    requires j <= |env.lights|
    ensures var c := ContributionsFrom(env, cfg, r, isect, j, acc.next);
      ImportanceFrom(env, cfg, r, isect, j, acc) == Est(Add(acc.value, c.value), c.next)
    decreases |env.lights| - j
  {
    if j < |env.lights| {
      var light := env.lights[j];
      LightEstimateIsAverage(env, cfg, r, isect, light, acc.next);
      LightEstimateReads(env, cfg, r, isect, light, acc.next);
      var e := LightEstimate(env, cfg, r, isect, light, acc.next);
      ImportanceFromChains(env, cfg, r, isect, j + 1, Est(Add(acc.value, e.value), e.next));
    }
  }

  /** For every scene, delta lights included, the importance estimate is
      the sum over lights of each light's contribution, the lights reading
      consecutive runs of draws. */
  lemma ImportanceIsSumOfContributions(env: Env, cfg: Config, r: Ray, isect: Isect, k: nat)
    ensures Importance(env, cfg, r, isect, k) == ContributionsFrom(env, cfg, r, isect, 0, k)
  {
    ImportanceFromChains(env, cfg, r, isect, 0, Est(Zero, k));
  }

  /** Without delta lights, the importance estimate is the sum over lights
      of the average of each light's counted samples, light `j` using draws
      `k + j * nsAreaLight` onwards; all `|lights| * nsAreaLight` draws are
      used. */
  lemma ImportanceIsSumOfAverages(env: Env, cfg: Config, r: Ray, isect: Isect, k: nat)
    requires NoDeltaLights(env)
    ensures Importance(env, cfg, r, isect, k).value == AveragesFrom(env, cfg, r, isect, 0, k)
    ensures Importance(env, cfg, r, isect, k).next == k + |env.lights| * cfg.nsAreaLight
  {
    ImportanceFromSums(env, cfg, r, isect, 0, Est(Zero, k));
  }

  // ----- uniform hemisphere sampling -----------------------------------------

  /** BSDF sample `k` and the ray cast along it from the hit point. */
  function HemiSample(env: Env, r: Ray, isect: Isect, k: nat): BsdfSample {
    env.sampleF(isect.bsdf, WOut(env, r, isect), k)
  }

  function HemiRay(env: Env, cfg: Config, r: Ray, isect: Isect, s: BsdfSample): Ray {
    Ray(HitPoint(r, isect), env.toWorld(isect.n, s.wi), cfg.eps, Inf, 1)
  }

  /** Sample `k` faces outwards and its ray strikes a surface. */
  predicate HemiHits(env: Env, cfg: Config, r: Ray, isect: Isect, k: nat) {
    var s := HemiSample(env, r, isect, k);
    s.wi.z > 0.0 && env.trace(HemiRay(env, cfg, r, isect, s)).Some?
  }

  /** emission * f * cos / pdf for a sample that hits, with a non-zero pdf. */
  function HemiContribution(env: Env, cfg: Config, r: Ray, isect: Isect, k: nat): Vec3
    requires HemiHits(env, cfg, r, isect, k) && HemiSample(env, r, isect, k).pdf != 0.0
  {
    var s := HemiSample(env, r, isect, k);
    Scale(Mul(env.emission(env.trace(HemiRay(env, cfg, r, isect, s)).value.bsdf), s.f), s.wi.z / s.pdf)
  }

  /** The term the source adds for sample `k`; None when it divides by a
      zero pdf. */
  function HemiTermAsWritten(env: Env, cfg: Config, r: Ray, isect: Isect, k: nat): Option<Vec3> {
    if !HemiHits(env, cfg, r, isect, k) then Some(Zero)
    else if HemiSample(env, r, isect, k).pdf == 0.0 then None
    else Some(HemiContribution(env, cfg, r, isect, k))
  }

  /** The guarded term: a sample contributes only with a positive pdf. */
  function HemiTerm(env: Env, cfg: Config, r: Ray, isect: Isect, k: nat): Vec3 {
    if HemiHits(env, cfg, r, isect, k) && HemiSample(env, r, isect, k).pdf > 0.0 then HemiContribution(env, cfg, r, isect, k)
    else Zero
  }

  function HemiTermsAsWritten(env: Env, cfg: Config, r: Ray, isect: Isect): nat -> Option<Vec3> {
    (k: nat) => HemiTermAsWritten(env, cfg, r, isect, k)
  }

  function HemiTerms(env: Env, cfg: Config, r: Ray, isect: Isect): nat -> Vec3 {
    (k: nat) => HemiTerm(env, cfg, r, isect, k)
  }

  /** The number of hemisphere samples, #lights * ns_area_light. */
  function HemiCount(env: Env, cfg: Config): nat { |env.lights| * cfg.nsAreaLight }

  /** estimate_direct_lighting_hemisphere as written: the sum is divided by
      the sample count and each term by its pdf, neither of them guarded.
      None stands for the NaN or infinite result of a division by zero. */
  function HemisphereAsWritten(env: Env, cfg: Config, r: Ray, isect: Isect, k: nat): (res: Option<Vec3>)
    ensures res.Some? ==> HemiCount(env, cfg) > 0
  {
    var n := HemiCount(env, cfg);
    var sum := PartialSumOf(HemiTermsAsWritten(env, cfg, r, isect), k, n);
    if sum.None? || n == 0 then None else Some(Scale(sum.value, 1.0 / n as real))
  }

  /** The hemisphere estimator with both divisions guarded: black without
      samples, and a sample with a non-positive pdf contributes nothing. It
      always uses exactly #lights * ns_area_light draws. */
  function Hemisphere(env: Env, cfg: Config, r: Ray, isect: Isect, k: nat): (res: Est)
    ensures res.next == k + HemiCount(env, cfg)
    ensures HemiCount(env, cfg) == 0 ==> res.value == Zero
  {
    var n := HemiCount(env, cfg);
    Est(if n == 0 then Zero else Scale(SumOf(HemiTerms(env, cfg, r, isect), k, n), 1.0 / n as real), k + n)
  }

  /** Sample `k` would divide by a zero pdf. */
  predicate ZeroPdfHit(env: Env, cfg: Config, r: Ray, isect: Isect, k: nat) {
    HemiHits(env, cfg, r, isect, k) && HemiSample(env, r, isect, k).pdf == 0.0
  }

  /** The as-written estimator is defined exactly when there is at least
      one sample and no outward sample that hits a surface has a zero pdf. */
  lemma HemisphereAsWrittenDefinedIff(env: Env, cfg: Config, r: Ray, isect: Isect, k: nat)
    ensures HemisphereAsWritten(env, cfg, r, isect, k).Some?
        <==> HemiCount(env, cfg) > 0 && forall j :: k <= j < k + HemiCount(env, cfg) ==> !ZeroPdfHit(env, cfg, r, isect, j)
  {
    var terms := HemiTermsAsWritten(env, cfg, r, isect);
    PartialSumDefinedIff(terms, k, HemiCount(env, cfg));
    assert forall j: nat :: terms(j).Some? <==> !ZeroPdfHit(env, cfg, r, isect, j);
  }

  /** A scene with no lights, or zero samples per light: the source divides
      the black sum by zero, while the guarded estimator returns black. */
  lemma HemisphereWithoutSamples(env: Env, cfg: Config, r: Ray, isect: Isect, k: nat)
    requires |env.lights| == 0 || cfg.nsAreaLight == 0
    ensures HemisphereAsWritten(env, cfg, r, isect, k).None?
    ensures Hemisphere(env, cfg, r, isect, k) == Est(Zero, k)
  {
  }

  predicate NonNegativePdfs(env: Env, r: Ray, isect: Isect, k: nat, n: nat) {
    forall j :: k <= j < k + n ==> HemiSample(env, r, isect, j).pdf >= 0.0
  }

  /** Wherever the source's estimator is defined (and pdfs are, as they
      should be, non-negative) the guarded estimator gives the same value. */
  lemma HemisphereAgreesWhereDefined(env: Env, cfg: Config, r: Ray, isect: Isect, k: nat)
    requires NonNegativePdfs(env, r, isect, k, HemiCount(env, cfg))
    requires HemisphereAsWritten(env, cfg, r, isect, k).Some?
    ensures HemisphereAsWritten(env, cfg, r, isect, k).value == Hemisphere(env, cfg, r, isect, k).value
  {
    var n := HemiCount(env, cfg);
    var terms := HemiTermsAsWritten(env, cfg, r, isect);
    var total := HemiTerms(env, cfg, r, isect);
    forall j | k <= j < k + n && terms(j).Some?
      ensures terms(j).value == total(j)
    {
      assert HemiSample(env, r, isect, j).pdf >= 0.0;
    }
    PartialSumAgrees(terms, total, k, n);
  }

  /** The hemisphere estimator is light-agnostic: changing the lights and
      their samplers, keeping their number, leaves it unchanged. */
  lemma HemisphereIsLightAgnostic(env: Env, env2: Env, cfg: Config, r: Ray, isect: Isect, k: nat)
    requires env2 == env.(lights := env2.lights, sampleL := env2.sampleL)
    requires |env2.lights| == |env.lights|
    ensures Hemisphere(env2, cfg, r, isect, k) == Hemisphere(env, cfg, r, isect, k)
  {
    var t1 := HemiTerms(env2, cfg, r, isect);
    var t2 := HemiTerms(env, cfg, r, isect);
    assert forall j: nat :: t1(j) == t2(j);
    SumOfPointwise(t1, t2, k, HemiCount(env, cfg));
  }

  // ----- bounces ----------------------------------------------------------------

  /** PathTracer::zero_bounce_radiance: the surface's own emission. */
  function ZeroBounce(env: Env, isect: Isect): Vec3 { env.emission(isect.bsdf) }

  /** A surface nothing emits from and no light reaches: every direct
      estimate there is black. */
  ghost predicate Dark(env: Env) {
    |env.lights| == 0 && forall b :: env.emission(b) == Zero
  }

  lemma {:induction false} DarkPathIsBlack(env: Env, cfg: Config, r: Ray, isect: Isect, k: nat)
    requires Dark(env)
    ensures AtLeastOne(env, cfg, r, isect, k).value == Zero
    decreases r.depth
  {
    if r.depth > 1 {
      var direct := OneBounce(env, cfg, r, isect, k);
      var c := Continue(env, cfg, r, isect, if cfg.accumBounces then direct.next else k);
      if c.Some? {
        DarkPathIsBlack(env, cfg, c.value.1, c.value.2, (if cfg.accumBounces then direct.next else k) + 1);
      }
    }
  }

  /** In a scene with no lights and no emitting surface every camera ray,
      whatever it hits, is estimated black: the zero-bounce term is the
      surface's own emission and every later bounce only carries light
      found elsewhere. */
  lemma DarkSceneIsBlack(env: Env, cfg: Config, r: Ray, k: nat)
    requires Dark(env)
    ensures EstRadiance(env, cfg, r, k).value == Zero
  {
    if env.trace(r).Some? {
      var isect := env.trace(r).value;
      DarkPathIsBlack(env, cfg, Budget(cfg, r), isect, k);
      assert ZeroBounce(env, isect) == Zero;
    }
  }

  /** PathTracer::one_bounce_radiance: the configured direct-lighting
      estimator. */
  function OneBounce(env: Env, cfg: Config, r: Ray, isect: Isect, k: nat): (res: Est)
    ensures k <= res.next <= k + |env.lights| * cfg.nsAreaLight
  {
    if cfg.hemisphere then Hemisphere(env, cfg, r, isect, k) else Importance(env, cfg, r, isect, k)
  }

  /** The BSDF sample continues the path: positive pdf, non-zero value and
      an outward direction. */
  predicate Scatters(s: BsdfSample) { s.pdf > 0.0 && s.f != Zero && s.wi.z > 0.0 }

  /** The continuation ray, one bounce fewer. */
  function BounceRay(env: Env, cfg: Config, r: Ray, isect: Isect, s: BsdfSample): (res: Ray)
    ensures res.depth == r.depth - 1
  {
    Ray(HitPoint(r, isect), env.toWorld(isect.n, s.wi), cfg.eps, Inf, r.depth - 1)
  }

  /** Where the path goes after a vertex with bounce budget left, reading
      BSDF draw `k`: the sample, the continuation ray and its hit. None when
      the budget is spent, the sample does not scatter, or the ray escapes. */
  function Continue(env: Env, cfg: Config, r: Ray, isect: Isect, k: nat): (res: Option<(BsdfSample, Ray, Isect)>)
    ensures res.Some? ==> r.depth > 1 && res.value.1.depth == r.depth - 1 && Scatters(res.value.0)
    ensures var s := env.sampleF(isect.bsdf, WOut(env, r, isect), k);
      r.depth > 1 && Scatters(s) && env.trace(BounceRay(env, cfg, r, isect, s)).Some? ==> res.Some?
  {
    if r.depth <= 1 then None
    else
      var s := env.sampleF(isect.bsdf, WOut(env, r, isect), k);
      var next := BounceRay(env, cfg, r, isect, s);
      if Scatters(s) && env.trace(next).Some? then Some((s, next, env.trace(next).value)) else None
  }

  /** The scattering weight f * cos / pdf of a sample. */
  function Weight(s: BsdfSample): Vec3
    requires Scatters(s)
  {
    Scale(s.f, s.wi.z / s.pdf)
  }

  /** PathTracer::at_least_one_bounce_radiance, in both modes. Without
      accumulation only the BSDF draw is read at each bounce; with it the
      direct-lighting draws come first. */
  function AtLeastOne(env: Env, cfg: Config, r: Ray, isect: Isect, k: nat): (res: Est)
    ensures k <= res.next
    decreases r.depth
  {
    if r.depth <= 1 then OneBounce(env, cfg, r, isect, k)
    else if !cfg.accumBounces then
      match Continue(env, cfg, r, isect, k)
      case None => Est(Zero, k + 1)
      case Some(c) => AtLeastOne(env, cfg, c.1, c.2, k + 1)
    else
      var direct := OneBounce(env, cfg, r, isect, k);
      match Continue(env, cfg, r, isect, direct.next)
      case None => Est(direct.value, direct.next + 1)
      case Some(c) =>
        var ind := AtLeastOne(env, cfg, c.1, c.2, direct.next + 1);
        Est(Add(direct.value, Scale(Mul(c.0.f, ind.value), c.0.wi.z / c.0.pdf)), ind.next)
  }

  // ----- the path view of the accumulating mode -----------------------------

  /** A path vertex: its direct-lighting estimate and the scattering weight
      towards the next vertex (zero at the last one). */
  datatype Bounce = Bounce(direct: Vec3, weight: Vec3)

  /** The vertices an accumulating estimate visits, from the hit `isect`
      on, each with the draws the source uses there. */
  ghost function Vertices(env: Env, cfg: Config, r: Ray, isect: Isect, k: nat): seq<Bounce>
    decreases r.depth
  {
    var direct := OneBounce(env, cfg, r, isect, k);
    match Continue(env, cfg, r, isect, direct.next)
    case None => [Bounce(direct.value, Zero)]
    case Some(c) => [Bounce(direct.value, Weight(c.0))] + Vertices(env, cfg, c.1, c.2, direct.next + 1)
  }

  /** Product of the weights of the first `j` vertices. */
  function Throughput(p: seq<Bounce>, j: nat): Vec3
    requires j <= |p|
  {
    if j == 0 then One else Mul(Throughput(p, j - 1), p[j - 1].weight)
  }

  /** Sum over the first `n` vertices of throughput times direct light. */
  function PathSum(p: seq<Bounce>, n: nat): Vec3
    requires n <= |p|
  {
    if n == 0 then Zero else Add(PathSum(p, n - 1), Mul(Throughput(p, n - 1), p[n - 1].direct))
  }

  lemma {:induction false} ThroughputCons(b: Bounce, q: seq<Bounce>, j: nat)
    requires j <= |q|
    ensures Throughput([b] + q, j + 1) == Mul(b.weight, Throughput(q, j))
  {
    if j > 0 {
      ThroughputCons(b, q, j - 1);
      assert ([b] + q)[j] == q[j - 1];
    }
  }

  lemma {:induction false} PathSumCons(b: Bounce, q: seq<Bounce>, n: nat)
    requires n <= |q|
    ensures PathSum([b] + q, n + 1) == Add(b.direct, Mul(b.weight, PathSum(q, n)))
  {
    if n > 0 {
      PathSumCons(b, q, n - 1);
      ThroughputCons(b, q, n - 1);
      assert ([b] + q)[n] == q[n - 1];
      var t := Throughput(q, n - 1);
      MulAssociates(b.weight, t, q[n - 1].direct);
      MulDistributes(b.weight, PathSum(q, n - 1), Mul(t, q[n - 1].direct));
    }
  }

  /** In accumulating mode the estimate is the path sum: over the vertices
      visited, the direct light at each weighted by the product of the
      scattering weights before it. */
  lemma {:induction false} AccumulatingIsPathSum(env: Env, cfg: Config, r: Ray, isect: Isect, k: nat)
    requires cfg.accumBounces
    ensures var p := Vertices(env, cfg, r, isect, k);
      AtLeastOne(env, cfg, r, isect, k).value == PathSum(p, |p|)
    decreases r.depth
  {
    var direct := OneBounce(env, cfg, r, isect, k);
    match Continue(env, cfg, r, isect, direct.next)
    case None =>
      assert PathSum([Bounce(direct.value, Zero)], 1) == Add(Zero, Mul(One, direct.value));
    case Some(c) =>
      var q := Vertices(env, cfg, c.1, c.2, direct.next + 1);
      var b := Bounce(direct.value, Weight(c.0));
      var ind := AtLeastOne(env, cfg, c.1, c.2, direct.next + 1);
      assert r.depth > 1;
      assert Vertices(env, cfg, r, isect, k) == [b] + q;
      assert AtLeastOne(env, cfg, r, isect, k).value == Add(direct.value, Scale(Mul(c.0.f, ind.value), c.0.wi.z / c.0.pdf));
      AccumulatingIsPathSum(env, cfg, c.1, c.2, direct.next + 1);
      PathSumCons(b, q, |q|);
      ScaleMulCommutes(c.0.f, ind.value, c.0.wi.z / c.0.pdf);
  }

  /** The path has at least one vertex and no more than the bounce budget. */
  lemma {:induction false} PathLengthBounded(env: Env, cfg: Config, r: Ray, isect: Isect, k: nat)
    ensures 1 <= |Vertices(env, cfg, r, isect, k)| <= (if r.depth <= 1 then 1 else r.depth)
    decreases r.depth
  {
    var direct := OneBounce(env, cfg, r, isect, k);
    match Continue(env, cfg, r, isect, direct.next)
    case None =>
    case Some(c) =>
      PathLengthBounded(env, cfg, c.1, c.2, direct.next + 1);
  }

  // ----- the non-accumulating mode ----------------------------------------------

  /** A place where the walk stops to estimate direct light. */
  datatype Vertex = Vertex(ray: Ray, isect: Isect, draw: nat)

  /** Where a non-accumulating walk ends: the vertex whose ray has no bounce
      budget left, or None when a sample is absorbed or escapes first. */
  ghost function Terminal(env: Env, cfg: Config, r: Ray, isect: Isect, k: nat): (v: Option<Vertex>)
    ensures v.Some? ==> v.value.ray.depth <= 1 && v.value.draw >= k
    decreases r.depth
  {
    if r.depth <= 1 then Some(Vertex(r, isect, k))
    else
      match Continue(env, cfg, r, isect, k)
      case None => None
      case Some(c) => Terminal(env, cfg, c.1, c.2, k + 1)
  }

  /** The direct light at the end of the walk, black if there is none. */
  ghost function TerminalLight(env: Env, cfg: Config, r: Ray, isect: Isect, k: nat): Vec3 {
    match Terminal(env, cfg, r, isect, k)
    case None => Zero
    case Some(v) => OneBounce(env, cfg, v.ray, v.isect, v.draw).value
  }

  /** In non-accumulating mode the estimate is the direct light at the end
      of the walk, not weighted by the BSDF values or pdfs along it, or
      black when the walk is cut short. */
  lemma {:induction false} NonAccumulatingIsTerminalLight(env: Env, cfg: Config, r: Ray, isect: Isect, k: nat)
    requires !cfg.accumBounces
    ensures AtLeastOne(env, cfg, r, isect, k).value == TerminalLight(env, cfg, r, isect, k)
    decreases r.depth
  {
    if r.depth > 1 {
      match Continue(env, cfg, r, isect, k)
      case None =>
      case Some(c) =>
        NonAccumulatingIsTerminalLight(env, cfg, c.1, c.2, k + 1);
    }
  }

  // ----- the radiance estimate and the pixel loop ---------------------------------

  /** The bounce budget of the first hit: the ray's own, or max_ray_depth
      when the ray carries none. */
  function Budget(cfg: Config, r: Ray): (res: Ray)
    ensures r.depth > 0 ==> res == r
    ensures r.depth <= 0 ==> res.depth == cfg.maxRayDepth
  {
    if r.depth <= 0 then r.(depth := cfg.maxRayDepth) else r
  }

  /** PathTracer::est_radiance_global_illumination. */
  function EstRadiance(env: Env, cfg: Config, r: Ray, k: nat): (res: Est)
    ensures k <= res.next
    ensures env.trace(r).None? ==> res == Est(Zero, k)
  {
    match env.trace(r)
    case None => Est(Zero, k)
    case Some(isect) =>
      var ind := AtLeastOne(env, cfg, Budget(cfg, r), isect, k);
      Est(Add(ZeroBounce(env, isect), ind.value), ind.next)
  }

  /** A camera ray that hits is shaded with its emission plus the path sum
      of the accumulating mode (or the walk's terminal light otherwise) over
      at most max(1, max_ray_depth) vertices. */
  lemma RadianceDecomposes(env: Env, cfg: Config, r: Ray, k: nat)
    requires r.depth <= 0 && env.trace(r).Some?
    ensures var isect := env.trace(r).value;
      var b := r.(depth := cfg.maxRayDepth);
      var p := Vertices(env, cfg, b, isect, k);
      && (cfg.accumBounces ==> EstRadiance(env, cfg, r, k).value == Add(env.emission(isect.bsdf), PathSum(p, |p|)))
      && |p| <= (if cfg.maxRayDepth <= 1 then 1 else cfg.maxRayDepth)
      && (!cfg.accumBounces ==>
            EstRadiance(env, cfg, r, k).value == Add(env.emission(isect.bsdf), TerminalLight(env, cfg, b, isect, k)))
  {
    var isect := env.trace(r).value;
    var b := r.(depth := cfg.maxRayDepth);
    PathLengthBounded(env, cfg, b, isect, k);
    if cfg.accumBounces {
      AccumulatingIsPathSum(env, cfg, b, isect, k);
    } else {
      NonAccumulatingIsTerminalLight(env, cfg, b, isect, k);
    }
  }

  /** The two image buffers: accumulated radiance and sample counts, row-major
      with `w` columns. */
  datatype Frame = Frame(w: nat, h: nat, pixels: seq<Vec3>, counts: seq<nat>)

  predicate WellFormed(f: Frame) { |f.pixels| == f.w * f.h && |f.counts| == f.w * f.h }

  /** The buffer slot of pixel (x, y). */
  function Slot(w: nat, x: nat, y: nat): nat { x + y * w }

  lemma SlotInRange(w: nat, h: nat, x: nat, y: nat)
    requires x < w && y < h
    ensures Slot(w, x, y) < w * h
  {
    assert y * w <= (h - 1) * w;
  }

  /** Distinct pixels own distinct slots, so pixels can be rendered
      independently. */
  lemma SlotsDistinct(w: nat, x1: nat, y1: nat, x2: nat, y2: nat)
    requires x1 < w && x2 < w && (x1, y1) != (x2, y2)
    ensures Slot(w, x1, y1) != Slot(w, x2, y2)
  {
    if y1 < y2 {
      assert y2 * w >= (y1 + 1) * w;
    } else if y2 < y1 {
      assert y1 * w >= (y2 + 1) * w;
    }
  }

  /** Camera ray of sample `k` for pixel (x, y): the pixel corner plus a
      jitter, normalised by the frame size. */
  function SampleRay(env: Env, f: Frame, x: nat, y: nat, k: nat): Ray
    requires f.w > 0 && f.h > 0
  {
    var g := env.grid(k);
    env.camera(((x as real) + g.0) / (f.w as real), ((y as real) + g.1) / (f.h as real))
  }

  /** The radiance estimates of `n` samples from draw `k`, and the next draw. */
  function PixelSamples(env: Env, cfg: Config, f: Frame, x: nat, y: nat, n: nat, k: nat): (res: (seq<Vec3>, nat))
    requires f.w > 0 && f.h > 0
    ensures |res.0| == n && res.1 >= k + n
    decreases n
  {
    if n == 0 then ([], k)
    else
      var e := EstRadiance(env, cfg, SampleRay(env, f, x, y, k), k + 1);
      var rest := PixelSamples(env, cfg, f, x, y, n - 1, e.next);
      ([e.value] + rest.0, rest.1)
  }

  /** PathTracer::raytrace_pixel: average ns_aa radiance samples into the
      pixel's slot and record the sample count there; nothing else in the
      frame changes. */
  function RaytracePixel(env: Env, cfg: Config, f: Frame, x: nat, y: nat, k: nat): (res: (Frame, nat))
    requires WellFormed(f) && x < f.w && y < f.h && cfg.nsAa > 0
    ensures WellFormed(res.0) && res.0.w == f.w && res.0.h == f.h
    ensures res.1 >= k + cfg.nsAa
    ensures Slot(f.w, x, y) < |f.pixels|
    ensures res.0.pixels[Slot(f.w, x, y)] == Average(PixelSamples(env, cfg, f, x, y, cfg.nsAa, k).0)
    ensures res.0.counts[Slot(f.w, x, y)] == cfg.nsAa
    ensures forall i :: 0 <= i < |f.pixels| && i != Slot(f.w, x, y) ==> res.0.pixels[i] == f.pixels[i] && res.0.counts[i] == f.counts[i]
  {
    SlotInRange(f.w, f.h, x, y);
    var samples := PixelSamples(env, cfg, f, x, y, cfg.nsAa, k);
    var i := Slot(f.w, x, y);
    (f.(pixels := f.pixels[i := Scale(SumSeq(samples.0), 1.0 / cfg.nsAa as real)], counts := f.counts[i := cfg.nsAa]), samples.1)
  }

  predicate Between(lo: Vec3, v: Vec3, hi: Vec3) { LeVec(lo, v) && LeVec(v, hi) }

  lemma {:induction false} SumBetween(s: seq<Vec3>, lo: Vec3, hi: Vec3)
    requires forall i :: 0 <= i < |s| ==> Between(lo, s[i], hi)
    ensures Between(Scale(lo, |s| as real), SumSeq(s), Scale(hi, |s| as real))
  {
    if |s| > 0 {
      var m := (|s| - 1) as real;
      assert forall i :: 0 <= i < |s[1..]| ==> s[1..][i] == s[i + 1];
      SumBetween(s[1..], lo, hi);
      assert Between(lo, s[0], hi);
      assert Scale(lo, m + 1.0) == Add(lo, Scale(lo, m)) by { Distributes(lo, m); }
      assert Scale(hi, m + 1.0) == Add(hi, Scale(hi, m)) by { Distributes(hi, m); }
    }
  }

  lemma Distributes(v: Vec3, m: real)
    ensures Scale(v, m + 1.0) == Add(v, Scale(v, m))
  {
    assert v.x * (m + 1.0) == v.x + v.x * m;
    assert v.y * (m + 1.0) == v.y + v.y * m;
    assert v.z * (m + 1.0) == v.z + v.z * m;
  }

  /** Dividing by a positive count keeps a bound: l * n <= x <= h * n gives
      l <= x / n <= h. */
  lemma DivideBounds(l: real, x: real, h: real, n: real)
    requires n > 0.0 && l * n <= x <= h * n
    ensures l <= x * (1.0 / n) <= h
  {
    var q := 1.0 / n;
    assert q > 0.0;
    assert l * n * q <= x * q;
    assert x * q <= h * n * q;
    assert n * q == 1.0;
    assert l * n * q == l * (n * q);
    assert h * n * q == h * (n * q);
  }

  lemma ScaleBetween(lo: Vec3, v: Vec3, hi: Vec3, n: real)
    requires n > 0.0 && Between(Scale(lo, n), v, Scale(hi, n))
    ensures Between(lo, Scale(v, 1.0 / n), hi)
  {
    DivideBounds(lo.x, v.x, hi.x, n);
    DivideBounds(lo.y, v.y, hi.y, n);
    DivideBounds(lo.z, v.z, hi.z, n);
  }

  /** An average lies between any bounds every sample lies between: a pixel
      is never brighter or darker than all of its samples. */
  lemma AverageBetween(s: seq<Vec3>, lo: Vec3, hi: Vec3)
    requires |s| > 0
    requires forall i :: 0 <= i < |s| ==> Between(lo, s[i], hi)
    ensures Between(lo, Average(s), hi)
  {
    SumBetween(s, lo, hi);
    ScaleBetween(lo, SumSeq(s), hi, |s| as real);
  }
}

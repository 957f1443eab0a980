# A Dafny model of the path tracer's core and the mesh viewers' loader and controls

This project models, in Dafny, the core of a small CPU path tracer and of two
OpenGL mesh viewers. It covers four parts.

- **Sphere intersection** (`sphere.dfy`, module `Shapes`). The ray–sphere quadratic, `Sphere::test`.
  Also the two queries built on it: `has_intersection` (any hit) and `intersect` (nearest hit, with intersection record).
- **The bounding-volume hierarchy** (`bvh.dfy`, module `Bvh`; `bvh_query.dfy`, module `BvhQuery`).
  - `construct_bvh`: union boxes, centroid mean, the per-axis split cost, axis choice, `std::partition` and the fallback split by count.
  - The two traversals, `intersect` and `has_intersection`.
- **The path tracer** (`pathtracer.dfy`, module `PathTracer`).
  - Zero-bounce radiance, and direct lighting by hemisphere sampling and by light (importance) sampling.
  - `at_least_one_bounce_radiance`, in both its accumulating and non-accumulating modes.
  - `est_radiance_global_illumination` and `raytrace_pixel`.
- **The mesh viewers** (`objloader.dfy`, module `ObjLoader`; `controls.dfy`, module `Controls`).
  - `loadObjModel`, which skips non-triangle faces and merges corners whose string key is equal. The plain viewer keys on position and normal. The textured viewer also keys on the texture coordinate.
  - The mouse-drag rotation callback and the scroll-wheel zoom callback.

`geometry.dfy` (module `Geometry`) holds the vector, extended-real, ray and box vocabulary, and `wrappers.dfy` holds `Option`.

Floating-point numbers are modelled as reals. A ray's `max_t` is an extended real, because rays start at infinity.

Some operations take their outside world as parameters. None of these are modelled, and lemmas state what they assume about them:
- the square root;
- the slab test `BBox::intersect`;
- the BSDF and light samplers, and the camera and grid samplers;
- the local/world frame change;
- the scene's `bvh->intersect`.

The path tracer's random draws are indexed by a draw counter. Each estimator receives the counter and returns the next unused one (`Est`), so the number of draws an estimator uses is part of its contract.

## Model

| member | source | states |
|---|---|---|
| Shapes.Test | src/scene/sphere.cpp:11-36 | no roots exactly when the discriminant is negative; otherwise the smaller root comes first |
| Shapes.TestFindsSurface | src/scene/sphere.cpp:11-36 | with an exact square root, the two reported roots are exactly the parameters at which the ray point lies on the sphere |
| Shapes.HasIntersection | src/scene/sphere.cpp:38-53 | a miss leaves the ray unchanged; a hit only shrinks `max_t`, to a parameter in `[min_t, max_t]` |
| Shapes.Intersect | src/scene/sphere.cpp:55-82 | a miss leaves the ray and the record unchanged; a hit stores a parameter inside the window, this sphere and its BSDF, and sets `max_t` to that parameter |
| Shapes.QueriesAgree | src/scene/sphere.cpp:38-82 | the any-hit and nearest-hit queries agree on the hit flag and the updated ray, and both accept exactly when a candidate root lies within `max_t` |
| Shapes.CandidateIgnoresMaxT | src/scene/sphere.cpp:44-47 | the root the sphere picks (the first one at or beyond `min_t`) does not depend on `max_t` |
| Shapes.IntersectIsNearest | src/scene/sphere.cpp:55-82 | with an exact square root, a hit reports a surface point inside the window and no surface point inside the window is nearer; a miss means no surface point lies inside the window |
| Shapes.CandidateIsNearestSurface | src/scene/sphere.cpp:63-66 | the candidate is the nearest surface point at or beyond `min_t`; with no candidate, every surface point lies before `min_t` |
| Shapes.NormalIsUnit | src/scene/sphere.cpp:78-79 | for a sphere of non-zero radius, the reported normal has length one |
| Shapes.AimedAtCentre | src/scene/sphere.cpp:55-82 | a ray from outside, aimed at the centre along any unit direction, first meets the sphere at distance minus radius |
| Shapes.SurfaceIsQuadratic | src/scene/sphere.cpp:18-20 | a ray point lies on the sphere exactly when its parameter solves `a x² + b x + c = 0` with the coefficients the source computes |
| Shapes.QuadraticRoots | src/scene/sphere.cpp:22-33 | the ordered pair `(-b ∓ √Δ)/2a` holds exactly the solutions of the quadratic |
| Bvh.HullIsUnion | src/scene/bvh.cpp:56-64 | expanding an empty box by every primitive's box yields a box that holds them all and lies inside every box that does |
| Bvh.HullUnique | src/scene/bvh.cpp:56-64 | a set of primitives has only one union box |
| Bvh.HullOfPermutation | src/scene/bvh.cpp:60-64 | the union box does not depend on the primitives' order, so reordering by the partition keeps the node's box |
| Bvh.LeftRightSplit | src/scene/bvh.cpp:93-110 | the left and right lists partition the range: sizes add up, left holds exactly centroids at or below the split, right the others |
| Bvh.ChooseFrom | src/scene/bvh.cpp:90-145 | the axis loop returns a scored axis with its own score |
| Bvh.ChooseFromIsFirstMin | src/scene/bvh.cpp:141-144 | the strict `<` keeps the first axis of least cost; axes whose split leaves a side empty are never chosen |
| Bvh.ChooseAxis | src/scene/bvh.cpp:85-145 | the chosen axis is one of 0, 1, 2 |
| Bvh.ChosenAxisIsCheapest | src/scene/bvh.cpp:112-145 | no axis is chosen exactly when every axis leaves a side empty; otherwise both sides are non-empty and no qualifying axis is cheaper |
| Bvh.Partition | src/scene/bvh.cpp:164-168 | the output is a permutation of the input with every left-going primitive before every other, and the boundary is the number of left-going primitives |
| Bvh.LoneSphereSplitsToItself | src/scene/bvh.cpp:90-154 | a single primitive qualifies on no axis, so a one-primitive range that is not a leaf takes the count fallback, whose right half is the whole range again |
| Bvh.SplitRange | src/scene/bvh.cpp:78-173 | for a range above the leaf size, the split is a permutation with a boundary strictly inside the range: the partition boundary on the chosen axis, or half the count when no axis qualifies or the partition leaves a side empty |
| Bvh.Build | src/scene/bvh.cpp:51-183 | the result is a permutation of the range; the leaves tile the range in order; a node is a leaf exactly when the range fits in one; every leaf holds at most the leaf size; every node's box is the union of its primitives |
| Bvh.JoinChildren | src/scene/bvh.cpp:175-182 | two valid children over adjacent ranges make a valid inner node |
| Bvh.LeavesTileRange | src/scene/bvh.cpp:70-76 | concatenating the leaves' contents left to right gives back exactly the node's range |
| Bvh.NewAccel | src/scene/bvh.cpp:14-19 | the accelerator's primitive array is a permutation of the input, and its tree is valid over it |
| BvhQuery.LeafHit | src/scene/bvh.cpp:232-240 | the leaf loop never grows `max_t`, and on a hit it stores a record within the window |
| BvhQuery.NodeHit | src/scene/bvh.cpp:219-245 | the nearest-hit traversal never grows `max_t`; a null node or a missed box reports no hit |
| BvhQuery.NodeAny | src/scene/bvh.cpp:185-217 | the any-hit traversal only shrinks `max_t`; a null node or a missed box reports no hit |
| BvhQuery.AccelHit | src/scene/bvh.cpp:219-245 | the nearest-hit query on the whole tree never grows `max_t` |
| BvhQuery.AccelAny | src/scene/bvh.cpp:185-217 | the any-hit query on the whole tree only shrinks `max_t` |
| BvhQuery.LeafAny | src/scene/bvh.cpp:201-208 | the shadow-query leaf loop leaves the ray untouched when it reports no hit; on a hit it changes only `max_t`, to a parameter inside the ray's window |
| BvhQuery.LeafQueriesAgree | src/scene/bvh.cpp:201-208 | the leaf loops of the two traversals agree on whether there is a hit |
| BvhQuery.QueriesAgreeOnTree | src/scene/bvh.cpp:185-245 | on every tree and every box test, the any-hit traversal reports a hit exactly when the nearest-hit traversal does |
| BvhQuery.LeafIsExact | src/scene/bvh.cpp:232-240 | the leaf loop reports the least candidate parameter of its range, or no hit when no primitive accepts |
| BvhQuery.NodeIsExact | src/scene/bvh.cpp:219-245 | on a subtree built by the construction and with a box test that never misses a box holding an accepting primitive, the traversal reports the least candidate of the subtree's range |
| BvhQuery.PrunedRangeIsEmpty | src/scene/bvh.cpp:225-229 | a node whose box the ray misses holds no primitive the ray accepts |
| BvhQuery.AccelIsExact | src/scene/bvh.cpp:219-245 | on a built accelerator, the nearest-hit query reports the least candidate over all primitives, or no hit when none accepts |
| BvhQuery.AccelFindsNearestSurface | src/scene/bvh.cpp:219-245 | with an exact square root as well, the query reports the nearest sphere surface point inside the ray's window, or no hit when there is none |
| PathTracer.Tallied | src/pathtracer/pathtracer.cpp:124-148 | the sample loop draws at most its budget, counts at most the draws, and draws the whole budget unless it stops after the first counted sample |
| PathTracer.TalliedAll | src/pathtracer/pathtracer.cpp:124-148 | without the delta-light break, the loop sums and counts exactly the samples facing the surface |
| PathTracer.TalliedFirst | src/pathtracer/pathtracer.cpp:146-147 | with the break, the loop counts at most one sample: the first facing the surface |
| PathTracer.TalliedFirstReads | src/pathtracer/pathtracer.cpp:146-147 | with the break, the loop stops reading draws right after its first counted sample, or reads its whole budget when none is counted |
| PathTracer.PartialSumDefinedIff | src/pathtracer/pathtracer.cpp:77-94 | a sum of sample terms is defined exactly when every term is |
| PathTracer.PartialSumAgrees | src/pathtracer/pathtracer.cpp:77-94 | where it is defined, a sum of terms agrees with the sum of any total terms that agree with them |
| PathTracer.LightTerm | src/pathtracer/pathtracer.cpp:126-143 | a light sample is skipped, uncounted, exactly when the light lies behind the surface; with non-negative radiance and BSDF value, a counted sample's term is non-negative |
| PathTracer.LightEstimate | src/pathtracer/pathtracer.cpp:121-151 | one light's estimate uses at most `ns_area_light` draws, and exactly that many for an area light |
| PathTracer.LightEstimateIsAverage | src/pathtracer/pathtracer.cpp:121-151 | an area light contributes the average of its counted samples; a delta light contributes its first counted sample; a light with no counted sample contributes nothing |
| PathTracer.LightEstimateReads | src/pathtracer/pathtracer.cpp:124-148 | a light's loop leaves the draw counter just past what it read: all `ns_area_light` draws for an area light, up to its first counted sample for a delta light |
| PathTracer.ImportanceFrom | src/pathtracer/pathtracer.cpp:120-152 | the loop over the lights from light `j` on uses at most `ns_area_light` draws per remaining light |
| PathTracer.ImportanceFromChains | src/pathtracer/pathtracer.cpp:120-152 | the loop over the lights from light `j` on adds to its accumulator the sum of each remaining light's contribution, each light reading draws from where the previous one stopped |
| PathTracer.Importance | src/pathtracer/pathtracer.cpp:100-155 | importance sampling uses at most `ns_area_light` draws per light |
| PathTracer.ImportanceIsSumOfContributions | src/pathtracer/pathtracer.cpp:100-155 | in every scene, delta lights included, importance sampling is the sum over lights of each light's contribution (the average of its counted samples, or the first counted sample for a delta light), the lights reading consecutive runs of draws |
| PathTracer.ImportanceIsSumOfAverages | src/pathtracer/pathtracer.cpp:120-152 | without delta lights, importance sampling is the sum over lights of each light's sample average, using exactly `ns_area_light` draws per light |
| PathTracer.HemisphereAsWritten | src/pathtracer/pathtracer.cpp:72-95 | the unguarded estimator is defined only when there is at least one sample to divide by |
| PathTracer.HemisphereAsWrittenDefinedIff | src/pathtracer/pathtracer.cpp:72-95 | the unguarded estimator is defined exactly when the sample count is positive and no sample that faces the surface and hits has zero pdf |
| PathTracer.HemisphereWithoutSamples | src/pathtracer/pathtracer.cpp:72-95 | with no lights or no samples per light, the unguarded estimator divides by zero, while the corrected one returns black and draws nothing |
| PathTracer.Hemisphere | src/pathtracer/pathtracer.cpp:49-98 | the corrected estimator of the Findings below: it draws exactly lights × `ns_area_light` samples, and returns black when that count is zero, where the source divides by zero |
| PathTracer.HemisphereAgreesWhereDefined | src/pathtracer/pathtracer.cpp:80-95 | wherever the unguarded estimator is defined and pdfs are non-negative, the corrected one returns the same value |
| PathTracer.HemisphereIsLightAgnostic | src/pathtracer/pathtracer.cpp:71-93 | hemisphere sampling looks at the lights only through their number |
| PathTracer.DarkPathIsBlack | src/pathtracer/pathtracer.cpp:188-245 | with no lights and no emitting surface, every bounce estimate is black in both modes, with the corrected hemisphere estimator when hemisphere sampling is on |
| PathTracer.DarkSceneIsBlack | src/pathtracer/pathtracer.cpp:157-168 | zero-bounce radiance is the hit surface's own emission, so in a scene with no lights and no emitting surface every camera ray is estimated black, with the corrected hemisphere estimator when hemisphere sampling is on |
| PathTracer.OneBounce | src/pathtracer/pathtracer.cpp:170-186 | direct lighting uses at most lights × `ns_area_light` draws |
| PathTracer.Continue | src/pathtracer/pathtracer.cpp:202-242 | the path continues exactly when there is budget left, the sample has positive pdf and non-zero value and faces the surface, and its ray hits; the next ray has one bounce less |
| PathTracer.AtLeastOne | src/pathtracer/pathtracer.cpp:188-245 | the recursion terminates on the ray's bounce budget and the draw cursor only advances |
| PathTracer.ThroughputCons | src/pathtracer/pathtracer.cpp:239 | a path's throughput factors through its first bounce's weight |
| PathTracer.PathSumCons | src/pathtracer/pathtracer.cpp:226-243 | a path's sum is its first bounce's direct light plus its weight times the rest |
| PathTracer.AccumulatingIsPathSum | src/pathtracer/pathtracer.cpp:224-244 | in accumulating mode, the radiance is the sum over the path's vertices of the direct light times the product of the earlier weights `f·cos/pdf` |
| PathTracer.PathLengthBounded | src/pathtracer/pathtracer.cpp:198-200 | a path has at least one and at most `depth` vertices |
| PathTracer.Terminal | src/pathtracer/pathtracer.cpp:202-223 | the non-accumulating walk ends, if it ends at a surface, at a ray with one bounce left, after the first draw |
| PathTracer.NonAccumulatingIsTerminalLight | src/pathtracer/pathtracer.cpp:202-223 | in non-accumulating mode, the radiance is the direct light at the path's last vertex, unweighted, or black when the walk dies |
| PathTracer.Budget | src/pathtracer/pathtracer.cpp:270-273 | a ray with a positive bounce budget keeps it; any other gets `max_ray_depth` |
| PathTracer.EstRadiance | src/pathtracer/pathtracer.cpp:250-278 | a camera ray that hits nothing is black and draws nothing |
| PathTracer.RadianceDecomposes | src/pathtracer/pathtracer.cpp:264-276 | a fresh camera ray's radiance is the emission plus the path sum (accumulating) or the terminal light (otherwise), over a path of at most `max(1, max_ray_depth)` vertices |
| PathTracer.SlotInRange | src/pathtracer/pathtracer.cpp:304 | the buffer slot `x + y·w` of a pixel inside the frame is inside the buffer |
| PathTracer.SlotsDistinct | src/pathtracer/pathtracer.cpp:304 | different pixels have different slots |
| PathTracer.PixelSamples | src/pathtracer/pathtracer.cpp:293-300 | the pixel loop takes `ns_aa` radiance samples, each with fresh draws |
| PathTracer.RaytracePixel | src/pathtracer/pathtracer.cpp:280-305 | the pixel becomes the average of its samples and its count `ns_aa`; every other pixel and count is unchanged |
| PathTracer.AverageBetween | src/pathtracer/pathtracer.cpp:302 | the average of samples that lie between two colours lies between them |
| ObjLoader.FaceCorners | main.cpp:272-281 | three corners per triangle face and none for other faces |
| ObjLoader.TriangleCornersAt | main.cpp:272-286 | a triangle face's corners are read at the prefix sum of all earlier face sizes, skipped faces included, and appear after three corners per earlier triangle |
| ObjLoader.Corners | main.cpp:272-339 | all shapes together yield a multiple of three corners |
| ObjLoader.NatToStringInjective | main.cpp:288 | different non-negative numbers print differently |
| ObjLoader.IntToStringInjective | main.cpp:288 | different integers print differently |
| ObjLoader.PlainKeyIff | main.cpp:288-289 | two corners share a key exactly when their position indices agree and their normal indices agree, all absent normals alike |
| ObjLoader.TexturedKeyIff | main_texture.cpp:285-288 | two corners share a key exactly when position, normal and texture indices agree, absent ones alike; the doubled texture part changes nothing |
| ObjLoader.Deduplicate | main.cpp:294-337 | one index per corner, in range; two corners share an index exactly when they share a key; every vertex is built from a corner that uses it; the exception is raised only by a corner whose vertex cannot be built, and always is when equal keys build equal vertices |
| ObjLoader.MergedVertices | main.cpp:294-337 | when equal keys build equal vertices, each corner's index names the vertex that corner builds, and the mesh is empty exactly when there are no corners |
| ObjLoader.PlainKeyDetermines | main.cpp:294-320 | corners with the same plain key build the same vertex |
| ObjLoader.TexturedKeyDetermines | main_texture.cpp:290-320 | corners with the same textured key build the same vertex |
| ObjLoader.Assemble | main.cpp:294-348 | the loader reports the exception exactly when a corner names a missing position, false exactly when there are no triangle corners, and otherwise a mesh whose indices name the vertices their corners build |
| ObjLoader.LoadObjModel | main.cpp:247-350 | a parse failure gives false; otherwise an invalid position index raises, an empty mesh gives false, and a loaded mesh has one index per triangle corner naming the vertex built from it, with shared indices exactly for equal (position, normal) indices and no unused vertex |
| ObjLoader.LoadTexturedObjModel | main_texture.cpp:250-337 | as for the plain viewer, with texture coordinates in the key, normals normalised and absent texture coordinates set to (0, 0) |
| Controls.ClampPitch | main.cpp:403-404 | the pitch after clamping is within 89 degrees of level |
| Controls.ClampPitchIsNearest | main.cpp:403-404 | clamping moves the pitch to the nearest allowed angle and keeps an allowed one |
| Controls.ClampFov | main.cpp:409-410 | the field of view after clamping lies in 1 to 60 degrees |
| Controls.ClampFovIsNearest | main.cpp:409-410 | clamping moves the field of view to the nearest allowed value and keeps an allowed one |
| Controls.Button | main.cpp:363-373 | a left press starts a drag whose first move is flagged; a left release ends it; other buttons and actions change nothing; the angles and cursor are untouched |
| Controls.Move | main.cpp:375-405 | the cursor is always recorded; without the button the angles stay; with it, the pitch ends within 89 degrees of level |
| Controls.Scroll | main.cpp:407-411 | the field of view after scrolling lies in 1 to 60 degrees |
| Controls.ScrollIsMonotone | main.cpp:407-411 | scrolling further up never widens the view |
| Controls.PressDoesNotJump | main.cpp:386-401 | the first move after a press turns nothing |
| Controls.DragYawTelescopes | main.cpp:392-400 | over a drag the yaw changes by 0.2 times the net horizontal travel from the press point |
| Controls.RunStaysBounded | main.cpp:31-39 | from the start-up state, every sequence of button, cursor and scroll events keeps the pitch and the field of view in range |
| Controls.RunKeepsBounds | main_texture.cpp:339-398 | the textured viewer's identical callbacks keep pitch and field of view in range from any in-range state |

## Left out

- Floating point. Every `float` and `double` is a real, so rounding is not modelled. Neither are infinities or NaN, except the initial `max_t` and the division by zero in the Findings below. The sphere coefficients are computed in single precision in the source, and that precision is not modelled either.
- Shapes.Test: the square root is a parameter. The lemmas that need it to be exact say so with `IsSqrt`.
- Shapes.Test: a ray direction of zero length is excluded by `ValidDir`. For such a ray the source divides by `2a = 0`. The same requirement carries to Shapes.HasIntersection, Shapes.Intersect and the traversals that call them: BvhQuery.LeafHit, BvhQuery.LeafAny, BvhQuery.NodeHit, BvhQuery.NodeAny, BvhQuery.AccelHit and BvhQuery.AccelAny.
- Geometry.Unit: the unit of the zero vector is NaN in the source. The model returns the vector unchanged instead.
- BBox::intersect, the slab test, is a parameter of the traversals. The exactness lemmas assume that it never misses a box holding a sphere that the ray accepts.
- Triangles and other primitives are not part of this model. The hierarchy is built over spheres.
- `total_isects` is not modelled. It is a statistics counter incremented by the leaf loops.
- `draw` and `drawOutline` are not modelled, and neither is the `BBox` of the accelerator. All OpenGL rendering and shaders are left out.
- Bvh.Build requires `max_leaf_size >= 1`. With 0, a one-primitive range would split into an empty half and a one-primitive half, forever; see the Findings.
- The sample generators are parameters indexed by the draw counter. These are `sample_f`, `sample_L`, `f`, `get_emission`, `generate_ray` and the grid sampler, together with `make_coord_space` and the scene's `bvh->intersect`.
- PathTracer.LightTerm: the world-space light direction is passed to `f` together with the local `w_out`, as the source does (lines 141-142).
- PathTracer.Hemisphere: `EPS_F` is a configuration value.
- PathTracer.Hemisphere: this is the corrected estimator of the Findings, not the source's. PathTracer.OneBounce, PathTracer.AtLeastOne, PathTracer.EstRadiance and PathTracer.RaytracePixel all use it. It returns black when there are no samples, where the source's result is NaN (line 95). It drops a hitting sample whose pdf is not positive, where the source adds `L * f * cos / pdf` unchecked (line 92). PathTracer.HemisphereAsWritten models the source's version, and PathTracer.HemisphereAgreesWhereDefined shows the two agree wherever the source's result is defined and pdfs are non-negative.
- PathTracer.DarkPathIsBlack: holds for the corrected hemisphere estimator. With hemisphere sampling the source divides by zero here (lines 72 and 95), since a dark scene has no lights, so its estimate is NaN, at the first vertex in accumulating mode and at the last bounce otherwise.
- PathTracer.DarkSceneIsBlack: holds for the corrected hemisphere estimator. With hemisphere sampling the source's estimate is NaN for every camera ray that hits, for the reason given for PathTracer.DarkPathIsBlack.
- PathTracer.LightTerm: `sample_L`'s pdf is assumed positive, typed `PosReal`. The source divides by it unchecked (line 142).
- `autofocus`, `write_to_framebuffer`, `set_frame_size` and `clear` are left out. None is part of the estimators.
- PathTracer.RaytracePixel requires `ns_aa > 0`. With 0 samples the source divides by zero.
- `tinyobj::LoadObj` is not modelled. Its result is the loader's input: an optional parsed file. Its warnings and errors are only printed.
- ObjLoader.LoadObjModel requires face sizes that fit within the shape's index list. The parser guarantees this.
- ObjLoader.LoadObjModel: `3 * vertex_index + 2` is unbounded here. In the source it could overflow `int` for huge indices.
- ObjLoader.LoadTexturedObjModel: the normal is normalised with a square-root parameter. The zero-normal NaN case is as for Geometry.Unit.
- `framebuffer_size_callback`, keyboard input, timing, texture loading and the GLFW and GL set-up are left out.

## Findings

| source | as written | input that shows it | evidently intended | confidence | as-written member | corrected member |
|---|---|---|---|---|---|---|
| src/pathtracer/pathtracer.cpp:72-95 | `L_out /= num_samples` with `num_samples = lights × ns_area_light` and no guard; each sample also divides by its `pdf` unguarded | a scene with no lights, or `ns_area_light = 0`, under hemisphere sampling: `0 / 0` makes the pixel NaN | black when there are no samples, as the importance estimator guards its own division by the count | medium, not executed | PathTracer.HemisphereWithoutSamples | PathTracer.Hemisphere |
| src/scene/bvh.cpp:70-158 | the leaf test `nPrims <= max_leaf_size` and the count fallback `start + nPrims / 2` | `max_leaf_size = 0` with any non-empty range: a one-primitive range is not a leaf, qualifies on no axis, and splits into an empty half and itself, so `construct_bvh` recurses forever | `max_leaf_size` of at least 1, so every range of one primitive is a leaf | low, not executed; no call site passing 0 is part of this model | Bvh.LoneSphereSplitsToItself | Bvh.Build |

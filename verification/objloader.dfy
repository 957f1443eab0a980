/** The mesh viewers' `loadObjModel` after the OBJ file has been parsed:
    triangle corners are collected shape by shape (other faces are skipped),
    each corner gets a string key built from its indices, and corners with
    equal keys share one vertex. The plain viewer keys on position and
    normal; the textured viewer also on the texture coordinate. */
module ObjLoader {
  import opened Wrappers
  import opened Geometry

  /** tinyobj::index_t: position, normal and texcoord indices, negative when
      absent. */
  datatype Index = Index(vertex: int, normal: int, texcoord: int)

  /** A parsed shape: the vertex count of each face, and the corner indices
      of all faces one after the other. */
  datatype Shape = Shape(faceSizes: seq<nat>, indices: seq<Index>)

  /** tinyobj::attrib_t: flat coordinate arrays, three reals per position and
      normal, two per texture coordinate. */
  datatype Attrib = Attrib(vertices: seq<real>, normals: seq<real>, texcoords: seq<real>)

  // ----- corners ---------------------------------------------------------------

  /** Number of corner indices the faces occupy. */
  function Total(sizes: seq<nat>): nat {
    if |sizes| == 0 then 0 else sizes[0] + Total(sizes[1..])
  }

  /** Number of triangular faces. */
  function Triangles(sizes: seq<nat>): nat {
    if |sizes| == 0 then 0 else (if sizes[0] == 3 then 1 else 0) + Triangles(sizes[1..])
  }

  /** The parser's promise: the faces' corners are all present. */
  predicate WellFormed(s: Shape) { Total(s.faceSizes) <= |s.indices| }

  /** The corners of the triangle faces, reading faces from `offset`: a face
      of any other size is skipped, but the offset still moves past it. */
  function FaceCorners(sizes: seq<nat>, indices: seq<Index>, offset: nat): (res: seq<Index>)
    requires offset + Total(sizes) <= |indices|
    ensures |res| == 3 * Triangles(sizes)
    decreases |sizes|
  {
    if |sizes| == 0 then []
    else
      var here := if sizes[0] == 3 then indices[offset..offset + 3] else [];
      here + FaceCorners(sizes[1..], indices, offset + sizes[0])
  }

  /** Triangle face `f` starts at the prefix sum of the earlier face sizes in
      the input, and its three corners appear, in order, after three corners
      for each earlier triangle in the output. */
  lemma {:induction false} TriangleCornersAt(sizes: seq<nat>, indices: seq<Index>, offset: nat, f: nat, v: nat)
    requires offset + Total(sizes) <= |indices|
    requires f < |sizes| && sizes[f] == 3 && v < 3
    ensures 3 * Triangles(sizes[..f]) + v < |FaceCorners(sizes, indices, offset)|
    ensures offset + Total(sizes[..f]) + v < |indices|
    ensures FaceCorners(sizes, indices, offset)[3 * Triangles(sizes[..f]) + v] == indices[offset + Total(sizes[..f]) + v]
    decreases f
  {
    var res := FaceCorners(sizes, indices, offset);
    if f == 0 {
      assert sizes[..0] == [];
      TotalSplits(sizes, 1);
      assert sizes[..1] == [3];
      assert Total([3]) == 3;
    } else {
      var rest := sizes[1..];
      assert rest[..f - 1] == sizes[..f][1..];
      assert sizes[..f][0] == sizes[0];
      TriangleCornersAt(rest, indices, offset + sizes[0], f - 1, v);
    }
  }

  lemma {:induction false} TotalSplits(s: seq<nat>, n: nat)
    requires n <= |s|
    ensures Total(s) == Total(s[..n]) + Total(s[n..])
  {
    if n > 0 {
      assert s[..n][1..] == s[1..][..n - 1];
      assert s[n..] == s[1..][n - 1..];
      TotalSplits(s[1..], n - 1);
    }
  }

  /** All triangle corners of all shapes; each shape's offset starts at 0. */
  function Corners(shapes: seq<Shape>): (res: seq<Index>)
    requires forall i :: 0 <= i < |shapes| ==> WellFormed(shapes[i])
    ensures |res| % 3 == 0
  {
    if |shapes| == 0 then []
    else
      assert WellFormed(shapes[0]);
      FaceCorners(shapes[0].faceSizes, shapes[0].indices, 0) + Corners(shapes[1..])
  }

  // ----- keys ------------------------------------------------------------------

  function Digit(d: nat): char
    requires d < 10
  {
    (48 + d) as char
  }

  predicate IsDigit(c: char) { '0' <= c <= '9' }

  /** std::to_string of a non-negative integer: its decimal digits. */
  function NatToString(n: nat): (s: string)
    ensures |s| >= 1 && forall i :: 0 <= i < |s| ==> IsDigit(s[i])
  {
    if n < 10 then [Digit(n)] else NatToString(n / 10) + [Digit(n % 10)]
  }

  /** std::to_string of an integer. */
  function IntToString(i: int): (s: string)
    ensures |s| >= 1 && forall j :: 0 <= j < |s| ==> s[j] != '/'
  {
    if i < 0 then "-" + NatToString(-i) else NatToString(i)
  }

  /** Different numbers print differently. */
  lemma {:induction false} NatToStringInjective(a: nat, b: nat)
    requires NatToString(a) == NatToString(b)
    ensures a == b
  {
    var sa, sb := NatToString(a), NatToString(b);
    if a >= 10 && b >= 10 {
      assert sa[..|sa| - 1] == NatToString(a / 10);
      assert sb[..|sb| - 1] == NatToString(b / 10);
      NatToStringInjective(a / 10, b / 10);
      assert Digit(a % 10) == sa[|sa| - 1] == Digit(b % 10);
    } else if a >= 10 || b >= 10 {
      assert false;
    }
  }

  lemma IntToStringInjective(a: int, b: int)
    requires IntToString(a) == IntToString(b)
    ensures a == b
  {
    var sa, sb := IntToString(a), IntToString(b);
    if a < 0 && b < 0 {
      assert sa[1..] == NatToString(-a);
      assert sb[1..] == NatToString(-b);
      NatToStringInjective(-a, -b);
    } else if a < 0 || b < 0 {
      SignShows(a);
      SignShows(b);
      assert false;
    } else {
      NatToStringInjective(a, b);
    }
  }

  /** A printed number starts with '-' exactly when it is negative. */
  lemma SignShows(i: int)
    ensures IntToString(i)[0] == '-' <==> i < 0
  {
    if i >= 0 {
      assert IsDigit(NatToString(i)[0]);
    }
  }

  lemma SlashAt(s: string, t: string)
    ensures (s + "/" + t)[|s|] == '/'
    ensures forall j :: 0 <= j < |s| ==> (s + "/" + t)[j] == s[j]
  {
  }

  /** An optional index as a key part: its digits, or "-1" when absent. */
  function Part(i: int): string {
    if i >= 0 then IntToString(i) else "-1"
  }

  /** Absent indices are all alike. */
  function Canon(i: int): int { if i >= 0 then i else -1 }

  lemma PartIsCanonical(i: int)
    ensures Part(i) == IntToString(Canon(i))
  {
    if i < 0 {
      assert NatToString(1) == ['1'];
    }
  }

  lemma PartInjective(a: int, b: int)
    ensures Part(a) == Part(b) <==> Canon(a) == Canon(b)
  {
    PartIsCanonical(a);
    PartIsCanonical(b);
    if Part(a) == Part(b) {
      IntToStringInjective(Canon(a), Canon(b));
    }
  }

  /** A separator that occurs in neither left part splits a string uniquely. */
  lemma SplitAtSlash(s1: string, t1: string, s2: string, t2: string)
    requires forall j :: 0 <= j < |s1| ==> s1[j] != '/'
    requires forall j :: 0 <= j < |s2| ==> s2[j] != '/'
    requires s1 + "/" + t1 == s2 + "/" + t2
    ensures s1 == s2 && t1 == t2
  {
    var w := s1 + "/" + t1;
    if |s1| != |s2| {
      SlashAt(s1, t1);
      SlashAt(s2, t2);
      assert false;
    } else {
      assert s1 == w[..|s1|] == s2;
      assert t1 == w[|s1| + 1..] == t2;
    }
  }

  /** The plain viewer's key, "vertex/normal". */
  function PlainKey(idx: Index): string {
    IntToString(idx.vertex) + "/" + Part(idx.normal)
  }

  /** The textured viewer's key, "vertex/normal/texcoord/texcoord": the
      texcoord part is appended twice. */
  function TexturedKey(idx: Index): string {
    IntToString(idx.vertex) + "/" + Part(idx.normal) + "/" + Part(idx.texcoord) + "/" + Part(idx.texcoord)
  }

  /** Two corners share a plain key exactly when they have the same
      position index and the same normal index, all absent normals being
      the same. */
  lemma PlainKeyIff(a: Index, b: Index)
    ensures PlainKey(a) == PlainKey(b) <==> a.vertex == b.vertex && Canon(a.normal) == Canon(b.normal)
  {
    PartInjective(a.normal, b.normal);
    if PlainKey(a) == PlainKey(b) {
      SplitAtSlash(IntToString(a.vertex), Part(a.normal), IntToString(b.vertex), Part(b.normal));
      IntToStringInjective(a.vertex, b.vertex);
    }
  }

  /** Two corners share a textured key exactly when position, normal and
      texcoord indices agree, absent ones being alike; the doubled texcoord
      part changes nothing. */
  lemma TexturedKeyIff(a: Index, b: Index)
    ensures TexturedKey(a) == TexturedKey(b)
        <==> a.vertex == b.vertex && Canon(a.normal) == Canon(b.normal) && Canon(a.texcoord) == Canon(b.texcoord)
  {
    PartInjective(a.normal, b.normal);
    PartInjective(a.texcoord, b.texcoord);
    PartIsCanonical(a.normal);
    PartIsCanonical(b.normal);
    PartIsCanonical(a.texcoord);
    PartIsCanonical(b.texcoord);
    var ta := Part(a.normal) + "/" + (Part(a.texcoord) + "/" + Part(a.texcoord));
    var tb := Part(b.normal) + "/" + (Part(b.texcoord) + "/" + Part(b.texcoord));
    assert TexturedKey(a) == IntToString(a.vertex) + "/" + ta;
    assert TexturedKey(b) == IntToString(b.vertex) + "/" + tb;
    if TexturedKey(a) == TexturedKey(b) {
      SplitAtSlash(IntToString(a.vertex), ta, IntToString(b.vertex), tb);
      IntToStringInjective(a.vertex, b.vertex);
      SplitAtSlash(Part(a.normal), Part(a.texcoord) + "/" + Part(a.texcoord), Part(b.normal), Part(b.texcoord) + "/" + Part(b.texcoord));
      SplitAtSlash(Part(a.texcoord), Part(a.texcoord), Part(b.texcoord), Part(b.texcoord));
    }
  }

  // ----- de-duplication -----------------------------------------------------------

  /** `verts` and `inds` are the de-duplicated mesh of the corners `cs`:
      one index per corner, in range; two corners share an index exactly
      when they share a key; and every vertex was built from a corner that
      uses it. */
  ghost predicate Merged<C, K, V>(cs: seq<C>, key: C -> K, make: C -> Option<V>, verts: seq<V>, inds: seq<nat>) {
    && |inds| == |cs|
    && (forall i :: 0 <= i < |cs| ==> inds[i] < |verts|)
    && (forall i, j :: 0 <= i < |cs| && 0 <= j < |cs| ==> (inds[i] == inds[j] <==> key(cs[i]) == key(cs[j])))
    && (forall v :: 0 <= v < |verts| ==> Built(cs, make, verts, inds, v))
  }

  /** Vertex `v` was built from a corner that uses it. */
  ghost predicate Built<C, V>(cs: seq<C>, make: C -> Option<V>, verts: seq<V>, inds: seq<nat>, v: nat)
    requires v < |verts| && |inds| == |cs|
  {
    exists i :: 0 <= i < |cs| && inds[i] == v && make(cs[i]) == Some(verts[v])
  }

  /** Corners with the same key build the same vertex. */
  ghost predicate KeyDetermines<C, K, V>(cs: seq<C>, key: C -> K, make: C -> Option<V>) {
    forall i, j :: 0 <= i < |cs| && 0 <= j < |cs| && key(cs[i]) == key(cs[j]) ==> make(cs[i]) == make(cs[j])
  }

  /** The loop of loadObjModel over the corners: a corner whose key is new
      builds a vertex (failing when `make` does) and is assigned the next
      vertex index; a known key reuses its index. */
  method Deduplicate<C, K(==), V>(cs: seq<C>, key: C -> K, make: C -> Option<V>) returns (res: Option<(seq<V>, seq<nat>)>)
    ensures res.Some? ==> Merged(cs, key, make, res.value.0, res.value.1)
    ensures res.None? ==> exists i :: 0 <= i < |cs| && make(cs[i]).None?
    ensures KeyDetermines(cs, key, make) && (exists i :: 0 <= i < |cs| && make(cs[i]).None?) ==> res.None?
  {
    var verts: seq<V> := [];
    var inds: seq<nat> := [];
    var seen: map<K, nat> := map[];
    ghost var origin: seq<nat> := [];
    var i := 0;
    while i < |cs|
      invariant 0 <= i <= |cs| && |inds| == i && |origin| == |verts|
      invariant forall p :: 0 <= p < i ==> key(cs[p]) in seen && seen[key(cs[p])] == inds[p]
      invariant forall k :: k in seen ==> seen[k] < |verts|
      invariant forall k1, k2 :: k1 in seen && k2 in seen && seen[k1] == seen[k2] ==> k1 == k2
      invariant forall v :: 0 <= v < |verts| ==> origin[v] < i && inds[origin[v]] == v && make(cs[origin[v]]) == Some(verts[v])
      invariant KeyDetermines(cs, key, make) ==> forall p :: 0 <= p < i ==> make(cs[p]).Some?
    {
      var k := key(cs[i]);
      if k !in seen {
        var made := make(cs[i]);
        if made.None? {
          return None;
        }
        verts := verts + [made.value];
        origin := origin + [i];
        seen := seen[k := |verts| - 1];
        inds := inds + [|verts| - 1];
      } else {
        var v := seen[k];
        ghost var p := origin[v];
        assert key(cs[p]) == k;
        inds := inds + [v];
      }
      i := i + 1;
    }
    forall v | 0 <= v < |verts|
      ensures Built(cs, make, verts, inds, v)
    {
      var p := origin[v];
      assert 0 <= p < |cs| && inds[p] == v && make(cs[p]) == Some(verts[v]);
    }
    if KeyDetermines(cs, key, make) {
      assert forall p :: 0 <= p < |cs| ==> make(cs[p]).Some?;
    }
    return Some((verts, inds));
  }

  /** When keys determine vertices, each corner's vertex is the one it
      builds, and a merged mesh is empty exactly when there are no corners. */
  lemma MergedVertices<C, K, V>(cs: seq<C>, key: C -> K, make: C -> Option<V>, verts: seq<V>, inds: seq<nat>)
    requires Merged(cs, key, make, verts, inds) && KeyDetermines(cs, key, make)
    ensures forall i :: 0 <= i < |cs| ==> make(cs[i]) == Some(verts[inds[i]])
    ensures |verts| == 0 <==> |cs| == 0
  {
    forall i | 0 <= i < |cs|
      ensures make(cs[i]) == Some(verts[inds[i]])
    {
      var v := inds[i];
      assert Built(cs, make, verts, inds, v);
      var p :| 0 <= p < |cs| && inds[p] == v && make(cs[p]) == Some(verts[v]);
    }
    if |verts| > 0 {
      assert Built(cs, make, verts, inds, 0);
    }
    if |cs| > 0 {
      assert inds[0] < |verts|;
    }
  }

  // ----- vertices ------------------------------------------------------------------

  /** The mesh viewer's vertex. */
  datatype PlainVertex = PlainVertex(position: Vec3, normal: Vec3)

  /** The textured viewer's vertex. */
  datatype TexturedVertex = TexturedVertex(position: Vec3, normal: Vec3, uv: (real, real))

  /** The placeholder for a missing normal. */
  const Up: Vec3 := Vec3(0.0, 1.0, 0.0)

  /** The position a corner names; None, the loader's exception, when the
      index is negative or past the end of the position array. */
  function PositionOf(a: Attrib, vi: int): Option<Vec3> {
    if vi < 0 || 3 * vi + 2 >= |a.vertices| then None
    else Some(Vec3(a.vertices[3 * vi], a.vertices[3 * vi + 1], a.vertices[3 * vi + 2]))
  }

  /** The stored normal, when the index is present and in range. */
  function NormalOf(a: Attrib, ni: int): Option<Vec3> {
    if ni >= 0 && 3 * ni + 2 < |a.normals| then Some(Vec3(a.normals[3 * ni], a.normals[3 * ni + 1], a.normals[3 * ni + 2]))
    else None
  }

  /** The stored texture coordinate, or (0, 0). */
  function TexcoordOf(a: Attrib, ti: int): (real, real) {
    if ti >= 0 && 2 * ti + 1 < |a.texcoords| then (a.texcoords[2 * ti], a.texcoords[2 * ti + 1]) else (0.0, 0.0)
  }

  /** A new vertex of the mesh viewer: the stored normal, or (0, 1, 0). */
  function MakePlain(a: Attrib, idx: Index): Option<PlainVertex> {
    match PositionOf(a, idx.vertex)
    case None => None
    case Some(p) => Some(PlainVertex(p, match NormalOf(a, idx.normal) case Some(n) => n case None => Up))
  }

  /** A new vertex of the textured viewer: the stored normal normalised, or
      (0, 1, 0); the stored texture coordinate, or (0, 0). */
  function MakeTextured(a: Attrib, idx: Index, sqrt: real -> real): Option<TexturedVertex> {
    match PositionOf(a, idx.vertex)
    case None => None
    case Some(p) =>
      var n := match NormalOf(a, idx.normal) case Some(n) => Unit(n, sqrt) case None => Up;
      Some(TexturedVertex(p, n, TexcoordOf(a, idx.texcoord)))
  }

  lemma PlainKeyDetermines(a: Attrib, cs: seq<Index>)
    ensures KeyDetermines(cs, PlainKey, (c: Index) => MakePlain(a, c))
  {
    forall i, j | 0 <= i < |cs| && 0 <= j < |cs| && PlainKey(cs[i]) == PlainKey(cs[j])
      ensures MakePlain(a, cs[i]) == MakePlain(a, cs[j])
    {
      PlainKeyIff(cs[i], cs[j]);
    }
  }

  lemma TexturedKeyDetermines(a: Attrib, cs: seq<Index>, sqrt: real -> real)
    ensures KeyDetermines(cs, TexturedKey, (c: Index) => MakeTextured(a, c, sqrt))
  {
    forall i, j | 0 <= i < |cs| && 0 <= j < |cs| && TexturedKey(cs[i]) == TexturedKey(cs[j])
      ensures MakeTextured(a, cs[i], sqrt) == MakeTextured(a, cs[j], sqrt)
    {
      TexturedKeyIff(cs[i], cs[j]);
    }
  }

  // ----- the loaders -----------------------------------------------------------------

  /** What loadObjModel reports: a mesh (true), false, or the
      invalid-vertex-index exception. */
  datatype Outcome<V> = Loaded(vertices: seq<V>, indices: seq<nat>) | NotLoaded | Thrown

  /** The parser's output: None when tinyobj::LoadObj fails. */
  type Parsed = Option<(Attrib, seq<Shape>)>

  predicate ParsedWellFormed(parsed: Parsed) {
    parsed.Some? ==> forall i :: 0 <= i < |parsed.value.1| ==> WellFormed(parsed.value.1[i])
  }

  /** Mesh-viewer corners that share a vertex: same position index, same
      normal index (absent ones alike). */
  predicate SamePlain(x: Index, y: Index) {
    x.vertex == y.vertex && Canon(x.normal) == Canon(y.normal)
  }

  /** Textured-viewer corners that share a vertex: position, normal and
      texcoord indices agree (absent ones alike). */
  predicate SameTextured(x: Index, y: Index) {
    SamePlain(x, y) && Canon(x.texcoord) == Canon(y.texcoord)
  }

  /** Some corner uses vertex `v`. */
  predicate Used(inds: seq<nat>, v: nat) {
    exists i :: 0 <= i < |inds| && inds[i] == v
  }

  /** What loadObjModel reports for the triangle corners `cs` of a parsed
      file: the exception exactly when a corner names a missing position;
      false exactly when there are no triangle corners; otherwise a mesh
      with three indices per triangle, each corner's index naming the
      vertex it builds, two corners sharing an index exactly when `same`
      relates them, and no vertex unused. */
  ghost predicate Reports<V>(a: Attrib, cs: seq<Index>, make: Index -> Option<V>, same: (Index, Index) -> bool, res: Outcome<V>) {
    && (res.Thrown? <==> exists i :: 0 <= i < |cs| && PositionOf(a, cs[i].vertex).None?)
    && (res.NotLoaded? <==> |cs| == 0)
    && (res.Loaded? ==>
          && |res.indices| == |cs| && |cs| % 3 == 0
          && (forall i :: 0 <= i < |cs| ==> res.indices[i] < |res.vertices| && Some(res.vertices[res.indices[i]]) == make(cs[i]))
          && (forall i, j :: 0 <= i < |cs| && 0 <= j < |cs| ==> (res.indices[i] == res.indices[j] <==> same(cs[i], cs[j])))
          && (forall v :: 0 <= v < |res.vertices| ==> Used(res.indices, v)))
  }

  /** The shared tail of both loaders: de-duplicate, then report. */
  method Assemble<V>(a: Attrib, cs: seq<Index>, key: Index -> string, make: Index -> Option<V>, same: (Index, Index) -> bool)
    returns (res: Outcome<V>)
    requires |cs| % 3 == 0
    requires forall c :: make(c).None? <==> PositionOf(a, c.vertex).None?
    requires forall x, y :: key(x) == key(y) <==> same(x, y)
    requires KeyDetermines(cs, key, make)
    ensures Reports(a, cs, make, same, res)
  {
    var d := Deduplicate(cs, key, make);
    if d.None? {
      ghost var i :| 0 <= i < |cs| && make(cs[i]).None?;
      assert PositionOf(a, cs[i].vertex).None?;
      return Thrown;
    }
    var verts, inds := d.value.0, d.value.1;
    MergedVertices(cs, key, make, verts, inds);
    forall v | 0 <= v < |verts|
      ensures Used(inds, v)
    {
      assert Built(cs, make, verts, inds, v);
    }
    if |verts| == 0 || |inds| == 0 {
      return NotLoaded;
    }
    return Loaded(verts, inds);
  }

  /** loadObjModel of the mesh viewer. */
  method LoadObjModel(parsed: Parsed) returns (res: Outcome<PlainVertex>)
    requires ParsedWellFormed(parsed)
    ensures parsed.None? ==> res.NotLoaded?
    ensures parsed.Some? ==> Reports(parsed.value.0, Corners(parsed.value.1), (c: Index) => MakePlain(parsed.value.0, c), SamePlain, res)
  {
    if parsed.None? {
      return NotLoaded;
    }
    var a := parsed.value.0;
    var cs := Corners(parsed.value.1);
    PlainKeyDetermines(a, cs);
    forall x, y
      ensures PlainKey(x) == PlainKey(y) <==> SamePlain(x, y)
    {
      PlainKeyIff(x, y);
    }
    res := Assemble(a, cs, PlainKey, (c: Index) => MakePlain(a, c), SamePlain);
  }

  /** loadObjModel of the textured viewer; `sqrt` serves glm::normalize. */
  method LoadTexturedObjModel(parsed: Parsed, sqrt: real -> real) returns (res: Outcome<TexturedVertex>)
    requires ParsedWellFormed(parsed)
    ensures parsed.None? ==> res.NotLoaded?
    ensures parsed.Some? ==> Reports(parsed.value.0, Corners(parsed.value.1), (c: Index) => MakeTextured(parsed.value.0, c, sqrt), SameTextured, res)
  {
    if parsed.None? {
      return NotLoaded;
    }
    var a := parsed.value.0;
    var cs := Corners(parsed.value.1);
    TexturedKeyDetermines(a, cs, sqrt);
    forall x, y
      ensures TexturedKey(x) == TexturedKey(y) <==> SameTextured(x, y)
    {
      TexturedKeyIff(x, y);
    }
    res := Assemble(a, cs, TexturedKey, (c: Index) => MakeTextured(a, c, sqrt), SameTextured);
  }
}

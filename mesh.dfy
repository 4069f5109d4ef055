/** The triangle meshes of mesh.h: the component-wise helpers `divvy` and
    `scale`, the Wavefront OBJ loader `load_obj_file` and the
    `triangle_mesh` constructor that places every loaded triangle in the
    scene. Lines arrive already split into tokens; `rotate` and
    `unit_vector` are external and enter as functions. */
module Mesh {
  import opened Base

  /** `divvy(v1, v2)`: component-wise quotient. */
  function Divvy(a: Vec3, b: Vec3): (r: Vec3)
    requires b.x != 0.0 && b.y != 0.0 && b.z != 0.0
    ensures Mul(r, b) == a
  {
    Vec3(a.x / b.x, a.y / b.y, a.z / b.z)
  }

  /** Dividing out a factor undoes multiplying by it. */
  lemma DivvyMul(a: Vec3, b: Vec3)
    requires b.x != 0.0 && b.y != 0.0 && b.z != 0.0
    ensures Divvy(Mul(a, b), b) == a
  {
    var r := Divvy(Mul(a, b), b);
    assert r.x * b.x == a.x * b.x;
    assert r.y * b.y == a.y * b.y;
    assert r.z * b.z == a.z * b.z;
  }

  /** The external vector operations the mesh code calls. */
  datatype VecOps = VecOps(unitVector: Vec3 -> Vec3, rotate: (Vec3, Vec3) -> Vec3)

  /** `triangle`: three vertices, the face normal, the material and the
      per-triangle transform that `triangle::hit` undoes. */
  datatype Triangle = Triangle(v0: Vec3, v1: Vec3, v2: Vec3, normal: Vec3, mat: Material,
                               position: Vec3, rotation: Vec3, scale: Vec3)

  /** `triangle(v0, v1, v2, mat)`: the normal is the unit normal of the
      winding `v0, v1, v2`; the transform fields keep the default `vec3()`,
      the zero vector. */
  function MakeTriangle(v0: Vec3, v1: Vec3, v2: Vec3, mat: Material, ops: VecOps): (t: Triangle)
    ensures t.v0 == v0 && t.v1 == v1 && t.v2 == v2 && t.mat == mat
    ensures t.normal == ops.unitVector(Cross(Sub(v1, v0), Sub(v2, v0)))
    ensures t.position == Zero && t.rotation == Zero && t.scale == Zero
  {
    Triangle(v0, v1, v2, ops.unitVector(Cross(Sub(v1, v0), Sub(v2, v0))), mat, Zero, Zero, Zero)
  }

  /** `scale(tri, scal)`: a copy whose vertices are multiplied by `scal`.
      Nothing else is touched, the normal included. */
  function ScaleTriangle(tri: Triangle, scal: Vec3): (r: Triangle)
    ensures r.v0 == Mul(tri.v0, scal) && r.v1 == Mul(tri.v1, scal) && r.v2 == Mul(tri.v2, scal)
    ensures r.normal == tri.normal && r.mat == tri.mat
    ensures r.position == tri.position && r.rotation == tri.rotation && r.scale == tri.scale
  {
    tri.(v0 := Mul(tri.v0, scal), v1 := Mul(tri.v1, scal), v2 := Mul(tri.v2, scal))
  }

  lemma MulAssoc(a: Vec3, b: Vec3, c: Vec3)
    ensures Mul(Mul(a, b), c) == Mul(a, Mul(b, c))
  {
    assert (a.x * b.x) * c.x == a.x * (b.x * c.x);
    assert (a.y * b.y) * c.y == a.y * (b.y * c.y);
    assert (a.z * b.z) * c.z == a.z * (b.z * c.z);
  }

  /** Scaling twice is scaling once by the product. */
  lemma ScaleCompose(tri: Triangle, a: Vec3, b: Vec3)
    ensures ScaleTriangle(ScaleTriangle(tri, a), b) == ScaleTriangle(tri, Mul(a, b))
  {
    MulAssoc(tri.v0, a, b);
    MulAssoc(tri.v1, a, b);
    MulAssoc(tri.v2, a, b);
  }

  /** Scaling by `(1, 1, 1)` changes nothing. */
  lemma ScaleIdentity(tri: Triangle)
    ensures ScaleTriangle(tri, Vec3(1.0, 1.0, 1.0)) == tri
  {
  }

  /** Scaling by `s` is undone by scaling by `divvy((1, 1, 1), s)`. */
  lemma ScaleInverse(tri: Triangle, s: Vec3)
    requires s.x != 0.0 && s.y != 0.0 && s.z != 0.0
    ensures ScaleTriangle(ScaleTriangle(tri, s), Divvy(Vec3(1.0, 1.0, 1.0), s)) == tri
  {
    var inv := Divvy(Vec3(1.0, 1.0, 1.0), s);
    ScaleCompose(tri, s, inv);
    assert Mul(inv, s) == Vec3(1.0, 1.0, 1.0);
    assert Mul(s, inv) == Vec3(1.0, 1.0, 1.0);
  }

  // ---------------------------------------------------------------- loader

  /** The three tokens of an `f` line as `std::stoi` reads them: 1-based. */
  datatype FaceIndices = FaceIndices(a: int, b: int, c: int)

  /** One line of an OBJ file: its raw text (for the skip test), its first
      token, and what `>>` extracts after it on a `v` or an `f` line. */
  datatype ObjLine = ObjLine(text: string, keyword: string, coords: Vec3, face: FaceIndices)

  /** The Lambertian colour the loader gives every triangle it creates. */
  const LoaderMaterial: Material := Lambertian(Vec3(0.65, 0.05, 0.05))

  /** Empty lines and lines whose first character is `#`. */
  predicate Skipped(line: ObjLine) {
    line.text == [] || line.text[0] == '#'
  }

  predicate IsVertex(line: ObjLine) { !Skipped(line) && line.keyword == "v" }

  predicate IsFace(line: ObjLine) { !Skipped(line) && line.keyword == "f" }

  /** A 0-based index into `count` vertices. */
  predicate InRange(idx: int, count: int) { 0 <= idx < count }

  /** A face line one of whose indices, made 0-based, misses the `count`
      vertices read so far. */
  predicate BadFace(line: ObjLine, count: int) {
    IsFace(line) &&
    !(InRange(line.face.a - 1, count) && InRange(line.face.b - 1, count) &&
      InRange(line.face.c - 1, count))
  }

  /** The loader's two vectors. */
  datatype ParseState = ParseState(vertices: seq<Vec3>, triangles: seq<Triangle>)

  const Empty: ParseState := ParseState([], [])

  /** One pass of the `getline` loop; `None` is the early return on a bad index. */
  function Step(st: ParseState, line: ObjLine, ops: VecOps): (r: Option<ParseState>)
    ensures r.None? <==> BadFace(line, |st.vertices|)
  {
    if Skipped(line) then Some(st)
    else if line.keyword == "v" then Some(st.(vertices := st.vertices + [line.coords]))
    else if line.keyword == "f" then
      var idx0, idx1, idx2 := line.face.a - 1, line.face.b - 1, line.face.c - 1;
      var n := |st.vertices|;
      if !InRange(idx0, n) || !InRange(idx1, n) || !InRange(idx2, n) then None
      else
        var vs := st.vertices;
        Some(st.(triangles := st.triangles + [MakeTriangle(vs[idx0], vs[idx1], vs[idx2], LoaderMaterial, ops)]))
    else Some(st)
  }

  /** What the loop leaves: the state, whether it returned early, and how
      many lines it consumed before stopping. */
  datatype Parsed = Parsed(state: ParseState, aborted: bool, consumed: nat)

  /** The `getline` loop from state `st` over `lines`. */
  function ParseFrom(lines: seq<ObjLine>, st: ParseState, ops: VecOps): (p: Parsed)
    ensures p.consumed <= |lines|
    ensures p.aborted <==> p.consumed < |lines|
    decreases |lines|
  {
    if |lines| == 0 then Parsed(st, false, 0)
    else match Step(st, lines[0], ops)
      case None => Parsed(st, true, 0)
      case Some(st') =>
        var p := ParseFrom(lines[1..], st', ops);
        p.(consumed := p.consumed + 1)
  }

  /** `load_obj_file(filename)`: `None` is a file that cannot be opened,
      which yields no triangles. */
  function LoadObj(file: Option<seq<ObjLine>>, ops: VecOps): seq<Triangle> {
    match file
    case None => []
    case Some(lines) => ParseFrom(lines, Empty, ops).state.triangles
  }

  /** `load_obj_file`, loop for loop. */
  method LoadObjFile(file: Option<seq<ObjLine>>, ops: VecOps) returns (triangles: seq<Triangle>)
    ensures triangles == LoadObj(file, ops)
  {
    triangles := [];
    var vertices: seq<Vec3> := [];
    if file.None? {
      return;
    }
    var lines := file.value;
    var n := 0;
    while n < |lines|
      invariant 0 <= n <= |lines|
      invariant ParseFrom(lines[n..], ParseState(vertices, triangles), ops).state ==
                ParseFrom(lines, Empty, ops).state
    {
      var line := lines[n];
      assert lines[n..][1..] == lines[n + 1..];
      n := n + 1;
      if line.text == [] || line.text[0] == '#' {
        continue;
      }
      if line.keyword == "v" {
        vertices := vertices + [line.coords];
      } else if line.keyword == "f" {
        var idx0 := line.face.a - 1;
        var idx1 := line.face.b - 1;
        var idx2 := line.face.c - 1;
        if idx0 < 0 || idx0 >= |vertices| || idx1 < 0 || idx1 >= |vertices| ||
           idx2 < 0 || idx2 >= |vertices| {
          return;
        }
        var trib := MakeTriangle(vertices[idx0], vertices[idx1], vertices[idx2], LoaderMaterial, ops);
        triangles := triangles + [trib];
      }
    }
  }

  /** Parsing a concatenation is parsing the first part and, unless it
      stopped, going on with the second from where it left off. */
  lemma {:induction false} ParseFromAppend(a: seq<ObjLine>, b: seq<ObjLine>, st: ParseState, ops: VecOps)
    ensures ParseFrom(a + b, st, ops) ==
            var p := ParseFrom(a, st, ops);
            if p.aborted then p
            else var q := ParseFrom(b, p.state, ops); q.(consumed := |a| + q.consumed)
    decreases |a|
  {
    if |a| == 0 {
      assert a + b == b;
    } else {
      assert (a + b)[0] == a[0];
      assert (a + b)[1..] == a[1..] + b;
      match Step(st, a[0], ops)
      case None =>
      case Some(st') => ParseFromAppend(a[1..], b, st', ops);
    }
  }

  /** The coordinates of the `v` lines, in file order. */
  function VertexCoords(lines: seq<ObjLine>): seq<Vec3>
    decreases |lines|
  {
    if |lines| == 0 then []
    else (if IsVertex(lines[0]) then [lines[0].coords] else []) + VertexCoords(lines[1..])
  }

  /** The number of `f` lines. */
  function FaceCount(lines: seq<ObjLine>): nat
    decreases |lines|
  {
    if |lines| == 0 then 0
    else (if IsFace(lines[0]) then 1 else 0) + FaceCount(lines[1..])
  }

  /** Every `v` line consumed adds exactly its vertex, in file order, and
      every `f` line consumed adds exactly one triangle after the ones
      already there. */
  lemma {:induction false} ParseCounts(lines: seq<ObjLine>, st: ParseState, ops: VecOps)
    ensures var p := ParseFrom(lines, st, ops);
            && p.state.vertices == st.vertices + VertexCoords(lines[..p.consumed])
            && |p.state.triangles| == |st.triangles| + FaceCount(lines[..p.consumed])
            && st.triangles <= p.state.triangles
    decreases |lines|
  {
    var p := ParseFrom(lines, st, ops);
    if |lines| > 0 {
      match Step(st, lines[0], ops)
      case None =>
        assert lines[..0] == [];
      case Some(st') =>
        var c := p.consumed;
        var q := ParseFrom(lines[1..], st', ops);
        ParseCounts(lines[1..], st', ops);
        assert c == q.consumed + 1;
        assert lines[..c][0] == lines[0];
        assert lines[..c][1..] == lines[1..][..q.consumed];
    } else {
      assert lines[..0] == [];
    }
  }

  /** An early return happens exactly at a face line with an index outside
      the vertices read so far, and what is returned is what the lines
      before it produced, not an empty list. */
  lemma {:induction false} ParseStops(lines: seq<ObjLine>, st: ParseState, ops: VecOps)
    ensures var p := ParseFrom(lines, st, ops);
            p.aborted ==>
              && BadFace(lines[p.consumed], |p.state.vertices|)
              && ParseFrom(lines[..p.consumed], st, ops) == Parsed(p.state, false, p.consumed)
    decreases |lines|
  {
    var p := ParseFrom(lines, st, ops);
    if |lines| > 0 {
      match Step(st, lines[0], ops)
      case None =>
        assert lines[..0] == [];
      case Some(st') =>
        ParseStops(lines[1..], st', ops);
        var q := ParseFrom(lines[1..], st', ops);
        if p.aborted {
          var pre := lines[..p.consumed];
          assert pre[0] == lines[0];
          assert pre[1..] == lines[1..][..q.consumed];
        }
    }
  }

  /** The range check only sees the vertices of earlier lines: a face line
      the loop reaches stops it exactly when one of its indices, made
      0-based, is outside the `v` lines before it. */
  lemma FaceSeesEarlierVertices(lines: seq<ObjLine>, st: ParseState, ops: VecOps, n: int)
    requires 0 <= n < |lines| && n <= ParseFrom(lines, st, ops).consumed
    ensures var p := ParseFrom(lines, st, ops);
            (p.aborted && p.consumed == n) <==>
              BadFace(lines[n], |st.vertices| + |VertexCoords(lines[..n])|)
  {
    var pre, post := lines[..n], lines[n..];
    assert lines == pre + post;
    ParseFromAppend(pre, post, st, ops);
    var p := ParseFrom(pre, st, ops);
    assert !p.aborted;
    ParseCounts(pre, st, ops);
    assert pre[..p.consumed] == pre;
    assert post[0] == lines[n];
    var q := ParseFrom(post, p.state, ops);
    assert (q.aborted && q.consumed == 0) <==> Step(p.state, lines[n], ops).None?;
  }

  /** The lines that can change the loader's state. */
  function Relevant(lines: seq<ObjLine>): seq<ObjLine>
    decreases |lines|
  {
    if |lines| == 0 then []
    else (if IsVertex(lines[0]) || IsFace(lines[0]) then [lines[0]] else []) + Relevant(lines[1..])
  }

  /** Empty lines, comments and lines of any other type have no effect:
      dropping them gives the same vertices, the same triangles and the
      same early return. */
  lemma {:induction false} ParseIgnoresIrrelevant(lines: seq<ObjLine>, st: ParseState, ops: VecOps)
    ensures ParseFrom(Relevant(lines), st, ops).state == ParseFrom(lines, st, ops).state
    ensures ParseFrom(Relevant(lines), st, ops).aborted == ParseFrom(lines, st, ops).aborted
    decreases |lines|
  {
    if |lines| > 0 {
      var head := if IsVertex(lines[0]) || IsFace(lines[0]) then [lines[0]] else [];
      assert Relevant(lines) == head + Relevant(lines[1..]);
      ParseFromAppend(head, Relevant(lines[1..]), st, ops);
      match Step(st, lines[0], ops)
      case None =>
      case Some(st') =>
        ParseIgnoresIrrelevant(lines[1..], st', ops);
        if head != [] {
          assert head[1..] == [];
        }
    }
  }

  /** A face line whose indices name vertices already read appends the
      triangle over `vertices[a-1]`, `vertices[b-1]`, `vertices[c-1]`, in that
      order, with the loader's material. */
  lemma ParseGoodFace(line: ObjLine, st: ParseState, ops: VecOps)
    requires IsFace(line) && !BadFace(line, |st.vertices|)
    ensures ParseFrom([line], st, ops) ==
            Parsed(st.(triangles := st.triangles +
                          [MakeTriangle(st.vertices[line.face.a - 1], st.vertices[line.face.b - 1],
                                        st.vertices[line.face.c - 1], LoaderMaterial, ops)]),
                   false, 1)
  {
    assert [line][1..] == [];
  }

  /** A face may only name vertices of earlier lines: the same four lines
      load nothing when the face comes first, and one triangle when it
      comes last. */
  lemma ForwardReference(a: Vec3, b: Vec3, c: Vec3, ops: VecOps)
    ensures var f := ObjLine("f 1 2 3", "f", Zero, FaceIndices(1, 2, 3));
            var va := ObjLine("v", "v", a, FaceIndices(0, 0, 0));
            var vb := ObjLine("v", "v", b, FaceIndices(0, 0, 0));
            var vc := ObjLine("v", "v", c, FaceIndices(0, 0, 0));
            && LoadObj(Some([f, va, vb, vc]), ops) == []
            && LoadObj(Some([va, vb, vc, f]), ops) == [MakeTriangle(a, b, c, LoaderMaterial, ops)]
  {
    var f := ObjLine("f 1 2 3", "f", Zero, FaceIndices(1, 2, 3));
    var va := ObjLine("v", "v", a, FaceIndices(0, 0, 0));
    var vb := ObjLine("v", "v", b, FaceIndices(0, 0, 0));
    var vc := ObjLine("v", "v", c, FaceIndices(0, 0, 0));
    assert !Skipped(f) && !Skipped(va) && !Skipped(vb) && !Skipped(vc);
    assert Step(Empty, f, ops).None?;
    var s1, s2, s3 := ParseState([a], []), ParseState([a, b], []), ParseState([a, b, c], []);
    var s4 := ParseState([a, b, c], [MakeTriangle(a, b, c, LoaderMaterial, ops)]);
    assert [] + [a] == [a] && [a] + [b] == [a, b] && [a, b] + [c] == [a, b, c];
    assert Step(Empty, va, ops) == Some(s1);
    assert Step(s1, vb, ops) == Some(s2);
    assert Step(s2, vc, ops) == Some(s3);
    ParseGoodFace(f, s3, ops);
    assert ParseFrom([f], s3, ops).state == s4;
    assert [vc, f][1..] == [f];
    assert ParseFrom([vc, f], s2, ops).state == s4;
    assert [vb, vc, f][1..] == [vc, f];
    assert ParseFrom([vb, vc, f], s1, ops).state == s4;
    assert [va, vb, vc, f][1..] == [vb, vc, f];
    assert ParseFrom([va, vb, vc, f], Empty, ops).state == s4;
  }

  // ------------------------------------------------------------ placement

  /** Where the mesh constructor moves a vertex: scaled, then rotated, then
      translated by `pos`. */
  function Place(v: Vec3, pos: Vec3, rot: Vec3, scal: Vec3, ops: VecOps): Vec3 {
    Add(ops.rotate(Mul(v, scal), rot), pos)
  }

  /** The triangles the constructor adds for `list`, in order. */
  function PlaceAll(list: seq<Triangle>, mat: Material, pos: Vec3, rot: Vec3, scal: Vec3,
                    ops: VecOps): seq<Triangle>
    decreases |list|
  {
    if |list| == 0 then []
    else
      var tri := list[|list| - 1];
      PlaceAll(list[..|list| - 1], mat, pos, rot, scal, ops) +
        [MakeTriangle(Place(tri.v0, pos, rot, scal, ops), Place(tri.v1, pos, rot, scal, ops),
                      Place(tri.v2, pos, rot, scal, ops), mat, ops)]
  }

  /** One placed triangle per loaded one, in order; `n`'s vertices are the
      loaded `n`'s placed vertices, its normal is recomputed from them, its
      material is the mesh's, and its transform fields are zero. */
  lemma {:induction false} PlaceAllAt(list: seq<Triangle>, mat: Material, pos: Vec3, rot: Vec3,
                                      scal: Vec3, ops: VecOps, n: int)
    requires 0 <= n < |list|
    ensures |PlaceAll(list, mat, pos, rot, scal, ops)| == |list|
    ensures var placed := PlaceAll(list, mat, pos, rot, scal, ops)[n];
            && placed.v0 == Place(list[n].v0, pos, rot, scal, ops)
            && placed.v1 == Place(list[n].v1, pos, rot, scal, ops)
            && placed.v2 == Place(list[n].v2, pos, rot, scal, ops)
            && placed.normal == ops.unitVector(Cross(Sub(placed.v1, placed.v0), Sub(placed.v2, placed.v0)))
            && placed.mat == mat
            && placed.position == Zero && placed.rotation == Zero && placed.scale == Zero
    decreases |list|
  {
    var init := list[..|list| - 1];
    PlaceAllLength(init, mat, pos, rot, scal, ops);
    if n < |list| - 1 {
      PlaceAllAt(init, mat, pos, rot, scal, ops, n);
    }
  }

  lemma {:induction false} PlaceAllLength(list: seq<Triangle>, mat: Material, pos: Vec3, rot: Vec3,
                                          scal: Vec3, ops: VecOps)
    ensures |PlaceAll(list, mat, pos, rot, scal, ops)| == |list|
    decreases |list|
  {
    if |list| > 0 {
      PlaceAllLength(list[..|list| - 1], mat, pos, rot, scal, ops);
    }
  }

  /** `triangle_mesh`: the placed triangles and the shared material. */
  class TriangleMesh {
    var triangles: seq<Triangle>
    var mat: Material

    constructor (file: Option<seq<ObjLine>>, mat: Material, pos: Vec3, rot: Vec3, scal: Vec3,
                 ops: VecOps)
      ensures this.mat == mat
      ensures triangles == PlaceAll(LoadObj(file, ops), mat, pos, rot, scal, ops)
    {
      var list := LoadObjFile(file, ops);
      var added: seq<Triangle> := [];
      for n := 0 to |list|
        invariant added == PlaceAll(list[..n], mat, pos, rot, scal, ops)
      {
        var tri := list[n];
        tri := tri.(position := pos, rotation := rot, scale := scal);
        tri := tri.(v0 := Mul(tri.v0, scal), v1 := Mul(tri.v1, scal), v2 := Mul(tri.v2, scal));
        tri := tri.(v0 := Add(ops.rotate(tri.v0, rot), pos),
                    v1 := Add(ops.rotate(tri.v1, rot), pos),
                    v2 := Add(ops.rotate(tri.v2, rot), pos));
        var transformed := MakeTriangle(tri.v0, tri.v1, tri.v2, mat, ops);
        assert list[..n + 1][..n] == list[..n];
        added := added + [transformed];
      }
      assert list[..|list|] == list;
      this.mat := mat;
      triangles := added;
    }
  }
}

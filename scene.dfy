/** The scene assembler: the plate and a row of translated cylinders joined
    into one vertex array and one face array, each fragment's face indices
    shifted by the number of vertices placed before it. */
module Scene {
  import opened Geometry
  import opened Layout
  import Cylinder
  import Plate

  /** `translate`: every vertex moved by the same offset. */
  function Translate(vertices: seq<Vec3>, offset: Vec3): (r: seq<Vec3>)
    ensures |r| == |vertices|
  {
    seq(|vertices|, i requires 0 <= i < |vertices| => Add(vertices[i], offset))
  }

  /** Translating by an offset and then by its negation gives back the vertices. */
  lemma TranslateBack(vertices: seq<Vec3>, offset: Vec3)
    ensures Translate(Translate(vertices, offset), Neg(offset)) == vertices
  {
    var moved := Translate(vertices, offset);
    var back := Translate(moved, Neg(offset));
    forall i | 0 <= i < |vertices| ensures back[i] == vertices[i] {
      assert moved[i] == Add(vertices[i], offset);
    }
  }

  /** A face with every index shifted by off. */
  function OffsetFace(f: Face, off: nat): Face {
    Face(f.a + off, f.b + off, f.c + off)
  }

  /** `faces + vertex_offset`: every index of every face shifted by off. */
  function OffsetFaces(faces: seq<Face>, off: nat): (r: seq<Face>)
    ensures |r| == |faces|
  {
    seq(|faces|, k requires 0 <= k < |faces| => OffsetFace(faces[k], off))
  }

  /** Faces that index n vertices, once shifted by off, index exactly the range
      [off, off + n). */
  lemma OffsetRange(faces: seq<Face>, n: nat, off: nat)
    ensures IndicesBelow(faces, n) <==> IndicesWithin(OffsetFaces(faces, off), off, off + n)
  {
    var r := OffsetFaces(faces, off);
    if IndicesWithin(r, off, off + n) {
      forall k | 0 <= k < |faces| ensures faces[k].a < n && faces[k].b < n && faces[k].c < n {
        assert r[k] == OffsetFace(faces[k], off);
      }
    }
  }

  /** Shifting every index keeps a closed surface closed: the faces on a
      shifted edge are the faces on the original edge. */
  lemma {:induction false} OffsetClosed(faces: seq<Face>, off: nat)
    requires Closed(faces)
    ensures Closed(OffsetFaces(faces, off))
  {
    var r := OffsetFaces(faces, off);
    forall k: nat, u: nat, v: nat | k < |r| && HasEdge(r[k], u, v)
      ensures |FacesOnEdge(r, u, v)| == 2
    {
      assert r[k] == OffsetFace(faces[k], off);
      var u0, v0 := u - off, v - off;
      assert HasEdge(faces[k], u0, v0);
      forall j: nat ensures j in FacesOnEdge(r, u, v) <==> j in FacesOnEdge(faces, u0, v0) {
        if j < |r| {
          assert r[j] == OffsetFace(faces[j], off);
        }
      }
      assert FacesOnEdge(r, u, v) == FacesOnEdge(faces, u0, v0);
    }
  }

  /** Total number of vertices of a list of fragments. */
  function VertexCount(fragments: seq<Mesh>): nat {
    if fragments == [] then 0
    else VertexCount(fragments[..|fragments| - 1]) + |fragments[|fragments| - 1].vertices|
  }

  /** Total number of faces of a list of fragments. */
  function FaceCount(fragments: seq<Mesh>): nat {
    if fragments == [] then 0
    else FaceCount(fragments[..|fragments| - 1]) + |fragments[|fragments| - 1].faces|
  }

  /** The fragments joined in order: vertex arrays concatenated, each
      fragment's faces shifted by the number of vertices before it. */
  function Combine(fragments: seq<Mesh>): (m: Mesh)
    ensures |m.vertices| == VertexCount(fragments)
    ensures |m.faces| == FaceCount(fragments)
  {
    if fragments == [] then Mesh([], [])
    else
      var before := Combine(fragments[..|fragments| - 1]);
      var last := fragments[|fragments| - 1];
      Mesh(before.vertices + last.vertices, before.faces + OffsetFaces(last.faces, |before.vertices|))
  }

  /** Where fragment k's vertices start in the combined vertex array. */
  function VertexStart(fragments: seq<Mesh>, k: nat): nat
    requires k <= |fragments|
  {
    VertexCount(fragments[..k])
  }

  /** Where fragment k's faces start in the combined face array. */
  function FaceStart(fragments: seq<Mesh>, k: nat): nat
    requires k <= |fragments|
  {
    FaceCount(fragments[..k])
  }

  /** Each fragment's own faces index its own vertices. */
  predicate FragmentsValid(fragments: seq<Mesh>) {
    forall k | 0 <= k < |fragments| :: IndicesBelow(fragments[k].faces, |fragments[k].vertices|)
  }

  /** If every fragment's faces index its own vertices, every combined face
      indexes a combined vertex. */
  lemma {:induction false} CombineValid(fragments: seq<Mesh>)
    requires FragmentsValid(fragments)
    ensures IndicesBelow(Combine(fragments).faces, |Combine(fragments).vertices|)
  {
    if fragments != [] {
      var prefix := fragments[..|fragments| - 1];
      var last := fragments[|fragments| - 1];
      assert FragmentsValid(prefix) by {
        forall k | 0 <= k < |prefix| ensures IndicesBelow(prefix[k].faces, |prefix[k].vertices|) {
          assert prefix[k] == fragments[k];
        }
      }
      CombineValid(prefix);
      var before := Combine(prefix);
      OffsetRange(last.faces, |last.vertices|, |before.vertices|);
    }
  }

  /** Fragment k sits in the combined mesh unchanged: its vertices are the
      combined vertices from VertexStart(k) on, and its faces, shifted by
      VertexStart(k), are the combined faces from FaceStart(k) on. */
  lemma {:induction false} FragmentInPlace(fragments: seq<Mesh>, k: nat)
    requires k < |fragments|
    ensures var m, vs, fs := Combine(fragments), VertexStart(fragments, k), FaceStart(fragments, k);
      && vs + |fragments[k].vertices| <= |m.vertices|
      && fs + |fragments[k].faces| <= |m.faces|
      && m.vertices[vs..vs + |fragments[k].vertices|] == fragments[k].vertices
      && m.faces[fs..fs + |fragments[k].faces|] == OffsetFaces(fragments[k].faces, vs)
  {
    var n := |fragments|;
    var prefix := fragments[..n - 1];
    var before := Combine(prefix);
    assert fragments[..n][..n - 1] == prefix;
    if k == n - 1 {
      assert fragments[..k] == prefix;
    } else {
      FragmentInPlace(prefix, k);
      assert prefix[..k] == fragments[..k];
      assert prefix[k] == fragments[k];
      VertexCountGrows(fragments, k + 1, n - 1);
      FaceCountGrows(fragments, k + 1, n - 1);
      assert fragments[..k + 1][..k] == fragments[..k];
    }
  }

  /** Vertex counts of prefixes grow with the prefix. */
  lemma {:induction false} VertexCountGrows(fragments: seq<Mesh>, i: nat, j: nat)
    requires i <= j <= |fragments|
    ensures VertexCount(fragments[..i]) <= VertexCount(fragments[..j])
    decreases j
  {
    if i < j {
      assert fragments[..j][..j - 1] == fragments[..j - 1];
      VertexCountGrows(fragments, i, j - 1);
    }
  }

  /** Face counts of prefixes grow with the prefix. */
  lemma {:induction false} FaceCountGrows(fragments: seq<Mesh>, i: nat, j: nat)
    requires i <= j <= |fragments|
    ensures FaceCount(fragments[..i]) <= FaceCount(fragments[..j])
    decreases j
  {
    if i < j {
      assert fragments[..j][..j - 1] == fragments[..j - 1];
      FaceCountGrows(fragments, i, j - 1);
    }
  }

  /** The faces of fragment k reference only fragment k's own vertex range. */
  lemma FragmentRange(fragments: seq<Mesh>, k: nat)
    requires k < |fragments|
    requires IndicesBelow(fragments[k].faces, |fragments[k].vertices|)
    ensures var m, vs, fs := Combine(fragments), VertexStart(fragments, k), FaceStart(fragments, k);
      && fs + |fragments[k].faces| <= |m.faces|
      && IndicesWithin(m.faces[fs..fs + |fragments[k].faces|], vs, vs + |fragments[k].vertices|)
  {
    FragmentInPlace(fragments, k);
    OffsetRange(fragments[k].faces, |fragments[k].vertices|, VertexStart(fragments, k));
  }

  // The generator's scene: the plate, then numCylinders cylinders left to right.

  /** The plate, sized from the parameters. */
  function PlateFragment(p: Params): Mesh {
    Plate.MakeBasePlate(TotalWidth(p), TotalDepth(p), p.baseThickness)
  }

  /** Cylinder i, moved to its place on the plate. */
  function CylinderFragment(p: Params, dir: nat -> Dir, i: nat): Mesh {
    Mesh(Translate(Cylinder.Vertices(p.radiusBottom, p.radiusTop, p.height, p.segments, dir),
                   CylinderOffset(p, i)),
         Cylinder.Faces(p.segments))
  }

  /** The fragments in build order. */
  function Fragments(p: Params, dir: nat -> Dir): (r: seq<Mesh>)
    ensures |r| == p.numCylinders + 1
  {
    [PlateFragment(p)] + seq(p.numCylinders, i requires 0 <= i => CylinderFragment(p, dir, i))
  }

  /** The build loop: the plate first, then each cylinder is made, translated
      to its place and appended, its faces shifted by the running vertex offset. */
  method BuildScene(p: Params, dir: nat -> Dir) returns (vertices: seq<Vec3>, faces: seq<Face>)
    requires p.numCylinders == 0 || p.segments >= 1
    ensures Mesh(vertices, faces) == Combine(Fragments(p, dir))
  {
    ghost var fragments := Fragments(p, dir);
    var allVertices: seq<Vec3> := [];
    var allFaces: seq<Face> := [];
    var vertexOffset: nat := 0;

    var base := Plate.MakeBasePlate(TotalWidth(p), TotalDepth(p), p.baseThickness);
    allVertices := allVertices + base.vertices;
    allFaces := allFaces + OffsetFaces(base.faces, vertexOffset);
    vertexOffset := vertexOffset + |base.vertices|;
    assert fragments[..1] == [base];
    assert fragments[..1][..0] == [];

    for i := 0 to p.numCylinders
      invariant Mesh(allVertices, allFaces) == Combine(fragments[..i + 1])
      invariant vertexOffset == |allVertices|
    {
      var v, f := Cylinder.MakeTaperedCylinder(p.radiusBottom, p.radiusTop, p.height, p.segments, dir);
      var offset := PlacementOffset(p, i);
      v := Translate(v, offset);
      BuildStep(p, dir, i, allVertices, allFaces, v, f);
      allVertices := allVertices + v;
      allFaces := allFaces + OffsetFaces(f, vertexOffset);
      vertexOffset := vertexOffset + |v|;
    }
    assert fragments[..p.numCylinders + 1] == fragments;
    vertices, faces := allVertices, allFaces;
  }

  /** The placement the build loop computes for cylinder i: the row's width,
      the margin that centres it, then the axis offsets along x, y and z. It
      mirrors the loop body's statements one for one, and its ensures ties
      them to `CylinderOffset`, which the layout lemmas are about. */
  method PlacementOffset(p: Params, i: nat) returns (offset: Vec3)
    ensures offset == CylinderOffset(p, i)
  {
    var rowWidth := RowWidth(p);
    var marginX := (TotalWidth(p) - rowWidth) / 2.0;
    var offsetX := (i as real) * (2.0 * p.radiusBottom + p.gap) + p.radiusBottom + marginX;
    var offsetY := TotalDepth(p) / 2.0;
    var offsetZ := p.baseThickness;
    offset := Vec3(offsetX, offsetY, offsetZ);
  }

  /** Combining one more fragment appends its vertices and its shifted faces. */
  lemma CombineStep(fragments: seq<Mesh>, k: nat)
    requires k < |fragments|
    ensures var before := Combine(fragments[..k]);
      Combine(fragments[..k + 1])
        == Mesh(before.vertices + fragments[k].vertices,
                before.faces + OffsetFaces(fragments[k].faces, |before.vertices|))
  {
    assert fragments[..k + 1][..k] == fragments[..k];
  }

  /** Cylinder i is fragment i + 1, after the plate. */
  lemma FragmentAt(p: Params, dir: nat -> Dir, i: nat)
    requires i < p.numCylinders
    ensures Fragments(p, dir)[i + 1] == CylinderFragment(p, dir, i)
  {
  }

  /** One pass of the build loop: appending cylinder i, translated, with its
      faces shifted by the vertices so far, extends the combined prefix by one. */
  lemma BuildStep(p: Params, dir: nat -> Dir, i: nat, vertices: seq<Vec3>, faces: seq<Face>,
                  v: seq<Vec3>, f: seq<Face>)
    requires i < p.numCylinders
    requires Mesh(vertices, faces) == Combine(Fragments(p, dir)[..i + 1])
    requires v == Translate(Cylinder.Vertices(p.radiusBottom, p.radiusTop, p.height, p.segments, dir),
                            CylinderOffset(p, i))
    requires f == Cylinder.Faces(p.segments)
    ensures Mesh(vertices + v, faces + OffsetFaces(f, |vertices|)) == Combine(Fragments(p, dir)[..i + 2])
  {
    FragmentAt(p, dir, i);
    CombineStep(Fragments(p, dir), i + 1);
  }

  /** Prefix sizes of the scene: the plate's 8 vertices and 12 faces, then
      2*segments+2 vertices and 4*segments faces per cylinder. */
  lemma {:induction false} PrefixCounts(p: Params, dir: nat -> Dir, k: nat)
    requires k <= p.numCylinders
    ensures VertexCount(Fragments(p, dir)[..k + 1]) == 8 + k * (2 * p.segments + 2)
    ensures FaceCount(Fragments(p, dir)[..k + 1]) == 12 + k * (4 * p.segments)
  {
    var fragments := Fragments(p, dir);
    if k == 0 {
      assert fragments[..1] == [PlateFragment(p)];
      assert fragments[..1][..0] == [];
    } else {
      PrefixCounts(p, dir, k - 1);
      CountsStep(fragments, k);
      assert fragments[k] == CylinderFragment(p, dir, k - 1);
      CylinderSize(p, dir, k - 1);
      MulStep(k, 2 * p.segments + 2);
      MulStep(k, 4 * p.segments);
    }
  }

  /** Adding fragment k to a prefix adds its vertex and face counts. */
  lemma CountsStep(fragments: seq<Mesh>, k: nat)
    requires k < |fragments|
    ensures VertexCount(fragments[..k + 1]) == VertexCount(fragments[..k]) + |fragments[k].vertices|
    ensures FaceCount(fragments[..k + 1]) == FaceCount(fragments[..k]) + |fragments[k].faces|
  {
    assert fragments[..k + 1][..k] == fragments[..k];
  }

  /** k copies of c are k-1 copies and one more. */
  lemma MulStep(k: nat, c: nat)
    requires k >= 1
    ensures k * c == (k - 1) * c + c
  {
  }

  /** Every cylinder has 2*segments+2 vertices and 4*segments faces. */
  lemma CylinderSize(p: Params, dir: nat -> Dir, i: nat)
    ensures |CylinderFragment(p, dir, i).vertices| == 2 * p.segments + 2
    ensures |CylinderFragment(p, dir, i).faces| == 4 * p.segments
  {
  }

  /** The combined mesh has 8 + N*(2*segments+2) vertices and 12 + N*4*segments faces. */
  lemma SceneCounts(p: Params, dir: nat -> Dir)
    ensures |Combine(Fragments(p, dir)).vertices| == 8 + p.numCylinders * (2 * p.segments + 2)
    ensures |Combine(Fragments(p, dir)).faces| == 12 + p.numCylinders * (4 * p.segments)
  {
    PrefixCounts(p, dir, p.numCylinders);
    assert Fragments(p, dir)[..p.numCylinders + 1] == Fragments(p, dir);
  }

  /** Where cylinder c's vertices start in the combined array: after the
      plate's 8 and the 2*segments+2 of each earlier cylinder. */
  function CylinderStart(p: Params, c: nat): nat {
    8 + c * (2 * p.segments + 2)
  }

  /** Cylinder c, fragment c + 1, starts at vertex CylinderStart(c) and at
      face 12 + c*4*segments. */
  lemma FragmentStarts(p: Params, dir: nat -> Dir, c: nat)
    requires c < p.numCylinders
    ensures VertexStart(Fragments(p, dir), c + 1) == CylinderStart(p, c)
    ensures FaceStart(Fragments(p, dir), c + 1) == 12 + c * (4 * p.segments)
  {
    PrefixCounts(p, dir, c);
  }

  /** Every fragment of the scene indexes only its own vertices. */
  lemma SceneFragmentsValid(p: Params, dir: nat -> Dir)
    requires p.numCylinders == 0 || p.segments >= 1
    ensures FragmentsValid(Fragments(p, dir))
  {
    var fragments := Fragments(p, dir);
    Cylinder.IndexBounds(p.segments);
    forall k | 0 <= k < |fragments|
      ensures IndicesBelow(fragments[k].faces, |fragments[k].vertices|)
    {
      if k > 0 {
        assert fragments[k] == CylinderFragment(p, dir, k - 1);
      }
    }
  }

  /** Every combined face index is below the combined vertex count. */
  lemma SceneIndicesValid(p: Params, dir: nat -> Dir)
    requires p.numCylinders == 0 || p.segments >= 1
    ensures var m := Combine(Fragments(p, dir));
      IndicesBelow(m.faces, |m.vertices|)
  {
    SceneFragmentsValid(p, dir);
    CombineValid(Fragments(p, dir));
  }

  /** Fragment k's faces, where they sit in the combined mesh, index only
      fragment k's vertex range and form a closed surface. */
  ghost predicate ClosedInPlace(fragments: seq<Mesh>, k: nat)
    requires k < |fragments|
  {
    var m, vs, fs := Combine(fragments), VertexStart(fragments, k), FaceStart(fragments, k);
    && fs + |fragments[k].faces| <= |m.faces|
    && IndicesWithin(m.faces[fs..fs + |fragments[k].faces|], vs, vs + |fragments[k].vertices|)
    && Closed(m.faces[fs..fs + |fragments[k].faces|])
  }

  /** A fragment whose faces index its own vertices and form a closed
      surface keeps both in the combined mesh, within its own vertex range. */
  lemma FragmentClosedInPlace(fragments: seq<Mesh>, k: nat)
    requires k < |fragments|
    requires IndicesBelow(fragments[k].faces, |fragments[k].vertices|)
    requires Closed(fragments[k].faces)
    ensures ClosedInPlace(fragments, k)
  {
    FragmentRange(fragments, k);
    FragmentInPlace(fragments, k);
    OffsetClosed(fragments[k].faces, VertexStart(fragments, k));
  }

  /** Each fragment of the scene, on its own, indexes its own vertices and,
      for segments >= 3, forms a closed surface. */
  lemma SceneFragmentSurface(p: Params, dir: nat -> Dir, k: nat)
    requires p.segments >= 3 && k <= p.numCylinders
    ensures IndicesBelow(Fragments(p, dir)[k].faces, |Fragments(p, dir)[k].vertices|)
    ensures Closed(Fragments(p, dir)[k].faces)
  {
    SceneFragmentsValid(p, dir);
    if k == 0 {
      Plate.ClosedSurface();
    } else {
      FragmentAt(p, dir, k - 1);
      Cylinder.ClosedSurface(p.segments);
    }
  }

  /** Fragment k's faces in the combined mesh reference only fragment k's
      vertex range, and they form a closed surface there (segments >= 3). */
  lemma SceneFragmentClosed(p: Params, dir: nat -> Dir, k: nat)
    requires p.segments >= 3 && k <= p.numCylinders
    ensures ClosedInPlace(Fragments(p, dir), k)
  {
    SceneFragmentSurface(p, dir, k);
    FragmentClosedInPlace(Fragments(p, dir), k);
  }

  /** Vertex j of fragment k is combined vertex VertexStart(k) + j. */
  lemma VertexOfFragment(fragments: seq<Mesh>, k: nat, j: nat)
    requires k < |fragments| && j < |fragments[k].vertices|
    ensures VertexStart(fragments, k) + j < |Combine(fragments).vertices|
    ensures Combine(fragments).vertices[VertexStart(fragments, k) + j] == fragments[k].vertices[j]
  {
    FragmentInPlace(fragments, k);
    var vs := VertexStart(fragments, k);
    assert Combine(fragments).vertices[vs..vs + |fragments[k].vertices|][j] == fragments[k].vertices[j];
  }

  /** The plate's top corners 4..7 are at height baseThickness. */
  lemma PlateTop(p: Params, dir: nat -> Dir)
    ensures var v := Combine(Fragments(p, dir)).vertices;
      && 8 <= |v|
      && v[4].z == v[5].z == v[6].z == v[7].z == p.baseThickness
  {
    var fragments := Fragments(p, dir);
    assert fragments[..0] == [];
    VertexOfFragment(fragments, 0, 4);
    VertexOfFragment(fragments, 0, 5);
    VertexOfFragment(fragments, 0, 6);
    VertexOfFragment(fragments, 0, 7);
  }

  /** Vertex j of cylinder c is the cylinder's own vertex j moved by the
      cylinder's offset, at CylinderStart(c) + j in the combined array. */
  lemma PlacedVertex(p: Params, dir: nat -> Dir, c: nat, j: nat)
    requires c < p.numCylinders && j < 2 * p.segments + 2
    ensures var v := Combine(Fragments(p, dir)).vertices;
      && CylinderStart(p, c) + j < |v|
      && v[CylinderStart(p, c) + j]
        == Add(Cylinder.Vertices(p.radiusBottom, p.radiusTop, p.height, p.segments, dir)[j], CylinderOffset(p, c))
  {
    var fragments := Fragments(p, dir);
    FragmentStarts(p, dir, c);
    FragmentAt(p, dir, c);
    VertexOfFragment(fragments, c + 1, j);
  }

  /** Cylinder c stands on the plate: its bottom ring and bottom centre are at
      the plate's top height baseThickness, and its top ring and top centre at
      baseThickness + height. */
  lemma CylinderOnPlate(p: Params, dir: nat -> Dir, c: nat, i: nat)
    requires c < p.numCylinders && i < p.segments
    ensures var v, start := Combine(Fragments(p, dir)).vertices, CylinderStart(p, c);
      && start + 2 * p.segments + 2 <= |v|
      && v[4].z == v[5].z == v[6].z == v[7].z == p.baseThickness
      && v[start + 2 * i].z == p.baseThickness
      && v[start + 2 * p.segments].z == p.baseThickness
      && v[start + 2 * i + 1].z == p.baseThickness + p.height
      && v[start + 2 * p.segments + 1].z == p.baseThickness + p.height
  {
    var s := p.segments;
    PlateTop(p, dir);
    Cylinder.VertexLayout(p.radiusBottom, p.radiusTop, p.height, s, dir, i);
    Cylinder.CentreLayout(p.radiusBottom, p.radiusTop, p.height, s, dir);
    PlacedVertex(p, dir, c, 2 * i);
    PlacedVertex(p, dir, c, 2 * i + 1);
    PlacedVertex(p, dir, c, 2 * s);
    PlacedVertex(p, dir, c, 2 * s + 1);
  }

  /** A point over the plate's footprint, between the plate's top and the
      cylinders' height above it. */
  predicate OverPlate(p: Params, q: Vec3) {
    && 0.0 <= q.x <= TotalWidth(p)
    && 0.0 <= q.y <= TotalDepth(p)
    && p.baseThickness <= q.z <= p.baseThickness + p.height
  }

  /** A point within rBottom of the axis in x and y and between heights 0 and
      height, moved by cylinder c's offset, lies over the plate. */
  lemma PlacedOverPlate(p: Params, c: nat, q: Vec3)
    requires 0.0 <= p.radiusBottom && 0.0 <= p.gap && c < p.numCylinders
    requires -p.radiusBottom <= q.x <= p.radiusBottom && -p.radiusBottom <= q.y <= p.radiusBottom
    requires 0.0 <= q.z <= p.height
    ensures OverPlate(p, Add(q, CylinderOffset(p, c)))
  {
    Layout.FootprintOnPlate(p, c);
  }

  /** When every direction has cosine and sine in [-1, 1] and the top radius
      does not exceed the bottom radius, every vertex of cylinder c lies over
      the plate, between the plate's top and the cylinder's height above it. */
  lemma CylinderOverPlate(p: Params, dir: nat -> Dir, c: nat, j: nat)
    requires 0.0 <= p.radiusTop <= p.radiusBottom && 0.0 <= p.gap && 0.0 <= p.height
    requires forall i: nat :: -1.0 <= dir(i).cos <= 1.0 && -1.0 <= dir(i).sin <= 1.0
    requires c < p.numCylinders && j < 2 * p.segments + 2
    ensures var v := Combine(Fragments(p, dir)).vertices;
      CylinderStart(p, c) + j < |v| && OverPlate(p, v[CylinderStart(p, c) + j])
  {
    PlacedVertex(p, dir, c, j);
    Cylinder.VertexBounds(p.radiusBottom, p.radiusTop, p.height, p.segments, dir, j);
    PlacedOverPlate(p, c, Cylinder.Vertices(p.radiusBottom, p.radiusTop, p.height, p.segments, dir)[j]);
  }

  /** With the program's own values the exported mesh has 206 vertices and
      3*4*32 + 12 = 396 triangles. */
  lemma DefaultCounts(dir: nat -> Dir)
    ensures |Combine(Fragments(DEFAULT, dir)).vertices| == 206
    ensures |Combine(Fragments(DEFAULT, dir)).faces| == 396
  {
    SceneCounts(DEFAULT, dir);
  }
}

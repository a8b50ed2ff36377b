/** The exporter: the indexed mesh expanded into one triangle of explicit
    corner points per face, written into a zero-filled array. */
module Export {
  import opened Geometry
  import opened Layout
  import Scene

  /** Allocates one zero triangle per face, then fills slot i with the
      vertices that face i indexes, in the face's winding order. */
  method ExportTriangles(vertices: seq<Vec3>, faces: seq<Face>) returns (triangles: array<Triangle>)
    requires IndicesBelow(faces, |vertices|)
    ensures fresh(triangles)
    ensures triangles.Length == |faces|
    ensures forall i | 0 <= i < |faces| ::
      triangles[i] == Triangle(vertices[faces[i].a], vertices[faces[i].b], vertices[faces[i].c])
  {
    triangles := new Triangle[|faces|](_ => Triangle(ORIGIN, ORIGIN, ORIGIN));
    for i := 0 to |faces|
      invariant forall j | 0 <= j < i ::
        triangles[j] == Triangle(vertices[faces[j].a], vertices[faces[j].b], vertices[faces[j].c])
    {
      var f := faces[i];
      triangles[i] := Triangle(vertices[f.a], vertices[f.b], vertices[f.c]);
    }
  }

  /** The program's run: build the scene, then expand it into triangles, one
      per combined face, 12 + N*4*segments in all. */
  method Generate(p: Params, dir: nat -> Dir) returns (triangles: array<Triangle>)
    requires p.numCylinders == 0 || p.segments >= 1
    ensures fresh(triangles)
    ensures triangles.Length == 12 + p.numCylinders * (4 * p.segments)
    ensures var m := Scene.Combine(Scene.Fragments(p, dir));
      && triangles.Length == |m.faces|
      && IndicesBelow(m.faces, |m.vertices|)
      && forall i | 0 <= i < |m.faces| ::
        triangles[i] == Triangle(m.vertices[m.faces[i].a], m.vertices[m.faces[i].b], m.vertices[m.faces[i].c])
  {
    var vertices, faces := Scene.BuildScene(p, dir);
    Scene.SceneIndicesValid(p, dir);
    Scene.SceneCounts(p, dir);
    triangles := ExportTriangles(vertices, faces);
  }
}

/** The base plate builder: the eight corners of an axis-aligned box and its
    twelve triangles, two per side. */
module Plate {
  import opened Geometry

  /** The corners of [0,width] x [0,depth] x [0,thickness]: the bottom
      rectangle 0..3 counter-clockwise from the origin, then the top rectangle
      4..7 above it. */
  function Vertices(width: real, depth: real, thickness: real): seq<Vec3> {
    [ Vec3(0.0, 0.0, 0.0), Vec3(width, 0.0, 0.0), Vec3(width, depth, 0.0), Vec3(0.0, depth, 0.0),
      Vec3(0.0, 0.0, thickness), Vec3(width, 0.0, thickness),
      Vec3(width, depth, thickness), Vec3(0.0, depth, thickness) ]
  }

  /** The twelve triangles: four side rectangles, then the top and the bottom. */
  function Faces(): seq<Face> {
    [ Face(0, 1, 4), Face(1, 5, 4), Face(1, 2, 5), Face(2, 6, 5),
      Face(2, 3, 6), Face(3, 7, 6), Face(3, 0, 7), Face(0, 4, 7),
      Face(4, 5, 7), Face(5, 6, 7), Face(0, 1, 3), Face(1, 2, 3) ]
  }

  /** The plate fragment: eight vertices and twelve non-degenerate faces, all
      indexing those vertices. */
  function MakeBasePlate(width: real, depth: real, thickness: real): (m: Mesh)
    ensures |m.vertices| == 8 && |m.faces| == 12
    ensures IndicesBelow(m.faces, |m.vertices|)
    ensures DistinctCorners(m.faces)
  {
    Mesh(Vertices(width, depth, thickness), Faces())
  }

  /** With non-negative dimensions every corner lies in the box
      [0,width] x [0,depth] x [0,thickness], and corners 0 and 6 are its
      lowest and highest corners, so the box's extents are exactly
      (width, depth, thickness). */
  lemma BoundingBox(width: real, depth: real, thickness: real)
    requires 0.0 <= width && 0.0 <= depth && 0.0 <= thickness
    ensures var v := MakeBasePlate(width, depth, thickness).vertices;
      && (forall k | 0 <= k < |v| ::
            0.0 <= v[k].x <= width && 0.0 <= v[k].y <= depth && 0.0 <= v[k].z <= thickness)
      && v[0] == Vec3(0.0, 0.0, 0.0)
      && v[6] == Vec3(width, depth, thickness)
  {
  }

  /** The face on the other side of each edge of face k: across edge a-b,
      across b-c and across c-a. */
  function Across(k: nat): (nat, nat, nat)
    requires k < 12
  {
    [ (10, 1, 7), (2, 8, 0), (11, 3, 1), (4, 9, 2),
      (11, 5, 3), (6, 9, 4), (10, 7, 5), (0, 8, 6),
      (1, 9, 7), (3, 5, 8), (0, 11, 6), (2, 4, 10) ][k]
  }

  /** Faces k1 and k2 are the only faces on the edge {u, v}. */
  lemma OnlyTwo(u: nat, v: nat, k1: nat, k2: nat)
    requires k1 < 12 && k2 < 12 && k1 != k2
    requires HasEdge(Faces()[k1], u, v) && HasEdge(Faces()[k2], u, v)
    requires forall j | 0 <= j < 12 && j != k1 && j != k2 :: !HasEdge(Faces()[j], u, v)
    ensures |FacesOnEdge(Faces(), u, v)| == 2
  {
    ExactlyTwo(Faces(), u, v, k1, k2);
  }

  /** Face j shares no edge with face k unless it is k or across from k. */
  lemma NotAcross(k: nat, j: nat)
    requires k < 12 && j < 12
    ensures var f, x := Faces(), Across(k);
      && (j != k && j != x.0 ==> !HasEdge(f[j], f[k].a, f[k].b))
      && (j != k && j != x.1 ==> !HasEdge(f[j], f[k].b, f[k].c))
      && (j != k && j != x.2 ==> !HasEdge(f[j], f[k].c, f[k].a))
  {
    assert k in {0, 1, 2, 3, 4, 5, 6, 7, 8, 9, 10, 11};
    assert j in {0, 1, 2, 3, 4, 5, 6, 7, 8, 9, 10, 11};
  }

  /** Each edge of face k lies in face k and in the face across it, and in no other. */
  lemma FaceAcross(k: nat)
    requires k < 12
    ensures EdgesShared(Faces(), Faces()[k])
  {
    var f, x := Faces(), Across(k);
    var a, b, c := f[k].a, f[k].b, f[k].c;
    forall j | 0 <= j < 12
      ensures j != k && j != x.0 ==> !HasEdge(f[j], a, b)
      ensures j != k && j != x.1 ==> !HasEdge(f[j], b, c)
      ensures j != k && j != x.2 ==> !HasEdge(f[j], c, a)
    {
      NotAcross(k, j);
    }
    OnlyTwo(a, b, k, x.0);
    OnlyTwo(b, c, k, x.1);
    OnlyTwo(c, a, k, x.2);
  }

  /** The plate is a closed surface: every undirected edge of its faces lies
      in exactly two faces. */
  lemma ClosedSurface()
    ensures Closed(Faces())
  {
    forall k: nat | k < 12 ensures SharedAt(Faces(), k) {
      FaceAcross(k);
    }
    ClosedByFaces(Faces());
  }
}

/** Shared vocabulary of the mesh builder: points, indexed triangle faces,
    mesh fragments, and the topological predicates (index validity,
    non-degenerate faces, closed surface) that the primitives satisfy. */
module Geometry {

  /** A vertex: three coordinates in the program's length unit. */
  datatype Vec3 = Vec3(x: real, y: real, z: real)

  /** The unit direction (cos θ, sin θ) of one ring step. The trigonometric
      values themselves are not modelled: they reach the model only as
      parameters of this type. */
  datatype Dir = Dir(cos: real, sin: real)

  /** A triangle given by three indices into a vertex array, in winding order. */
  datatype Face = Face(a: nat, b: nat, c: nat)

  /** A mesh fragment: a vertex array and faces indexing into it. */
  datatype Mesh = Mesh(vertices: seq<Vec3>, faces: seq<Face>)

  /** The exported form of a face: its three corner points, in winding order. */
  datatype Triangle = Triangle(p0: Vec3, p1: Vec3, p2: Vec3)

  const ORIGIN := Vec3(0.0, 0.0, 0.0)

  function Add(p: Vec3, q: Vec3): Vec3 {
    Vec3(p.x + q.x, p.y + q.y, p.z + q.z)
  }

  function Neg(p: Vec3): (r: Vec3)
    ensures Add(p, r) == ORIGIN
  {
    Vec3(-p.x, -p.y, -p.z)
  }

  /** Every corner of every face is an index below n. */
  predicate IndicesBelow(faces: seq<Face>, n: nat) {
    forall k | 0 <= k < |faces| :: faces[k].a < n && faces[k].b < n && faces[k].c < n
  }

  /** Every corner of every face lies in the index range [lo, hi). */
  predicate IndicesWithin(faces: seq<Face>, lo: nat, hi: nat) {
    forall k | 0 <= k < |faces| ::
      lo <= faces[k].a < hi && lo <= faces[k].b < hi && lo <= faces[k].c < hi
  }

  /** No face repeats a vertex. */
  predicate DistinctCorners(faces: seq<Face>) {
    forall k | 0 <= k < |faces| ::
      faces[k].a != faces[k].b && faces[k].b != faces[k].c && faces[k].c != faces[k].a
  }

  /** The segment p-q is the undirected edge {u, v}. */
  predicate SameEdge(p: nat, q: nat, u: nat, v: nat) {
    (p == u && q == v) || (p == v && q == u)
  }

  /** Face f has {u, v} as one of its three undirected edges. */
  predicate HasEdge(f: Face, u: nat, v: nat) {
    SameEdge(f.a, f.b, u, v) || SameEdge(f.b, f.c, u, v) || SameEdge(f.c, f.a, u, v)
  }

  /** The positions of the faces that have {u, v} as an edge. */
  function FacesOnEdge(faces: seq<Face>, u: nat, v: nat): set<nat> {
    set k: nat | k < |faces| && HasEdge(faces[k], u, v)
  }

  /** A closed surface: every undirected edge of a face lies in exactly two faces. */
  ghost predicate Closed(faces: seq<Face>) {
    forall k: nat, u: nat, v: nat | k < |faces| && HasEdge(faces[k], u, v) ::
      |FacesOnEdge(faces, u, v)| == 2
  }

  /** Each of the three edges of face f lies in exactly two faces. */
  ghost predicate EdgesShared(faces: seq<Face>, f: Face) {
    && |FacesOnEdge(faces, f.a, f.b)| == 2
    && |FacesOnEdge(faces, f.b, f.c)| == 2
    && |FacesOnEdge(faces, f.c, f.a)| == 2
  }

  /** Face k of the list has each of its three edges shared. */
  ghost predicate SharedAt(faces: seq<Face>, k: nat) {
    k < |faces| && EdgesShared(faces, faces[k])
  }

  /** A face list whose every face has its three edges shared is closed. */
  lemma ClosedByFaces(faces: seq<Face>)
    requires forall k: nat | k < |faces| :: SharedAt(faces, k)
    ensures Closed(faces)
  {
    forall k: nat, u: nat, v: nat | k < |faces| && HasEdge(faces[k], u, v)
      ensures |FacesOnEdge(faces, u, v)| == 2
    {
      SharedEdge(faces, k, u, v);
    }
  }

  /** Each edge of a face whose three edges are shared lies in exactly two faces. */
  lemma SharedEdge(faces: seq<Face>, k: nat, u: nat, v: nat)
    requires SharedAt(faces, k) && HasEdge(faces[k], u, v)
    ensures |FacesOnEdge(faces, u, v)| == 2
  {
    var f := faces[k];
    if SameEdge(f.a, f.b, v, u) || SameEdge(f.b, f.c, v, u) || SameEdge(f.c, f.a, v, u) {
      EitherWayRound(faces, u, v);
    }
  }

  /** An undirected edge lies in the same faces whichever way round it is named. */
  lemma EitherWayRound(faces: seq<Face>, u: nat, v: nat)
    ensures FacesOnEdge(faces, u, v) == FacesOnEdge(faces, v, u)
  {
  }

  /** When exactly the faces at k1 and k2 carry the edge {u, v}, that edge lies in
      exactly two faces. */
  lemma ExactlyTwo(faces: seq<Face>, u: nat, v: nat, k1: nat, k2: nat)
    requires k1 != k2
    requires forall j: nat | j < |faces| :: HasEdge(faces[j], u, v) <==> j == k1 || j == k2
    requires k1 < |faces| && k2 < |faces|
    ensures FacesOnEdge(faces, u, v) == {k1, k2}
    ensures |FacesOnEdge(faces, u, v)| == 2
  {
    assert FacesOnEdge(faces, u, v) == {k1, k2};
  }
}

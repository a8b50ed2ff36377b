/** The tapered cylinder (frustum) builder: an interleaved ring of bottom and
    top vertices, a strip of side triangles, two centre vertices and two fans
    of cap triangles. */
module Cylinder {
  import opened Geometry

  /** The ring after ring i, wrapping round from the last ring to ring 0. */
  function Next(i: nat, segments: nat): (r: nat)
    requires i < segments
    ensures r < segments
  {
    if i + 1 < segments then i + 1 else 0
  }

  /** The builder's `(i+1) % segments` is the ring after ring i. */
  lemma NextIsRemainder(i: nat, segments: nat)
    requires i < segments
    ensures (i + 1) % segments == Next(i, segments)
  {
  }

  /** The ring before ring i, wrapping round to the last ring. */
  function Prev(i: nat, segments: nat): (r: nat)
    requires i < segments
    ensures r < segments && Next(r, segments) == i
  {
    if i == 0 then segments - 1 else i - 1
  }

  /** Only the ring before m is followed by m. */
  lemma PrevOfNext(segments: nat, i: nat, m: nat)
    requires i < segments && m < segments
    ensures Next(i, segments) == m <==> i == Prev(m, segments)
  {
  }

  /** The bottom-ring and top-ring points of ring i, in that order. */
  function RingPair(rBottom: real, rTop: real, height: real, d: Dir): (r: seq<Vec3>)
    ensures |r| == 2
  {
    [Vec3(rBottom * d.cos, rBottom * d.sin, 0.0), Vec3(rTop * d.cos, rTop * d.sin, height)]
  }

  /** The vertices of the first n rings, each ring's bottom point then its top point. */
  function RingVertices(rBottom: real, rTop: real, height: real, dir: nat -> Dir, n: nat): (r: seq<Vec3>)
    ensures |r| == 2 * n
  {
    if n == 0 then []
    else RingVertices(rBottom, rTop, height, dir, n - 1) + RingPair(rBottom, rTop, height, dir(n - 1))
  }

  /** All vertices: the ring vertices of every ring, then the bottom and top centres. */
  function Vertices(rBottom: real, rTop: real, height: real, segments: nat, dir: nat -> Dir): seq<Vec3> {
    RingVertices(rBottom, rTop, height, dir, segments) + [ORIGIN, Vec3(0.0, 0.0, height)]
  }

  /** The two side triangles of ring i: the quad between ring i and the next
      ring, split along the diagonal from the next bottom point to top point i. */
  function SidePair(segments: nat, i: nat): seq<Face>
    requires i < segments
  {
    var i0, i1 := 2 * i, 2 * Next(i, segments);
    [Face(i0, i1, i0 + 1), Face(i0 + 1, i1, i1 + 1)]
  }

  /** The cap triangles of ring i: its bottom-fan triangle to the bottom centre
      2*segments, and its top-fan triangle to the top centre 2*segments+1. */
  function CapPair(segments: nat, i: nat): seq<Face>
    requires i < segments
  {
    var i0, i1 := 2 * i, 2 * Next(i, segments);
    [Face(i0, i1, 2 * segments), Face(i1 + 1, i0 + 1, 2 * segments + 1)]
  }

  /** The side triangles of the first n rings. */
  function SideFaces(segments: nat, n: nat): (r: seq<Face>)
    requires n <= segments
    ensures |r| == 2 * n
  {
    if n == 0 then [] else SideFaces(segments, n - 1) + SidePair(segments, n - 1)
  }

  /** The cap triangles of the first n rings. */
  function CapFaces(segments: nat, n: nat): (r: seq<Face>)
    requires n <= segments
    ensures |r| == 2 * n
  {
    if n == 0 then [] else CapFaces(segments, n - 1) + CapPair(segments, n - 1)
  }

  /** All faces: the 2*segments side faces, then the 2*segments cap faces. */
  function Faces(segments: nat): seq<Face> {
    SideFaces(segments, segments) + CapFaces(segments, segments)
  }

  /** One pass of the vertex loop appends ring i's bottom and top points. */
  lemma RingVerticesStep(rBottom: real, rTop: real, height: real, dir: nat -> Dir, i: nat, d: Dir, bottom: Vec3, top: Vec3)
    requires d == dir(i)
    requires bottom == Vec3(rBottom * d.cos, rBottom * d.sin, 0.0)
    requires top == Vec3(rTop * d.cos, rTop * d.sin, height)
    ensures RingVertices(rBottom, rTop, height, dir, i + 1)
      == RingVertices(rBottom, rTop, height, dir, i) + [bottom, top]
  {
    var pair := RingPair(rBottom, rTop, height, d);
    assert pair[0] == bottom && pair[1] == top;
    assert pair == [bottom, top];
  }

  /** The builder: one loop emits the ring vertices, one the side faces, and,
      after the two centres are appended, one the cap faces. */
  method MakeTaperedCylinder(rBottom: real, rTop: real, height: real, segments: nat, dir: nat -> Dir)
    returns (vertices: seq<Vec3>, faces: seq<Face>)
    requires segments >= 1
    ensures vertices == Vertices(rBottom, rTop, height, segments, dir)
    ensures faces == Faces(segments)
  {
    vertices := [];
    faces := [];
    for i := 0 to segments
      invariant vertices == RingVertices(rBottom, rTop, height, dir, i)
    {
      var d := dir(i);
      var bottom := Vec3(rBottom * d.cos, rBottom * d.sin, 0.0);
      var top := Vec3(rTop * d.cos, rTop * d.sin, height);
      vertices := vertices + [bottom, top];
      RingVerticesStep(rBottom, rTop, height, dir, i, d, bottom, top);
    }

    // side faces
    for i := 0 to segments
      invariant faces == SideFaces(segments, i)
    {
      var i0 := 2 * i;
      var i1 := 2 * ((i + 1) % segments);
      var i2 := i0 + 1;
      var i3 := i1 + 1;
      NextIsRemainder(i, segments);
      faces := faces + [Face(i0, i1, i2), Face(i2, i1, i3)];
    }

    // centre vertices
    var bottomCenter := |vertices|;
    var topCenter := |vertices| + 1;
    vertices := vertices + [ORIGIN, Vec3(0.0, 0.0, height)];

    // cap faces
    ghost var sides := faces;
    for i := 0 to segments
      invariant faces == sides + CapFaces(segments, i)
    {
      var i0 := 2 * i;
      var i1 := 2 * ((i + 1) % segments);
      var i2 := i0 + 1;
      var i3 := i1 + 1;
      NextIsRemainder(i, segments);
      faces := faces + [Face(i0, i1, bottomCenter), Face(i3, i2, topCenter)];
      assert sides + CapFaces(segments, i + 1) == sides + CapFaces(segments, i) + CapPair(segments, i);
    }
  }

  /** Within the first n rings, ring i's points sit at positions 2i and 2i+1. */
  lemma {:induction false} RingVerticesAt(rBottom: real, rTop: real, height: real, dir: nat -> Dir, n: nat, i: nat)
    requires i < n
    ensures var v := RingVertices(rBottom, rTop, height, dir, n);
      v[2 * i] == Vec3(rBottom * dir(i).cos, rBottom * dir(i).sin, 0.0)
      && v[2 * i + 1] == Vec3(rTop * dir(i).cos, rTop * dir(i).sin, height)
  {
    if i < n - 1 {
      RingVerticesAt(rBottom, rTop, height, dir, n - 1, i);
    }
  }

  /** Ring i owns vertices 2i (bottom ring, z = 0) and 2i+1 (top ring,
      z = height). */
  lemma VertexLayout(rBottom: real, rTop: real, height: real, segments: nat, dir: nat -> Dir, i: nat)
    requires i < segments
    ensures var v := Vertices(rBottom, rTop, height, segments, dir);
      && |v| == 2 * segments + 2
      && v[2 * i] == Vec3(rBottom * dir(i).cos, rBottom * dir(i).sin, 0.0)
      && v[2 * i + 1] == Vec3(rTop * dir(i).cos, rTop * dir(i).sin, height)
  {
    RingVerticesAt(rBottom, rTop, height, dir, segments, i);
  }

  /** The bottom centre is vertex 2*segments, at the origin, and the top
      centre is vertex 2*segments+1, height above it. */
  lemma CentreLayout(rBottom: real, rTop: real, height: real, segments: nat, dir: nat -> Dir)
    ensures var v := Vertices(rBottom, rTop, height, segments, dir);
      && |v| == 2 * segments + 2
      && v[2 * segments] == Vec3(0.0, 0.0, 0.0)
      && v[2 * segments + 1] == Vec3(0.0, 0.0, height)
  {
  }

  /** With cosines and sines in [-1, 1], every vertex lies within the larger
      radius of the axis and between heights 0 and height. */
  lemma VertexBounds(rBottom: real, rTop: real, height: real, segments: nat, dir: nat -> Dir, j: nat)
    requires 0.0 <= rTop <= rBottom && 0.0 <= height
    requires forall i: nat :: -1.0 <= dir(i).cos <= 1.0 && -1.0 <= dir(i).sin <= 1.0
    requires j < 2 * segments + 2
    ensures var v := Vertices(rBottom, rTop, height, segments, dir);
      && -rBottom <= v[j].x <= rBottom
      && -rBottom <= v[j].y <= rBottom
      && 0.0 <= v[j].z <= height
  {
    if j < 2 * segments {
      var i := j / 2;
      if j == 2 * i {
        BottomPointBounds(rBottom, rTop, height, segments, dir, i);
      } else {
        TopPointBounds(rBottom, rTop, height, segments, dir, i);
      }
    } else {
      CentreLayout(rBottom, rTop, height, segments, dir);
    }
  }

  /** The bottom point of ring i lies within rBottom of the axis in x and y, at height 0. */
  lemma BottomPointBounds(rBottom: real, rTop: real, height: real, segments: nat, dir: nat -> Dir, i: nat)
    requires 0.0 <= rBottom && -1.0 <= dir(i).cos <= 1.0 && -1.0 <= dir(i).sin <= 1.0
    requires i < segments
    ensures var w := Vertices(rBottom, rTop, height, segments, dir)[2 * i];
      -rBottom <= w.x <= rBottom && -rBottom <= w.y <= rBottom && w.z == 0.0
  {
    var d := dir(i);
    VertexLayout(rBottom, rTop, height, segments, dir, i);
    assert Vertices(rBottom, rTop, height, segments, dir)[2 * i] == Vec3(rBottom * d.cos, rBottom * d.sin, 0.0);
    UnitScale(rBottom, d.cos);
    UnitScale(rBottom, d.sin);
  }

  /** The top point of ring i lies within rBottom of the axis in x and y, at height `height`. */
  lemma TopPointBounds(rBottom: real, rTop: real, height: real, segments: nat, dir: nat -> Dir, i: nat)
    requires 0.0 <= rTop <= rBottom && -1.0 <= dir(i).cos <= 1.0 && -1.0 <= dir(i).sin <= 1.0
    requires i < segments
    ensures var w := Vertices(rBottom, rTop, height, segments, dir)[2 * i + 1];
      -rBottom <= w.x <= rBottom && -rBottom <= w.y <= rBottom && w.z == height
  {
    VertexLayout(rBottom, rTop, height, segments, dir, i);
    PointWithin(rTop, dir(i), rBottom);
  }

  /** A ring point of radius r <= bound, in a direction with cosine and sine
      in [-1, 1], lies within bound of the axis in x and y. */
  lemma PointWithin(r: real, d: Dir, bound: real)
    requires 0.0 <= r <= bound && -1.0 <= d.cos <= 1.0 && -1.0 <= d.sin <= 1.0
    ensures -bound <= r * d.cos <= bound && -bound <= r * d.sin <= bound
  {
    ScaledWithin(r, d.cos, bound);
    ScaledWithin(r, d.sin, bound);
  }

  /** A radius r <= bound times a factor in [-1, 1] lies within bound of zero. */
  lemma ScaledWithin(r: real, t: real, bound: real)
    requires 0.0 <= r <= bound && -1.0 <= t <= 1.0
    ensures -bound <= r * t <= bound
  {
    UnitScale(r, t);
  }

  /** r times a factor in [-1, 1] lies within r of zero. */
  lemma UnitScale(r: real, t: real)
    requires 0.0 <= r && -1.0 <= t <= 1.0
    ensures -r <= r * t <= r
  {
    assert r * (1.0 - t) >= 0.0;
    assert r * (1.0 + t) >= 0.0;
  }

  /** Within the side faces of the first n rings, ring i's pair sits at 2i and 2i+1. */
  lemma {:induction false} SideFacesAt(segments: nat, n: nat, i: nat)
    requires i < n <= segments
    ensures SideFaces(segments, n)[2 * i] == SidePair(segments, i)[0]
    ensures SideFaces(segments, n)[2 * i + 1] == SidePair(segments, i)[1]
  {
    if i < n - 1 {
      SideFacesAt(segments, n - 1, i);
    }
  }

  /** Within the cap faces of the first n rings, ring i's pair sits at 2i and 2i+1. */
  lemma {:induction false} CapFacesAt(segments: nat, n: nat, i: nat)
    requires i < n <= segments
    ensures CapFaces(segments, n)[2 * i] == CapPair(segments, i)[0]
    ensures CapFaces(segments, n)[2 * i + 1] == CapPair(segments, i)[1]
  {
    if i < n - 1 {
      CapFacesAt(segments, n - 1, i);
    }
  }

  /** Ring i owns four faces: side faces 2i and 2i+1 and cap faces
      2*segments+2i (bottom fan) and 2*segments+2i+1 (top fan). */
  lemma FaceLayout(segments: nat, i: nat)
    requires i < segments
    ensures var f := Faces(segments); var n := Next(i, segments);
      && |f| == 4 * segments
      && f[2 * i] == Face(2 * i, 2 * n, 2 * i + 1)
      && f[2 * i + 1] == Face(2 * i + 1, 2 * n, 2 * n + 1)
      && f[2 * segments + 2 * i] == Face(2 * i, 2 * n, 2 * segments)
      && f[2 * segments + 2 * i + 1] == Face(2 * n + 1, 2 * i + 1, 2 * segments + 1)
  {
    SideFacesAt(segments, segments, i);
    CapFacesAt(segments, segments, i);
  }

  /** Face j is one of the four faces of ring j/2 (side) or (j-2*segments)/2 (cap). */
  lemma FaceOfRing(segments: nat, j: nat) returns (i: nat)
    requires j < 4 * segments
    ensures i < segments
    ensures j == 2 * i || j == 2 * i + 1 || j == 2 * segments + 2 * i || j == 2 * segments + 2 * i + 1
  {
    i := if j < 2 * segments then j / 2 else (j - 2 * segments) / 2;
  }

  /** Index bounds: every face indexes one of the 2*segments+2 vertices; side
      faces use ring vertices only; bottom-fan faces end at the bottom centre and
      top-fan faces at the top centre. */
  lemma {:induction false} IndexBounds(segments: nat)
    ensures IndicesBelow(Faces(segments), 2 * segments + 2)
    ensures IndicesBelow(Faces(segments)[..2 * segments], 2 * segments)
    ensures forall i | 0 <= i < segments ::
      && Faces(segments)[2 * segments + 2 * i].c == 2 * segments
      && Faces(segments)[2 * segments + 2 * i + 1].c == 2 * segments + 1
  {
    var f := Faces(segments);
    forall j: nat | j < 4 * segments
      ensures f[j].a < 2 * segments + 2 && f[j].b < 2 * segments + 2 && f[j].c < 2 * segments + 2
      ensures j < 2 * segments ==> f[j].a < 2 * segments && f[j].b < 2 * segments && f[j].c < 2 * segments
    {
      var i := FaceOfRing(segments, j);
      FaceLayout(segments, i);
    }
    forall i | 0 <= i < segments
      ensures f[2 * segments + 2 * i].c == 2 * segments
      ensures f[2 * segments + 2 * i + 1].c == 2 * segments + 1
    {
      FaceLayout(segments, i);
    }
  }

  /** With at least two segments no face repeats a vertex. */
  lemma {:induction false} NoDegenerateFaces(segments: nat)
    requires segments >= 2
    ensures DistinctCorners(Faces(segments))
  {
    var f := Faces(segments);
    forall j: nat | j < 4 * segments
      ensures f[j].a != f[j].b && f[j].b != f[j].c && f[j].c != f[j].a
    {
      var i := FaceOfRing(segments, j);
      FaceLayout(segments, i);
    }
  }

  /** Face j, with its corners, as one of the four faces of its ring i. */
  lemma RingOfFace(segments: nat, j: nat) returns (i: nat)
    requires j < 4 * segments
    ensures i < segments && |Faces(segments)| == 4 * segments
    ensures var f, n := Faces(segments), Next(i, segments);
      || (j == 2 * i && f[j] == Face(2 * i, 2 * n, 2 * i + 1))
      || (j == 2 * i + 1 && f[j] == Face(2 * i + 1, 2 * n, 2 * n + 1))
      || (j == 2 * segments + 2 * i && f[j] == Face(2 * i, 2 * n, 2 * segments))
      || (j == 2 * segments + 2 * i + 1 && f[j] == Face(2 * n + 1, 2 * i + 1, 2 * segments + 1))
  {
    i := FaceOfRing(segments, j);
    FaceLayout(segments, i);
  }

  // Each undirected edge of the cylinder, by kind, and the two faces that carry
  // it: first face by face (the `...At` lemmas), then as a set of positions.
  // Ring m's neighbours are n = Next(m) and p = Prev(m).

  /** Face j carries the bottom-ring edge {2m, 2n} exactly when it is side face 2m or bottom fan 2s+2m. */
  lemma BottomRingAt(segments: nat, m: nat, j: nat)
    requires segments >= 3 && m < segments && j < 4 * segments
    ensures |Faces(segments)| == 4 * segments
    ensures HasEdge(Faces(segments)[j], 2 * m, 2 * Next(m, segments))
      <==> j == 2 * m || j == 2 * segments + 2 * m
  {
    var i := RingOfFace(segments, j);
    var _ := Next(Next(m, segments), segments);
  }

  /** A bottom-ring edge {2m, 2n}: side face 2m and bottom-fan face 2s+2m. */
  lemma BottomRingEdge(segments: nat, m: nat)
    requires segments >= 3 && m < segments
    ensures FacesOnEdge(Faces(segments), 2 * m, 2 * Next(m, segments))
      == {2 * m, 2 * segments + 2 * m}
  {
    var f, x, y := Faces(segments), 2 * m, 2 * Next(m, segments);
    assert |f| == 4 * segments;
    forall j: nat | j < |f| ensures HasEdge(f[j], x, y) <==> j == 2 * m || j == 2 * segments + 2 * m {
      BottomRingAt(segments, m, j);
    }
    ExactlyTwo(f, x, y, 2 * m, 2 * segments + 2 * m);
  }

  /** Face j carries the top-ring edge {2m+1, 2n+1} exactly when it is side face 2m+1 or top fan 2s+2m+1. */
  lemma TopRingAt(segments: nat, m: nat, j: nat)
    requires segments >= 3 && m < segments && j < 4 * segments
    ensures |Faces(segments)| == 4 * segments
    ensures HasEdge(Faces(segments)[j], 2 * m + 1, 2 * Next(m, segments) + 1)
      <==> j == 2 * m + 1 || j == 2 * segments + 2 * m + 1
  {
    var i := RingOfFace(segments, j);
    var _ := Next(Next(m, segments), segments);
  }

  /** A top-ring edge {2m+1, 2n+1}: side face 2m+1 and top-fan face 2s+2m+1. */
  lemma TopRingEdge(segments: nat, m: nat)
    requires segments >= 3 && m < segments
    ensures FacesOnEdge(Faces(segments), 2 * m + 1, 2 * Next(m, segments) + 1)
      == {2 * m + 1, 2 * segments + 2 * m + 1}
  {
    var f, x, y := Faces(segments), 2 * m + 1, 2 * Next(m, segments) + 1;
    assert |f| == 4 * segments;
    forall j: nat | j < |f| ensures HasEdge(f[j], x, y) <==> j == 2 * m + 1 || j == 2 * segments + 2 * m + 1 {
      TopRingAt(segments, m, j);
    }
    ExactlyTwo(f, x, y, 2 * m + 1, 2 * segments + 2 * m + 1);
  }

  /** Face j carries the diagonal {2n, 2m+1} exactly when it is side face 2m or 2m+1. */
  lemma DiagonalAt(segments: nat, m: nat, j: nat)
    requires segments >= 3 && m < segments && j < 4 * segments
    ensures |Faces(segments)| == 4 * segments
    ensures HasEdge(Faces(segments)[j], 2 * Next(m, segments), 2 * m + 1)
      <==> j == 2 * m || j == 2 * m + 1
  {
    var i := RingOfFace(segments, j);
  }

  /** A diagonal {2n, 2m+1} of the quad of ring m: side faces 2m and 2m+1. */
  lemma DiagonalEdge(segments: nat, m: nat)
    requires segments >= 3 && m < segments
    ensures FacesOnEdge(Faces(segments), 2 * Next(m, segments), 2 * m + 1) == {2 * m, 2 * m + 1}
  {
    var f, x, y := Faces(segments), 2 * Next(m, segments), 2 * m + 1;
    assert |f| == 4 * segments;
    forall j: nat | j < |f| ensures HasEdge(f[j], x, y) <==> j == 2 * m || j == 2 * m + 1 {
      DiagonalAt(segments, m, j);
    }
    ExactlyTwo(f, x, y, 2 * m, 2 * m + 1);
  }

  /** Face j carries the vertical edge {2m, 2m+1} exactly when it is side face 2m or side face 2p+1. */
  lemma VerticalAt(segments: nat, m: nat, j: nat)
    requires segments >= 3 && m < segments && j < 4 * segments
    ensures |Faces(segments)| == 4 * segments
    ensures HasEdge(Faces(segments)[j], 2 * m, 2 * m + 1)
      <==> j == 2 * m || j == 2 * Prev(m, segments) + 1
  {
    var i := RingOfFace(segments, j);
    PrevOfNext(segments, i, m);
  }

  /** A vertical edge {2m, 2m+1}: side face 2m and side face 2p+1 of the ring before. */
  lemma VerticalEdge(segments: nat, m: nat)
    requires segments >= 3 && m < segments
    ensures FacesOnEdge(Faces(segments), 2 * m, 2 * m + 1) == {2 * m, 2 * Prev(m, segments) + 1}
  {
    var f, x, y, p := Faces(segments), 2 * m, 2 * m + 1, Prev(m, segments);
    assert |f| == 4 * segments;
    forall j: nat | j < |f| ensures HasEdge(f[j], x, y) <==> j == 2 * m || j == 2 * p + 1 {
      VerticalAt(segments, m, j);
    }
    ExactlyTwo(f, x, y, 2 * m, 2 * p + 1);
  }

  /** Face j carries the bottom spoke {2m, 2s} exactly when it is the bottom fan of ring m or of ring p. */
  lemma BottomSpokeAt(segments: nat, m: nat, j: nat)
    requires segments >= 3 && m < segments && j < 4 * segments
    ensures |Faces(segments)| == 4 * segments
    ensures HasEdge(Faces(segments)[j], 2 * m, 2 * segments)
      <==> j == 2 * segments + 2 * m || j == 2 * segments + 2 * Prev(m, segments)
  {
    var i := RingOfFace(segments, j);
    PrevOfNext(segments, i, m);
  }

  /** A bottom spoke {2m, 2s}: the bottom-fan faces of ring m and of the ring before. */
  lemma BottomSpokeEdge(segments: nat, m: nat)
    requires segments >= 3 && m < segments
    ensures FacesOnEdge(Faces(segments), 2 * m, 2 * segments)
      == {2 * segments + 2 * m, 2 * segments + 2 * Prev(m, segments)}
  {
    var f, x, y, p := Faces(segments), 2 * m, 2 * segments, Prev(m, segments);
    assert |f| == 4 * segments;
    forall j: nat | j < |f|
      ensures HasEdge(f[j], x, y) <==> j == 2 * segments + 2 * m || j == 2 * segments + 2 * p
    {
      BottomSpokeAt(segments, m, j);
    }
    ExactlyTwo(f, x, y, 2 * segments + 2 * m, 2 * segments + 2 * p);
  }

  /** Face j carries the top spoke {2m+1, 2s+1} exactly when it is the top fan of ring m or of ring p. */
  lemma TopSpokeAt(segments: nat, m: nat, j: nat)
    requires segments >= 3 && m < segments && j < 4 * segments
    ensures |Faces(segments)| == 4 * segments
    ensures HasEdge(Faces(segments)[j], 2 * m + 1, 2 * segments + 1)
      <==> j == 2 * segments + 2 * m + 1 || j == 2 * segments + 2 * Prev(m, segments) + 1
  {
    var i := RingOfFace(segments, j);
    PrevOfNext(segments, i, m);
  }

  /** A top spoke {2m+1, 2s+1}: the top-fan faces of ring m and of the ring before. */
  lemma TopSpokeEdge(segments: nat, m: nat)
    requires segments >= 3 && m < segments
    ensures FacesOnEdge(Faces(segments), 2 * m + 1, 2 * segments + 1)
      == {2 * segments + 2 * m + 1, 2 * segments + 2 * Prev(m, segments) + 1}
  {
    var f, x, y, p := Faces(segments), 2 * m + 1, 2 * segments + 1, Prev(m, segments);
    assert |f| == 4 * segments;
    forall j: nat | j < |f|
      ensures HasEdge(f[j], x, y) <==> j == 2 * segments + 2 * m + 1 || j == 2 * segments + 2 * p + 1
    {
      TopSpokeAt(segments, m, j);
    }
    ExactlyTwo(f, x, y, 2 * segments + 2 * m + 1, 2 * segments + 2 * p + 1);
  }

  // The same six edges, each lying in exactly two faces, named either way round.

  /** The bottom-ring edge {2m, 2n} lies in exactly two faces. */
  lemma BottomRingPair(segments: nat, m: nat)
    requires segments >= 3 && m < segments
    ensures |FacesOnEdge(Faces(segments), 2 * m, 2 * Next(m, segments))| == 2
    ensures |FacesOnEdge(Faces(segments), 2 * Next(m, segments), 2 * m)| == 2
  {
    BottomRingEdge(segments, m);
    EitherWayRound(Faces(segments), 2 * m, 2 * Next(m, segments));
  }

  /** The top-ring edge {2m+1, 2n+1} lies in exactly two faces. */
  lemma TopRingPair(segments: nat, m: nat)
    requires segments >= 3 && m < segments
    ensures |FacesOnEdge(Faces(segments), 2 * m + 1, 2 * Next(m, segments) + 1)| == 2
    ensures |FacesOnEdge(Faces(segments), 2 * Next(m, segments) + 1, 2 * m + 1)| == 2
  {
    TopRingEdge(segments, m);
    EitherWayRound(Faces(segments), 2 * m + 1, 2 * Next(m, segments) + 1);
  }

  /** The diagonal {2n, 2m+1} lies in exactly two faces. */
  lemma DiagonalPair(segments: nat, m: nat)
    requires segments >= 3 && m < segments
    ensures |FacesOnEdge(Faces(segments), 2 * Next(m, segments), 2 * m + 1)| == 2
    ensures |FacesOnEdge(Faces(segments), 2 * m + 1, 2 * Next(m, segments))| == 2
  {
    DiagonalEdge(segments, m);
    EitherWayRound(Faces(segments), 2 * Next(m, segments), 2 * m + 1);
  }

  /** The vertical edge {2m, 2m+1} lies in exactly two faces. */
  lemma VerticalPair(segments: nat, m: nat)
    requires segments >= 3 && m < segments
    ensures |FacesOnEdge(Faces(segments), 2 * m, 2 * m + 1)| == 2
    ensures |FacesOnEdge(Faces(segments), 2 * m + 1, 2 * m)| == 2
  {
    VerticalEdge(segments, m);
    EitherWayRound(Faces(segments), 2 * m, 2 * m + 1);
  }

  /** The bottom spoke {2m, 2s} lies in exactly two faces. */
  lemma BottomSpokePair(segments: nat, m: nat)
    requires segments >= 3 && m < segments
    ensures |FacesOnEdge(Faces(segments), 2 * m, 2 * segments)| == 2
    ensures |FacesOnEdge(Faces(segments), 2 * segments, 2 * m)| == 2
  {
    BottomSpokeEdge(segments, m);
    EitherWayRound(Faces(segments), 2 * m, 2 * segments);
  }

  /** The top spoke {2m+1, 2s+1} lies in exactly two faces. */
  lemma TopSpokePair(segments: nat, m: nat)
    requires segments >= 3 && m < segments
    ensures |FacesOnEdge(Faces(segments), 2 * m + 1, 2 * segments + 1)| == 2
    ensures |FacesOnEdge(Faces(segments), 2 * segments + 1, 2 * m + 1)| == 2
  {
    TopSpokeEdge(segments, m);
    EitherWayRound(Faces(segments), 2 * m + 1, 2 * segments + 1);
  }

  /** Every edge of side face 2i = [2i, 2n, 2i+1] lies in exactly two faces. */
  lemma SideQuadFirstShared(segments: nat, i: nat)
    requires segments >= 3 && i < segments
    ensures var n := Next(i, segments);
      EdgesShared(Faces(segments), Face(2 * i, 2 * n, 2 * i + 1))
  {
    BottomRingPair(segments, i);
    DiagonalPair(segments, i);
    VerticalPair(segments, i);
  }

  /** Every edge of side face 2i+1 = [2i+1, 2n, 2n+1] lies in exactly two faces. */
  lemma SideQuadSecondShared(segments: nat, i: nat)
    requires segments >= 3 && i < segments
    ensures var n := Next(i, segments);
      EdgesShared(Faces(segments), Face(2 * i + 1, 2 * n, 2 * n + 1))
  {
    DiagonalPair(segments, i);
    VerticalPair(segments, Next(i, segments));
    TopRingPair(segments, i);
  }

  /** Every edge of bottom-fan face 2s+2i = [2i, 2n, 2s] lies in exactly two faces. */
  lemma BottomFanShared(segments: nat, i: nat)
    requires segments >= 3 && i < segments
    ensures var n := Next(i, segments);
      EdgesShared(Faces(segments), Face(2 * i, 2 * n, 2 * segments))
  {
    BottomRingPair(segments, i);
    BottomSpokePair(segments, Next(i, segments));
    BottomSpokePair(segments, i);
  }

  /** Every edge of top-fan face 2s+2i+1 = [2n+1, 2i+1, 2s+1] lies in exactly two faces. */
  lemma TopFanShared(segments: nat, i: nat)
    requires segments >= 3 && i < segments
    ensures var n := Next(i, segments);
      EdgesShared(Faces(segments), Face(2 * n + 1, 2 * i + 1, 2 * segments + 1))
  {
    var f, n := Faces(segments), Next(i, segments);
    TopRingPair(segments, i);
    TopSpokePair(segments, i);
    TopSpokePair(segments, n);
    assert |FacesOnEdge(f, 2 * n + 1, 2 * i + 1)| == 2;
    assert |FacesOnEdge(f, 2 * i + 1, 2 * segments + 1)| == 2;
    assert |FacesOnEdge(f, 2 * segments + 1, 2 * n + 1)| == 2;
  }

  /** Every edge of face k lies in exactly two faces. */
  lemma FaceShared(segments: nat, k: nat)
    requires segments >= 3 && k < 4 * segments
    ensures |Faces(segments)| == 4 * segments && EdgesShared(Faces(segments), Faces(segments)[k])
  {
    var i := RingOfFace(segments, k);
    if k == 2 * i {
      SideQuadFirstShared(segments, i);
    } else if k == 2 * i + 1 {
      SideQuadSecondShared(segments, i);
    } else if k == 2 * segments + 2 * i {
      BottomFanShared(segments, i);
    } else {
      TopFanShared(segments, i);
    }
  }

  /** For three or more segments the cylinder is a closed surface: every
      undirected edge of every face lies in exactly two faces. */
  lemma {:induction false} ClosedSurface(segments: nat)
    requires segments >= 3
    ensures Closed(Faces(segments))
  {
    var f := Faces(segments);
    assert |f| == 4 * segments;
    forall k: nat | k < |f| ensures SharedAt(f, k) {
      FaceShared(segments, k);
    }
    ClosedByFaces(f);
  }
}

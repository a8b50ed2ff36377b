# Stringing test generator: mesh construction

A model of the mesh construction in `stringing_test_gen.py`, a script that
builds the STL model of a 3D-printer "stringing" test. The model is a flat
rectangular base plate with a row of tapered cylinders (frustums) standing on
it. The script builds an indexed triangle mesh and then expands it into
explicit triangles for STL export. The model covers these parts:

- `Geometry` (`geometry.dfy`): points, faces and meshes. It also defines
  what a *closed surface* is: every undirected edge of every face lies in
  exactly two faces.
- `Cylinder` (`cylinder.dfy`): `make_tapered_cylinder`, modelled as a
  method with the source's three loops.
  - The ring vertices are interleaved: vertex 2i is on the bottom ring and
    2i+1 on the top ring. The bottom and top centres come last, at 2s and
    2s+1.
  - There are two side triangles per ring, then one bottom-fan and one
    top-fan triangle per ring.
  - The method is proved equal to the specification functions
    `Vertices`/`Faces`. Their layout, index bounds, non-degeneracy and
    closedness are proved as lemmas.
- `Plate` (`plate.dfy`): `make_base_plate`, the 8 corners and 12 triangles
  of a box. The lemmas show the corners lie in the box and the surface is
  closed.
- `Layout` (`layout.dfy`): the plate's width and depth and each cylinder's
  offset. All of these are computed over exact reals from the parameters.
- `Scene` (`scene.dfy`): `translate`, the face index offset and the build
  loop. The loop adds the plate, then each translated cylinder, with
  `vertex_offset` added to its faces. The loop is proved equal to a fold
  (`Combine`) over the list of fragments, and the lemmas give:
  - the final counts;
  - where each fragment lands in the combined mesh;
  - that every combined index is valid;
  - that each fragment stays closed;
  - that each cylinder stands on the plate's top and within its footprint.
- `Export` (`export.dfy`): the zero-filled array of triangles filled in
  place from `vertices[f]`. It also has the whole run: build the scene,
  then export it.

The cosine and sine of each ring angle are not computed. They are passed in
as a function `dir` from ring index to a `(cos, sin)` pair. Properties that
need the pair to be a real direction assume only that both values lie in
[-1, 1].

## Model

| member | source | states |
|---|---|---|
| Cylinder.Next | stringing_test_gen.py:31 | the ring after i is again a ring index below `segments` |
| Cylinder.NextIsRemainder | stringing_test_gen.py:31 | the ring after i is `(i+1) % segments`: i + 1, or ring 0 after the last ring |
| Cylinder.Prev | stringing_test_gen.py:31 | the ring before i is below `segments` and is followed by i |
| Cylinder.PrevOfNext | stringing_test_gen.py:31 | `Next(i) == m` holds if and only if `i == Prev(m)` |
| Cylinder.RingPair | stringing_test_gen.py:20-25 | defines ring i's two points: `(r_bottom·cos, r_bottom·sin, 0)` then `(r_top·cos, r_top·sin, height)` |
| Cylinder.RingVertices | stringing_test_gen.py:20-25 | defines the first n rings' points, two per ring, in loop order |
| Cylinder.Vertices | stringing_test_gen.py:37-40 | defines all 2s+2 vertices: the ring points, then the bottom centre at the origin and the top centre at (0, 0, height) |
| Cylinder.SidePair | stringing_test_gen.py:29-35 | defines ring i's two side triangles `[i0, i1, i2]` and `[i2, i1, i3]` |
| Cylinder.SideFaces | stringing_test_gen.py:29-35 | defines the side triangles of the first n rings, two per ring, in loop order |
| Cylinder.CapPair | stringing_test_gen.py:43-49 | defines ring i's bottom fan `[i0, i1, 2s]` and top fan `[i3, i2, 2s+1]` |
| Cylinder.CapFaces | stringing_test_gen.py:43-49 | defines the cap triangles of the first n rings, two per ring, in loop order |
| Cylinder.Faces | stringing_test_gen.py:28-49 | defines all 4s faces: the side triangles, then the cap triangles |
| Cylinder.MakeTaperedCylinder | stringing_test_gen.py:17-51 | the three loops produce exactly the interleaved ring vertices plus the two centres, and the 2s side faces followed by the 2s cap faces |
| Cylinder.RingVerticesStep | stringing_test_gen.py:20-25 | one pass of the vertex loop appends ring i's bottom point and then its top point to the vertices of the earlier rings |
| Cylinder.VertexLayout | stringing_test_gen.py:20-25 | vertex 2i is bottom-ring point i at z = 0 with radius `r_bottom`; vertex 2i+1 is top-ring point i at z = height with radius `r_top` |
| Cylinder.CentreLayout | stringing_test_gen.py:37-40 | the bottom centre is vertex 2s at the origin; the top centre is vertex 2s+1 at (0, 0, height); there are 2s+2 vertices |
| Cylinder.VertexBounds | stringing_test_gen.py:20-25 | with directions in [-1, 1] and 0 <= r_top <= r_bottom, every vertex lies within r_bottom of the axis in x and y, and between 0 and height in z |
| Cylinder.FaceLayout | stringing_test_gen.py:29-49 | ring i owns faces 2i = [2i, 2n, 2i+1], 2i+1 = [2i+1, 2n, 2n+1], 2s+2i = [2i, 2n, 2s] and 2s+2i+1 = [2n+1, 2i+1, 2s+1], where n is the next ring |
| Cylinder.FaceOfRing | stringing_test_gen.py:29-49 | every one of the 4s faces belongs to one ring's group of four |
| Cylinder.RingOfFace | stringing_test_gen.py:29-49 | each of the 4s faces is, with its three corners, one of the four faces of some ring i |
| Cylinder.IndexBounds | stringing_test_gen.py:29-49 | every face indexes one of the 2s+2 vertices; side faces use only ring vertices; bottom fans end at vertex 2s and top fans at 2s+1 |
| Cylinder.NoDegenerateFaces | stringing_test_gen.py:29-49 | with at least two segments no face repeats a vertex |
| Cylinder.BottomRingEdge | stringing_test_gen.py:29-49 | the bottom-ring edge {2m, 2n} lies in exactly side face 2m and bottom fan 2s+2m |
| Cylinder.TopRingEdge | stringing_test_gen.py:29-49 | the top-ring edge {2m+1, 2n+1} lies in exactly side face 2m+1 and top fan 2s+2m+1 |
| Cylinder.DiagonalEdge | stringing_test_gen.py:34-35 | the quad diagonal {2n, 2m+1} lies in exactly the two side faces of ring m |
| Cylinder.VerticalEdge | stringing_test_gen.py:34-35 | the vertical edge {2m, 2m+1} lies in exactly side face 2m and side face 2p+1 of the ring before |
| Cylinder.BottomSpokeEdge | stringing_test_gen.py:48 | the spoke {2m, 2s} lies in exactly the bottom fans of ring m and of the ring before |
| Cylinder.TopSpokeEdge | stringing_test_gen.py:49 | the spoke {2m+1, 2s+1} lies in exactly the top fans of ring m and of the ring before |
| Cylinder.SideQuadFirstShared | stringing_test_gen.py:34 | each edge of side face 2i lies in exactly two faces |
| Cylinder.SideQuadSecondShared | stringing_test_gen.py:35 | each edge of side face 2i+1 lies in exactly two faces |
| Cylinder.BottomFanShared | stringing_test_gen.py:48 | each edge of bottom fan 2s+2i lies in exactly two faces |
| Cylinder.TopFanShared | stringing_test_gen.py:49 | each edge of top fan 2s+2i+1 lies in exactly two faces |
| Cylinder.FaceShared | stringing_test_gen.py:29-49 | for s >= 3 each edge of each face lies in exactly two faces |
| Cylinder.ClosedSurface | stringing_test_gen.py:29-49 | for s >= 3 the cylinder is a closed surface: every edge of every face lies in exactly two faces |
| Plate.Vertices | stringing_test_gen.py:54-57 | defines the box's 8 corners: the bottom rectangle at z = 0, then the top one at z = thickness |
| Plate.Faces | stringing_test_gen.py:58-62 | defines the box's 12 triangles, two per side, listed as in the source |
| Plate.MakeBasePlate | stringing_test_gen.py:53-63 | the plate has 8 vertices and 12 faces; every face indexes those vertices and has three distinct corners |
| Plate.BoundingBox | stringing_test_gen.py:54-57 | with non-negative dimensions every corner lies in [0,w]×[0,d]×[0,t]; corner 0 is the origin and corner 6 is (w, d, t) |
| Plate.NotAcross | stringing_test_gen.py:58-62 | a face shares an edge only with itself and the face across that edge |
| Plate.FaceAcross | stringing_test_gen.py:58-62 | each edge of each plate face lies in exactly two faces |
| Plate.ClosedSurface | stringing_test_gen.py:58-62 | the plate is a closed surface |
| Layout.TotalWidth | stringing_test_gen.py:14 | the plate's width is the row's width plus one bottom radius |
| Layout.TotalDepth | stringing_test_gen.py:15 | the plate's depth is five bottom radii |
| Layout.RowWidth | stringing_test_gen.py:86 | defines `cyl_row_width`: N bottom diameters and N−1 gaps; its ensures only regroups the formula |
| Layout.OffsetX | stringing_test_gen.py:92 | cylinder i's footprint starts i steps of `2·r_b + gap` past the r_b/2 margin |
| Layout.OffsetY | stringing_test_gen.py:94 | the axis is at mid-depth, leaving 1.5·r_b of plate on either side of the footprint |
| Layout.OffsetZ | stringing_test_gen.py:96 | defines the cylinders' base height as the plate's thickness |
| Layout.CylinderOffset | stringing_test_gen.py:98 | defines cylinder i's translation as `(offset_x, offset_y, offset_z)` |
| Layout.MarginX | stringing_test_gen.py:86-89 | the centring margin is half a bottom radius whatever the other parameters |
| Layout.FootprintOnPlate | stringing_test_gen.py:86-95 | with r_b, gap >= 0, every cylinder's footprint lies on the plate at least r_b/2 inside its width, and inside its depth |
| Layout.RowCentred | stringing_test_gen.py:86-92 | the first footprint starts and the last ends exactly r_b/2 from the plate's edges |
| Layout.Spacing | stringing_test_gen.py:92 | neighbouring axes are 2·r_b + gap apart, so neighbouring footprints are exactly `gap` apart |
| Layout.DefaultDimensions | stringing_test_gen.py:5-15 | with the script's constants: plate 48.2 × 13.0, row width 45.6, margin 1.3, axes at x = 3.9 and 44.3, and y = 6.5 |
| Scene.Translate | stringing_test_gen.py:65-66 | translation keeps the number of vertices |
| Scene.TranslateBack | stringing_test_gen.py:65-66 | translating by an offset and then by its negation gives back the original vertices |
| Scene.OffsetFace | stringing_test_gen.py:101 | defines one face with each of its three indices shifted by the offset |
| Scene.OffsetFaces | stringing_test_gen.py:101 | defines `f + vertex_offset`: every face shifted, the number of faces kept |
| Scene.OffsetRange | stringing_test_gen.py:101 | faces index below n if and only if the shifted faces index within [off, off+n) |
| Scene.OffsetClosed | stringing_test_gen.py:101 | shifting all face indices keeps a closed surface closed |
| Scene.Combine | stringing_test_gen.py:71-106 | the combined mesh has the summed vertex and face counts of its fragments |
| Scene.CombineValid | stringing_test_gen.py:71-106 | if each fragment's faces index its own vertices, every combined face indexes a combined vertex |
| Scene.FragmentInPlace | stringing_test_gen.py:100-106 | fragment k's vertices appear unchanged at its vertex start, and its faces appear shifted by that start |
| Scene.FragmentRange | stringing_test_gen.py:100-101 | if fragment k's own faces index its own vertices, its combined faces index only fragment k's own vertex range |
| Scene.PlateFragment | stringing_test_gen.py:76 | defines the plate fragment, sized `total_width` by `total_depth` by `base_thickness` |
| Scene.CylinderFragment | stringing_test_gen.py:83-98 | defines cylinder i: the builder's vertices translated by its offset, with the builder's faces |
| Scene.Fragments | stringing_test_gen.py:75-82 | the build produces the plate and one fragment per cylinder |
| Scene.BuildScene | stringing_test_gen.py:71-106 | the build loop's vertex and face arrays are exactly the fold of the plate and the translated cylinders |
| Scene.PlacementOffset | stringing_test_gen.py:84-95 | the loop's row width, centring margin and x, y, z offsets make up cylinder i's placement on the plate |
| Scene.BuildStep | stringing_test_gen.py:81-102 | one pass of the build loop, appending cylinder i translated and its faces shifted by the vertices so far, extends the combined prefix by that cylinder |
| Scene.CombineStep | stringing_test_gen.py:100-102 | combining one more fragment appends its vertices and its faces shifted by the number of vertices before it |
| Scene.FragmentAt | stringing_test_gen.py:75-82 | the fragment after the plate and i cylinders is cylinder i |
| Scene.PrefixCounts | stringing_test_gen.py:72-102 | after the plate and k cylinders, `vertex_offset` is 8 + k(2s+2) and there are 12 + k·4s faces |
| Scene.CylinderSize | stringing_test_gen.py:17-51 | every placed cylinder has 2s+2 vertices and 4s faces |
| Scene.SceneCounts | stringing_test_gen.py:71-106 | the scene has 8 + N(2s+2) vertices and 12 + N·4s faces |
| Scene.FragmentStarts | stringing_test_gen.py:72-102 | cylinder c's vertices start at 8 + c(2s+2) and its faces at 12 + c·4s |
| Scene.SceneFragmentsValid | stringing_test_gen.py:75-98 | every fragment of the scene indexes only its own vertices |
| Scene.SceneIndicesValid | stringing_test_gen.py:105-106 | every combined face index is below the combined vertex count |
| Scene.FragmentClosedInPlace | stringing_test_gen.py:100-101 | a fragment whose faces index its own vertices and form a closed surface keeps both where it sits in the combined mesh |
| Scene.SceneFragmentSurface | stringing_test_gen.py:17-63 | for s >= 3, each fragment on its own indexes its own vertices and is a closed surface (the index part for any s >= 1 is `Scene.SceneFragmentsValid`) |
| Scene.SceneFragmentClosed | stringing_test_gen.py:71-106 | for s >= 3 each fragment's combined faces stay in its own range and form a closed surface |
| Scene.VertexOfFragment | stringing_test_gen.py:105 | vertex j of fragment k is combined vertex start(k) + j |
| Scene.PlateTop | stringing_test_gen.py:76 | the plate's top corners 4..7 lie at height `base_thickness` |
| Scene.PlacedVertex | stringing_test_gen.py:98-100 | vertex j of cylinder c is the cylinder's own vertex j moved by its offset, at 8 + c(2s+2) + j in the combined array |
| Scene.CylinderOnPlate | stringing_test_gen.py:92-98 | each cylinder's bottom ring and bottom centre lie at the plate's top; its top ring and top centre lie `height` above it |
| Scene.PlacedOverPlate | stringing_test_gen.py:86-98 | with r_b, gap >= 0, a point within r_b of the axis and between heights 0 and height, moved by cylinder c's offset, lies over the plate |
| Scene.CylinderOverPlate | stringing_test_gen.py:86-98 | with directions in [-1, 1], 0 <= r_top <= r_bottom, gap >= 0 and height >= 0, every cylinder vertex lies within [0,W]×[0,D]×[t, t+height] |
| Scene.DefaultCounts | stringing_test_gen.py:5-15 | with the script's constants the mesh has 206 vertices and 396 faces |
| Export.ExportTriangles | stringing_test_gen.py:109-111 | the new array holds one triangle per face, and triangle i has the corners that face i indexes, in order |
| Export.Generate | stringing_test_gen.py:71-111 | the exported array has 12 + N·4s triangles, each one the corners of the corresponding combined face |

## Left out

- Writing the STL file and the final message are I/O and are not modelled. `mesh.Mesh.save` and `print` are not part of this model. The source's float64 arithmetic and the STL's float32 storage both become exact reals.
- Trigonometry is not modelled: `np.cos` and `np.sin` of 2πi/s are a parameter `dir`. No lemma relies on the ring points being evenly spaced or on a circle.
- No orientation property is stated. The face triples and the exported triangles keep the source's winding order exactly, but the closedness lemmas use undirected edges. In the source the cap fans repeat the side faces' directed edges instead of reversing them, and the plate's bottom two faces wind so that their normals point up into the solid. So no consistent-orientation property holds for the source.
- Cylinder.MakeTaperedCylinder: requires `segments >= 1`. With zero segments the source's `np.vstack` of an empty vertex array and the two centres fails. Otherwise the source validates no parameter, so neither does the model. In particular no positivity is required of radii, height, thickness, gap or the cylinder count.
- Scene.BuildScene: requires `segments >= 1` only when there is at least one cylinder, because only then is `make_tapered_cylinder` called. With zero cylinders the loop never runs and the plate-only scene is built for any `segments`. Export.Generate has the same requires.
- The source's list of arrays joined by `np.vstack` is modelled as sequence concatenation. Faces are `Face` records, not rows of a 2-D integer array.
- The script's module-level constants are modelled as a `Params` record, with `DEFAULT` holding the script's values. The default lemmas pin those values.
- The cylinder closedness lemmas require at least three segments. With one segment the source's faces are degenerate. With two, each ring edge lies in four faces.

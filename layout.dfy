/** Placement of the cylinders on the plate: the plate's size from the
    cylinder parameters, and each cylinder's offset, over exact reals. */
module Layout {
  import opened Geometry

  /** The generator's parameters: the cylinders' bottom and top radii, height,
      the gap between neighbouring cylinders, the number of ring segments, the
      number of cylinders and the plate's thickness. */
  datatype Params = Params(
    radiusBottom: real, radiusTop: real, height: real, gap: real,
    segments: nat, numCylinders: nat, baseThickness: real)

  /** The values the program is run with. */
  const DEFAULT := Params(2.6, 2.0, 20.0, 15.0, 32, 3, 1.0)

  /** The plate width: the row of cylinders and gaps plus one bottom radius of margin. */
  function TotalWidth(p: Params): (r: real)
    ensures r == RowWidth(p) + p.radiusBottom
  {
    var n := p.numCylinders as real;
    n * 2.0 * p.radiusBottom + (n - 1.0) * p.gap + p.radiusBottom
  }

  /** The plate depth: two bottom diameters plus one bottom radius. */
  function TotalDepth(p: Params): (r: real)
    ensures r == 5.0 * p.radiusBottom
  {
    2.0 * p.radiusBottom * 2.0 + p.radiusBottom
  }

  /** The width of the row of cylinders and the gaps between them: one bottom
      diameter and one gap per cylinder, less the gap after the last. */
  function RowWidth(p: Params): (r: real)
    ensures r == (p.numCylinders as real) * (2.0 * p.radiusBottom + p.gap) - p.gap
  {
    var n := p.numCylinders as real;
    n * 2.0 * p.radiusBottom + (n - 1.0) * p.gap
  }

  /** Half of what the plate has to spare beyond the row: half a bottom radius. */
  function MarginX(p: Params): (r: real)
    ensures r == p.radiusBottom / 2.0
  {
    (TotalWidth(p) - RowWidth(p)) / 2.0
  }

  /** The x coordinate of cylinder i's axis: its footprint starts i steps of
      a diameter and a gap past the half-radius margin. */
  function OffsetX(p: Params, i: nat): (r: real)
    ensures r - p.radiusBottom == p.radiusBottom / 2.0 + (i as real) * (2.0 * p.radiusBottom + p.gap)
  {
    (i as real) * (2.0 * p.radiusBottom + p.gap) + p.radiusBottom + MarginX(p)
  }

  /** The y coordinate of every cylinder's axis: the middle of the plate's
      depth, one and a half bottom radii beyond the footprint on either side. */
  function OffsetY(p: Params): (r: real)
    ensures r - p.radiusBottom == 1.5 * p.radiusBottom && TotalDepth(p) - (r + p.radiusBottom) == 1.5 * p.radiusBottom
  {
    TotalDepth(p) / 2.0
  }

  /** The height at which every cylinder stands: the top of the plate. */
  function OffsetZ(p: Params): real {
    p.baseThickness
  }

  /** The translation applied to cylinder i. */
  function CylinderOffset(p: Params, i: nat): Vec3 {
    Vec3(OffsetX(p, i), OffsetY(p), OffsetZ(p))
  }

  /** Each cylinder's bottom footprint, the square of half-side radiusBottom
      round its axis, lies on the plate, and at least half a bottom radius
      from the plate's edges. */
  lemma {:induction false} FootprintOnPlate(p: Params, i: nat)
    requires 0.0 <= p.radiusBottom && 0.0 <= p.gap
    requires i < p.numCylinders
    ensures p.radiusBottom / 2.0 <= OffsetX(p, i) - p.radiusBottom
    ensures OffsetX(p, i) + p.radiusBottom <= TotalWidth(p) - p.radiusBottom / 2.0
    ensures 0.0 <= OffsetY(p) - p.radiusBottom
    ensures OffsetY(p) + p.radiusBottom <= TotalDepth(p)
  {
    var step := 2.0 * p.radiusBottom + p.gap;
    var last := (p.numCylinders - 1) as real;
    assert 0.0 <= (i as real) * step by {
      assert 0.0 <= i as real && 0.0 <= step;
    }
    assert (i as real) * step <= last * step by {
      assert (last - i as real) * step >= 0.0;
    }
  }

  /** The row is centred: the first footprint starts, and the last ends, half a
      bottom radius from the plate's edges. */
  lemma RowCentred(p: Params)
    requires p.numCylinders >= 1
    ensures OffsetX(p, 0) - p.radiusBottom == p.radiusBottom / 2.0
    ensures TotalWidth(p) - (OffsetX(p, p.numCylinders - 1) + p.radiusBottom) == p.radiusBottom / 2.0
  {
  }

  /** Neighbouring axes are a bottom diameter plus the gap apart, so
      neighbouring footprints are exactly the gap apart. */
  lemma Spacing(p: Params, i: nat)
    ensures OffsetX(p, i + 1) - OffsetX(p, i) == 2.0 * p.radiusBottom + p.gap
    ensures (OffsetX(p, i + 1) - p.radiusBottom) - (OffsetX(p, i) + p.radiusBottom) == p.gap
  {
  }

  /** With the program's own values the plate is 48.2 by 13.0, the margin is
      1.3 and the first cylinder's axis is at x = 3.9. */
  lemma DefaultDimensions()
    ensures TotalWidth(DEFAULT) == 48.2 && TotalDepth(DEFAULT) == 13.0
    ensures RowWidth(DEFAULT) == 45.6 && MarginX(DEFAULT) == 1.3
    ensures OffsetX(DEFAULT, 0) == 3.9 && OffsetX(DEFAULT, 2) == 44.3 && OffsetY(DEFAULT) == 6.5
  {
  }
}

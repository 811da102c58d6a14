/** `split_geometry`: choose a cut line through the middle of the bounding box,
    across its longer side, and hand it to the geometry library's split
    primitive, absorbing any failure of that primitive. */
module Bisector {
  import opened Geometries

  /** The two-point cut line: a vertical segment at `x` from `fromY` to `toY`,
      or a horizontal one at `y` from `fromX` to `toX`. */
  datatype Cut =
    | Vertical(x: real, fromY: real, toY: real)
    | Horizontal(y: real, fromX: real, toX: real)

  /** What the split primitive can do: raise, return a single geometry, or
      return a collection whose parts are listed in order. */
  datatype SplitOutcome =
    | Raised
    | Piece(geometry: Geometry)
    | Pieces(geometries: seq<Geometry>)

  /** The split primitive, whose geometry is not modelled. */
  type Splitter = (Geometry, Cut) -> SplitOutcome

  /** The cut for a bounding box. Ties between width and height go to the
      vertical cut. The cut crosses the whole box and halves its longer side
      (the wider axis when the box is square). */
  function CutLine(b: Box): (c: Cut)
    ensures c.Vertical? <==> b.maxX - b.minX >= b.maxY - b.minY
    ensures c.Vertical? ==> c.x - b.minX == b.maxX - c.x && c.fromY == b.minY && c.toY == b.maxY
    ensures c.Horizontal? ==> c.y - b.minY == b.maxY - c.y && c.fromX == b.minX && c.toX == b.maxX
  {
    var dx := b.maxX - b.minX;
    var dy := b.maxY - b.minY;
    if dx >= dy then Vertical((b.minX + b.maxX) / 2.0, b.minY, b.maxY)
    else Horizontal((b.minY + b.maxY) / 2.0, b.minX, b.maxX)
  }

  /** The longer side of a box. */
  function Extent(b: Box): real
  {
    Max(b.maxX - b.minX, b.maxY - b.minY)
  }

  /** The two halves of a box on either side of its cut line. */
  function Halves(b: Box): (Box, Box)
  {
    match CutLine(b)
    case Vertical(x, _, _) => (Box(b.minX, b.minY, x, b.maxY), Box(x, b.minY, b.maxX, b.maxY))
    case Horizontal(y, _, _) => (Box(b.minX, b.minY, b.maxX, y), Box(b.minX, y, b.maxX, b.maxY))
  }

  /** Cutting across the longer side leaves two halves of half the area whose
      longer sides are no longer than the box's: the cut never makes the pieces'
      boxes grow in either direction. */
  lemma CutHalvesBox(b: Box)
    requires b.minX <= b.maxX && b.minY <= b.maxY
    ensures var (l, r) := Halves(b);
      && (l.maxX - l.minX) * (l.maxY - l.minY) == (b.maxX - b.minX) * (b.maxY - b.minY) / 2.0
      && (r.maxX - r.minX) * (r.maxY - r.minY) == (b.maxX - b.minX) * (b.maxY - b.minY) / 2.0
      && Extent(l) <= Extent(b) && Extent(r) <= Extent(b)
  {
  }

  /** The cut line `split_geometry` uses for a non-empty geometry. */
  function CutFor(g: Geometry): Cut
    requires !IsEmpty(g)
  {
    CutLine(Bounds(g))
  }

  /** `split_geometry`: the parts of `g` along its cut line. The primitive's
      failure never escapes: it yields `[g]` unchanged. A collection yields its
      parts in order; a single geometry is wrapped in a one-element list. So the
      result has one element exactly when the primitive failed, returned a
      single geometry, or returned a one-part collection. */
  function Bisect(split: Splitter, g: Geometry): (parts: seq<Geometry>)
    requires !IsEmpty(g)
    ensures split(g, CutFor(g)).Raised? ==> parts == [g]
    ensures split(g, CutFor(g)).Piece? ==> parts == [split(g, CutFor(g)).geometry]
    ensures split(g, CutFor(g)).Pieces? ==> parts == split(g, CutFor(g)).geometries
    ensures |parts| == 1 <==> !split(g, CutFor(g)).Pieces? || |split(g, CutFor(g)).geometries| == 1
  {
    match split(g, CutFor(g))
    case Raised => [g]
    case Piece(p) => [p]
    case Pieces(ps) => ps
  }
}

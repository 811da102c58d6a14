/** Geometry values, their emptiness, their bounding box and the vertex count
    (`count_vertices`). Coordinates are modelled as exact reals. */
module Geometries {

  /** A 2-D coordinate pair. */
  datatype Coord = Coord(x: real, y: real)

  /** A ring is its coordinate sequence as the geometry library stores it,
      the closing duplicate of the first coordinate included. */
  type Ring = seq<Coord>

  /** One exterior ring (the shell) followed by its interior rings (holes). */
  datatype Polygon = Polygon(exterior: Ring, interiors: seq<Ring>)

  /** The geometry kinds the splitter distinguishes. `Other` stands for every
      other kind (points, lines, collections) and carries its coordinates. */
  datatype Geometry =
    | Poly(polygon: Polygon)
    | MultiPoly(polygons: seq<Polygon>)
    | Other(coords: seq<Coord>)

  /** The shells of a sequence of polygons, concatenated in order. */
  function Shells(ps: seq<Polygon>): seq<Coord>
  {
    if ps == [] then [] else ps[0].exterior + Shells(ps[1..])
  }

  /** The coordinates that decide emptiness and the bounding box: a polygon is
      empty exactly when its shell is, and its envelope is its shell's. */
  function Outline(g: Geometry): seq<Coord>
  {
    match g
    case Poly(p) => p.exterior
    case MultiPoly(ps) => Shells(ps)
    case Other(cs) => cs
  }

  predicate IsEmpty(g: Geometry)
  {
    Outline(g) == []
  }

  /** Total length of a sequence of rings. */
  function RingsCount(rings: seq<Ring>): nat
  {
    if rings == [] then 0 else |rings[0]| + RingsCount(rings[1..])
  }

  /** Sum of the counts of the polygons, each taken as a geometry of its own,
      in order. */
  function PolygonsCount(ps: seq<Polygon>): nat
    decreases |ps|
  {
    if ps == [] then 0 else Count(Poly(ps[0])) + PolygonsCount(ps[1..])
  }

  /** `count_vertices`: 0 for an empty geometry, the ring lengths for a polygon,
      the per-polygon counts summed for a multipolygon, 0 for any other kind. */
  function Count(g: Geometry): nat
    decreases if g.MultiPoly? then |g.polygons| + 1 else 0
  {
    if IsEmpty(g) then 0
    else
      match g
      case Poly(p) => RingsCount([p.exterior] + p.interiors)
      case MultiPoly(ps) => PolygonsCount(ps)
      case Other(_) => 0
  }

  /** All coordinates of a sequence of rings, concatenated in order. */
  function Flatten(rings: seq<Ring>): seq<Coord>
  {
    if rings == [] then [] else rings[0] + Flatten(rings[1..])
  }

  lemma {:induction false} RingsCountIsFlattenLength(rings: seq<Ring>)
    ensures RingsCount(rings) == |Flatten(rings)|
  {
    if rings != [] {
      RingsCountIsFlattenLength(rings[1..]);
    }
  }

  /** A polygon's count is the number of coordinates of its shell followed by
      its holes, every closing duplicate included; an empty polygon counts 0. */
  lemma PolygonCountIsCoordinateTotal(p: Polygon)
    ensures p.exterior == [] ==> Count(Poly(p)) == 0
    ensures p.exterior != [] ==> Count(Poly(p)) == |p.exterior + Flatten(p.interiors)|
  {
    var rings := [p.exterior] + p.interiors;
    assert rings[0] == p.exterior && rings[1..] == p.interiors;
    RingsCountIsFlattenLength(p.interiors);
  }

  lemma {:induction false} EmptyShellsCountZero(ps: seq<Polygon>)
    requires Shells(ps) == []
    ensures PolygonsCount(ps) == 0
  {
    if ps != [] {
      EmptyShellsCountZero(ps[1..]);
    }
  }

  /** A multipolygon counts the sum of its polygons' counts; its own emptiness
      test never changes the total. */
  lemma MultiPolygonCountIsSum(ps: seq<Polygon>)
    ensures Count(MultiPoly(ps)) == PolygonsCount(ps)
  {
    if Shells(ps) == [] {
      EmptyShellsCountZero(ps);
    }
  }

  lemma {:induction false} PolygonsCountAppend(ps: seq<Polygon>, qs: seq<Polygon>)
    ensures PolygonsCount(ps + qs) == PolygonsCount(ps) + PolygonsCount(qs)
  {
    if ps != [] {
      assert (ps + qs)[0] == ps[0] && (ps + qs)[1..] == ps[1..] + qs;
      PolygonsCountAppend(ps[1..], qs);
    } else {
      assert ps + qs == qs;
    }
  }

  /** Additivity: the count of a multipolygon is the sum of the counts of any
      split of its polygon list, and a one-polygon multipolygon counts as that
      polygon does. */
  lemma MultiPolygonAdditive(ps: seq<Polygon>, qs: seq<Polygon>)
    ensures Count(MultiPoly(ps + qs)) == Count(MultiPoly(ps)) + Count(MultiPoly(qs))
  {
    MultiPolygonCountIsSum(ps + qs);
    MultiPolygonCountIsSum(ps);
    MultiPolygonCountIsSum(qs);
    PolygonsCountAppend(ps, qs);
  }

  lemma MultiPolygonOfOne(p: Polygon)
    ensures Count(MultiPoly([p])) == Count(Poly(p))
  {
    MultiPolygonCountIsSum([p]);
    PolygonCountIsCoordinateTotal(p);
  }

  lemma {:induction false} PositivePolygonsCount(ps: seq<Polygon>)
    requires Shells(ps) != []
    ensures PolygonsCount(ps) > 0
  {
    if ps[0].exterior == [] {
      PositivePolygonsCount(ps[1..]);
    } else {
      PolygonCountIsCoordinateTotal(ps[0]);
    }
  }

  /** For polygons and multipolygons the count is zero exactly when the
      geometry is empty; any other kind counts zero whatever it holds. */
  lemma CountZeroIff(g: Geometry)
    ensures g.Other? ==> Count(g) == 0
    ensures !g.Other? ==> (Count(g) == 0 <==> IsEmpty(g))
  {
    match g
    case Poly(p) =>
      PolygonCountIsCoordinateTotal(p);
    case MultiPoly(ps) =>
      if !IsEmpty(g) {
        PositivePolygonsCount(ps);
      }
    case Other(_) =>
  }

  /** An axis-aligned bounding box (minx, miny, maxx, maxy). */
  datatype Box = Box(minX: real, minY: real, maxX: real, maxY: real)
  {
    predicate Contains(c: Coord)
    {
      minX <= c.x <= maxX && minY <= c.y <= maxY
    }
  }

  function Min(a: real, b: real): real { if a <= b then a else b }
  function Max(a: real, b: real): real { if a <= b then b else a }

  /** The box spanned by the coordinates: it holds every one of them (the
      smallest such box, as `EnvelopeIsTight` shows). */
  function Envelope(cs: seq<Coord>): (b: Box)
    requires cs != []
    ensures b.minX <= b.maxX && b.minY <= b.maxY
    ensures forall c :: c in cs ==> b.Contains(c)
  {
    var c := cs[0];
    if |cs| == 1 then
      Box(c.x, c.y, c.x, c.y)
    else
      var t := Envelope(cs[1..]);
      assert forall d :: d in cs <==> d == c || d in cs[1..];
      Box(Min(c.x, t.minX), Min(c.y, t.minY), Max(c.x, t.maxX), Max(c.y, t.maxY))
  }

  /** Each side of the envelope is touched by one of the coordinates, so no
      smaller box holds them all. */
  lemma {:induction false} EnvelopeIsTight(cs: seq<Coord>)
    requires cs != []
    ensures exists c :: c in cs && c.x == Envelope(cs).minX
    ensures exists c :: c in cs && c.x == Envelope(cs).maxX
    ensures exists c :: c in cs && c.y == Envelope(cs).minY
    ensures exists c :: c in cs && c.y == Envelope(cs).maxY
  {
    var c, b := cs[0], Envelope(cs);
    assert c in cs;
    if |cs| > 1 {
      var rest := cs[1..];
      var e := Envelope(rest);
      EnvelopeIsTight(rest);
      assert b == Box(Min(c.x, e.minX), Min(c.y, e.minY), Max(c.x, e.maxX), Max(c.y, e.maxY));
      var w0 :| w0 in rest && w0.x == e.minX;
      var w1 :| w1 in rest && w1.x == e.maxX;
      var w2 :| w2 in rest && w2.y == e.minY;
      var w3 :| w3 in rest && w3.y == e.maxY;
      assert w0 in cs && w1 in cs && w2 in cs && w3 in cs;
    }
  }

  /** `geometry.bounds` of a non-empty geometry. */
  function Bounds(g: Geometry): (b: Box)
    requires !IsEmpty(g)
    ensures forall c :: c in Outline(g) ==> b.Contains(c)
  {
    Envelope(Outline(g))
  }
}

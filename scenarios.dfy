/** Concrete inputs: a triangle, a 10 by 10 square and empty geometries. */
module Scenarios {
  import opened Geometries
  import opened Bisector
  import opened Splitting

  /** A triangle: three vertices and the closing duplicate. */
  function Triangle(): Geometry
  {
    Poly(Polygon([Coord(0.0, 0.0), Coord(4.0, 0.0), Coord(0.0, 3.0), Coord(0.0, 0.0)], []))
  }

  /** The square with corners (0,0), (0,10), (10,10), (10,0), closed. */
  function Square(): Geometry
  {
    Poly(Polygon([Coord(0.0, 0.0), Coord(0.0, 10.0), Coord(10.0, 10.0), Coord(10.0, 0.0), Coord(0.0, 0.0)], []))
  }

  /** The closing duplicate counts: the triangle has count 4, and with a bound
      of 10 it comes back alone and unchanged, whatever the primitive does. */
  lemma TriangleIsKept(split: Splitter, rank: Geometry -> nat)
    requires Shrinks(split, rank, 10)
    ensures Count(Triangle()) == 4
    ensures Fragments(split, rank, 10, Triangle()) == [Triangle()]
  {
    PolygonCountIsCoordinateTotal(Triangle().polygon);
  }

  /** The square counts 5; its box is 10 by 10, a tie, so the cut is the
      vertical line x = 5 running from y = 0 to y = 10. */
  lemma SquareCutsVertically()
    ensures Count(Square()) == 5
    ensures !IsEmpty(Square()) && CutFor(Square()) == Vertical(5.0, 0.0, 10.0)
  {
    PolygonCountIsCoordinateTotal(Square().polygon);
    var cs := Outline(Square());
    assert Envelope(cs[4..]) == Box(0.0, 0.0, 0.0, 0.0);
    assert Envelope(cs[3..]) == Box(0.0, 0.0, 10.0, 0.0);
    assert Envelope(cs[2..]) == Box(0.0, 0.0, 10.0, 10.0);
    assert Envelope(cs[1..]) == Box(0.0, 0.0, 10.0, 10.0);
  }

  /** An empty geometry counts 0 whatever its kind, even a polygon that has
      holes but no shell. */
  lemma EmptyOfEveryKind(holes: seq<Ring>)
    ensures Count(Poly(Polygon([], holes))) == 0
    ensures Count(MultiPoly([])) == 0
    ensures Count(MultiPoly([Polygon([], holes)])) == 0
    ensures Count(Other([])) == 0
  {
    assert [Polygon([], holes)][1..] == [];
  }

  /** The termination assumption is met, for instance, by a primitive that
      always raises: nothing is ever pushed. */
  lemma RaisingPrimitiveShrinks(maxVertices: int)
    ensures Shrinks((g, c) => Raised, g => 0, maxVertices)
  {
  }

  /** A primitive that always answers with two empty parts. */
  function TwoEmptyParts(g: Geometry, c: Cut): SplitOutcome
  {
    Pieces([Other([]), Other([])])
  }

  /** The assumption is also met by a primitive whose parts are pushed: with
      the vertex count as rank, every pushed part counts 0, below the oversized
      geometry it replaces. */
  lemma TwoEmptyPartsShrinks(maxVertices: int)
    requires maxVertices >= 0
    ensures Shrinks(TwoEmptyParts, Count, maxVertices)
  {
  }

  /** Under that primitive and a bound of 3, any oversized input is pushed as
      two parts, each kept: the worklist returns both, in order. */
  lemma OversizedInputIsReplaced(g: Geometry)
    requires Count(g) > 3
    ensures Shrinks(TwoEmptyParts, Count, 3)
    ensures Fragments(TwoEmptyParts, Count, 3, g) == [Other([]), Other([])]
  {
    TwoEmptyPartsShrinks(3);
    var e := Other([]);
    var parts := [e, e];
    assert Bisect(TwoEmptyParts, g) == parts;
    assert !Final(TwoEmptyParts, 3, g);
    Step(TwoEmptyParts, Count, 3, g);
    Step(TwoEmptyParts, Count, 3, e);
    assert parts[..1] == [e] && [e][..0] == [];
    Pop(TwoEmptyParts, Count, 3, parts);
    Pop(TwoEmptyParts, Count, 3, [e]);
  }
}

# GeoJSON polygon splitter — verified model of the splitting core

The application splits large polygons into pieces that each have at most a
given number of vertices. This project models its three core functions:

- `count_vertices` is `Geometries.Count`. A polygon counts the coordinate
  sequences of its shell and then of each hole, closing duplicates included.
  A multipolygon sums its polygons. An empty geometry, or any other kind,
  counts 0.
- `split_geometry` is `Bisector.Bisect`. It takes the bounding box
  (`Geometries.Bounds`) and cuts across its longer side, through the middle
  (`Bisector.CutLine`; a square box gets the vertical cut). Then it calls the
  geometry library's split primitive. When the primitive raises, the result is
  the input geometry alone. A collection gives its parts in order. A single
  geometry gives a one-element list.
- `recursive_split` is `Splitting.RecursiveSplit`. It is a `while` loop over a
  LIFO worklist `queue` and a result list `results`, both kept as sequences the
  loop reassigns. It is proved equal to `Splitting.Fragments`, the recursive
  reading of the same algorithm, in which the fragments of the last-pushed
  part come first. The properties are proved about `Fragments`:
  - every fragment is within the bound or bisects into exactly one part;
  - the output is exactly `[input]` if and only if the input is final;
  - nothing is lost unless the primitive answers with an empty collection.

The split primitive is the parameter `split: Splitter`, a function from a
geometry and a cut to `Raised | Piece(g) | Pieces(parts)`. Its geometry is not
modelled.

Termination is not guaranteed by the source: a bisection need not lower the
vertex count, since a square cut in two gives two five-coordinate rectangles.
`Splitting.RecursiveSplit` therefore takes a ghost `rank: Geometry -> nat` and
requires `Shrinks(split, rank, maxVertices)`. This assumption says that every
part pushed in place of an oversized geometry has a smaller rank than that
geometry. It holds when the primitive makes progress under some measure.
`Scenarios.RaisingPrimitiveShrinks` meets it with a primitive that always
raises, so nothing is pushed. `Scenarios.TwoEmptyPartsShrinks` meets it, with
the vertex count as rank, for a primitive whose two parts are pushed, and
`Scenarios.OversizedInputIsReplaced` shows the worklist returning those parts.

One might expect that a geometry is never dropped and that `split_geometry`
never returns an empty list. The code guarantees neither. It returns whatever
the primitive's collection holds. When that collection is empty,
`len(parts) == 1` is false and `extend` pushes nothing, so the geometry
disappears (split_geojson_app.py:43, 55-58; `Splitting.EmptyCollectionDropsGeometry`).
`Splitting.NothingDropped` proves that the output is never empty as long as
the primitive never answers an oversized geometry with an empty collection.

Emptiness and bounds follow the geometry library's conventions. A polygon is
empty exactly when its shell is, and its bounds are its shell's. A
multipolygon is empty when every shell is.

## Model

| member | source | states |
|---|---|---|
| Geometries.PolygonCountIsCoordinateTotal | split_geojson_app.py:20-23 | a polygon's count is the number of coordinates of its shell followed by all its holes, closing duplicates included; a polygon with an empty shell counts 0 |
| Geometries.RingsCountIsFlattenLength | split_geojson_app.py:23 | summing ring lengths gives the number of coordinates of the rings laid end to end |
| Geometries.MultiPolygonCountIsSum | split_geojson_app.py:20-25 | a multipolygon's count is the sum of the counts of its polygons, each counted as a polygon geometry; the multipolygon's own emptiness test never changes the total |
| Geometries.EmptyShellsCountZero | split_geojson_app.py:24-25 | polygons whose shells are all empty sum to 0 |
| Geometries.PolygonsCountAppend | split_geojson_app.py:25 | the per-polygon sum is additive over concatenation |
| Geometries.MultiPolygonAdditive | split_geojson_app.py:24-25 | the count of a multipolygon is the sum of the counts of the two halves of any split of its polygon list |
| Geometries.MultiPolygonOfOne | split_geojson_app.py:22-25 | a multipolygon of one polygon counts as that polygon |
| Geometries.PositivePolygonsCount | split_geojson_app.py:24-25 | polygons with at least one non-empty shell have a positive count |
| Geometries.CountZeroIff | split_geojson_app.py:19-27 | any other kind counts 0; a polygon or multipolygon counts 0 if and only if it is empty |
| Geometries.Envelope | split_geojson_app.py:30 | the bounding box is ordered and holds every coordinate |
| Geometries.EnvelopeIsTight | split_geojson_app.py:30 | each side of the bounding box is touched by a coordinate, so it is the smallest box |
| Geometries.Bounds | split_geojson_app.py:30 | `bounds` of a non-empty geometry holds every coordinate of its outline |
| Bisector.CutLine | split_geojson_app.py:30-37 | the cut is vertical if and only if dx >= dy (ties vertical); a vertical cut sits midway between minx and maxx and runs from miny to maxy; a horizontal one sits midway between miny and maxy and runs from minx to maxx |
| Bisector.CutHalvesBox | split_geojson_app.py:34-37 | the two halves of the box on either side of the cut each have half its area and no longer a longer side |
| Bisector.Bisect | split_geojson_app.py:39-43 | a raising primitive yields exactly `[g]`; a collection yields its parts in order; a single geometry yields a one-element list; the result has one element if and only if the primitive did not return a collection of other than one part |
| Splitting.PartsRankBelow | split_geojson_app.py:54-58 | under the termination assumption, every part pushed in place of a non-final geometry ranks below it |
| Splitting.StackFragmentsAppend | split_geojson_app.py:49-58 | LIFO order: after `extend(parts)` the parts' fragments come out before those of the geometries beneath them |
| Splitting.StackWorkAppend | split_geojson_app.py:49-58 | the iterations a stack takes are the sum of those its blocks take |
| Splitting.RecursiveSplit | split_geojson_app.py:45-59 | the worklist returns exactly the recursive fragments of the input; an input within the bound comes back as `[input]`; every result is within the bound or bisects into exactly one part |
| Splitting.FragmentsAreFinal | split_geojson_app.py:51-56 | bound satisfaction: every fragment has count <= the bound or is a geometry whose bisection gave exactly one part |
| Splitting.StackFragmentsAreFinal | split_geojson_app.py:49-58 | the same for everything a whole worklist emits |
| Splitting.FragmentsRank | split_geojson_app.py:51-58 | no fragment outranks its source, and a split geometry's fragments all rank strictly below it |
| Splitting.StackFragmentsRank | split_geojson_app.py:49-58 | everything a worklist emits ranks below the stack's height |
| Splitting.KeptIffFinal | split_geojson_app.py:51-56 | the output is exactly `[g]` if and only if g is within the bound or bisects into one part; in the one-part case the original geometry is kept, not the returned part |
| Splitting.NothingDropped | split_geojson_app.py:54-58 | if the primitive never answers an oversized geometry with an empty collection, the output is never empty |
| Splitting.EmptyCollectionDropsGeometry | split_geojson_app.py:54-58 | an oversized geometry answered with an empty collection leaves no fragment |
| Scenarios.TriangleIsKept | split_geojson_app.py:45-52 | a closed triangle counts 4 and with bound 10 comes back as `[triangle]` |
| Scenarios.SquareCutsVertically | split_geojson_app.py:19-37 | the closed 10 by 10 square counts 5 and is cut vertically at x = 5 from y = 0 to y = 10 |
| Scenarios.EmptyOfEveryKind | split_geojson_app.py:19-27 | an empty polygon (even one with holes), an empty multipolygon and an empty other geometry count 0 |
| Scenarios.RaisingPrimitiveShrinks | split_geojson_app.py:39-42 | a primitive that always raises meets the termination assumption |
| Scenarios.TwoEmptyPartsShrinks | split_geojson_app.py:54-58 | a primitive that always returns two empty parts meets the termination assumption with the vertex count as rank, although its parts are pushed |
| Scenarios.OversizedInputIsReplaced | split_geojson_app.py:45-59 | with that primitive and bound 3, any input counting more than 3 is replaced by the two parts, both kept, in order |

## Left out

- The Streamlit page, slider, button, progress bar and messages (split_geojson_app.py:15-16, 77-135): user interface and session state.
- `plot_geojson` and the folium map (split_geojson_app.py:61-74): visualisation.
- File upload, `gpd.read_file`, temporary files, GeoJSON output and zip packaging: input and output.
- The winding normalisation `rewind` applied to each fragment: a foreign call implementing the winding rule of section 3.1.6 of RFC 7946.
- The geometry of the Shapely `split` primitive: it is the uninterpreted parameter `split`. Coverage and area conservation of the fragments depend on it and on floating-point tolerance, so they are not stated.
- Floating point: coordinates, midpoints and box sides are exact reals, so rounding and NaN are not modelled.
- Bisector.Bisect: requires a non-empty geometry. The bounds of an empty geometry are NaN in Shapely 2 and an empty tuple, whose unpacking raises outside the `try`, in Shapely 1. `RecursiveSplit` never bisects an empty geometry when the bound is at least 0.
- Splitting.RecursiveSplit: requires `maxVertices >= 0`. The callers pass 256 by default and 50 to 1000 from the slider. A negative bound, which would send empty geometries to the bisector, is not modelled.
- Splitting.RecursiveSplit: requires the termination assumption `Shrinks` with a ghost `rank`. The source has no such guarantee and can loop forever if the primitive keeps returning two or more parts that do not get smaller.
- Geometry kinds other than Polygon and MultiPolygon are one case, `Other`, carrying its coordinates. An empty geometry is a polygon with an empty shell, a multipolygon whose shells are all empty, or `Other([])`; there is no separate empty constructor.

/**
 * The query builder (`create_query`): the request handed to the map-matching
 * engine's trace-attributes operation, before it is serialised to JSON.
 */
module MatchQuery {
  import opened Wrappers

  /** One element of the request's `shape`: `{"lat": ..., "lon": ...}`. */
  datatype ShapePoint = ShapePoint(lat: real, lon: real)

  /** The request's `filters` object: which response attributes to keep or drop. */
  datatype Filters = Filters(attributes: seq<string>, action: string)

  /** The request: the keys `costing`, `shape_match`, `filters` and `shape`. */
  datatype Query = Query(costing: string, shapeMatch: string, filters: Filters, shape: seq<ShapePoint>)

  /** `pt[0]` or `pt[1]` raised `IndexError`: this trace entry has fewer than two numbers. */
  datatype QueryError = IndexOutOfRange(coordinate: nat)

  const DefaultCosting: string := "auto"
  const DefaultShapeMatch: string := "walk_or_snap"

  /** The response attributes the request asks for, in the order it lists them. */
  const MatchedAttributes: seq<string> := [
    "matched.point",
    "matched.type",
    "matched.edge_index",
    "matched.distance_along_edge",
    "matched.distance_from_trace_point"
  ]

  const IncludeAction: string := "include"

  /**
   * The `shape` comprehension: each entry's first number is the latitude and
   * its second the longitude; further numbers are ignored. The first entry
   * with fewer than two numbers stops it.
   */
  function Shape(coords: seq<seq<real>>): (r: Result<seq<ShapePoint>, QueryError>)
    ensures r.Ok? <==> forall i :: 0 <= i < |coords| ==> |coords[i]| >= 2
    ensures r.Ok? ==>
              && |r.value| == |coords|
              && forall i :: 0 <= i < |coords| ==> r.value[i] == ShapePoint(coords[i][0], coords[i][1])
    ensures r.Err? ==>
              && r.error.coordinate < |coords|
              && |coords[r.error.coordinate]| < 2
              && forall j :: 0 <= j < r.error.coordinate ==> |coords[j]| >= 2
    decreases |coords|
  {
    if coords == [] then Ok([])
    else if |coords[0]| < 2 then Err(IndexOutOfRange(0))
    else
      match Shape(coords[1..])
      case Err(IndexOutOfRange(i)) => Err(IndexOutOfRange(i + 1))
      case Ok(rest) => Ok([ShapePoint(coords[0][0], coords[0][1])] + rest)
  }

  /** `create_query(coords, costing="auto", shape_match="walk_or_snap")`. */
  function CreateQuery(coords: seq<seq<real>>, costing: string := DefaultCosting,
                       shapeMatch: string := DefaultShapeMatch): Result<Query, QueryError>
  {
    match Shape(coords)
    case Err(e) => Err(e)
    case Ok(shape) => Ok(Query(costing, shapeMatch, Filters(MatchedAttributes, IncludeAction), shape))
  }

  /** The trace a request's `shape` describes, as `[lat, lon]` pairs. */
  function ShapeCoordinates(shape: seq<ShapePoint>): (coords: seq<seq<real>>)
    ensures |coords| == |shape|
  {
    seq(|shape|, i requires 0 <= i < |shape| => [shape[i].lat, shape[i].lon])
  }

  /**
   * The request is built exactly when every entry has at least two numbers;
   * its `shape` then has one point per entry, in trace order, taken from the
   * entry's first two numbers. Otherwise the error names the first entry that
   * is too short.
   */
  lemma CreateQueryShape(coords: seq<seq<real>>, costing: string, shapeMatch: string)
    ensures CreateQuery(coords, costing, shapeMatch).Ok? <==> forall i :: 0 <= i < |coords| ==> |coords[i]| >= 2
    ensures CreateQuery(coords, costing, shapeMatch).Ok? ==>
              var shape := CreateQuery(coords, costing, shapeMatch).value.shape;
              && |shape| == |coords|
              && forall i :: 0 <= i < |coords| ==> shape[i].lat == coords[i][0] && shape[i].lon == coords[i][1]
    ensures CreateQuery(coords, costing, shapeMatch).Err? ==>
              var i := CreateQuery(coords, costing, shapeMatch).error.coordinate;
              && i < |coords| && |coords[i]| < 2
              && forall j :: 0 <= j < i ==> |coords[j]| >= 2
  {
  }

  /**
   * `costing` and `shape_match` are passed through unchanged, and `filters`
   * is the same whatever the input: the five matched-point attributes, in
   * order, with action "include".
   */
  lemma CreateQueryFixedParts(coords: seq<seq<real>>, costing: string, shapeMatch: string)
    requires CreateQuery(coords, costing, shapeMatch).Ok?
    ensures var q := CreateQuery(coords, costing, shapeMatch).value;
      && q.costing == costing
      && q.shapeMatch == shapeMatch
      && q.filters.action == "include"
      && q.filters.attributes == ["matched.point", "matched.type", "matched.edge_index",
                                  "matched.distance_along_edge", "matched.distance_from_trace_point"]
  {
  }

  /** Without explicit parameters the request asks for car costing and walk-or-snap matching. */
  lemma CreateQueryDefaults(coords: seq<seq<real>>)
    requires CreateQuery(coords).Ok?
    ensures CreateQuery(coords).value.costing == "auto"
    ensures CreateQuery(coords).value.shapeMatch == "walk_or_snap"
  {
  }

  /** Two requests built from any two traces with any parameters carry the same filters. */
  lemma FiltersIndependentOfInput(c1: seq<seq<real>>, k1: string, m1: string,
                                  c2: seq<seq<real>>, k2: string, m2: string)
    requires CreateQuery(c1, k1, m1).Ok? && CreateQuery(c2, k2, m2).Ok?
    ensures CreateQuery(c1, k1, m1).value.filters == CreateQuery(c2, k2, m2).value.filters
    ensures |CreateQuery(c1, k1, m1).value.filters.attributes| == 5
  {
  }

  /**
   * Reading the pairs back out of the request's `shape` gives each entry's
   * first two numbers, in order; for a trace of pairs it gives the trace back.
   */
  lemma ShapeRoundTrip(coords: seq<seq<real>>, costing: string, shapeMatch: string)
    requires CreateQuery(coords, costing, shapeMatch).Ok?
    ensures ShapeCoordinates(CreateQuery(coords, costing, shapeMatch).value.shape)
            == seq(|coords|, i requires 0 <= i < |coords| && |coords[i]| >= 2 => coords[i][..2])
    ensures (forall i :: 0 <= i < |coords| ==> |coords[i]| == 2) ==>
              ShapeCoordinates(CreateQuery(coords, costing, shapeMatch).value.shape) == coords
  {
    var back := ShapeCoordinates(CreateQuery(coords, costing, shapeMatch).value.shape);
    forall i | 0 <= i < |coords|
      ensures back[i] == coords[i][..2]
    {
      assert coords[i][..2] == [coords[i][0], coords[i][1]];
    }
    if forall i :: 0 <= i < |coords| ==> |coords[i]| == 2 {
      forall i | 0 <= i < |coords|
        ensures back[i] == coords[i]
      {
        assert coords[i][..2] == coords[i];
      }
    }
  }
}

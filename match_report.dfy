/**
 * The result parser (`parse_response`): walks the engine's `matched_points`,
 * drops the points the engine could not match, keeps one six-column row per
 * remaining point and reports the share of points that were matched.
 */
module MatchReport {
  import opened Wrappers

  /** One element of the response's `matched_points`. */
  datatype MatchedPoint = MatchedPoint(
    kind: string,                    // "type": "matched", "interpolated" or "unmatched"
    lon: real,
    lat: real,
    edgeIndex: int,
    distanceAlongEdge: real,
    distanceFromTracePoint: real)

  /** The part of the engine's response that is read. */
  datatype Response = Response(matchedPoints: seq<MatchedPoint>)

  /** One cell of the output table. */
  datatype Cell = RealCell(r: real) | IntCell(i: int) | TextCell(s: string)

  /** One row of the output table, one cell per column. */
  type Row = seq<Cell>

  /** The output table: its column names and its rows, in order. */
  datatype Table = Table(columns: seq<string>, rows: seq<Row>)

  /** What `parse_response` produces: the table it returns and the accuracy it prints. */
  datatype Report = Report(table: Table, accuracy: real)

  /** `n_matched / n_pts` raised `ZeroDivisionError`: the response had no points. */
  datatype ReportError = ZeroDivision

  const Unmatched: string := "unmatched"

  /** The column names of the output table, in order. */
  const Columns: seq<string> := ["mm_lon", "mm_lat", "edge_id", "pos", "dev", "type"]

  /** The row kept for a point: its longitude, latitude, edge index, position along the edge, deviation and type. */
  function ToRow(pt: MatchedPoint): (row: Row)
    ensures |row| == |Columns|
  {
    [RealCell(pt.lon), RealCell(pt.lat), IntCell(pt.edgeIndex),
     RealCell(pt.distanceAlongEdge), RealCell(pt.distanceFromTracePoint), TextCell(pt.kind)]
  }

  /** The points that get a row, in response order: those whose type is not "unmatched". */
  function Kept(points: seq<MatchedPoint>): (kept: seq<MatchedPoint>)
    decreases |points|
  {
    if points == [] then []
    else
      var last := points[|points| - 1];
      Kept(points[..|points| - 1]) + (if last.kind == Unmatched then [] else [last])
  }

  /** The rows for a sequence of points, one each, in order. */
  function Rows(points: seq<MatchedPoint>): (rows: seq<Row>)
    ensures |rows| == |points|
    ensures forall k :: 0 <= k < |points| ==> rows[k] == ToRow(points[k])
  {
    seq(|points|, k requires 0 <= k < |points| => ToRow(points[k]))
  }

  /** The share of points that were matched; the response must have a point. */
  function Accuracy(points: seq<MatchedPoint>): real
    requires |points| > 0
  {
    |Kept(points)| as real / |points| as real
  }

  /**
   * The loop of `parse_response`: it counts every point, skips the unmatched
   * ones and appends a row for each other one, counting those too.
   */
  method ScanMatchedPoints(points: seq<MatchedPoint>) returns (trip: seq<Row>, nMatched: nat, nPts: nat)
    ensures nPts == |points|
    ensures trip == Rows(Kept(points))
    ensures nMatched == |trip| <= nPts
  {
    trip, nMatched, nPts := [], 0, 0;
    while nPts < |points|
      invariant nPts <= |points|
      invariant trip == Rows(Kept(points[..nPts]))
      invariant nMatched == |trip| <= nPts
    {
      var pt := points[nPts];
      assert points[..nPts + 1][..nPts] == points[..nPts];
      nPts := nPts + 1;
      if pt.kind == Unmatched {
        continue;
      }
      trip := trip + [ToRow(pt)];
      nMatched := nMatched + 1;
    }
    assert points[..nPts] == points;
  }

  /** `parse_response`: the table of kept rows and the printed accuracy, or the division by zero of an empty response. */
  method ParseResponse(matched: Response) returns (r: Result<Report, ReportError>)
    ensures r.Err? <==> matched.matchedPoints == []
    ensures r.Ok? ==>
              && r.value.table == Table(Columns, Rows(Kept(matched.matchedPoints)))
              && r.value.accuracy == Accuracy(matched.matchedPoints)
  {
    var trip, nMatched, nPts := ScanMatchedPoints(matched.matchedPoints);
    if nPts == 0 {
      return Err(ZeroDivision);
    }
    var accuracy := nMatched as real / nPts as real;
    return Ok(Report(Table(Columns, trip), accuracy));
  }

  /** The positions in the response of the points that get a row, in order. */
  function KeptIndices(points: seq<MatchedPoint>): seq<nat>
    decreases |points|
  {
    if points == [] then []
    else
      var n := |points| - 1;
      KeptIndices(points[..n]) + (if points[n].kind == Unmatched then [] else [n])
  }

  /**
   * The kept points are exactly the points whose type is not "unmatched",
   * each once, in their original relative order: the k-th kept point is the
   * point at the k-th of a strictly increasing run of positions, and a
   * position is in that run exactly when its point is not "unmatched".
   */
  lemma {:induction false} KeptIsExactSelection(points: seq<MatchedPoint>)
    ensures var kept, idx := Kept(points), KeptIndices(points);
      && |idx| == |kept|
      && (forall k :: 0 <= k < |idx| ==> idx[k] < |points| && kept[k] == points[idx[k]])
      && (forall k1, k2 :: 0 <= k1 < k2 < |idx| ==> idx[k1] < idx[k2])
      && (forall j :: 0 <= j < |points| ==> (points[j].kind != Unmatched <==> j in idx))
  {
    KeptIndicesSelect(points);
    KeptIndicesIncrease(points);
    KeptIndicesMembers(points);
  }

  lemma {:induction false} KeptIndicesSelect(points: seq<MatchedPoint>)
    ensures |KeptIndices(points)| == |Kept(points)|
    ensures forall k :: 0 <= k < |KeptIndices(points)| ==>
              KeptIndices(points)[k] < |points| && Kept(points)[k] == points[KeptIndices(points)[k]]
    decreases |points|
  {
    if points != [] {
      var n := |points| - 1;
      var init := points[..n];
      KeptIndicesSelect(init);
      assert forall j :: 0 <= j < n ==> init[j] == points[j];
    }
  }

  lemma {:induction false} KeptIndicesIncrease(points: seq<MatchedPoint>)
    ensures forall k :: 0 <= k < |KeptIndices(points)| ==> KeptIndices(points)[k] < |points|
    ensures forall k1, k2 :: 0 <= k1 < k2 < |KeptIndices(points)| ==> KeptIndices(points)[k1] < KeptIndices(points)[k2]
    decreases |points|
  {
    if points != [] {
      var n := |points| - 1;
      KeptIndicesIncrease(points[..n]);
    }
  }

  lemma {:induction false} KeptIndicesMembers(points: seq<MatchedPoint>)
    ensures forall j :: 0 <= j < |points| ==> (points[j].kind != Unmatched <==> j in KeptIndices(points))
    decreases |points|
  {
    if points != [] {
      var n := |points| - 1;
      var init := points[..n];
      KeptIndicesMembers(init);
      KeptIndicesIncrease(init);
      assert forall j :: 0 <= j < n ==> init[j] == points[j];
      assert n !in KeptIndices(init);
    }
  }

  /** No kept point is "unmatched", and there are never more kept points than points. */
  lemma {:induction false} KeptAreMatched(points: seq<MatchedPoint>)
    ensures |Kept(points)| <= |points|
    ensures forall k :: 0 <= k < |Kept(points)| ==> Kept(points)[k].kind != Unmatched
    decreases |points|
  {
    if points != [] {
      KeptAreMatched(points[..|points| - 1]);
    }
  }

  /** Filtering a concatenation filters each part. */
  lemma {:induction false} KeptAppend(a: seq<MatchedPoint>, b: seq<MatchedPoint>)
    ensures Kept(a + b) == Kept(a) + Kept(b)
    decreases |b|
  {
    if b == [] {
      assert a + b == a;
    } else {
      var n := |b| - 1;
      KeptAppend(a, b[..n]);
      assert (a + b)[..|a + b| - 1] == a + b[..n];
      assert (a + b)[|a + b| - 1] == b[n];
    }
  }

  /** Filtering kept points again changes nothing. */
  lemma {:induction false} KeptIdempotent(points: seq<MatchedPoint>)
    ensures Kept(Kept(points)) == Kept(points)
    decreases |points|
  {
    if points != [] {
      var n := |points| - 1;
      var last := points[n];
      KeptIdempotent(points[..n]);
      var tail := if last.kind == Unmatched then [] else [last];
      KeptAppend(Kept(points[..n]), tail);
      if last.kind != Unmatched {
        assert Kept([last]) == Kept([last][..0]) + [last];
      }
    }
  }

  /** Every point is kept exactly when none is "unmatched"; none is kept exactly when all are. */
  lemma {:induction false} KeptCount(points: seq<MatchedPoint>)
    ensures |Kept(points)| == |points| <==> forall j :: 0 <= j < |points| ==> points[j].kind != Unmatched
    ensures |Kept(points)| == 0 <==> forall j :: 0 <= j < |points| ==> points[j].kind == Unmatched
    decreases |points|
  {
    if points != [] {
      var n := |points| - 1;
      KeptCount(points[..n]);
      KeptAreMatched(points[..n]);
      assert forall j :: 0 <= j < n ==> points[..n][j] == points[j];
    }
  }

  /**
   * The printed accuracy lies between 0 and 1; it is 1 exactly when no point
   * is "unmatched" and 0 exactly when every point is.
   */
  lemma AccuracyBounds(points: seq<MatchedPoint>)
    requires |points| > 0
    ensures 0.0 <= Accuracy(points) <= 1.0
    ensures Accuracy(points) == 1.0 <==> forall j :: 0 <= j < |points| ==> points[j].kind != Unmatched
    ensures Accuracy(points) == 0.0 <==> forall j :: 0 <= j < |points| ==> points[j].kind == Unmatched
  {
    KeptAreMatched(points);
    KeptCount(points);
    Ratio(|Kept(points)| as real, |points| as real);
  }

  lemma Ratio(m: real, n: real)
    requires 0.0 <= m <= n && n > 0.0
    ensures 0.0 <= m / n <= 1.0
    ensures m / n == 1.0 <==> m == n
    ensures m / n == 0.0 <==> m == 0.0
  {
  }

  /** The response keys a row's cells are read from, in column order. */
  const RowKeys: seq<string> := ["lon", "lat", "edge_index", "distance_along_edge", "distance_from_trace_point", "type"]

  /** `pt[key]`: a point's value under one of the response's keys. */
  function Field(pt: MatchedPoint, key: string): Option<Cell> {
    match key
    case "type" => Some(TextCell(pt.kind))
    case "lon" => Some(RealCell(pt.lon))
    case "lat" => Some(RealCell(pt.lat))
    case "edge_index" => Some(IntCell(pt.edgeIndex))
    case "distance_along_edge" => Some(RealCell(pt.distanceAlongEdge))
    case "distance_from_trace_point" => Some(RealCell(pt.distanceFromTracePoint))
    case _ => None
  }

  /** The point a full row was made from: the inverse of `ToRow`. */
  function FromRow(row: Row): Option<MatchedPoint> {
    if |row| == 6 && row[0].RealCell? && row[1].RealCell? && row[2].IntCell?
       && row[3].RealCell? && row[4].RealCell? && row[5].TextCell?
    then Some(MatchedPoint(row[5].s, row[0].r, row[1].r, row[2].i, row[3].r, row[4].r))
    else None
  }

  /**
   * Column c of a point's row ("mm_lon", "mm_lat", "edge_id", "pos", "dev",
   * "type") holds that point's value under the c-th of "lon", "lat",
   * "edge_index", "distance_along_edge", "distance_from_trace_point", "type";
   * and the row loses nothing: the point can be read back from it.
   */
  lemma RowLayout(pt: MatchedPoint)
    ensures |ToRow(pt)| == |Columns| == |RowKeys|
    ensures forall c :: 0 <= c < |RowKeys| ==> Field(pt, RowKeys[c]) == Some(ToRow(pt)[c])
    ensures FromRow(ToRow(pt)) == Some(pt)
  {
    forall c | 0 <= c < |RowKeys|
      ensures Field(pt, RowKeys[c]) == Some(ToRow(pt)[c])
    {
      if c == 0 { assert RowKeys[c] == "lon"; }
      else if c == 1 { assert RowKeys[c] == "lat"; }
      else if c == 2 { assert RowKeys[c] == "edge_index"; }
      else if c == 3 { assert RowKeys[c] == "distance_along_edge"; }
      else if c == 4 { assert RowKeys[c] == "distance_from_trace_point"; }
      else { assert RowKeys[c] == "type"; }
    }
  }

  /**
   * Each row of the table comes from a point of the response that is not
   * "unmatched", in response order, and every such point has its row.
   */
  lemma {:induction false} TableRowsFromPoints(points: seq<MatchedPoint>)
    ensures var rows, idx := Rows(Kept(points)), KeptIndices(points);
      && |rows| == |idx|
      && (forall k :: 0 <= k < |rows| ==> idx[k] < |points| && rows[k] == ToRow(points[idx[k]]))
      && (forall j :: 0 <= j < |points| ==> (points[j].kind != Unmatched <==> j in idx))
  {
    KeptIsExactSelection(points);
  }

  /** Three points of which one is "unmatched": two rows, and an accuracy of two thirds. */
  lemma OneUnmatchedOfThree(a: MatchedPoint, b: MatchedPoint, c: MatchedPoint)
    requires a.kind == "matched" && b.kind == "unmatched" && c.kind == "interpolated"
    ensures Rows(Kept([a, b, c])) == [ToRow(a), ToRow(c)]
    ensures Accuracy([a, b, c]) == 2.0 / 3.0
  {
    assert [a, b, c][..2] == [a, b];
    assert [a, b][..1] == [a];
    assert [a][..0] == [];
    assert Kept([a]) == [a];
    assert Kept([a, b]) == [a];
    assert Kept([a, b, c]) == [a, c];
  }
}

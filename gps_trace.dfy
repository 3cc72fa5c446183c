/**
 * The trace loader (`read_gps_data`): a tab-separated text file with one
 * header line, then one GPS fix per line. The first two columns of a fix are
 * ignored; every column from the third on becomes one number of the entry.
 *
 * The file is given as its sequence of lines, and Python's `float` as the
 * partial conversion `parse`: it yields `None` where `float` raises.
 */
module GpsTrace {
  import opened Wrappers
  import opened PyStrings

  const Tab: char := '\t'

  /** One entry of the trace: the numbers of one data line, third column on. */
  type Coordinate = seq<real>

  /** `float(field)` raised `ValueError`; the whole read fails. */
  datatype TraceError = NotANumber(field: string)

  /** The text fields of a data line that become numbers: the stripped line, split on tabs, minus two. */
  function LineFields(line: string): seq<string> {
    var fields := Split(Strip(line), Tab);
    if |fields| < 2 then [] else fields[2..]
  }

  /** The list comprehension converting the fields in order; it stops at the first field `parse` rejects. */
  function ConvertFields(fields: seq<string>, parse: string -> Option<real>): (r: Result<Coordinate, TraceError>)
    ensures r.Ok? <==> forall k :: 0 <= k < |fields| ==> parse(fields[k]).Some?
    ensures r.Ok? ==> |r.value| == |fields| && forall k :: 0 <= k < |fields| ==> parse(fields[k]) == Some(r.value[k])
    decreases |fields|
  {
    if fields == [] then Ok([])
    else
      match parse(fields[0])
      case None => Err(NotANumber(fields[0]))
      case Some(x) =>
        match ConvertFields(fields[1..], parse)
        case Err(e) => Err(e)
        case Ok(rest) => Ok([x] + rest)
  }

  /** A failed conversion names the first field that `parse` rejects. */
  lemma {:induction false} ConvertFieldsError(fields: seq<string>, parse: string -> Option<real>)
    requires ConvertFields(fields, parse).Err?
    ensures exists k :: 0 <= k < |fields| && ConvertFields(fields, parse).error == NotANumber(fields[k])
                        && parse(fields[k]).None? && forall j :: 0 <= j < k ==> parse(fields[j]).Some?
    decreases |fields|
  {
    var e := ConvertFields(fields, parse).error;
    if parse(fields[0]).Some? {
      var tail := fields[1..];
      ConvertFieldsError(tail, parse);
      var k :| 0 <= k < |tail| && e == NotANumber(tail[k]) && parse(tail[k]).None?
               && forall j :: 0 <= j < k ==> parse(tail[j]).Some?;
      assert fields[k + 1] == tail[k];
      assert forall j :: 1 <= j < k + 1 ==> parse(fields[j]) == parse(tail[j - 1]);
    }
  }

  /** The text fields of each data line, in file order. */
  function FieldRows(data: seq<string>): (rows: seq<seq<string>>)
    ensures |rows| == |data|
  {
    seq(|data|, i requires 0 <= i < |data| => LineFields(data[i]))
  }

  /** The entries of the data lines, in file order; the first line that fails ends the read. */
  function ConvertRows(rows: seq<seq<string>>, parse: string -> Option<real>): (r: Result<seq<Coordinate>, TraceError>)
    ensures r.Ok? <==> forall i :: 0 <= i < |rows| ==> ConvertFields(rows[i], parse).Ok?
    ensures r.Ok? ==> |r.value| == |rows| && forall i :: 0 <= i < |rows| ==> ConvertFields(rows[i], parse) == Ok(r.value[i])
    decreases |rows|
  {
    if rows == [] then Ok([])
    else
      match ConvertRows(rows[..|rows| - 1], parse)
      case Err(e) => Err(e)
      case Ok(cs) =>
        match ConvertFields(rows[|rows| - 1], parse)
        case Err(e) => Err(e)
        case Ok(c) => Ok(cs + [c])
  }

  /** What `read_gps_data` returns for a file with these lines: the header is dropped, an empty file gives no entries. */
  function ReadTrace(lines: seq<string>, parse: string -> Option<real>): Result<seq<Coordinate>, TraceError> {
    if lines == [] then Ok([]) else ConvertRows(FieldRows(lines[1..]), parse)
  }

  /** Once a line fails, the lines after it are never looked at: the read fails with that line's error. */
  lemma {:induction false} FirstErrorStops(rows: seq<seq<string>>, i: nat, parse: string -> Option<real>)
    requires i < |rows|
    requires ConvertRows(rows[..i], parse).Ok?
    requires ConvertFields(rows[i], parse).Err?
    ensures ConvertRows(rows, parse) == Err(ConvertFields(rows[i], parse).error)
    decreases |rows|
  {
    if i == |rows| - 1 {
      assert rows[..|rows| - 1] == rows[..i];
    } else {
      var init := rows[..|rows| - 1];
      assert init[..i] == rows[..i];
      FirstErrorStops(init, i, parse);
    }
  }

  /** A line that converts appends its entry to those of the lines before it. */
  lemma ConvertRowsExtend(rows: seq<seq<string>>, i: nat, parse: string -> Option<real>)
    requires i < |rows|
    requires ConvertRows(rows[..i], parse).Ok? && ConvertFields(rows[i], parse).Ok?
    ensures ConvertRows(rows[..i + 1], parse)
            == Ok(ConvertRows(rows[..i], parse).value + [ConvertFields(rows[i], parse).value])
  {
    assert rows[..i + 1][..i] == rows[..i];
  }

  /** `read_gps_data`: skip the header, then convert each remaining line and append its entry. */
  method ReadGpsData(lines: seq<string>, parse: string -> Option<real>) returns (r: Result<seq<Coordinate>, TraceError>)
    ensures r == ReadTrace(lines, parse)
  {
    if lines == [] {
      return Ok([]);
    }
    var data := lines[1..];
    ghost var rows := FieldRows(data);
    var coords: seq<Coordinate> := [];
    var i := 0;
    while i < |data|
      invariant 0 <= i <= |data|
      invariant ConvertRows(rows[..i], parse) == Ok(coords)
    {
      var fields := LineFields(data[i]);
      var entry := ConvertFields(fields, parse);
      assert fields == rows[i];
      if entry.Err? {
        FirstErrorStops(rows, i, parse);
        return Err(entry.error);
      }
      ConvertRowsExtend(rows, i, parse);
      coords := coords + [entry.value];
      i := i + 1;
    }
    assert rows[..i] == rows;
    return Ok(coords);
  }

  /** The entry one data line contributes, or the error converting it raises. */
  function ParseLine(line: string, parse: string -> Option<real>): Result<Coordinate, TraceError> {
    ConvertFields(LineFields(line), parse)
  }

  /**
   * An empty file gives no entries. Otherwise a successful read has one entry
   * per line after the header, in file order, and each is that line's own
   * conversion; the read succeeds exactly when every line after the header
   * converts.
   */
  lemma ReadTraceEntries(lines: seq<string>, parse: string -> Option<real>)
    ensures lines == [] ==> ReadTrace(lines, parse) == Ok([])
    ensures ReadTrace(lines, parse).Ok? <==> forall i :: 1 <= i < |lines| ==> ParseLine(lines[i], parse).Ok?
    ensures ReadTrace(lines, parse).Ok? ==>
              && |ReadTrace(lines, parse).value| == (if lines == [] then 0 else |lines| - 1)
              && forall i :: 1 <= i < |lines| ==> ParseLine(lines[i], parse) == Ok(ReadTrace(lines, parse).value[i - 1])
  {
    if lines == [] {
      return;
    }
    var rows := FieldRows(lines[1..]);
    forall i | 1 <= i < |lines|
      ensures rows[i - 1] == LineFields(lines[i])
    {
      assert lines[1..][i - 1] == lines[i];
    }
  }

  /** A failed read reports the first field, on the first failing line, that does not convert. */
  lemma {:induction false} ConvertRowsError(rows: seq<seq<string>>, parse: string -> Option<real>)
    requires ConvertRows(rows, parse).Err?
    ensures exists i :: 0 <= i < |rows| && ConvertFields(rows[i], parse) == Err(ConvertRows(rows, parse).error)
                        && forall j :: 0 <= j < i ==> ConvertFields(rows[j], parse).Ok?
    decreases |rows|
  {
    var n := |rows| - 1;
    var init := rows[..n];
    var e := ConvertRows(rows, parse).error;
    assert forall j :: 0 <= j < n ==> init[j] == rows[j];
    if ConvertRows(init, parse).Err? {
      assert ConvertRows(init, parse).error == e;
      ConvertRowsError(init, parse);
      var i :| 0 <= i < |init| && ConvertFields(init[i], parse) == Err(e)
               && forall j :: 0 <= j < i ==> ConvertFields(init[j], parse).Ok?;
      assert ConvertFields(rows[i], parse) == Err(e);
    } else {
      assert ConvertFields(rows[n], parse) == Err(e);
      assert forall j :: 0 <= j < n ==> ConvertFields(init[j], parse).Ok?;
    }
  }

  /** A line of separator-free fields with only trailing whitespace (the newline) loses exactly its first two fields. */
  lemma LineFieldsOfRecord(fields: seq<string>, eol: string)
    requires |fields| >= 1
    requires forall k :: 0 <= k < |fields| ==> Tab !in fields[k]
    requires Trimmed(Join(fields, Tab)) && AllSpace(eol)
    ensures LineFields(Join(fields, Tab) + eol) == if |fields| < 2 then [] else fields[2..]
  {
    var joined := Join(fields, Tab);
    StripTrailing(joined, eol);
    SplitJoin(fields, Tab);
  }

  /** A line with fewer than three fields gives an empty entry, which always converts. */
  lemma ShortLineGivesEmptyEntry(line: string, parse: string -> Option<real>)
    requires |Split(Strip(line), Tab)| < 3
    ensures LineFields(line) == [] && ConvertFields(LineFields(line), parse) == Ok([])
  {
  }

  /** A fix line whose third and fourth columns convert to `x` and `y` gives the entry `[x, y]`. */
  lemma FixConverts(line: string, a: string, b: string, lat: string, lon: string, eol: string,
                    x: real, y: real, parse: string -> Option<real>)
    requires line == a + [Tab] + b + [Tab] + lat + [Tab] + lon + eol
    requires Tab !in a && Tab !in b && a != [] && !IsSpace(a[0])
    requires Tab !in lat && lon != [] && Tab !in lon && !IsSpace(lon[|lon| - 1]) && AllSpace(eol)
    requires parse(lat) == Some(x) && parse(lon) == Some(y)
    ensures ParseLine(line, parse) == Ok([x, y])
  {
    FixLine(a, b, lat, lon, eol);
    var r := ConvertFields([lat, lon], parse);
    assert r.Ok? && |r.value| == 2;
    assert r.value == [r.value[0], r.value[1]];
  }

  /** A header and three fixes give the trace of their third and fourth columns. */
  lemma ThreeFixExample(header: string, fix1: string, fix2: string, fix3: string, parse: string -> Option<real>)
    requires fix1 == "id" + [Tab] + "t" + [Tab] + "1.0" + [Tab] + "2.0" + "\n"
    requires fix2 == "id" + [Tab] + "t" + [Tab] + "1.1" + [Tab] + "2.1" + "\n"
    requires fix3 == "id" + [Tab] + "t" + [Tab] + "1.2" + [Tab] + "2.2" + "\n"
    requires parse("1.0") == Some(1.0) && parse("2.0") == Some(2.0)
    requires parse("1.1") == Some(1.1) && parse("2.1") == Some(2.1)
    requires parse("1.2") == Some(1.2) && parse("2.2") == Some(2.2)
    ensures ReadTrace([header, fix1, fix2, fix3], parse) == Ok([[1.0, 2.0], [1.1, 2.1], [1.2, 2.2]])
  {
    var lines := [header, fix1, fix2, fix3];
    assert ParseLine(fix1, parse) == Ok([1.0, 2.0]) by {
      FixConverts(fix1, "id", "t", "1.0", "2.0", "\n", 1.0, 2.0, parse);
    }
    assert ParseLine(fix2, parse) == Ok([1.1, 2.1]) by {
      FixConverts(fix2, "id", "t", "1.1", "2.1", "\n", 1.1, 2.1, parse);
    }
    assert ParseLine(fix3, parse) == Ok([1.2, 2.2]) by {
      FixConverts(fix3, "id", "t", "1.2", "2.2", "\n", 1.2, 2.2, parse);
    }
    TraceOfThreeFixes(lines, [1.0, 2.0], [1.1, 2.1], [1.2, 2.2], parse);
  }

  lemma TraceOfThreeFixes(lines: seq<string>, c1: Coordinate, c2: Coordinate, c3: Coordinate,
                          parse: string -> Option<real>)
    requires |lines| == 4
    requires ParseLine(lines[1], parse) == Ok(c1)
    requires ParseLine(lines[2], parse) == Ok(c2)
    requires ParseLine(lines[3], parse) == Ok(c3)
    ensures ReadTrace(lines, parse) == Ok([c1, c2, c3])
  {
    ReadTraceEntries(lines, parse);
    var coords := ReadTrace(lines, parse).value;
    assert coords == [coords[0], coords[1], coords[2]];
  }

  /** A fix line `a<TAB>b<TAB>lat<TAB>lon` with an optional line terminator keeps `[lat, lon]`. */
  lemma FixLine(a: string, b: string, lat: string, lon: string, eol: string)
    requires Tab !in a && Tab !in b && Tab !in lat && Tab !in lon
    requires a != [] && !IsSpace(a[0]) && lon != [] && !IsSpace(lon[|lon| - 1])
    requires AllSpace(eol)
    ensures LineFields(a + [Tab] + b + [Tab] + lat + [Tab] + lon + eol) == [lat, lon]
  {
    var fields := [a, b, lat, lon];
    assert Join([lon], Tab) == lon;
    assert fields[1..][1..][1..] == [lon];
    assert Join([lat, lon], Tab) == lat + [Tab] + lon;
    assert fields[1..][1..] == [lat, lon];
    assert Join([b, lat, lon], Tab) == b + [Tab] + lat + [Tab] + lon;
    assert fields[1..] == [b, lat, lon];
    assert Join(fields, Tab) == a + [Tab] + b + [Tab] + lat + [Tab] + lon;
    LineFieldsOfRecord(fields, eol);
  }

  /**
   * `strip()` also removes tabs, so a line whose first column is empty loses
   * its leading separator: the columns shift left by one and the entry keeps
   * only the fourth column.
   */
  lemma EmptyFirstColumnShifts(b: string, lat: string, lon: string, eol: string)
    requires Tab !in b && Tab !in lat && Tab !in lon
    requires b != [] && !IsSpace(b[0]) && lon != [] && !IsSpace(lon[|lon| - 1])
    requires AllSpace(eol)
    ensures LineFields([Tab] + b + [Tab] + lat + [Tab] + lon + eol) == [lon]
  {
    var fields := [b, lat, lon];
    assert Join([lon], Tab) == lon;
    assert fields[1..][1..] == [lon];
    assert Join([lat, lon], Tab) == lat + [Tab] + lon;
    assert fields[1..] == [lat, lon];
    var joined := Join(fields, Tab);
    assert joined == b + [Tab] + lat + [Tab] + lon;
    var line := [Tab] + b + [Tab] + lat + [Tab] + lon + eol;
    assert Strip(line) == joined by {
      assert AllSpace([Tab]);
      StripPadding([Tab], joined, eol);
      assert [Tab] + joined + eol == line;
    }
    assert Split(joined, Tab) == fields by {
      SplitJoin(fields, Tab);
    }
  }
}

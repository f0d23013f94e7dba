/**
 The two file endpoints, `geocode_file` and `reverse_geocode_file`, from the
 moment the uploaded file has been read into a table to the moment the
 table is written out: the column checks, the new columns and the loop over
 the rows.

 A table is its column names and, per row, a map from column name to cell.
 Every row makes requests of its own, so the HTTP oracles take the row's
 position as well as the request: two rows asking the same thing may be
 answered differently. Reading and writing files, the file extension check
 and the pauses between requests are not part of this model.
 */
module Batch {
  import opened Optional
  import opened Text
  import opened Decimals
  import opened Extract
  import opened Forward
  import opened Reverse

  /** One cell of a table. */
  datatype Cell =
    | Missing              // `None` or NaN: `pd.notna` is false
    | Str(text: string)    // a text
    | Num(repr: string)    // a number read from the file, with the text `str` writes for it
    | Other(repr: string)  // a value of another type, such as a date read from Excel, with its `str`
    | Deg(value: Decimal)  // a coordinate the geocoder found

  type Row = map<string, Cell>

  datatype Table = Table(columns: seq<string>, rows: seq<Row>)

  /** Column names are distinct and every row has a cell in every column
      and nowhere else. */
  ghost predicate WellFormed(t: Table) {
    && (forall i, j :: 0 <= i < j < |t.columns| ==> t.columns[i] != t.columns[j])
    && (forall r :: 0 <= r < |t.rows| ==> (forall c :: c in t.rows[r] <==> c in t.columns))
  }

  /** `str(value)` */
  function CellText(c: Cell): (r: string) {
    match c
    case Missing => "nan"
    case Str(s) => s
    case Num(s) => s
    case Other(s) => s
    case Deg(d) => d.text
  }

  /** `pd.notna(address) and str(address).strip()` */
  predicate HasAddress(c: Cell) {
    !c.Missing? && Strip(CellText(c)) != ""
  }

  /** `df[name] = None`: a new column goes at the end; an existing one keeps
      its place; either way every row gets an empty cell there. */
  function ResetColumn(t: Table, name: string): (r: Table)
    ensures name in r.columns
    ensures forall c :: c in t.columns ==> c in r.columns
    ensures forall c :: c in r.columns ==> c in t.columns || c == name
    ensures |r.rows| == |t.rows|
    ensures forall i :: 0 <= i < |r.rows| ==> name in r.rows[i] && r.rows[i][name] == Missing
    ensures forall i, c :: 0 <= i < |r.rows| && c != name ==>
              (c in r.rows[i] <==> c in t.rows[i]) && (c in t.rows[i] ==> r.rows[i][c] == t.rows[i][c])
  {
    var columns := if name in t.columns then t.columns else t.columns + [name];
    Table(columns, seq(|t.rows|, i requires 0 <= i < |t.rows| => t.rows[i][name := Missing]))
  }

  /** What an endpoint ends with: the table to write out; the column that
      is missing, with the columns there are; or the message of an
      exception that escaped the loop over the rows. */
  datatype Outcome =
    | Done(table: Table)
    | ColumnNotFound(column: string, available: seq<string>)
    | Failed(message: string)

  /** The search request made while geocoding row `i`. */
  function SearchFor(fetch: (nat, string) -> SearchReply, i: nat): (r: string -> SearchReply) {
    u => fetch(i, u)
  }

  /** The Nominatim request made while reverse geocoding row `i`. */
  function NominatimFor(nominatim: (nat, string, string) -> NominatimReply, i: nat): (r: (string, string) -> NominatimReply) {
    (x, y) => nominatim(i, x, y)
  }

  /** The place page request made while reverse geocoding row `i`. */
  function PlaceFor(fetchPlace: (nat, string) -> PlaceReply, i: nat): (r: string -> PlaceReply) {
    u => fetchPlace(i, u)
  }

  /** A coordinate component as `df.at[idx, ...]` stores it: `None` when no
      coordinate was found. */
  function CoordinateCell(c: Option<Coordinate>, latitude: bool): (r: Cell)
  {
    match c
    case None => Missing
    case Some(p) => Deg(if latitude then p.lat else p.lng)
  }

  /** One pass of the loop of `geocode_file`, for the row at position `i`. */
  function GeocodeRow(row: Row, i: nat, column: string, fetch: (nat, string) -> SearchReply): (r: Row)
    requires column in row
  {
    var address := row[column];
    if HasAddress(address) then
      var found := GetCoordinates(CellText(address), SearchFor(fetch, i)).coordinate;
      row["latitude" := CoordinateCell(found, true)]["longitude" := CoordinateCell(found, false)]
    else row
  }

  /** The table `geocode_file` writes out, or why it refuses the file. */
  function GeocodeFile(t: Table, column: string, fetch: (nat, string) -> SearchReply): (r: Outcome)
    requires WellFormed(t)
  {
    if column !in t.columns then ColumnNotFound(column, t.columns)
    else
      var reset := ResetColumn(ResetColumn(t, "latitude"), "longitude");
      assert forall i :: 0 <= i < |reset.rows| ==> column in reset.rows[i];
      Done(Table(reset.columns, GeocodeRows(reset.rows, column, fetch)))
  }

  /** The loop `for idx, row in df.iterrows()` of `geocode_file`. */
  function GeocodeRows(rows: seq<Row>, column: string, fetch: (nat, string) -> SearchReply): (r: seq<Row>)
    requires forall i :: 0 <= i < |rows| ==> column in rows[i]
  {
    seq(|rows|, i requires 0 <= i < |rows| => GeocodeRow(rows[i], i, column, fetch))
  }

  /** The loop of `geocode_file`, writing the table cell by cell as
      `df.at[idx, 'latitude'] = lat` does. */
  method GeocodeLoop(rows: seq<Row>, column: string, fetch: (nat, string) -> SearchReply) returns (out: seq<Row>)
    requires forall i :: 0 <= i < |rows| ==> column in rows[i]
    ensures out == GeocodeRows(rows, column, fetch)
  {
    out := rows;
    for idx := 0 to |rows|
      invariant |out| == |rows|
      invariant forall i :: 0 <= i < idx ==> out[i] == GeocodeRow(rows[i], i, column, fetch)
      invariant forall i :: idx <= i < |rows| ==> out[i] == rows[i]
    {
      var address := rows[idx][column];
      if HasAddress(address) {
        var found := GetCoordinates(CellText(address), SearchFor(fetch, idx)).coordinate;
        out := out[idx := out[idx]["latitude" := CoordinateCell(found, true)]];
        out := out[idx := out[idx]["longitude" := CoordinateCell(found, false)]];
      }
    }
  }

  /** What `float(value)` does with a cell: gives a float, written as the
      text `str` writes for it; raises `ValueError`; or raises another
      exception (a `TypeError` for a date, say), with its message. */
  datatype Conversion =
    | Converted(text: string)
    | Invalid
    | Raises(message: string)

  /** The exception other than `ValueError` that converting the row's
      coordinates lets escape, if any: `float(lat)` runs first, and
      `float(lng)` only when it succeeded. */
  function RowRaises(row: Row, latColumn: string, longColumn: string, toFloat: Cell -> Conversion): (r: Option<string>)
    requires latColumn in row && longColumn in row
  {
    var lat := row[latColumn];
    var lng := row[longColumn];
    if lat.Missing? || lng.Missing? then None
    else match toFloat(lat)
      case Raises(m) => Some(m)
      case Invalid => None
      case Converted(_) => if toFloat(lng).Raises? then Some(toFloat(lng).message) else None
  }

  /** The first exception the loop of `reverse_geocode_file` lets escape. */
  function FirstRaise(rows: seq<Row>, latColumn: string, longColumn: string, toFloat: Cell -> Conversion): (r: Option<string>)
    requires forall i :: 0 <= i < |rows| ==> latColumn in rows[i] && longColumn in rows[i]
    ensures r.None? <==> forall i :: 0 <= i < |rows| ==> RowRaises(rows[i], latColumn, longColumn, toFloat).None?
    ensures r.Some? ==> exists i :: 0 <= i < |rows| && RowRaises(rows[i], latColumn, longColumn, toFloat) == r
                                  && forall j :: 0 <= j < i ==> RowRaises(rows[j], latColumn, longColumn, toFloat).None?
    decreases |rows|
  {
    if |rows| == 0 then None
    else if RowRaises(rows[0], latColumn, longColumn, toFloat).Some? then RowRaises(rows[0], latColumn, longColumn, toFloat)
    else
      var rest := FirstRaise(rows[1..], latColumn, longColumn, toFloat);
      assert forall i :: 1 <= i < |rows| ==> rows[i] == rows[1..][i - 1];
      assert rest.Some? ==> exists i :: 1 <= i < |rows| && RowRaises(rows[i], latColumn, longColumn, toFloat) == rest
                                      && forall j :: 0 <= j < i ==> RowRaises(rows[j], latColumn, longColumn, toFloat).None?;
      rest
  }

  /** One pass of the loop of `reverse_geocode_file`, for the row at
      position `i` of a file no row of which raises past the loop. */
  function ReverseRow(row: Row, i: nat, latColumn: string, longColumn: string, toFloat: Cell -> Conversion,
                      nominatim: (nat, string, string) -> NominatimReply, fetchPlace: (nat, string) -> PlaceReply): (r: Row)
    requires latColumn in row && longColumn in row
  {
    var lat := row[latColumn];
    var lng := row[longColumn];
    if !lat.Missing? && !lng.Missing? then
      match (toFloat(lat), toFloat(lng))
      case (Converted(x), Converted(y)) =>
        row["address" := Str(ReverseGeocode(x, y, NominatimFor(nominatim, i), PlaceFor(fetchPlace, i)).address)]
      case _ => row["address" := Missing]
    else row
  }

  /** The table `reverse_geocode_file` writes out, or why it fails. */
  function ReverseFile(t: Table, latColumn: string, longColumn: string, toFloat: Cell -> Conversion,
                       nominatim: (nat, string, string) -> NominatimReply, fetchPlace: (nat, string) -> PlaceReply): (r: Outcome)
    requires WellFormed(t)
  {
    if latColumn !in t.columns then ColumnNotFound(latColumn, t.columns)
    else if longColumn !in t.columns then ColumnNotFound(longColumn, t.columns)
    else
      var reset := ResetColumn(t, "address");
      match FirstRaise(reset.rows, latColumn, longColumn, toFloat)
      case Some(m) => Failed(m)
      case None =>
        Done(Table(reset.columns, seq(|reset.rows|, i requires 0 <= i < |reset.rows| =>
          ReverseRow(reset.rows[i], i, latColumn, longColumn, toFloat, nominatim, fetchPlace))))
  }

  // Properties

  /** Resetting a column keeps a table well formed. */
  lemma ResetColumnWellFormed(t: Table, name: string)
    requires WellFormed(t)
    ensures WellFormed(ResetColumn(t, name))
  {
    var r := ResetColumn(t, name);
    if name !in t.columns {
      forall i, j | 0 <= i < j < |r.columns| ensures r.columns[i] != r.columns[j] {
        if j == |t.columns| {
          assert r.columns[i] == t.columns[i];
        }
      }
    }
  }

  /** `geocode_file` refuses the file exactly when the address column is
      missing, and then names it and lists the columns there are. */
  lemma GeocodeFileRefuses(t: Table, column: string, fetch: (nat, string) -> SearchReply)
    requires WellFormed(t)
    ensures GeocodeFile(t, column, fetch).ColumnNotFound? <==> column !in t.columns
    ensures GeocodeFile(t, column, fetch).ColumnNotFound? ==>
              GeocodeFile(t, column, fetch) == ColumnNotFound(column, t.columns)
  {
  }

  /** The table written out keeps every column in its place, then has
      `latitude` and `longitude`, each added at the end unless it was there
      already; it keeps the rows, in order, and stays well formed. */
  lemma GeocodeFileShape(t: Table, column: string, fetch: (nat, string) -> SearchReply)
    requires WellFormed(t) && column in t.columns
    ensures var r := GeocodeFile(t, column, fetch);
            && r.Done?
            && r.table.columns == t.columns
                 + (if "latitude" in t.columns then [] else ["latitude"])
                 + (if "longitude" in t.columns then [] else ["longitude"])
            && |r.table.rows| == |t.rows|
            && WellFormed(r.table)
  {
    var a := ResetColumn(t, "latitude");
    var b := ResetColumn(a, "longitude");
    ResetColumnWellFormed(t, "latitude");
    ResetColumnWellFormed(a, "longitude");
    var r := GeocodeFile(t, column, fetch).table;
    assert r.columns == b.columns;
    forall i | 0 <= i < |r.rows| ensures forall c :: c in r.rows[i] <==> c in r.columns {
      assert r.rows[i] == GeocodeRow(b.rows[i], i, column, fetch);
    }
  }

  /** Row by row: the cells outside `latitude` and `longitude` are kept;
      those two hold the coordinate found, by the row's own search, for the
      address the row has once they were emptied, and stay empty when it
      has none (so an address column named `latitude` or `longitude` is
      emptied before it is read, and nothing is looked up). */
  lemma GeocodeFileRows(t: Table, column: string, fetch: (nat, string) -> SearchReply, i: nat, c: string)
    requires WellFormed(t) && column in t.columns && i < |t.rows|
    ensures var out := GeocodeFile(t, column, fetch).table.rows[i];
            var address := if column == "latitude" || column == "longitude" then Missing else t.rows[i][column];
            var found := GetCoordinates(CellText(address), SearchFor(fetch, i)).coordinate;
            && (c != "latitude" && c != "longitude" ==> (c in out <==> c in t.rows[i]) && (c in out ==> out[c] == t.rows[i][c]))
            && out["latitude"] == (if HasAddress(address) then CoordinateCell(found, true) else Missing)
            && out["longitude"] == (if HasAddress(address) then CoordinateCell(found, false) else Missing)
  {
    var b := ResetColumn(ResetColumn(t, "latitude"), "longitude");
    assert GeocodeFile(t, column, fetch).table.rows[i] == GeocodeRow(b.rows[i], i, column, fetch);
  }

  /** A missing or blank address leaves the row without a coordinate. */
  lemma BlankAddressSkipped(t: Table, column: string, fetch: (nat, string) -> SearchReply, i: nat)
    requires WellFormed(t) && column in t.columns && i < |t.rows|
    requires column != "latitude" && column != "longitude"
    requires t.rows[i][column].Missing? || IsBlank(CellText(t.rows[i][column]))
    ensures GeocodeFile(t, column, fetch).table.rows[i]["latitude"] == Missing
    ensures GeocodeFile(t, column, fetch).table.rows[i]["longitude"] == Missing
  {
    StripEmptyIffBlank(CellText(t.rows[i][column]));
    GeocodeFileRows(t, column, fetch, i, column);
  }

  /** `reverse_geocode_file` checks the latitude column first: it refuses
      the file exactly when a coordinate column is missing, naming the
      latitude column when both are. */
  lemma ReverseFileRefuses(t: Table, latColumn: string, longColumn: string, toFloat: Cell -> Conversion,
                           nominatim: (nat, string, string) -> NominatimReply, fetchPlace: (nat, string) -> PlaceReply)
    requires WellFormed(t)
    ensures var r := ReverseFile(t, latColumn, longColumn, toFloat, nominatim, fetchPlace);
            && (r.ColumnNotFound? <==> latColumn !in t.columns || longColumn !in t.columns)
            && (r.ColumnNotFound? ==> r.available == t.columns)
            && (latColumn !in t.columns ==> r.ColumnNotFound? && r.column == latColumn)
            && (latColumn in t.columns && longColumn !in t.columns ==> r.ColumnNotFound? && r.column == longColumn)
  {
  }

  /** With both coordinate columns there, `reverse_geocode_file` fails
      exactly when some row's conversion raises something other than
      `ValueError` (the rows read once `address` was emptied), and then with
      the message of the first such row: the whole file is lost, not just
      that row. */
  lemma ReverseFileFails(t: Table, latColumn: string, longColumn: string, toFloat: Cell -> Conversion,
                         nominatim: (nat, string, string) -> NominatimReply, fetchPlace: (nat, string) -> PlaceReply)
    requires WellFormed(t) && latColumn in t.columns && longColumn in t.columns
    ensures var r := ReverseFile(t, latColumn, longColumn, toFloat, nominatim, fetchPlace);
            var rows := ResetColumn(t, "address").rows;
            && (r.Done? || r.Failed?)
            && (r.Failed? <==> exists i :: 0 <= i < |rows| && RowRaises(rows[i], latColumn, longColumn, toFloat).Some?)
            && (r.Failed? ==> exists i :: 0 <= i < |rows| && RowRaises(rows[i], latColumn, longColumn, toFloat) == Some(r.message)
                                         && forall j :: 0 <= j < i ==> RowRaises(rows[j], latColumn, longColumn, toFloat).None?)
  {
  }

  /** When the file does not fail, the table written out keeps every column
      in its place, then has `address` at the end unless it was there
      already; it keeps the rows, in order, and stays well formed. */
  lemma ReverseFileShape(t: Table, latColumn: string, longColumn: string, toFloat: Cell -> Conversion,
                         nominatim: (nat, string, string) -> NominatimReply, fetchPlace: (nat, string) -> PlaceReply)
    requires WellFormed(t) && latColumn in t.columns && longColumn in t.columns
    ensures var r := ReverseFile(t, latColumn, longColumn, toFloat, nominatim, fetchPlace);
            r.Done? ==>
            && r.table.columns == t.columns + (if "address" in t.columns then [] else ["address"])
            && |r.table.rows| == |t.rows|
            && WellFormed(r.table)
  {
    var b := ResetColumn(t, "address");
    ResetColumnWellFormed(t, "address");
    var out := ReverseFile(t, latColumn, longColumn, toFloat, nominatim, fetchPlace);
    if out.Done? {
      var r := out.table;
      forall i | 0 <= i < |r.rows| ensures forall c :: c in r.rows[i] <==> c in r.columns {
        assert r.rows[i] == ReverseRow(b.rows[i], i, latColumn, longColumn, toFloat, nominatim, fetchPlace);
      }
    }
  }

  /** When the file does not fail, row by row: the cells outside `address`
      are kept; `address` holds the address the row's own requests found
      when both coordinates are present (after `address` was emptied) and
      both convert to floats, and is empty otherwise. */
  lemma ReverseFileRows(t: Table, latColumn: string, longColumn: string, toFloat: Cell -> Conversion,
                        nominatim: (nat, string, string) -> NominatimReply, fetchPlace: (nat, string) -> PlaceReply,
                        i: nat, c: string)
    requires WellFormed(t) && latColumn in t.columns && longColumn in t.columns && i < |t.rows|
    ensures var r := ReverseFile(t, latColumn, longColumn, toFloat, nominatim, fetchPlace);
            var lat := if latColumn == "address" then Missing else t.rows[i][latColumn];
            var lng := if longColumn == "address" then Missing else t.rows[i][longColumn];
            var ok := !lat.Missing? && !lng.Missing? && toFloat(lat).Converted? && toFloat(lng).Converted?;
            r.Done? ==>
            && (c != "address" ==> (c in r.table.rows[i] <==> c in t.rows[i]) && (c in r.table.rows[i] ==> r.table.rows[i][c] == t.rows[i][c]))
            && r.table.rows[i]["address"] ==
                 (if ok then Str(ReverseGeocode(toFloat(lat).text, toFloat(lng).text,
                                                NominatimFor(nominatim, i), PlaceFor(fetchPlace, i)).address)
                  else Missing)
  {
    var b := ResetColumn(t, "address");
    var r := ReverseFile(t, latColumn, longColumn, toFloat, nominatim, fetchPlace);
    if r.Done? {
      assert r.table.rows[i] == ReverseRow(b.rows[i], i, latColumn, longColumn, toFloat, nominatim, fetchPlace);
    }
  }
}

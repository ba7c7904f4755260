/**
 * The cleaning step `load_data` of the shipment timeline app: it turns the
 * rows of the uploaded CSV into rows with typed arrival, destination and
 * depart columns, fills in a missing destination time as arrival + 3 hours,
 * and drops the rows that still lack either time.
 *
 * The CSV reader itself is not modelled: the input is the table after it, one
 * `RawRow` per data line, with the cells of the columns the cleaning reads.
 */
module Shipments {
  import opened Wrappers
  import opened WallClock
  import Seqs

  /** A calendar date, as a day number (days since 1970-01-01). */
  type Date = int

  /** A timestamp read from the depart-date column: its calendar date and its time of day. */
  datatype Stamp = Stamp(date: Date, secondOfDay: nat)

  /** A cell as the CSV reader delivers it: missing (an empty field or an NA token) or text. */
  datatype Cell = Blank | Text(text: string)

  /** One data line of the uploaded file. `miles` is the `miles_prime` value, `None` when missing. */
  datatype RawRow = RawRow(
    shipmentId: string,
    arrival: Cell,   // origin_arrival_time
    dest: Cell,      // dest_scheduled_time
    depart: Cell,    // origin_depart_date
    miles: Option<real>)

  /** A row after its columns have been converted; `None` is a null timestamp. */
  datatype Row = Row(
    shipmentId: string,
    arrival: Option<Time>,
    dest: Option<Time>,
    depart: Option<Stamp>,
    miles: Option<real>)

  /** The two columns parsed with the strict `%H:%M:%S` format. */
  datatype TimeColumn = OriginArrival | DestScheduled

  /** The load aborts on the first cell of a time column that does not match the format. */
  datatype LoadError = MalformedTime(column: TimeColumn, position: nat, text: string)

  /** The default haul: a missing destination time is the arrival time plus three hours. */
  const HaulSeconds: int := 3 * SecondsPerHour

  function CellOf(r: RawRow, col: TimeColumn): Cell
  {
    match col
    case OriginArrival => r.arrival
    case DestScheduled => r.dest
  }

  /**
   * Texts that the datetime conversion itself reads as null before it looks
   * at the format: the empty string and the spellings of NaT and NaN.
   */
  predicate IsNullText(s: string)
  {
    s == "" || s in {"NaT", "nat", "NAT", "nan", "NaN", "NAN"}
  }

  /** A cell holding a null marker: missing for the CSV reader, or a null text. */
  predicate IsNullCell(c: Cell)
  {
    c.Blank? || IsNullText(c.text)
  }

  /** A non-null cell that the strict time format rejects. */
  predicate Malformed(c: Cell)
  {
    !IsNullCell(c) && ParseTime(c.text).None?
  }

  /** The timestamp a well-formed time cell converts to; a null cell becomes null. */
  function TimeCell(c: Cell): (t: Option<Time>)
    ensures !Malformed(c) ==> (t.None? <==> IsNullCell(c))
    ensures t.Some? ==> !IsNullCell(c) && t == ParseTime(c.text)
  {
    if IsNullCell(c) then None else ParseTime(c.text)
  }

  /** The lenient depart-date conversion: a null or unparseable value becomes null. */
  function DateCell(c: Cell, parseDate: string -> Option<Stamp>): (d: Option<Stamp>)
    ensures IsNullCell(c) ==> d.None?
    ensures !IsNullCell(c) ==> d == parseDate(c.text)
  {
    if IsNullCell(c) then None else parseDate(c.text)
  }

  function TimeValues(raw: seq<RawRow>, col: TimeColumn): seq<Option<Time>>
  {
    seq(|raw|, i requires 0 <= i < |raw| => TimeCell(CellOf(raw[i], col)))
  }

  /**
   * Converting one time column: it fails at the first malformed cell and
   * otherwise yields each cell's value, in row order.
   */
  function ParseColumn(raw: seq<RawRow>, col: TimeColumn): (r: Result<seq<Option<Time>>, LoadError>)
    ensures r.Failure? <==> exists i :: 0 <= i < |raw| && Malformed(CellOf(raw[i], col))
    ensures r.Failure? ==>
      && r.error.column == col
      && r.error.position < |raw|
      && Malformed(CellOf(raw[r.error.position], col))
      && r.error.text == CellOf(raw[r.error.position], col).text
      && forall j :: 0 <= j < r.error.position ==> !Malformed(CellOf(raw[j], col))
    ensures r.Success? ==> r.value == TimeValues(raw, col)
  {
    if raw == [] then Success([])
    else
      var last := |raw| - 1;
      match ParseColumn(raw[..last], col)
      case Failure(e) => Failure(e)
      case Success(front) =>
        var c := CellOf(raw[last], col);
        if Malformed(c) then Failure(MalformedTime(col, last, c.text))
        else Success(front + [TimeCell(c)])
  }

  /** The row with both time columns and the depart column converted. */
  function TypeRow(r: RawRow, parseDate: string -> Option<Stamp>): Row
  {
    Row(r.shipmentId, TimeCell(r.arrival), TimeCell(r.dest), DateCell(r.depart, parseDate), r.miles)
  }

  function Typed(raw: seq<RawRow>, parseDate: string -> Option<Stamp>): seq<Row>
  {
    seq(|raw|, i requires 0 <= i < |raw| => TypeRow(raw[i], parseDate))
  }

  /**
   * The per-row imputation: a null destination time next to a non-null
   * arrival time becomes arrival + 3 hours; every other row is left as it is.
   */
  function Impute(r: Row): (r': Row)
    ensures r'.dest != r.dest <==> r.dest.None? && r.arrival.Some?
    ensures r'.dest != r.dest ==> r'.dest.value == r.arrival.value + HaulSeconds
    ensures r' == r.(dest := r'.dest)
  {
    if r.dest.None? && r.arrival.Some? then r.(dest := Some(r.arrival.value + HaulSeconds)) else r
  }

  /** The rows kept by the final drop: both time columns are non-null. */
  predicate Complete(r: Row)
  {
    r.arrival.Some? && r.dest.Some?
  }

  predicate HasArrival(r: Row)
  {
    r.arrival.Some?
  }

  function Imputed(rows: seq<Row>): (r: seq<Row>)
    ensures |r| == |rows|
  {
    seq(|rows|, i requires 0 <= i < |rows| => Impute(rows[i]))
  }

  /** Imputation followed by the drop of incomplete rows. */
  function Clean(rows: seq<Row>): (r: seq<Row>)
    ensures forall x :: x in r ==> Complete(x)
  {
    Seqs.Filter(Imputed(rows), Complete)
  }

  /**
   * The whole of `load_data` after the CSV read: the arrival column is
   * converted first, then the destination column, then the depart column;
   * a malformed time aborts the load.
   */
  function Load(raw: seq<RawRow>, parseDate: string -> Option<Stamp>): (r: Result<seq<Row>, LoadError>)
    ensures r.Failure? <==>
      exists i :: 0 <= i < |raw| && (Malformed(raw[i].arrival) || Malformed(raw[i].dest))
    ensures r.Failure? ==>
      && r.error.position < |raw|
      && Malformed(CellOf(raw[r.error.position], r.error.column))
      && r.error.text == CellOf(raw[r.error.position], r.error.column).text
      && forall j :: 0 <= j < r.error.position ==> !Malformed(CellOf(raw[j], r.error.column))
    ensures r.Failure? ==>
      (r.error.column == OriginArrival <==> exists i :: 0 <= i < |raw| && Malformed(raw[i].arrival))
    ensures r.Success? ==> r.value == Clean(Typed(raw, parseDate))
  {
    match ParseColumn(raw, OriginArrival)
    case Failure(e) =>
      assert exists i :: 0 <= i < |raw| && Malformed(CellOf(raw[i], OriginArrival));
      Failure(e)
    case Success(_) =>
      match ParseColumn(raw, DestScheduled)
      case Failure(e) =>
        assert exists i :: 0 <= i < |raw| && Malformed(CellOf(raw[i], DestScheduled));
        Failure(e)
      case Success(_) =>
        assert forall i :: 0 <= i < |raw| ==> !Malformed(CellOf(raw[i], OriginArrival));
        assert forall i :: 0 <= i < |raw| ==> !Malformed(CellOf(raw[i], DestScheduled));
        Success(Clean(Typed(raw, parseDate)))
  }

  lemma ImputedSnoc(rows: seq<Row>, x: Row)
    ensures Imputed(rows + [x]) == Imputed(rows) + [Impute(x)]
  {
  }

  /**
   * Imputation plus the drop keep exactly the rows that have an arrival time,
   * in their original order, each with its destination filled in.
   */
  lemma {:induction false} CleanSelectsArrivals(rows: seq<Row>)
    ensures Clean(rows) == Imputed(Seqs.Filter(rows, HasArrival))
  {
    if rows != [] {
      var front, last := rows[..|rows| - 1], rows[|rows| - 1];
      assert rows == front + [last];
      CleanSelectsArrivals(front);
      ImputedSnoc(front, last);
      assert Imputed(rows)[..|rows| - 1] == Imputed(front);
      if HasArrival(last) {
        ImputedSnoc(Seqs.Filter(front, HasArrival), last);
      }
    }
  }

  /** No row with an arrival time is dropped: the output has one row per such input row. */
  lemma CleanCount(rows: seq<Row>)
    ensures |Clean(rows)| == Seqs.Count(rows, HasArrival)
  {
    CleanSelectsArrivals(rows);
    Seqs.FilterLength(rows, HasArrival);
  }

  /**
   * A row with an arrival time reaches the output (imputed), whatever its
   * depart date and its destination time hold.
   */
  lemma CleanKeeps(rows: seq<Row>, i: nat)
    requires i < |rows| && rows[i].arrival.Some?
    ensures Impute(rows[i]) in Clean(rows)
  {
    Seqs.FilterKeeps(Imputed(rows), Complete, i);
  }

  /** Cleaning a cleaned table changes nothing: no further drops, no further imputation. */
  lemma CleanIdempotent(rows: seq<Row>)
    ensures Clean(Clean(rows)) == Clean(rows)
  {
    var c := Clean(rows);
    assert forall i :: 0 <= i < |c| ==> Complete(c[i]) && Impute(c[i]) == c[i];
    assert Imputed(c) == c;
    Seqs.FilterAll(c, Complete);
  }

  /**
   * A successful load keeps every line whose arrival cell is filled in, even
   * when its depart date is missing or cannot be read.
   */
  lemma LoadKeepsTimedRows(raw: seq<RawRow>, parseDate: string -> Option<Stamp>, i: nat)
    requires i < |raw| && !IsNullCell(raw[i].arrival) && Load(raw, parseDate).Success?
    ensures Impute(TypeRow(raw[i], parseDate)) in Load(raw, parseDate).value
  {
    assert !Malformed(raw[i].arrival);
    CleanKeeps(Typed(raw, parseDate), i);
  }

  /** Converts one time column cell by cell, as `pd.to_datetime(..., format='%H:%M:%S')` does. */
  method ParseTimeColumn(raw: seq<RawRow>, col: TimeColumn) returns (res: Result<seq<Option<Time>>, LoadError>)
    ensures res == ParseColumn(raw, col)
  {
    var values: seq<Option<Time>> := [];
    for i := 0 to |raw|
      invariant ParseColumn(raw[..i], col) == Success(values)
    {
      var c := CellOf(raw[i], col);
      assert forall j :: 0 <= j < i ==> !Malformed(CellOf(raw[..i][j], col));
      if Malformed(c) {
        ghost var r := ParseColumn(raw, col);
        assert r.Failure?;
        assert r.error.position == i;
        return Failure(MalformedTime(col, i, c.text));
      }
      assert raw[..i + 1] == raw[..i] + [raw[i]];
      assert raw[..i + 1][..i] == raw[..i];
      values := values + [TimeCell(c)];
    }
    assert raw[..|raw|] == raw;
    res := Success(values);
  }

  /** Assembles the converted columns into rows, the depart column converted leniently on the way. */
  method AssembleRows(raw: seq<RawRow>, arrivals: seq<Option<Time>>, dests: seq<Option<Time>>,
                      parseDate: string -> Option<Stamp>) returns (table: seq<Row>)
    requires arrivals == TimeValues(raw, OriginArrival) && dests == TimeValues(raw, DestScheduled)
    ensures table == Typed(raw, parseDate)
  {
    table := [];
    for i := 0 to |raw|
      invariant table == Typed(raw, parseDate)[..i]
    {
      var depart := DateCell(raw[i].depart, parseDate);
      table := table + [Row(raw[i].shipmentId, arrivals[i], dests[i], depart, raw[i].miles)];
    }
  }

  /** Overwrites the destination column with the imputed one, row by row. */
  method ImputeDestinations(rows: seq<Row>) returns (table: seq<Row>)
    ensures table == Imputed(rows)
  {
    table := rows;
    for i := 0 to |table|
      invariant |table| == |rows|
      invariant forall k :: 0 <= k < |table| ==> table[k] == if k < i then Impute(rows[k]) else rows[k]
    {
      table := table[i := Impute(table[i])];
    }
  }

  /** Keeps the rows whose arrival and destination times are both non-null, in order. */
  method DropIncomplete(table: seq<Row>) returns (kept: seq<Row>)
    ensures kept == Seqs.Filter(table, Complete)
  {
    kept := [];
    for i := 0 to |table|
      invariant kept == Seqs.Filter(table[..i], Complete)
    {
      assert table[..i + 1][..i] == table[..i];
      if Complete(table[i]) {
        kept := kept + [table[i]];
      }
    }
    assert table[..|table|] == table;
  }

  /**
   * `load_data` after the CSV read, one column at a time: the arrival and
   * destination columns are converted, then the depart column, then the
   * destination column is overwritten with its imputed values, and finally
   * the incomplete rows are dropped.
   */
  method LoadData(raw: seq<RawRow>, parseDate: string -> Option<Stamp>) returns (res: Result<seq<Row>, LoadError>)
    ensures res == Load(raw, parseDate)
  {
    var arrivals := ParseTimeColumn(raw, OriginArrival);
    if arrivals.Failure? {
      return Failure(arrivals.error);
    }
    var dests := ParseTimeColumn(raw, DestScheduled);
    if dests.Failure? {
      return Failure(dests.error);
    }
    var table := AssembleRows(raw, arrivals.value, dests.value, parseDate);
    table := ImputeDestinations(table);
    var kept := DropIncomplete(table);
    res := Success(kept);
  }

  lemma ParsesLateArrival()
    ensures ParseTime("22:30:00") == Some(81000)
  {
    assert Field("22", 23) == Some(22);
    assert Field("30", 59) == Some(30);
    assert Field("00", 59) == Some(0);
    assert "22" + ":" + "30" + ":" + "00" == "22:30:00";
    ParseTimeFields("22", "30", "00");
  }

  /**
   * A late arrival with no destination time: 22:30:00 becomes an end 3 hours
   * later, 91800 s, which is past the 86400 s of the base day: 01:30:00 of
   * the following day, not 01:30:00 of the same day.
   */
  lemma LateArrivalEndsNextDay(parseDate: string -> Option<Stamp>)
    ensures Load([RawRow("S1", Text("22:30:00"), Blank, Blank, None)], parseDate)
         == Success([Row("S1", Some(81000), Some(91800), None, None)])
  {
    ParsesLateArrival();
    var raw := [RawRow("S1", Text("22:30:00"), Blank, Blank, None)];
    assert !Malformed(raw[0].arrival) && !Malformed(raw[0].dest);
    var typed := Typed(raw, parseDate);
    assert typed == [Row("S1", Some(81000), None, None, None)];
    var imputed := Imputed(typed);
    assert imputed == [Row("S1", Some(81000), Some(91800), None, None)];
    assert imputed[..0] == [];
    assert Seqs.Filter(imputed, Complete) == imputed;
  }

  /**
   * A null token such as `NaT` in the arrival column does not abort the load:
   * the cell becomes null and the line is dropped.
   */
  lemma NullTokenArrivalIsDropped(parseDate: string -> Option<Stamp>)
    ensures Load([RawRow("S1", Text("NaT"), Text("NaT"), Blank, None)], parseDate) == Success([])
  {
    var raw := [RawRow("S1", Text("NaT"), Text("NaT"), Blank, None)];
    assert IsNullCell(raw[0].arrival) && IsNullCell(raw[0].dest);
    var imputed := Imputed(Typed(raw, parseDate));
    assert imputed == [Row("S1", None, None, None, None)];
    assert imputed[..0] == [];
  }
}

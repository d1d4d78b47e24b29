/**
 * The report of `main` (app.py:124-272) once the files are read: the cleaned keys, the two
 * left joins, the trip start of each joined row, its three formatted columns, the final
 * renaming and the selection of the report columns.
 */
module Report {
  import opened Wrappers
  import opened Cells
  import opened Ids
  import opened Dates
  import opened Join
  import opened Resolve
  import opened Format
  import opened Columns
  import opened Frames

  /** A row of the reservations file: 'id_reservation_id' and 'tm_start_local_at'. */
  datatype ReservationRow = ReservationRow(id: Cell, start: Cell)

  /** A row of the transaction files: 'Id Reserva', 'Modo', 'F.Desde Aerop' and 'F.Hacia Aerop'. */
  datatype TransactionRow = TransactionRow(id: Cell, mode: Cell, fromAirport: Cell, toAirport: Cell)

  /** The unified transactions; `hasIdColumn` says whether they carry an 'Id Reserva' column. */
  datatype Transactions = Transactions(hasIdColumn: bool, rows: seq<TransactionRow>)

  /** The merge of line 163 (with the reservations) or of line 169 (with the transactions). */
  datatype JoinStep = ReservationJoin | TransactionJoin

  /** The report, or the reason the run stops before writing it. */
  datatype Outcome =
    | Generated(frame: Frame)
    | MissingColumn(name: string)
    | MismatchedKeys(step: JoinStep)
    | ClashingColumn(name: string)

  /** The columns the two merges add to the master's, in order. */
  const MergedNames: seq<string> := ["tm_start_dt", "Modo", "F.Desde Aerop_dt", "F.Hacia Aerop_dt"]

  /** `pd.notna` on a timestamp column: the timestamp, if the cell holds one. */
  function AsStamp(c: Cell): Option<Timestamp>
  {
    if c.Time? then Some(c.t) else None
  }

  /** A parsed timestamp as a cell, NaT when parsing gave nothing; reading it back loses nothing. */
  function StampCell(o: Option<Timestamp>): (c: Cell)
    ensures AsStamp(c) == o
    ensures o.None? <==> c.Null?
  {
    match o
    case None => Null
    case Some(t) => Time(t)
  }

  /**
   * A key column in which `clean_id` found nothing: pandas holds it as float64 (all NaN),
   * where a column with at least one cleaned id holds text (object).
   */
  predicate AllMissing(keys: seq<Cell>)
  {
    forall i :: 0 <= i < |keys| ==> keys[i].Null?
  }

  /**
   * The key check `pd.merge` makes before joining (lines 163 and 169): text keys on one side
   * and float64 keys on the other raise a ValueError when neither side is empty.
   */
  predicate KeyKindsClash(left: seq<Cell>, right: seq<Cell>)
  {
    |left| > 0 && |right| > 0 && AllMissing(left) != AllMissing(right)
  }

  /** Line 129: `df_master['id_reserva'].apply(clean_id)`. */
  function MasterIds(master: Frame): (ids: seq<Cell>)
    requires Rectangular(master) && "id_reserva" in master.columns
    ensures |ids| == |master.rows|
  {
    var c := Column(master, "id_reserva");
    seq(|c|, i requires 0 <= i < |c| => CleanId(c[i]))
  }

  /** Line 129: the master with its 'id_key' column. */
  function KeyMaster(master: Frame): (r: Frame)
    requires Rectangular(master) && "id_reserva" in master.columns
    ensures Rectangular(r) && "id_key" in r.columns
    ensures forall c :: c in r.columns <==> c in master.columns || c == "id_key"
    ensures Distinct(master.columns) ==> Distinct(r.columns)
    ensures Column(r, "id_key") == MasterIds(master)
    ensures forall c :: c in master.columns && c != "id_key" ==> Column(r, c) == Column(master, c)
  {
    SetColumnSpec(master, "id_key", MasterIds(master));
    SetColumn(master, "id_key", MasterIds(master))
  }

  /** Lines 133 and 147, projected as on line 165: the key and the parsed start of each reservation. */
  function ReservationSide(rs: seq<ReservationRow>, toDatetime: string -> Option<Timestamp>): (r: seq<KeyedRow>)
    ensures |r| == |rs| && forall x :: x in r ==> |x.cells| == 1
    ensures forall i :: 0 <= i < |rs| ==>
      r[i].key == CleanId(rs[i].id) && AsStamp(r[i].cells[0]) == JourneyStart(rs[i].start, toDatetime)
  {
    seq(|rs|, i requires 0 <= i < |rs| =>
      KeyedRow(CleanId(rs[i].id), [StampCell(JourneyStart(rs[i].start, toDatetime))]))
  }

  /**
   * Lines 137-157, projected as on line 171: the key (missing for every row when there is no
   * 'Id Reserva' column), the mode and the two parsed airport dates of each transaction.
   */
  function TransactionSide(ts: Transactions, toDatetime: string -> Option<Timestamp>): (r: seq<KeyedRow>)
    ensures |r| == |ts.rows| && forall x :: x in r ==> |x.cells| == 3
    ensures forall i :: 0 <= i < |ts.rows| ==>
      && r[i].key == (if ts.hasIdColumn then CleanId(ts.rows[i].id) else Null)
      && r[i].cells[0] == ts.rows[i].mode
      && AsStamp(r[i].cells[1]) == ParseSpanishDate(ts.rows[i].fromAirport, toDatetime)
      && AsStamp(r[i].cells[2]) == ParseSpanishDate(ts.rows[i].toAirport, toDatetime)
    ensures !ts.hasIdColumn ==> AllMissing(Join.Keys(r))
  {
    seq(|ts.rows|, i requires 0 <= i < |ts.rows| =>
      var t := ts.rows[i];
      KeyedRow(if ts.hasIdColumn then CleanId(t.id) else Null,
               [t.mode, StampCell(ParseSpanishDate(t.fromAirport, toDatetime)),
                StampCell(ParseSpanishDate(t.toAirport, toDatetime))]))
  }

  /** Lines 163-172: the keyed master joined with the reservations, then with the transactions. */
  function Merge(keyed: Frame, reservations: seq<KeyedRow>, transactions: seq<KeyedRow>): (r: Frame)
    requires Rectangular(keyed) && "id_key" in keyed.columns
    requires forall x :: x in reservations ==> |x.cells| == 1
    requires forall x :: x in transactions ==> |x.cells| == 3
    ensures Rectangular(r) && r.columns == keyed.columns + MergedNames && Joined(r)
  {
    var keyAt := IndexOf(keyed.columns, "id_key");
    var first := LeftJoin(keyed.rows, keyAt, reservations, 1);
    LeftJoinWidth(keyed.rows, keyAt, reservations, 1, |keyed.columns|);
    LeftJoinWidth(first, keyAt, transactions, 3, |keyed.columns| + 1);
    Frame(keyed.columns + MergedNames, LeftJoin(first, keyAt, transactions, 3))
  }

  /** The frame `merged` as it stands after line 172. */
  function Merged(master: Frame, reservations: seq<ReservationRow>, transactions: Transactions,
                  toDatetime: string -> Option<Timestamp>): (r: Frame)
    requires Rectangular(master) && "id_reserva" in master.columns
    ensures Joined(r) && r.columns == KeyMaster(master).columns + MergedNames
  {
    Merge(KeyMaster(master), ReservationSide(reservations, toDatetime), TransactionSide(transactions, toDatetime))
  }

  /** A frame holding the four columns `get_final_tm` reads. */
  predicate Joined(f: Frame)
  {
    && Rectangular(f)
    && "tm_start_dt" in f.columns && "Modo" in f.columns
    && "F.Desde Aerop_dt" in f.columns && "F.Hacia Aerop_dt" in f.columns
  }

  /** `get_final_tm` applied row by row to the four columns it reads. */
  function Resolutions(tm: seq<Cell>, mode: seq<Cell>, fromAirport: seq<Cell>, toAirport: seq<Cell>): (starts: seq<Resolved>)
    requires |mode| == |tm| && |fromAirport| == |tm| && |toAirport| == |tm|
    ensures |starts| == |tm|
  {
    seq(|tm|, i requires 0 <= i < |tm| =>
      GetFinalTm(TripEvidence(AsStamp(tm[i]), mode[i], AsStamp(fromAirport[i]), AsStamp(toAirport[i]))))
  }

  /** Line 204: `merged.apply(get_final_tm, axis=1)`. */
  function Calculated(f: Frame): (starts: seq<Resolved>)
    requires Joined(f)
    ensures |starts| == |f.rows|
  {
    Resolutions(Column(f, "tm_start_dt"), Column(f, "Modo"), Column(f, "F.Desde Aerop_dt"), Column(f, "F.Hacia Aerop_dt"))
  }

  function StartCells(starts: seq<Resolved>): (c: seq<Cell>)
    ensures |c| == |starts|
  {
    seq(|starts|, i requires 0 <= i < |starts| => ResolvedCell(starts[i]))
  }

  function DateCells(starts: seq<Resolved>): (c: seq<Cell>)
    ensures |c| == |starts|
  {
    seq(|starts|, i requires 0 <= i < |starts| => Text(ExtractDateStr(starts[i])))
  }

  function HourCells(starts: seq<Resolved>): (c: seq<Cell>)
    ensures |c| == |starts|
  {
    seq(|starts|, i requires 0 <= i < |starts| => ExtractHourStr(starts[i]))
  }

  function FullCells(starts: seq<Resolved>): (c: seq<Cell>)
    ensures |c| == |starts|
  {
    seq(|starts|, i requires 0 <= i < |starts| => Text(FormatFullDatetime(starts[i])))
  }

  /** Lines 204 and 225-227: 'Calculated_Start', then 'Fecha', 'Hora' and 'Tm_start_local_at' derived from it. */
  function Formatted(f: Frame): (r: Frame)
    requires Joined(f)
    ensures Rectangular(r) && |r.rows| == |f.rows|
  {
    var starts := Calculated(f);
    var f1 := SetColumn(f, "Calculated_Start", StartCells(starts));
    var f2 := SetColumn(f1, "Fecha", DateCells(starts));
    var f3 := SetColumn(f2, "Hora", HourCells(starts));
    SetColumn(f3, "Tm_start_local_at", FullCells(starts))
  }

  /**
   * The labels after the rename loop of lines 251-259, run with the mapping of lines 230-246
   * whose test at line 245 looks at the labels `tested`.
   */
  function RenamedColumns(f: Frame, tested: seq<string>): (cols: seq<string>)
    ensures |cols| == |f.columns|
  {
    RenameAllPointwise(AdjustMapping(tested), f.columns);
    RenameAll(AdjustMapping(tested), Renaming(f.columns, [])).cols
  }

  /** Lines 230-272: rename the columns, then keep the desired ones that exist, in the desired order. */
  function Project(f: Frame, tested: seq<string>): (r: Frame)
    requires Rectangular(f)
    ensures Rectangular(r) && |r.rows| == |f.rows|
  {
    var cols := RenamedColumns(f, tested);
    Select(Relabel(f, cols), ValidCols(DesiredOrder, cols))
  }

  /** The first merge-added label the keyed master already holds, if any. */
  function Clash(cols: seq<string>): (c: Option<string>)
    ensures c.None? <==> forall name :: name in MergedNames ==> name !in cols
    ensures c.Some? ==> c.value in MergedNames && c.value in cols
  {
    if "tm_start_dt" in cols then Some("tm_start_dt")
    else if "Modo" in cols then Some("Modo")
    else if "F.Desde Aerop_dt" in cols then Some("F.Desde Aerop_dt")
    else if "F.Hacia Aerop_dt" in cols then Some("F.Hacia Aerop_dt")
    else None
  }

  /** Lines 204-272 on the merged frame as written: line 245 tests the labels after line 225. */
  function Finish(merged: Frame): (r: Frame)
    requires Joined(merged)
    ensures Rectangular(r) && |r.rows| == |merged.rows|
  {
    var f := Formatted(merged);
    Project(f, f.columns)
  }

  /** The inputs on which `main` gets past every stop and writes the report. */
  predicate Runs(master: Frame, reservations: seq<ReservationRow>, transactions: Transactions,
                 toDatetime: string -> Option<Timestamp>)
    requires Rectangular(master)
  {
    && "id_reserva" in master.columns
    && !KeyKindsClash(MasterIds(master), Join.Keys(ReservationSide(reservations, toDatetime)))
    && !KeyKindsClash(MasterIds(master), Join.Keys(TransactionSide(transactions, toDatetime)))
    && forall name :: name in MergedNames ==> name !in master.columns
  }

  /**
   * `main` from line 128 to line 272 as written: the report frame, or why the run stops. It
   * stops on a master without 'id_reserva' (line 129), on a merge whose key kinds clash
   * (lines 163 and 169; the second merge's keys are the master's, repeated), and on a master
   * label the merges suffix away from under `get_final_tm` (line 204).
   */
  function Generate(master: Frame, reservations: seq<ReservationRow>, transactions: Transactions,
                    toDatetime: string -> Option<Timestamp>): (o: Outcome)
    requires Rectangular(master)
    ensures o.MissingColumn? <==> "id_reserva" !in master.columns
    ensures o.MismatchedKeys? && o.step == ReservationJoin <==>
      "id_reserva" in master.columns && KeyKindsClash(MasterIds(master), Join.Keys(ReservationSide(reservations, toDatetime)))
    ensures o.ClashingColumn? ==> o.name in MergedNames && o.name in master.columns
    ensures o.Generated? <==> Runs(master, reservations, transactions, toDatetime)
  {
    if "id_reserva" !in master.columns then MissingColumn("id_reserva")
    else
      var ids := MasterIds(master);
      if KeyKindsClash(ids, Join.Keys(ReservationSide(reservations, toDatetime))) then MismatchedKeys(ReservationJoin)
      else if KeyKindsClash(ids, Join.Keys(TransactionSide(transactions, toDatetime))) then MismatchedKeys(TransactionJoin)
      else
        var clash := Clash(KeyMaster(master).columns);
        if clash.Some? then ClashingColumn(clash.value)
        else Generated(Finish(Merged(master, reservations, transactions, toDatetime)))
  }

  /**
   * `main` as the comments at lines 231 and 247-250 intend: it stops on the same inputs as
   * `Generate` and otherwise finishes the merged frame with the master's date kept apart
   * (see `FinishIntended`).
   */
  function GenerateIntended(master: Frame, reservations: seq<ReservationRow>, transactions: Transactions,
                            toDatetime: string -> Option<Timestamp>): (o: Outcome)
    requires Rectangular(master)
    ensures o.Generated? <==> Runs(master, reservations, transactions, toDatetime)
    ensures !o.Generated? ==> o == Generate(master, reservations, transactions, toDatetime)
  {
    match Generate(master, reservations, transactions, toDatetime)
    case Generated(_) => Generated(FinishIntended(Merged(master, reservations, transactions, toDatetime)))
    case stop => stop
  }

  /**
   * `main` step by step, in the order of the source: clean the keys, check and run each
   * merge, resolve and format each row, rename and select the report columns.
   */
  method GenerateReport(master: Frame, reservations: seq<ReservationRow>, transactions: Transactions,
                        toDatetime: string -> Option<Timestamp>) returns (o: Outcome)
    requires Rectangular(master)
    ensures o == Generate(master, reservations, transactions, toDatetime)
  {
    if "id_reserva" !in master.columns {
      return MissingColumn("id_reserva");
    }
    var keyed := KeyMaster(master);
    var reservationSide := ReservationSide(reservations, toDatetime);
    var transactionSide := TransactionSide(transactions, toDatetime);
    var keyAt := IndexOf(keyed.columns, "id_key");
    var ids := Column(keyed, "id_key");
    if KeyKindsClash(ids, Join.Keys(reservationSide)) {
      return MismatchedKeys(ReservationJoin);
    }
    var first := MergeLeft(keyed.rows, keyAt, reservationSide, 1);
    if KeyKindsClash(ids, Join.Keys(transactionSide)) {
      return MismatchedKeys(TransactionJoin);
    }
    var rows := MergeLeft(first, keyAt, transactionSide, 3);
    var merged := Frame(keyed.columns + MergedNames, rows);
    assert merged == Merge(keyed, reservationSide, transactionSide);
    var clash := Clash(keyed.columns);
    if clash.Some? {
      return ClashingColumn(clash.value);
    }
    var formatted := Formatted(merged);
    var newCols, finalCols := RenameColumns(AdjustMapping(formatted.columns), formatted.columns);
    assert newCols == RenamedColumns(formatted, formatted.columns);
    var validCols := FilterDesired(DesiredOrder, newCols);
    var output := Select(Relabel(formatted, newCols), validCols);
    assert output == Finish(merged);
    return Generated(output);
  }

  /** The merged frame has one row per partner pair: a master row with r reservation and t transaction partners appears max(1, r) * max(1, t) times. */
  lemma MergedRowCount(master: Frame, reservations: seq<ReservationRow>, transactions: Transactions,
                       toDatetime: string -> Option<Timestamp>)
    requires Rectangular(master) && "id_reserva" in master.columns
    ensures |Merged(master, reservations, transactions, toDatetime).rows|
         == PairSize(MasterIds(master), ReservationSide(reservations, toDatetime), TransactionSide(transactions, toDatetime))
  {
    var keyed := KeyMaster(master);
    var keyAt := IndexOf(keyed.columns, "id_key");
    var rs, ts := ReservationSide(reservations, toDatetime), TransactionSide(transactions, toDatetime);
    JoinTwiceSize(keyed.rows, keyAt, rs, 1, ts, 3);
    assert LeftKeys(keyed.rows, keyAt) == Column(keyed, "id_key");
  }

  /**
   * The report keeps every joined row, as written and as intended: its size is the sum over
   * master rows of max(1, r) * max(1, t).
   */
  lemma ReportRowCount(master: Frame, reservations: seq<ReservationRow>, transactions: Transactions,
                       toDatetime: string -> Option<Timestamp>)
    requires Rectangular(master) && Generate(master, reservations, transactions, toDatetime).Generated?
    ensures |Generate(master, reservations, transactions, toDatetime).frame.rows|
         == PairSize(MasterIds(master), ReservationSide(reservations, toDatetime), TransactionSide(transactions, toDatetime))
    ensures |GenerateIntended(master, reservations, transactions, toDatetime).frame.rows|
         == PairSize(MasterIds(master), ReservationSide(reservations, toDatetime), TransactionSide(transactions, toDatetime))
  {
    MergedRowCount(master, reservations, transactions, toDatetime);
    GenerateIsFinish(master, reservations, transactions, toDatetime);
  }

  /** Lines 204 and 225-227 add the four computed labels and keep the others. */
  lemma FormattedLabels(f: Frame)
    requires Joined(f)
    ensures forall c :: c in Formatted(f).columns <==>
      c in f.columns || c == "Calculated_Start" || c == "Fecha" || c == "Hora" || c == "Tm_start_local_at"
    ensures Distinct(f.columns) ==> Distinct(Formatted(f).columns)
  {
    var starts := Calculated(f);
    var f1 := SetColumn(f, "Calculated_Start", StartCells(starts));
    var f2 := SetColumn(f1, "Fecha", DateCells(starts));
    var f3 := SetColumn(f2, "Hora", HourCells(starts));
    SetColumnSpec(f, "Calculated_Start", StartCells(starts));
    SetColumnSpec(f1, "Fecha", DateCells(starts));
    SetColumnSpec(f2, "Hora", HourCells(starts));
    SetColumnSpec(f3, "Tm_start_local_at", FullCells(starts));
  }

  /** Lines 204 and 225-227 leave every other column as it was. */
  lemma FormattedKeeps(f: Frame)
    requires Joined(f)
    ensures forall c :: c in f.columns && c != "Calculated_Start" && c != "Fecha" && c != "Hora" && c != "Tm_start_local_at" ==>
      c in Formatted(f).columns && Column(Formatted(f), c) == Column(f, c)
  {
    var starts := Calculated(f);
    var f1 := SetColumn(f, "Calculated_Start", StartCells(starts));
    var f2 := SetColumn(f1, "Fecha", DateCells(starts));
    var f3 := SetColumn(f2, "Hora", HourCells(starts));
    SetColumnSpec(f, "Calculated_Start", StartCells(starts));
    SetColumnSpec(f1, "Fecha", DateCells(starts));
    SetColumnSpec(f2, "Hora", HourCells(starts));
    SetColumnSpec(f3, "Tm_start_local_at", FullCells(starts));
  }

  /** Lines 204 and 225 write the resolution and its date into their columns, and the later lines keep them. */
  lemma FormattedStartAndDate(f: Frame)
    requires Joined(f)
    ensures "Calculated_Start" in Formatted(f).columns && "Fecha" in Formatted(f).columns
    ensures Column(Formatted(f), "Calculated_Start") == StartCells(Calculated(f))
    ensures Column(Formatted(f), "Fecha") == DateCells(Calculated(f))
  {
    var starts := Calculated(f);
    var f1 := SetColumn(f, "Calculated_Start", StartCells(starts));
    var f2 := SetColumn(f1, "Fecha", DateCells(starts));
    var f3 := SetColumn(f2, "Hora", HourCells(starts));
    SetColumnSpec(f, "Calculated_Start", StartCells(starts));
    SetColumnSpec(f1, "Fecha", DateCells(starts));
    SetColumnSpec(f2, "Hora", HourCells(starts));
    SetColumnSpec(f3, "Tm_start_local_at", FullCells(starts));
  }

  /** Lines 226-227 write the hour and the full timestamp into their columns. */
  lemma FormattedHourAndFull(f: Frame)
    requires Joined(f)
    ensures "Hora" in Formatted(f).columns && "Tm_start_local_at" in Formatted(f).columns
    ensures Column(Formatted(f), "Hora") == HourCells(Calculated(f))
    ensures Column(Formatted(f), "Tm_start_local_at") == FullCells(Calculated(f))
  {
    var starts := Calculated(f);
    var f1 := SetColumn(f, "Calculated_Start", StartCells(starts));
    var f2 := SetColumn(f1, "Fecha", DateCells(starts));
    var f3 := SetColumn(f2, "Hora", HourCells(starts));
    SetColumnSpec(f, "Calculated_Start", StartCells(starts));
    SetColumnSpec(f1, "Fecha", DateCells(starts));
    SetColumnSpec(f2, "Hora", HourCells(starts));
    SetColumnSpec(f3, "Tm_start_local_at", FullCells(starts));
  }

  /** Lines 204 and 225-227 write the formatted resolution into 'Fecha', 'Hora' and 'Tm_start_local_at' and leave every other column as it was. */
  lemma FormattedSpec(f: Frame)
    requires Joined(f)
    ensures forall c :: c in Formatted(f).columns <==>
      c in f.columns || c == "Calculated_Start" || c == "Fecha" || c == "Hora" || c == "Tm_start_local_at"
    ensures Distinct(f.columns) ==> Distinct(Formatted(f).columns)
    ensures Column(Formatted(f), "Calculated_Start") == StartCells(Calculated(f))
    ensures Column(Formatted(f), "Fecha") == DateCells(Calculated(f))
    ensures Column(Formatted(f), "Hora") == HourCells(Calculated(f))
    ensures Column(Formatted(f), "Tm_start_local_at") == FullCells(Calculated(f))
    ensures forall c :: c in f.columns && c != "Calculated_Start" && c != "Fecha" && c != "Hora" && c != "Tm_start_local_at" ==>
      Column(Formatted(f), c) == Column(f, c)
  {
    FormattedLabels(f);
    FormattedStartAndDate(f);
    FormattedHourAndFull(f);
    FormattedKeeps(f);
  }

  /** After the rename loop each label is the adjusted mapping's entry for it, or itself. */
  lemma RenamedIsLookup(f: Frame, tested: seq<string>)
    ensures forall q :: 0 <= q < |f.columns| ==> RenamedColumns(f, tested)[q] == Lookup(AdjustMapping(tested), f.columns[q])
  {
    var m := AdjustMapping(tested);
    MappingsNeverChain();
    RenameAllPointwise(m, f.columns);
    forall q | 0 <= q < |f.columns| ensures RenamedColumns(f, tested)[q] == Lookup(m, f.columns[q]) {
      FollowIsLookup(m, f.columns[q]);
    }
  }

  /**
   * The report holds exactly the desired labels some renamed column carries; when the
   * renamed labels are distinct they come once each, in the desired order.
   */
  lemma ProjectColumns(f: Frame, tested: seq<string>)
    requires Rectangular(f)
    ensures forall c :: c in Project(f, tested).columns <==> c in DesiredOrder && c in RenamedColumns(f, tested)
    ensures Distinct(RenamedColumns(f, tested)) ==> Project(f, tested).columns == ValidCols(DesiredOrder, RenamedColumns(f, tested))
  {
    var cols := RenamedColumns(f, tested);
    DesiredOrderFacts();
    ValidColsSpec(DesiredOrder, cols);
    SelectColumns(Relabel(f, cols), ValidCols(DesiredOrder, cols));
    if Distinct(cols) {
      SelectDistinct(cols, ValidCols(DesiredOrder, cols));
    }
  }

  /** A report label that exactly one column renames to holds that column's cells. */
  lemma ProjectColumn(f: Frame, tested: seq<string>, name: string, target: string)
    requires Rectangular(f) && Distinct(f.columns) && name in f.columns && target in DesiredOrder
    requires forall q :: 0 <= q < |f.columns| ==> (Lookup(AdjustMapping(tested), f.columns[q]) == target <==> f.columns[q] == name)
    ensures target in Project(f, tested).columns && Column(Project(f, tested), target) == Column(f, name)
  {
    var cols := RenamedColumns(f, tested);
    RenamedIsLookup(f, tested);
    RelabelColumn(f, cols, name, target);
    var p := IndexOf(cols, target);
    forall q | 0 <= q < |cols| && cols[q] == target ensures q == p {
      assert f.columns[q] == name && f.columns[p] == name;
    }
    DesiredOrderFacts();
    ValidColsSpec(DesiredOrder, cols);
    SelectSingleColumn(Relabel(f, cols), ValidCols(DesiredOrder, cols), target, p);
  }

  /** A report label no column renames to is not in the report. */
  lemma ProjectLacks(f: Frame, tested: seq<string>, target: string)
    requires Rectangular(f)
    requires forall q :: 0 <= q < |f.columns| ==> Lookup(AdjustMapping(tested), f.columns[q]) != target
    ensures target !in Project(f, tested).columns
  {
    RenamedIsLookup(f, tested);
    ProjectColumns(f, tested);
  }

  /** 'Hora' and 'Tm_start_local_at' are renamed to themselves and nothing else is renamed to them. */
  lemma KeepsOwnLabel(tested: seq<string>, cols: seq<string>, name: string)
    requires name == "Hora" || name == "Tm_start_local_at"
    ensures forall q :: 0 <= q < |cols| ==> (Lookup(AdjustMapping(tested), cols[q]) == name <==> cols[q] == name)
  {
    forall q | 0 <= q < |cols| ensures Lookup(AdjustMapping(tested), cols[q]) == name <==> cols[q] == name {
      ReportLabelSources(cols[q]);
    }
  }

  /** Whichever labels line 245 tests, the computed hour and full timestamp reach the report. */
  lemma ProjectReportsComputed(merged: Frame, tested: seq<string>)
    requires Joined(merged) && Distinct(merged.columns)
    ensures var out := Project(Formatted(merged), tested);
      && "Hora" in out.columns && Column(out, "Hora") == HourCells(Calculated(merged))
      && "Tm_start_local_at" in out.columns && Column(out, "Tm_start_local_at") == FullCells(Calculated(merged))
  {
    var f := Formatted(merged);
    FormattedSpec(merged);
    KeepsOwnLabel(tested, f.columns, "Hora");
    KeepsOwnLabel(tested, f.columns, "Tm_start_local_at");
    DesiredOrderFacts();
    ProjectColumn(f, tested, "Hora", "Hora");
    ProjectColumn(f, tested, "Tm_start_local_at", "Tm_start_local_at");
  }

  /**
   * Whatever the frame holds, the computed 'Hora' and 'Tm_start_local_at' reach the report,
   * as written and as intended: each of those report columns holds the formatted resolution
   * of its row.
   */
  lemma FinishReportsComputed(merged: Frame)
    requires Joined(merged) && Distinct(merged.columns)
    ensures var out := Finish(merged);
      && "Hora" in out.columns && Column(out, "Hora") == HourCells(Calculated(merged))
      && "Tm_start_local_at" in out.columns && Column(out, "Tm_start_local_at") == FullCells(Calculated(merged))
    ensures var out := FinishIntended(merged);
      && "Hora" in out.columns && Column(out, "Hora") == HourCells(Calculated(merged))
      && "Tm_start_local_at" in out.columns && Column(out, "Tm_start_local_at") == FullCells(Calculated(merged))
  {
    ProjectReportsComputed(merged, Formatted(merged).columns);
    var g := SetMasterDateAside(merged);
    SetAsideDistinct(merged);
    SetAsideKeepsStarts(merged);
    ProjectReportsComputed(g, g.columns);
  }

  /**
   * As written, any frame without 'Fecha_x' loses its 'Fecha' column: line 225 always creates
   * 'Fecha', so the test of line 245 always passes and lines 245-246 send the computed date to
   * 'Datetime Compensación', overwriting on the way any 'Fecha' the master brought.
   */
  lemma FinishRelabelsDate(merged: Frame)
    requires Joined(merged) && "Fecha_x" !in merged.columns
    ensures "Fecha" !in Finish(merged).columns
    ensures Distinct(merged.columns) && DatetimeCompensacion !in merged.columns ==>
      var out := Finish(merged);
      DatetimeCompensacion in out.columns && Column(out, DatetimeCompensacion) == DateCells(Calculated(merged))
  {
    FinishDropsDate(merged);
    if Distinct(merged.columns) && DatetimeCompensacion !in merged.columns {
      FinishMovesDate(merged);
    }
  }

  /** The first half of `FinishRelabelsDate`: nothing is renamed to 'Fecha'. */
  lemma FinishDropsDate(merged: Frame)
    requires Joined(merged) && "Fecha_x" !in merged.columns
    ensures "Fecha" !in Finish(merged).columns
  {
    var f := Formatted(merged);
    FormattedLabels(merged);
    assert RedirectsDate(f.columns);
    forall q | 0 <= q < |f.columns| ensures Lookup(AdjustMapping(f.columns), f.columns[q]) != "Fecha" {
      ReportLabelSources(f.columns[q]);
    }
    ProjectLacks(f, f.columns, "Fecha");
  }

  /** The second half of `FinishRelabelsDate`: only the computed 'Fecha' is renamed to 'Datetime Compensación'. */
  lemma FinishMovesDate(merged: Frame)
    requires Joined(merged) && Distinct(merged.columns)
    requires "Fecha_x" !in merged.columns && DatetimeCompensacion !in merged.columns
    ensures var out := Finish(merged);
      DatetimeCompensacion in out.columns && Column(out, DatetimeCompensacion) == DateCells(Calculated(merged))
  {
    var f := Formatted(merged);
    FormattedLabels(merged);
    FormattedStartAndDate(merged);
    assert RedirectsDate(f.columns) && DatetimeCompensacion !in f.columns;
    forall q | 0 <= q < |f.columns|
      ensures Lookup(AdjustMapping(f.columns), f.columns[q]) == DatetimeCompensacion <==> f.columns[q] == "Fecha"
    {
      ReportLabelSources(f.columns[q]);
    }
    DesiredOrderFacts();
    ProjectColumn(f, f.columns, "Fecha", DatetimeCompensacion);
  }

  /**
   * The master's own 'Fecha' set aside as 'Fecha_x' before line 225 overwrites it, which is
   * what the comments at lines 231 and 247-250 take the merge to have done. Afterwards a
   * 'Fecha' remains only beside a 'Fecha_x'.
   */
  function SetMasterDateAside(f: Frame): (r: Frame)
    requires Joined(f)
    ensures Joined(r) && |r.rows| == |f.rows|
    ensures "Fecha" in r.columns ==> "Fecha_x" in r.columns
  {
    if "Fecha" in f.columns && "Fecha_x" !in f.columns then
      RenameKeepsColumn(f, "Fecha", "Fecha_x", "tm_start_dt");
      RenameKeepsColumn(f, "Fecha", "Fecha_x", "Modo");
      RenameKeepsColumn(f, "Fecha", "Fecha_x", "F.Desde Aerop_dt");
      RenameKeepsColumn(f, "Fecha", "Fecha_x", "F.Hacia Aerop_dt");
      Relabel(f, RenameLabel(f.columns, "Fecha", "Fecha_x"))
    else f
  }

  /**
   * Lines 204-272 as intended: the master's date set aside first, and the test of line 245
   * made on the labels before line 225 adds the computed 'Fecha'.
   */
  function FinishIntended(merged: Frame): (r: Frame)
    requires Joined(merged)
    ensures Rectangular(r) && |r.rows| == |merged.rows|
  {
    var g := SetMasterDateAside(merged);
    Project(Formatted(g), g.columns)
  }

  /** Setting the master's date aside keeps the labels distinct. */
  lemma SetAsideDistinct(f: Frame)
    requires Joined(f) && Distinct(f.columns)
    ensures Distinct(SetMasterDateAside(f).columns)
  {
    if "Fecha" in f.columns && "Fecha_x" !in f.columns {
      RenameLabelDistinct(f.columns, "Fecha", "Fecha_x");
    }
  }

  /** Setting the master's date aside changes no column that `get_final_tm` reads. */
  lemma SetAsideKeepsStarts(f: Frame)
    requires Joined(f)
    ensures Calculated(SetMasterDateAside(f)) == Calculated(f)
  {
    var g := SetMasterDateAside(f);
    if "Fecha" in f.columns && "Fecha_x" !in f.columns {
      RenameKeepsColumn(f, "Fecha", "Fecha_x", "tm_start_dt");
      RenameKeepsColumn(f, "Fecha", "Fecha_x", "Modo");
      RenameKeepsColumn(f, "Fecha", "Fecha_x", "F.Desde Aerop_dt");
      RenameKeepsColumn(f, "Fecha", "Fecha_x", "F.Hacia Aerop_dt");
    }
  }

  /**
   * As intended, every report has the computed date under 'Fecha', whatever date columns the
   * master brings.
   */
  lemma FinishIntendedReportsDate(merged: Frame)
    requires Joined(merged) && Distinct(merged.columns)
    ensures var out := FinishIntended(merged);
      "Fecha" in out.columns && Column(out, "Fecha") == DateCells(Calculated(merged))
  {
    var g := SetMasterDateAside(merged);
    SetAsideDistinct(merged);
    SetAsideKeepsStarts(merged);
    var f := Formatted(g);
    FormattedSpec(g);
    assert !RedirectsDate(g.columns);
    forall q | 0 <= q < |f.columns|
      ensures Lookup(AdjustMapping(g.columns), f.columns[q]) == "Fecha" <==> f.columns[q] == "Fecha"
    {
      ReportLabelSources(f.columns[q]);
    }
    DesiredOrderFacts();
    ProjectColumn(f, g.columns, "Fecha", "Fecha");
  }

  /**
   * A frame whose master date sits under 'Fecha_x', as the comment at line 231 expects:
   * testing line 245 before or after line 225 makes no difference, 'Datetime Compensación'
   * gets that date and 'Fecha' the computed one.
   */
  lemma FinishKeepsSuffixedDate(g: Frame)
    requires Joined(g) && Distinct(g.columns) && "Fecha_x" in g.columns && DatetimeCompensacion !in g.columns
    ensures Project(Formatted(g), g.columns) == Finish(g)
    ensures var out := Finish(g);
      && DatetimeCompensacion in out.columns && Column(out, DatetimeCompensacion) == Column(g, "Fecha_x")
      && "Fecha" in out.columns && Column(out, "Fecha") == DateCells(Calculated(g))
  {
    var f := Formatted(g);
    FormattedSpec(g);
    assert "Fecha_x" in f.columns && DatetimeCompensacion !in f.columns;
    assert AdjustMapping(g.columns) == AdjustMapping(f.columns);
    forall q | 0 <= q < |f.columns|
      ensures Lookup(AdjustMapping(f.columns), f.columns[q]) == DatetimeCompensacion <==> f.columns[q] == "Fecha_x"
      ensures Lookup(AdjustMapping(f.columns), f.columns[q]) == "Fecha" <==> f.columns[q] == "Fecha"
    {
      ReportLabelSources(f.columns[q]);
    }
    DesiredOrderFacts();
    ProjectColumn(f, f.columns, "Fecha_x", DatetimeCompensacion);
    ProjectColumn(f, f.columns, "Fecha", "Fecha");
  }

  /** Setting the master's date aside moves it under 'Fecha_x' and keeps the labels distinct. */
  lemma SetAsideMovesDate(merged: Frame)
    requires Joined(merged) && Distinct(merged.columns) && "Fecha" in merged.columns
    requires "Fecha_x" !in merged.columns && DatetimeCompensacion !in merged.columns
    ensures var g := SetMasterDateAside(merged);
      && Distinct(g.columns) && "Fecha_x" in g.columns && "Fecha" !in g.columns && DatetimeCompensacion !in g.columns
      && Column(g, "Fecha_x") == Column(merged, "Fecha")
  {
    var cols := RenameLabel(merged.columns, "Fecha", "Fecha_x");
    RenameLabelDistinct(merged.columns, "Fecha", "Fecha_x");
    RelabelColumn(merged, cols, "Fecha", "Fecha_x");
  }

  /**
   * With the master's date set aside, the report keeps both dates: 'Datetime Compensación'
   * holds the master's 'Fecha' and 'Fecha' holds the computed date.
   */
  lemma FinishIntendedKeepsBothDates(merged: Frame)
    requires Joined(merged) && Distinct(merged.columns) && "Fecha" in merged.columns
    requires "Fecha_x" !in merged.columns && DatetimeCompensacion !in merged.columns
    ensures var out := FinishIntended(merged);
      && DatetimeCompensacion in out.columns && Column(out, DatetimeCompensacion) == Column(merged, "Fecha")
      && "Fecha" in out.columns && Column(out, "Fecha") == DateCells(Calculated(merged))
  {
    SetAsideMovesDate(merged);
    SetAsideKeepsStarts(merged);
    FinishKeepsSuffixedDate(SetMasterDateAside(merged));
  }

  /** A frame that already holds 'Fecha_x' finishes the same way as written and as intended. */
  lemma SuffixedDateAgrees(f: Frame)
    requires Joined(f) && "Fecha_x" in f.columns
    ensures FinishIntended(f) == Finish(f)
  {
    FormattedLabels(f);
    assert AdjustMapping(f.columns) == AdjustMapping(Formatted(f).columns);
  }

  /** The merged frame holds the master's labels, 'id_key' and the merge-added labels, distinct when the master's are and nothing clashes. */
  lemma MergedColumns(master: Frame, reservations: seq<ReservationRow>, transactions: Transactions,
                      toDatetime: string -> Option<Timestamp>)
    requires Rectangular(master) && "id_reserva" in master.columns
    ensures forall c :: c in Merged(master, reservations, transactions, toDatetime).columns <==>
      c in master.columns || c == "id_key" || c in MergedNames
    ensures Distinct(master.columns) && (forall name :: name in MergedNames ==> name !in master.columns) ==>
      Distinct(Merged(master, reservations, transactions, toDatetime).columns)
  {
    var keyed := KeyMaster(master);
    if Distinct(master.columns) && forall name :: name in MergedNames ==> name !in master.columns {
      assert Distinct(MergedNames);
      DistinctConcat(keyed.columns, MergedNames);
    }
  }

  /** A label that is neither the key nor added by the merge is in the merged frame exactly when the master has it. */
  lemma MergeKeepsLabel(master: Frame, keyed: Frame, name: string)
    requires forall c :: c in keyed.columns <==> c in master.columns || c == "id_key"
    requires name != "id_key" && name !in MergedNames
    ensures name in keyed.columns + MergedNames <==> name in master.columns
  {
  }

  /** The merge keeps the master's date labels as they are: `cols` are the merged frame's labels. */
  lemma MergedDateLabels(master: Frame, cols: seq<string>)
    requires Rectangular(master) && "id_reserva" in master.columns
    requires cols == KeyMaster(master).columns + MergedNames
    ensures "Fecha" in cols <==> "Fecha" in master.columns
    ensures "Fecha_x" in cols <==> "Fecha_x" in master.columns
    ensures DatetimeCompensacion in cols <==> DatetimeCompensacion in master.columns
  {
    var keyed := KeyMaster(master);
    MergeKeepsLabel(master, keyed, "Fecha");
    MergeKeepsLabel(master, keyed, "Fecha_x");
    MergeKeepsLabel(master, keyed, DatetimeCompensacion);
  }

  /**
   * A run that gets past every stop yields the report of its merged frame: finished as
   * written by `Generate`, and with the master's date kept apart by `GenerateIntended`.
   */
  lemma GenerateIsFinish(master: Frame, reservations: seq<ReservationRow>, transactions: Transactions,
                         toDatetime: string -> Option<Timestamp>)
    requires Rectangular(master) && Runs(master, reservations, transactions, toDatetime)
    ensures Generate(master, reservations, transactions, toDatetime)
         == Generated(Finish(Merged(master, reservations, transactions, toDatetime)))
    ensures GenerateIntended(master, reservations, transactions, toDatetime)
         == Generated(FinishIntended(Merged(master, reservations, transactions, toDatetime)))
  {
    assert Clash(KeyMaster(master).columns).None?;
  }

  /**
   * The report of a master with distinct labels carries the computed hour and full timestamp
   * of every joined row, as written and as intended.
   */
  lemma ComputedColumnsReported(master: Frame, reservations: seq<ReservationRow>, transactions: Transactions,
                                toDatetime: string -> Option<Timestamp>)
    requires Rectangular(master) && Distinct(master.columns)
    requires Generate(master, reservations, transactions, toDatetime).Generated?
    ensures var out := Generate(master, reservations, transactions, toDatetime).frame;
      var starts := Calculated(Merged(master, reservations, transactions, toDatetime));
      && "Hora" in out.columns && Column(out, "Hora") == HourCells(starts)
      && "Tm_start_local_at" in out.columns && Column(out, "Tm_start_local_at") == FullCells(starts)
    ensures var out := GenerateIntended(master, reservations, transactions, toDatetime).frame;
      var starts := Calculated(Merged(master, reservations, transactions, toDatetime));
      && "Hora" in out.columns && Column(out, "Hora") == HourCells(starts)
      && "Tm_start_local_at" in out.columns && Column(out, "Tm_start_local_at") == FullCells(starts)
  {
    MergedColumns(master, reservations, transactions, toDatetime);
    GenerateIsFinish(master, reservations, transactions, toDatetime);
    FinishReportsComputed(Merged(master, reservations, transactions, toDatetime));
  }

  /**
   * As written, the report of any master without 'Fecha_x' has no 'Fecha' column; when the
   * master has no 'Datetime Compensación' either, that column holds the computed dates, in
   * place of the master's own 'Fecha' if it had one.
   */
  lemma ComputedDateRelabelled(master: Frame, reservations: seq<ReservationRow>, transactions: Transactions,
                               toDatetime: string -> Option<Timestamp>)
    requires Rectangular(master) && Runs(master, reservations, transactions, toDatetime)
    requires "Fecha_x" !in master.columns
    ensures var merged := Merged(master, reservations, transactions, toDatetime);
      var out := Finish(merged);
      && Generate(master, reservations, transactions, toDatetime) == Generated(out)
      && "Fecha" !in out.columns
      && (Distinct(master.columns) && DatetimeCompensacion !in master.columns ==>
            DatetimeCompensacion in out.columns && Column(out, DatetimeCompensacion) == DateCells(Calculated(merged)))
  {
    var merged := Merged(master, reservations, transactions, toDatetime);
    MergedDateLabels(master, merged.columns);
    MergedColumns(master, reservations, transactions, toDatetime);
    FinishRelabelsDate(merged);
    GenerateIsFinish(master, reservations, transactions, toDatetime);
  }

  /**
   * As intended, the report of every master with distinct labels has the computed date under
   * 'Fecha'; a master 'Fecha' (with neither 'Fecha_x' nor 'Datetime Compensación') reaches
   * 'Datetime Compensación'.
   */
  lemma IntendedKeepsBothDates(master: Frame, reservations: seq<ReservationRow>, transactions: Transactions,
                               toDatetime: string -> Option<Timestamp>)
    requires Rectangular(master) && Distinct(master.columns) && Runs(master, reservations, transactions, toDatetime)
    ensures var merged := Merged(master, reservations, transactions, toDatetime);
      var out := FinishIntended(merged);
      && GenerateIntended(master, reservations, transactions, toDatetime) == Generated(out)
      && "Fecha" in out.columns && Column(out, "Fecha") == DateCells(Calculated(merged))
      && ("Fecha" in master.columns && "Fecha_x" !in master.columns && DatetimeCompensacion !in master.columns ==>
            DatetimeCompensacion in out.columns && Column(out, DatetimeCompensacion) == Column(merged, "Fecha"))
  {
    var merged := Merged(master, reservations, transactions, toDatetime);
    MergedDateLabels(master, merged.columns);
    MergedColumns(master, reservations, transactions, toDatetime);
    FinishIntendedReportsDate(merged);
    if "Fecha" in master.columns && "Fecha_x" !in master.columns && DatetimeCompensacion !in master.columns {
      FinishIntendedKeepsBothDates(merged);
    }
    GenerateIsFinish(master, reservations, transactions, toDatetime);
  }

  /** A master that brings its date as 'Fecha_x', as the comment at line 231 expects, gets the same outcome either way. */
  lemma IntendedAgreesWithSuffixedDate(master: Frame, reservations: seq<ReservationRow>, transactions: Transactions,
                                       toDatetime: string -> Option<Timestamp>)
    requires Rectangular(master) && "Fecha_x" in master.columns
    ensures GenerateIntended(master, reservations, transactions, toDatetime)
         == Generate(master, reservations, transactions, toDatetime)
  {
    if Runs(master, reservations, transactions, toDatetime) {
      var merged := Merged(master, reservations, transactions, toDatetime);
      MergedDateLabels(master, merged.columns);
      SuffixedDateAgrees(merged);
      GenerateIsFinish(master, reservations, transactions, toDatetime);
    }
  }

  /**
   * Transaction files without 'Id Reserva' stop the run at line 169 whenever there are
   * transactions and the master has a cleaned id and passed line 163: line 140 leaves every
   * transaction key missing (float64) against the master's text keys.
   */
  lemma TransactionsWithoutIdsStop(master: Frame, reservations: seq<ReservationRow>, transactions: Transactions,
                                   toDatetime: string -> Option<Timestamp>)
    requires Rectangular(master) && "id_reserva" in master.columns
    requires !transactions.hasIdColumn && |transactions.rows| > 0
    requires exists i :: 0 <= i < |master.rows| && !Column(master, "id_reserva")[i].Null?
    requires !KeyKindsClash(MasterIds(master), Join.Keys(ReservationSide(reservations, toDatetime)))
    ensures Generate(master, reservations, transactions, toDatetime) == MismatchedKeys(TransactionJoin)
  {
    var i :| 0 <= i < |master.rows| && !Column(master, "id_reserva")[i].Null?;
    assert !MasterIds(master)[i].Null?;
  }

  /** Two columns that rename to the same desired label both reach the report, which then repeats that label. */
  lemma ProjectKeepsRepeats(f: Frame, tested: seq<string>, p: nat, q: nat, target: string)
    requires Rectangular(f) && p < q < |f.columns| && target in DesiredOrder
    requires Lookup(AdjustMapping(tested), f.columns[p]) == target
    requires Lookup(AdjustMapping(tested), f.columns[q]) == target
    ensures !Distinct(Project(f, tested).columns)
  {
    var cols := RenamedColumns(f, tested);
    RenamedIsLookup(f, tested);
    DesiredOrderFacts();
    ValidColsSpec(DesiredOrder, cols);
    SelectRepeats(Relabel(f, cols), ValidCols(DesiredOrder, cols), p, q);
  }

  /**
   * Distinct labels can still rename to one report label: a frame holding both 'Total
   * Compensación' and 'Monto a compensar' reports 'Monto a compensar' twice.
   */
  lemma ReportLabelsCanRepeat(rows: seq<seq<Cell>>)
    requires forall i :: 0 <= i < |rows| ==> |rows[i]| == 2
    ensures var f := Frame(["Total Compensación", "Monto a compensar"], rows);
      !Distinct(Project(f, f.columns).columns)
  {
    var f := Frame(["Total Compensación", "Monto a compensar"], rows);
    MappingsNeverChain();
    MappingTotals();
    assert AdjustMapping(f.columns) == ColumnMapping;
    LookupIs(ColumnMapping, "Total Compensación", "Monto a compensar");
    LookupIs(ColumnMapping, "Monto a compensar", "Monto a compensar");
    DesiredOrderFacts();
    assert "Monto a compensar" in DesiredOrder;
    ProjectKeepsRepeats(f, f.columns, 0, 1, "Monto a compensar");
  }
}

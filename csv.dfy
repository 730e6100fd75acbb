/** The windowed CSV extraction driver: it drives the field tokenizer over the input,
    builds cells from chunks, groups cells into records, keeps the records whose index
    lies in the row window, cuts each kept record to the column window, and, with a row
    count, stops at the end of the record after the row window, which it reads and decodes
    but does not keep. */
module Csv {
  import opened Wrappers
  import opened CsvStream

  /** The one way the driver fails: a chunk that is not valid UTF-8. */
  datatype CsvError = Utf8Error

  type Table = seq<Row>

  /** Inclusion test for the record with index `rowIdx`. */
  predicate ShouldProcessRow(rowIdx: nat, startingRow: nat, rows: Option<nat>)
  {
    rowIdx >= startingRow && (rows.None? || rowIdx < startingRow + rows.value)
  }

  /** Termination test for the record with index `rowIdx`. */
  predicate ShouldStopProcessing(rowIdx: nat, startingRow: nat, rows: Option<nat>)
  {
    rows.Some? && rowIdx >= startingRow + rows.value
  }

  /** The two tests never both hold, and from `startingRow` on, with a row count, exactly
      one of them holds: a record is either kept or ends the scan. */
  lemma RowChecksExclusive(rowIdx: nat, startingRow: nat, rows: Option<nat>)
    ensures !(ShouldProcessRow(rowIdx, startingRow, rows) && ShouldStopProcessing(rowIdx, startingRow, rows))
    ensures rows.Some? && rowIdx >= startingRow ==>
              (ShouldProcessRow(rowIdx, startingRow, rows) <==> !ShouldStopProcessing(rowIdx, startingRow, rows))
    ensures rows.None? ==> !ShouldStopProcessing(rowIdx, startingRow, rows)
  {
  }

  /** The column window lies inside `row`: otherwise slicing it panics. */
  predicate ColumnsFit(row: Row, startingCol: nat, cols: Option<nat>)
  {
    match cols
    case Some(n) => startingCol + n <= |row|
    case None => startingCol <= |row|
  }

  /** The cells of `row` in the column window `[startingCol, startingCol + cols)`, or from
      `startingCol` to the end when no count is given. */
  function FilterRow(row: Row, startingCol: nat, cols: Option<nat>): (r: Row)
    requires ColumnsFit(row, startingCol, cols)
    ensures |r| == if cols.Some? then cols.value else |row| - startingCol
    ensures forall j :: 0 <= j < |r| ==> r[j] == row[startingCol + j]
  {
    match cols
    case Some(n) => row[startingCol..startingCol + n]
    case None => row[startingCol..]
  }

  function Min(a: nat, b: nat): nat { if a <= b then a else b }

  /** The index range `[lo, hi)` of the records the row window keeps among `n` records. */
  function KeptBounds(n: nat, startingRow: nat, rows: Option<nat>): (b: (nat, nat))
    ensures b.0 <= b.1 <= n
    ensures forall i :: 0 <= i < n ==> (b.0 <= i < b.1 <==> ShouldProcessRow(i, startingRow, rows))
    ensures b.1 - b.0 == var available := if startingRow <= n then n - startingRow else 0;
                         if rows.Some? then Min(rows.value, available) else available
  {
    var lo := Min(startingRow, n);
    var hi := if rows.Some? then Min(startingRow + rows.value, n) else n;
    (lo, hi)
  }

  /** Every record the row window keeps fits the column window. */
  predicate WindowFits(records: seq<Row>, startingRow: nat, startingCol: nat, cols: Option<nat>, rows: Option<nat>)
  {
    forall i :: 0 <= i < |records| && ShouldProcessRow(i, startingRow, rows) ==>
      ColumnsFit(records[i], startingCol, cols)
  }

  /** The window of `records`: the records with index in `[startingRow, startingRow + rows)`
      (or from `startingRow` on), in source order, each cut to the column window. */
  function Window(records: seq<Row>, startingRow: nat, startingCol: nat, cols: Option<nat>, rows: Option<nat>): (t: Table)
    requires WindowFits(records, startingRow, startingCol, cols, rows)
    ensures var b := KeptBounds(|records|, startingRow, rows);
            |t| == b.1 - b.0 &&
            forall k :: 0 <= k < |t| ==> t[k] == FilterRow(records[b.0 + k], startingCol, cols)
  {
    var b := KeptBounds(|records|, startingRow, rows);
    seq(b.1 - b.0, k requires 0 <= k < b.1 - b.0 => FilterRow(records[b.0 + k], startingCol, cols))
  }

  /** Completing one more record adds its cut cells to the window exactly when the
      inclusion test keeps it. */
  lemma WindowExtend(records: seq<Row>, row: Row, startingRow: nat, startingCol: nat, cols: Option<nat>, rows: Option<nat>)
    requires WindowFits(records + [row], startingRow, startingCol, cols, rows)
    ensures WindowFits(records, startingRow, startingCol, cols, rows)
    ensures ShouldProcessRow(|records|, startingRow, rows) ==> ColumnsFit(row, startingCol, cols)
    ensures Window(records + [row], startingRow, startingCol, cols, rows) ==
              Window(records, startingRow, startingCol, cols, rows) +
              (if ShouldProcessRow(|records|, startingRow, rows) then [FilterRow(row, startingCol, cols)] else [])
  {
    var all := records + [row];
    assert forall i :: 0 <= i < |records| ==> all[i] == records[i];
    assert all[|records|] == row;
    var t := Window(records, startingRow, startingCol, cols, rows);
    var t' := Window(all, startingRow, startingCol, cols, rows);
    var b := KeptBounds(|records|, startingRow, rows);
    var b' := KeptBounds(|all|, startingRow, rows);
    if ShouldProcessRow(|records|, startingRow, rows) {
      assert b'.0 == b.0 && b'.1 == |records| + 1 && b.1 == |records|;
      assert t' == t + [FilterRow(row, startingCol, cols)];
    } else {
      assert b'.0 == b.0 || b.0 == b.1;
      assert t' == t;
    }
  }

  /** The window of a prefix of the records equals the window of all of them once the
      prefix reaches past the last kept index. */
  lemma WindowOfPrefix(records: seq<Row>, all: seq<Row>, startingRow: nat, startingCol: nat, cols: Option<nat>, rows: Option<nat>)
    requires records <= all && rows.Some? && |records| >= startingRow + rows.value
    requires WindowFits(records, startingRow, startingCol, cols, rows)
    ensures WindowFits(all, startingRow, startingCol, cols, rows)
    ensures Window(all, startingRow, startingCol, cols, rows) == Window(records, startingRow, startingCol, cols, rows)
  {
    assert forall i :: 0 <= i < |records| ==> all[i] == records[i];
  }

  /** The window with no options set is every record, whole. */
  lemma WindowWithoutOptions(records: seq<Row>)
    ensures WindowFits(records, 0, 0, None, None)
    ensures Window(records, 0, 0, None, None) == records
  {
    assert forall i :: 0 <= i < |records| ==> records[i][0..] == records[i];
  }

  /** The scan budget: the driver stops on the record with index `startingRow + rows`. */
  function StopBudget(startingRow: nat, rows: Option<nat>): Option<nat>
  {
    if rows.Some? then Some(startingRow + rows.value) else None
  }

  /** The answers the driver reads and decodes before it leaves its loop. */
  function Scan(steps: seq<Step>, startingRow: nat, rows: Option<nat>): seq<Step>
  {
    Scanned(steps, StopBudget(startingRow, rows))
  }

  /** The records completed among the answers the driver reads, up to a chunk that does
      not decode. */
  function ScannedRecords(steps: seq<Step>, decode: Decoder, startingRow: nat, rows: Option<nat>): seq<Row>
  {
    Records(DecodePrefix(Scan(steps, startingRow, rows), decode).pieces)
  }

  /** The records of the whole stream, read up to the first terminal answer or the first
      chunk that does not decode, with no window at all. */
  function AllRecords(steps: seq<Step>, decode: Decoder): seq<Row>
  {
    Records(DecodePrefix(Scanned(steps, None), decode).pieces)
  }

  /** The driver never slices a record outside its cells: every record that it keeps
      before it stops or fails fits the column window. */
  predicate NoSlicePanic(steps: seq<Step>, decode: Decoder, startingCol: Option<nat>, startingRow: Option<nat>,
                         cols: Option<nat>, rows: Option<nat>)
  {
    var s := startingRow.GetOr(0);
    WindowFits(ScannedRecords(steps, decode, s, rows), s, startingCol.GetOr(0), cols, rows)
  }

  /** What the driver returns on the tokenizer answers `steps`: a decoding error when a
      chunk it reads does not decode, and otherwise the window of the records it reads. */
  function ParseSpec(steps: seq<Step>, decode: Decoder, startingCol: Option<nat>, startingRow: Option<nat>,
                     cols: Option<nat>, rows: Option<nat>): Result<Table, CsvError>
    requires NoSlicePanic(steps, decode, startingCol, startingRow, cols, rows)
  {
    var s := startingRow.GetOr(0);
    var d := DecodePrefix(Scan(steps, s, rows), decode);
    if d.failed then Err(Utf8Error) else Ok(Window(Records(d.pieces), s, startingCol.GetOr(0), cols, rows))
  }

  /** The budget left once `rowIdx` records are complete. */
  function Remaining(startingRow: nat, rows: Option<nat>, rowIdx: nat): Option<nat>
    requires rows.Some? ==> rowIdx <= startingRow + rows.value
  {
    if rows.Some? then Some(startingRow + rows.value - rowIdx) else None
  }

  lemma ScanStep(steps: seq<Step>, i: nat, budget: Option<nat>)
    requires i < |steps| && !steps[i].result.IsTerminal()
    requires !(steps[i].result == Field(true) && budget == Some(0))
    ensures steps[..i] + Scanned(steps[i..], budget) ==
              steps[..i + 1] + Scanned(steps[i + 1..], Countdown(budget, steps[i]))
  {
    var rest := Scanned(steps[i + 1..], Countdown(budget, steps[i]));
    assert Scanned(steps[i..], budget) == [steps[i]] + rest by {
      assert steps[i..][0] == steps[i];
      assert steps[i..][1..] == steps[i + 1..];
    }
    MoveIntoPrefix(steps, i, rest);
  }

  /** Answer `i` moves from the front of the rest onto the end of the prefix. */
  lemma MoveIntoPrefix(steps: seq<Step>, i: nat, rest: seq<Step>)
    requires i < |steps|
    ensures steps[..i] + ([steps[i]] + rest) == steps[..i + 1] + rest
  {
    assert steps[..i] + ([steps[i]] + rest) == (steps[..i] + [steps[i]]) + rest;
    assert steps[..i] + [steps[i]] == steps[..i + 1];
  }

  lemma ScanStopStep(steps: seq<Step>, i: nat)
    requires i < |steps| && steps[i].result == Field(true)
    ensures steps[..i] + Scanned(steps[i..], Some(0)) == steps[..i + 1]
  {
    assert steps[i..][0] == steps[i];
    assert steps[..i] + [steps[i]] == steps[..i + 1];
  }

  lemma ScanTerminalStep(steps: seq<Step>, i: nat, budget: Option<nat>)
    requires i < |steps| && steps[i].result.IsTerminal()
    ensures steps[..i] + Scanned(steps[i..], budget) == steps[..i]
  {
    assert steps[i..][0] == steps[i];
  }

  lemma DecodeStep(steps: seq<Step>, i: nat, decode: Decoder)
    requires i < |steps| && NoTerminal(steps[..i + 1])
    ensures NoTerminal(steps[..i])
    ensures var d := DecodePrefix(steps[..i], decode);
            !d.failed ==>
              DecodePrefix(steps[..i + 1], decode) ==
                match decode(steps[i].output)
                case None => Decoding(d.pieces, true)
                case Some(text) => Decoding(d.pieces + [PieceOf(steps[i].result, text)], false)
  {
    assert steps[..i + 1][..i] == steps[..i];
    assert forall j :: 0 <= j < i ==> steps[..i][j] == steps[..i + 1][j];
  }

  /** Records completed after reading a prefix of the scanned answers are a prefix of the
      records completed after reading all of them. */
  lemma ReadRecordsArePrefix(steps: seq<Step>, decode: Decoder, startingRow: nat, rows: Option<nat>, n: nat)
    requires n <= |steps| && steps[..n] <= Scan(steps, startingRow, rows)
    ensures NoTerminal(steps[..n])
    ensures !DecodePrefix(steps[..n], decode).failed ==>
              Records(DecodePrefix(steps[..n], decode).pieces) <= ScannedRecords(steps, decode, startingRow, rows)
    ensures DecodePrefix(steps[..n], decode).failed ==> DecodePrefix(Scan(steps, startingRow, rows), decode).failed
  {
    DecodedRecordsGrow(steps[..n], Scan(steps, startingRow, rows), decode);
  }

  /** What holds each time the driver is about to call the tokenizer for answer `i`:
      the answers read so far decoded without failure into the complete `records`, the
      unfinished `row` and `cell`, and `table` is the window of `records`. */
  ghost predicate DriverState(steps: seq<Step>, decode: Decoder, startingCol: Option<nat>, startingRow: Option<nat>,
                              cols: Option<nat>, rows: Option<nat>, i: nat, rowIdx: nat,
                              records: seq<Row>, row: Row, cell: string, table: Table)
  {
    var s := startingRow.GetOr(0);
    var sc := startingCol.GetOr(0);
    i <= |steps| && NoTerminal(steps[..i]) &&
    (rows.Some? ==> rowIdx <= s + rows.value) &&
    Scan(steps, s, rows) == steps[..i] + Scanned(steps[i..], Remaining(s, rows, rowIdx)) &&
    !DecodePrefix(steps[..i], decode).failed &&
    Assemble(DecodePrefix(steps[..i], decode).pieces) == Assembly(records, row, cell) &&
    rowIdx == |records| &&
    records <= ScannedRecords(steps, decode, s, rows) &&
    WindowFits(records, s, sc, cols, rows) &&
    table == Window(records, s, sc, cols, rows)
  }

  lemma DriverStart(steps: seq<Step>, decode: Decoder, startingCol: Option<nat>, startingRow: Option<nat>,
                    cols: Option<nat>, rows: Option<nat>)
    ensures DriverState(steps, decode, startingCol, startingRow, cols, rows, 0, 0, [], [], "", [])
  {
    var s := startingRow.GetOr(0);
    assert steps[..0] == [] && steps[0..] == steps;
    assert Remaining(s, rows, 0) == StopBudget(s, rows);
    assert Scan(steps, s, rows) == steps[..0] + Scanned(steps[0..], Remaining(s, rows, 0));
    assert DecodePrefix([], decode) == Decoding([], false);
    assert Assemble([]) == Assembly([], [], "");
    assert Window([], s, startingCol.GetOr(0), cols, rows) == [];
  }

  /** Reading a non-terminal answer whose chunk fails to decode: the driver returns the
      decoding error, as the specification says. */
  lemma DriverBadChunk(steps: seq<Step>, decode: Decoder, startingCol: Option<nat>, startingRow: Option<nat>,
                       cols: Option<nat>, rows: Option<nat>, i: nat, rowIdx: nat,
                       records: seq<Row>, row: Row, cell: string, table: Table)
    requires DriverState(steps, decode, startingCol, startingRow, cols, rows, i, rowIdx, records, row, cell, table)
    requires i < |steps| && !steps[i].result.IsTerminal() && decode(steps[i].output).None?
    requires NoSlicePanic(steps, decode, startingCol, startingRow, cols, rows)
    ensures ParseSpec(steps, decode, startingCol, startingRow, cols, rows) == Err(Utf8Error)
  {
    var s := startingRow.GetOr(0);
    var budget := Remaining(s, rows, rowIdx);
    if steps[i].result == Field(true) && budget == Some(0) {
      ScanStopStep(steps, i);
    } else {
      ScanStep(steps, i, budget);
    }
    ReadRecordsArePrefix(steps, decode, s, rows, i + 1);
    DecodeStep(steps, i, decode);
  }

  /** Reading a terminal answer: the driver returns the table it has, as specified. */
  lemma DriverTerminal(steps: seq<Step>, decode: Decoder, startingCol: Option<nat>, startingRow: Option<nat>,
                       cols: Option<nat>, rows: Option<nat>, i: nat, rowIdx: nat,
                       records: seq<Row>, row: Row, cell: string, table: Table)
    requires DriverState(steps, decode, startingCol, startingRow, cols, rows, i, rowIdx, records, row, cell, table)
    requires i < |steps| && steps[i].result.IsTerminal()
    requires NoSlicePanic(steps, decode, startingCol, startingRow, cols, rows)
    ensures ParseSpec(steps, decode, startingCol, startingRow, cols, rows) == Ok(table)
  {
    ScanTerminalStep(steps, i, Remaining(startingRow.GetOr(0), rows, rowIdx));
  }

  /** Reading an `OutputFull` answer only extends the unfinished cell. */
  lemma DriverChunk(steps: seq<Step>, decode: Decoder, startingCol: Option<nat>, startingRow: Option<nat>,
                    cols: Option<nat>, rows: Option<nat>, i: nat, rowIdx: nat,
                    records: seq<Row>, row: Row, cell: string, table: Table, text: string)
    requires DriverState(steps, decode, startingCol, startingRow, cols, rows, i, rowIdx, records, row, cell, table)
    requires i < |steps| && steps[i].result == OutputFull && decode(steps[i].output) == Some(text)
    ensures DriverState(steps, decode, startingCol, startingRow, cols, rows, i + 1, rowIdx, records, row, cell + text, table)
  {
    var s := startingRow.GetOr(0);
    ScanStep(steps, i, Remaining(s, rows, rowIdx));
    ReadRecordsArePrefix(steps, decode, s, rows, i + 1);
    DecodeStep(steps, i, decode);
    AssembleStep(DecodePrefix(steps[..i], decode).pieces, Chunk(text));
  }

  /** Reading a field answer that does not end a record pushes the finished cell. */
  lemma DriverField(steps: seq<Step>, decode: Decoder, startingCol: Option<nat>, startingRow: Option<nat>,
                    cols: Option<nat>, rows: Option<nat>, i: nat, rowIdx: nat,
                    records: seq<Row>, row: Row, cell: string, table: Table, text: string)
    requires DriverState(steps, decode, startingCol, startingRow, cols, rows, i, rowIdx, records, row, cell, table)
    requires i < |steps| && steps[i].result == Field(false) && decode(steps[i].output) == Some(text)
    ensures DriverState(steps, decode, startingCol, startingRow, cols, rows, i + 1, rowIdx, records,
                        row + [cell + text], "", table)
  {
    var s := startingRow.GetOr(0);
    ScanStep(steps, i, Remaining(s, rows, rowIdx));
    ReadRecordsArePrefix(steps, decode, s, rows, i + 1);
    DecodeStep(steps, i, decode);
    AssembleStep(DecodePrefix(steps[..i], decode).pieces, FieldEnd(text, false));
  }

  /** Keeping a prefix of records keeps the column windows fitting. */
  lemma WindowFitsPrefix(records: seq<Row>, all: seq<Row>, startingRow: nat, startingCol: nat,
                         cols: Option<nat>, rows: Option<nat>)
    requires records <= all && WindowFits(all, startingRow, startingCol, cols, rows)
    ensures WindowFits(records, startingRow, startingCol, cols, rows)
  {
    assert forall j :: 0 <= j < |records| ==> records[j] == all[j];
  }

  /** The answer `i` ends a field and its chunk decodes: the pieces grow by that field end. */
  lemma ReadFieldEnd(steps: seq<Step>, decode: Decoder, i: nat, text: string, recordEnd: bool)
    requires i < |steps| && NoTerminal(steps[..i]) && !DecodePrefix(steps[..i], decode).failed
    requires steps[i].result == Field(recordEnd) && decode(steps[i].output) == Some(text)
    ensures NoTerminal(steps[..i + 1])
    ensures DecodePrefix(steps[..i + 1], decode) ==
              Decoding(DecodePrefix(steps[..i], decode).pieces + [FieldEnd(text, recordEnd)], false)
  {
    assert forall j :: 0 <= j < i ==> steps[..i + 1][j] == steps[..i][j];
    assert steps[..i + 1][i] == steps[i];
    DecodeStep(steps, i, decode);
  }

  /** Reading a record end on which the driver does not stop: the record is complete and is
      kept, fitting the column window, exactly when the inclusion test holds. */
  lemma DriverRecordEnd(steps: seq<Step>, decode: Decoder, startingCol: Option<nat>, startingRow: Option<nat>,
                        cols: Option<nat>, rows: Option<nat>, i: nat, rowIdx: nat,
                        records: seq<Row>, row: Row, cell: string, table: Table, text: string)
    requires DriverState(steps, decode, startingCol, startingRow, cols, rows, i, rowIdx, records, row, cell, table)
    requires i < |steps| && steps[i].result == Field(true) && decode(steps[i].output) == Some(text)
    requires NoSlicePanic(steps, decode, startingCol, startingRow, cols, rows)
    requires !ShouldStopProcessing(rowIdx, startingRow.GetOr(0), rows)
    ensures ShouldProcessRow(rowIdx, startingRow.GetOr(0), rows) ==>
              ColumnsFit(row + [cell + text], startingCol.GetOr(0), cols)
    ensures DriverState(steps, decode, startingCol, startingRow, cols, rows, i + 1, rowIdx + 1,
                        records + [row + [cell + text]], [], "",
                        if ShouldProcessRow(rowIdx, startingRow.GetOr(0), rows)
                        then table + [FilterRow(row + [cell + text], startingCol.GetOr(0), cols)] else table)
  {
    var s := startingRow.GetOr(0);
    var sc := startingCol.GetOr(0);
    var done := row + [cell + text];
    RecordEndRead(steps, decode, s, rows, i, rowIdx, records, row, cell, text);
    assert WindowFits(records + [done], s, sc, cols, rows) by {
      WindowFitsPrefix(records + [done], ScannedRecords(steps, decode, s, rows), s, sc, cols, rows);
    }
    WindowExtend(records, done, s, sc, cols, rows);
  }

  /** The reading half of a record end on which the driver does not stop: the scan goes on
      with one record less to read, and the completed record is among the scanned ones. */
  lemma RecordEndRead(steps: seq<Step>, decode: Decoder, s: nat, rows: Option<nat>, i: nat, rowIdx: nat,
                      records: seq<Row>, row: Row, cell: string, text: string)
    requires i < |steps| && NoTerminal(steps[..i]) && (rows.Some? ==> rowIdx <= s + rows.value)
    requires Scan(steps, s, rows) == steps[..i] + Scanned(steps[i..], Remaining(s, rows, rowIdx))
    requires !DecodePrefix(steps[..i], decode).failed
    requires Assemble(DecodePrefix(steps[..i], decode).pieces) == Assembly(records, row, cell)
    requires steps[i].result == Field(true) && decode(steps[i].output) == Some(text)
    requires !ShouldStopProcessing(rowIdx, s, rows)
    ensures rows.Some? ==> rowIdx + 1 <= s + rows.value
    ensures Scan(steps, s, rows) == steps[..i + 1] + Scanned(steps[i + 1..], Remaining(s, rows, rowIdx + 1))
    ensures NoTerminal(steps[..i + 1]) && !DecodePrefix(steps[..i + 1], decode).failed
    ensures Assemble(DecodePrefix(steps[..i + 1], decode).pieces) == Assembly(records + [row + [cell + text]], [], "")
    ensures records + [row + [cell + text]] <= ScannedRecords(steps, decode, s, rows)
  {
    var budget := Remaining(s, rows, rowIdx);
    ScanStep(steps, i, budget);
    assert Countdown(budget, steps[i]) == Remaining(s, rows, rowIdx + 1);
    ReadFieldEnd(steps, decode, i, text, true);
    AssembleStep(DecodePrefix(steps[..i], decode).pieces, FieldEnd(text, true));
    ReadRecordsArePrefix(steps, decode, s, rows, i + 1);
  }

  /** Reading the record end on which the driver stops: that record is not kept, and the
      table is the one the specification gives. */
  lemma DriverStop(steps: seq<Step>, decode: Decoder, startingCol: Option<nat>, startingRow: Option<nat>,
                   cols: Option<nat>, rows: Option<nat>, i: nat, rowIdx: nat,
                   records: seq<Row>, row: Row, cell: string, table: Table, text: string)
    requires DriverState(steps, decode, startingCol, startingRow, cols, rows, i, rowIdx, records, row, cell, table)
    requires i < |steps| && steps[i].result == Field(true) && decode(steps[i].output) == Some(text)
    requires NoSlicePanic(steps, decode, startingCol, startingRow, cols, rows)
    requires ShouldStopProcessing(rowIdx, startingRow.GetOr(0), rows)
    ensures !ShouldProcessRow(rowIdx, startingRow.GetOr(0), rows)
    ensures ParseSpec(steps, decode, startingCol, startingRow, cols, rows) == Ok(table)
  {
    var s := startingRow.GetOr(0);
    var sc := startingCol.GetOr(0);
    var done := row + [cell + text];
    assert Remaining(s, rows, rowIdx) == Some(0);
    ScanStopStep(steps, i);
    assert Scan(steps, s, rows) == steps[..i + 1];
    ReadFieldEnd(steps, decode, i, text, true);
    var ps := DecodePrefix(steps[..i], decode).pieces;
    AssembleStep(ps, FieldEnd(text, true));
    assert Records(ps + [FieldEnd(text, true)]) == records + [done];
    assert ScannedRecords(steps, decode, s, rows) == records + [done];
    WindowExtend(records, done, s, sc, cols, rows);
    assert Window(records + [done], s, sc, cols, rows) == table;
  }

  /** What one pass of the driver loop decides: read the next answer, or leave with `result`. */
  datatype Outcome = Next | Finish(result: Result<Table, CsvError>)

  /** One pass of the loop of `Csv::parse` on the tokenizer answer `i`: it appends the
      decoded chunk to the cell, closes the cell at a field end, and at a record end keeps
      the record when the inclusion test holds and leaves when the termination test holds.
      A terminal answer leaves with the table, a chunk that does not decode with the error. */
  method HandleAnswer(bytes: seq<byte>, tokenizer: seq<Step>, decode: Decoder, startingCol: Option<nat>,
                      startingRow: Option<nat>, cols: Option<nat>, rows: Option<nat>, i: nat, rowIdx: nat,
                      ghost records: seq<Row>, row: Row, cell: string, table: Table)
    returns (outcome: Outcome, bytes': seq<byte>, i': nat, rowIdx': nat, ghost records': seq<Row>,
             row': Row, cell': string, table': Table)
    requires i <= |tokenizer| && WellFormed(bytes, tokenizer[i..])
    requires DriverState(tokenizer, decode, startingCol, startingRow, cols, rows, i, rowIdx, records, row, cell, table)
    requires NoSlicePanic(tokenizer, decode, startingCol, startingRow, cols, rows)
    ensures outcome.Next? ==> i' == i + 1 && i' <= |tokenizer| && WellFormed(bytes', tokenizer[i'..])
    ensures outcome.Next? ==> DriverState(tokenizer, decode, startingCol, startingRow, cols, rows, i', rowIdx', records', row', cell', table')
    ensures outcome.Finish? ==> outcome.result == ParseSpec(tokenizer, decode, startingCol, startingRow, cols, rows)
  {
    var startCol := startingCol.GetOr(0);
    var startRow := startingRow.GetOr(0);
    rowIdx', records', row', cell', table' := rowIdx, records, row, cell, table;
    WellFormedStep(bytes, tokenizer, i);
    var step := tokenizer[i];
    bytes' := bytes[step.nin..];
    i' := i + 1;
    var fieldData := step.output;
    match step.result {
      case InputEmpty | End =>
        DriverTerminal(tokenizer, decode, startingCol, startingRow, cols, rows, i, rowIdx, records, row, cell, table);
        return Finish(Ok(table)), bytes', i', rowIdx', records', row', cell', table';
      case OutputFull =>
        var text := decode(fieldData);
        if text.None? {
          DriverBadChunk(tokenizer, decode, startingCol, startingRow, cols, rows, i, rowIdx, records, row, cell, table);
          return Finish(Err(Utf8Error)), bytes', i', rowIdx', records', row', cell', table';
        }
        DriverChunk(tokenizer, decode, startingCol, startingRow, cols, rows, i, rowIdx, records, row, cell, table, text.value);
        cell' := cell + text.value;
        return Next, bytes', i', rowIdx', records', row', cell', table';
      case Field(recordEnd) =>
        var text := decode(fieldData);
        if text.None? {
          DriverBadChunk(tokenizer, decode, startingCol, startingRow, cols, rows, i, rowIdx, records, row, cell, table);
          return Finish(Err(Utf8Error)), bytes', i', rowIdx', records', row', cell', table';
        }
        if recordEnd && ShouldStopProcessing(rowIdx, startRow, rows) {
          DriverStop(tokenizer, decode, startingCol, startingRow, cols, rows, i, rowIdx, records, row, cell, table, text.value);
        } else if recordEnd {
          DriverRecordEnd(tokenizer, decode, startingCol, startingRow, cols, rows, i, rowIdx, records, row, cell, table, text.value);
        } else {
          DriverField(tokenizer, decode, startingCol, startingRow, cols, rows, i, rowIdx, records, row, cell, table, text.value);
        }
        cell' := cell + text.value;
        row' := row + [cell'];
        cell' := "";
        if recordEnd {
          records' := records + [row'];
          if ShouldProcessRow(rowIdx, startRow, rows) {
            var filteredRow := FilterRow(row', startCol, cols);
            table' := table + [filteredRow];
          }
          if ShouldStopProcessing(rowIdx, startRow, rows) {
            return Finish(Ok(table')), bytes', i', rowIdx', records', row', cell', table';
          }
          rowIdx' := rowIdx + 1;
          row' := [];
        }
        return Next, bytes', i', rowIdx', records', row', cell', table';
    }
  }

  /** Models `Csv::parse`: `input` are the bytes, `tokenizer` the answers the field
      tokenizer gives on them call after call, `decode` the UTF-8 decoder. */
  method Parse(input: seq<byte>, tokenizer: seq<Step>, decode: Decoder, startingCol: Option<nat>,
               startingRow: Option<nat>, cols: Option<nat>, rows: Option<nat>)
    returns (r: Result<Table, CsvError>)
    requires WellFormed(input, tokenizer)
    requires NoSlicePanic(tokenizer, decode, startingCol, startingRow, cols, rows)
    ensures r == ParseSpec(tokenizer, decode, startingCol, startingRow, cols, rows)
  {
    var rowIdx: nat := 0;
    var table: Table := [];
    var row: Row := [];
    var cell: string := "";
    var bytes := input;
    var i: nat := 0;
    ghost var records: seq<Row> := [];
    DriverStart(tokenizer, decode, startingCol, startingRow, cols, rows);
    while true
      invariant i <= |tokenizer| && WellFormed(bytes, tokenizer[i..])
      invariant DriverState(tokenizer, decode, startingCol, startingRow, cols, rows, i, rowIdx, records, row, cell, table)
      decreases |tokenizer| - i
    {
      var outcome: Outcome;
      outcome, bytes, i, rowIdx, records, row, cell, table :=
        HandleAnswer(bytes, tokenizer, decode, startingCol, startingRow, cols, rows, i, rowIdx, records, row, cell, table);
      if outcome.Finish? {
        return outcome.result;
      }
    }
  }

  /** The table is the window of every record of the stream, as if the whole input were
      read: stopping early never changes the result. */
  lemma ParseIsWindowOfAllRecords(steps: seq<Step>, decode: Decoder, startingCol: Option<nat>, startingRow: Option<nat>,
                                  cols: Option<nat>, rows: Option<nat>)
    requires NoSlicePanic(steps, decode, startingCol, startingRow, cols, rows)
    requires ParseSpec(steps, decode, startingCol, startingRow, cols, rows).Ok?
    ensures WindowFits(AllRecords(steps, decode), startingRow.GetOr(0), startingCol.GetOr(0), cols, rows)
    ensures ParseSpec(steps, decode, startingCol, startingRow, cols, rows) ==
              Ok(Window(AllRecords(steps, decode), startingRow.GetOr(0), startingCol.GetOr(0), cols, rows))
  {
    var s := startingRow.GetOr(0);
    var sc := startingCol.GetOr(0);
    var scan := Scan(steps, s, rows);
    var full := Scanned(steps, None);
    assert !DecodePrefix(scan, decode).failed;
    if rows.None? {
      assert StopBudget(s, rows) == None;
    } else {
      var k := s + rows.value;
      assert StopBudget(s, rows) == Some(k);
      ScannedWithBudget(steps, k);
      if scan != full {
        EarlyStopKeepsWindow(scan, full, decode, s, sc, cols, rows);
      }
    }
  }

  /** When the driver stops before the end of the stream, the records it has not read lie
      past the window. */
  lemma EarlyStopKeepsWindow(scan: seq<Step>, full: seq<Step>, decode: Decoder, s: nat, sc: nat,
                             cols: Option<nat>, rows: Option<nat>)
    requires rows.Some? && scan <= full && NoTerminal(full) && RecordEnds(scan) == s + rows.value + 1
    requires !DecodePrefix(scan, decode).failed
    requires WindowFits(Records(DecodePrefix(scan, decode).pieces), s, sc, cols, rows)
    ensures WindowFits(Records(DecodePrefix(full, decode).pieces), s, sc, cols, rows)
    ensures Window(Records(DecodePrefix(full, decode).pieces), s, sc, cols, rows) ==
              Window(Records(DecodePrefix(scan, decode).pieces), s, sc, cols, rows)
  {
    var records := Records(DecodePrefix(scan, decode).pieces);
    var all := Records(DecodePrefix(full, decode).pieces);
    DecodedRecordsGrow(scan, full, decode);
    DecodedRecordCount(scan, decode);
    WindowOfPrefix(records, all, s, sc, cols, rows);
  }

  /** The driver fails exactly when one of the chunks it reads is not valid UTF-8. */
  lemma ParseFailsOnlyOnBadChunk(steps: seq<Step>, decode: Decoder, startingCol: Option<nat>, startingRow: Option<nat>,
                                 cols: Option<nat>, rows: Option<nat>)
    requires NoSlicePanic(steps, decode, startingCol, startingRow, cols, rows)
    ensures ParseSpec(steps, decode, startingCol, startingRow, cols, rows) == Err(Utf8Error) <==>
              exists i :: 0 <= i < |Scan(steps, startingRow.GetOr(0), rows)| &&
                          decode(Scan(steps, startingRow.GetOr(0), rows)[i].output).None?
  {
    DecodeFailsIffBadChunk(Scan(steps, startingRow.GetOr(0), rows), decode);
  }

  /** With no option set the driver returns every complete record, whole. */
  lemma ParseWithoutOptions(steps: seq<Step>, decode: Decoder)
    ensures NoSlicePanic(steps, decode, None, None, None, None)
    ensures ParseSpec(steps, decode, None, None, None, None) ==
              if DecodePrefix(Scanned(steps, None), decode).failed then Err(Utf8Error) else Ok(AllRecords(steps, decode))
  {
    WindowWithoutOptions(ScannedRecords(steps, decode, 0, None));
  }

  /** Once the record end of record `startingRow + rows`, the one after the row window,
      has been read, what the tokenizer would answer afterwards has no effect on the
      result. */
  lemma LaterAnswersIgnored(p: seq<Step>, later: seq<Step>, later': seq<Step>, decode: Decoder,
                            startingCol: Option<nat>, startingRow: Option<nat>, cols: Option<nat>, rows: Option<nat>)
    requires rows.Some? && NoTerminal(p) && |p| > 0 && p[|p| - 1].result == Field(true)
    requires RecordEnds(p) == startingRow.GetOr(0) + rows.value + 1
    ensures Scan(p + later, startingRow.GetOr(0), rows) == p
    ensures NoSlicePanic(p + later, decode, startingCol, startingRow, cols, rows) <==>
              NoSlicePanic(p + later', decode, startingCol, startingRow, cols, rows)
    ensures NoSlicePanic(p + later, decode, startingCol, startingRow, cols, rows) ==>
              ParseSpec(p + later, decode, startingCol, startingRow, cols, rows) ==
              ParseSpec(p + later', decode, startingCol, startingRow, cols, rows)
  {
    var s := startingRow.GetOr(0);
    var k := s + rows.value;
    assert StopBudget(s, rows) == Some(k);
    StopIgnoresLaterAnswers(p, later, k);
    StopIgnoresLaterAnswers(p, later', k);
    assert ScannedRecords(p + later, decode, s, rows) == ScannedRecords(p + later', decode, s, rows);
  }

  /** The table has at most `rows` rows, and every row has exactly `cols` cells when
      `cols` is given, or the cells of its record from `startingCol` on otherwise. */
  lemma ParseTableShape(steps: seq<Step>, decode: Decoder, startingCol: Option<nat>, startingRow: Option<nat>,
                        cols: Option<nat>, rows: Option<nat>)
    requires NoSlicePanic(steps, decode, startingCol, startingRow, cols, rows)
    requires ParseSpec(steps, decode, startingCol, startingRow, cols, rows).Ok?
    ensures var t := ParseSpec(steps, decode, startingCol, startingRow, cols, rows).value;
            (rows.Some? ==> |t| <= rows.value) &&
            (cols.Some? ==> forall k :: 0 <= k < |t| ==> |t[k]| == cols.value)
  {
  }

  /** The driver reads a prefix of the answers it would read with no row count, and it
      reads less only when it stops on the record end of record `startingRow + rows`. */
  lemma ScanReadsPrefix(steps: seq<Step>, startingRow: nat, rows: Option<nat>)
    ensures Scan(steps, startingRow, rows) <= Scanned(steps, None)
    ensures Scan(steps, startingRow, rows) != Scanned(steps, None) ==>
              rows.Some? && RecordEnds(Scan(steps, startingRow, rows)) == startingRow + rows.value + 1
  {
    if rows.Some? {
      assert StopBudget(startingRow, rows) == Some(startingRow + rows.value);
      ScannedWithBudget(steps, startingRow + rows.value);
    } else {
      assert StopBudget(startingRow, rows) == None;
    }
  }

  /** Reading back what a tokenizer reports for a table of complete records, followed by a
      terminal answer: the driver panics exactly when a record the row window keeps is too
      short for the column window, and otherwise returns the window of the table. */
  lemma ParseOfAnswers(table: seq<Row>, encode: string -> seq<byte>, decode: Decoder, last: Step, later: seq<Step>,
                       startingCol: Option<nat>, startingRow: Option<nat>, cols: Option<nat>, rows: Option<nat>)
    requires forall j :: 0 <= j < |table| ==> table[j] != []
    requires CellsRoundTrip(table, encode, decode) && last.result.IsTerminal()
    ensures var steps := Answers(Emit(table), encode) + [last] + later;
            NoSlicePanic(steps, decode, startingCol, startingRow, cols, rows) <==>
              WindowFits(table, startingRow.GetOr(0), startingCol.GetOr(0), cols, rows)
    ensures var steps := Answers(Emit(table), encode) + [last] + later;
            WindowFits(table, startingRow.GetOr(0), startingCol.GetOr(0), cols, rows) ==>
              ParseSpec(steps, decode, startingCol, startingRow, cols, rows) ==
              Ok(Window(table, startingRow.GetOr(0), startingCol.GetOr(0), cols, rows))
  {
    var s := startingRow.GetOr(0);
    var sc := startingCol.GetOr(0);
    var p := Answers(Emit(table), encode);
    var steps := p + [last] + later;
    var full := Scanned(steps, None);
    assert full == p && DecodePrefix(full, decode) == Decoding(Emit(table), false) by {
      ScannedToTerminal(p, last, later);
      EmitRoundTrips(table, encode, decode);
      DecodeAnswers(Emit(table), encode, decode);
    }
    assert AllRecords(steps, decode) == table by {
      RecordsOfEmit(table);
    }
    var scan := Scan(steps, s, rows);
    ScanReadsPrefix(steps, s, rows);
    var records := ScannedRecords(steps, decode, s, rows);
    assert !DecodePrefix(scan, decode).failed && records <= table by {
      DecodedRecordsGrow(scan, full, decode);
    }
    assert WindowFits(table, s, sc, cols, rows) ==> NoSlicePanic(steps, decode, startingCol, startingRow, cols, rows) by {
      if WindowFits(table, s, sc, cols, rows) {
        WindowFitsPrefix(records, table, s, sc, cols, rows);
      }
    }
    if NoSlicePanic(steps, decode, startingCol, startingRow, cols, rows) {
      assert ParseSpec(steps, decode, startingCol, startingRow, cols, rows).Ok?;
      ParseIsWindowOfAllRecords(steps, decode, startingCol, startingRow, cols, rows);
    }
  }

  /** The column window clamped to the cells `row` has: a start past the end gives no
      cell and a count past the end stops at the last cell. This is what the
      out-of-bounds test of `src/csv.rs` expects instead of a panic. */
  function ClampedFilterRow(row: Row, startingCol: nat, cols: Option<nat>): (r: Row)
    ensures var available := if startingCol <= |row| then |row| - startingCol else 0;
            |r| == if cols.Some? then Min(cols.value, available) else available
    ensures forall j :: 0 <= j < |r| ==> startingCol + j < |row| && r[j] == row[startingCol + j]
    ensures ColumnsFit(row, startingCol, cols) ==> r == FilterRow(row, startingCol, cols)
  {
    var lo := Min(startingCol, |row|);
    var hi := if cols.Some? then Min(startingCol + cols.value, |row|) else |row|;
    if lo <= hi then row[lo..hi] else []
  }

  /** The window of `records` with clamped column windows. */
  function ClampedWindow(records: seq<Row>, startingRow: nat, startingCol: nat, cols: Option<nat>, rows: Option<nat>): (t: Table)
    ensures var b := KeptBounds(|records|, startingRow, rows);
            |t| == b.1 - b.0 &&
            forall k :: 0 <= k < |t| ==> t[k] == ClampedFilterRow(records[b.0 + k], startingCol, cols)
  {
    var b := KeptBounds(|records|, startingRow, rows);
    seq(b.1 - b.0, k requires 0 <= k < b.1 - b.0 => ClampedFilterRow(records[b.0 + k], startingCol, cols))
  }

  /** The driver with `filter_row` clamping its slice bounds: defined on every stream. */
  function ParseClamped(steps: seq<Step>, decode: Decoder, startingCol: Option<nat>, startingRow: Option<nat>,
                        cols: Option<nat>, rows: Option<nat>): Result<Table, CsvError>
  {
    var s := startingRow.GetOr(0);
    var d := DecodePrefix(Scan(steps, s, rows), decode);
    if d.failed then Err(Utf8Error) else Ok(ClampedWindow(Records(d.pieces), s, startingCol.GetOr(0), cols, rows))
  }

  /** The clamped window of a prefix of the records is that of all records once the prefix
      reaches past the last kept index. */
  lemma ClampedWindowOfPrefix(records: seq<Row>, all: seq<Row>, startingRow: nat, startingCol: nat,
                              cols: Option<nat>, rows: Option<nat>)
    requires records <= all && rows.Some? && |records| >= startingRow + rows.value
    ensures ClampedWindow(all, startingRow, startingCol, cols, rows) == ClampedWindow(records, startingRow, startingCol, cols, rows)
  {
    assert forall i :: 0 <= i < |records| ==> all[i] == records[i];
  }

  /** With clamping, reading back what a tokenizer reports for a table of complete records
      gives the clamped window of the table, whatever the options. */
  lemma ParseClampedOfAnswers(table: seq<Row>, encode: string -> seq<byte>, decode: Decoder, last: Step, later: seq<Step>,
                              startingCol: Option<nat>, startingRow: Option<nat>, cols: Option<nat>, rows: Option<nat>)
    requires forall j :: 0 <= j < |table| ==> table[j] != []
    requires CellsRoundTrip(table, encode, decode) && last.result.IsTerminal()
    ensures ParseClamped(Answers(Emit(table), encode) + [last] + later, decode, startingCol, startingRow, cols, rows) ==
              Ok(ClampedWindow(table, startingRow.GetOr(0), startingCol.GetOr(0), cols, rows))
  {
    var s := startingRow.GetOr(0);
    var sc := startingCol.GetOr(0);
    var p := Answers(Emit(table), encode);
    var steps := p + [last] + later;
    var full := Scanned(steps, None);
    assert full == p && DecodePrefix(full, decode) == Decoding(Emit(table), false) by {
      ScannedToTerminal(p, last, later);
      EmitRoundTrips(table, encode, decode);
      DecodeAnswers(Emit(table), encode, decode);
    }
    assert Records(DecodePrefix(full, decode).pieces) == table by {
      RecordsOfEmit(table);
    }
    var scan := Scan(steps, s, rows);
    ScanReadsPrefix(steps, s, rows);
    var records := ScannedRecords(steps, decode, s, rows);
    assert !DecodePrefix(scan, decode).failed && records <= table by {
      DecodedRecordsGrow(scan, full, decode);
    }
    if scan != full {
      assert |records| == s + rows.value + 1 by {
        DecodedRecordCount(scan, decode);
      }
      ClampedWindowOfPrefix(records, table, s, sc, cols, rows);
    }
  }

  /** Whenever the driver as written does not panic, clamping changes nothing. */
  lemma ParseClampedAgrees(steps: seq<Step>, decode: Decoder, startingCol: Option<nat>, startingRow: Option<nat>,
                           cols: Option<nat>, rows: Option<nat>)
    requires NoSlicePanic(steps, decode, startingCol, startingRow, cols, rows)
    ensures ParseClamped(steps, decode, startingCol, startingRow, cols, rows) ==
              ParseSpec(steps, decode, startingCol, startingRow, cols, rows)
  {
    var s := startingRow.GetOr(0);
    var sc := startingCol.GetOr(0);
    var d := DecodePrefix(Scan(steps, s, rows), decode);
    if !d.failed {
      var records := Records(d.pieces);
      var b := KeptBounds(|records|, s, rows);
      assert forall i :: b.0 <= i < b.1 ==> ColumnsFit(records[i], sc, cols);
      assert ClampedWindow(records, s, sc, cols, rows) == Window(records, s, sc, cols, rows);
    }
  }

  /** The answers read by a driver that stops as soon as the row window is complete:
      right after the record end of record `startingRow + rows - 1`, and before reading
      anything when that window is empty. The driver as written reads one record more. */
  function PromptScan(steps: seq<Step>, startingRow: nat, rows: Option<nat>): seq<Step>
  {
    if rows.None? then Scanned(steps, None)
    else if startingRow + rows.value == 0 then []
    else Scanned(steps, Some(startingRow + rows.value - 1))
  }

  /** The records completed among the answers the prompt driver reads. */
  function PromptRecords(steps: seq<Step>, decode: Decoder, startingRow: nat, rows: Option<nat>): seq<Row>
  {
    Records(DecodePrefix(PromptScan(steps, startingRow, rows), decode).pieces)
  }

  /** Every record that the prompt driver keeps fits the column window. */
  predicate PromptNoSlicePanic(steps: seq<Step>, decode: Decoder, startingCol: Option<nat>, startingRow: Option<nat>,
                               cols: Option<nat>, rows: Option<nat>)
  {
    var s := startingRow.GetOr(0);
    WindowFits(PromptRecords(steps, decode, s, rows), s, startingCol.GetOr(0), cols, rows)
  }

  /** What the prompt driver returns: as `ParseSpec`, over the answers it reads. */
  function ParsePrompt(steps: seq<Step>, decode: Decoder, startingCol: Option<nat>, startingRow: Option<nat>,
                       cols: Option<nat>, rows: Option<nat>): Result<Table, CsvError>
    requires PromptNoSlicePanic(steps, decode, startingCol, startingRow, cols, rows)
  {
    var s := startingRow.GetOr(0);
    var d := DecodePrefix(PromptScan(steps, s, rows), decode);
    if d.failed then Err(Utf8Error) else Ok(Window(Records(d.pieces), s, startingCol.GetOr(0), cols, rows))
  }

  /** The prompt driver reads a prefix of what the driver as written reads, and reads
      less only when it has seen exactly `startingRow + rows` record ends. */
  lemma PromptScanReadsLess(steps: seq<Step>, startingRow: nat, rows: Option<nat>)
    ensures PromptScan(steps, startingRow, rows) <= Scan(steps, startingRow, rows)
    ensures PromptScan(steps, startingRow, rows) != Scan(steps, startingRow, rows) ==>
              rows.Some? && RecordEnds(PromptScan(steps, startingRow, rows)) == startingRow + rows.value
  {
    if rows.Some? {
      var k := startingRow + rows.value;
      assert StopBudget(startingRow, rows) == Some(k);
      if k > 0 {
        ScannedBudgetGrows(steps, k - 1);
      }
    }
  }

  /** Once the record end of the last wanted record has been read, nothing the tokenizer
      answers afterwards, an undecodable chunk included, changes what the prompt driver
      reads, whether it panics or what it returns. */
  lemma PromptIgnoresLaterAnswers(p: seq<Step>, later: seq<Step>, later': seq<Step>, decode: Decoder,
                                  startingCol: Option<nat>, startingRow: Option<nat>, cols: Option<nat>, rows: Option<nat>)
    requires rows.Some? && NoTerminal(p) && RecordEnds(p) == startingRow.GetOr(0) + rows.value
    requires p == [] || p[|p| - 1].result == Field(true)
    ensures PromptScan(p + later, startingRow.GetOr(0), rows) == p
    ensures PromptNoSlicePanic(p + later, decode, startingCol, startingRow, cols, rows) <==>
              PromptNoSlicePanic(p + later', decode, startingCol, startingRow, cols, rows)
    ensures PromptNoSlicePanic(p + later, decode, startingCol, startingRow, cols, rows) ==>
              ParsePrompt(p + later, decode, startingCol, startingRow, cols, rows) ==
              ParsePrompt(p + later', decode, startingCol, startingRow, cols, rows)
  {
    PromptScanOfPrefix(p, later, startingRow.GetOr(0), rows.value);
    PromptScanOfPrefix(p, later', startingRow.GetOr(0), rows.value);
    PromptDependsOnScan(p + later, p + later', decode, startingCol, startingRow, cols, rows);
  }

  /** The prompt driver reads exactly the answers up to the end of the window's last record. */
  lemma PromptScanOfPrefix(p: seq<Step>, later: seq<Step>, s: nat, n: nat)
    requires NoTerminal(p) && RecordEnds(p) == s + n
    requires p == [] || p[|p| - 1].result == Field(true)
    ensures PromptScan(p + later, s, Some(n)) == p
  {
    var k := s + n;
    var steps := p + later;
    if k == 0 {
      if p != [] {
        LastRecordEndCounts(p);
        assert false;
      }
      PromptScanOfEmptyWindow(steps, s, n);
    } else {
      var budget: nat := k - 1;
      PromptScanBudget(steps, s, n, budget);
      StopIgnoresLaterAnswers(p, later, budget);
    }
  }

  /** With no row wanted the prompt driver reads nothing. */
  lemma PromptScanOfEmptyWindow(steps: seq<Step>, s: nat, n: nat)
    requires s + n == 0
    ensures PromptScan(steps, s, Some(n)) == []
  {
  }

  /** Otherwise it reads up to the record end of record `s + n - 1`. */
  lemma PromptScanBudget(steps: seq<Step>, s: nat, n: nat, budget: nat)
    requires s + n == budget + 1
    ensures PromptScan(steps, s, Some(n)) == Scanned(steps, Some(budget))
  {
  }

  /** A stream that ends in a record end has at least one. */
  lemma LastRecordEndCounts(p: seq<Step>)
    requires p != [] && p[|p| - 1].result == Field(true)
    ensures RecordEnds(p) >= 1
  {
  }

  /** The prompt driver's panic condition and result depend only on the answers it reads. */
  lemma PromptDependsOnScan(steps: seq<Step>, steps': seq<Step>, decode: Decoder, startingCol: Option<nat>,
                            startingRow: Option<nat>, cols: Option<nat>, rows: Option<nat>)
    requires PromptScan(steps, startingRow.GetOr(0), rows) == PromptScan(steps', startingRow.GetOr(0), rows)
    ensures PromptNoSlicePanic(steps, decode, startingCol, startingRow, cols, rows) <==>
              PromptNoSlicePanic(steps', decode, startingCol, startingRow, cols, rows)
    ensures PromptNoSlicePanic(steps, decode, startingCol, startingRow, cols, rows) ==>
              ParsePrompt(steps, decode, startingCol, startingRow, cols, rows) ==
              ParsePrompt(steps', decode, startingCol, startingRow, cols, rows)
  {
    var s := startingRow.GetOr(0);
    assert PromptRecords(steps, decode, s, rows) == PromptRecords(steps', decode, s, rows);
  }

  /** Wherever the driver as written returns a table, the prompt driver returns the same
      table: the record it reads past the window is never kept. */
  lemma ParsePromptAgrees(steps: seq<Step>, decode: Decoder, startingCol: Option<nat>, startingRow: Option<nat>,
                          cols: Option<nat>, rows: Option<nat>)
    requires NoSlicePanic(steps, decode, startingCol, startingRow, cols, rows)
    requires ParseSpec(steps, decode, startingCol, startingRow, cols, rows).Ok?
    ensures PromptNoSlicePanic(steps, decode, startingCol, startingRow, cols, rows)
    ensures ParsePrompt(steps, decode, startingCol, startingRow, cols, rows) ==
              ParseSpec(steps, decode, startingCol, startingRow, cols, rows)
  {
    var s := startingRow.GetOr(0);
    var sc := startingCol.GetOr(0);
    var prompt := PromptScan(steps, s, rows);
    var scan := Scan(steps, s, rows);
    PromptScanReadsLess(steps, s, rows);
    DecodedRecordsGrow(prompt, scan, decode);
    var records := PromptRecords(steps, decode, s, rows);
    var all := ScannedRecords(steps, decode, s, rows);
    WindowFitsPrefix(records, all, s, sc, cols, rows);
    if prompt != scan {
      DecodedRecordCount(prompt, decode);
      WindowOfPrefix(records, all, s, sc, cols, rows);
    }
  }
}

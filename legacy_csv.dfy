/** The earlier windowed CSV driver of the guest-side copy of the library. It runs the
    termination test before the inclusion test and writes both tests and the column
    slice out inline; it is proved to give exactly the result of the current driver. */
module LegacyCsv {
  import opened Wrappers
  import opened CsvStream
  import opened Csv

  /** The inclusion step of the earlier driver, reached only once the termination test
      has let the record through: a record whose index is at least `startRow` is sliced
      to its column window inline and appended; it keeps the rows and columns the current
      driver keeps. */
  method PushWindow(table: Table, row: Row, rowIdx: nat, startCol: nat, startRow: nat,
                    cols: Option<nat>, rows: Option<nat>)
    returns (table': Table)
    requires !ShouldStopProcessing(rowIdx, startRow, rows)
    requires ShouldProcessRow(rowIdx, startRow, rows) ==> ColumnsFit(row, startCol, cols)
    ensures table' == if ShouldProcessRow(rowIdx, startRow, rows) then table + [FilterRow(row, startCol, cols)] else table
  {
    table' := table;
    if rowIdx >= startRow {
      if cols.Some? {
        table' := table + [row[startCol..startCol + cols.value]];
      } else {
        table' := table + [row[startCol..]];
      }
    }
  }

  /** One pass of the loop of the earlier `Csv::parse` on the tokenizer answer `i`. At a
      record end it first leaves when `rows` is given and the record index has reached
      `startingRow + rows`, and only then keeps the record when its index is at least
      `startingRow`, slicing the column window out of it. */
  method HandleAnswer(bytes: seq<byte>, tokenizer: seq<Step>, decode: Decoder, startingCol: Option<nat>,
                      startingRow: Option<nat>, cols: Option<nat>, rows: Option<nat>, i: nat, rowIdx: nat,
                      ghost records: seq<Row>, row: Row, cell: string, table: Table)
    returns (outcome: Outcome, bytes': seq<byte>, i': nat, rowIdx': nat, ghost records': seq<Row>,
             row': Row, cell': string, table': Table)
    requires i <= |tokenizer| && WellFormed(bytes, tokenizer[i..])
    requires DriverState(tokenizer, decode, startingCol, startingRow, cols, rows, i, rowIdx, records, row, cell, table)
    requires NoSlicePanic(tokenizer, decode, startingCol, startingRow, cols, rows)
    ensures outcome.Next? ==> i' == i + 1 && i' <= |tokenizer| && WellFormed(bytes', tokenizer[i'..])
    ensures outcome.Next? ==> DriverState(tokenizer, decode, startingCol, startingRow, cols, rows, i', rowIdx', records', row', cell', table')
    ensures outcome.Finish? ==> outcome.result == ParseSpec(tokenizer, decode, startingCol, startingRow, cols, rows)
  {
    var startCol := startingCol.GetOr(0);
    var startRow := startingRow.GetOr(0);
    rowIdx', records', row', cell', table' := rowIdx, records, row, cell, table;
    WellFormedStep(bytes, tokenizer, i);
    var step := tokenizer[i];
    bytes' := bytes[step.nin..];
    i' := i + 1;
    var read := step.output;
    match step.result {
      case InputEmpty =>
        DriverTerminal(tokenizer, decode, startingCol, startingRow, cols, rows, i, rowIdx, records, row, cell, table);
        return Finish(Ok(table)), bytes', i', rowIdx', records', row', cell', table';
      case OutputFull =>
        var text := decode(read);
        if text.None? {
          DriverBadChunk(tokenizer, decode, startingCol, startingRow, cols, rows, i, rowIdx, records, row, cell, table);
          return Finish(Err(Utf8Error)), bytes', i', rowIdx', records', row', cell', table';
        }
        DriverChunk(tokenizer, decode, startingCol, startingRow, cols, rows, i, rowIdx, records, row, cell, table, text.value);
        cell' := cell + text.value;
        return Next, bytes', i', rowIdx', records', row', cell', table';
      case Field(recordEnd) =>
        var text := decode(read);
        if text.None? {
          DriverBadChunk(tokenizer, decode, startingCol, startingRow, cols, rows, i, rowIdx, records, row, cell, table);
          return Finish(Err(Utf8Error)), bytes', i', rowIdx', records', row', cell', table';
        }
        if recordEnd && ShouldStopProcessing(rowIdx, startRow, rows) {
          DriverStop(tokenizer, decode, startingCol, startingRow, cols, rows, i, rowIdx, records, row, cell, table, text.value);
        } else if recordEnd {
          DriverRecordEnd(tokenizer, decode, startingCol, startingRow, cols, rows, i, rowIdx, records, row, cell, table, text.value);
        } else {
          DriverField(tokenizer, decode, startingCol, startingRow, cols, rows, i, rowIdx, records, row, cell, table, text.value);
        }
        cell' := cell + text.value;
        row' := row + [cell'];
        cell' := "";
        if recordEnd {
          records' := records + [row'];
          if rows.Some? && rowIdx >= startRow + rows.value {
            return Finish(Ok(table')), bytes', i', rowIdx', records', row', cell', table';
          }
          table' := PushWindow(table, row', rowIdx, startCol, startRow, cols, rows);
          rowIdx' := rowIdx + 1;
          row' := [];
        }
        return Next, bytes', i', rowIdx', records', row', cell', table';
      case End =>
        DriverTerminal(tokenizer, decode, startingCol, startingRow, cols, rows, i, rowIdx, records, row, cell, table);
        return Finish(Ok(table)), bytes', i', rowIdx', records', row', cell', table';
    }
  }

  /** Models the earlier `Csv::parse`: on every tokenizer stream satisfying `NoSlicePanic`
      it returns what the current driver returns. The two drivers slice the same records
      (`StopFirstKeepsSameRecords`), so on those streams neither panics. */
  method Parse(input: seq<byte>, tokenizer: seq<Step>, decode: Decoder, startingCol: Option<nat>,
               startingRow: Option<nat>, cols: Option<nat>, rows: Option<nat>)
    returns (r: Result<Table, CsvError>)
    requires WellFormed(input, tokenizer)
    requires NoSlicePanic(tokenizer, decode, startingCol, startingRow, cols, rows)
    ensures r == ParseSpec(tokenizer, decode, startingCol, startingRow, cols, rows)
  {
    var rowIdx: nat := 0;
    var table: Table := [];
    var row: Row := [];
    var cell: string := "";
    var bytes := input;
    var i: nat := 0;
    ghost var records: seq<Row> := [];
    DriverStart(tokenizer, decode, startingCol, startingRow, cols, rows);
    while true
      invariant i <= |tokenizer| && WellFormed(bytes, tokenizer[i..])
      invariant DriverState(tokenizer, decode, startingCol, startingRow, cols, rows, i, rowIdx, records, row, cell, table)
      decreases |tokenizer| - i
    {
      var outcome: Outcome;
      outcome, bytes, i, rowIdx, records, row, cell, table :=
        HandleAnswer(bytes, tokenizer, decode, startingCol, startingRow, cols, rows, i, rowIdx, records, row, cell, table);
      if outcome.Finish? {
        return outcome.result;
      }
    }
  }

  /** The two orders of the row tests agree on every record: testing termination first
      and then only the lower bound keeps exactly the records the inclusion test keeps. */
  lemma StopFirstKeepsSameRecords(rowIdx: nat, startingRow: nat, rows: Option<nat>)
    ensures !ShouldStopProcessing(rowIdx, startingRow, rows) ==>
              (rowIdx >= startingRow <==> ShouldProcessRow(rowIdx, startingRow, rows))
    ensures ShouldStopProcessing(rowIdx, startingRow, rows) ==> !ShouldProcessRow(rowIdx, startingRow, rows)
  {
  }
}

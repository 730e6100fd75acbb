/** The unit tests of `src/csv.rs` as statements about the model. Each scenario gives
    answers of the tokenizer under which the test's expectation holds, and the result the
    driver returns on them. Where a test's input ends without a line break, the scenario
    assumes that the tokenizer reports the last record end when the input runs out; under
    an `InputEmpty` answer on the last bytes that record is lost instead
    (`SingleCellPendingAtInputEmpty`). Blank lines are assumed to come back as records of
    one empty cell. Cells are ASCII, so UTF-8 decoding is the identity on bytes below 128
    and rejects others. */
module CsvScenarios {
  import opened Wrappers
  import opened CsvStream
  import opened Csv

  predicate IsAscii(s: string)
  {
    forall i :: 0 <= i < |s| ==> s[i] < 128 as char
  }

  /** The bytes of an ASCII string; a character outside ASCII becomes the invalid byte 255. */
  function AsciiBytes(s: string): (bs: seq<byte>)
    ensures |bs| == |s|
  {
    seq(|s|, i requires 0 <= i < |s| => if s[i] < 128 as char then s[i] as int as byte else 255)
  }

  /** UTF-8 decoding of ASCII bytes: every byte below 128 is its own character, and any
      other byte makes the chunk fail to decode. */
  function AsciiDecode(bs: seq<byte>): (r: Option<string>)
    ensures r.Some? <==> forall i :: 0 <= i < |bs| ==> bs[i] < 128
    ensures r.Some? ==> |r.value| == |bs| && IsAscii(r.value)
  {
    if forall i :: 0 <= i < |bs| ==> bs[i] < 128
    then Some(seq(|bs|, i requires 0 <= i < |bs| && bs[i] < 128 => bs[i] as int as char))
    else None
  }

  lemma AsciiRoundTrip(s: string)
    requires IsAscii(s)
    ensures AsciiDecode(AsciiBytes(s)) == Some(s)
  {
    var bs := AsciiBytes(s);
    assert forall i :: 0 <= i < |s| ==> bs[i] as int == s[i] as int;
    var r := AsciiDecode(bs);
    assert r.Some?;
    assert forall i :: 0 <= i < |s| ==> r.value[i] == s[i];
    assert r.value == s;
  }

  /** Every cell of `table` is ASCII, so the ASCII codec round-trips the cells. */
  lemma AsciiCells(table: seq<Row>)
    requires forall j, k :: 0 <= j < |table| && 0 <= k < |table[j]| ==> IsAscii(table[j][k])
    ensures CellsRoundTrip(table, AsciiBytes, AsciiDecode)
  {
    forall j, k | 0 <= j < |table| && 0 <= k < |table[j]| {
      AsciiRoundTrip(table[j][k]);
    }
  }

  const EndOfInput := Step(End, 0, [])

  /** The answers a tokenizer reports for `table`: one field answer per cell, then `End`. */
  function Stream(table: seq<Row>): seq<Step>
  {
    Answers(Emit(table), AsciiBytes) + [EndOfInput]
  }

  /** The scenario tables below are ASCII and have no empty record, so the driver returns
      the window of the table whenever the window fits. */
  lemma Reads(table: seq<Row>, startingCol: Option<nat>, startingRow: Option<nat>, cols: Option<nat>, rows: Option<nat>)
    requires forall j :: 0 <= j < |table| ==> table[j] != []
    requires forall j, k :: 0 <= j < |table| && 0 <= k < |table[j]| ==> IsAscii(table[j][k])
    ensures NoSlicePanic(Stream(table), AsciiDecode, startingCol, startingRow, cols, rows) <==>
              WindowFits(table, startingRow.GetOr(0), startingCol.GetOr(0), cols, rows)
    ensures WindowFits(table, startingRow.GetOr(0), startingCol.GetOr(0), cols, rows) ==>
              ParseSpec(Stream(table), AsciiDecode, startingCol, startingRow, cols, rows) ==
              Ok(Window(table, startingRow.GetOr(0), startingCol.GetOr(0), cols, rows))
    ensures ParseClamped(Stream(table), AsciiDecode, startingCol, startingRow, cols, rows) ==
              Ok(ClampedWindow(table, startingRow.GetOr(0), startingCol.GetOr(0), cols, rows))
  {
    AsciiCells(table);
    assert Stream(table) == Answers(Emit(table), AsciiBytes) + [EndOfInput] + [];
    ParseOfAnswers(table, AsciiBytes, AsciiDecode, EndOfInput, [], startingCol, startingRow, cols, rows);
    ParseClampedOfAnswers(table, AsciiBytes, AsciiDecode, EndOfInput, [], startingCol, startingRow, cols, rows);
  }

  /** `a,b,c` / `1,2,3` with a final line break: both records, whole. */
  lemma BasicCsv()
    ensures NoSlicePanic(Stream([["a", "b", "c"], ["1", "2", "3"]]), AsciiDecode, None, None, None, None)
    ensures ParseSpec(Stream([["a", "b", "c"], ["1", "2", "3"]]), AsciiDecode, None, None, None, None) ==
              Ok([["a", "b", "c"], ["1", "2", "3"]])
  {
    var t := [["a", "b", "c"], ["1", "2", "3"]];
    assert forall j :: 0 <= j < |t| ==> t[j] != [];
    assert forall j, k :: 0 <= j < |t| && 0 <= k < |t[j]| ==> IsAscii(t[j][k]);
    WindowWithoutOptions(t);
    Reads(t, None, None, None, None);
  }
  /** Empty input: the tokenizer answers `End` at once and the table is empty. */
  lemma EmptyCsv()
    ensures NoSlicePanic([EndOfInput], AsciiDecode, None, None, None, None)
    ensures ParseSpec([EndOfInput], AsciiDecode, None, None, None, None) == Ok([])
  {
    assert Scanned([EndOfInput], None) == [];
  }

  /** `value` with no line break, from a tokenizer that reports the record end when the
      input runs out: the one cell comes back. */
  lemma SingleCellReported()
    ensures NoSlicePanic(Stream([["value"]]), AsciiDecode, None, None, None, None)
    ensures ParseSpec(Stream([["value"]]), AsciiDecode, None, None, None, None) == Ok([["value"]])
  {
    var t := [["value"]];
    assert forall j, k :: 0 <= j < |t| && 0 <= k < |t[j]| ==> IsAscii(t[j][k]);
    WindowWithoutOptions(t);
    Reads(t, None, None, None, None);
  }

  /** `value` with no line break, from a tokenizer that answers `InputEmpty` on the last
      bytes until it is called once more with no input: the driver leaves its loop on that
      answer, and the unfinished record is lost. */
  lemma SingleCellPendingAtInputEmpty()
    ensures NoSlicePanic([Step(InputEmpty, 5, AsciiBytes("value"))], AsciiDecode, None, None, None, None)
    ensures ParseSpec([Step(InputEmpty, 5, AsciiBytes("value"))], AsciiDecode, None, None, None, None) == Ok([])
  {
    assert Scanned([Step(InputEmpty, 5, AsciiBytes("value"))], None) == [];
  }

  /** A cell longer than the output buffer is reported in several answers: the chunks are
      joined into one cell. */
  lemma CellAcrossAnswers()
    ensures var steps := [Step(OutputFull, 1, AsciiBytes("a")), Step(Field(true), 1, AsciiBytes("b")), EndOfInput];
            NoSlicePanic(steps, AsciiDecode, None, None, None, None) &&
            ParseSpec(steps, AsciiDecode, None, None, None, None) == Ok([["ab"]])
  {
    var steps := [Step(OutputFull, 1, AsciiBytes("a")), Step(Field(true), 1, AsciiBytes("b")), EndOfInput];
    var scan := [steps[0], steps[1]];
    CellAcrossScan(steps);
    CellAcrossDecode(scan);
    CellAcrossRecords();
    WindowWithoutOptions([["ab"]]);
  }

  /** The scan of the split cell stops before the end of the input. */
  lemma CellAcrossScan(steps: seq<Step>)
    requires steps == [Step(OutputFull, 1, AsciiBytes("a")), Step(Field(true), 1, AsciiBytes("b")), EndOfInput]
    ensures Scanned(steps, None) == [steps[0], steps[1]]
  {
    assert steps[1..][1..] == [EndOfInput];
    assert Scanned(steps[1..][1..], None) == [];
    assert Scanned(steps[1..], None) == [steps[1]];
  }

  /** The two answers of the split cell decode to a chunk and a record end. */
  lemma CellAcrossDecode(scan: seq<Step>)
    requires scan == [Step(OutputFull, 1, AsciiBytes("a")), Step(Field(true), 1, AsciiBytes("b"))]
    ensures DecodePrefix(scan, AsciiDecode) == Decoding([Chunk("a"), FieldEnd("b", true)], false)
  {
    AsciiRoundTrip("a");
    AsciiRoundTrip("b");
    assert scan[..1] == [scan[0]];
    assert scan[..1][..0] == [];
    assert DecodePrefix(scan[..1], AsciiDecode) == Decoding([Chunk("a")], false);
  }

  /** The chunk and the record end make one record of one cell. */
  lemma CellAcrossRecords()
    ensures Records([Chunk("a"), FieldEnd("b", true)]) == [["ab"]]
  {
    var ps := [Chunk("a"), FieldEnd("b", true)];
    assert ps[..1] == [Chunk("a")];
    assert ps[..1][..0] == [];
    assert Assemble(ps[..1]) == Assembly([], [], "a");
    AssembleStep(ps[..1], FieldEnd("b", true));
    assert ps[..1] + [FieldEnd("b", true)] == ps;
    assert "a" + "b" == "ab";
    assert [] + ["ab"] == ["ab"];
  }

  /** A chunk that is not valid UTF-8: the driver fails. */
  lemma InvalidUtf8()
    ensures var steps := [Step(Field(true), 2, [255]), EndOfInput];
            NoSlicePanic(steps, AsciiDecode, None, None, None, None) &&
            ParseSpec(steps, AsciiDecode, None, None, None, None) == Err(Utf8Error)
  {
    var steps := [Step(Field(true), 2, [255]), EndOfInput];
    assert Scanned(steps, None) == [steps[0]] by {
      assert steps[1..] == [EndOfInput];
    }
    var bad := steps[0].output;
    assert bad[0] == 255;
    assert AsciiDecode(bad).None?;
    assert DecodePrefix([steps[0]], AsciiDecode).failed by {
      assert [steps[0]][..0] == [];
    }
  }
  /** `a` then a line holding the byte 0xFF, with one row wanted: the record `a` completes
      the row window, and the record after it is reported next. */
  const OverreadSteps := [Step(Field(true), 2, AsciiBytes("a")), Step(Field(true), 2, [255]), EndOfInput]

  /** The driver as written reads and decodes the record after the window before its
      termination test fires, so the undecodable chunk there makes the call fail although
      the window, `a`, is complete. */
  lemma OverreadFails()
    ensures NoSlicePanic(OverreadSteps, AsciiDecode, None, None, None, Some(1))
    ensures ParseSpec(OverreadSteps, AsciiDecode, None, None, None, Some(1)) == Err(Utf8Error)
  {
    var steps := OverreadSteps;
    assert Scan(steps, 0, Some(1)) == [steps[0], steps[1]] by {
      assert StopBudget(0, Some(1)) == Some(1);
      assert steps[1..][0] == steps[1];
      assert Scanned(steps[1..], Some(0)) == [steps[1]];
    }
    OverreadDecode([steps[0], steps[1]]);
    OneRecord();
  }

  /** The first answer decodes to the record end of `a`; the second does not decode. */
  lemma OverreadDecode(scan: seq<Step>)
    requires scan == [Step(Field(true), 2, AsciiBytes("a")), Step(Field(true), 2, [255])]
    ensures DecodePrefix(scan[..1], AsciiDecode) == Decoding([FieldEnd("a", true)], false)
    ensures DecodePrefix(scan, AsciiDecode) == Decoding([FieldEnd("a", true)], true)
  {
    AsciiRoundTrip("a");
    assert scan[..1][..0] == [];
    assert scan[..|scan| - 1] == scan[..1];
    var bad := scan[1].output;
    assert bad[0] == 255;
    assert AsciiDecode(bad).None?;
  }

  /** One record end of `a` makes the one record `a`. */
  lemma OneRecord()
    ensures Records([FieldEnd("a", true)]) == [["a"]]
  {
    var ps := [FieldEnd("a", true)];
    assert ps[..0] == [];
    assert Assemble(ps[..0]) == Assembly([], [], "");
    var cell: string := "" + "a";
    assert cell == "a";
    var empty: Row := [];
    assert empty + [cell] == ["a"];
    var none: seq<Row> := [];
    assert Assemble(ps) == Assembly(none + [empty + [cell]], [], "");
    assert none + [["a"]] == [["a"]];
  }

  /** A driver that stops right after the last wanted record never reads the bad chunk
      and returns the window. */
  lemma PromptStopsAtWindow()
    ensures PromptNoSlicePanic(OverreadSteps, AsciiDecode, None, None, None, Some(1))
    ensures ParsePrompt(OverreadSteps, AsciiDecode, None, None, None, Some(1)) == Ok([["a"]])
  {
    var steps := OverreadSteps;
    var p := [steps[0]];
    assert RecordEnds(p) == 1 by {
      assert p[..0] == [];
    }
    assert steps == p + steps[1..];
    PromptScanOfPrefix(p, steps[1..], 0, 1);
    OverreadDecode([steps[0], steps[1]]);
    assert [steps[0], steps[1]][..1] == p;
    OneRecord();
    assert PromptRecords(steps, AsciiDecode, 0, Some(1)) == [["a"]];
    OneRowWindow();
  }

  /** The window of one row of the record `a` is that record. */
  lemma OneRowWindow()
    ensures WindowFits([["a"]], 0, 0, None, Some(1))
    ensures Window([["a"]], 0, 0, None, Some(1)) == [["a"]]
  {
    var w := Window([["a"]], 0, 0, None, Some(1));
    assert |w| == 1 && w[0] == FilterRow(["a"], 0, None) == ["a"][0..];
  }

  const FourColumns: seq<Row> := [["a", "b", "c", "d"], ["1", "2", "3", "4"]]

  lemma FourColumnsReads(startingCol: Option<nat>, cols: Option<nat>)
    ensures NoSlicePanic(Stream(FourColumns), AsciiDecode, startingCol, None, cols, None) <==>
              WindowFits(FourColumns, 0, startingCol.GetOr(0), cols, None)
    ensures WindowFits(FourColumns, 0, startingCol.GetOr(0), cols, None) ==>
              ParseSpec(Stream(FourColumns), AsciiDecode, startingCol, None, cols, None) ==
              Ok(Window(FourColumns, 0, startingCol.GetOr(0), cols, None))
  {
    var t := FourColumns;
    assert forall j :: 0 <= j < |t| ==> t[j] != [];
    assert forall j, k :: 0 <= j < |t| && 0 <= k < |t[j]| ==> IsAscii(t[j][k]);
    Reads(t, startingCol, None, cols, None);
  }

  /** Column filtering from column 1. */
  lemma ColumnFilteringStart()
    ensures NoSlicePanic(Stream(FourColumns), AsciiDecode, Some(1), None, None, None)
    ensures ParseSpec(Stream(FourColumns), AsciiDecode, Some(1), None, None, None) == Ok([["b", "c", "d"], ["2", "3", "4"]])
  {
    var t := FourColumns;
    assert WindowFits(t, 0, 1, None, None) && Window(t, 0, 1, None, None) == [["b", "c", "d"], ["2", "3", "4"]] by {
      assert FilterRow(t[0], 1, None) == ["b", "c", "d"] && FilterRow(t[1], 1, None) == ["2", "3", "4"];
    }
    FourColumnsReads(Some(1), None);
  }
  /** The first two columns. */
  lemma ColumnFilteringCount()
    ensures NoSlicePanic(Stream(FourColumns), AsciiDecode, None, None, Some(2), None)
    ensures ParseSpec(Stream(FourColumns), AsciiDecode, None, None, Some(2), None) == Ok([["a", "b"], ["1", "2"]])
  {
    var t := FourColumns;
    assert WindowFits(t, 0, 0, Some(2), None) && Window(t, 0, 0, Some(2), None) == [["a", "b"], ["1", "2"]] by {
      assert FilterRow(t[0], 0, Some(2)) == ["a", "b"] && FilterRow(t[1], 0, Some(2)) == ["1", "2"];
    }
    FourColumnsReads(None, Some(2));
  }

  /** Two columns from column 1. */
  lemma ColumnFilteringBoth()
    ensures NoSlicePanic(Stream(FourColumns), AsciiDecode, Some(1), None, Some(2), None)
    ensures ParseSpec(Stream(FourColumns), AsciiDecode, Some(1), None, Some(2), None) == Ok([["b", "c"], ["2", "3"]])
  {
    var t := FourColumns;
    assert WindowFits(t, 0, 1, Some(2), None) && Window(t, 0, 1, Some(2), None) == [["b", "c"], ["2", "3"]] by {
      assert FilterRow(t[0], 1, Some(2)) == ["b", "c"] && FilterRow(t[1], 1, Some(2)) == ["2", "3"];
    }
    FourColumnsReads(Some(1), Some(2));
  }

  const FourRows: seq<Row> := [["a", "b"], ["1", "2"], ["3", "4"], ["5", "6"]]

  lemma FourRowsReads(startingRow: Option<nat>, rows: Option<nat>)
    ensures NoSlicePanic(Stream(FourRows), AsciiDecode, None, startingRow, None, rows) <==>
              WindowFits(FourRows, startingRow.GetOr(0), 0, None, rows)
    ensures WindowFits(FourRows, startingRow.GetOr(0), 0, None, rows) ==>
              ParseSpec(Stream(FourRows), AsciiDecode, None, startingRow, None, rows) ==
              Ok(Window(FourRows, startingRow.GetOr(0), 0, None, rows))
  {
    var t := FourRows;
    assert forall j :: 0 <= j < |t| ==> t[j] != [];
    assert forall j, k :: 0 <= j < |t| && 0 <= k < |t[j]| ==> IsAscii(t[j][k]);
    Reads(t, None, startingRow, None, rows);
  }

  /** Row filtering from row 1: the header row is skipped. */
  lemma RowFilteringStart()
    ensures NoSlicePanic(Stream(FourRows), AsciiDecode, None, Some(1), None, None)
    ensures ParseSpec(Stream(FourRows), AsciiDecode, None, Some(1), None, None) == Ok([["1", "2"], ["3", "4"], ["5", "6"]])
  {
    var t := FourRows;
    assert WindowFits(t, 1, 0, None, None) && Window(t, 1, 0, None, None) == [["1", "2"], ["3", "4"], ["5", "6"]] by {
      assert KeptBounds(|t|, 1, None) == (1, 4);
      assert FilterRow(t[1], 0, None) == t[1] && FilterRow(t[2], 0, None) == t[2] && FilterRow(t[3], 0, None) == t[3];
    }
    FourRowsReads(Some(1), None);
  }

  /** The first two rows. */
  lemma RowFilteringCount()
    ensures NoSlicePanic(Stream(FourRows), AsciiDecode, None, None, None, Some(2))
    ensures ParseSpec(Stream(FourRows), AsciiDecode, None, None, None, Some(2)) == Ok([["a", "b"], ["1", "2"]])
  {
    var t := FourRows;
    assert WindowFits(t, 0, 0, None, Some(2)) && Window(t, 0, 0, None, Some(2)) == [["a", "b"], ["1", "2"]] by {
      assert KeptBounds(|t|, 0, Some(2)) == (0, 2);
      assert FilterRow(t[0], 0, None) == t[0] && FilterRow(t[1], 0, None) == t[1];
    }
    FourRowsReads(None, Some(2));
  }

  /** Two rows from row 1. */
  lemma RowFilteringBoth()
    ensures NoSlicePanic(Stream(FourRows), AsciiDecode, None, Some(1), None, Some(2))
    ensures ParseSpec(Stream(FourRows), AsciiDecode, None, Some(1), None, Some(2)) == Ok([["1", "2"], ["3", "4"]])
  {
    var t := FourRows;
    assert WindowFits(t, 1, 0, None, Some(2)) && Window(t, 1, 0, None, Some(2)) == [["1", "2"], ["3", "4"]] by {
      assert KeptBounds(|t|, 1, Some(2)) == (1, 3);
      assert FilterRow(t[1], 0, None) == t[1] && FilterRow(t[2], 0, None) == t[2];
    }
    FourRowsReads(Some(1), Some(2));
  }

  const Grid: seq<Row> := [["a", "b", "c", "d"], ["1", "2", "3", "4"], ["5", "6", "7", "8"], ["9", "10", "11", "12"]]

  /** Two columns from column 1 of two rows from row 1. */
  lemma CombinedFiltering()
    ensures NoSlicePanic(Stream(Grid), AsciiDecode, Some(1), Some(1), Some(2), Some(2))
    ensures ParseSpec(Stream(Grid), AsciiDecode, Some(1), Some(1), Some(2), Some(2)) == Ok([["2", "3"], ["6", "7"]])
  {
    var t := Grid;
    assert (forall j :: 0 <= j < |t| ==> t[j] != []) &&
           (forall j, k :: 0 <= j < |t| && 0 <= k < |t[j]| ==> IsAscii(t[j][k])) by {
      assert forall j :: 0 <= j < |t| ==> |t[j]| == 4;
    }
    CombinedFilteringWindow();
    Reads(t, Some(1), Some(1), Some(2), Some(2));
  }

  /** Rows 1 and 2, columns 1 and 2 of the grid. */
  lemma CombinedFilteringWindow()
    ensures WindowFits(Grid, 1, 1, Some(2), Some(2))
    ensures Window(Grid, 1, 1, Some(2), Some(2)) == [["2", "3"], ["6", "7"]]
  {
    var t := Grid;
    assert KeptBounds(|t|, 1, Some(2)) == (1, 3);
    assert |t[1]| == 4 && |t[2]| == 4;
    assert FilterRow(t[1], 1, Some(2)) == ["2", "3"] && FilterRow(t[2], 1, Some(2)) == ["6", "7"];
  }
  /** Empty cells between, before and after delimiters are kept as empty strings. */
  lemma EmptyFields()
    ensures NoSlicePanic(Stream([["a", "", "c"], ["", "b", ""], ["", "", ""]]), AsciiDecode, None, None, None, None)
    ensures ParseSpec(Stream([["a", "", "c"], ["", "b", ""], ["", "", ""]]), AsciiDecode, None, None, None, None) ==
              Ok([["a", "", "c"], ["", "b", ""], ["", "", ""]])
  {
    var t := [["a", "", "c"], ["", "b", ""], ["", "", ""]];
    assert forall j :: 0 <= j < |t| ==> t[j] != [];
    assert forall j, k :: 0 <= j < |t| && 0 <= k < |t[j]| ==> IsAscii(t[j][k]);
    WindowWithoutOptions(t);
    Reads(t, None, None, None, None);
  }

  /** Quoted fields are unquoted by the tokenizer: a delimiter, a doubled quote and a line
      break inside quotes reach the table as part of the cell. */
  lemma QuotedFields()
    ensures NoSlicePanic(Stream([["a,b", "c"], ["\"quoted\"", "line\nbreak"]]), AsciiDecode, None, None, None, None)
    ensures ParseSpec(Stream([["a,b", "c"], ["\"quoted\"", "line\nbreak"]]), AsciiDecode, None, None, None, None) ==
              Ok([["a,b", "c"], ["\"quoted\"", "line\nbreak"]])
  {
    var t := [["a,b", "c"], ["\"quoted\"", "line\nbreak"]];
    assert forall j :: 0 <= j < |t| ==> t[j] != [];
    assert forall j, k :: 0 <= j < |t| && 0 <= k < |t[j]| ==> IsAscii(t[j][k]);
    WindowWithoutOptions(t);
    Reads(t, None, None, None, None);
  }

  /** Three line breaks: three records of one empty cell each. */
  lemma EmptyRows()
    ensures NoSlicePanic(Stream([[""], [""], [""]]), AsciiDecode, None, None, None, None)
    ensures ParseSpec(Stream([[""], [""], [""]]), AsciiDecode, None, None, None, None) == Ok([[""], [""], [""]])
  {
    var t := [[""], [""], [""]];
    assert forall j :: 0 <= j < |t| ==> t[j] != [];
    assert forall j, k :: 0 <= j < |t| && 0 <= k < |t[j]| ==> IsAscii(t[j][k]);
    WindowWithoutOptions(t);
    Reads(t, None, None, None, None);
  }

  const TwoByTwo: seq<Row> := [["a", "b"], ["1", "2"]]

  lemma TwoByTwoReads(startingCol: Option<nat>, startingRow: Option<nat>, cols: Option<nat>)
    ensures NoSlicePanic(Stream(TwoByTwo), AsciiDecode, startingCol, startingRow, cols, None) <==>
              WindowFits(TwoByTwo, startingRow.GetOr(0), startingCol.GetOr(0), cols, None)
    ensures WindowFits(TwoByTwo, startingRow.GetOr(0), startingCol.GetOr(0), cols, None) ==>
              ParseSpec(Stream(TwoByTwo), AsciiDecode, startingCol, startingRow, cols, None) ==
              Ok(Window(TwoByTwo, startingRow.GetOr(0), startingCol.GetOr(0), cols, None))
    ensures ParseClamped(Stream(TwoByTwo), AsciiDecode, startingCol, startingRow, cols, None) ==
              Ok(ClampedWindow(TwoByTwo, startingRow.GetOr(0), startingCol.GetOr(0), cols, None))
  {
    var t := TwoByTwo;
    assert forall j :: 0 <= j < |t| ==> t[j] != [];
    assert forall j, k :: 0 <= j < |t| && 0 <= k < |t[j]| ==> IsAscii(t[j][k]);
    Reads(t, startingCol, startingRow, cols, None);
  }

  /** Starting at column 5 of two-cell records: the driver as written slices past the end
      of the first record and panics, where the test expects every row to come back empty;
      with the slice clamped, every row does come back empty. */
  lemma StartColumnPastEnd()
    ensures !NoSlicePanic(Stream(TwoByTwo), AsciiDecode, Some(5), None, None, None)
    ensures ParseClamped(Stream(TwoByTwo), AsciiDecode, Some(5), None, None, None) == Ok([[], []])
  {
    TwoByTwoReads(Some(5), None, None);
    StartColumnPastEndWindow();
  }

  /** Column 5 lies past the end of the first record; clamped, every row is empty. */
  lemma StartColumnPastEndWindow()
    ensures !WindowFits(TwoByTwo, 0, 5, None, None)
    ensures ClampedWindow(TwoByTwo, 0, 5, None, None) == [[], []]
  {
    var t := TwoByTwo;
    assert ShouldProcessRow(0, 0, None) && !ColumnsFit(t[0], 5, None);
    assert KeptBounds(|t|, 0, None) == (0, 2);
    assert ClampedFilterRow(t[0], 5, None) == [] && ClampedFilterRow(t[1], 5, None) == [];
  }

  /** Starting at row 5 of two records: no row is kept, and nothing is sliced. */
  lemma StartRowPastEnd()
    ensures NoSlicePanic(Stream(TwoByTwo), AsciiDecode, None, Some(5), None, None)
    ensures ParseSpec(Stream(TwoByTwo), AsciiDecode, None, Some(5), None, None) == Ok([])
  {
    var t := TwoByTwo;
    assert WindowFits(t, 5, 0, None, None);
    TwoByTwoReads(None, Some(5), None);
  }

  /** Five columns of two-cell records: the driver as written panics, where the test
      expects the records whole; with the slice clamped, they come back whole. */
  lemma ColumnCountPastEnd()
    ensures !NoSlicePanic(Stream(TwoByTwo), AsciiDecode, None, None, Some(5), None)
    ensures ParseClamped(Stream(TwoByTwo), AsciiDecode, None, None, Some(5), None) == Ok([["a", "b"], ["1", "2"]])
  {
    TwoByTwoReads(None, None, Some(5));
    ColumnCountPastEndWindow();
  }

  /** Five columns do not fit a two-cell record; clamped, every record is whole. */
  lemma ColumnCountPastEndWindow()
    ensures !WindowFits(TwoByTwo, 0, 0, Some(5), None)
    ensures ClampedWindow(TwoByTwo, 0, 0, Some(5), None) == TwoByTwo
  {
    var t := TwoByTwo;
    assert ShouldProcessRow(0, 0, None) && !ColumnsFit(t[0], 0, Some(5));
    assert KeptBounds(|t|, 0, None) == (0, 2);
    assert ClampedFilterRow(t[0], 0, Some(5)) == t[0] && ClampedFilterRow(t[1], 0, Some(5)) == t[1];
  }
  /** One record of three cells, its record end reported at the end of the input. */
  lemma SingleRow()
    ensures NoSlicePanic(Stream([["a", "b", "c"]]), AsciiDecode, None, None, None, None)
    ensures ParseSpec(Stream([["a", "b", "c"]]), AsciiDecode, None, None, None, None) == Ok([["a", "b", "c"]])
  {
    var t := [["a", "b", "c"]];
    assert forall j :: 0 <= j < |t| ==> t[j] != [];
    assert forall j, k :: 0 <= j < |t| && 0 <= k < |t[j]| ==> IsAscii(t[j][k]);
    WindowWithoutOptions(t);
    Reads(t, None, None, None, None);
  }

  /** Three records, the last one reported at the end of the input. */
  lemma MultipleRows()
    ensures NoSlicePanic(Stream([["a", "b", "c"], ["1", "2", "3"], ["x", "y", "z"]]), AsciiDecode, None, None, None, None)
    ensures ParseSpec(Stream([["a", "b", "c"], ["1", "2", "3"], ["x", "y", "z"]]), AsciiDecode, None, None, None, None) ==
              Ok([["a", "b", "c"], ["1", "2", "3"], ["x", "y", "z"]])
  {
    var t := [["a", "b", "c"], ["1", "2", "3"], ["x", "y", "z"]];
    assert forall j :: 0 <= j < |t| ==> t[j] != [];
    assert forall j, k :: 0 <= j < |t| && 0 <= k < |t[j]| ==> IsAscii(t[j][k]);
    WindowWithoutOptions(t);
    Reads(t, None, None, None, None);
  }

  /** Records of one single-character cell each. */
  lemma SingleCharacterRows()
    ensures NoSlicePanic(Stream([["a"], ["b"], ["c"]]), AsciiDecode, None, None, None, None)
    ensures ParseSpec(Stream([["a"], ["b"], ["c"]]), AsciiDecode, None, None, None, None) == Ok([["a"], ["b"], ["c"]])
  {
    var t := [["a"], ["b"], ["c"]];
    assert forall j :: 0 <= j < |t| ==> t[j] != [];
    assert forall j, k :: 0 <= j < |t| && 0 <= k < |t[j]| ==> IsAscii(t[j][k]);
    WindowWithoutOptions(t);
    Reads(t, None, None, None, None);
  }
}

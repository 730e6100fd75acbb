/** The field tokenizer's answers as the CSV driver sees them, and the pure reading of
    a stream of answers as complete records. The tokenizer itself (a quoting and
    escaping state machine from a library) is not modelled: a model run is given the
    sequence of answers that the tokenizer produces, call after call. */
module CsvStream {
  import opened Wrappers

  /** One byte of input or output. */
  newtype byte = x: int | 0 <= x < 256

  /** Size of the output buffer the driver hands to the tokenizer on every call. */
  const OUTPUT_BUFFER_SIZE: nat := 1024

  /** What one call of the tokenizer reports. */
  datatype ReadFieldResult = InputEmpty | End | OutputFull | Field(recordEnd: bool) {
    /** The driver leaves its loop on these answers. */
    predicate IsTerminal() { InputEmpty? || End? }
  }

  /** One call of the tokenizer: its answer, the number of input bytes it consumed and
      the bytes it wrote into the output buffer. */
  datatype Step = Step(result: ReadFieldResult, nin: nat, output: seq<byte>)

  /** UTF-8 decoding of one chunk of bytes: `None` when the chunk is not valid UTF-8. */
  type Decoder = seq<byte> -> Option<string>

  /** `steps` are answers a tokenizer can give, call after call, on `input`: each answer up
      to and including the first terminal one consumes only bytes not yet consumed and
      writes at most `OUTPUT_BUFFER_SIZE` bytes, and a terminal answer does come. */
  predicate WellFormed(input: seq<byte>, steps: seq<Step>)
    decreases |steps|
  {
    |steps| > 0 && steps[0].nin <= |input| && |steps[0].output| <= OUTPUT_BUFFER_SIZE &&
    (steps[0].result.IsTerminal() || WellFormed(input[steps[0].nin..], steps[1..]))
  }

  /** One tokenizer call on a well-formed stream: it consumes no more than is left, and
      after a non-terminal answer the rest of the stream is well formed on what remains. */
  lemma WellFormedStep(input: seq<byte>, steps: seq<Step>, i: nat)
    requires i <= |steps| && WellFormed(input, steps[i..])
    ensures i < |steps| && steps[i].nin <= |input| && |steps[i].output| <= OUTPUT_BUFFER_SIZE
    ensures !steps[i].result.IsTerminal() ==> WellFormed(input[steps[i].nin..], steps[i + 1..])
  {
    assert steps[i..][0] == steps[i];
    assert steps[i..][1..] == steps[i + 1..];
  }

  predicate NoTerminal(steps: seq<Step>)
  {
    forall i :: 0 <= i < |steps| ==> !steps[i].result.IsTerminal()
  }

  /** Number of answers in `steps` that end a record. */
  function RecordEnds(steps: seq<Step>): nat
    decreases |steps|
  {
    if steps == [] then 0
    else RecordEnds(steps[..|steps| - 1]) + (if steps[|steps| - 1].result == Field(true) then 1 else 0)
  }

  lemma {:induction false} RecordEndsAppend(a: seq<Step>, b: seq<Step>)
    ensures RecordEnds(a + b) == RecordEnds(a) + RecordEnds(b)
    decreases |b|
  {
    if b != [] {
      var b' := b[..|b| - 1];
      assert (a + b)[..|a + b| - 1] == a + b';
      RecordEndsAppend(a, b');
    } else {
      assert a + b == a;
    }
  }

  /** How many more record ends the driver may read before the one it stops on, when it
      stops at all. */
  function Countdown(budget: Option<nat>, step: Step): Option<nat>
    requires budget != Some(0) || step.result != Field(true)
  {
    if step.result == Field(true) && budget.Some? then Some(budget.value - 1) else budget
  }

  /** The answers the driver reads and decodes: all those before the first terminal
      answer or, when `budget` is `Some(k)`, those up to and including the record end
      that completes the record after `k` further records, if that comes first. */
  function Scanned(steps: seq<Step>, budget: Option<nat>): (r: seq<Step>)
    ensures r <= steps && NoTerminal(r)
    decreases |steps|
  {
    if steps == [] || steps[0].result.IsTerminal() then []
    else if steps[0].result == Field(true) && budget == Some(0) then [steps[0]]
    else [steps[0]] + Scanned(steps[1..], Countdown(budget, steps[0]))
  }

  /** Scanning stops right after the record end that completes the `(k+1)`-th record:
      whatever the tokenizer would answer afterwards is never read. */
  lemma {:induction false} StopIgnoresLaterAnswers(p: seq<Step>, later: seq<Step>, k: nat)
    requires NoTerminal(p) && RecordEnds(p) == k + 1
    requires |p| > 0 && p[|p| - 1].result == Field(true)
    ensures Scanned(p + later, Some(k)) == p
    decreases |p|
  {
    var q := p + later;
    assert q[0] == p[0];
    RecordEndsAppend([p[0]], p[1..]);
    assert [p[0]] + p[1..] == p;
    if p[0].result == Field(true) && k == 0 {
      // a second record end would make RecordEnds(p) exceed one, so p is [p[0]]
      if |p| > 1 {
        assert false;
      }
    } else {
      assert q[1..] == p[1..] + later;
      var k' := if p[0].result == Field(true) then k - 1 else k;
      if |p| == 1 {
        assert false;
      }
      StopIgnoresLaterAnswers(p[1..], later, k');
    }
  }

  /** With a budget the driver reads a prefix of what it reads without one; it reads less
      only when it stops on a record end, after `k + 1` records. */
  lemma {:induction false} ScannedWithBudget(steps: seq<Step>, k: nat)
    ensures Scanned(steps, Some(k)) <= Scanned(steps, None)
    ensures Scanned(steps, Some(k)) != Scanned(steps, None) ==>
              RecordEnds(Scanned(steps, Some(k))) == k + 1
    decreases |steps|
  {
    if steps == [] || steps[0].result.IsTerminal() {
    } else if steps[0].result == Field(true) && k == 0 {
      assert RecordEnds([steps[0]]) == RecordEnds([]) + 1 by {
        assert [steps[0]][..0] == [];
      }
    } else {
      var k' := if steps[0].result == Field(true) then k - 1 else k;
      var withBudget := Scanned(steps[1..], Some(k'));
      var without := Scanned(steps[1..], None);
      assert Scanned(steps, Some(k)) == [steps[0]] + withBudget;
      assert Scanned(steps, None) == [steps[0]] + without;
      ScannedWithBudget(steps[1..], k');
      RecordEndsAppend([steps[0]], withBudget);
      assert RecordEnds([steps[0]]) == (if steps[0].result == Field(true) then 1 else 0) by {
        assert [steps[0]][..0] == [];
      }
    }
  }

  /** One more record end in the budget reads a longer prefix; it reads more only when the
      smaller budget stops on a record end, after `k + 1` records. */
  lemma {:induction false} ScannedBudgetGrows(steps: seq<Step>, k: nat)
    ensures Scanned(steps, Some(k)) <= Scanned(steps, Some(k + 1))
    ensures Scanned(steps, Some(k)) != Scanned(steps, Some(k + 1)) ==>
              RecordEnds(Scanned(steps, Some(k))) == k + 1
    decreases |steps|
  {
    if steps == [] || steps[0].result.IsTerminal() {
    } else if steps[0].result == Field(true) && k == 0 {
      assert Scanned(steps, Some(1)) == [steps[0]] + Scanned(steps[1..], Some(0));
      assert RecordEnds([steps[0]]) == RecordEnds([]) + 1 by {
        assert [steps[0]][..0] == [];
      }
    } else {
      var k' := if steps[0].result == Field(true) then k - 1 else k;
      var smaller := Scanned(steps[1..], Some(k'));
      assert Scanned(steps, Some(k)) == [steps[0]] + smaller;
      assert Scanned(steps, Some(k + 1)) == [steps[0]] + Scanned(steps[1..], Some(k' + 1));
      ScannedBudgetGrows(steps[1..], k');
      RecordEndsAppend([steps[0]], smaller);
      assert RecordEnds([steps[0]]) == (if steps[0].result == Field(true) then 1 else 0) by {
        assert [steps[0]][..0] == [];
      }
    }
  }

  /** A decoded chunk: a piece of a cell (`OutputFull`) or the last piece of a field. */
  datatype Piece = Chunk(text: string) | FieldEnd(text: string, recordEnd: bool)

  function PieceOf(result: ReadFieldResult, text: string): Piece
    requires !result.IsTerminal()
  {
    if result.OutputFull? then Chunk(text) else FieldEnd(text, result.recordEnd)
  }

  /** The decoded pieces of the longest prefix whose chunks all decode, and whether a
      chunk failed to decode. */
  datatype Decoding = Decoding(pieces: seq<Piece>, failed: bool)

  /** Decodes the chunks of `steps` in order, up to the first one `decode` rejects. */
  function DecodePrefix(steps: seq<Step>, decode: Decoder): (d: Decoding)
    requires NoTerminal(steps)
    ensures |d.pieces| <= |steps|
    ensures d.failed <==> |d.pieces| < |steps|
    decreases |steps|
  {
    if steps == [] then Decoding([], false)
    else
      var d := DecodePrefix(steps[..|steps| - 1], decode);
      var last := steps[|steps| - 1];
      if d.failed then d
      else match decode(last.output)
        case None => Decoding(d.pieces, true)
        case Some(text) => Decoding(d.pieces + [PieceOf(last.result, text)], false)
  }

  /** The decoding keeps one piece per answer, in order, each the decoded chunk of its
      answer, and it stops exactly at the first chunk that does not decode. */
  lemma {:induction false} DecodedPieces(steps: seq<Step>, decode: Decoder)
    requires NoTerminal(steps)
    ensures var d := DecodePrefix(steps, decode);
            (forall i :: 0 <= i < |d.pieces| ==>
               decode(steps[i].output).Some? &&
               d.pieces[i] == PieceOf(steps[i].result, decode(steps[i].output).value)) &&
            (d.failed ==> decode(steps[|d.pieces|].output).None?)
    decreases |steps|
  {
    if steps != [] {
      var init := steps[..|steps| - 1];
      assert forall j :: 0 <= j < |init| ==> init[j] == steps[j];
      DecodedPieces(init, decode);
    }
  }

  /** Decoding a longer stream decodes at least as much, and a failure stays a failure. */
  lemma {:induction false} DecodeExtends(a: seq<Step>, b: seq<Step>, decode: Decoder)
    requires NoTerminal(a + b)
    ensures NoTerminal(a) && DecodePrefix(a, decode).pieces <= DecodePrefix(a + b, decode).pieces
    ensures DecodePrefix(a, decode).failed ==> DecodePrefix(a + b, decode) == DecodePrefix(a, decode)
    decreases |b|
  {
    assert a <= a + b;
    if b == [] {
      assert a + b == a;
    } else {
      var b' := b[..|b| - 1];
      assert (a + b)[..|a + b| - 1] == a + b';
      assert NoTerminal(a + b') by {
        forall i | 0 <= i < |a + b'| ensures !(a + b')[i].result.IsTerminal() {
          assert (a + b')[i] == (a + b)[i];
        }
      }
      DecodeExtends(a, b', decode);
    }
  }

  /** A chunk the driver decodes fails to decode exactly when the decoding fails. */
  lemma DecodeFailsIffBadChunk(steps: seq<Step>, decode: Decoder)
    requires NoTerminal(steps)
    ensures DecodePrefix(steps, decode).failed <==>
              exists i :: 0 <= i < |steps| && decode(steps[i].output).None?
  {
    var d := DecodePrefix(steps, decode);
    DecodedPieces(steps, decode);
    if d.failed {
      assert decode(steps[|d.pieces|].output).None?;
    }
  }

  type Row = seq<string>

  /** The complete records, the unfinished row and the unfinished cell. */
  datatype Assembly = Assembly(records: seq<Row>, row: Row, cell: string)

  /** Number of pieces that end a record. */
  function PieceRecordEnds(ps: seq<Piece>): nat
    decreases |ps|
  {
    if ps == [] then 0
    else PieceRecordEnds(ps[..|ps| - 1]) + (if ps[|ps| - 1].FieldEnd? && ps[|ps| - 1].recordEnd then 1 else 0)
  }

  /** Groups decoded pieces into cells and cells into records: a cell is the concatenation
      of the pieces up to the end of its field, a record the cells up to a record end. */
  function Assemble(ps: seq<Piece>): (a: Assembly)
    ensures |a.records| == PieceRecordEnds(ps)
    decreases |ps|
  {
    if ps == [] then Assembly([], [], "")
    else
      var a := Assemble(ps[..|ps| - 1]);
      match ps[|ps| - 1]
      case Chunk(t) => a.(cell := a.cell + t)
      case FieldEnd(t, recordEnd) =>
        var row := a.row + [a.cell + t];
        if recordEnd then Assembly(a.records + [row], [], "") else Assembly(a.records, row, "")
  }

  /** The complete records of a stream of pieces. */
  function Records(ps: seq<Piece>): seq<Row>
  {
    Assemble(ps).records
  }

  /** Assembling one more piece. */
  lemma AssembleStep(ps: seq<Piece>, p: Piece)
    ensures var a := Assemble(ps);
            Assemble(ps + [p]) ==
              match p
              case Chunk(t) => a.(cell := a.cell + t)
              case FieldEnd(t, recordEnd) =>
                if recordEnd then Assembly(a.records + [a.row + [a.cell + t]], [], "")
                else Assembly(a.records, a.row + [a.cell + t], "")
  {
    assert (ps + [p])[..|ps|] == ps;
  }

  /** Reading more pieces only ever adds records at the end. */
  lemma {:induction false} RecordsGrow(ps: seq<Piece>, qs: seq<Piece>)
    ensures Records(ps) <= Records(ps + qs)
    decreases |qs|
  {
    if qs == [] {
      assert ps + qs == ps;
    } else {
      var qs' := qs[..|qs| - 1];
      assert (ps + qs)[..|ps + qs| - 1] == ps + qs';
      RecordsGrow(ps, qs');
    }
  }

  /** Decoding and grouping a prefix of a stream: the records completed are a prefix of
      those of the whole stream, and a failure on the prefix is a failure on the whole. */
  lemma DecodedRecordsGrow(a: seq<Step>, all: seq<Step>, decode: Decoder)
    requires a <= all && NoTerminal(all)
    ensures NoTerminal(a)
    ensures !DecodePrefix(a, decode).failed ==>
              Records(DecodePrefix(a, decode).pieces) <= Records(DecodePrefix(all, decode).pieces)
    ensures DecodePrefix(a, decode).failed ==> DecodePrefix(all, decode).failed
  {
    var rest := all[|a|..];
    assert a + rest == all;
    assert NoTerminal(a) && DecodePrefix(a, decode).pieces <= DecodePrefix(all, decode).pieces &&
           (DecodePrefix(a, decode).failed ==> DecodePrefix(all, decode).failed) by {
      DecodeExtends(a, rest, decode);
    }
    var ps := DecodePrefix(a, decode).pieces;
    var qs := DecodePrefix(all, decode).pieces;
    assert Records(ps) <= Records(qs) by {
      assert ps + qs[|ps|..] == qs;
      RecordsGrow(ps, qs[|ps|..]);
    }
  }

  /** When every chunk decodes, one record is complete per record end. */
  lemma {:induction false} DecodedRecordCount(steps: seq<Step>, decode: Decoder)
    requires NoTerminal(steps) && !DecodePrefix(steps, decode).failed
    ensures |Records(DecodePrefix(steps, decode).pieces)| == RecordEnds(steps)
    decreases |steps|
  {
    if steps != [] {
      var init := steps[..|steps| - 1];
      var last := steps[|steps| - 1];
      assert forall j :: 0 <= j < |init| ==> init[j] == steps[j];
      var d := DecodePrefix(init, decode);
      var ps := DecodePrefix(steps, decode).pieces;
      assert !d.failed && ps == d.pieces + [PieceOf(last.result, decode(last.output).value)];
      assert ps[..|ps| - 1] == d.pieces;
      DecodedRecordCount(init, decode);
    }
  }

  /** Pieces after the last record end (an unfinished row or cell) add no record. */
  lemma {:induction false} TrailingPiecesDiscarded(ps: seq<Piece>, qs: seq<Piece>)
    requires forall j :: 0 <= j < |qs| ==> !(qs[j].FieldEnd? && qs[j].recordEnd)
    ensures Records(ps + qs) == Records(ps)
    decreases |qs|
  {
    if qs == [] {
      assert ps + qs == ps;
    } else {
      var qs' := qs[..|qs| - 1];
      assert (ps + qs)[..|ps + qs| - 1] == ps + qs';
      assert (ps + qs)[|ps + qs| - 1] == qs[|qs| - 1];
      TrailingPiecesDiscarded(ps, qs');
    }
  }

  function Concat(texts: seq<string>): string
    decreases |texts|
  {
    if texts == [] then "" else Concat(texts[..|texts| - 1]) + texts[|texts| - 1]
  }

  function Chunks(texts: seq<string>): (ps: seq<Piece>)
    ensures |ps| == |texts| && forall j :: 0 <= j < |ps| ==> ps[j] == Chunk(texts[j])
  {
    seq(|texts|, j requires 0 <= j < |texts| => Chunk(texts[j]))
  }

  /** `OutputFull` chunks only extend the unfinished cell: records and row stay as they are. */
  lemma {:induction false} ChunksExtendCell(ps: seq<Piece>, texts: seq<string>)
    ensures Assemble(ps + Chunks(texts)) ==
              Assemble(ps).(cell := Assemble(ps).cell + Concat(texts))
    decreases |texts|
  {
    if texts == [] {
      assert ps + Chunks(texts) == ps;
    } else {
      var texts' := texts[..|texts| - 1];
      var q := ps + Chunks(texts);
      assert q[..|q| - 1] == ps + Chunks(texts');
      assert q[|q| - 1] == Chunk(texts[|texts| - 1]);
      ChunksExtendCell(ps, texts');
    }
  }

  /** A field answer closes the cell as the concatenation of every chunk since the previous
      field, and starts an empty one. */
  lemma FieldClosesCell(ps: seq<Piece>, texts: seq<string>, last: string)
    ensures var a := Assemble(ps);
            Assemble(ps + Chunks(texts) + [FieldEnd(last, false)]) ==
              Assembly(a.records, a.row + [a.cell + Concat(texts) + last], "")
  {
    var q := ps + Chunks(texts) + [FieldEnd(last, false)];
    assert q[..|q| - 1] == ps + Chunks(texts);
    ChunksExtendCell(ps, texts);
  }

  /** Field answers that close each of `cells` without ending the record. */
  function Fields(cells: seq<string>): (ps: seq<Piece>)
    ensures |ps| == |cells|
    decreases |cells|
  {
    if cells == [] then [] else Fields(cells[..|cells| - 1]) + [FieldEnd(cells[|cells| - 1], false)]
  }

  /** The pieces a tokenizer reports for one complete record when every cell fits in one
      field answer: a field end per cell, the last one ending the record. */
  function EmitRow(row: Row): (ps: seq<Piece>)
    ensures |ps| == |row|
  {
    if row == [] then [] else Fields(row[..|row| - 1]) + [FieldEnd(row[|row| - 1], true)]
  }

  /** The pieces a tokenizer reports for complete records. */
  function Emit(rows: seq<Row>): seq<Piece>
    decreases |rows|
  {
    if rows == [] then [] else Emit(rows[..|rows| - 1]) + EmitRow(rows[|rows| - 1])
  }

  /** Field answers that do not end a record append their cells to the unfinished row. */
  lemma {:induction false} FieldsExtendRow(ps: seq<Piece>, cells: seq<string>)
    requires Assemble(ps).cell == ""
    ensures Assemble(ps + Fields(cells)) == Assembly(Assemble(ps).records, Assemble(ps).row + cells, "")
    decreases |cells|
  {
    if cells == [] {
      assert ps + Fields(cells) == ps;
      assert Assemble(ps).row + cells == Assemble(ps).row;
    } else {
      var init := cells[..|cells| - 1];
      var last := cells[|cells| - 1];
      assert ps + Fields(cells) == (ps + Fields(init)) + [FieldEnd(last, false)];
      FieldsExtendRow(ps, init);
      AssembleStep(ps + Fields(init), FieldEnd(last, false));
      assert "" + last == last;
      assert Assemble(ps).row + init + [last] == Assemble(ps).row + cells;
    }
  }

  /** A record end after field ends that did not end a record closes the record. */
  lemma CloseRecord(ps: seq<Piece>, init: Row, last: string)
    requires Assemble(ps).row == [] && Assemble(ps).cell == ""
    ensures Assemble(ps + Fields(init) + [FieldEnd(last, true)]) ==
              Assembly(Assemble(ps).records + [init + [last]], [], "")
  {
    var pre := ps + Fields(init);
    var records := Assemble(ps).records;
    assert Assemble(pre) == Assembly(records, init, "") by {
      FieldsExtendRow(ps, init);
      assert [] + init == init;
    }
    AssembleStep(pre, FieldEnd(last, true));
    assert "" + last == last;
  }

  lemma AssembleRow(ps: seq<Piece>, row: Row)
    requires Assemble(ps).row == [] && Assemble(ps).cell == ""
    requires row != []
    ensures Assemble(ps + EmitRow(row)) == Assembly(Assemble(ps).records + [row], [], "")
  {
    var init, last := row[..|row| - 1], row[|row| - 1];
    assert ps + EmitRow(row) == ps + Fields(init) + [FieldEnd(last, true)];
    CloseRecord(ps, init, last);
    assert init + [last] == row;
  }

  /** Grouping undoes emitting: the records read back from the pieces of complete records
      are those records. */
  lemma {:induction false} RecordsOfEmit(rows: seq<Row>)
    requires forall j :: 0 <= j < |rows| ==> rows[j] != []
    ensures Assemble(Emit(rows)) == Assembly(rows, [], "")
    decreases |rows|
  {
    if rows != [] {
      var rows' := rows[..|rows| - 1];
      RecordsOfEmit(rows');
      AssembleRow(Emit(rows'), rows[|rows| - 1]);
      assert rows' + [rows[|rows| - 1]] == rows;
    }
  }
  /** The answer that reports piece `p`: `OutputFull` for a chunk, a field end otherwise. */
  function ResultOf(p: Piece): (r: ReadFieldResult)
    ensures !r.IsTerminal() && PieceOf(r, p.text) == p
  {
    if p.Chunk? then OutputFull else Field(p.recordEnd)
  }

  /** The answers of a tokenizer that reports the pieces `ps`, one answer per piece, each
      writing its text as `encode` gives it and consuming those bytes and, after a field,
      its delimiter. */
  function Answers(ps: seq<Piece>, encode: string -> seq<byte>): (steps: seq<Step>)
    ensures |steps| == |ps| && NoTerminal(steps)
    ensures forall i :: 0 <= i < |ps| ==> steps[i].output == encode(ps[i].text) && PieceOf(steps[i].result, ps[i].text) == ps[i]
  {
    var steps := seq(|ps|, i requires 0 <= i < |ps| =>
      Step(ResultOf(ps[i]), |encode(ps[i].text)| + (if ps[i].Chunk? then 0 else 1), encode(ps[i].text)));
    assert forall i :: 0 <= i < |ps| ==> steps[i].result == ResultOf(ps[i]);
    steps
  }

  /** `decode` gives back the text of every piece of `ps` from its encoding. */
  predicate RoundTrips(ps: seq<Piece>, encode: string -> seq<byte>, decode: Decoder)
  {
    forall i :: 0 <= i < |ps| ==> decode(encode(ps[i].text)) == Some(ps[i].text)
  }

  /** `decode` gives back every cell of `rows` from its encoding. */
  predicate CellsRoundTrip(rows: seq<Row>, encode: string -> seq<byte>, decode: Decoder)
  {
    forall j, k :: 0 <= j < |rows| && 0 <= k < |rows[j]| ==> decode(encode(rows[j][k])) == Some(rows[j][k])
  }

  /** Decoding undoes encoding: the answers reporting `ps` decode to `ps`, and nothing fails. */
  lemma DecodeAnswers(ps: seq<Piece>, encode: string -> seq<byte>, decode: Decoder)
    requires RoundTrips(ps, encode, decode)
    ensures DecodePrefix(Answers(ps, encode), decode) == Decoding(ps, false)
  {
    var steps := Answers(ps, encode);
    var d := DecodePrefix(steps, decode);
    DecodedPieces(steps, decode);
    assert !d.failed;
    assert d.pieces == ps;
  }

  /** The driver reads nothing past the first terminal answer. */
  lemma {:induction false} ScannedToTerminal(p: seq<Step>, last: Step, later: seq<Step>)
    requires NoTerminal(p) && last.result.IsTerminal()
    ensures Scanned(p + [last] + later, None) == p
    decreases |p|
  {
    var q := p + [last] + later;
    if p == [] {
      assert q[0] == last;
    } else {
      assert q[0] == p[0] && !p[0].result.IsTerminal();
      assert q[1..] == p[1..] + [last] + later;
      ScannedToTerminal(p[1..], last, later);
      assert [p[0]] + p[1..] == p;
    }
  }

  /** The field ends of `cells` report each cell in turn. */
  lemma {:induction false} FieldsReportCells(cells: seq<string>)
    ensures forall i :: 0 <= i < |cells| ==> Fields(cells)[i] == FieldEnd(cells[i], false)
    decreases |cells|
  {
    if cells != [] {
      var init := cells[..|cells| - 1];
      FieldsReportCells(init);
      assert forall i :: 0 <= i < |init| ==> Fields(cells)[i] == Fields(init)[i];
    }
  }

  /** The pieces emitted for one record carry its cells. */
  lemma EmitRowRoundTrips(row: Row, encode: string -> seq<byte>, decode: Decoder)
    requires forall k :: 0 <= k < |row| ==> decode(encode(row[k])) == Some(row[k])
    ensures RoundTrips(EmitRow(row), encode, decode)
  {
    if row != [] {
      FieldsReportCells(row[..|row| - 1]);
      assert forall i :: 0 <= i < |row| ==> EmitRow(row)[i].text == row[i];
    }
  }

  lemma RoundTripsAppend(a: seq<Piece>, b: seq<Piece>, encode: string -> seq<byte>, decode: Decoder)
    requires RoundTrips(a, encode, decode) && RoundTrips(b, encode, decode)
    ensures RoundTrips(a + b, encode, decode)
  {
    assert forall i :: 0 <= i < |a + b| ==> (a + b)[i] == if i < |a| then a[i] else b[i - |a|];
  }

  /** Every piece emitted for complete records carries one of their cells, so a codec that
      round-trips the cells round-trips the pieces. */
  lemma {:induction false} EmitRoundTrips(rows: seq<Row>, encode: string -> seq<byte>, decode: Decoder)
    requires CellsRoundTrip(rows, encode, decode)
    ensures RoundTrips(Emit(rows), encode, decode)
    decreases |rows|
  {
    if rows != [] {
      var init := rows[..|rows| - 1];
      var row := rows[|rows| - 1];
      assert CellsRoundTrip(init, encode, decode) by {
        assert forall j :: 0 <= j < |init| ==> init[j] == rows[j];
      }
      EmitRoundTrips(init, encode, decode);
      EmitRowRoundTrips(row, encode, decode);
      RoundTripsAppend(Emit(init), EmitRow(row), encode, decode);
    }
  }
}

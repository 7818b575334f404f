/**
  Turning the text of `forge coverage --report summary` into a map from file
  path to its four coverage percentages (script/check-coverage.py, lines 40-60).
 */
module Report {
  import opened Wrappers
  import opened PyText
  import opened Percent

  /** The four percentages recorded for one file. */
  datatype Coverage = Coverage(lines: real, statements: real, branches: real, functions: real)

  /** A table row that was recognised as a file's coverage line. */
  datatype Row = Row(key: string, coverage: Coverage)

  /**
    Row classification: a line is a data row when it starts with `|`, contains
    ` | `, splits on `|` into at least six pieces and its stripped second piece
    is non-empty and does not start with `-`. That piece is the key; pieces two
    to five give lines, statements, branches and functions. Metric cells are
    never checked: a cell without a percentage gives 0.
   */
  function ParseRow(line: string): Option<Row>
  {
    if "|" <= line && Contains(line, " | ") then
      var parts := Split(line, '|');
      if |parts| >= 6 then
        var contract := Strip(parts[1]);
        if contract != "" && contract[0] != '-' then
          Some(Row(contract, Coverage(MetricOf(parts[2]), MetricOf(parts[3]),
                                      MetricOf(parts[4]), MetricOf(parts[5]))))
        else None
      else None
    else None
  }

  /** The coverage map after the rows of `lines` have been processed in order. */
  function ReportOf(lines: seq<string>): map<string, Coverage>
  {
    if lines == [] then map[]
    else Record(ReportOf(lines[..|lines| - 1]), lines[|lines| - 1])
  }

  /** The effect of one line on the coverage map: a data row sets its key's record. */
  function Record(coverage: map<string, Coverage>, line: string): map<string, Coverage>
  {
    match ParseRow(line)
    case None => coverage
    case Some(row) => coverage[row.key := row.coverage]
  }

  /**
    The parse loop of the gate: split the tool's output on line feeds and
    record every data row under its key, a later row overwriting an earlier one.
   */
  method ParseReport(output: string) returns (coverage: map<string, Coverage>)
    ensures coverage == ReportOf(Split(output, '\n'))
  {
    coverage := map[];
    var lines := Split(output, '\n');
    for i := 0 to |lines|
      invariant coverage == ReportOf(lines[..i])
    {
      assert lines[..i + 1][..i] == lines[..i];
      match ParseRow(lines[i]) {
        case Some(row) =>
          coverage := coverage[row.key := row.coverage];
        case None =>
      }
    }
    assert lines[..|lines|] == lines;
  }

  // ---------------------------------------------------------------- properties of a row

  /** Column padding: one or more spaces, as the tool puts after a file name to fill its column. */
  predicate Padding(pad: string) {
    pad != [] && forall i :: 0 <= i < |pad| ==> pad[i] == ' '
  }

  /**
    The pieces of a table line between its `|` separators: nothing, the key
    with one space before it and its column padding after it, four cells, nothing.
   */
  function RowPieces(key: string, pad: string, cells: seq<string>): seq<string>
    requires |cells| == 4
  {
    ["", " " + key + pad, cells[0], cells[1], cells[2], cells[3], ""]
  }

  /**
    A table line as the coverage tool prints it, `| key<pad>|c1|c2|c3|c4|`,
    the file column padded to its width and each cell with its own padding.
   */
  function RowText(key: string, pad: string, cells: seq<string>): string
    requires |cells| == 4
  {
    Join(RowPieces(key, pad, cells), '|')
  }

  /** What a recognised row needs of its line. */
  lemma AcceptedRowShape(line: string)
    requires ParseRow(line).Some?
    ensures line[0] == '|'
    ensures Contains(line, " | ")
    ensures multiset(line)['|'] >= 5
    ensures var key := ParseRow(line).value.key;
      && key != [] && key[0] != '-' && '|' !in key
      && !IsSpace(key[0]) && !IsSpace(key[|key| - 1])
  {
    SplitCount(line, '|');
    var parts := Split(line, '|');
    var key := ParseRow(line).value.key;
    assert key == Strip(parts[1]);
    var i: nat :| OccursAt(parts[1], key, i);
  }

  /**
    Round trip: a row printed with a key that has no `|`, does not start with
    `-` and has no surrounding whitespace, padded to any column width, and with
    cells free of `|`, is read back under exactly that key, each metric being
    what its own cell yields.
   */
  lemma RowRoundTrip(key: string, pad: string, cells: seq<string>)
    requires key != [] && key[0] != '-' && '|' !in key
    requires !IsSpace(key[0]) && !IsSpace(key[|key| - 1])
    requires Padding(pad)
    requires |cells| == 4 && forall i :: 0 <= i < 4 ==> '|' !in cells[i]
    requires cells[0] != [] && cells[0][0] == ' '
    ensures ParseRow(RowText(key, pad, cells)) ==
            Some(Row(key, Coverage(MetricOf(cells[0]), MetricOf(cells[1]),
                                   MetricOf(cells[2]), MetricOf(cells[3]))))
  {
    var pieces := RowPieces(key, pad, cells);
    var line := RowText(key, pad, cells);
    var k := " " + key + pad;
    assert '|' !in pad;
    assert '|' !in k;
    assert forall i :: 0 <= i < |pieces| ==> '|' !in pieces[i];
    SplitJoin(pieces, '|');
    RowTextStart(pieces, '|');
    assert OccursAt(line, " | ", |k|) by {
      assert k[|k| - 1] == ' ';
      assert line[|k|..|k| + 3] == [k[|k| - 1], '|', cells[0][0]];
    }
    assert AllSpace(" ");
    assert AllSpace(pad);
    StripPadded(" ", key, pad);
  }

  /** How a joined row begins: the separator, the second piece, the separator, the third piece. */
  lemma RowTextStart(pieces: seq<string>, sep: char)
    requires |pieces| >= 4 && pieces[0] == []
    ensures Join(pieces, sep) == [sep] + pieces[1] + [sep] + pieces[2] + [sep] + Join(pieces[3..], sep)
  {
    var p1, p2 := pieces[1..], pieces[2..];
    assert p1[0] == pieces[1] && p1[1..] == p2;
    assert p2[0] == pieces[2] && p2[1..] == pieces[3..];
    assert Join(p2, sep) == pieces[2] + [sep] + Join(pieces[3..], sep);
    assert Join(p1, sep) == pieces[1] + [sep] + Join(p2, sep);
    assert Join(pieces, sep) == [] + [sep] + Join(p1, sep);
  }

  /** A row whose metric cells hold no decimal point is still recorded, with 0 for every metric. */
  lemma MalformedCellsRecordZero(key: string, pad: string, cells: seq<string>)
    requires key != [] && key[0] != '-' && '|' !in key
    requires !IsSpace(key[0]) && !IsSpace(key[|key| - 1])
    requires Padding(pad)
    requires |cells| == 4 && forall i :: 0 <= i < 4 ==> '|' !in cells[i] && '.' !in cells[i]
    requires cells[0] != [] && cells[0][0] == ' '
    ensures ParseRow(RowText(key, pad, cells)) == Some(Row(key, Coverage(0.0, 0.0, 0.0, 0.0)))
  {
    RowRoundTrip(key, pad, cells);
    NoPointIsZero(cells[0]);
    NoPointIsZero(cells[1]);
    NoPointIsZero(cells[2]);
    NoPointIsZero(cells[3]);
  }

  // ---------------------------------------------------------------- properties of the whole report

  /** The keys of the report are exactly the keys of the recognised rows. */
  lemma {:induction false} ReportKeys(lines: seq<string>, k: string)
    ensures k in ReportOf(lines) <==>
            exists i :: 0 <= i < |lines| && ParseRow(lines[i]).Some? && ParseRow(lines[i]).value.key == k
  {
    if lines != [] {
      var init := lines[..|lines| - 1];
      ReportKeys(init, k);
      assert forall i :: 0 <= i < |init| ==> init[i] == lines[i];
    }
  }

  /** The record kept for a key is that of the last recognised row with that key. */
  lemma {:induction false} ReportLastWins(lines: seq<string>, i: nat)
    requires i < |lines| && ParseRow(lines[i]).Some?
    requires forall j :: i < j < |lines| && ParseRow(lines[j]).Some? ==>
               ParseRow(lines[j]).value.key != ParseRow(lines[i]).value.key
    ensures var row := ParseRow(lines[i]).value;
      row.key in ReportOf(lines) && ReportOf(lines)[row.key] == row.coverage
  {
    if i < |lines| - 1 {
      var init := lines[..|lines| - 1];
      assert forall j :: 0 <= j < |init| ==> init[j] == lines[j];
      ReportLastWins(init, i);
    }
  }

  /** Line `i` is the last recognised row with key `k`. */
  predicate LastRowFor(lines: seq<string>, i: nat, k: string) {
    && i < |lines| && ParseRow(lines[i]).Some? && ParseRow(lines[i]).value.key == k
    && forall j :: i < j < |lines| && ParseRow(lines[j]).Some? ==> ParseRow(lines[j]).value.key != k
  }

  /** Every key of the report has a last row, and its record is that row's. */
  lemma {:induction false} ReportFromLastRow(lines: seq<string>, k: string)
    requires k in ReportOf(lines)
    ensures exists i: nat :: LastRowFor(lines, i, k) && ReportOf(lines)[k] == ParseRow(lines[i]).value.coverage
  {
    var n := |lines| - 1;
    var init := lines[..n];
    assert ReportOf(lines) == Record(ReportOf(init), lines[n]);
    if ParseRow(lines[n]).Some? && ParseRow(lines[n]).value.key == k {
      assert LastRowFor(lines, n, k);
    } else {
      assert k in ReportOf(init) && ReportOf(lines)[k] == ReportOf(init)[k];
      ReportFromLastRow(init, k);
      var i: nat :| LastRowFor(init, i, k) && ReportOf(init)[k] == ParseRow(init[i]).value.coverage;
      assert init[i] == lines[i];
      forall j | i < j < |lines| && ParseRow(lines[j]).Some?
        ensures ParseRow(lines[j]).value.key != k
      {
        if j < n { assert lines[j] == init[j]; } else { assert j == n; }
      }
      assert LastRowFor(lines, i, k);
    }
  }

  /** A line that is not a data row may be removed anywhere without changing the report. */
  lemma {:induction false} RejectedLineIgnored(before: seq<string>, line: string, after: seq<string>)
    requires ParseRow(line).None?
    ensures ReportOf(before + [line] + after) == ReportOf(before + after)
    decreases |after|
  {
    var x := before + [line] + after;
    var y := before + after;
    if after == [] {
      assert x[..|x| - 1] == before;
      assert y == before;
    } else {
      var a := after[..|after| - 1];
      RejectedLineIgnored(before, line, a);
      assert x[..|x| - 1] == before + [line] + a;
      assert y[..|y| - 1] == before + a;
      assert x[|x| - 1] == y[|y| - 1];
      assert ReportOf(x) == Record(ReportOf(before + [line] + a), x[|x| - 1]);
      assert ReportOf(y) == Record(ReportOf(before + a), y[|y| - 1]);
    }
  }
}

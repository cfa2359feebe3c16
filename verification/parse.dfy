/** `readCSV` of NumCpp: turns the lines of a comma-separated file into rows
    of numbers, optionally discarding the first field of every line.

    The file is given as `Option<seq<string>>`: `None` when it cannot be
    opened, otherwise its lines as `std::getline` delivers them. The number
    conversion `std::stod` is the parameter `parseCell`, an arbitrary total
    function that answers `None` where `stod` throws `invalid_argument`. */
module Parse {
  import opened Wrappers

  type Row = seq<real>

  // ---------------------------------------------------------------------------
  // Splitting a line into fields
  // ---------------------------------------------------------------------------

  /** Position of the first comma at or after pos, or |line| when there is
      none: where `std::getline(ss, cell, ',')` stops reading. */
  function CommaFrom(line: string, pos: nat): (k: nat)
    requires pos <= |line|
    ensures pos <= k <= |line|
    ensures forall j :: pos <= j < k ==> line[j] != ','
    ensures k < |line| ==> line[k] == ','
    decreases |line| - pos
  {
    if pos == |line| || line[pos] == ',' then pos else CommaFrom(line, pos + 1)
  }

  /** The fields of one line: the cells that repeated
      `std::getline(ss, cell, ',')` extracts from a string stream over it.
      While text is left, each call takes the text up to the next comma and
      consumes that comma. So "" gives no field, "a,,b" gives "a", "" and
      "b", and a trailing comma adds no empty last field. */
  function SplitFields(line: string): (fields: seq<string>)
    ensures |fields| == 0 <==> |line| == 0
    decreases |line|
  {
    if |line| == 0 then []
    else
      var k := CommaFrom(line, 0);
      [line[..k]] + (if k == |line| then [] else SplitFields(line[k + 1..]))
  }

  /** The fields written back with a comma between neighbours. */
  function Join(fields: seq<string>): string
  {
    if |fields| == 0 then ""
    else if |fields| == 1 then fields[0]
    else fields[0] + "," + Join(fields[1..])
  }

  /** A trailing comma of the line, if any: the one thing splitting loses. */
  function TrailingComma(line: string): string
  {
    if |line| > 0 && line[|line| - 1] == ',' then "," else ""
  }

  // ---------------------------------------------------------------------------
  // Converting fields
  // ---------------------------------------------------------------------------

  /** Every field from position `from` on converts. */
  predicate AllConvert(fields: seq<string>, from: nat, parseCell: string -> Option<real>)
  {
    forall j :: from <= j < |fields| ==> parseCell(fields[j]).Some?
  }

  /** `row` holds the conversions of the fields from position `from` on, in
      field order and nothing else. */
  predicate ConvertedFrom(row: Row, fields: seq<string>, from: nat, parseCell: string -> Option<real>)
  {
    && |row| + from == |fields|
    && forall j :: 0 <= j < |row| ==> parseCell(fields[j + from]) == Some(row[j])
  }

  /** Converts the cells in order, pushing each value at the back of the
      row; fails as soon as one cell does not convert. */
  function ParseCells(cells: seq<string>, parseCell: string -> Option<real>): (r: Option<Row>)
    ensures r.Some? <==> AllConvert(cells, 0, parseCell)
    ensures r.Some? ==> ConvertedFrom(r.value, cells, 0, parseCell)
    decreases |cells|
  {
    if |cells| == 0 then Some([])
    else
      var n := |cells| - 1;
      var row :- ParseCells(cells[..n], parseCell);
      var v :- parseCell(cells[n]);
      Some(row + [v])
  }

  /** How many leading fields of a line are discarded: the first one when
      `skipFirstCol` is set and the line has a field at all. */
  function Offset(fields: seq<string>, skipFirstCol: bool): nat
  {
    if skipFirstCol && |fields| > 0 then 1 else 0
  }

  /** The cells of a line that are converted: all but a skipped first one. */
  function Kept(cells: seq<string>, skipFirstCol: bool): seq<string>
  {
    cells[Offset(cells, skipFirstCol)..]
  }

  /** One line to one row: every field after the skipped one converted, in
      field order; `None` when one of them does not convert. */
  function ParseLine(line: string, skipFirstCol: bool, parseCell: string -> Option<real>): (r: Option<Row>)
    ensures r.Some? <==>
      AllConvert(SplitFields(line), Offset(SplitFields(line), skipFirstCol), parseCell)
    ensures r.Some? ==>
      ConvertedFrom(r.value, SplitFields(line), Offset(SplitFields(line), skipFirstCol), parseCell)
  {
    ShiftedCells(SplitFields(line), Offset(SplitFields(line), skipFirstCol), parseCell);
    ParseCells(Kept(SplitFields(line), skipFirstCol), parseCell)
  }

  /** ParseCells on the fields from position off on, restated over the
      fields' own positions. */
  lemma ShiftedCells(fields: seq<string>, off: nat, parseCell: string -> Option<real>)
    requires off <= |fields|
    ensures ParseCells(fields[off..], parseCell).Some? <==> AllConvert(fields, off, parseCell)
    ensures ParseCells(fields[off..], parseCell).Some? ==>
      ConvertedFrom(ParseCells(fields[off..], parseCell).value, fields, off, parseCell)
  {
    var cells := fields[off..];
    var r := ParseCells(cells, parseCell);
    if r.Some? {
      forall j | off <= j < |fields|
        ensures parseCell(fields[j]).Some?
      {
        assert fields[j] == cells[j - off];
      }
      forall j | 0 <= j < |r.value|
        ensures r.value[j] == parseCell(fields[j + off]).value
      {
        assert cells[j] == fields[j + off];
      }
    } else {
      var k :| 0 <= k < |cells| && parseCell(cells[k]).None?;
      assert cells[k] == fields[k + off];
    }
  }

  /** All lines to rows with one line parser, one row per line in line
      order, pushing each row at the back; `None` as soon as one line
      fails. Each line is parsed on its own: nothing carries over from one
      line to the next. */
  function ReadRows(lines: seq<string>, parseLine: string -> Option<Row>): (r: Option<seq<Row>>)
    ensures r.Some? <==> forall i :: 0 <= i < |lines| ==> parseLine(lines[i]).Some?
    ensures r.Some? ==> |r.value| == |lines|
    ensures r.Some? ==> forall i :: 0 <= i < |lines| ==> Some(r.value[i]) == parseLine(lines[i])
    decreases |lines|
  {
    if |lines| == 0 then Some([])
    else
      var n := |lines| - 1;
      var front := ReadRows(lines[..n], parseLine);
      var last := parseLine(lines[n]);
      AppendLine(lines, lines[..n], front, last, parseLine);
      if front.None? || last.None? then None
      else Some(front.value + [last.value])
  }

  /** The step of ReadRows: the rows of all lines but the last, extended by
      the row of the last line. */
  lemma AppendLine(lines: seq<string>, init: seq<string>, front: Option<seq<Row>>, last: Option<Row>,
                   parseLine: string -> Option<Row>)
    requires |lines| > 0 && init == lines[..|lines| - 1]
    requires front.Some? <==> forall i :: 0 <= i < |init| ==> parseLine(init[i]).Some?
    requires front.Some? ==> |front.value| == |init|
    requires front.Some? ==> forall i :: 0 <= i < |init| ==> Some(front.value[i]) == parseLine(init[i])
    requires last == parseLine(lines[|lines| - 1])
    ensures var r := if front.None? || last.None? then None else Some(front.value + [last.value]);
      && (r.Some? <==> forall i :: 0 <= i < |lines| ==> parseLine(lines[i]).Some?)
      && (r.Some? ==> |r.value| == |lines|)
      && (r.Some? ==> forall i :: 0 <= i < |lines| ==> Some(r.value[i]) == parseLine(lines[i]))
  {
    var n := |lines| - 1;
    assert forall i :: 0 <= i < n ==> init[i] == lines[i];
    if front.None? {
      var i :| 0 <= i < n && parseLine(init[i]).None?;
      assert init[i] == lines[i];
    }
  }

  /** The line parser `readCSV` applies to every line. */
  function LineParser(skipFirstCol: bool, parseCell: string -> Option<real>): string -> Option<Row>
  {
    line => ParseLine(line, skipFirstCol, parseCell)
  }

  /** What `readCSV(fname, skip_first_col)` returns, as a function of the
      file's lines: nothing when the file cannot be opened, else one row per
      line, or nothing when some line fails. */
  function LoadRows(file: Option<seq<string>>, skipFirstCol: bool, parseCell: string -> Option<real>): (r: Option<seq<Row>>)
    ensures file.None? ==> r.None?
    ensures file.Some? ==> (r.Some? <==>
      forall i :: 0 <= i < |file.value| ==> ParseLine(file.value[i], skipFirstCol, parseCell).Some?)
    ensures r.Some? ==> file.Some? && |r.value| == |file.value|
    ensures r.Some? ==> forall i :: 0 <= i < |r.value| ==>
      Some(r.value[i]) == ParseLine(file.value[i], skipFirstCol, parseCell)
  {
    match file
    case None => None
    case Some(lines) => ReadRows(lines, LineParser(skipFirstCol, parseCell))
  }

  // ---------------------------------------------------------------------------
  // The loops of readCSV
  // ---------------------------------------------------------------------------

  /** One more cell after the skipped one is one more cell to convert, and
      its value lands at the back of the row. */
  lemma KeptSnoc(cells: seq<string>, cell: string, skipFirstCol: bool, parseCell: string -> Option<real>)
    requires !(skipFirstCol && |cells| == 0)
    ensures Kept(cells + [cell], skipFirstCol) == Kept(cells, skipFirstCol) + [cell]
    ensures var before := ParseCells(Kept(cells, skipFirstCol), parseCell);
      ParseCells(Kept(cells + [cell], skipFirstCol), parseCell)
        == if before.Some? && parseCell(cell).Some? then Some(before.value + [parseCell(cell).value]) else None
  {
    var xs := Kept(cells, skipFirstCol);
    assert Kept(cells + [cell], skipFirstCol) == xs + [cell];
    assert (xs + [cell])[..|xs|] == xs;
  }

  /** One `std::getline(ss, cell, ',')` call on a stream positioned at pos
      with text left: the cell is the text up to the next comma or the end,
      and the stream moves past that comma. */
  method NextCell(line: string, pos: nat) returns (cell: string, next: nat)
    requires pos < |line|
    ensures pos < next <= |line|
    ensures ',' !in cell
    ensures SplitFields(line[pos..]) == [cell] + SplitFields(line[next..])
  {
    var end := pos;
    while end < |line| && line[end] != ','
      invariant pos <= end <= |line|
      invariant CommaFrom(line, end) == CommaFrom(line, pos)
    {
      end := end + 1;
    }
    cell := line[pos..end];
    if end < |line| {
      next := end + 1;
    } else {
      next := end;
    }
    StepFields(line, pos, end, next);
  }

  /** The fields of the text from pos on: the cell up to the comma at k (or
      the end), then the fields of the text after it. */
  lemma StepFields(line: string, pos: nat, k: nat, next: nat)
    requires pos < |line| && k == CommaFrom(line, pos)
    requires next == if k < |line| then k + 1 else k
    ensures SplitFields(line[pos..]) == [line[pos..k]] + SplitFields(line[next..])
  {
    var s := line[pos..];
    CommaFromSuffix(line, pos);
    var j := k - pos;
    assert s[..j] == line[pos..k];
    if k < |line| {
      assert s[j + 1..] == line[next..];
      FieldsAfterCut(s, j, line[pos..k], line[next..]);
    } else {
      FieldsAfterCut(s, j, line[pos..k], "");
    }
  }

  /** SplitFields unfolded once, with the first field and the text after
      its comma given by name. */
  lemma FieldsAfterCut(s: string, j: nat, head: string, tail: string)
    requires |s| > 0 && j == CommaFrom(s, 0)
    requires head == s[..j]
    requires j < |s| ==> tail == s[j + 1..]
    ensures SplitFields(s) == [head] + (if j == |s| then [] else SplitFields(tail))
  {
    SplitUnfold(s);
  }

  /** The body of the line loop of `readCSV`: a fresh row and a fresh skip
      flag, then cell after cell; the first cell is dropped when
      `skipFirstCol` is set, every other one converted and pushed, and the
      line given up (`None`) on the first cell that does not convert. */
  method ReadLine(line: string, skipFirstCol: bool, parseCell: string -> Option<real>)
    returns (row: Option<Row>)
    ensures row == ParseLine(line, skipFirstCol, parseCell)
  {
    var values: Row := [];
    var skip := true;
    var pos := 0;
    ghost var cells: seq<string> := [];
    assert line[0..] == line;
    while pos < |line|
      invariant 0 <= pos <= |line|
      invariant SplitFields(line) == cells + SplitFields(line[pos..])
      invariant skipFirstCol ==> (skip <==> |cells| == 0)
      invariant ParseCells(Kept(cells, skipFirstCol), parseCell) == Some(values)
    {
      var cell, next := NextCell(line, pos);
      ConcatAssoc(cells, [cell], SplitFields(line[next..]));
      if skipFirstCol && skip {
        skip := false;
        cells, pos := cells + [cell], next;
        assert Kept(cells, skipFirstCol) == [];
        continue;
      }
      KeptSnoc(cells, cell, skipFirstCol, parseCell);
      cells, pos := cells + [cell], next;
      var v := parseCell(cell);
      if v.None? {
        KeptCellFails(line, cells, skipFirstCol, parseCell);
        return None;
      }
      values := values + [v.value];
    }
    LineFromCells(line, pos, cells, skipFirstCol, parseCell);
    return Some(values);
  }

  /** `readCSV` as written: no result when the file does not open; else one
      row per line, pushed in line order, and no result at all as soon as a
      line fails. It computes exactly LoadRows. */
  method ReadCsv(file: Option<seq<string>>, skipFirstCol: bool, parseCell: string -> Option<real>)
    returns (data: Option<seq<Row>>)
    ensures data == LoadRows(file, skipFirstCol, parseCell)
  {
    if file.None? {
      return None;
    }
    var lines := file.value;
    var rows: seq<Row> := [];
    var n := 0;
    while n < |lines|
      invariant 0 <= n <= |lines|
      invariant ReadRows(lines[..n], LineParser(skipFirstCol, parseCell)) == Some(rows)
    {
      var row := ReadLine(lines[n], skipFirstCol, parseCell);
      if row.None? {
        BadLineAbortsLoad(lines, n, skipFirstCol, parseCell);
        return None;
      }
      ReadRowsSnoc(lines, n, LineParser(skipFirstCol, parseCell));
      rows := rows + [row.value];
      n := n + 1;
    }
    assert lines[..n] == lines;
    return Some(rows);
  }

  /** One line that does not parse leaves the whole file without rows. */
  lemma BadLineAbortsLoad(lines: seq<string>, n: nat, skipFirstCol: bool, parseCell: string -> Option<real>)
    requires n < |lines| && ParseLine(lines[n], skipFirstCol, parseCell).None?
    ensures LoadRows(Some(lines), skipFirstCol, parseCell) == None
  {
  }

  /** Reading one more line: the rows so far, extended by the row of the
      new line, or nothing when either fails. */
  lemma ReadRowsSnoc(lines: seq<string>, n: nat, parseLine: string -> Option<Row>)
    requires n < |lines|
    ensures var front := ReadRows(lines[..n], parseLine);
      var last := parseLine(lines[n]);
      ReadRows(lines[..n + 1], parseLine)
        == if front.Some? && last.Some? then Some(front.value + [last.value]) else None
  {
    assert lines[..n + 1][..n] == lines[..n];
    assert lines[..n + 1][n] == lines[n];
  }

  /** Once every field has been read, the cells read are the line's fields
      and the line parses as they do. */
  lemma LineFromCells(line: string, pos: nat, cells: seq<string>, skipFirstCol: bool,
                      parseCell: string -> Option<real>)
    requires pos == |line|
    requires SplitFields(line) == cells + SplitFields(line[pos..])
    ensures ParseLine(line, skipFirstCol, parseCell) == ParseCells(Kept(cells, skipFirstCol), parseCell)
  {
    assert SplitFields(line[pos..]) == [];
    assert cells + [] == cells;
  }

  /** A line whose fields begin with `cells`, where the last of them is kept
      and does not convert, yields no row. */
  lemma KeptCellFails(line: string, cells: seq<string>, skipFirstCol: bool, parseCell: string -> Option<real>)
    requires |cells| > 0 && cells <= SplitFields(line)
    requires !(skipFirstCol && |cells| == 1)
    requires parseCell(cells[|cells| - 1]).None?
    ensures ParseLine(line, skipFirstCol, parseCell).None?
  {
    var fields := SplitFields(line);
    assert fields[|cells| - 1] == cells[|cells| - 1];
  }

  // ---------------------------------------------------------------------------
  // Properties
  // ---------------------------------------------------------------------------

  /** No field holds a comma: getline stops at every one of them. */
  lemma {:induction false} FieldsHoldNoComma(line: string)
    ensures forall i :: 0 <= i < |SplitFields(line)| ==> ',' !in SplitFields(line)[i]
    decreases |line|
  {
    if |line| > 0 {
      var k := CommaFrom(line, 0);
      assert forall j :: 0 <= j < k ==> line[..k][j] == line[j];
      if k < |line| {
        FieldsHoldNoComma(line[k + 1..]);
      }
    }
  }

  /** The fields joined back with commas give the line, short of a trailing
      comma. */
  lemma {:induction false} JoinSplit(line: string)
    ensures Join(SplitFields(line)) + TrailingComma(line) == line
    decreases |line|
  {
    if |line| > 0 {
      var k := CommaFrom(line, 0);
      SplitUnfold(line);
      if k == |line| {
        assert line[..k] == line;
        assert SplitFields(line) == [line];
        assert line[|line| - 1] != ',';
        assert line + "" == line;
      } else if k + 1 == |line| {
        assert SplitFields(line) == [line[..k]];
        assert TrailingComma(line) == ",";
        assert line == line[..k] + ",";
      } else {
        JoinSplit(line[k + 1..]);
        JoinStep(line, k, SplitFields(line), SplitFields(line[k + 1..]));
      }
    }
  }

  /** The step of JoinSplit: when the text after the first comma joins back
      from its fields, the whole line joins back from its fields. */
  lemma JoinStep(line: string, k: nat, fields: seq<string>, rest: seq<string>)
    requires k + 1 < |line| && line[k] == ','
    requires fields == [line[..k]] + rest
    requires Join(rest) + TrailingComma(line[k + 1..]) == line[k + 1..]
    requires |rest| > 0
    ensures Join(fields) + TrailingComma(line) == line
  {
    assert TrailingComma(line[k + 1..]) == TrailingComma(line);
    JoinCons(line[..k], rest);
    Reassemble(line, k, Join(rest), TrailingComma(line));
  }

  /** The text before a comma, the comma, and text making up the rest of
      the line give the line back. */
  lemma Reassemble(line: string, k: nat, joined: string, tail: string)
    requires k + 1 < |line| && line[k] == ','
    requires joined + tail == line[k + 1..]
    ensures line[..k] + "," + joined + tail == line
  {
    CutAt(line, k);
    assert [line[k]] == ",";
    ConcatAssoc(line[..k] + ",", joined, tail);
  }

  /** One step of SplitFields: the first field, then the fields of the text
      after its comma. */
  lemma SplitUnfold(line: string)
    requires |line| > 0
    ensures var k := CommaFrom(line, 0);
      SplitFields(line) == [line[..k]] + (if k == |line| then [] else SplitFields(line[k + 1..]))
  {
  }

  /** A sequence is its part before k, its element at k and its part after
      k. */
  lemma CutAt<T>(s: seq<T>, k: nat)
    requires k < |s|
    ensures s == s[..k] + [s[k]] + s[k + 1..]
  {
  }

  /** Concatenation is associative. */
  lemma ConcatAssoc<T>(a: seq<T>, b: seq<T>, c: seq<T>)
    ensures a + b + c == a + (b + c)
  {
  }

  /** A sequence that agrees with x and then with y, position by position,
      is x + y. */
  lemma ConcatPointwise<T>(x: seq<T>, y: seq<T>, z: seq<T>)
    requires |z| == |x| + |y|
    requires forall i :: 0 <= i < |x| ==> z[i] == x[i]
    requires forall i :: 0 <= i < |y| ==> z[|x| + i] == y[i]
    ensures z == x + y
  {
  }

  /** Join puts a comma after the first field when more follow. */
  lemma JoinCons(head: string, rest: seq<string>)
    requires |rest| > 0
    ensures Join([head] + rest) == head + "," + Join(rest)
  {
    assert ([head] + rest)[1..] == rest;
  }

  /** Two suffixes that agree still agree after dropping the same number of
      characters from both. */
  lemma SuffixLater(x: string, px: nat, y: string, py: nat, qx: nat, qy: nat)
    requires px <= |x| && py <= |y| && x[px..] == y[py..]
    requires px <= qx <= |x| && qy == py + (qx - px)
    ensures qy <= |y| && x[qx..] == y[qy..]
  {
    assert |x[px..]| == |y[py..]|;
    assert x[qx..] == x[px..][qx - px..];
    assert y[qy..] == y[py..][qx - px..];
  }

  /** Where the first comma lies depends only on the text from pos on. */
  lemma {:induction false} CommaFromSame(x: string, px: nat, y: string, py: nat)
    requires px <= |x| && py <= |y| && x[px..] == y[py..]
    ensures CommaFrom(x, px) - px == CommaFrom(y, py) - py
    decreases |x| - px
  {
    assert |x[px..]| == |y[py..]|;
    if px < |x| {
      assert x[px] == x[px..][0] == y[py..][0] == y[py];
      if x[px] != ',' {
        SuffixLater(x, px, y, py, px + 1, py + 1);
        CommaFromSame(x, px + 1, y, py + 1);
      }
    }
  }

  /** The first comma of the text from pos on, counted within that text. */
  lemma CommaFromSuffix(line: string, pos: nat)
    requires pos <= |line|
    ensures CommaFrom(line[pos..], 0) == CommaFrom(line, pos) - pos
  {
    assert line[pos..][0..] == line[pos..];
    CommaFromSame(line[pos..], 0, line, pos);
  }

  /** A comma-free field followed by a comma and more text splits into that
      field followed by the fields of the text. */
  lemma SplitAfterField(field: string, rest: string)
    requires ',' !in field
    ensures SplitFields(field + "," + rest) == [field] + SplitFields(rest)
  {
    var line := field + "," + rest;
    assert line[|field|] == ',';
    assert forall j :: 0 <= j < |field| ==> line[j] == field[j];
    assert CommaFrom(line, 0) == |field|;
    assert line[..|field|] == field;
    assert line[|field| + 1..] == rest;
  }

  /** A comma-free, non-empty line is a single field. */
  lemma SingleField(field: string)
    requires ',' !in field && |field| > 0
    ensures SplitFields(field) == [field]
  {
    assert CommaFrom(field, 0) == |field|;
    assert field[..|field|] == field;
  }

  /** Joining then splitting gives the fields back, provided no field holds
      a comma and the last field is not empty. */
  lemma {:induction false} SplitJoin(fields: seq<string>)
    requires forall i :: 0 <= i < |fields| ==> ',' !in fields[i]
    requires |fields| > 0 ==> |fields[|fields| - 1]| > 0
    ensures SplitFields(Join(fields)) == fields
    decreases |fields|
  {
    if |fields| == 1 {
      SingleField(fields[0]);
    } else if |fields| > 1 {
      SplitJoin(fields[1..]);
      SplitAfterField(fields[0], Join(fields[1..]));
      assert fields == [fields[0]] + fields[1..];
    }
  }

  /** An empty line still gives a row, an empty one, whatever the flag. */
  lemma EmptyLineGivesEmptyRow(skipFirstCol: bool, parseCell: string -> Option<real>)
    ensures ParseLine("", skipFirstCol, parseCell) == Some([])
  {
  }

  /** With `skipFirstCol`, a line holding only a name gives an empty row
      whatever the name says. */
  lemma LabelOnlyGivesEmptyRow(name: string, parseCell: string -> Option<real>)
    requires ',' !in name
    ensures ParseLine(name, true, parseCell) == Some([])
  {
    if |name| > 0 {
      SingleField(name);
    }
  }

  /** With `skipFirstCol`, the first field is extracted but dropped without
      being converted: the line parses exactly as its text after the first
      comma parses without skipping. */
  lemma SkipDropsFirstField(name: string, rest: string, parseCell: string -> Option<real>)
    requires ',' !in name
    ensures ParseLine(name + "," + rest, true, parseCell) == ParseLine(rest, false, parseCell)
  {
    SplitAfterField(name, rest);
    assert (name + "," + rest) != [];
    var fields := SplitFields(name + "," + rest);
    assert fields[1..] == SplitFields(rest);
  }

  /** Without `skipFirstCol`, every field of the line is converted. */
  lemma NoSkipConvertsEveryField(line: string, parseCell: string -> Option<real>)
    ensures ParseLine(line, false, parseCell) == ParseCells(SplitFields(line), parseCell)
  {
    var fields := SplitFields(line);
    assert fields[0..] == fields;
  }

  /** Lines are parsed independently (the skip flag starts afresh on every
      line): the rows of two runs of lines are the rows of each run, one
      after the other, and either run failing makes the whole fail. */
  lemma ReadRowsAppend(a: seq<string>, b: seq<string>, parseLine: string -> Option<Row>)
    ensures var ra := ReadRows(a, parseLine);
      var rb := ReadRows(b, parseLine);
      var rab := ReadRows(a + b, parseLine);
      && (rab.Some? <==> ra.Some? && rb.Some?)
      && (rab.Some? ==> rab.value == ra.value + rb.value)
  {
    var ra := ReadRows(a, parseLine);
    var rb := ReadRows(b, parseLine);
    var rab := ReadRows(a + b, parseLine);
    if !rab.Some? {
      var i :| 0 <= i < |a + b| && parseLine((a + b)[i]).None?;
      if i < |a| {
        assert (a + b)[i] == a[i];
      } else {
        assert (a + b)[i] == b[i - |a|];
      }
    } else {
      forall i | 0 <= i < |a|
        ensures parseLine(a[i]).Some?
      {
        assert (a + b)[i] == a[i];
      }
      forall i | 0 <= i < |b|
        ensures parseLine(b[i]).Some?
      {
        assert (a + b)[|a| + i] == b[i];
      }
      forall i | 0 <= i < |a|
        ensures rab.value[i] == ra.value[i]
      {
        assert (a + b)[i] == a[i];
      }
      forall i | 0 <= i < |b|
        ensures rab.value[|a| + i] == rb.value[i]
      {
        assert (a + b)[|a| + i] == b[i];
      }
      ConcatPointwise(ra.value, rb.value, rab.value);
    }
  }

  /** One cell that does not convert, anywhere after the skipped field of any
      line, leaves the whole call without a result, the rows of the lines
      before it included. */
  lemma BadCellAbortsLoad(lines: seq<string>, i: nat, j: nat, skipFirstCol: bool, parseCell: string -> Option<real>)
    requires i < |lines|
    requires Offset(SplitFields(lines[i]), skipFirstCol) <= j < |SplitFields(lines[i])|
    requires parseCell(SplitFields(lines[i])[j]).None?
    ensures LoadRows(Some(lines), skipFirstCol, parseCell).None?
  {
    assert ParseLine(lines[i], skipFirstCol, parseCell).None?;
  }

  /** On success, cell j of row i is the conversion of field j of line i,
      counting fields after the skipped one. */
  lemma LoadedCell(lines: seq<string>, i: nat, j: nat, skipFirstCol: bool, parseCell: string -> Option<real>)
    requires LoadRows(Some(lines), skipFirstCol, parseCell).Some?
    requires i < |lines|
    ensures var rows := LoadRows(Some(lines), skipFirstCol, parseCell).value;
      var fields := SplitFields(lines[i]);
      var off := Offset(fields, skipFirstCol);
      && |rows[i]| == |fields| - off
      && (j < |rows[i]| ==> rows[i][j] == parseCell(fields[j + off]).value)
  {
  }

  /** A labelled line of two numeric cells gives the row of the two
      numbers when the label column is skipped. */
  lemma TwoCellLine(name: string, c1: string, c2: string, x1: real, x2: real,
                    parseCell: string -> Option<real>)
    requires ',' !in name && ',' !in c1 && ',' !in c2 && |c2| > 0
    requires parseCell(c1) == Some(x1) && parseCell(c2) == Some(x2)
    ensures ParseLine(name + "," + c1 + "," + c2, true, parseCell) == Some([x1, x2])
  {
    ConcatAssoc(name + ",", c1, "," + c2);
    assert name + "," + c1 + "," + c2 == name + "," + (c1 + "," + c2);
    SkipDropsFirstField(name, c1 + "," + c2, parseCell);
    NoSkipConvertsEveryField(c1 + "," + c2, parseCell);
    SplitAfterField(c1, c2);
    SingleField(c2);
    assert [c1] + [c2] == [c1, c2];
    TwoCells(c1, c2, x1, x2, parseCell);
  }

  /** Two convertible cells give the row of their two numbers. */
  lemma TwoCells(c1: string, c2: string, x1: real, x2: real, parseCell: string -> Option<real>)
    requires parseCell(c1) == Some(x1) && parseCell(c2) == Some(x2)
    ensures ParseCells([c1, c2], parseCell) == Some([x1, x2])
  {
    var r := ParseCells([c1, c2], parseCell);
    assert r.Some?;
    assert r.value == [x1, x2];
  }

  /** A file of two lines that both parse loads as their two rows. */
  lemma TwoLineFile(first: string, second: string, r1: Row, r2: Row,
                    skipFirstCol: bool, parseCell: string -> Option<real>)
    requires ParseLine(first, skipFirstCol, parseCell) == Some(r1)
    requires ParseLine(second, skipFirstCol, parseCell) == Some(r2)
    ensures LoadRows(Some([first, second]), skipFirstCol, parseCell) == Some([r1, r2])
  {
    var r := LoadRows(Some([first, second]), skipFirstCol, parseCell);
    assert r.Some?;
    assert r.value == [r1, r2];
  }

  /** The two-line file "label1,1.0,2.0" / "label2,3.0,4.0" read with the
      label column skipped gives the rows [1.0, 2.0] and [3.0, 4.0]. */
  lemma LabelledExample(parseCell: string -> Option<real>)
    requires parseCell("1.0") == Some(1.0) && parseCell("2.0") == Some(2.0)
    requires parseCell("3.0") == Some(3.0) && parseCell("4.0") == Some(4.0)
    ensures LoadRows(Some(["label1,1.0,2.0", "label2,3.0,4.0"]), true, parseCell)
         == Some([[1.0, 2.0], [3.0, 4.0]])
  {
    assert "label1,1.0,2.0" == "label1" + "," + "1.0" + "," + "2.0";
    TwoCellLine("label1", "1.0", "2.0", 1.0, 2.0, parseCell);
    assert "label2,3.0,4.0" == "label2" + "," + "3.0" + "," + "4.0";
    TwoCellLine("label2", "3.0", "4.0", 3.0, 4.0, parseCell);
    TwoLineFile("label1,1.0,2.0", "label2,3.0,4.0", [1.0, 2.0], [3.0, 4.0], true, parseCell);
  }
}

/** Pipe-table repair: `process_table_block`, which gives a block of table
    lines a header-separator row when it has none, and
    `enhance_table_markdown`, which finds the maximal runs of table lines in a
    page and repairs each one. */
module Tables {
  import opened Text

  /** A line that, once stripped, starts and ends with a pipe. */
  predicate IsTableLine(line: string) {
    var s := Strip(line);
    |s| > 0 && s[0] == '|' && s[|s| - 1] == '|'
  }

  /** The character class `[\s\-:|]`. */
  predicate InSeparatorClass(c: char) {
    IsSpace(c) || c == '-' || c == ':' || c == '|'
  }

  /** A full match of `^\|[\s\-:|]+\|$`: a pipe, at least one class
      character, a pipe. */
  predicate IsSeparatorShape(s: string) {
    && |s| >= 3
    && s[0] == '|' && s[|s| - 1] == '|'
    && forall i :: 1 <= i < |s| - 1 ==> InSeparatorClass(s[i])
  }

  /** A header-separator row such as `| --- | :---: |`. */
  predicate IsSeparatorRow(line: string) {
    IsSeparatorShape(Strip(line))
  }

  predicate HasSeparator(block: seq<string>) {
    exists i :: 0 <= i < |block| && IsSeparatorRow(block[i])
  }

  /** The column count read off a row: its number of pipes minus one. */
  function ColumnCount(row: string): int {
    CountChar(row, '|') - 1
  }

  /** The `---` cells of a synthesised separator row, joined by `" | "`. */
  function SeparatorCells(columns: nat): string {
    Join(Repeat("---", columns), " | ")
  }

  /** The separator row synthesised for a table of `columns` columns. */
  function SeparatorRow(columns: nat): string {
    "| " + SeparatorCells(columns) + " |"
  }

  /** `process_table_block`: a block of fewer than two lines, or one that
      already holds a separator row anywhere, or whose first line has no
      positive column count, is returned as it is; otherwise a separator row
      with the first line's column count is inserted at index 1, and every
      original line keeps its place around it. */
  function ProcessTableBlock(block: seq<string>): (r: seq<string>)
    ensures r == block <==> (|block| < 2 || HasSeparator(block) || ColumnCount(block[0]) <= 0)
    ensures r != block ==> |r| == |block| + 1 && r[0] == block[0] && r[2..] == block[1..]
  {
    if |block| < 2 then block
    else if HasSeparator(block) then block
    else
      var columns := ColumnCount(block[0]);
      if columns > 0 then [block[0], SeparatorRow(columns)] + block[1..]
      else block
  }

  lemma {:induction false} SeparatorCellsFacts(columns: nat)
    requires columns >= 1
    ensures |SeparatorCells(columns)| >= 3
    ensures forall i :: 0 <= i < |SeparatorCells(columns)| ==> InSeparatorClass(SeparatorCells(columns)[i])
    ensures CountChar(SeparatorCells(columns), '|') == columns - 1
    decreases columns
  {
    var cells := Repeat("---", columns);
    if columns == 1 {
      assert SeparatorCells(columns) == "---";
    } else {
      assert cells[1..] == Repeat("---", columns - 1);
      SeparatorCellsFacts(columns - 1);
      var tail := SeparatorCells(columns - 1);
      assert SeparatorCells(columns) == "--- | " + tail;
      CountCharAppend("--- | ", tail, '|');
      var s := "--- | " + tail;
      forall i | 0 <= i < |s| ensures InSeparatorClass(s[i]) {
        if i >= 6 { assert s[i] == tail[i - 6]; }
      }
    }
  }

  /** The synthesised row is itself a table line and a separator row, and it
      has exactly `columns` columns. */
  lemma SeparatorRowFacts(columns: nat)
    requires columns >= 1
    ensures IsSeparatorRow(SeparatorRow(columns))
    ensures IsTableLine(SeparatorRow(columns))
    ensures ColumnCount(SeparatorRow(columns)) == columns
  {
    var cells := SeparatorCells(columns);
    var row := SeparatorRow(columns);
    SeparatorCellsFacts(columns);
    assert Strip(row) == row;
    forall i | 1 <= i < |row| - 1 ensures InSeparatorClass(row[i]) {
      if 2 <= i < 2 + |cells| { assert row[i] == cells[i - 2]; }
    }
    CountCharAppend("| ", cells, '|');
    CountCharAppend("| " + cells, " |", '|');
  }

  /** A repaired block keeps its first line, gains a separator row at index 1
      with as many columns as the first line, and keeps every other line in
      order; after repair a block of at least two lines with a positive
      column count always holds a separator row. */
  lemma RepairInsertsSeparator(block: seq<string>)
    requires ProcessTableBlock(block) != block
    ensures var r := ProcessTableBlock(block);
      && |r| == |block| + 1
      && r[0] == block[0]
      && IsSeparatorRow(r[1])
      && ColumnCount(r[1]) == ColumnCount(block[0])
      && r[2..] == block[1..]
      && r[..1] + r[2..] == block
      && HasSeparator(r)
  {
    var c := ColumnCount(block[0]);
    RepairShape(block);
    SeparatorRowFacts(c);
    var r := [block[0], SeparatorRow(c)] + block[1..];
    assert r[1] == SeparatorRow(c) && r[2..] == block[1..];
    assert r[..1] + r[2..] == block;
  }

  /** A changed block is its first line, the synthesised row, and the rest. */
  lemma RepairShape(block: seq<string>)
    requires ProcessTableBlock(block) != block
    ensures |block| >= 2 && ColumnCount(block[0]) >= 1
    ensures ProcessTableBlock(block) == [block[0], SeparatorRow(ColumnCount(block[0]))] + block[1..]
  {
  }

  /** Repairing a block twice is the same as repairing it once. */
  lemma {:induction false} ProcessTableBlockIdempotent(block: seq<string>)
    ensures ProcessTableBlock(ProcessTableBlock(block)) == ProcessTableBlock(block)
  {
    if ProcessTableBlock(block) != block {
      RepairInsertsSeparator(block);
    }
  }

  /** Repair keeps a block made only of table lines made only of table lines. */
  lemma RepairKeepsTableLines(block: seq<string>)
    requires forall i :: 0 <= i < |block| ==> IsTableLine(block[i])
    ensures forall i :: 0 <= i < |ProcessTableBlock(block)| ==> IsTableLine(ProcessTableBlock(block)[i])
  {
    if ProcessTableBlock(block) != block {
      var c := ColumnCount(block[0]);
      SeparatorRowFacts(c);
      AllTableLines(block[0], SeparatorRow(c), block[1..]);
    }
  }

  lemma AllTableLines(first: string, second: string, rest: seq<string>)
    requires IsTableLine(first) && IsTableLine(second)
    requires forall i :: 0 <= i < |rest| ==> IsTableLine(rest[i])
    ensures forall i :: 0 <= i < |[first, second] + rest| ==> IsTableLine(([first, second] + rest)[i])
  {
  }

  /** A line whose stripped form has a character outside `[\s\-:|]` between
      its first and last characters is not a separator row. */
  lemma NotSeparatorRow(line: string, k: nat)
    requires 0 < k < |line| - 1
    requires !IsSpace(line[0]) && !IsSpace(line[|line| - 1])
    requires !InSeparatorClass(line[k])
    ensures !IsSeparatorRow(line)
  {
    assert Strip(line) == line;
  }

  /** A two-column table of three rows without a separator gets
      `| --- | --- |` inserted at index 1. */
  lemma RepairExample()
    ensures ProcessTableBlock(["| A | B |", "| 1 | 2 |", "| 3 | 4 |"])
         == ["| A | B |", "| --- | --- |", "| 1 | 2 |", "| 3 | 4 |"]
  {
    ExampleHasNoSeparator();
    ExampleColumns();
    ExampleSeparatorRow();
  }

  lemma ExampleHasNoSeparator()
    ensures !HasSeparator(["| A | B |", "| 1 | 2 |", "| 3 | 4 |"])
  {
    TwoCellRowNotSeparator('A', 'B');
    TwoCellRowNotSeparator('1', '2');
    TwoCellRowNotSeparator('3', '4');
    NoSeparatorAmongThree("| A | B |", "| 1 | 2 |", "| 3 | 4 |");
  }

  /** A row `| x | y |` whose first cell is a character outside `[\s\-:|]`
      is not a separator row. */
  lemma TwoCellRowNotSeparator(x: char, y: char)
    requires !InSeparatorClass(x)
    ensures !IsSeparatorRow(['|', ' ', x, ' ', '|', ' ', y, ' ', '|'])
  {
    NotSeparatorRow(['|', ' ', x, ' ', '|', ' ', y, ' ', '|'], 2);
  }

  lemma NoSeparatorAmongThree(a: string, b: string, c: string)
    requires !IsSeparatorRow(a) && !IsSeparatorRow(b) && !IsSeparatorRow(c)
    ensures !HasSeparator([a, b, c])
  {
  }

  lemma ExampleColumns()
    ensures ColumnCount("| A | B |") == 2
  {
    CountCharAppend("| A ", "| B |", '|');
  }

  lemma ExampleSeparatorRow()
    ensures SeparatorRow(2) == "| --- | --- |"
  {
    assert Repeat("---", 2) == ["---", "---"];
  }

  // ---------------------------------------------------------------------
  // The page scanner

  /** One piece of a page: a non-table line, or a run of table lines. */
  datatype Chunk = Prose(line: string) | Table(rows: seq<string>)

  function ChunkLines(c: Chunk): seq<string> {
    match c
    case Prose(line) => [line]
    case Table(rows) => rows
  }

  function Flatten(cs: seq<Chunk>): seq<string> {
    if |cs| == 0 then [] else Flatten(cs[..|cs| - 1]) + ChunkLines(cs[|cs| - 1])
  }

  /** `cs` cuts `lines` into the maximal runs of lines that `isTable` accepts
      and the single lines it rejects between them. */
  ghost predicate IsRunPartition(cs: seq<Chunk>, lines: seq<string>, isTable: string -> bool) {
    && Flatten(cs) == lines
    && (forall i :: 0 <= i < |cs| && cs[i].Prose? ==> !isTable(cs[i].line))
    && (forall i :: 0 <= i < |cs| && cs[i].Table? ==>
          |cs[i].rows| > 0 && forall j :: 0 <= j < |cs[i].rows| ==> isTable(cs[i].rows[j]))
    && (forall i :: 0 <= i < |cs| - 1 ==> !(cs[i].Table? && cs[i + 1].Table?))
  }

  /** The run partition of `lines`, built one line at a time. */
  function Chunks(lines: seq<string>, isTable: string -> bool): (r: seq<Chunk>)
    decreases |lines|
  {
    if |lines| == 0 then []
    else
      var prev := Chunks(lines[..|lines| - 1], isTable);
      var line := lines[|lines| - 1];
      if !isTable(line) then prev + [Prose(line)]
      else if |prev| > 0 && prev[|prev| - 1].Table? then
        prev[..|prev| - 1] + [Table(prev[|prev| - 1].rows + [line])]
      else prev + [Table([line])]
  }

  /** The output lines: each table run replaced by its `repair`ed block,
      each other line kept, and one blank line between a table run and the
      line that follows it. */
  function Render(cs: seq<Chunk>, repair: seq<string> -> seq<string>): (r: seq<string>) {
    if |cs| == 0 then []
    else
      var prev := cs[..|cs| - 1];
      var last := cs[|cs| - 1];
      if last.Table? then Render(prev, repair) + repair(last.rows)
      else Render(prev, repair) + (if |prev| > 0 && prev[|prev| - 1].Table? then ["", last.line] else [last.line])
  }

  /** The lines `enhance_table_markdown` produces from the lines of a page. */
  function NormalizeLines(lines: seq<string>): seq<string> {
    Render(Chunks(lines, IsTableLine), ProcessTableBlock)
  }

  /** What `enhance_table_markdown` returns for a page. A page with no
      table line comes back byte for byte. */
  function NormalizeText(text: string): (r: string)
    ensures (forall i :: 0 <= i < |Split(text)| ==> !IsTableLine(Split(text)[i])) ==> r == text
  {
    var lines := Split(text);
    if forall i :: 0 <= i < |lines| ==> !IsTableLine(lines[i]) then
      NoRunsAllProse(lines, IsTableLine, ProcessTableBlock);
      JoinSplit(text);
      Join(NormalizeLines(lines), "\n")
    else
      Join(NormalizeLines(lines), "\n")
  }

  lemma FlattenSnoc(cs: seq<Chunk>, c: Chunk)
    ensures Flatten(cs + [c]) == Flatten(cs) + ChunkLines(c)
  {
    assert (cs + [c])[..|cs|] == cs;
  }

  lemma ChunksSnoc(lines: seq<string>, line: string, isTable: string -> bool)
    ensures var prev := Chunks(lines, isTable);
      Chunks(lines + [line], isTable) ==
        if !isTable(line) then prev + [Prose(line)]
        else if |prev| > 0 && prev[|prev| - 1].Table? then
          prev[..|prev| - 1] + [Table(prev[|prev| - 1].rows + [line])]
        else prev + [Table([line])]
  {
    assert (lines + [line])[..|lines|] == lines;
  }

  lemma RenderSnoc(cs: seq<Chunk>, c: Chunk, repair: seq<string> -> seq<string>)
    ensures Render(cs + [c], repair) ==
      if c.Table? then Render(cs, repair) + repair(c.rows)
      else Render(cs, repair) + (if |cs| > 0 && cs[|cs| - 1].Table? then ["", c.line] else [c.line])
  {
    assert (cs + [c])[..|cs|] == cs;
  }

  lemma PartitionAddProse(cs: seq<Chunk>, lines: seq<string>, line: string, isTable: string -> bool)
    requires IsRunPartition(cs, lines, isTable) && !isTable(line)
    ensures IsRunPartition(cs + [Prose(line)], lines + [line], isTable)
  {
    FlattenSnoc(cs, Prose(line));
  }

  lemma PartitionAddTable(cs: seq<Chunk>, lines: seq<string>, line: string, isTable: string -> bool)
    requires IsRunPartition(cs, lines, isTable) && isTable(line)
    requires |cs| == 0 || cs[|cs| - 1].Prose?
    ensures IsRunPartition(cs + [Table([line])], lines + [line], isTable)
  {
    FlattenSnoc(cs, Table([line]));
  }

  lemma PartitionExtendTable(cs: seq<Chunk>, lines: seq<string>, line: string, isTable: string -> bool)
    requires IsRunPartition(cs, lines, isTable) && isTable(line)
    requires |cs| > 0 && cs[|cs| - 1].Table?
    ensures var n := |cs|;
      IsRunPartition(cs[..n - 1] + [Table(cs[n - 1].rows + [line])], lines + [line], isTable)
  {
    var n := |cs|;
    var rows := cs[n - 1].rows;
    var cs' := cs[..n - 1] + [Table(rows + [line])];
    FlattenSnoc(cs[..n - 1], Table(rows + [line]));
    assert Flatten(cs) == Flatten(cs[..n - 1]) + rows;
    assert Flatten(cs') == lines + [line];
    forall i | 0 <= i < |cs'| && cs'[i].Table?
      ensures |cs'[i].rows| > 0 && forall j :: 0 <= j < |cs'[i].rows| ==> isTable(cs'[i].rows[j])
    {
      if i < n - 1 { assert cs'[i] == cs[i]; }
    }
    forall i | 0 <= i < |cs'| && cs'[i].Prose? ensures !isTable(cs'[i].line) {
      assert cs'[i] == cs[i];
    }
    forall i | 0 <= i < |cs'| - 1 ensures !(cs'[i].Table? && cs'[i + 1].Table?) {
      assert cs'[i] == cs[i];
      if i + 1 < n - 1 { assert cs'[i + 1] == cs[i + 1]; }
    }
  }

  /** `Chunks` is a run partition of its input. */
  lemma {:induction false} ChunksArePartition(lines: seq<string>, isTable: string -> bool)
    ensures IsRunPartition(Chunks(lines, isTable), lines, isTable)
    decreases |lines|
  {
    if |lines| > 0 {
      var init := lines[..|lines| - 1];
      var line := lines[|lines| - 1];
      var prev := Chunks(init, isTable);
      ChunksArePartition(init, isTable);
      assert lines == init + [line];
      if !isTable(line) {
        PartitionAddProse(prev, init, line, isTable);
      } else if |prev| > 0 && prev[|prev| - 1].Table? {
        PartitionExtendTable(prev, init, line, isTable);
      } else {
        PartitionAddTable(prev, init, line, isTable);
      }
    }
  }

  /** Dropping the last chunk of a run partition leaves a run partition. */
  lemma PartitionInit(cs: seq<Chunk>, lines: seq<string>, isTable: string -> bool)
    requires IsRunPartition(cs, lines, isTable) && |cs| > 0
    ensures IsRunPartition(cs[..|cs| - 1], Flatten(cs[..|cs| - 1]), isTable)
  {
  }

  /** Dropping the last line of a run of two or more leaves a run partition. */
  lemma PartitionShrinkTable(cs: seq<Chunk>, lines: seq<string>, isTable: string -> bool)
    requires IsRunPartition(cs, lines, isTable) && |cs| > 0
    requires cs[|cs| - 1].Table? && |cs[|cs| - 1].rows| > 1
    ensures var n := |cs|;
      var rows := cs[n - 1].rows;
      var shorter := cs[..n - 1] + [Table(rows[..|rows| - 1])];
      && IsRunPartition(shorter, Flatten(shorter), isTable)
      && lines == Flatten(shorter) + [rows[|rows| - 1]]
  {
    var n := |cs|;
    var init := cs[..n - 1];
    var rows := cs[n - 1].rows;
    var k := |rows|;
    var front := rows[..k - 1];
    var shorter := init + [Table(front)];
    assert cs == init + [Table(rows)];
    FlattenSnoc(init, Table(rows));
    FlattenSnoc(init, Table(front));
    assert rows == front + [rows[k - 1]];
    forall i | 0 <= i < |shorter| && shorter[i].Table?
      ensures |shorter[i].rows| > 0 && forall j :: 0 <= j < |shorter[i].rows| ==> isTable(shorter[i].rows[j])
    {
      if i < n - 1 { assert shorter[i] == cs[i]; }
      else {
        forall j | 0 <= j < |front| ensures isTable(front[j]) {
          assert front[j] == rows[j];
        }
      }
    }
    forall i | 0 <= i < |shorter| && shorter[i].Prose? ensures !isTable(shorter[i].line) {
      assert shorter[i] == cs[i];
    }
    forall i | 0 <= i < |shorter| - 1 ensures !(shorter[i].Table? && shorter[i + 1].Table?) {
      assert shorter[i] == cs[i];
      assert shorter[i + 1].Table? == cs[i + 1].Table?;
    }
  }

  /** A run partition is unique: any run partition of `lines` is `Chunks(lines)`. */
  lemma {:induction false} RunPartitionUnique(cs: seq<Chunk>, lines: seq<string>, isTable: string -> bool)
    requires IsRunPartition(cs, lines, isTable)
    ensures cs == Chunks(lines, isTable)
    decreases |lines|, 1
  {
    if |cs| == 0 {
    } else if cs[|cs| - 1].Prose? || |cs[|cs| - 1].rows| == 1 {
      UniqueEndingInOneLine(cs, lines, isTable);
    } else {
      UniqueEndingInLongRun(cs, lines, isTable);
    }
  }

  lemma {:induction false} UniqueEndingInOneLine(cs: seq<Chunk>, lines: seq<string>, isTable: string -> bool)
    requires IsRunPartition(cs, lines, isTable) && |cs| > 0
    requires cs[|cs| - 1].Prose? || |cs[|cs| - 1].rows| == 1
    ensures cs == Chunks(lines, isTable)
    decreases |lines|, 0
  {
    var n := |cs|;
    var init := cs[..n - 1];
    var last := cs[n - 1];
    assert cs == init + [last];
    FlattenSnoc(init, last);
    var l := if last.Prose? then last.line else last.rows[0];
    assert lines == Flatten(init) + [l];
    PartitionInit(cs, lines, isTable);
    RunPartitionUnique(init, Flatten(init), isTable);
    ChunksSnoc(Flatten(init), l, isTable);
  }

  lemma {:induction false} UniqueEndingInLongRun(cs: seq<Chunk>, lines: seq<string>, isTable: string -> bool)
    requires IsRunPartition(cs, lines, isTable) && |cs| > 0
    requires cs[|cs| - 1].Table? && |cs[|cs| - 1].rows| > 1
    ensures cs == Chunks(lines, isTable)
    decreases |lines|, 0
  {
    var n := |cs|;
    var rows := cs[n - 1].rows;
    var l := rows[|rows| - 1];
    var shorter := cs[..n - 1] + [Table(rows[..|rows| - 1])];
    assert isTable(l);
    PartitionShrinkTable(cs, lines, isTable);
    RunPartitionUnique(shorter, Flatten(shorter), isTable);
    ExtendLastRun(cs[..n - 1], rows[..|rows| - 1], l, lines, isTable);
    SplitLastRow(cs);
  }

  lemma SplitLastRow(cs: seq<Chunk>)
    requires |cs| > 0 && cs[|cs| - 1].Table? && |cs[|cs| - 1].rows| > 0
    ensures var rows := cs[|cs| - 1].rows;
      cs == cs[..|cs| - 1] + [Table(rows[..|rows| - 1] + [rows[|rows| - 1]])]
  {
    var rows := cs[|cs| - 1].rows;
    assert rows[..|rows| - 1] + [rows[|rows| - 1]] == rows;
  }

  lemma ExtendLastRun(init: seq<Chunk>, front: seq<string>, l: string, lines: seq<string>, isTable: string -> bool)
    requires init + [Table(front)] == Chunks(Flatten(init + [Table(front)]), isTable)
    requires lines == Flatten(init + [Table(front)]) + [l] && isTable(l)
    ensures init + [Table(front + [l])] == Chunks(lines, isTable)
  {
    var shorter := init + [Table(front)];
    ChunksSnoc(Flatten(shorter), l, isTable);
    assert shorter[..|init|] == init;
  }

  lemma PrefixSnoc<T>(s: seq<T>, i: int)
    requires 0 <= i < |s|
    ensures s[..i + 1] == s[..i] + [s[i]]
  {
  }

  /** What the scanner knows after reading `prefix`: the lines emitted so far
      are the output for the prefix, except that a table run still being
      collected sits in `tableLines` and has not been emitted yet. */
  ghost predicate ScanState(prefix: seq<string>, inTable: bool, tableLines: seq<string>, out: seq<string>,
                            isTable: string -> bool, repair: seq<string> -> seq<string>)
  {
    var cs := Chunks(prefix, isTable);
    && (inTable <==> |tableLines| > 0)
    && if inTable then
         |cs| > 0 && cs[|cs| - 1] == Table(tableLines) && out == Render(cs[..|cs| - 1], repair)
       else
         out == Render(cs, repair) && (|cs| == 0 || cs[|cs| - 1].Prose?)
  }

  lemma ScanTableLine(prefix: seq<string>, inTable: bool, tableLines: seq<string>, out: seq<string>,
                      line: string, isTable: string -> bool, repair: seq<string> -> seq<string>)
    requires ScanState(prefix, inTable, tableLines, out, isTable, repair) && isTable(line)
    ensures ScanState(prefix + [line], true, (if inTable then tableLines else []) + [line], out, isTable, repair)
  {
    ChunksSnoc(prefix, line, isTable);
    var cs := Chunks(prefix, isTable);
    if inTable {
      assert cs == cs[..|cs| - 1] + [cs[|cs| - 1]];
    }
  }

  lemma ScanOtherLine(prefix: seq<string>, inTable: bool, tableLines: seq<string>, out: seq<string>,
                      line: string, isTable: string -> bool, repair: seq<string> -> seq<string>)
    requires ScanState(prefix, inTable, tableLines, out, isTable, repair) && !isTable(line)
    ensures ScanState(prefix + [line], false, [],
                      out + (if inTable then repair(tableLines) + [""] else []) + [line], isTable, repair)
  {
    ChunksSnoc(prefix, line, isTable);
    var cs := Chunks(prefix, isTable);
    RenderSnoc(cs, Prose(line), repair);
    if inTable {
      RenderSnoc(cs[..|cs| - 1], Table(tableLines), repair);
      assert cs == cs[..|cs| - 1] + [Table(tableLines)];
    }
  }

  lemma ScanEnd(lines: seq<string>, inTable: bool, tableLines: seq<string>, out: seq<string>,
                isTable: string -> bool, repair: seq<string> -> seq<string>)
    requires ScanState(lines, inTable, tableLines, out, isTable, repair)
    ensures (if inTable then out + repair(tableLines) else out) == Render(Chunks(lines, isTable), repair)
  {
    if inTable {
      var cs := Chunks(lines, isTable);
      RenderSnoc(cs[..|cs| - 1], Table(tableLines), repair);
      assert cs == cs[..|cs| - 1] + [Table(tableLines)];
    }
  }

  /** The loop of `enhance_table_markdown`, written over the line test and the
      block repair it uses: one pass with an `in_table` flag that collects
      table lines and flushes the collected block through `repair` when a
      non-table line (then with a blank line before it) or the end of the
      input is reached. */
  method ScanRuns(lines: seq<string>, isTable: string -> bool, repair: seq<string> -> seq<string>)
    returns (out: seq<string>)
    ensures out == Render(Chunks(lines, isTable), repair)
  {
    out := [];
    var inTable := false;
    var tableLines: seq<string> := [];
    var i := 0;
    while i < |lines|
      invariant 0 <= i <= |lines|
      invariant ScanState(lines[..i], inTable, tableLines, out, isTable, repair)
    {
      var line := lines[i];
      PrefixSnoc(lines, i);
      if isTable(line) {
        // a table line opens a run or extends the open one
        ScanTableLine(lines[..i], inTable, tableLines, out, line, isTable, repair);
        tableLines := (if inTable then tableLines else []) + [line];
        inTable := true;
      } else {
        // any other line first flushes the open run, repaired and followed
        // by a blank line, then is kept
        ScanOtherLine(lines[..i], inTable, tableLines, out, line, isTable, repair);
        out := out + (if inTable then repair(tableLines) + [""] else []) + [line];
        inTable := false;
        tableLines := [];
      }
      i := i + 1;
    }
    assert lines[..|lines|] == lines;
    ScanEnd(lines, inTable, tableLines, out, isTable, repair);
    if inTable && |tableLines| > 0 {
      out := out + repair(tableLines);
    }
  }

  /** `enhance_table_markdown` on the lines of a page. */
  method EnhanceLines(lines: seq<string>) returns (out: seq<string>)
    ensures out == NormalizeLines(lines)
  {
    out := ScanRuns(lines, IsTableLine, ProcessTableBlock);
  }

  // ---------------------------------------------------------------------
  // Properties of the normaliser

  /** The chunk a line ends up in is a run exactly when the line is a table line. */
  lemma LastChunkKind(lines: seq<string>, isTable: string -> bool)
    requires |lines| > 0
    ensures var cs := Chunks(lines, isTable);
      |cs| > 0 && (cs[|cs| - 1].Table? <==> isTable(lines[|lines| - 1]))
  {
  }

  /** A non-table line after another non-table line (or at the start) is
      emitted as it is. */
  lemma {:induction false} ProseAfterProseGeneric(lines: seq<string>, k: nat, isTable: string -> bool,
                                                  repair: seq<string> -> seq<string>)
    requires k < |lines| && !isTable(lines[k]) && (k == 0 || !isTable(lines[k - 1]))
    ensures Render(Chunks(lines[..k + 1], isTable), repair)
         == Render(Chunks(lines[..k], isTable), repair) + [lines[k]]
  {
    PrefixSnoc(lines, k);
    ChunksSnoc(lines[..k], lines[k], isTable);
    RenderSnoc(Chunks(lines[..k], isTable), Prose(lines[k]), repair);
    if k > 0 {
      LastChunkKind(lines[..k], isTable);
    }
  }

  /** A non-table line right after a table run is emitted after one blank line. */
  lemma {:induction false} BlankAfterRunGeneric(lines: seq<string>, k: nat, isTable: string -> bool,
                                               repair: seq<string> -> seq<string>)
    requires 0 < k < |lines| && !isTable(lines[k]) && isTable(lines[k - 1])
    ensures Render(Chunks(lines[..k + 1], isTable), repair)
         == Render(Chunks(lines[..k], isTable), repair) + ["", lines[k]]
  {
    PrefixSnoc(lines, k);
    ChunksSnoc(lines[..k], lines[k], isTable);
    RenderSnoc(Chunks(lines[..k], isTable), Prose(lines[k]), repair);
    LastChunkKind(lines[..k], isTable);
  }

  /** Each non-table line that follows a non-table line (or starts the page)
      is copied to the output unchanged, with nothing inserted before it. */
  lemma ProseAfterProse(lines: seq<string>, k: nat)
    requires k < |lines| && !IsTableLine(lines[k]) && (k == 0 || !IsTableLine(lines[k - 1]))
    ensures NormalizeLines(lines[..k + 1]) == NormalizeLines(lines[..k]) + [lines[k]]
  {
    ProseAfterProseGeneric(lines, k, IsTableLine, ProcessTableBlock);
  }

  /** Exactly one blank line is inserted between a table run and the
      non-table line that follows it. */
  lemma BlankAfterRun(lines: seq<string>, k: nat)
    requires 0 < k < |lines| && !IsTableLine(lines[k]) && IsTableLine(lines[k - 1])
    ensures NormalizeLines(lines[..k + 1]) == NormalizeLines(lines[..k]) + ["", lines[k]]
  {
    BlankAfterRunGeneric(lines, k, IsTableLine, ProcessTableBlock);
  }

  /** A page that ends inside a table run ends with the repaired run: the
      output is the normalised text before the run followed by the repaired
      run, with no blank line after it. */
  lemma TrailingRunNoBlank(lines: seq<string>)
    requires |lines| > 0 && IsTableLine(lines[|lines| - 1])
    ensures var cs := Chunks(lines, IsTableLine);
      && |cs| > 0 && cs[|cs| - 1].Table?
      && NormalizeLines(lines) == Render(cs[..|cs| - 1], ProcessTableBlock) + ProcessTableBlock(cs[|cs| - 1].rows)
      && |NormalizeLines(lines)| > 0
      && IsTableLine(NormalizeLines(lines)[|NormalizeLines(lines)| - 1])
  {
    var cs, rows := TrailingRunGeneric(lines, IsTableLine, ProcessTableBlock);
    RepairKeepsTableLines(rows);
    RepairedRunEnd(Render(cs[..|cs| - 1], ProcessTableBlock), rows);
  }

  lemma {:induction false} TrailingRunGeneric(lines: seq<string>, isTable: string -> bool,
                                             repair: seq<string> -> seq<string>)
    returns (cs: seq<Chunk>, rows: seq<string>)
    requires |lines| > 0 && isTable(lines[|lines| - 1])
    ensures cs == Chunks(lines, isTable) && |cs| > 0 && cs[|cs| - 1] == Table(rows)
    ensures |rows| > 0 && forall j :: 0 <= j < |rows| ==> isTable(rows[j])
    ensures Render(cs, repair) == Render(cs[..|cs| - 1], repair) + repair(rows)
  {
    cs := Chunks(lines, isTable);
    LastChunkKind(lines, isTable);
    ChunksArePartition(lines, isTable);
    rows := cs[|cs| - 1].rows;
    RenderSnoc(cs[..|cs| - 1], Table(rows), repair);
    assert cs == cs[..|cs| - 1] + [Table(rows)];
  }

  /** Output that ends with a repaired non-empty run of table lines ends with
      a table line. */
  lemma RepairedRunEnd(front: seq<string>, rows: seq<string>)
    requires |rows| > 0
    requires forall i :: 0 <= i < |ProcessTableBlock(rows)| ==> IsTableLine(ProcessTableBlock(rows)[i])
    ensures var out := front + ProcessTableBlock(rows);
      |out| > 0 && IsTableLine(out[|out| - 1])
  {
    var r := ProcessTableBlock(rows);
    assert |r| >= |rows|;
    assert (front + r)[|front + r| - 1] == r[|r| - 1];
  }

  /** The lines that are neither table lines nor blank, in order. */
  function ProseOf(lines: seq<string>): seq<string> {
    if |lines| == 0 then []
    else (if !IsTableLine(lines[0]) && lines[0] != "" then [lines[0]] else []) + ProseOf(lines[1..])
  }

  lemma {:induction false} ProseOfAppend(a: seq<string>, b: seq<string>)
    ensures ProseOf(a + b) == ProseOf(a) + ProseOf(b)
    decreases |a|
  {
    if |a| == 0 {
      assert a + b == b;
    } else {
      assert (a + b)[1..] == a[1..] + b;
      ProseOfAppend(a[1..], b);
    }
  }

  lemma {:induction false} ProseOfTableLines(rows: seq<string>)
    requires forall j :: 0 <= j < |rows| ==> IsTableLine(rows[j])
    ensures ProseOf(rows) == []
    decreases |rows|
  {
    if |rows| > 0 {
      ProseOfTableLines(rows[1..]);
    }
  }

  lemma ProseOfPiece(cs: seq<Chunk>, c: Chunk)
    requires c.Table? ==> forall j :: 0 <= j < |c.rows| ==> IsTableLine(c.rows[j])
    ensures ProseOf(Render(cs + [c], ProcessTableBlock))
         == ProseOf(Render(cs, ProcessTableBlock)) + ProseOf(ChunkLines(c))
  {
    RenderSnoc(cs, c, ProcessTableBlock);
    if c.Table? {
      RepairKeepsTableLines(c.rows);
      ProseOfTableLines(c.rows);
      ProseOfTableLines(ProcessTableBlock(c.rows));
      ProseOfAppend(Render(cs, ProcessTableBlock), ProcessTableBlock(c.rows));
    } else {
      var piece := if |cs| > 0 && cs[|cs| - 1].Table? then ["", c.line] else [c.line];
      ProseOfAppend(Render(cs, ProcessTableBlock), piece);
      assert ProseOf(piece) == ProseOf([c.line]) by {
        if |piece| == 2 { assert piece[1..] == [c.line]; }
      }
    }
  }

  lemma {:induction false} RenderKeepsProse(cs: seq<Chunk>, lines: seq<string>)
    requires IsRunPartition(cs, lines, IsTableLine)
    ensures ProseOf(Render(cs, ProcessTableBlock)) == ProseOf(lines)
    decreases |cs|
  {
    if |cs| > 0 {
      var init := cs[..|cs| - 1];
      var last := cs[|cs| - 1];
      PartitionInit(cs, lines, IsTableLine);
      RenderKeepsProse(init, Flatten(init));
      assert cs == init + [last];
      ProseOfPiece(init, last);
      FlattenSnoc(init, last);
      ProseOfAppend(Flatten(init), ChunkLines(last));
    }
  }

  /** Normalising keeps every line that is neither a table line nor blank,
      verbatim and in the original order, and adds no such line. */
  lemma NormalizeKeepsProse(lines: seq<string>)
    ensures ProseOf(NormalizeLines(lines)) == ProseOf(lines)
  {
    ChunksArePartition(lines, IsTableLine);
    RenderKeepsProse(Chunks(lines, IsTableLine), lines);
  }

  lemma {:induction false} NoRunsAllProse(lines: seq<string>, isTable: string -> bool,
                                          repair: seq<string> -> seq<string>)
    requires forall i :: 0 <= i < |lines| ==> !isTable(lines[i])
    ensures var cs := Chunks(lines, isTable);
      (|cs| == 0 || cs[|cs| - 1].Prose?) && Render(cs, repair) == lines
    decreases |lines|
  {
    if |lines| > 0 {
      var init := lines[..|lines| - 1];
      NoRunsAllProse(init, isTable, repair);
      PrefixSnoc(lines, |lines| - 1);
      ChunksSnoc(init, lines[|lines| - 1], isTable);
      RenderSnoc(Chunks(init, isTable), Prose(lines[|lines| - 1]), repair);
    }
  }

  /** For a line with no whitespace at either end, being a table line is
      just a matter of its first and last characters. */
  lemma TableLineByEnds(line: string)
    requires |line| > 0 && !IsSpace(line[0]) && !IsSpace(line[|line| - 1])
    ensures IsTableLine(line) <==> line[0] == '|' && line[|line| - 1] == '|'
  {
    assert Strip(line) == line;
  }

  lemma TableLineExample()
    ensures IsTableLine("|a|") && !IsTableLine("x") && !IsTableLine("")
  {
    TableLineByEnds("|a|");
    TableLineByEnds("x");
    assert Strip("") == "";
  }

  /** The runs of the two example pages for any classifier that accepts
      `|a|` and rejects `x` and the blank line; stated over the classifier so
      the proof does not unfold `IsTableLine`. */
  lemma ExampleChunksGeneric(isTable: string -> bool)
    requires isTable("|a|") && !isTable("x") && !isTable("")
    ensures Chunks(["|a|", "x"], isTable) == [Table(["|a|"]), Prose("x")]
    ensures Chunks(["|a|", "", "x"], isTable) == [Table(["|a|"]), Prose(""), Prose("x")]
  {
    ChunksSnoc([], "|a|", isTable);
    assert [] + ["|a|"] == ["|a|"];
    ChunksSnoc(["|a|"], "x", isTable);
    assert ["|a|"] + ["x"] == ["|a|", "x"];
    ChunksSnoc(["|a|"], "", isTable);
    assert ["|a|"] + [""] == ["|a|", ""];
    ChunksSnoc(["|a|", ""], "x", isTable);
    assert ["|a|", ""] + ["x"] == ["|a|", "", "x"];
  }

  lemma ExampleChunks()
    ensures Chunks(["|a|", "x"], IsTableLine) == [Table(["|a|"]), Prose("x")]
    ensures Chunks(["|a|", "", "x"], IsTableLine) == [Table(["|a|"]), Prose(""), Prose("x")]
  {
    TableLineExample();
    ExampleChunksGeneric(IsTableLine);
  }

  lemma ExampleRender()
    ensures Render([Table(["|a|"]), Prose("x")], ProcessTableBlock) == ["|a|", "", "x"]
    ensures Render([Table(["|a|"]), Prose(""), Prose("x")], ProcessTableBlock) == ["|a|", "", "", "x"]
  {
    assert ProcessTableBlock(["|a|"]) == ["|a|"];
    RenderSnoc([], Table(["|a|"]), ProcessTableBlock);
    assert [] + [Table(["|a|"])] == [Table(["|a|"])];
    RenderSnoc([Table(["|a|"])], Prose("x"), ProcessTableBlock);
    RenderSnoc([Table(["|a|"])], Prose(""), ProcessTableBlock);
    RenderSnoc([Table(["|a|"]), Prose("")], Prose("x"), ProcessTableBlock);
  }

  lemma ExampleSplits()
    ensures Split("|a|\nx") == ["|a|", "x"]
    ensures Split("|a|\n\nx") == ["|a|", "", "x"]
  {
    SplitSingle("x");
    SplitPrefix("|a|", "x");
    assert "|a|\nx" == "|a|" + "\n" + "x";
    SplitPrefix("", "x");
    assert "\nx" == "" + "\n" + "x";
    SplitPrefix("|a|", "\nx");
    assert "|a|\n\nx" == "|a|" + "\n" + "\nx";
  }

  lemma ExampleJoins()
    ensures Join(["|a|", "", "x"], "\n") == "|a|\n\nx"
    ensures Join(["|a|", "", "", "x"], "\n") == "|a|\n\n\nx"
  {
    assert Join(["x"], "\n") == "x";
    assert Join(["", "x"], "\n") == "\nx";
    assert Join(["", "", "x"], "\n") == "\n\nx";
  }

  lemma NormalizeOnceExample()
    ensures NormalizeText("|a|\nx") == "|a|\n\nx"
  {
    ExampleSplits();
    ExampleChunks();
    ExampleRender();
    assert NormalizeLines(["|a|", "x"]) == ["|a|", "", "x"];
    ExampleJoins();
  }

  lemma NormalizeTwiceExample()
    ensures NormalizeText("|a|\n\nx") == "|a|\n\n\nx"
  {
    ExampleSplits();
    ExampleChunks();
    ExampleRender();
    assert NormalizeLines(["|a|", "", "x"]) == ["|a|", "", "", "x"];
    ExampleJoins();
  }

  /** Normalising is not idempotent: every pass adds one more blank line
      after a table run that is followed by another line. */
  lemma NormalizeNotIdempotent()
    ensures NormalizeText("|a|\nx") == "|a|\n\nx"
    ensures NormalizeText(NormalizeText("|a|\nx")) == "|a|\n\n\nx"
    ensures NormalizeText(NormalizeText("|a|\nx")) != NormalizeText("|a|\nx")
  {
    NormalizeOnceExample();
    NormalizeTwiceExample();
    assert |"|a|\n\n\nx"| != |"|a|\n\nx"|;
  }

  method EnhanceTableMarkdown(text: string) returns (r: string)
    ensures r == NormalizeText(text)
  {
    var lines := Split(text);
    var out := EnhanceLines(lines);
    r := Join(out, "\n");
  }
}

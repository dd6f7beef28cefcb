/**
 * The editor window: the table, its header labels, the preview list, the
 * bytes-per-row spin box and the re-entrancy guard, updated in place by the
 * window's slots (open, save, new, add row, remove row, update) and by the
 * table's cell-changed signal.
 */
module Editor {
  import opened Optional
  import opened HexCodec
  import opened Layout
  import opened Preview
  import opened Grid

  // ---------------------------------------------------------------------------
  // The template `clear_data` restores

  /** One "00" item with the body tint in the first of eight columns. */
  function TemplateCells(): Cells {
    [[Some(Cell("00", Body))] + BlankRow(7)]
  }

  /** `[str(x) for x in range(8)]`: decimal column headers. */
  function TemplateColumnLabels(): seq<string> {
    seq(8, x requires 0 <= x < 8 => [('0' as int + x) as char])
  }

  /** The single row label `clear_data` restores. */
  function TemplateRowLabels(): seq<string> {
    ["00-07"]
  }

  /** The single preview line `clear_data` restores. */
  function TemplatePreview(): seq<string> {
    ["00-07\t."]
  }

  /** Writing "00" into the first cell of a cleared 1 x 8 table gives the template's table. */
  lemma TemplateIsWritten()
    ensures Blank(1, 8)[0 := Blank(1, 8)[0][0 := Some(Cell("00", Body))]] == TemplateCells()
  {
    var t := Blank(1, 8)[0 := Blank(1, 8)[0][0 := Some(Cell("00", Body))]];
    forall c | 0 <= c < 8 ensures t[0][c] == TemplateCells()[0][c] {
    }
    assert t[0] == TemplateCells()[0];
  }

  lemma TemplateGrid()
    ensures TemplateCells() == GridOf([0], 8, -1)
  {
    var g := GridOf([0], 8, -1);
    assert |g| == 1;
    assert ByteToken(0) == "00" by {
      assert Hex(0) == "0";
    }
    forall c | 0 <= c < 8 ensures g[0][c] == TemplateCells()[0][c] {
      assert CellIndex(0, c, 8) == c;
    }
    assert g[0] == TemplateCells()[0];
  }

  lemma TemplateLine()
    ensures TemplatePreview() == PreviewOf([0], 8)
  {
    assert RangeLabel(0, 8) == "00-07" by {
      assert Hex(0) == "0" && Hex(7) == "7";
    }
    var chunk := Chunk([0], 8, 0);
    assert chunk == [0];
    assert chunk[..0] == [];
    assert PreviewLine([0], 8, 0) == "00-07" + ['\t', '.'] == "00-07\t.";
    assert LineCount(1, 8) == 1;
    assert PreviewOf([0], 8) == [] + [PreviewLine([0], 8, 0)];
  }

  /** The template is what a full pass lays out for the single byte 0 at eight bytes per row. */
  lemma TemplateIsOneZeroByte()
    ensures TemplateCells() == GridOf([0], 8, -1)
    ensures Collected(TemplateCells()) == [0]
    ensures TemplateColumnLabels() == ColumnLabels(8)
    ensures TemplateRowLabels() == LoadRowLabels(1, 8) == UpdateRowLabels(1, 8)
    ensures TemplatePreview() == PreviewOf([0], 8)
  {
    TemplateGrid();
    RebuildIsStable([0], 8, -1);
    forall c | 0 <= c < 8 ensures TemplateColumnLabels()[c] == ColumnLabels(8)[c] {
      assert Hex(c) == [DigitChar(c)];
    }
    assert RangeLabel(0, 8) == "00-07" by {
      assert Hex(0) == "0" && Hex(7) == "7";
    }
    TemplateLine();
  }

  /** The item a user edit leaves: the new text, keeping the tint of an item already there. */
  function Edited(item: Option<Cell>, text: string): Cell {
    if item.Some? then Cell(text, item.value.tint) else Cell(text, Body)
  }

  /** Clearing a table and giving it a new shape leaves a table of that shape with no items. */
  lemma ClearAndResize(rows: nat, cols: nat, rows': nat, cols': nat)
    ensures WithRowCount(WithColumnCount(Blank(rows, cols), cols'), rows', cols') == Blank(rows', cols')
  {
    var a := WithColumnCount(Blank(rows, cols), cols');
    assert a == Blank(rows, cols') by {
      forall i | 0 <= i < rows ensures a[i] == BlankRow(cols') {
        forall c | 0 <= c < cols' ensures a[i][c] == None {
          if c < cols { assert a[i][c] == Blank(rows, cols)[i][c]; }
        }
      }
    }
    var b := WithRowCount(a, rows', cols');
    assert b == Blank(rows', cols') by {
      forall i | 0 <= i < rows' ensures b[i] == BlankRow(cols') {
        if i >= rows { assert b[i] == Blank(rows' - rows, cols')[i - rows]; }
      }
    }
  }

  /**
   * Byte i = kW + col is the last of line k: line k is one of the preview's
   * lines, and the last one when the data ends here.
   */
  lemma EndOfLine(data: seq<Byte>, w: nat, k: nat, col: nat)
    requires w >= 1 && col < w && LineStart(k, w) + col < |data|
    requires col == w - 1 || LineStart(k, w) + col == |data| - 1
    ensures k < LineCount(|data|, w)
    ensures LineStart(k, w) + col + 1 == |data| ==> k + 1 == LineCount(|data|, w)
  {
    LineStartIsProduct(k, w);
    var n, i := |data|, k * w + col;
    LineCountIsCeiling(n, w);
    DivModOfCell(i, k, col, w);
    DivIsMonotone(i, n - 1, w);
    MulPred(k + 1, w);
  }

  /** Byte LineStart(k, W) + col, col < W, sits in column col. */
  lemma ColumnOf(i: nat, k: nat, col: nat, w: nat)
    requires col < w && i == LineStart(k, w) + col
    ensures i % w == col
  {
    LineStartIsProduct(k, w);
    DivModOfCell(i, k, col, w);
  }

  /** The pending bytes kW .. kW + col of a line that ends at byte i = kW + col are chunk k. */
  lemma PendingIsChunk(data: seq<Byte>, w: nat, k: nat, col: nat, i: nat, symbols: seq<Byte>)
    requires w >= 1 && col < w && i == LineStart(k, w) + col && i < |data|
    requires col == w - 1 || i == |data| - 1
    requires symbols == data[LineStart(k, w)..i + 1]
    ensures symbols == Chunk(data, w, k)
  {
    LineStartIsProduct(k, w);
    assert Min(k * w, |data|) == k * w;
    assert Min(k * w + w, |data|) == i + 1;
  }

  /**
   * The fix-ups of the row counter when byte i = kW + col ends a preview line,
   * then the line's heading: the row's range when W > 1, else `hex(byte)`.
   * The counter arrives one behind on a row's first byte, and at -1 before
   * the first row has started.
   */
  method RowHeading(row: int, i: nat, n: nat, w: nat, ghost k: nat, ghost col: nat)
    returns (row': int, heading: string)
    requires w >= 1 && col < w && i == LineStart(k, w) + col && i < n
    requires col == w - 1 || i == n - 1
    requires w > 1 ==> row == if col == 0 then k - 1 else k
    ensures w > 1 ==> row' == k
    ensures heading == LineLabel(w, k)
  {
    LineStartIsProduct(k, w);
    DivModOfCell(i, k, col, w);
    assert k >= 1 ==> i >= w by {
      if k >= 1 { MulAtLeast(k, w); }
    }
    row' := row;
    if row' < 0 {
      row' := 0;
    }
    if i % w == 0 && i == n - 1 {
      row' := row' + 1;
    }
    if n == 1 {
      row' := 0;
    }
    heading := if w > 1 then RangeLabel(row', w) else Hex(i);
  }

  /**
   * The state of the layout loop once bytes 0 .. i - 1 have been walked:
   * `lines` preview lines are written, the pending line starts at byte
   * `start` = LineStart(lines, W) and holds `col` bytes, and the row counter and the
   * start flag are where the loop's fix-ups expect them.
   */
  ghost predicate Scanned(data: seq<Byte>, w: nat, i: nat, lines: nat, start: nat, col: nat,
                          symbols: seq<Byte>, canWriteStart: bool, row: int)
    requires w >= 1
  {
    i <= |data| && start + col == i
    && (i < |data| ==> col < w && start == LineStart(lines, w))
    && lines <= LineCount(|data|, w) && (i == |data| ==> lines == LineCount(|data|, w))
    && symbols == data[start..i]
    && canWriteStart == (col == 0)
    && (w > 1 ==> row == if col == 0 then lines - 1 else lines)
  }

  /**
   * The preview side of the layout loop for byte i: the byte joins the
   * pending line, and after the last byte of a row or of the data the line
   * is written, labelled by the row counter and its fix-ups. `emitted` is
   * what the step adds to the preview list `shown`, which holds the first
   * `lines` lines after `before`: line `lines` of the preview, or nothing.
   */
  method ScanByte(data: seq<Byte>, w: nat, i: nat, symbols: seq<Byte>, canWriteStart: bool, row: int,
                  ghost lines: nat, ghost start: nat, ghost col: nat, ghost shown: seq<string>, ghost before: seq<string>)
    returns (symbols': seq<Byte>, canWriteStart': bool, row': int, emitted: seq<string>,
             ghost lines': nat, ghost start': nat, ghost col': nat)
    requires w >= 1 && i < |data|
    requires Scanned(data, w, i, lines, start, col, symbols, canWriteStart, row)
    requires shown == before + PreviewLines(data, w, lines)
    ensures Scanned(data, w, i + 1, lines', start', col', symbols', canWriteStart', row')
    ensures shown + emitted == before + PreviewLines(data, w, lines')
  {
    ColumnOf(i, lines, col, w);
    if i % w == w - 1 || i == |data| - 1 {
      symbols', canWriteStart', row', emitted, lines', start', col' :=
        EndScan(data, w, i, symbols, row, lines, start, col, shown, before);
    } else {
      symbols' := symbols + [data[i]];
      SliceExtend(data, start, i);
      emitted := [];
      canWriteStart', row' := canWriteStart, row;
      if canWriteStart' {
        row' := row' + 1;
        canWriteStart' := false;
      }
      lines', start', col' := lines, start, col + 1;
    }
  }

  /** ScanByte for a byte i = kW + col that ends line k: the line is written and a new one begins. */
  method EndScan(data: seq<Byte>, w: nat, i: nat, symbols: seq<Byte>, row: int,
                 ghost k: nat, ghost start: nat, ghost col: nat, ghost shown: seq<string>, ghost before: seq<string>)
    returns (symbols': seq<Byte>, canWriteStart': bool, row': int, emitted: seq<string>,
             ghost lines': nat, ghost start': nat, ghost col': nat)
    requires w >= 1 && i < |data| && (col == w - 1 || i == |data| - 1)
    requires Scanned(data, w, i, k, start, col, symbols, col == 0, row)
    requires shown == before + PreviewLines(data, w, k)
    ensures Scanned(data, w, i + 1, lines', start', col', symbols', canWriteStart', row')
    ensures shown + emitted == before + PreviewLines(data, w, lines')
  {
    PendingLine(data, w, i, k, start, col, symbols, row);
    var line;
    row', line := FinishLine(data, w, i, symbols + [data[i]], row, k, col);
    emitted := [line];
    lines', start', col' := k + 1, i + 1, 0;
    symbols' := [];
    canWriteStart' := true;
    ScannedAfterLine(data, w, i, k, start, col, symbols, row, lines', start', col', symbols', canWriteStart', row');
    PreviewGrows(data, w, k, line, shown, before);
  }

  /** Writing line k after the first k lines of the preview gives its first k + 1 lines. */
  lemma PreviewGrows(data: seq<Byte>, w: nat, k: nat, line: string, shown: seq<string>, before: seq<string>)
    requires w >= 1 && line == PreviewLine(data, w, k)
    requires shown == before + PreviewLines(data, w, k)
    ensures shown + [line] == before + PreviewLines(data, w, k + 1)
  {
    AppendAssoc(before, PreviewLines(data, w, k), [line]);
  }

  /** When byte i ends line k, the pending bytes with byte i are the line's bytes, from its start. */
  lemma PendingLine(data: seq<Byte>, w: nat, i: nat, k: nat, start: nat, col: nat, symbols: seq<Byte>, row: int)
    requires w >= 1 && i < |data|
    requires Scanned(data, w, i, k, start, col, symbols, col == 0, row)
    ensures col < w && i == LineStart(k, w) + col
    ensures w > 1 ==> row == if col == 0 then k - 1 else k
    ensures symbols + [data[i]] == data[LineStart(k, w)..i + 1]
  {
    SliceExtend(data, start, i);
  }

  /** After the last byte of line k the scan stands at the start of line k + 1 with nothing pending. */
  lemma ScannedAfterLine(data: seq<Byte>, w: nat, i: nat, k: nat, start: nat, col: nat,
                         symbols: seq<Byte>, row: int,
                         lines': nat, start': nat, col': nat, symbols': seq<Byte>, canWriteStart': bool, row': int)
    requires w >= 1 && i < |data| && (col == w - 1 || i == |data| - 1)
    requires Scanned(data, w, i, k, start, col, symbols, col == 0, row)
    requires lines' == k + 1 && start' == i + 1 && col' == 0 && symbols' == [] && canWriteStart'
    requires w > 1 ==> row' == k
    ensures Scanned(data, w, i + 1, lines', start', col', symbols', canWriteStart', row')
  {
    EndOfLine(data, w, k, col);
  }

  /**
   * The preview line that byte i = kW + col ends: the row counter after its
   * fix-ups names the row, and the line holds the pending glyphs.
   */
  method FinishLine(data: seq<Byte>, w: nat, i: nat, symbols: seq<Byte>, row: int, ghost k: nat, ghost col: nat)
    returns (row': int, line: string)
    requires w >= 1 && col < w && i == LineStart(k, w) + col && i < |data|
    requires col == w - 1 || i == |data| - 1
    requires w > 1 ==> row == if col == 0 then k - 1 else k
    requires symbols == data[LineStart(k, w)..i + 1]
    ensures line == PreviewLine(data, w, k)
    ensures w > 1 ==> row' == k
  {
    var heading;
    row', heading := RowHeading(row, i, |data|, w, k, col);
    PendingIsChunk(data, w, k, col, i, symbols);
    line := Line(heading, symbols);
  }

  /**
   * The layout loop after bytes 0 .. i - 1: their items are written (when
   * the pass writes cells; otherwise the table is still `untouched`), the
   * scan is where `Scanned` says, and the preview holds its first `lines`
   * lines after what it held before the pass.
   */
  ghost predicate LaidOut(data: seq<Byte>, w: nat, headerEnd: int, writeCells: bool, i: nat,
                          lines: nat, start: nat, col: nat, symbols: seq<Byte>, canWriteStart: bool, row: int,
                          cells: Cells, preview: seq<string>, untouched: Cells, before: seq<string>)
    requires w >= 1
  {
    i <= |data|
    && cells == (if writeCells then Filled(data, w, headerEnd, i) else untouched)
    && Scanned(data, w, i, lines, start, col, symbols, canWriteStart, row)
    && preview == before + PreviewLines(data, w, lines)
  }

  /** The layout state after byte i is the state at the next index. */
  lemma LaidOutNext(data: seq<Byte>, w: nat, headerEnd: int, writeCells: bool, i: nat, i': nat,
                    lines: nat, start: nat, col: nat, symbols: seq<Byte>, canWriteStart: bool, row: int,
                    cells: Cells, preview: seq<string>, untouched: Cells, before: seq<string>)
    requires w >= 1 && i' == i + 1
    requires i + 1 <= |data|
    requires cells == (if writeCells then Filled(data, w, headerEnd, i + 1) else untouched)
    requires Scanned(data, w, i + 1, lines, start, col, symbols, canWriteStart, row)
    requires preview == before + PreviewLines(data, w, lines)
    ensures LaidOut(data, w, headerEnd, writeCells, i', lines, start, col, symbols, canWriteStart, row,
                    cells, preview, untouched, before)
  {
  }

  /** Before the first byte nothing is written and no line is scanned. */
  lemma LayoutStart(data: seq<Byte>, w: nat, headerEnd: int, writeCells: bool, cells: Cells, preview: seq<string>)
    requires w >= 1
    requires writeCells ==> cells == Filled(data, w, headerEnd, 0)
    ensures LaidOut(data, w, headerEnd, writeCells, 0, 0, 0, 0, [], true, -1, cells, preview, cells, preview)
  {
    LineCountIsCeiling(|data|, w);
    assert preview + [] == preview;
  }

  /** After the last byte the table is the full pass table and the preview list is complete. */
  lemma LayoutEnd(data: seq<Byte>, w: nat, headerEnd: int, writeCells: bool,
                  lines: nat, start: nat, col: nat, symbols: seq<Byte>, canWriteStart: bool, row: int,
                  cells: Cells, preview: seq<string>, untouched: Cells, before: seq<string>)
    requires w >= 1
    requires LaidOut(data, w, headerEnd, writeCells, |data|, lines, start, col, symbols, canWriteStart, row,
                     cells, preview, untouched, before)
    ensures cells == if writeCells then GridOf(data, w, headerEnd) else untouched
    ensures preview == before + PreviewOf(data, w)
  {
  }

  class HexEditor {
    /** The table's items, row by row. */
    var cells: Cells
    var rowCount: nat
    var columnCount: nat
    /** The label lists last given to the table's headers. */
    var columnLabels: seq<string>
    var rowLabels: seq<string>
    /** The lines of the preview list. */
    var preview: seq<string>
    /** The value of the bytes-per-row spin box. */
    var rowWidth: nat
    /** The guard that keeps `update_data` from re-entering itself. */
    var canUpdate: bool

    ghost predicate Valid()
      reads this
    {
      Shaped(cells, rowCount, columnCount) && rowWidth >= 1
    }

    /** The preview shows the bytes the table holds. */
    ghost predicate Synced()
      reads this
      requires rowWidth >= 1
    {
      preview == PreviewOf(Collected(cells), rowWidth)
    }

    /** An empty window with updates enabled. */
    constructor(width: nat)
      requires width >= 1
      ensures Valid() && Synced() && canUpdate && rowWidth == width
      ensures cells == [] && rowCount == 0 && columnCount == 0 && preview == []
    {
      cells, rowCount, columnCount := [], 0, 0;
      columnLabels, rowLabels := [], [];
      preview := [];
      rowWidth := width;
      canUpdate := true;
      LineCountIsCeiling(0, width);
    }

    /** `update_data`'s collection loop: the cell policy applied to each present item, row-major. */
    method ReadCells() returns (data: seq<Byte>)
      requires Valid()
      ensures data == Collected(cells)
    {
      data := [];
      for r := 0 to rowCount
        invariant data == Collect(Texts(cells[..r]))
      {
        data := ReadRow(r, data);
        assert cells[..r + 1][..r] == cells[..r];
        CollectAppend(Texts(cells[..r]), RowTexts(cells[r]));
      }
      assert cells[..rowCount] == cells;
    }

    /** The inner loop of the collection: row r's items appended to `data`. */
    method ReadRow(r: nat, data: seq<Byte>) returns (data': seq<Byte>)
      requires Valid() && r < rowCount
      ensures data' == data + Collect(RowTexts(cells[r]))
    {
      var row := cells[r];
      data' := data;
      for c := 0 to columnCount
        invariant data' == data + Collect(RowTexts(row[..c]))
      {
        ghost var texts := RowTexts(row[..c]);
        assert row[..c + 1][..c] == row[..c];
        if row[c].Some? {
          var text := row[c].value.text;
          assert RowTexts(row[..c + 1]) == texts + [text];
          assert (texts + [text])[..|texts|] == texts;
          var b := ReadItem(text);
          if b.Some? {
            data' := data' + [b.value];
          }
        } else {
          assert RowTexts(row[..c + 1]) == texts;
        }
      }
      assert row[..columnCount] == row;
    }

    /**
     * The cell policy of `update_data` for one item's text: the value of a
     * one- or two-digit token, 255 for other non-empty text, nothing for "".
     */
    method ReadItem(text: string) returns (b: Option<Byte>)
      ensures b == TokenByte(text)
    {
      b := None;
      if 1 <= |text| <= 2 {
        var ok := IsHexToken(text);
        if ok {
          var v := HexToDec(text);
          ShortTokenIsByte(text);
          b := Some(v.value);
        } else {
          b := Some(Sentinel);
        }
      } else if text != "" {
        b := Some(Sentinel);
      }
    }

    /** The digit check of `update_data`: every lower-cased character is in the digit table. */
    method IsHexToken(text: string) returns (ok: bool)
      ensures ok == AllHex(text)
    {
      var lowered := Lower(text);
      ok := true;
      var i := 0;
      while i < |lowered|
        invariant 0 <= i <= |lowered|
        invariant forall j :: 0 <= j < i ==> IsHexDigit(text[j])
      {
        if !IsHexDigit(lowered[i]) {
          ok := false;
          break;
        }
        i := i + 1;
      }
    }

    /**
     * `save_file`'s loop: `hex_to_dec` of each present item's lower-cased text,
     * row-major, then `bytes()`. `None` stands for the KeyError of a non-digit
     * and the ValueError of a value past 255.
     */
    method Save() returns (written: Option<seq<Byte>>)
      requires Valid()
      ensures written == Saved(cells)
    {
      var values: seq<nat> := [];
      for r := 0 to rowCount
        invariant SaveValues(Texts(cells[..r])) == Some(values)
      {
        assert cells[..r + 1][..r] == cells[..r];
        var next := SaveRow(r, values, Texts(cells[..r]));
        if next.None? {
          TableFailureIsFinal(cells, r + 1);
          return None;
        }
        values := next.value;
      }
      assert cells[..rowCount] == cells;
      if forall k :: 0 <= k < |values| ==> values[k] < 256 {
        written := Some(seq(|values|, k requires 0 <= k < |values| => values[k]));
      } else {
        written := None;
      }
    }

    /**
     * The inner loop of `save_file` for row r, after the rows before it gave
     * `values` (the list for the texts `before`); `None` when a text raises.
     */
    method SaveRow(r: nat, values: seq<nat>, ghost before: seq<string>) returns (next: Option<seq<nat>>)
      requires Valid() && r < rowCount && SaveValues(before) == Some(values)
      ensures next == SaveValues(before + RowTexts(cells[r]))
    {
      var row := cells[r];
      var vs := values;
      assert before + RowTexts(row[..0]) == before;
      for c := 0 to columnCount
        invariant SaveValues(before + RowTexts(row[..c])) == Some(vs)
      {
        ghost var texts := before + RowTexts(row[..c]);
        assert row[..c + 1][..c] == row[..c];
        if row[c].Some? {
          var text := row[c].value.text;
          assert before + RowTexts(row[..c + 1]) == texts + [text];
          assert (texts + [text])[..|texts|] == texts;
          var v := HexToDec(Lower(text));
          if v.None? {
            RowFailureIsFinal(before, row, c + 1);
            return None;
          }
          vs := vs + [v.value];
        } else {
          assert before + RowTexts(row[..c + 1]) == texts;
        }
      }
      assert row[..columnCount] == row;
      next := Some(vs);
    }

    /**
     * `setItem` on the table: the item is stored, and the table's cell-changed
     * signal calls `update_data`, which the cleared guard turns into a no-op.
     */
    method SetItem(r: nat, c: nat, item: Cell, headerEnd: int)
      requires Valid() && !canUpdate && r < rowCount && c < columnCount
      modifies this
      decreases 1
      ensures Valid() && !canUpdate
      ensures cells == old(cells)[r := old(cells)[r][c := Some(item)]]
      ensures rowCount == old(rowCount) && columnCount == old(columnCount) && rowWidth == old(rowWidth)
      ensures rowLabels == old(rowLabels) && columnLabels == old(columnLabels) && preview == old(preview)
    {
      cells := cells[r := cells[r][c := Some(item)]];
      UpdateData(false, headerEnd);
    }

    /**
     * The layout loop shared by `open_file` and `update_data`: for each byte,
     * the item is written at (i // W, i % W) when `writeCells` holds, and a
     * preview line is added after the last byte of each row and after the last
     * byte, labelled by the `row` counter and its fix-ups.
     */
    method Render(data: seq<Byte>, headerEnd: int, writeCells: bool)
      requires Valid() && !canUpdate
      requires writeCells ==>
        cells == Filled(data, rowWidth, headerEnd, 0) && rowCount == RowCount(|data|, rowWidth) && columnCount == rowWidth
      modifies this
      decreases 4
      ensures Valid() && !canUpdate
      ensures preview == old(preview) + PreviewOf(data, rowWidth)
      ensures cells == if writeCells then GridOf(data, rowWidth, headerEnd) else old(cells)
      ensures rowCount == old(rowCount) && columnCount == old(columnCount) && rowWidth == old(rowWidth)
      ensures rowLabels == old(rowLabels) && columnLabels == old(columnLabels)
    {
      var n, w := |data|, rowWidth;
      var symbols: seq<Byte> := [];
      var canWriteStart := true;
      var row: int := -1;
      ghost var lines: nat, start: nat, col: nat := 0, 0, 0;
      LayoutStart(data, w, headerEnd, writeCells, cells, preview);
      var byte := 0;
      while byte < n
        invariant 0 <= byte <= n
        invariant Valid() && !canUpdate && rowWidth == w
        invariant rowCount == old(rowCount) && columnCount == old(columnCount)
        invariant rowLabels == old(rowLabels) && columnLabels == old(columnLabels)
        invariant LaidOut(data, w, headerEnd, writeCells, byte, lines, start, col, symbols, canWriteStart, row,
                          cells, preview, old(cells), old(preview))
      {
        byte, symbols, canWriteStart, row, lines, start, col :=
          LayoutByte(data, w, headerEnd, writeCells, byte, symbols, canWriteStart, row, lines, start, col, old(preview), old(cells));
      }
      LayoutEnd(data, w, headerEnd, writeCells, lines, start, col, symbols, canWriteStart, row,
                cells, preview, old(cells), old(preview));
    }

    /** One turn of the layout loop: byte i's item when `writeCells` holds, then its part of the preview. */
    method LayoutByte(data: seq<Byte>, w: nat, headerEnd: int, writeCells: bool, i: nat,
                      symbols: seq<Byte>, canWriteStart: bool, row: int,
                      ghost lines: nat, ghost start: nat, ghost col: nat,
                      ghost before: seq<string>, ghost untouched: Cells)
      returns (i': nat, symbols': seq<Byte>, canWriteStart': bool, row': int,
               ghost lines': nat, ghost start': nat, ghost col': nat)
      requires Valid() && !canUpdate && w == rowWidth && i < |data|
      requires writeCells ==> rowCount == RowCount(|data|, w) && columnCount == w
      requires LaidOut(data, w, headerEnd, writeCells, i, lines, start, col, symbols, canWriteStart, row,
                       cells, preview, untouched, before)
      modifies this
      decreases 3
      ensures Valid() && !canUpdate && i' == i + 1
      ensures rowCount == old(rowCount) && columnCount == old(columnCount) && rowWidth == old(rowWidth)
      ensures rowLabels == old(rowLabels) && columnLabels == old(columnLabels)
      ensures LaidOut(data, w, headerEnd, writeCells, i', lines', start', col', symbols', canWriteStart', row',
                      cells, preview, untouched, before)
    {
      if writeCells {
        WriteByte(data, i, headerEnd);
      }
      var emitted;
      symbols', canWriteStart', row', emitted, lines', start', col' :=
        ScanByte(data, w, i, symbols, canWriteStart, row, lines, start, col, preview, before);
      preview := preview + emitted;
      i' := i + 1;
      LaidOutNext(data, w, headerEnd, writeCells, i, i', lines', start', col', symbols', canWriteStart', row',
                  cells, preview, untouched, before);
    }

    /** Writes byte i's item, tinted by `color_item`, at (i // W, i % W). */
    method WriteByte(data: seq<Byte>, i: nat, headerEnd: int)
      requires Valid() && !canUpdate && i < |data|
      requires rowCount == RowCount(|data|, rowWidth) && columnCount == rowWidth
      requires cells == Filled(data, rowWidth, headerEnd, i)
      modifies this
      decreases 2
      ensures Valid() && !canUpdate
      ensures cells == Filled(data, rowWidth, headerEnd, i + 1)
      ensures rowCount == old(rowCount) && columnCount == old(columnCount) && rowWidth == old(rowWidth)
      ensures rowLabels == old(rowLabels) && columnLabels == old(columnLabels) && preview == old(preview)
    {
      FilledStep(data, rowWidth, headerEnd, i);
      PlacementInGrid(i, |data|, rowWidth);
      SetItem(i / rowWidth, i % rowWidth, ByteCell(data, i, headerEnd), headerEnd);
    }

    /**
     * `tableWidget.clear()` (items and header labels), then `setColumnCount`
     * and `setRowCount`: a table of the new shape with no items and no labels.
     */
    method ClearTable(rows: nat, cols: nat)
      modifies this
      ensures cells == Blank(rows, cols) && rowCount == rows && columnCount == cols
      ensures columnLabels == [] && rowLabels == []
      ensures preview == old(preview) && rowWidth == old(rowWidth) && canUpdate == old(canUpdate)
    {
      cells := Blank(rowCount, columnCount);
      columnLabels, rowLabels := [], [];
      ghost var rows0, cols0 := rowCount, columnCount;
      cells := WithColumnCount(cells, cols);
      columnCount := cols;
      cells := WithRowCount(cells, rows, cols);
      rowCount := rows;
      ClearAndResize(rows0, cols0, rows, cols);
    }

    /**
     * The full rebuild shared by `open_file` and `update_data`: the table is
     * cleared and reshaped to N // W + 1 rows of W columns, given its labels,
     * and the layout loop writes every byte and the preview. The pass keeps
     * the bytes: collecting the new table gives `data` back.
     */
    method Relayout(data: seq<Byte>, headerEnd: int, labels: seq<string>)
      requires Valid() && !canUpdate && preview == []
      modifies this
      decreases 5
      ensures Valid() && !canUpdate && rowWidth == old(rowWidth)
      ensures cells == GridOf(data, rowWidth, headerEnd) && rowCount == RowCount(|data|, rowWidth)
      ensures columnCount == rowWidth && columnLabels == ColumnLabels(rowWidth) && rowLabels == labels
      ensures preview == PreviewOf(data, rowWidth)
      ensures Collected(cells) == data
    {
      var w := rowWidth;
      ClearTable(RowCount(|data|, w), w);
      FilledStart(data, w, headerEnd);
      columnLabels := ColumnLabels(w);
      rowLabels := labels;
      Render(data, headerEnd, true);
      RebuildIsStable(data, w, headerEnd);
    }

    /**
     * `update_data`: when the guard is set, collects the bytes from the items,
     * clears the preview and, unless a row button sent the signal, rebuilds the
     * table to N // W + 1 rows of W columns with fresh labels; then runs the
     * layout loop. With the guard cleared it changes nothing.
     */
    method UpdateData(fromRowButton: bool, headerEnd: int)
      requires Valid()
      modifies this
      decreases if canUpdate then 6 else 0
      ensures Valid()
      ensures !old(canUpdate) ==> unchanged(this)
      ensures old(canUpdate) ==> canUpdate && rowWidth == old(rowWidth)
      ensures old(canUpdate) ==> Collected(cells) == Collected(old(cells)) && Synced()
      ensures old(canUpdate) && fromRowButton ==>
        cells == old(cells) && rowCount == old(rowCount) && columnCount == old(columnCount)
        && rowLabels == old(rowLabels) && columnLabels == old(columnLabels)
      ensures old(canUpdate) && !fromRowButton ==>
        var data := Collected(old(cells));
        cells == GridOf(data, rowWidth, headerEnd) && rowCount == RowCount(|data|, rowWidth)
        && columnCount == rowWidth && columnLabels == ColumnLabels(rowWidth)
        && rowLabels == UpdateRowLabels(|data|, rowWidth)
    {
      if canUpdate {
        canUpdate := false;
        var data := ReadCells();
        var w := rowWidth;
        preview := [];
        if fromRowButton {
          Render(data, headerEnd, false);
        } else {
          Relayout(data, headerEnd, UpdateRowLabels(|data|, w));
        }
        canUpdate := true;
      }
    }

    /**
     * `open_file` given the file's bytes, or `None` when the dialog was
     * cancelled. `typeChanged` says whether the file's extension changed the
     * type field, whose change signal runs `update_data` first; `headerEnd` is
     * what the type registry gives the type (-1 when it has none).
     */
    method Open(file: Option<seq<Byte>>, typeChanged: bool, headerEnd: int)
      requires Valid()
      modifies this
      ensures Valid() && canUpdate && rowWidth == old(rowWidth)
      ensures file.Some? ==>
        var data := file.value;
        cells == GridOf(data, rowWidth, headerEnd) && rowCount == RowCount(|data|, rowWidth)
        && columnCount == rowWidth && columnLabels == ColumnLabels(rowWidth)
        && rowLabels == LoadRowLabels(|data|, rowWidth) && preview == PreviewOf(data, rowWidth)
        && Collected(cells) == data && Synced()
      ensures file.None? && !(typeChanged && old(canUpdate)) ==>
        cells == old(cells) && rowCount == old(rowCount) && columnCount == old(columnCount)
        && rowLabels == old(rowLabels) && columnLabels == old(columnLabels) && preview == old(preview)
      ensures file.None? && typeChanged && old(canUpdate) ==>
        var data := Collected(old(cells));
        cells == GridOf(data, rowWidth, headerEnd) && rowCount == RowCount(|data|, rowWidth)
        && columnCount == rowWidth && columnLabels == ColumnLabels(rowWidth)
        && rowLabels == UpdateRowLabels(|data|, rowWidth)
        && Collected(cells) == data && Synced()
    {
      if typeChanged {
        UpdateData(false, headerEnd);
      }
      if file.Some? {
        var data := file.value;
        canUpdate := false;
        preview := [];
        Relayout(data, headerEnd, LoadRowLabels(|data|, rowWidth));
      }
      canUpdate := true;
    }

    /** `add_byte`: appends an empty row, relabels the rows, then runs `update_data` as a row button. */
    method AddRow(headerEnd: int)
      requires Valid()
      modifies this
      ensures Valid() && canUpdate == old(canUpdate)
      ensures rowCount == old(rowCount) + 1 && cells == old(cells) + Blank(1, columnCount)
      ensures columnCount == old(columnCount) && rowWidth == old(rowWidth) && columnLabels == old(columnLabels)
      ensures rowLabels == AddRowLabels(rowCount, rowWidth)
      ensures Collected(cells) == Collected(old(cells))
      ensures old(canUpdate) ==> preview == PreviewOf(Collected(old(cells)), rowWidth)
      ensures !old(canUpdate) ==> preview == old(preview)
    {
      cells := WithRowCount(cells, rowCount + 1, columnCount);
      rowCount := rowCount + 1;
      rowLabels := AddRowLabels(rowCount, rowWidth);
      EmptyRowAddsNothing(old(cells), columnCount);
      UpdateData(true, headerEnd);
    }

    /**
     * `remove_byte`: drops the last row (a table without rows stays as it is),
     * then runs `update_data` as a row button.
     */
    method RemoveRow(headerEnd: int)
      requires Valid()
      modifies this
      ensures Valid() && canUpdate == old(canUpdate)
      ensures rowCount == if old(rowCount) > 0 then old(rowCount) - 1 else 0
      ensures cells == old(cells)[..rowCount]
      ensures columnCount == old(columnCount) && rowWidth == old(rowWidth)
      ensures rowLabels == old(rowLabels) && columnLabels == old(columnLabels)
      ensures old(canUpdate) ==> Synced()
      ensures !old(canUpdate) ==> preview == old(preview)
    {
      if rowCount > 0 {
        cells := WithRowCount(cells, rowCount - 1, columnCount);
        rowCount := rowCount - 1;
      } else {
        assert cells == cells[..0];
      }
      UpdateData(true, headerEnd);
    }

    /**
     * A user edit of cell (r, c): the item takes the new text and the
     * cell-changed signal runs `update_data` with a full rebuild. Committing
     * the text an item already holds stores nothing, so no signal fires.
     */
    method EditCell(r: nat, c: nat, text: string, headerEnd: int)
      requires Valid() && r < rowCount && c < columnCount
      modifies this
      ensures Valid() && canUpdate == old(canUpdate) && rowWidth == old(rowWidth)
      ensures old(cells)[r][c].Some? && old(cells)[r][c].value.text == text ==> unchanged(this)
      ensures old(cells)[r][c].None? || old(cells)[r][c].value.text != text ==>
        var edited := old(cells)[r := old(cells)[r][c := Some(Edited(old(cells)[r][c], text))]];
        if old(canUpdate) then
          cells == GridOf(Collected(edited), rowWidth, headerEnd)
          && rowCount == RowCount(|Collected(edited)|, rowWidth) && columnCount == rowWidth
          && columnLabels == ColumnLabels(rowWidth) && rowLabels == UpdateRowLabels(|Collected(edited)|, rowWidth)
          && Collected(cells) == Collected(edited) && Synced()
        else
          cells == edited && preview == old(preview) && rowCount == old(rowCount) && columnCount == old(columnCount)
          && columnLabels == old(columnLabels) && rowLabels == old(rowLabels)
    {
      if cells[r][c].Some? && cells[r][c].value.text == text {
        return;
      }
      cells := cells[r := cells[r][c := Some(Edited(cells[r][c], text))]];
      UpdateData(false, headerEnd);
    }

    /** A new value in the bytes-per-row spin box; its change signal runs `update_data`. */
    method SetRowWidth(w: nat, headerEnd: int)
      requires Valid() && w >= 1
      modifies this
      ensures Valid() && rowWidth == w && canUpdate == old(canUpdate)
      ensures w == old(rowWidth) || !old(canUpdate) ==>
        cells == old(cells) && rowCount == old(rowCount) && columnCount == old(columnCount) && preview == old(preview)
        && columnLabels == old(columnLabels) && rowLabels == old(rowLabels)
      ensures w != old(rowWidth) && old(canUpdate) ==>
        var data := Collected(old(cells));
        cells == GridOf(data, w, headerEnd) && columnCount == w && rowCount == RowCount(|data|, w)
        && columnLabels == ColumnLabels(w) && rowLabels == UpdateRowLabels(|data|, w)
        && Collected(cells) == data && Synced()
    {
      if w != rowWidth {
        rowWidth := w;
        UpdateData(false, headerEnd);
      }
    }

    /**
     * `clear_data`: empties the type field (whose change signal runs
     * `update_data` when it held a type), sets the spin box to 8, then
     * restores the one-byte template with updates guarded off.
     */
    method Clear(typeWasSet: bool, headerEnd: int)
      requires Valid()
      modifies this
      ensures Valid() && Synced() && canUpdate && rowWidth == 8
      ensures cells == TemplateCells() && rowCount == 1 && columnCount == 8
      ensures columnLabels == TemplateColumnLabels() && rowLabels == TemplateRowLabels()
      ensures preview == TemplatePreview()
    {
      if typeWasSet {
        UpdateData(false, headerEnd);
      }
      SetRowWidth(8, headerEnd);
      RestoreTemplate(headerEnd);
    }

    /** The rest of `clear_data`, with the guard cleared: the template's table, labels and preview. */
    method RestoreTemplate(headerEnd: int)
      requires Valid() && rowWidth == 8
      modifies this
      ensures Valid() && Synced() && canUpdate && rowWidth == 8
      ensures cells == TemplateCells() && rowCount == 1 && columnCount == 8
      ensures columnLabels == TemplateColumnLabels() && rowLabels == TemplateRowLabels()
      ensures preview == TemplatePreview()
    {
      canUpdate := false;
      ClearTable(1, 8);
      columnLabels := TemplateColumnLabels();
      rowLabels := TemplateRowLabels();
      SetItem(0, 0, Cell("00", Body), headerEnd);
      TemplateIsWritten();
      preview := TemplatePreview();
      TemplateIsOneZeroByte();
      canUpdate := true;
    }
  }
}

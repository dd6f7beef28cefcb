/**
 * The table of the editor as values: rows of optional items, what a full
 * layout pass writes into it, and the row-major walk over its present items
 * that both `update_data` (collecting bytes) and `save_file` (writing bytes)
 * perform.
 */
module Grid {
  import opened Optional
  import opened HexCodec
  import opened Layout

  /** A table item: its text and the tint `color_item` gave it. */
  datatype Cell = Cell(text: string, tint: Tint)

  type Row = seq<Option<Cell>>
  type Cells = seq<Row>

  /** `rows` rows of `cols` items each. */
  predicate Shaped(cells: Cells, rows: nat, cols: nat) {
    |cells| == rows && forall r :: 0 <= r < rows ==> |cells[r]| == cols
  }

  // ---------------------------------------------------------------------------
  // Table operations

  function BlankRow(cols: nat): Row {
    seq(cols, _ => None)
  }

  /** A table of `rows` x `cols` with no items, as `clear()` leaves it. */
  function Blank(rows: nat, cols: nat): (cells: Cells)
    ensures Shaped(cells, rows, cols)
  {
    seq(rows, _ => BlankRow(cols))
  }

  /** `setColumnCount`: every row is cut or padded with empty cells to `cols` cells. */
  function WithColumnCount(cells: Cells, cols: nat): (r: Cells)
    ensures Shaped(r, |cells|, cols)
    ensures forall i, c :: 0 <= i < |cells| && 0 <= c < cols && c < |cells[i]| ==> r[i][c] == cells[i][c]
    ensures forall i, c :: 0 <= i < |cells| && |cells[i]| <= c < cols ==> r[i][c] == None
  {
    seq(|cells|, i requires 0 <= i < |cells| =>
      if cols <= |cells[i]| then cells[i][..cols] else cells[i] + BlankRow(cols - |cells[i]|))
  }

  /** `setRowCount`: rows past `rows` are dropped, missing rows are added empty. */
  function WithRowCount(cells: Cells, rows: nat, cols: nat): (r: Cells)
    ensures |r| == rows
    ensures rows <= |cells| ==> r == cells[..rows]
    ensures |cells| <= rows ==> r == cells + Blank(rows - |cells|, cols)
  {
    if rows <= |cells| then cells[..rows] else cells + Blank(rows - |cells|, cols)
  }

  // ---------------------------------------------------------------------------
  // The full layout pass

  /** The item written for byte i: its two-digit token and its tint. */
  function ByteCell(data: seq<Byte>, i: nat, end: int): Cell
    requires i < |data|
  {
    Cell(ByteToken(data[i]), TintOf(i, end))
  }

  /** The table of a full pass after the first `upto` bytes have been written. */
  function Filled(data: seq<Byte>, w: nat, end: int, upto: nat): (cells: Cells)
    requires w >= 1 && upto <= |data|
    ensures Shaped(cells, RowCount(|data|, w), w)
  {
    seq(RowCount(|data|, w), r requires 0 <= r =>
      seq(w, c requires 0 <= c < w =>
        if CellIndex(r, c, w) < upto then Some(ByteCell(data, CellIndex(r, c, w), end)) else None))
  }

  /** The table a full pass leaves: N // W + 1 rows of W columns holding the N bytes row-major. */
  function GridOf(data: seq<Byte>, w: nat, end: int): Cells
    requires w >= 1
  {
    Filled(data, w, end, |data|)
  }

  /** Before the first byte the pass table is the cleared table of the new shape. */
  lemma FilledStart(data: seq<Byte>, w: nat, end: int)
    requires w >= 1
    ensures Filled(data, w, end, 0) == Blank(RowCount(|data|, w), w)
  {
    var f, b := Filled(data, w, end, 0), Blank(RowCount(|data|, w), w);
    forall r | 0 <= r < |f| ensures f[r] == b[r] {
      assert forall c :: 0 <= c < w ==> f[r][c] == None;
    }
  }

  /** Writing byte i changes exactly the cell (i // W, i % W) of the pass table. */
  lemma FilledStep(data: seq<Byte>, w: nat, end: int, i: nat)
    requires w >= 1 && i < |data|
    ensures i / w < RowCount(|data|, w) && i % w < w
    ensures Filled(data, w, end, i + 1) ==
      Filled(data, w, end, i)[i / w := Filled(data, w, end, i)[i / w][i % w := Some(ByteCell(data, i, end))]]
  {
    PlacementInGrid(i, |data|, w);
    var f, g := Filled(data, w, end, i), Filled(data, w, end, i + 1);
    var g' := f[i / w := f[i / w][i % w := Some(ByteCell(data, i, end))]];
    forall r | 0 <= r < |g| ensures g[r] == g'[r] {
      forall c | 0 <= c < w ensures g[r][c] == g'[r][c] {
        PlacementIsCellIndex(i, w, r, c);
      }
    }
  }

  /** Byte i sits at (i // W, i % W) of the rebuilt table. */
  lemma ByteAtPlacement(data: seq<Byte>, w: nat, end: int, i: nat)
    requires w >= 1 && i < |data|
    ensures i / w < |GridOf(data, w, end)| && i % w < w
    ensures GridOf(data, w, end)[i / w][i % w] == Some(Cell(ByteToken(data[i]), TintOf(i, end)))
  {
    PlacementInGrid(i, |data|, w);
  }

  /** Cells past the data hold no item: with W dividing N the whole last row is empty. */
  lemma CellPastDataIsEmpty(data: seq<Byte>, w: nat, end: int, r: nat, c: nat)
    requires w >= 1 && r < RowCount(|data|, w) && c < w && r * w + c >= |data|
    ensures GridOf(data, w, end)[r][c] == None
  {
  }

  // ---------------------------------------------------------------------------
  // The row-major walk over present items

  /** The texts of the present items of one row, left to right. */
  function RowTexts(row: Row): seq<string> {
    if |row| == 0 then []
    else RowTexts(row[..|row| - 1]) + (if row[|row| - 1].Some? then [row[|row| - 1].value.text] else [])
  }

  /** The texts of the present items of the table, row-major. */
  function Texts(cells: Cells): seq<string> {
    if |cells| == 0 then [] else Texts(cells[..|cells| - 1]) + RowTexts(cells[|cells| - 1])
  }

  /** `update_data`'s byte list: the cell policy applied to each text, empty texts dropped. */
  function Collect(texts: seq<string>): seq<Byte> {
    if |texts| == 0 then []
    else
      var b := TokenByte(texts[|texts| - 1]);
      Collect(texts[..|texts| - 1]) + (if b.Some? then [b.value] else [])
  }

  function Collected(cells: Cells): seq<Byte> {
    Collect(Texts(cells))
  }

  /** `save_file`'s list: `hex_to_dec(text.lower())` of each text; a non-digit raises (None). */
  function SaveValues(texts: seq<string>): Option<seq<nat>> {
    if |texts| == 0 then Some([])
    else
      var t := Lower(texts[|texts| - 1]);
      match SaveValues(texts[..|texts| - 1])
      case None => None
      case Some(vs) => if AllHex(t) then Some(vs + [HexValue(t)]) else None
  }

  /** The bytes `save_file` writes; `bytes()` raises (None) on a value past 255. */
  function Saved(cells: Cells): Option<seq<Byte>> {
    match SaveValues(Texts(cells))
    case None => None
    case Some(vs) =>
      if forall k :: 0 <= k < |vs| ==> vs[k] < 256
      then Some(seq(|vs|, k requires 0 <= k < |vs| => vs[k]))
      else None
  }

  /** The token of each byte, in order. */
  function Tokens(data: seq<Byte>): seq<string> {
    seq(|data|, i requires 0 <= i < |data| => ByteToken(data[i]))
  }

  lemma {:induction false} CollectAppend(a: seq<string>, b: seq<string>)
    ensures Collect(a + b) == Collect(a) + Collect(b)
  {
    if |b| > 0 {
      var b' := b[..|b| - 1];
      assert (a + b)[..|a + b| - 1] == a + b';
      CollectAppend(a, b');
    } else {
      assert a + b == a;
    }
  }

  /** Once `save_file` has raised, later cells do not matter. */
  lemma {:induction false} SaveFailureIsFinal(a: seq<string>, b: seq<string>)
    requires SaveValues(a) == None
    ensures SaveValues(a + b) == None
  {
    if |b| > 0 {
      var b' := b[..|b| - 1];
      assert (a + b)[..|a + b| - 1] == a + b';
      SaveFailureIsFinal(a, b');
    } else {
      assert a + b == a;
    }
  }

  /** A text of row `row` that raises makes the whole row raise, whatever follows it. */
  lemma RowFailureIsFinal(before: seq<string>, row: Row, c: nat)
    requires c <= |row| && SaveValues(before + RowTexts(row[..c])) == None
    ensures SaveValues(before + RowTexts(row)) == None
  {
    RowTextsPrefix(row, c);
    PrefixFailureIsFinal(before + RowTexts(row[..c]), before + RowTexts(row));
  }

  /** A row that raises makes the whole table raise. */
  lemma TableFailureIsFinal(cells: Cells, r: nat)
    requires r <= |cells| && SaveValues(Texts(cells[..r])) == None
    ensures SaveValues(Texts(cells)) == None
  {
    RowsPrefix(cells, r);
    PrefixFailureIsFinal(Texts(cells[..r]), Texts(cells));
  }

  /** The same for any continuation of texts that raised. */
  lemma PrefixFailureIsFinal(a: seq<string>, b: seq<string>)
    requires a <= b && SaveValues(a) == None
    ensures SaveValues(b) == None
  {
    assert b == a + b[|a|..];
    SaveFailureIsFinal(a, b[|a|..]);
  }

  /** `save_file` writes one value per present item, blank text included (`hex_to_dec("")` is 0). */
  lemma {:induction false} SaveKeepsEveryItem(texts: seq<string>)
    requires SaveValues(texts).Some?
    ensures |SaveValues(texts).value| == |texts|
    ensures forall k :: 0 <= k < |texts| && texts[k] == "" ==> SaveValues(texts).value[k] == 0
  {
    if |texts| > 0 {
      var init := texts[..|texts| - 1];
      SaveKeepsEveryItem(init);
      forall k | 0 <= k < |texts| && texts[k] == "" ensures SaveValues(texts).value[k] == 0 {
        if k == |texts| - 1 {
          assert Lower("") == "";
        } else {
          assert texts[k] == init[k];
        }
      }
    }
  }

  /** `update_data` drops exactly the empty texts and keeps one byte for every other item. */
  lemma {:induction false} CollectDropsOnlyEmptyTexts(texts: seq<string>)
    ensures |Collect(texts)| == |texts| - EmptyTexts(texts)
  {
    if |texts| > 0 {
      CollectDropsOnlyEmptyTexts(texts[..|texts| - 1]);
    }
  }

  function EmptyTexts(texts: seq<string>): (k: nat)
    ensures k <= |texts|
  {
    if |texts| == 0 then 0
    else EmptyTexts(texts[..|texts| - 1]) + (if texts[|texts| - 1] == "" then 1 else 0)
  }

  /** The texts up to row r, column c are a prefix of all texts. */
  lemma {:induction false} TextsPrefix(cells: Cells, r: nat, c: nat)
    requires r < |cells| && c <= |cells[r]|
    ensures Texts(cells[..r]) + RowTexts(cells[r][..c]) <= Texts(cells)
  {
    RowTextsPrefix(cells[r], c);
    assert cells[..r + 1][..r] == cells[..r];
    var pre := Texts(cells[..r + 1]);
    assert pre == Texts(cells[..r]) + RowTexts(cells[r]);
    RowsPrefix(cells, r + 1);
  }

  lemma {:induction false} RowTextsPrefix(row: Row, c: nat)
    requires c <= |row|
    ensures RowTexts(row[..c]) <= RowTexts(row)
    decreases |row| - c
  {
    if c < |row| {
      assert row[..c + 1][..c] == row[..c];
      RowTextsPrefix(row, c + 1);
    } else {
      assert row[..c] == row;
    }
  }

  lemma {:induction false} RowsPrefix(cells: Cells, r: nat)
    requires r <= |cells|
    ensures Texts(cells[..r]) <= Texts(cells)
    decreases |cells| - r
  {
    if r < |cells| {
      assert cells[..r + 1][..r] == cells[..r];
      RowsPrefix(cells, r + 1);
    } else {
      assert cells[..r] == cells;
    }
  }

  // ---------------------------------------------------------------------------
  // Properties of the full pass

  /** The row a full pass writes from byte b on: the items of bytes b .. b + W - 1 that exist. */
  function RowFrom(data: seq<Byte>, b: nat, w: nat, end: int): Row {
    seq(w, c requires 0 <= c < w => if b + c < |data| then Some(ByteCell(data, b + c, end)) else None)
  }

  lemma GridRow(data: seq<Byte>, w: nat, end: int, r: nat)
    requires w >= 1 && r < RowCount(|data|, w)
    ensures GridOf(data, w, end)[r] == RowFrom(data, r * w, w, end)
  {
  }

  /** A rebuilt row holds the tokens of its bytes, left to right. */
  lemma {:induction false} RowTextsFrom(data: seq<Byte>, b: nat, w: nat, end: int, c: nat)
    requires c <= w
    ensures RowTexts(RowFrom(data, b, w, end)[..c]) == Tokens(data)[Min(b, |data|)..Min(b + c, |data|)]
  {
    var row := RowFrom(data, b, w, end);
    if c > 0 {
      assert row[..c][..c - 1] == row[..c - 1];
      RowTextsFrom(data, b, w, end, c - 1);
      var t := Tokens(data);
      var lo, mid := Min(b, |data|), Min(b + c - 1, |data|);
      assert row[..c][c - 1] == row[c - 1];
      if b + c - 1 < |data| {
        assert row[c - 1] == Some(ByteCell(data, b + c - 1, end));
        assert t[b + c - 1] == ByteToken(data[b + c - 1]);
        assert t[lo..mid] + [t[b + c - 1]] == t[lo..b + c];
      } else {
        assert row[c - 1] == None;
      }
    }
  }

  /** The rebuilt rows before row r hold the tokens of the first min(rW, N) bytes. */
  lemma {:induction false} TextsOfGridRows(data: seq<Byte>, w: nat, end: int, r: nat)
    requires w >= 1 && r <= RowCount(|data|, w)
    ensures Texts(GridOf(data, w, end)[..r]) == Tokens(data)[..Min(r * w, |data|)]
  {
    if r > 0 {
      var g := GridOf(data, w, end);
      assert g[..r][..r - 1] == g[..r - 1];
      TextsOfGridRows(data, w, end, r - 1);
      GridRow(data, w, end, r - 1);
      RowTextsFrom(data, (r - 1) * w, w, end, w);
      assert g[r - 1][..w] == g[r - 1];
      MulPred(r, w);
      var t := Tokens(data);
      var lo, hi := Min((r - 1) * w, |data|), Min(r * w, |data|);
      assert Texts(g[..r]) == t[..lo] + t[lo..hi];
      SliceSplit(t, lo, hi);
    }
  }

  /** Read row-major, the rebuilt table holds the tokens of the bytes in order. */
  lemma TextsOfGrid(data: seq<Byte>, w: nat, end: int)
    requires w >= 1
    ensures Texts(GridOf(data, w, end)) == Tokens(data)
  {
    var g := GridOf(data, w, end);
    TextsOfGridRows(data, w, end, RowCount(|data|, w));
    TrailingRow(|data|, w);
    assert g[..|g|] == g;
    assert Tokens(data)[..|data|] == Tokens(data);
  }

  lemma {:induction false} CollectTokens(data: seq<Byte>)
    ensures Collect(Tokens(data)) == data
  {
    if |data| > 0 {
      var init := data[..|data| - 1];
      assert Tokens(data)[..|data| - 1] == Tokens(init);
      var texts := Tokens(data);
      assert texts[..|texts| - 1] == Tokens(init);
      CollectTokens(init);
      assert texts[|texts| - 1] == ByteToken(data[|data| - 1]);
      TokenByteOfByteToken(data[|data| - 1]);
      assert Collect(texts) == Collect(texts[..|texts| - 1]) + [data[|data| - 1]];
      assert data == init + [data[|data| - 1]];
    }
  }

  lemma {:induction false} SaveTokens(data: seq<Byte>)
    ensures SaveValues(Tokens(data)) == Some(data)
  {
    if |data| > 0 {
      var init := data[..|data| - 1];
      var texts := Tokens(data);
      assert texts[..|texts| - 1] == Tokens(init);
      SaveTokens(init);
      assert texts[|texts| - 1] == ByteToken(data[|data| - 1]);
      ByteTokenRoundTrip(data[|data| - 1]);
      assert SaveValues(texts) == Some(init + [data[|data| - 1]]);
      assert data == init + [data[|data| - 1]];
    }
  }

  /** A full pass followed by another collects the same bytes: rebuilding is stable. */
  lemma RebuildIsStable(data: seq<Byte>, w: nat, end: int)
    requires w >= 1
    ensures Collected(GridOf(data, w, end)) == data
  {
    TextsOfGrid(data, w, end);
    CollectTokens(data);
  }

  /** Saving right after a full pass writes back exactly the bytes the pass laid out. */
  lemma LoadThenSave(data: seq<Byte>, w: nat, end: int)
    requires w >= 1
    ensures Saved(GridOf(data, w, end)) == Some(data)
  {
    TextsOfGrid(data, w, end);
    SaveTokens(data);
    var vs := SaveValues(Tokens(data)).value;
    assert seq(|vs|, k requires 0 <= k < |vs| => vs[k]) == data;
  }

  /** A row without items adds no text, so adding a row leaves the bytes unchanged. */
  lemma EmptyRowAddsNothing(cells: Cells, cols: nat)
    ensures Texts(cells + Blank(1, cols)) == Texts(cells)
  {
    var all := cells + Blank(1, cols);
    assert all[..|all| - 1] == cells;
    EmptyRowHasNoText(BlankRow(cols));
  }

  lemma {:induction false} EmptyRowHasNoText(row: Row)
    requires forall c :: 0 <= c < |row| ==> row[c] == None
    ensures RowTexts(row) == []
  {
    if |row| > 0 {
      EmptyRowHasNoText(row[..|row| - 1]);
    }
  }

  /** Dropping the last row drops exactly the bytes its items held. */
  lemma RemovedRowBytes(cells: Cells)
    requires |cells| > 0
    ensures Collected(cells) == Collected(cells[..|cells| - 1]) + Collect(RowTexts(cells[|cells| - 1]))
  {
    CollectAppend(Texts(cells[..|cells| - 1]), RowTexts(cells[|cells| - 1]));
  }
}

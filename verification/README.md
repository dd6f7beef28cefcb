# HEX Editor core, modelled in Dafny

This project models the byte-grid logic of the PyQt hex editor in `hex.py`.

The editor opens a file and shows its bytes in a table:
- each byte is written as a two-digit lower-case hex token;
- there are W bytes per row, where W is the bytes-per-row spin box;
- the N // W + 1 rows are labelled with offset ranges when W > 1, and with bare offsets when W == 1 (N + 2 of them on load);
- the header bytes of known file types are tinted.

Beside the table, a preview list shows one tab-joined line per W-byte chunk: the row label, then each byte's printable-ASCII glyph, or "." for a non-printable byte.

Editing a cell, changing the width, adding or removing a row all re-derive the bytes from the table (`update_data`). That path collects the items row-major and applies the cell policy:
- a one- or two-digit token gives its value;
- other non-empty text gives 255;
- empty text gives nothing.

It then rebuilds the preview and, unless a row button sent the signal, the table. A guard flag (`can_update`) stops the table's own cell-changed signal from re-entering the rebuild. Saving decodes every present item with `hex_to_dec`.

The files are:
- `optional.dfy`: `Option`.
- `codec.dfy` (module `HexCodec`):
  - `hex_to_dec`;
  - `hex()` and `rjust(2, "0")`;
  - the cell policy;
  - the glyph whitelist.
- `layout.dfy` (module `Layout`):
  - the row count and the byte placement (i // W, i % W);
  - the column and row labels of the load, update and add-row paths;
  - the `color_item` tint rule.
- `preview.dfy` (module `Preview`): `"\t".join`, a split that inverts it so a line can be read back, and the preview list as a function of the bytes.
- `grid.dfy` (module `Grid`):
  - the table as rows of optional items;
  - the table a full pass lays out;
  - the row-major walks of `update_data` and `save_file`.
- `editor.dfy` (module `Editor`): the class `HexEditor`. Its fields are:
  - items, row and column counts;
  - header labels and preview lines;
  - the spin box value (`rowWidth`);
  - `canUpdate`.

  The slots are methods that update those fields in place. The layout loop shared by `open_file` and `update_data` is a `while` loop with the source's `symbols`, `row` and `can_write_start` variables. It is proved to produce exactly the table `GridOf` and the preview list `PreviewOf`.

How events are modelled:
- Qt's `setItem` emits `cellChanged`, which calls `update_data` again. This is modelled as `SetItem` calling `UpdateData`, which the cleared guard turns into a no-op.
- Signals from the type field and the spin box appear as the explicit `typeChanged`, `typeWasSet` and `SetRowWidth` steps.

## Model

| member | source | states |
|---|---|---|
| `HexCodec.DigitValue` | hex.py:19-36 | every key of the digit table, in either case, has a value below 16 |
| `HexCodec.DigitChar` | hex.py:196 | the digit `hex()` writes for a value below 16 is a lower-case key of the digit table whose value is that value |
| `HexCodec.DigitRoundTrip` | hex.py:19-36 | the value of a digit, written again, is the digit lower-cased |
| `HexCodec.HexValue` | hex.py:43-47 | the value of k digits is below 16^k |
| `HexCodec.HexValuePrepend` | hex.py:44-45 | a digit in front of t digits adds its value times 16^|t| (the weight the reversed loop gives position |t|) |
| `HexCodec.SuffixGrows` | hex.py:44-45 | one more turn of the summing loop adds the next digit from the right at weight 16^i |
| `HexCodec.LowerDigit` | hex.py:39-40 | lower-casing first changes neither whether a character is in the digit table nor its value |
| `HexCodec.HexValueIgnoresCase` | hex.py:39-40 | two strings equal up to letter case have the same value |
| `HexCodec.CaseChangeKeepsValue` | hex.py:39-40 | upper- and lower-casing a digit string keeps it a digit string with the same value |
| `HexCodec.ShortTokenIsByte` | hex.py:43-47 | one or two digits decode to a value in 0..255, and the empty string decodes to 0 |
| `HexCodec.Lower` | hex.py:38-40 | `str.lower` on ASCII: each character lower-cased, in order; `HexValueIgnoresCase` and `CaseChangeKeepsValue` prove it keeps a digit string's value |
| `HexCodec.Upper` | hex.py:167 | `str.upper` on ASCII, as the column and W == 1 row labels use it; `UpperIsIdempotent` and `CaseChangeKeepsValue` prove it leaves no lower-case letter and keeps the value |
| `HexCodec.UpperIsIdempotent` | hex.py:167 | an upper-cased string holds no lower-case letter, and upper-casing it again changes nothing |
| `HexCodec.Reversed` | hex.py:41 | `new_n.reverse()`: the characters in the opposite order, so `HexToDec`'s loop reads digit i from the right at weight 16^i |
| `HexCodec.LowerAll` | hex.py:38-40 | the first loop produces the characters lower-cased, in order |
| `HexCodec.HexToDec` | hex.py:11-47 | returns the base-16 value of the digits (most significant first, any case) exactly when every character is a digit, and `None` (the KeyError) otherwise |
| `HexCodec.Hex` | hex.py:196 | `hex(n)[2:]` is never empty and has one digit exactly when n < 16 |
| `HexCodec.HexRoundTrip` | hex.py:196 | `hex(n)[2:]` is lower-case digits with no leading zero whose value is n |
| `HexCodec.AppendDigit` | hex.py:45 | appending a digit multiplies the value by 16 and adds the digit |
| `HexCodec.Pad2` | hex.py:196 | `rjust(2, "0")`: zeros on the left up to two characters; `Pad2KeepsValue` proves it keeps the value and case |
| `HexCodec.Pad2KeepsValue` | hex.py:196 | `rjust(2, "0")` keeps the value and the case and gives at least two characters |
| `HexCodec.ByteToken` | hex.py:196 | the text a byte is written as, `hex(b)[2:].rjust(2, "0")`; `ByteTokenRoundTrip` proves it is two lower-case digits that decode back to the byte |
| `HexCodec.ByteTokenRoundTrip` | hex.py:196 | every byte is rendered as exactly two lower-case digits that decode back to it |
| `HexCodec.TokenRoundTrip` | hex.py:320-331 | a one- or two-digit token, decoded and rendered again, is the token lower-cased and zero-padded |
| `HexCodec.OneDigitRoundTrip` | hex.py:331 | a one-digit token is rendered by `hex()` as itself lower-cased |
| `HexCodec.TwoDigitRoundTrip` | hex.py:385 | a two-digit token is rendered back as itself lower-cased |
| `HexCodec.HexOfDigits` | hex.py:385 | the byte with digits hi, lo is rendered as those two digits |
| `HexCodec.TokenByte` | hex.py:318-337 | the cell policy gives nothing exactly for "", the digits' value for a one- or two-digit token, and 255 for every other text |
| `HexCodec.TokenByteOfByteToken` | hex.py:318-331 | a rendered byte is read back by the cell policy as that byte |
| `HexCodec.MalformedTokenIsSentinel` | hex.py:332-337 | a text longer than two characters, or holding a non-digit, is coerced to 255 |
| `HexCodec.WhitelistPieces` | hex.py:214-216 | the three whitelist literals are the printable ranges 0x20-0x26, 0x28-0x40, 0x41-0x60, 0x61-0x7E plus the extra literal `'])` and one more `)`, so `)` appears twice (and `]` also lies in 0x41-0x60) |
| `HexCodec.WhitelistIsPrintableAscii` | hex.py:214-216 | a character is on the whitelist exactly when its code is 0x20 through 0x7E |
| `HexCodec.Glyph` | hex.py:213-217 | the preview character of a byte: the byte itself for codes 0x20 through 0x7E, "." otherwise; `GlyphIsWhitelisted` proves this is the source's whitelist test |
| `HexCodec.GlyphIsWhitelisted` | hex.py:404-407 | the glyph of a byte is its character when the whitelist holds it and "." otherwise |
| `Layout.RowCount` | hex.py:164 | the table has N // W + 1 rows; `PlacementInGrid` and `TrailingRow` prove every byte fits |
| `Layout.Placement` | hex.py:199 | byte i goes to row i // W, column i % W; `PlacementIsCellIndex` and `PlacementInjective` prove it is the row-major cell and one-to-one |
| `Layout.PlacementInGrid` | hex.py:199 | byte i < N lands at row i // W < N // W + 1 and column i % W < W, the cell that stands for i |
| `Layout.CellIndexPlacement` | hex.py:388 | the cell that stands for row r, column c is where byte rW + c is placed |
| `Layout.PlacementIsCellIndex` | hex.py:199 | byte i is placed at (r, c) if and only if rW + c == i |
| `Layout.PlacementInjective` | hex.py:388 | distinct byte indices are placed in distinct cells |
| `Layout.NextPlacement` | hex.py:194-199 | walking the bytes in order walks the cells row-major |
| `Layout.TrailingRow` | hex.py:164 | the table has room for N bytes and, when W divides N, its last row stays empty |
| `Layout.ColumnLabels` | hex.py:167 | column c is headed `hex(c)[2:].upper()`; `ColumnLabelNamesColumn` proves it reads back as c |
| `Layout.ColumnLabelNamesColumn` | hex.py:167 | column header c is upper-case hex digits whose value is c |
| `Layout.DivIsMonotone` | hex.py:199 | a later byte is never placed in an earlier row |
| `Layout.RangeLabel` | hex.py:174-176 | row r's label: the padded offsets rW and rW + W - 1 joined by "-"; `RangeLabelDecodes` proves it names those offsets |
| `Layout.ShortRangeLabel` | hex.py:275 | the same range without padding, as `add_byte` writes it; `ShortRangeLabelDecodes` proves it names the same offsets |
| `Layout.LoadRowLabels` | hex.py:172-182 | `open_file`'s row labels: a range per row when W > 1, else `hex(x)[2:].upper()` for x below rowCount + 1 |
| `Layout.UpdateRowLabels` | hex.py:357-366 | the full rebuild's row labels: a range per row when W > 1, else lower-case `hex(x)[2:]` for x below N + 1; `OffsetLabelsAgree` relates them to the load labels |
| `Layout.AddRowLabels` | hex.py:272-281 | `add_byte`'s row labels: an unpadded range per row when W > 1, else `hex(x)[2:]` for x below rowCount + 1 |
| `Layout.RangeLabelDecodes` | hex.py:174-178 | the padded label of row r, split at a dash into two digit strings, names the first and the last offset of the row, rW and rW + W - 1 |
| `Layout.ShortRangeLabelDecodes` | hex.py:274-277 | the unpadded labels of `add_byte` name the same offsets |
| `Layout.OffsetLabelsAgree` | hex.py:181-182 | with W == 1 the load labels are the update labels in upper case, and both read back as the row's offset |
| `Layout.DashAfterDigits` | hex.py:175-176 | the first dash of a range label follows its first offset |
| `Layout.TintOf` | hex.py:63-68 | `color_item`'s test: byte i is header exactly when 0 <= i <= end; `HeaderByteCount` and `HeaderIsPrefix` prove the header is the first min(N, end + 1) bytes |
| `Layout.UnknownTypeIsBody` | hex.py:149-152 | a file type missing from the registry (end = -1) tints every byte as body |
| `Layout.HeaderIsPrefix` | hex.py:63 | a byte before a header byte is a header byte |
| `Layout.HeaderByteCount` | hex.py:63-68 | exactly the first min(N, end + 1) bytes are header, none when end < 0 |
| `Preview.Split` | hex.py:229 | the inverse of the `"\t".join` at hex.py:229 (the source never splits; this reads a line back in `PreviewLineFields`): it always gives at least one piece |
| `Preview.SplitAfterText` | hex.py:229 | (inverse of the join) text without a separator sticks to the first piece of what follows it |
| `Preview.SplitJoin` | hex.py:229 | the join at hex.py:229 can be undone: splitting a join at its separator gives the parts back when no part holds it |
| `Preview.Join` | hex.py:229 | `sep.join(parts)`: the parts with the separator between neighbours; `SplitJoin` proves it can be undone when no part holds the separator |
| `Preview.JoinSnoc` | hex.py:229 | joining one more part adds the separator and that part |
| `Preview.Line` | hex.py:213-229 | a heading followed by a tab and one glyph for each byte of the chunk; `LineIsJoin` proves it is the source's `"\t".join` |
| `Preview.PreviewLine` | hex.py:205-229 | preview line k: the line of chunk k under `LineLabel(W, k)`; `PreviewLineFields` proves it splits back into that label and glyphs |
| `Preview.LineIsJoin` | hex.py:222-229 | a preview line is `"\t".join` of its heading and one glyph per byte |
| `Preview.PreviewLines` | hex.py:419 | the first m lines of the list are m lines |
| `Preview.PreviewLineAt` | hex.py:419 | line k of the list is the line of chunk k |
| `Preview.LineLabel` | hex.py:205-227 | the label that starts preview line k: row k's range when W > 1, else `hex(byte)`; `RowHeading` proves the loop's counter fix-ups compute it |
| `Preview.PreviewOf` | hex.py:194-235 | the whole preview list, one tab-joined line per W-byte chunk; `LineCountIsCeiling`, `PreviewCoversData` and `PreviewLineFields` prove its shape and contents |
| `Preview.LineCount` | hex.py:392 | how many lines the flush test emits for N bytes; `LineCountIsCeiling` proves it is ceil(N / W) |
| `Preview.Chunk` | hex.py:390-392 | the bytes gathered in `symbols` for line k, bytes kW up to min(kW + W, N); `ChunkLength` and `ChunksInOrder` prove their sizes and order |
| `Preview.LineCountIsCeiling` | hex.py:392 | the preview has ceil(N / W) lines: (N - 1) // W + 1 for N > 0 and none for N == 0 |
| `Preview.ChunkLength` | hex.py:390-392 | each line shows between 1 and W bytes, exactly W for all but the last |
| `Preview.ChunksInOrder` | hex.py:390 | the chunks of the first m lines, read in order, are the first min(mW, N) bytes |
| `Preview.ChunksSnoc` | hex.py:390 | the chunks of m lines are those of m - 1 lines followed by chunk m - 1 |
| `Preview.ChunkBounds` | hex.py:392 | chunk m - 1 ends where the first m lines end |
| `Preview.PrefixThenSlice` | hex.py:390 | a prefix followed by the slice that continues it is the longer prefix |
| `Preview.PreviewCoversData` | hex.py:382-426 | read in order, the chunks of all preview lines are exactly the bytes |
| `Preview.NoTabInDigits` | hex.py:222-224 | hex digits hold no tab |
| `Preview.NoTabInLabel` | hex.py:220-227 | no line label holds a tab |
| `Preview.NoTabInGlyphs` | hex.py:213-217 | no glyph is a tab |
| `Preview.PreviewLineFields` | hex.py:213-229 | splitting line k at its tabs gives back its label and one glyph per byte of chunk k |
| `Preview.ByteInPreview` | hex.py:194-235 | byte kW + c shows as field c + 1 of preview line k, as its glyph |
| `Preview.GlyphField` | hex.py:404-419 | field c + 1 of line k is the glyph of the chunk's byte c |
| `Preview.ChunkHoldsByte` | hex.py:201-202 | byte kW + c belongs to line k, as its byte c |
| `Grid.Blank` | hex.py:157 | a cleared table of `rows` x `cols` has that shape and no items |
| `Grid.WithColumnCount` | hex.py:163 | `setColumnCount` keeps the items of the kept columns and adds empty ones |
| `Grid.WithRowCount` | hex.py:286 | `setRowCount` drops rows past the new count or adds empty rows |
| `Grid.Filled` | hex.py:163-164 | the pass table always has N // W + 1 rows of W columns |
| `Grid.GridOf` | hex.py:194-199 | the table a full pass leaves; `ByteAtPlacement`, `CellPastDataIsEmpty` and `RebuildIsStable` prove what it holds |
| `Grid.FilledStart` | hex.py:156-164 | before the first byte the pass table is the cleared table of the new shape |
| `Grid.FilledStep` | hex.py:196-199 | writing byte i changes exactly the cell (i // W, i % W), to that byte's token and tint |
| `Grid.ByteAtPlacement` | hex.py:385-388 | after a full pass, cell (i // W, i % W) holds byte i's two-digit token and its tint |
| `Grid.CellPastDataIsEmpty` | hex.py:164 | cells past the last byte hold no item |
| `Grid.RowTexts` | hex.py:317-318 | the texts of one row's present items, left to right; `RowTextsPrefix` and `EmptyRowHasNoText` |
| `Grid.Texts` | hex.py:316-318 | the texts of the table's present items, row-major; `TextsPrefix`, `RowsPrefix` and `TextsOfGrid` |
| `Grid.Collected` | hex.py:314-337 | the bytes `update_data` collects from a table; `RebuildIsStable` proves a laid-out table collects to its bytes |
| `Grid.SaveValues` | hex.py:255-258 | the values `save_file`'s loops append, or `None` once `hex_to_dec` raises; `SaveKeepsEveryItem`, `SaveTokens` and the failure lemmas |
| `Grid.Collect` | hex.py:316-337 | `update_data`'s byte list from the row-major texts under the cell policy; `CollectDropsOnlyEmptyTexts` and `CollectTokens` prove its length and round trip |
| `Grid.Saved` | hex.py:255-259 | the bytes `save_file` writes, or `None` for a KeyError or ValueError; `SaveKeepsEveryItem` and `LoadThenSave` prove its length and round trip |
| `Grid.CollectAppend` | hex.py:316-337 | the collection of two runs of texts is the collection of each, in order |
| `Grid.SaveFailureIsFinal` | hex.py:255-258 | once a text has raised, later texts do not matter |
| `Grid.PrefixFailureIsFinal` | hex.py:255-258 | a raise in a prefix of the texts makes the whole walk raise |
| `Grid.RowFailureIsFinal` | hex.py:256-258 | a text that raises makes its whole row raise |
| `Grid.TableFailureIsFinal` | hex.py:255 | a row that raises makes the whole table raise |
| `Grid.SaveKeepsEveryItem` | hex.py:257-258 | `save_file` writes one value per present item, and 0 for an empty text |
| `Grid.CollectDropsOnlyEmptyTexts` | hex.py:318-337 | `update_data` keeps one byte for each present item except the empty texts |
| `Grid.TextsPrefix` | hex.py:316-318 | the texts before cell (r, c) are a prefix of the row-major texts |
| `Grid.RowTextsPrefix` | hex.py:317-318 | the texts of a row's first c items are a prefix of the row's texts |
| `Grid.RowsPrefix` | hex.py:316 | the texts of the first r rows are a prefix of the table's texts |
| `Grid.GridRow` | hex.py:388 | row r of a full pass holds bytes rW .. rW + W - 1 |
| `Grid.RowTextsFrom` | hex.py:385-388 | a rebuilt row holds the tokens of its bytes, left to right |
| `Grid.TextsOfGridRows` | hex.py:382-388 | the rebuilt rows before row r hold the tokens of the first min(rW, N) bytes |
| `Grid.TextsOfGrid` | hex.py:194-199 | read row-major, the rebuilt table holds the tokens of the bytes in order |
| `Grid.CollectTokens` | hex.py:318-331 | collecting the tokens of a byte sequence gives the bytes back |
| `Grid.SaveTokens` | hex.py:257-258 | decoding the tokens of a byte sequence gives the bytes back |
| `Grid.RebuildIsStable` | hex.py:314-337 | collecting the table of a full pass gives the laid-out bytes back |
| `Grid.LoadThenSave` | hex.py:253-259 | saving right after a full pass writes exactly the laid-out bytes |
| `Grid.EmptyRowAddsNothing` | hex.py:269 | an appended empty row adds no text |
| `Grid.EmptyRowHasNoText` | hex.py:318 | a row without items has no texts |
| `Grid.RemovedRowBytes` | hex.py:286 | dropping the last row drops exactly the bytes its items held |
| `Editor.TemplateCells` | hex.py:452-461 | the table `clear_data` leaves: one "00" item with the body tint, then seven empty cells; `TemplateGrid` proves it is the layout of the single byte 0 |
| `Editor.TemplateColumnLabels` | hex.py:446 | the decimal headers `str(x)` for x below 8; `TemplateIsOneZeroByte` proves they equal the hex headers of W = 8 |
| `Editor.TemplateRowLabels` | hex.py:449 | the one row label "00-07"; `TemplateIsOneZeroByte` proves it is what the load and update paths write for one byte at W = 8 |
| `Editor.TemplatePreview` | hex.py:465 | the one preview line "00-07\t."; `TemplateLine` proves it is the preview of the single byte 0 at W = 8 |
| `Editor.Edited` | hex.py:93 | the item a user edit leaves: the new text, with the old item's tint, or the body tint when the cell had no item |
| `Editor.TemplateIsWritten` | hex.py:439-461 | writing "00" into the first cell of the cleared 1 x 8 table gives the template table |
| `Editor.TemplateGrid` | hex.py:452-461 | the template table is the full pass table of the single byte 0 at W = 8 with no header |
| `Editor.TemplateLine` | hex.py:465 | the template preview "00-07\t." is the preview of the single byte 0 at W = 8 |
| `Editor.TemplateIsOneZeroByte` | hex.py:430-467 | the `clear_data` template is what a full load of the one byte 0 at W = 8 lays out: table, bytes, column and row labels, preview |
| `Editor.ClearAndResize` | hex.py:439-443 | a cleared table given a new shape has that shape and no items |
| `Editor.EndOfLine` | hex.py:202 | a byte that ends a row or the data ends one of the preview's lines, the last one when the data ends there |
| `Editor.ColumnOf` | hex.py:392 | byte kW + col, col < W, sits in column col |
| `Editor.PendingIsChunk` | hex.py:390-392 | the pending bytes of a line that ends at byte i are exactly that line's chunk |
| `Editor.RowHeading` | hex.py:395-417 | the row fix-ups bring the counter to the number of the line being written, and the heading is that row's range (W > 1) or `hex(byte)` (W == 1) |
| `Editor.ScanByte` | hex.py:390-426 | one byte of the preview side of the loop keeps the scan state and adds to the list exactly the preview lines that end at this byte |
| `Editor.EndScan` | hex.py:392-423 | a byte that ends a line appends that line of the preview and starts the next with nothing pending |
| `Editor.PreviewGrows` | hex.py:419 | appending line k after the first k lines gives the first k + 1 lines |
| `Editor.PendingLine` | hex.py:390 | when byte i ends line k, the pending bytes with byte i are line k's bytes from its start |
| `Editor.ScannedAfterLine` | hex.py:421-423 | after the last byte of a line the scan stands at the next line with nothing pending |
| `Editor.FinishLine` | hex.py:395-419 | the line written when byte i ends line k is preview line k, and the counter names row k |
| `Editor.LaidOutNext` | hex.py:382 | the state after byte i is the loop state at index i + 1 |
| `Editor.LayoutStart` | hex.py:373-380 | the loop's initial values (`symbols = []`, `can_write_start = True`, `row = -1`) meet the loop state with no byte walked |
| `Editor.LayoutEnd` | hex.py:382-426 | when the loop ends, the table is the full pass table and the list holds the whole preview |
| `Editor.HexEditor.constructor` | hex.py:76-81 | a new window has no items, an empty preview and updates enabled |
| `Editor.HexEditor.ReadCells` | hex.py:314-337 | the collection loop returns the cell policy applied to every present item, row-major |
| `Editor.HexEditor.ReadRow` | hex.py:317-337 | the inner loop appends row r's bytes under the cell policy |
| `Editor.HexEditor.ReadItem` | hex.py:318-337 | one item's text gives the byte the cell policy prescribes |
| `Editor.HexEditor.IsHexToken` | hex.py:322-327 | the digit check holds exactly when every lower-cased character is in the digit table |
| `Editor.HexEditor.Save` | hex.py:247-265 | returns the decoded present items, row-major, or `None` when one raises or a value exceeds 255 |
| `Editor.HexEditor.SaveRow` | hex.py:256-258 | the inner save loop extends the values with row r's items, or raises |
| `Editor.HexEditor.SetItem` | hex.py:199 | `setItem` stores the item and, through the guarded cell-changed signal, changes nothing else |
| `Editor.HexEditor.Render` | hex.py:372-426 | the layout loop appends the whole preview of the bytes and, when it writes items, leaves exactly the full pass table |
| `Editor.HexEditor.LayoutByte` | hex.py:382-426 | one turn of the layout loop keeps the loop state |
| `Editor.HexEditor.WriteByte` | hex.py:385-388 | writing byte i fills exactly its cell, with its token and tint |
| `Editor.HexEditor.ClearTable` | hex.py:351-353 | `clear()` then `setColumnCount` and `setRowCount` leave an empty table of the new shape with no labels |
| `Editor.HexEditor.Relayout` | hex.py:349-426 | the full rebuild leaves N // W + 1 rows of W columns, the column labels, the given row labels and the preview of the bytes, and collecting the new table gives the bytes back |
| `Editor.HexEditor.UpdateData` | hex.py:289-428 | with the guard cleared nothing changes. With the guard set: the bytes are kept, the preview shows them, the guard is set again at the end, and either only the preview is rebuilt (row button) or the whole table with fresh labels |
| `Editor.HexEditor.Open` | hex.py:122-245 | loading N bytes lays them out N // W + 1 by W with the load labels and the preview, and the table reads back as those bytes; a cancelled dialog leaves everything as it was, or, when the type field changed, leaves what `update_data`'s full rebuild leaves (table, counts, column and update row labels, synced preview); the guard ends set |
| `Editor.HexEditor.AddRow` | hex.py:267-282 | appends an empty row, relabels the rows with the unpadded labels, keeps the bytes and, with the guard set, rebuilds the preview only |
| `Editor.HexEditor.RemoveRow` | hex.py:284-287 | drops the last row (none when there is none), keeps the labels and, with the guard set, leaves the preview showing the remaining bytes |
| `Editor.HexEditor.EditCell` | hex.py:93 | committing the text an item already holds changes nothing. Any other edit re-derives the table, counts, column labels, update row labels and preview from the edited items. While the guard is cleared the edit is only stored and everything else is kept |
| `Editor.HexEditor.SetRowWidth` | hex.py:92 | a new spin box value relays the same bytes out W to a row, with fresh column and update row labels and a synced preview; an unchanged value, or a cleared guard, keeps the table, labels and preview |
| `Editor.HexEditor.Clear` | hex.py:430-467 | `clear_data` always ends with W = 8, the guard set and the one-byte template, whatever the type-field and spin-box signals do first |
| `Editor.HexEditor.RestoreTemplate` | hex.py:436-467 | with W = 8 and the guard cleared for the duration, the template table, column and row labels and preview are restored, in sync, and the guard ends set |

## Left out

- `Editor.HexEditor.constructor` starts from an empty table, empty label lists and an empty preview. This is an assumption about the initial widgets in `hex.ui`, which is not part of this model.
- PyQt widgets, fonts, colours (only the header/body classification is kept), alignment and `uic.loadUi` are left out. The constructor takes the spin box value instead of reading `hex.ui`; the spin box minimum of 1 is assumed (`rowWidth >= 1`).
- File dialogs and file I/O are left out. `Open` takes the file's bytes, or `None` for a cancelled dialog (the FileNotFoundError branch). `Save` returns the bytes it would write.
- `Editor.HexEditor.Save`: the KeyError of a non-digit and the ValueError of a value past 255 are both `None`. Outside the model, `save_file` has already truncated the file, and the exception escapes the slot.
- The SQLite lookup of the header end is a parameter `headerEnd`, -1 for an unknown type. `Clear` uses one value for the update its type-field signal runs.
- `AddTypeForm` and `add_type` (the type registry form) are left out: they only touch the database.
- `self.sender().text()` is the flag `fromRowButton`. Whether the button texts in `hex.ui` match the strings compared at hex.py:350 is not part of this model.
- The status label texts are not modelled.
- Python's `str.lower` and `str.upper` change only ASCII letters here. Unicode case mappings, including those that change a string's length, are left out.
- Qt emits `cellChanged` only when an item's text really changes. `EditCell` therefore treats committing an unchanged text as storing nothing. This follows documented Qt behaviour, not the source.
- Qt ignores a negative `setRowCount`, so `RemoveRow` on a table with no rows leaves it unchanged. This follows documented Qt behaviour, not the source.
- Qt applies only the first `rowCount` header labels. The model stores the label list the code builds: N + 2 offsets on load and N + 1 on update when W == 1.
- The header font loops (hex.py:168-169, 369-370) are left out. So is the AttributeError they would raise if the column count were below the spin box value.

Behaviour of the code worth noting:
- After loading an empty file (N = 0) the preview is empty. The line "00-07\t." comes only from `clear_data`.
- `save_file` skips only absent items. A present item with empty text is decoded by `hex_to_dec("")` to 0 (`Grid.SaveKeepsEveryItem`).
- The glyph whitelist spells out exactly printable ASCII, 0x20 through 0x7E (`WhitelistIsPrintableAscii`). `]` and `)` appear twice. `'` appears only in the third literal, and it supplies 0x27.
- Bytes 0x00-0x07 all show as ".".
- With W == 1 the load path labels rows in upper case and the update path in lower case. The load path builds N + 2 labels and the update path N + 1.

/**
 * Where the editor puts bytes and what it calls the rows and columns: the
 * row count of the table, the cell of each byte, the column and row header
 * labels of the load, update and add-row paths, and the header/body tint.
 */
module Layout {
  import opened HexCodec

  // ---------------------------------------------------------------------------
  // Grid shape and placement

  /** `len(data) // W + 1`: every row that holds a byte plus one more. */
  function RowCount(n: nat, w: nat): nat
    requires w >= 1
  {
    n / w + 1
  }

  /** The cell (row, column) byte `i` is written to. */
  function Placement(i: nat, w: nat): (nat, nat)
    requires w >= 1
  {
    (i / w, i % w)
  }

  /** The byte index a cell stands for, read row-major. */
  function CellIndex(r: nat, c: nat, w: nat): nat {
    r * w + c
  }

  /** Every byte lands inside the table, at the cell that stands for it. */
  lemma PlacementInGrid(i: nat, n: nat, w: nat)
    requires w >= 1 && i < n
    ensures Placement(i, w).0 < RowCount(n, w) && Placement(i, w).1 < w
    ensures CellIndex(Placement(i, w).0, Placement(i, w).1, w) == i
  {
    DivIsMonotone(i, n, w);
  }

  lemma DivIsMonotone(i: nat, n: nat, w: nat)
    requires w >= 1 && i <= n
    ensures i / w <= n / w
  {
    DivMod(i, w);
    DivMod(n, w);
    if i / w > n / w {
      MulAtLeast(i / w - n / w, w);
    }
  }

  lemma MulAtLeast(a: int, w: int)
    requires a >= 1 && w >= 0
    ensures a * w >= w
  {
  }

  /** A cell of the table stands for exactly one byte index, and back. */
  lemma CellIndexPlacement(r: nat, c: nat, w: nat)
    requires c < w
    ensures Placement(CellIndex(r, c, w), w) == (r, c)
  {
    DivModOfCell(r * w + c, r, c, w);
  }

  lemma DivModOfCell(i: int, r: int, c: int, w: int)
    requires 0 <= c < w && 0 <= r && i == r * w + c
    ensures i / w == r && i % w == c
  {
    DivMod(i, w);
    var q := i / w;
    if q > r {
      MulAtLeast(q - r, w);
    } else if q < r {
      MulAtLeast(r - q, w);
    }
  }

  /** Byte i is placed at (r, c) exactly when (r, c) stands for byte i. */
  lemma PlacementIsCellIndex(i: nat, w: nat, r: nat, c: nat)
    requires c < w
    ensures Placement(i, w) == (r, c) <==> CellIndex(r, c, w) == i
  {
    CellIndexPlacement(r, c, w);
    DivMod(i, w);
  }

  /** Distinct byte indices occupy distinct cells. */
  lemma PlacementInjective(i: nat, j: nat, w: nat)
    requires w >= 1 && Placement(i, w) == Placement(j, w)
    ensures i == j
  {
    DivMod(i, w);
    DivMod(j, w);
  }

  /** The first byte index of line k: k steps of W from 0. */
  function LineStart(k: nat, w: nat): nat {
    if k == 0 then 0 else LineStart(k - 1, w) + w
  }

  /** Line k starts at byte k W. */
  lemma {:induction false} LineStartIsProduct(k: nat, w: nat)
    ensures LineStart(k, w) == k * w
  {
    if k > 0 {
      LineStartIsProduct(k - 1, w);
      MulPred(k, w);
    }
  }

  lemma MulIsMonotone(a: int, b: int, w: int)
    requires a <= b && w >= 0
    ensures a * w <= b * w
  {
    if a < b {
      MulAtLeast(b - a, w);
    }
  }

  lemma MulPred(m: int, w: int)
    ensures (m - 1) * w + w == m * w
  {
  }

  function Min(a: int, b: int): int {
    if a <= b then a else b
  }

  lemma SliceSplit<T>(s: seq<T>, a: nat, b: nat)
    requires a <= b <= |s|
    ensures s[..a] + s[a..b] == s[..b]
  {
  }

  /** Appending the element at b to the slice [a, b) gives the slice [a, b]. */
  lemma SliceExtend<T>(s: seq<T>, a: nat, b: nat)
    requires a <= b < |s|
    ensures s[a..b] + [s[b]] == s[a..b + 1]
  {
  }

  lemma AppendAssoc<T>(a: seq<T>, b: seq<T>, c: seq<T>)
    ensures (a + b) + c == a + (b + c)
  {
  }

  lemma DivMod(i: int, w: int)
    requires 0 <= i && 1 <= w
    ensures i == (i / w) * w + i % w && 0 <= i % w < w && 0 <= i / w
  {
  }

  /** Walking the bytes in order walks the cells row-major: right, then to the next row. */
  lemma NextPlacement(i: nat, w: nat)
    requires w >= 1
    ensures Placement(i + 1, w) == if i % w == w - 1 then (i / w + 1, 0) else (i / w, i % w + 1)
  {
    DivMod(i, w);
    if i % w == w - 1 {
      DivModOfCell(i + 1, i / w + 1, 0, w);
    } else {
      DivModOfCell(i + 1, i / w, i % w + 1, w);
    }
  }

  /** The table always has room for one cell past the last byte; when W divides N its last row is empty. */
  lemma TrailingRow(n: nat, w: nat)
    requires w >= 1
    ensures n < RowCount(n, w) * w
    ensures n % w == 0 ==> n <= (RowCount(n, w) - 1) * w
  {
    DivMod(n, w);
    assert RowCount(n, w) * w == (n / w) * w + w;
  }

  // ---------------------------------------------------------------------------
  // Header labels

  /** `[hex(x)[2:].upper() for x in range(W)]`. */
  function ColumnLabels(w: nat): seq<string> {
    seq(w, c requires 0 <= c < w => Upper(Hex(c)))
  }

  /** Column header `c` is upper-case and reads back as `c`, so the headers are distinct. */
  lemma ColumnLabelNamesColumn(w: nat, c: nat)
    requires c < w
    ensures AllHex(ColumnLabels(w)[c]) && HexValue(ColumnLabels(w)[c]) == c
    ensures Upper(ColumnLabels(w)[c]) == ColumnLabels(w)[c]
  {
    HexRoundTrip(c);
    CaseChangeKeepsValue(Hex(c));
    UpperIsIdempotent(Hex(c));
  }

  /** `hex(r*W)` and `hex(r*W+W-1)`, each zero-padded to two digits, joined by "-". */
  function RangeLabel(r: nat, w: nat): string
    requires w >= 1
  {
    Pad2(Hex(r * w)) + "-" + Pad2(Hex(r * w + w - 1))
  }

  /** The unpadded range label `add_byte` writes. */
  function ShortRangeLabel(r: nat, w: nat): string
    requires w >= 1
  {
    Hex(r * w) + "-" + Hex(r * w + w - 1)
  }

  /** Row labels of `open_file`: ranges when W > 1, else upper-case offsets for rowCount + 1 rows. */
  function LoadRowLabels(n: nat, w: nat): seq<string>
    requires w >= 1
  {
    if w > 1 then seq(RowCount(n, w), r requires 0 <= r => RangeLabel(r, w))
    else seq(RowCount(n, w) + 1, x requires 0 <= x => Upper(Hex(x)))
  }

  /** Row labels of the full rebuild in `update_data`: ranges when W > 1, else lower-case offsets for N + 1 rows. */
  function UpdateRowLabels(n: nat, w: nat): seq<string>
    requires w >= 1
  {
    if w > 1 then seq(RowCount(n, w), r requires 0 <= r => RangeLabel(r, w))
    else seq(n + 1, x requires 0 <= x => Hex(x))
  }

  /** Row labels of `add_byte` for a table of `rows` rows: unpadded ranges, or offsets for rows + 1 rows. */
  function AddRowLabels(rows: nat, w: nat): seq<string>
    requires w >= 1
  {
    if w > 1 then seq(rows, r requires 0 <= r => ShortRangeLabel(r, w))
    else seq(rows + 1, x requires 0 <= x => Hex(x))
  }

  /** The position of the first "-" in `s` (|s| when there is none). */
  function DashIndex(s: string): (k: nat)
    ensures k <= |s|
  {
    if |s| == 0 then 0 else if s[0] == '-' then 0 else 1 + DashIndex(s[1..])
  }

  /** A string of digits holds no "-", so the first dash of a range label follows its first offset. */
  lemma {:induction false} DashAfterDigits(x: string, y: string)
    requires AllHex(x)
    ensures DashIndex(x + "-" + y) == |x|
  {
    if |x| > 0 {
      assert IsHexDigit(x[0]);
      assert (x + "-" + y)[1..] == x[1..] + "-" + y;
      DashAfterDigits(x[1..], y);
    }
  }

  /** A range label splits into two digit strings at exactly one place. */
  lemma SplitAtDash(x: string, y: string, a: string, b: string)
    requires AllHex(x) && AllHex(a) && x + "-" + y == a + "-" + b
    ensures x == a && y == b
  {
    var s := x + "-" + y;
    DashAfterDigits(x, y);
    DashAfterDigits(a, b);
    assert x == s[..|x|] == a;
    assert y == s[|x| + 1..] == b;
  }

  /** Any split of row `r`'s label into two digit strings gives the first and the last offset of the row. */
  lemma RangeLabelDecodes(r: nat, w: nat, a: string, b: string)
    requires w >= 1 && AllHex(a) && AllHex(b) && RangeLabel(r, w) == a + "-" + b
    ensures HexValue(a) == r * w && HexValue(b) == r * w + w - 1
  {
    HexRoundTrip(r * w);
    HexRoundTrip(r * w + w - 1);
    Pad2KeepsValue(Hex(r * w));
    Pad2KeepsValue(Hex(r * w + w - 1));
    SplitAtDash(Pad2(Hex(r * w)), Pad2(Hex(r * w + w - 1)), a, b);
  }

  /** The same holds of the unpadded labels of `add_byte`: padding only changes how a row is named, not which. */
  lemma ShortRangeLabelDecodes(r: nat, w: nat, a: string, b: string)
    requires w >= 1 && AllHex(a) && AllHex(b) && ShortRangeLabel(r, w) == a + "-" + b
    ensures HexValue(a) == r * w && HexValue(b) == r * w + w - 1
  {
    HexRoundTrip(r * w);
    HexRoundTrip(r * w + w - 1);
    SplitAtDash(Hex(r * w), Hex(r * w + w - 1), a, b);
  }

  /** With W == 1 the load path's labels are the update path's in upper case: they name the same offsets. */
  lemma OffsetLabelsAgree(n: nat, x: nat)
    requires x <= n
    ensures LoadRowLabels(n, 1)[x] == Upper(UpdateRowLabels(n, 1)[x])
    ensures Lower(LoadRowLabels(n, 1)[x]) == UpdateRowLabels(n, 1)[x]
    ensures AllHex(LoadRowLabels(n, 1)[x]) && HexValue(LoadRowLabels(n, 1)[x]) == x
  {
    var h := Hex(x);
    HexRoundTrip(x);
    assert LoadRowLabels(n, 1)[x] == Upper(h);
    assert UpdateRowLabels(n, 1)[x] == h;
    CaseChangeKeepsValue(h);
    assert Lower(Upper(h)) == h by {
      forall k | 0 <= k < |h| ensures Lower(Upper(h))[k] == h[k] {
        assert Upper(h)[k] == UpperChar(h[k]);
        assert Lower(h)[k] == LowerChar(h[k]) == h[k];
        LowerOfUpper(h[k]);
      }
    }
  }

  // ---------------------------------------------------------------------------
  // Header tint (color_item)

  datatype Tint = Header | Body

  /** `color_item`'s test `0 <= byte <= end`. */
  function TintOf(i: int, end: int): Tint {
    if 0 <= i <= end then Header else Body
  }

  /** A file type missing from the registry (end = -1) tints every byte as body. */
  lemma UnknownTypeIsBody(i: int)
    ensures TintOf(i, -1) == Body
  {
  }

  /** The header is a prefix: a header byte is preceded only by header bytes. */
  lemma HeaderIsPrefix(i: nat, j: nat, end: int)
    requires i <= j && TintOf(j, end) == Header
    ensures TintOf(i, end) == Header
  {
  }

  /** The number of header bytes among the first n. */
  function HeaderBytes(n: nat, end: int): nat {
    if n == 0 then 0 else HeaderBytes(n - 1, end) + (if TintOf(n - 1, end) == Header then 1 else 0)
  }

  /** Exactly the first end + 1 bytes are header (all of them when the file is shorter, none when end < 0). */
  lemma {:induction false} HeaderByteCount(n: nat, end: int)
    ensures HeaderBytes(n, end) == if end < 0 then 0 else if n <= end + 1 then n else end + 1
  {
    if n > 0 {
      HeaderByteCount(n - 1, end);
    }
  }
}

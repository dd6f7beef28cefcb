/**
 * The preview list beside the table: one line per chunk of W bytes, made of
 * the row label and the glyph of each byte, joined by tabs.
 */
module Preview {
  import opened HexCodec
  import opened Layout

  // ---------------------------------------------------------------------------
  // Joining and splitting on a separator

  /** `sep.join(parts)`. */
  function Join(sep: char, parts: seq<string>): string {
    if |parts| == 0 then ""
    else if |parts| == 1 then parts[0]
    else parts[0] + [sep] + Join(sep, parts[1..])
  }

  /** `s.split(sep)`: the pieces between separators, at least one. */
  function Split(sep: char, s: string): (parts: seq<string>)
    ensures |parts| >= 1
  {
    if |s| == 0 then [""]
    else if s[0] == sep then [""] + Split(sep, s[1..])
    else
      var rest := Split(sep, s[1..]);
      [[s[0]] + rest[0]] + rest[1..]
  }

  /** Text without a separator sticks to the first piece of what follows it. */
  lemma {:induction false} SplitAfterText(sep: char, p: string, t: string)
    requires sep !in p
    ensures Split(sep, p + t) == [p + Split(sep, t)[0]] + Split(sep, t)[1..]
  {
    if |p| > 0 {
      assert (p + t)[0] == p[0] && (p + t)[1..] == p[1..] + t;
      SplitAfterText(sep, p[1..], t);
      assert [p[0]] + (p[1..] + Split(sep, t)[0]) == p + Split(sep, t)[0];
    } else {
      var r := Split(sep, t);
      assert p + t == t && p + r[0] == r[0];
      assert r == [r[0]] + r[1..];
    }
  }

  /** Splitting a join gives the parts back when no part holds the separator. */
  lemma {:induction false} SplitJoin(sep: char, parts: seq<string>)
    requires |parts| >= 1
    requires forall k :: 0 <= k < |parts| ==> sep !in parts[k]
    ensures Split(sep, Join(sep, parts)) == parts
  {
    var p := parts[0];
    if |parts| == 1 {
      SplitAfterText(sep, p, "");
      assert p + "" == p;
    } else {
      var rest := Join(sep, parts[1..]);
      SplitJoin(sep, parts[1..]);
      assert p + [sep] + rest == p + ([sep] + rest);
      assert ([sep] + rest)[1..] == rest;
      SplitAfterText(sep, p, [sep] + rest);
      assert p + "" == p;
    }
  }

  // ---------------------------------------------------------------------------
  // Preview lines

  /** The number of chunks of at most W bytes that N bytes fill: one per W bytes, one more for a remainder. */
  function LineCount(n: nat, w: nat): nat
    requires w >= 1
  {
    if n == 0 then 0 else if n <= w then 1 else 1 + LineCount(n - w, w)
  }

  /** Bytes kW .. min(N, (k+1)W) - 1. */
  function Chunk(data: seq<Byte>, w: nat, k: nat): seq<Byte> {
    data[Min(k * w, |data|)..Min(k * w + w, |data|)]
  }

  /** The label that starts line k: row k's range when W > 1, else the byte's own offset `hex(byte)`. */
  function LineLabel(w: nat, k: nat): string
    requires w >= 1
  {
    if w > 1 then RangeLabel(k, w) else Hex(k)
  }

  /** One single-character field per byte of the chunk. */
  function GlyphFields(chunk: seq<Byte>): seq<string> {
    seq(|chunk|, j requires 0 <= j < |chunk| => [Glyph(chunk[j])])
  }

  /** A heading followed by a tab and the glyph of each byte of the chunk, in order. */
  function Line(heading: string, chunk: seq<Byte>): string {
    if |chunk| == 0 then heading
    else Line(heading, chunk[..|chunk| - 1]) + ['\t', Glyph(chunk[|chunk| - 1])]
  }

  /** Joining one more part adds the separator and the part at the end. */
  lemma {:induction false} JoinSnoc(sep: char, parts: seq<string>, x: string)
    requires |parts| >= 1
    ensures Join(sep, parts + [x]) == Join(sep, parts) + [sep] + x
  {
    if |parts| == 1 {
      assert (parts + [x])[1..] == [x];
    } else {
      assert (parts + [x])[1..] == parts[1..] + [x];
      JoinSnoc(sep, parts[1..], x);
    }
  }

  /** A line is `"\t".join([heading] + glyphs)`. */
  lemma {:induction false} LineIsJoin(heading: string, chunk: seq<Byte>)
    ensures Line(heading, chunk) == Join('\t', [heading] + GlyphFields(chunk))
  {
    if |chunk| > 0 {
      var m := |chunk| - 1;
      LineIsJoin(heading, chunk[..m]);
      assert [heading] + GlyphFields(chunk) == ([heading] + GlyphFields(chunk[..m])) + [[Glyph(chunk[m])]];
      JoinSnoc('\t', [heading] + GlyphFields(chunk[..m]), [Glyph(chunk[m])]);
    }
  }

  /** The preview line of chunk k: its label and glyphs, tab-joined. */
  function PreviewLine(data: seq<Byte>, w: nat, k: nat): string
    requires w >= 1
  {
    Line(LineLabel(w, k), Chunk(data, w, k))
  }

  /** The first m lines of the preview list. */
  function PreviewLines(data: seq<Byte>, w: nat, m: nat): (p: seq<string>)
    requires w >= 1
    ensures |p| == m
  {
    if m == 0 then [] else PreviewLines(data, w, m - 1) + [PreviewLine(data, w, m - 1)]
  }

  /** The whole preview list: one line per chunk. */
  function PreviewOf(data: seq<Byte>, w: nat): seq<string>
    requires w >= 1
  {
    PreviewLines(data, w, LineCount(|data|, w))
  }

  /** Line k of the list is the line of chunk k. */
  lemma {:induction false} PreviewLineAt(data: seq<Byte>, w: nat, m: nat, k: nat)
    requires w >= 1 && k < m
    ensures PreviewLines(data, w, m)[k] == PreviewLine(data, w, k)
  {
    if k < m - 1 {
      PreviewLineAt(data, w, m - 1, k);
    }
  }

  /** The line count is the ceiling of N / W: W-byte chunks that together hold the N bytes and no more. */
  lemma {:induction false} LineCountIsCeiling(n: nat, w: nat)
    requires w >= 1
    ensures n <= LineCount(n, w) * w
    ensures n > 0 ==> (LineCount(n, w) - 1) * w < n
    ensures n == 0 ==> LineCount(n, w) == 0
    ensures n > 0 ==> LineCount(n, w) == (n - 1) / w + 1
  {
    if n > w {
      LineCountIsCeiling(n - w, w);
      MulPred(LineCount(n - w, w) + 1, w);
      DivMod(n - w - 1, w);
      DivModOfCell(n - 1, (n - w - 1) / w + 1, (n - w - 1) % w, w);
    } else if n > 0 {
      DivModOfCell(n - 1, 0, n - 1, w);
      MulAtLeast(1, w);
    }
  }

  /** Line k shows min(W, N - kW) glyphs: exactly W for all but the last line. */
  lemma ChunkLength(data: seq<Byte>, w: nat, k: nat)
    requires w >= 1 && k < LineCount(|data|, w)
    ensures 1 <= |Chunk(data, w, k)| <= w
    ensures k + 1 < LineCount(|data|, w) ==> |Chunk(data, w, k)| == w
  {
    var n := |data|;
    LineCountIsCeiling(n, w);
    var m := LineCount(n, w);
    MulIsMonotone(k, m - 1, w);
    if k + 1 < m {
      MulIsMonotone(k + 1, m - 1, w);
      MulPred(k + 1, w);
    }
  }

  /** The chunks of the first m lines. */
  function Chunks(data: seq<Byte>, w: nat, m: nat): (cs: seq<seq<Byte>>)
    ensures |cs| == m
  {
    seq(m, k requires 0 <= k < m => Chunk(data, w, k))
  }

  /** Read in order, the chunks of the first m lines are the first min(mW, N) bytes. */
  lemma {:induction false} ChunksInOrder(data: seq<Byte>, w: nat, m: nat)
    requires w >= 1
    ensures Concat(Chunks(data, w, m)) == data[..Min(m * w, |data|)]
  {
    if m > 0 {
      ChunksInOrder(data, w, m - 1);
      ChunksSnoc(data, w, m);
      ChunkBounds(data, w, m);
      PrefixThenSlice(Concat(Chunks(data, w, m)), Concat(Chunks(data, w, m - 1)), Chunk(data, w, m - 1),
                      data, Min((m - 1) * w, |data|), Min(m * w, |data|));
    }
  }

  /** A prefix of s followed by the slice that continues it is a longer prefix of s. */
  lemma PrefixThenSlice<T>(whole: seq<T>, init: seq<T>, part: seq<T>, s: seq<T>, lo: int, hi: int)
    requires 0 <= lo <= hi <= |s|
    requires whole == init + part && init == s[..lo] && part == s[lo..hi]
    ensures whole == s[..hi]
  {
    SliceSplit(s, lo, hi);
  }

  /** The chunks of m lines, read in order, are those of m - 1 lines followed by chunk m - 1. */
  lemma ChunksSnoc(data: seq<Byte>, w: nat, m: nat)
    requires m > 0
    ensures Concat(Chunks(data, w, m)) == Concat(Chunks(data, w, m - 1)) + Chunk(data, w, m - 1)
  {
    assert Chunks(data, w, m)[..m - 1] == Chunks(data, w, m - 1);
  }

  /** Chunk m - 1 ends where the first m lines end. */
  lemma ChunkBounds(data: seq<Byte>, w: nat, m: nat)
    requires m > 0
    ensures 0 <= Min((m - 1) * w, |data|) <= Min(m * w, |data|) <= |data|
    ensures Chunk(data, w, m - 1) == data[Min((m - 1) * w, |data|)..Min(m * w, |data|)]
  {
    MulPred(m, w);
  }

  function Concat<T>(parts: seq<seq<T>>): seq<T> {
    if |parts| == 0 then [] else Concat(parts[..|parts| - 1]) + parts[|parts| - 1]
  }

  /** The preview shows every byte exactly once: its chunks, in order, are the data. */
  lemma PreviewCoversData(data: seq<Byte>, w: nat)
    requires w >= 1
    ensures Concat(Chunks(data, w, LineCount(|data|, w))) == data
  {
    LineCountIsCeiling(|data|, w);
    ChunksInOrder(data, w, LineCount(|data|, w));
    assert data[..|data|] == data;
  }

  lemma NoTabInDigits(s: string)
    requires AllHex(s)
    ensures '\t' !in s
  {
    forall k | 0 <= k < |s| ensures s[k] != '\t' {
      assert IsHexDigit(s[k]);
    }
  }

  /** No label holds a tab. */
  lemma NoTabInLabel(w: nat, k: nat)
    requires w >= 1
    ensures '\t' !in LineLabel(w, k)
  {
    if w > 1 {
      HexRoundTrip(k * w);
      HexRoundTrip(k * w + w - 1);
      Pad2KeepsValue(Hex(k * w));
      Pad2KeepsValue(Hex(k * w + w - 1));
      NoTabInDigits(Pad2(Hex(k * w)));
      NoTabInDigits(Pad2(Hex(k * w + w - 1)));
    } else {
      HexRoundTrip(k);
      NoTabInDigits(Hex(k));
    }
  }

  /**
   * Splitting line k at its tabs gives back its label and one glyph per byte of chunk k:
   * the preview line can be read back field by field.
   */
  lemma PreviewLineFields(data: seq<Byte>, w: nat, k: nat)
    requires w >= 1
    ensures Split('\t', PreviewLine(data, w, k)) == [LineLabel(w, k)] + GlyphFields(Chunk(data, w, k))
  {
    var parts := [LineLabel(w, k)] + GlyphFields(Chunk(data, w, k));
    LineIsJoin(LineLabel(w, k), Chunk(data, w, k));
    NoTabInLabel(w, k);
    NoTabInGlyphs(Chunk(data, w, k));
    assert forall j :: 0 <= j < |parts| ==> '\t' !in parts[j] by {
      forall j | 0 <= j < |parts| ensures '\t' !in parts[j] {
        if j > 0 { assert parts[j] == GlyphFields(Chunk(data, w, k))[j - 1]; }
      }
    }
    SplitJoin('\t', parts);
  }

  /** No glyph is a tab (a tab is not printable). */
  lemma NoTabInGlyphs(chunk: seq<Byte>)
    ensures forall j :: 0 <= j < |chunk| ==> '\t' !in GlyphFields(chunk)[j]
  {
    forall j | 0 <= j < |chunk| ensures '\t' !in GlyphFields(chunk)[j] {
      assert GlyphFields(chunk)[j] == [Glyph(chunk[j])];
    }
  }

  /** Byte kW + c shows as field c + 1 of line k, after the label. */
  lemma ByteInPreview(data: seq<Byte>, w: nat, k: nat, c: nat)
    requires w >= 1 && c < w && k * w + c < |data|
    ensures k < |PreviewOf(data, w)|
    ensures c + 1 < |Split('\t', PreviewOf(data, w)[k])|
    ensures Split('\t', PreviewOf(data, w)[k])[c + 1] == [Glyph(data[k * w + c])]
  {
    ChunkHoldsByte(data, w, k, c);
    PreviewLineAt(data, w, LineCount(|data|, w), k);
    GlyphField(data, w, k, c);
  }

  /** Field c + 1 of line k is the glyph of the chunk's byte c. */
  lemma GlyphField(data: seq<Byte>, w: nat, k: nat, c: nat)
    requires w >= 1 && c < |Chunk(data, w, k)|
    ensures c + 1 < |Split('\t', PreviewLine(data, w, k))|
    ensures Split('\t', PreviewLine(data, w, k))[c + 1] == [Glyph(Chunk(data, w, k)[c])]
  {
    PreviewLineFields(data, w, k);
    assert GlyphFields(Chunk(data, w, k))[c] == [Glyph(Chunk(data, w, k)[c])];
  }

  /** Byte kW + c belongs to line k, as its byte c. */
  lemma ChunkHoldsByte(data: seq<Byte>, w: nat, k: nat, c: nat)
    requires w >= 1 && c < w && k * w + c < |data|
    ensures k < LineCount(|data|, w)
    ensures c < |Chunk(data, w, k)| && Chunk(data, w, k)[c] == data[k * w + c]
  {
    var n, b := |data|, k * w;
    var i := b + c;
    DivModOfCell(i, k, c, w);
    assert i / w == k;
    DivIsMonotone(i, n - 1, w);
    assert k <= (n - 1) / w;
    LineCountIsCeiling(n, w);
    assert LineCount(n, w) == (n - 1) / w + 1;
    assert Min(b, n) == b && b + c < Min(b + w, n);
    assert Chunk(data, w, k) == data[b..Min(b + w, n)];
  }
}

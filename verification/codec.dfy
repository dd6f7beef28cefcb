/**
 * The hexadecimal tokens of the hex editor: the digit decoder `hex_to_dec`,
 * the token each byte is rendered as (`hex(b)[2:].rjust(2, "0")`), the cell
 * policy `update_data` applies to the text of a cell, and the glyph map of the
 * preview list.
 */
module HexCodec {
  import opened Optional

  /** A value Python's `bytes` accepts. */
  type Byte = x: int | 0 <= x < 256

  /** The sentinel `update_data` stores for a cell whose text is not a byte token. */
  const Sentinel: Byte := 255

  // ---------------------------------------------------------------------------
  // Characters

  /** `str.lower` on one character (only ASCII letters change). */
  function LowerChar(c: char): char {
    if 'A' <= c <= 'Z' then (c as int + 32) as char else c
  }

  /** `str.upper` on one character (only ASCII letters change). */
  function UpperChar(c: char): char {
    if 'a' <= c <= 'z' then (c as int - 32) as char else c
  }

  lemma LowerOfUpper(c: char)
    ensures LowerChar(UpperChar(c)) == LowerChar(c)
  {
  }

  function Lower(s: string): string {
    seq(|s|, i requires 0 <= i < |s| => LowerChar(s[i]))
  }

  function Upper(s: string): string {
    seq(|s|, i requires 0 <= i < |s| => UpperChar(s[i]))
  }

  /** Upper-casing twice is upper-casing once: an upper-cased string has no lower-case letter left. */
  lemma UpperIsIdempotent(s: string)
    ensures Upper(Upper(s)) == Upper(s)
    ensures forall i :: 0 <= i < |s| ==> !('a' <= Upper(s)[i] <= 'z')
  {
    forall i | 0 <= i < |s| ensures Upper(Upper(s))[i] == Upper(s)[i] {
      assert Upper(s)[i] == UpperChar(s[i]);
    }
  }

  function Reversed<T>(s: seq<T>): seq<T> {
    seq(|s|, i requires 0 <= i < |s| => s[|s| - 1 - i])
  }

  /** A key of the digit table of `hex_to_dec`, once lower-cased. */
  predicate IsHexDigit(c: char) {
    var d := LowerChar(c);
    '0' <= d <= '9' || 'a' <= d <= 'f'
  }

  predicate AllHex(s: string) {
    forall i :: 0 <= i < |s| ==> IsHexDigit(s[i])
  }

  /** The value the digit table gives the lower-cased character. */
  function DigitValue(c: char): (v: nat)
    requires IsHexDigit(c)
    ensures v < 16
  {
    var d := LowerChar(c);
    if '0' <= d <= '9' then d as int - '0' as int else d as int - 'a' as int + 10
  }

  /** The digit `hex()` writes for a value below 16. */
  function DigitChar(v: nat): (c: char)
    requires v < 16
    ensures IsHexDigit(c) && DigitValue(c) == v && LowerChar(c) == c
  {
    if v < 10 then ('0' as int + v) as char else ('a' as int + v - 10) as char
  }

  /** Writing the value of a digit gives the digit back, lower-cased. */
  lemma DigitRoundTrip(c: char)
    requires IsHexDigit(c)
    ensures DigitChar(DigitValue(c)) == LowerChar(c)
  {
  }

  // ---------------------------------------------------------------------------
  // hex_to_dec

  function Pow16(k: nat): (p: nat)
    ensures p >= 1
  {
    if k == 0 then 1 else 16 * Pow16(k - 1)
  }

  /**
   * The base-16 value of a string of digits, most significant digit first,
   * either case. Its digits are fewer than |s|, so the value is below 16^|s|.
   */
  function HexValue(s: string): (v: nat)
    requires AllHex(s)
    ensures v < Pow16(|s|)
  {
    if |s| == 0 then 0
    else
      var init := s[..|s| - 1];
      assert AllHex(init);
      var w := HexValue(init);
      assert w * 16 <= (Pow16(|init|) - 1) * 16;
      w * 16 + DigitValue(s[|s| - 1])
  }

  lemma AllHexConcat(a: string, b: string)
    requires AllHex(a) && AllHex(b)
    ensures AllHex(a + b)
  {
    forall i | 0 <= i < |a + b| ensures IsHexDigit((a + b)[i]) {
      if i >= |a| { assert (a + b)[i] == b[i - |a|]; }
    }
  }

  /** A digit written in front of `t` weighs 16^|t|. */
  lemma {:induction false} HexValuePrepend(c: char, t: string)
    requires IsHexDigit(c) && AllHex(t)
    ensures AllHex([c] + t)
    ensures HexValue([c] + t) == DigitValue(c) * Pow16(|t|) + HexValue(t)
  {
    AllHexConcat([c], t);
    if |t| > 0 {
      var s, t' := [c] + t, t[..|t| - 1];
      var s' := [c] + t';
      assert AllHex(t');
      assert AllHex(s') by { AllHexConcat([c], t'); }
      HexValuePrepend(c, t');
      assert s[..|s| - 1] == s' && s[|s| - 1] == t[|t| - 1];
      ShiftDigit(DigitValue(c), Pow16(|t'|), HexValue(t'), DigitValue(t[|t| - 1]),
                 HexValue(s), HexValue(s'), HexValue(t), Pow16(|t|));
    }
  }

  /** Lower-casing a character first changes neither whether it is a digit nor its value. */
  lemma LowerDigit(c: char)
    ensures IsHexDigit(LowerChar(c)) == IsHexDigit(c)
    ensures IsHexDigit(c) ==> DigitValue(LowerChar(c)) == DigitValue(c)
  {
  }

  /** One more digit of the suffix read by `hex_to_dec`, at position i from the right, is worth its value times 16^i. */
  lemma SuffixGrows(n: string, i: nat)
    requires i < |n| && AllHex(n[|n| - i..]) && IsHexDigit(n[|n| - 1 - i])
    ensures AllHex(n[|n| - (i + 1)..])
    ensures HexValue(n[|n| - (i + 1)..]) == DigitValue(n[|n| - 1 - i]) * Pow16(i) + HexValue(n[|n| - i..])
  {
    var c, t := n[|n| - 1 - i], n[|n| - i..];
    assert n[|n| - (i + 1)..] == [c] + t;
    HexValuePrepend(c, t);
  }

  lemma ShiftDigit(d: int, p: int, h: int, x: int, vs: int, vs': int, vt: int, pt: int)
    requires vs' == d * p + h && vs == vs' * 16 + x
    requires vt == h * 16 + x && pt == 16 * p
    ensures vs == d * pt + vt
  {
  }

  /** Two strings equal up to letter case have the same value: `hex_to_dec` is case-insensitive. */
  lemma {:induction false} HexValueIgnoresCase(s: string, t: string)
    requires AllHex(s) && |s| == |t|
    requires forall i :: 0 <= i < |s| ==> LowerChar(s[i]) == LowerChar(t[i])
    ensures AllHex(t) && HexValue(s) == HexValue(t)
  {
    assert AllHex(t) by {
      forall i | 0 <= i < |t| ensures IsHexDigit(t[i]) { assert IsHexDigit(s[i]); }
    }
    if |s| > 0 {
      var n := |s| - 1;
      HexValueIgnoresCase(s[..n], t[..n]);
    }
  }

  /** Upper- and lower-casing a digit string keep its value. */
  lemma CaseChangeKeepsValue(s: string)
    requires AllHex(s)
    ensures AllHex(Lower(s)) && HexValue(Lower(s)) == HexValue(s)
    ensures AllHex(Upper(s)) && HexValue(Upper(s)) == HexValue(s)
  {
    HexValueIgnoresCase(s, Lower(s));
    HexValueIgnoresCase(s, Upper(s));
  }

  /** Any token of one or two digits decodes to a byte; the empty string decodes to 0. */
  lemma ShortTokenIsByte(s: string)
    requires AllHex(s) && |s| <= 2
    ensures 0 <= HexValue(s) < 256
    ensures |s| == 0 ==> HexValue(s) == 0
  {
    assert Pow16(2) == 256;
    assert Pow16(|s|) <= 256;
  }

  /** The first loop of `hex_to_dec`: each character lower-cased, in order. */
  method LowerAll(n: string) returns (newN: string)
    ensures newN == Lower(n)
  {
    newN := [];
    for i := 0 to |n|
      invariant newN == Lower(n[..i])
    {
      newN := newN + [LowerChar(n[i])];
    }
    assert n[..|n|] == n;
  }

  /**
   * `hex_to_dec`: lower-cases the characters, reverses them and sums
   * digit * 16^position, least significant first. A character outside the
   * digit table raises KeyError, here `None`.
   */
  method HexToDec(n: string) returns (r: Option<nat>)
    ensures r == if AllHex(n) then Some(HexValue(n)) else None
  {
    var newN := LowerAll(n);
    newN := Reversed(newN);
    var s: nat := 0;
    for i := 0 to |newN|
      invariant AllHex(n[|n| - i..])
      invariant s == HexValue(n[|n| - i..])
    {
      LowerDigit(n[|n| - 1 - i]);
      assert newN[i] == LowerChar(n[|n| - 1 - i]);
      if !IsHexDigit(newN[i]) {
        return None;
      }
      SuffixGrows(n, i);
      s := s + DigitValue(newN[i]) * Pow16(i);
    }
    assert n[|n| - |n|..] == n;
    return Some(s);
  }

  // ---------------------------------------------------------------------------
  // hex() and rjust()

  /** `hex(n)[2:]`: lower-case digits of `n` without leading zeros. */
  function Hex(n: nat): (r: string)
    ensures 1 <= |r|
    ensures |r| == 1 <==> n < 16
    decreases n
  {
    if n < 16 then [DigitChar(n)] else Hex(n / 16) + [DigitChar(n % 16)]
  }

  /**
   * `hex()` writes lower-case digits, with no leading zero, whose value is
   * `n`: `hex_to_dec` reads back what `hex` wrote.
   */
  lemma {:induction false} HexRoundTrip(n: nat)
    ensures AllHex(Hex(n)) && Lower(Hex(n)) == Hex(n)
    ensures HexValue(Hex(n)) == n
    ensures |Hex(n)| > 1 ==> Hex(n)[0] != '0'
    decreases n
  {
    if n >= 16 {
      HexRoundTrip(n / 16);
      AppendDigit(Hex(n / 16), n % 16);
      assert Hex(n)[0] == Hex(n / 16)[0];
    } else {
      AppendDigit("", n);
      assert Hex(n) == "" + [DigitChar(n)];
    }
  }

  /** Writing one more digit keeps a lower-case digit string and multiplies its value by 16 before adding the digit. */
  lemma AppendDigit(s: string, d: nat)
    requires AllHex(s) && Lower(s) == s && d < 16
    ensures AllHex(s + [DigitChar(d)]) && Lower(s + [DigitChar(d)]) == s + [DigitChar(d)]
    ensures HexValue(s + [DigitChar(d)]) == HexValue(s) * 16 + d
  {
    var r := s + [DigitChar(d)];
    AllHexConcat(s, [DigitChar(d)]);
    assert r[..|s|] == s;
    forall i | 0 <= i < |r| ensures Lower(r)[i] == r[i] {
      if i < |s| { assert Lower(s)[i] == s[i]; }
    }
  }

  /** `s.rjust(2, "0")`: pads `s` on the left with zeros up to two characters. */
  function Pad2(s: string): string {
    if |s| >= 2 then s else seq(2 - |s|, _ => '0') + s
  }

  /** Zero padding changes neither the value nor the case. */
  lemma Pad2KeepsValue(s: string)
    requires AllHex(s)
    ensures AllHex(Pad2(s)) && HexValue(Pad2(s)) == HexValue(s)
    ensures |Pad2(s)| == if |s| >= 2 then |s| else 2
    ensures Lower(s) == s ==> Lower(Pad2(s)) == Pad2(s)
  {
    if |s| == 1 {
      assert Pad2(s) == ['0'] + s;
      HexValuePrepend('0', s);
    } else if |s| == 0 {
      assert Pad2(s) == ['0'] + "0";
      HexValuePrepend('0', "0");
    }
  }

  /** The cell text the editor writes for byte `b`. */
  function ByteToken(b: Byte): string {
    Pad2(Hex(b))
  }

  /** Every byte is written as exactly two lower-case digits that decode back to it. */
  lemma ByteTokenRoundTrip(b: Byte)
    ensures |ByteToken(b)| == 2 && AllHex(ByteToken(b))
    ensures Lower(ByteToken(b)) == ByteToken(b)
    ensures HexValue(ByteToken(b)) == b
  {
    var h := Hex(b);
    HexRoundTrip(b);
    if b >= 16 {
      assert |Hex(b / 16)| == 1;
    }
    Pad2KeepsValue(h);
  }

  /** A token of one or two digits, decoded and written again, is the token lower-cased and zero-padded. */
  lemma TokenRoundTrip(s: string)
    requires AllHex(s) && 1 <= |s| <= 2
    ensures HexValue(s) < 256
    ensures ByteToken(HexValue(s)) == Pad2(Lower(s))
  {
    ShortTokenIsByte(s);
    if |s| == 1 {
      OneDigitRoundTrip(s);
    } else {
      TwoDigitRoundTrip(s);
    }
  }

  lemma OneDigitRoundTrip(s: string)
    requires AllHex(s) && |s| == 1
    ensures HexValue(s) < 16 && Hex(HexValue(s)) == Lower(s)
  {
    DigitRoundTrip(s[0]);
    assert HexValue(s) == DigitValue(s[0]);
  }

  lemma TwoDigitRoundTrip(s: string)
    requires AllHex(s) && |s| == 2
    ensures HexValue(s) < 256 && Pad2(Hex(HexValue(s))) == Lower(s)
  {
    ShortTokenIsByte(s);
    TwoDigitValue(s);
    DigitRoundTrip(s[0]);
    DigitRoundTrip(s[1]);
    HexOfDigits(DigitValue(s[0]), DigitValue(s[1]));
    LowerOfTwo(s);
  }

  lemma LowerOfTwo(s: string)
    requires |s| == 2
    ensures Lower(s) == [LowerChar(s[0]), LowerChar(s[1])]
  {
  }

  lemma TwoDigitValue(s: string)
    requires AllHex(s) && |s| == 2
    ensures HexValue(s) == DigitValue(s[0]) * 16 + DigitValue(s[1])
  {
    assert s[..1] == [s[0]] && [s[0]][..0] == [];
    assert HexValue(s[..1]) == DigitValue(s[0]);
  }

  /** Two digits hi, lo print back as themselves once padded. */
  lemma HexOfDigits(hi: nat, lo: nat)
    requires hi < 16 && lo < 16
    ensures Pad2(Hex(hi * 16 + lo)) == [DigitChar(hi), DigitChar(lo)]
  {
    var v := hi * 16 + lo;
    SplitDigits(v, hi, lo);
    if hi == 0 {
      assert v == lo;
      assert Hex(v) == [DigitChar(lo)];
      assert Pad2(Hex(v)) == ['0'] + [DigitChar(lo)];
    } else {
      assert 16 <= v;
      assert Hex(v) == Hex(hi) + [DigitChar(lo)];
      assert Hex(hi) == [DigitChar(hi)];
      assert Pad2(Hex(v)) == Hex(v);
    }
  }

  lemma SplitDigits(v: int, hi: int, lo: int)
    requires v == hi * 16 + lo && 0 <= lo < 16 && 0 <= hi
    ensures v / 16 == hi && v % 16 == lo
  {
  }

  // ---------------------------------------------------------------------------
  // The cell policy of update_data

  /**
   * What `update_data` takes from the text of a present cell: the value of a
   * one- or two-digit token, the sentinel 255 for any other non-empty text,
   * and nothing for the empty text.
   */
  function TokenByte(t: string): (r: Option<Byte>)
    ensures r == None <==> t == ""
    ensures r != Some(Sentinel) ==> r == None || (1 <= |t| <= 2 && AllHex(t) && HexValue(t) == r.value)
    ensures 1 <= |t| <= 2 && AllHex(t) ==> r == Some(HexValue(t))
  {
    if 1 <= |t| <= 2 then
      if AllHex(t) then
        ShortTokenIsByte(t);
        Some(HexValue(t))
      else Some(Sentinel)
    else if t != "" then Some(Sentinel)
    else None
  }

  /** A rendered byte is read back as that byte. */
  lemma TokenByteOfByteToken(b: Byte)
    ensures TokenByte(ByteToken(b)) == Some(b)
  {
    ByteTokenRoundTrip(b);
  }

  /** Malformed tokens (too long, or holding a non-digit) are coerced to 255. */
  lemma MalformedTokenIsSentinel(t: string)
    requires |t| > 2 || (|t| >= 1 && !AllHex(t))
    ensures TokenByte(t) == Some(Sentinel)
  {
  }

  // ---------------------------------------------------------------------------
  // The glyph map of the preview list

  /** The three string pieces the source concatenates into its whitelist, as written. */
  const WhitelistPunctuation: string := " !\"#$%&()*+,-./0123456789:;<=>?@"
  const WhitelistUpper: string := "ABCDEFGHIJKLMNOPQRSTUVWXYZ[\\]^_`"
  const WhitelistLower: string := "abcdefghijklmnopqrstuvwxyz{|}~']))"
  const Whitelist: string := WhitelistPunctuation + WhitelistUpper + WhitelistLower

  /**
   * The preview glyph of a byte: its character when printable ASCII, else ".".
   * `GlyphIsWhitelisted` shows this is the source's whitelist membership test.
   */
  function Glyph(b: Byte): char {
    if 0x20 <= b <= 0x7E then b as char else '.'
  }

  /** The characters with codes lo .. hi-1. */
  function CharRange(lo: nat, hi: nat): (r: string)
    requires lo <= hi < 0xD800
    ensures |r| == hi - lo
    ensures forall i :: 0 <= i < |r| ==> r[i] as int == lo + i
  {
    seq(hi - lo, i requires 0 <= i < hi - lo => (lo + i) as char)
  }

  lemma InCharRange(lo: nat, hi: nat, c: char)
    requires lo <= hi < 0xD800
    ensures c in CharRange(lo, hi) <==> lo <= c as int < hi
  {
    if lo <= c as int < hi {
      assert CharRange(lo, hi)[c as int - lo] == c;
    }
  }

  lemma WhitelistPieces()
    ensures WhitelistPunctuation == CharRange(0x20, 0x27) + CharRange(0x28, 0x41)
    ensures WhitelistUpper == CharRange(0x41, 0x61)
    ensures WhitelistLower == CharRange(0x61, 0x7F) + "'])" + ")"
  {
    PunctuationPiece();
    UpperPiece();
    LowerPiece();
  }

  lemma PunctuationPiece()
    ensures WhitelistPunctuation == CharRange(0x20, 0x27) + CharRange(0x28, 0x41)
  {
    var r := CharRange(0x20, 0x27) + CharRange(0x28, 0x41);
    assert forall i :: 0 <= i < |r| ==> r[i] == WhitelistPunctuation[i];
  }

  lemma UpperPiece()
    ensures WhitelistUpper == CharRange(0x41, 0x61)
  {
  }

  lemma LowerPiece()
    ensures WhitelistLower == CharRange(0x61, 0x7F) + "'])" + ")"
  {
  }

  /** The whitelist, duplicates and all, is exactly printable ASCII (0x20 through 0x7E). */
  lemma WhitelistIsPrintableAscii(c: char)
    ensures c in Whitelist <==> 0x20 <= c as int <= 0x7E
  {
    WhitelistPieces();
    InCharRange(0x20, 0x27, c);
    InCharRange(0x28, 0x41, c);
    InCharRange(0x41, 0x61, c);
    InCharRange(0x61, 0x7F, c);
    assert c in Whitelist <==>
      c in CharRange(0x20, 0x27) || c in CharRange(0x28, 0x41) || c in CharRange(0x41, 0x61)
      || c in CharRange(0x61, 0x7F) || c in "'])";
  }

  /** A byte shows as its own character exactly when the whitelist holds it, otherwise as ".". */
  lemma GlyphIsWhitelisted(b: Byte)
    ensures Glyph(b) == if b as char in Whitelist then b as char else '.'
  {
    WhitelistIsPrintableAscii(b as char);
  }
}

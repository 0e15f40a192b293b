/** The editor's colours and `hexToRGBA`, which turns a `#RRGGBB` string
    into four channels by shifting and masking the parsed integer. */
module Palette {
  import opened Raster

  predicate IsHexDigit(ch: char)
  {
    '0' <= ch <= '9' || 'a' <= ch <= 'f' || 'A' <= ch <= 'F'
  }

  predicate IsHexString(s: string)
  {
    forall i :: 0 <= i < |s| ==> IsHexDigit(s[i])
  }

  function DigitValue(ch: char): (d: nat)
    requires IsHexDigit(ch)
    ensures d < 16
  {
    if '0' <= ch <= '9' then ch as int - '0' as int
    else if 'a' <= ch <= 'f' then ch as int - 'a' as int + 10
    else ch as int - 'A' as int + 10
  }

  /** `parseInt(s, 16)` on a string made only of hex digits: `n` digits give less than `16^n`. */
  function ParseHex(s: string): (r: nat)
    requires IsHexString(s)
    ensures r < Pow16(|s|)
    decreases |s|
  {
    if |s| == 0 then 0 else ParseHex(s[..|s| - 1]) * 16 + DigitValue(s[|s| - 1])
  }

  function Pow16(n: nat): (r: nat)
    ensures r >= 1
  {
    if n == 0 then 1 else 16 * Pow16(n - 1)
  }

  /** The shift-and-mask step of `hexToRGBA`: `[(v>>16)&255, (v>>8)&255, v&255, 255]`.
      The three channels recombine to the value's low 24 bits, so none of them is lost. */
  function Channels(v: nat): (r: Rgba)
    ensures r[3] == 255
    ensures (r[0] as int) * 65536 + (r[1] as int) * 256 + r[2] == v % 16777216
  {
    LowBytes(v);
    [(v / 65536) % 256, (v / 256) % 256, v % 256, 255]
  }

  /** `hexToRGBA`: drop the leading `#`, parse the rest in base 16, split into channels. */
  function HexToRgba(hex: string): (r: Rgba)
    requires |hex| >= 2 && hex[0] == '#' && IsHexString(hex[1..])
    ensures r[3] == 255
  {
    Channels(ParseHex(hex[1..]))
  }

  /** The brush colour `#000080` and the fill colour `#4040A0`. */
  const BrushHex: string := "#000080"
  const FillHex: string := "#4040A0"

  // ---------------------------------------------------------------------
  // Properties

  /** Parsing a concatenation shifts the left part by one hex digit per right digit. */
  lemma {:induction false} ParseHexAppend(a: string, b: string)
    requires IsHexString(a) && IsHexString(b)
    ensures IsHexString(a + b)
    ensures ParseHex(a + b) == ParseHex(a) * Pow16(|b|) + ParseHex(b)
    decreases |b|
  {
    var ab := a + b;
    AppendIsHex(a, b);
    if |b| == 0 {
      assert ab == a;
    } else {
      var b' := b[..|b| - 1];
      assert ab[..|ab| - 1] == a + b';
      assert ab[|ab| - 1] == b[|b| - 1];
      ParseHexAppend(a, b');
      var x: int, p: int, y: int, d: int := ParseHex(a), Pow16(|b'|), ParseHex(b'), DigitValue(b[|b| - 1]);
      assert ParseHex(ab) == (x * p + y) * 16 + d;
      assert ParseHex(b) == y * 16 + d;
      assert Pow16(|b|) == 16 * p;
      PlaceStep(x, p, y, d);
    }
  }

  lemma AppendIsHex(a: string, b: string)
    requires IsHexString(a) && IsHexString(b)
    ensures IsHexString(a + b)
  {
    var ab := a + b;
    forall i | 0 <= i < |ab| ensures IsHexDigit(ab[i]) {
      if i < |a| { assert ab[i] == a[i]; } else { assert ab[i] == b[i - |a|]; }
    }
  }

  /** One more digit on the right: `(x*p + y)*16 + d == x*(16*p) + (y*16 + d)`. */
  lemma PlaceStep(x: int, p: int, y: int, d: int)
    ensures (x * p + y) * 16 + d == x * (16 * p) + (y * 16 + d)
  {
    assert (x * p + y) * 16 == (x * p) * 16 + y * 16;
    Times16Assoc(x, p);
  }

  lemma Times16Assoc(x: int, p: int)
    ensures (x * p) * 16 == x * (16 * p)
  {
  }

  /** Three byte-sized parts packed as `r*65536 + g*256 + b` split back into those parts. */
  lemma ChannelsOfParts(r: nat, g: nat, b: nat)
    requires r < 256 && g < 256 && b < 256
    ensures Channels(r * 65536 + g * 256 + b) == [r, g, b, 255]
  {
    var v := r * 65536 + g * 256 + b;
    DivModUnique(v, 256, r * 256 + g, b);
    DivModUnique(r * 256 + g, 256, r, g);
    DivModUnique(v, 65536, r, g * 256 + b);
  }

  /** For a six-digit `#RRGGBB` string each channel is the value of its digit pair,
      and alpha is 255. */
  lemma HexToRgbaDigitPairs(hex: string)
    requires |hex| == 7 && hex[0] == '#' && IsHexString(hex[1..])
    ensures HexToRgba(hex) == [ParseHex(hex[1..3]), ParseHex(hex[3..5]), ParseHex(hex[5..7]), 255]
  {
    var rr, gg, bb := hex[1..3], hex[3..5], hex[5..7];
    DigitPairsSplit(hex);
    ParseThreePairs(rr, gg, bb);
    assert Pow16(2) == 256;
    ChannelsOfParts(ParseHex(rr), ParseHex(gg), ParseHex(bb));
  }

  /** The six digits after `#` are the three digit pairs, each of hex digits. */
  lemma DigitPairsSplit(hex: string)
    requires |hex| == 7 && IsHexString(hex[1..])
    ensures hex[1..] == hex[1..3] + hex[3..5] + hex[5..7]
    ensures IsHexString(hex[1..3]) && IsHexString(hex[3..5]) && IsHexString(hex[5..7])
  {
    var t := hex[1..];
    assert hex[1..3] == t[0..2] && hex[3..5] == t[2..4] && hex[5..7] == t[4..6];
    SliceIsHex(t, 0, 2);
    SliceIsHex(t, 2, 4);
    SliceIsHex(t, 4, 6);
    assert t == t[0..2] + t[2..4] + t[4..6];
  }

  lemma SliceIsHex(s: string, lo: nat, hi: nat)
    requires IsHexString(s) && lo <= hi <= |s|
    ensures IsHexString(s[lo..hi])
  {
    forall i | 0 <= i < hi - lo ensures IsHexDigit(s[lo..hi][i]) {
      assert s[lo..hi][i] == s[lo + i];
    }
  }

  /** Six digits parse as three base-256 places, one per digit pair. */
  lemma ParseThreePairs(a: string, b: string, c: string)
    requires IsHexString(a) && IsHexString(b) && IsHexString(c) && |b| == 2 && |c| == 2
    ensures IsHexString(a + b + c)
    ensures ParseHex(a + b + c) == ParseHex(a) * 65536 + ParseHex(b) * 256 + ParseHex(c)
  {
    ParseHexAppend(a, b);
    ParseHexAppend(a + b, c);
    assert Pow16(2) == 256;
    var x, y := ParseHex(a), ParseHex(b);
    assert (x * 256 + y) * 256 == x * 65536 + y * 256;
  }

  /** Base-256 digits 2, 1 and 0 of `v` make up `v mod 2^24`. */
  lemma LowBytes(v: nat)
    ensures ((v / 65536) % 256) * 65536 + ((v / 256) % 256) * 256 + v % 256 == v % 16777216
  {
    var q, w := v / 16777216, v % 16777216;
    var hi, lo := w / 65536, w % 65536;
    var mid, low := lo / 256, lo % 256;
    assert v == (q * 256 + hi) * 65536 + lo;
    DivModUnique(v, 65536, q * 256 + hi, lo);
    DivModUnique(q * 256 + hi, 256, q, hi);
    assert v == (q * 65536 + hi * 256 + mid) * 256 + low;
    DivModUnique(v, 256, q * 65536 + hi * 256 + mid, low);
    DivModUnique(q * 65536 + hi * 256 + mid, 256, q * 256 + hi, mid);
  }

  /** Up to 13 digits parse below 2^53, where a double holds every integer exactly, so
      the exact parse is the value `parseInt` returns. */
  lemma ParseHexExactInDouble(s: string)
    requires IsHexString(s) && |s| <= 13
    ensures ParseHex(s) < 0x20_0000_0000_0000
  {
    Pow16Monotone(|s|, 13);
    assert Pow16(13) == 0x10_0000_0000_0000 by {
      assert Pow16(4) == 0x1_0000;
      assert Pow16(8) == 0x1_0000_0000;
      assert Pow16(12) == 0x1_0000_0000_0000;
    }
  }

  lemma {:induction false} Pow16Monotone(m: nat, n: nat)
    requires m <= n
    ensures Pow16(m) <= Pow16(n)
    decreases n
  {
    if m < n {
      Pow16Monotone(m, n - 1);
    }
  }

  /** The fill colour `#4040A0` is (64, 64, 160, 255). */
  lemma FillColorValue()
    ensures HexToRgba(FillHex) == [64, 64, 160, 255]
  {
    HexToRgbaDigitPairs(FillHex);
    assert FillHex[1..3] == "40" && FillHex[3..5] == "40" && FillHex[5..7] == "A0";
  }

  /** The brush colour `#000080` is (0, 0, 128, 255). */
  lemma BrushColorValue()
    ensures HexToRgba(BrushHex) == [0, 0, 128, 255]
  {
    HexToRgbaDigitPairs(BrushHex);
    assert BrushHex[1..3] == "00" && BrushHex[3..5] == "00" && BrushHex[5..7] == "80";
  }
}

/** The raw RGBA pixel layout shared by the canvas, the frames and the
    `.dgm` file: a flat, row-major array of `width*height*4` bytes. */
module Raster {

  /** One channel value, as held by a `Uint8ClampedArray`. */
  type Byte = b: int | 0 <= b < 256

  /** A colour as the editor passes it around: four channels r, g, b, a. */
  type Rgba = s: seq<Byte> | |s| == 4 witness [0, 0, 0, 0]

  /** A grid coordinate; coordinates outside the canvas are representable. */
  datatype Coord = Coord(x: int, y: int)

  const Transparent: Rgba := [0, 0, 0, 0]

  /** Bytes of one frame of a `width` x `height` canvas. */
  function FrameSize(width: nat, height: nat): nat
  {
    width * height * 4
  }

  predicate InBounds(width: nat, height: nat, c: Coord)
  {
    0 <= c.x < width && 0 <= c.y < height
  }

  /** Index of the first (red) byte of pixel `c`: `(y*width+x)*4`. Every pixel starts on a
      four-byte boundary, and a pixel of non-negative coordinates at a non-negative index. */
  function PixelStart(width: nat, c: Coord): (r: int)
    ensures r % 4 == 0
    ensures c.x >= 0 && c.y >= 0 ==> r >= 0
  {
    (c.y * width + c.x) * 4
  }

  /** The pixel that byte `i` belongs to. */
  function CoordOfByte(width: nat, i: nat): Coord
    requires width > 0
  {
    Coord((i / 4) % width, (i / 4) / width)
  }

  /** The four channels of pixel `c`. */
  function ColorAt(s: seq<Byte>, width: nat, height: nat, c: Coord): Rgba
    requires |s| == FrameSize(width, height) && InBounds(width, height, c)
  {
    PixelStartInRange(width, height, c);
    s[PixelStart(width, c)..PixelStart(width, c) + 4]
  }

  /** A blank (fully transparent) frame, as `createImageData` returns it. */
  function BlankFrame(width: nat, height: nat): (r: seq<Byte>)
    ensures |r| == FrameSize(width, height)
    ensures forall i :: 0 <= i < |r| ==> r[i] == 0
  {
    seq(FrameSize(width, height), _ => 0)
  }

  // ---------------------------------------------------------------------
  // Index arithmetic

  /** Euclidean division is unique: `q*w + r` with `0 <= r < w` splits as `q`, `r`. */
  lemma DivModUnique(p: int, w: int, q: int, r: int)
    requires w > 0 && 0 <= r < w && p == q * w + r
    ensures p / w == q && p % w == r
  {
    var q', r' := p / w, p % w;
    assert q' * w + r' == p;
    var d := q' - q;
    assert d * w == r - r' by {
      calc {
        d * w;
        q' * w - q * w;
        (p - r') - (p - r);
      }
    }
    if d >= 1 {
      assert d * w >= w by { MulAtLeast(d, w); }
      assert false;
    } else if d <= -1 {
      assert (-d) * w >= w by { MulAtLeast(-d, w); }
      assert false;
    }
  }

  lemma MulAtLeast(d: int, w: int)
    requires d >= 1 && w >= 0
    ensures d * w >= w
  {
    assert d * w == (d - 1) * w + w;
    assert (d - 1) * w >= 0;
  }

  /** `a <= b` and `k >= 0` give `a*k <= b*k`. */
  lemma MulMonotone(a: int, b: int, k: int)
    requires a <= b && k >= 0
    ensures a * k <= b * k
  {
    assert b * k - a * k == (b - a) * k;
    assert (b - a) * k >= 0;
  }

  /** An in-bounds pixel's four bytes lie inside the buffer. */
  lemma PixelStartInRange(width: nat, height: nat, c: Coord)
    requires InBounds(width, height, c)
    ensures 0 <= PixelStart(width, c)
    ensures PixelStart(width, c) + 4 <= FrameSize(width, height)
    ensures PixelStart(width, c) % 4 == 0
  {
    MulMonotone(c.y, height - 1, width);
    assert (height - 1) * width == height * width - width;
    assert 0 <= c.y * width by { MulMonotone(0, c.y, width); }
  }

  /** Byte `k` of pixel `c` belongs to `c` and is its channel `k`. */
  lemma ByteOfPixel(width: nat, height: nat, c: Coord, k: int)
    requires InBounds(width, height, c) && 0 <= k < 4
    ensures PixelStart(width, c) + k >= 0
    ensures CoordOfByte(width, PixelStart(width, c) + k) == c
    ensures (PixelStart(width, c) + k) % 4 == k
  {
    PixelStartInRange(width, height, c);
    var p := c.y * width + c.x;
    DivModUnique(p * 4 + k, 4, p, k);
    DivModUnique(p, width, c.y, c.x);
  }

  /** Every byte of a frame belongs to an in-bounds pixel starting at `i - i % 4`. */
  lemma PixelOfByte(width: nat, height: nat, i: int)
    requires width > 0 && 0 <= i < FrameSize(width, height)
    ensures InBounds(width, height, CoordOfByte(width, i))
    ensures PixelStart(width, CoordOfByte(width, i)) == i - i % 4
  {
    var p := i / 4;
    assert i == p * 4 + i % 4;
    if p >= width * height {
      MulMonotone(width * height, p, 4);
      assert false;
    }
    var q, r := p / width, p % width;
    assert p == q * width + r;
    if q >= height {
      MulMonotone(height, q, width);
      assert false;
    }
  }

  /** Byte `i` belongs to pixel `c` exactly when it lies in `c`'s four bytes. */
  lemma ByteInPixel(width: nat, height: nat, c: Coord, i: int)
    requires InBounds(width, height, c) && 0 <= i < FrameSize(width, height)
    ensures CoordOfByte(width, i) == c <==> PixelStart(width, c) <= i < PixelStart(width, c) + 4
  {
    PixelOfByte(width, height, i);
    if PixelStart(width, c) <= i < PixelStart(width, c) + 4 {
      ByteOfPixel(width, height, c, i - PixelStart(width, c));
    }
  }

  /** Distinct in-bounds pixels occupy disjoint bytes. */
  lemma PixelsDisjoint(width: nat, height: nat, c: Coord, d: Coord)
    requires InBounds(width, height, c) && InBounds(width, height, d) && c != d
    ensures PixelStart(width, c) + 4 <= PixelStart(width, d) || PixelStart(width, d) + 4 <= PixelStart(width, c)
  {
    var p, q := c.y * width + c.x, d.y * width + d.x;
    if p == q {
      DivModUnique(p, width, c.y, c.x);
      DivModUnique(q, width, d.y, d.x);
    }
  }

  /** The colour of an in-bounds pixel, byte by byte. */
  lemma ColorAtBytes(s: seq<Byte>, width: nat, height: nat, c: Coord)
    requires |s| == FrameSize(width, height) && InBounds(width, height, c)
    ensures 0 <= PixelStart(width, c) && PixelStart(width, c) + 4 <= |s|
    ensures var p := PixelStart(width, c);
      ColorAt(s, width, height, c) == [s[p], s[p + 1], s[p + 2], s[p + 3]]
  {
    PixelStartInRange(width, height, c);
  }

  /** Byte `i` is channel `i % 4` of the pixel it belongs to. */
  lemma ChannelOfByte(s: seq<Byte>, width: nat, height: nat, i: int)
    requires width > 0 && |s| == FrameSize(width, height) && 0 <= i < |s|
    ensures InBounds(width, height, CoordOfByte(width, i))
    ensures s[i] == ColorAt(s, width, height, CoordOfByte(width, i))[i % 4]
  {
    PixelOfByte(width, height, i);
    var c := CoordOfByte(width, i);
    PixelStartInRange(width, height, c);
    var p := PixelStart(width, c);
    assert p + i % 4 == i;
  }
}

/** `drawPixel` and `erasePixel`: overwrite the four bytes of one pixel of the
    canvas, or do nothing when the coordinate is off the canvas. */
module PixelWrites {
  import opened Raster

  /** The buffer after writing `rgba` over pixel (x, y); unchanged when (x, y)
      is outside `[0,width) x [0,height)`. */
  function WritePixel(s: seq<Byte>, width: nat, height: nat, x: int, y: int, rgba: Rgba): (r: seq<Byte>)
    requires |s| == FrameSize(width, height)
    ensures |r| == |s|
  {
    var c := Coord(x, y);
    if !InBounds(width, height, c) then s
    else
      PixelStartInRange(width, height, c);
      var p := PixelStart(width, c);
      s[..p] + rgba + s[p + 4..]
  }

  /** Writes `rgba` into `data[pos..pos+4]`, one channel at a time. */
  method WriteRgba(data: array<Byte>, pos: nat, rgba: Rgba)
    requires pos + 4 <= data.Length
    modifies data
    ensures data[..] == old(data[..])[..pos] + rgba + old(data[..])[pos + 4..]
  {
    for i := 0 to 4
      invariant forall k :: 0 <= k < data.Length ==>
                  data[k] == if pos <= k < pos + i then rgba[k - pos] else old(data[k])
    {
      data[pos + i] := rgba[i];
    }
    assert data[..] == old(data[..])[..pos] + rgba + old(data[..])[pos + 4..];
  }

  /** `drawPixel(x, y, rgba)` on the canvas bytes. */
  method DrawPixel(data: array<Byte>, width: nat, height: nat, x: int, y: int, rgba: Rgba)
    requires data.Length == FrameSize(width, height)
    modifies data
    ensures data[..] == WritePixel(old(data[..]), width, height, x, y, rgba)
  {
    if x < 0 || y < 0 || x >= width || y >= height {
      return;
    }
    PixelStartInRange(width, height, Coord(x, y));
    var idx := (y * width + x) * 4;
    WriteRgba(data, idx, rgba);
  }

  /** `erasePixel(x, y)`: the pixel becomes transparent black (0, 0, 0, 0). */
  method ErasePixel(data: array<Byte>, width: nat, height: nat, x: int, y: int)
    requires data.Length == FrameSize(width, height)
    modifies data
    ensures data[..] == WritePixel(old(data[..]), width, height, x, y, Transparent)
  {
    if x < 0 || y < 0 || x >= width || y >= height {
      return;
    }
    PixelStartInRange(width, height, Coord(x, y));
    var idx := (y * width + x) * 4;
    data[idx] := 0;
    data[idx + 1] := 0;
    data[idx + 2] := 0;
    data[idx + 3] := 0;
    assert data[..] == old(data[..])[..idx] + Transparent + old(data[..])[idx + 4..];
  }

  // ---------------------------------------------------------------------
  // Properties

  /** Byte view: off the canvas nothing changes; on it exactly the four bytes at
      `(y*width+x)*4` take the channels of `rgba` and every other byte is kept. */
  lemma WritePixelBytes(s: seq<Byte>, width: nat, height: nat, x: int, y: int, rgba: Rgba)
    requires |s| == FrameSize(width, height)
    ensures var r := WritePixel(s, width, height, x, y, rgba);
      forall i :: 0 <= i < |s| ==>
        r[i] == if InBounds(width, height, Coord(x, y)) && (y * width + x) * 4 <= i < (y * width + x) * 4 + 4
                then rgba[i - (y * width + x) * 4] else s[i]
  {
    if InBounds(width, height, Coord(x, y)) {
      PixelStartInRange(width, height, Coord(x, y));
    }
  }

  /** Writing a pixel then reading it back gives the colour written. */
  lemma WritePixelReadBack(s: seq<Byte>, width: nat, height: nat, c: Coord, rgba: Rgba)
    requires |s| == FrameSize(width, height) && InBounds(width, height, c)
    ensures ColorAt(WritePixel(s, width, height, c.x, c.y, rgba), width, height, c) == rgba
  {
    PixelStartInRange(width, height, c);
    var r := WritePixel(s, width, height, c.x, c.y, rgba);
    var p := PixelStart(width, c);
    assert r[p..p + 4] == rgba;
  }

  /** Writing one pixel leaves every other pixel's colour as it was. */
  lemma WritePixelKeepsOthers(s: seq<Byte>, width: nat, height: nat, c: Coord, d: Coord, rgba: Rgba)
    requires |s| == FrameSize(width, height)
    requires InBounds(width, height, d) && d != c
    ensures ColorAt(WritePixel(s, width, height, c.x, c.y, rgba), width, height, d) == ColorAt(s, width, height, d)
  {
    PixelStartInRange(width, height, d);
    if InBounds(width, height, c) {
      PixelStartInRange(width, height, c);
      PixelsDisjoint(width, height, c, d);
      var r := WritePixel(s, width, height, c.x, c.y, rgba);
      var p, q := PixelStart(width, c), PixelStart(width, d);
      assert forall i :: q <= i < q + 4 ==> r[i] == s[i];
      assert r[q..q + 4] == s[q..q + 4];
    }
  }
}

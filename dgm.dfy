/** The `.dgm` project file: a six-byte header of three little-endian 16-bit
    numbers (width, height, frame count) followed by the RGBA bytes of every
    frame, frame after frame, each frame row-major. */
module Dgm {
  import opened Raster

  const HeaderSize: nat := 6

  /** `DataView.setUint16(_, v, true)`: the value taken modulo 2^16, low byte first. */
  function U16(v: nat): (r: seq<Byte>)
    ensures |r| == 2 && r[0] as int + 256 * (r[1] as int) == v % 65536
  {
    var lo, hi := v % 256, (v / 256) % 256;
    DivModUnique(v / 256, 256, v / 65536, hi);
    DivModUnique(v, 65536, v / 65536, hi * 256 + lo);
    [lo, hi]
  }

  /** `DataView.getUint16(at, true)`. */
  function ReadU16(b: seq<Byte>, at: nat): (v: nat)
    requires at + 2 <= |b|
    ensures v < 65536
  {
    b[at] as int + 256 * (b[at + 1] as int)
  }

  predicate AllFrameSize(frames: seq<seq<Byte>>, size: nat)
  {
    forall f :: 0 <= f < |frames| ==> |frames[f]| == size
  }

  /** The frames laid end to end, in frame order: the bytes start with frame 0. */
  function Concat(frames: seq<seq<Byte>>): (r: seq<Byte>)
    ensures |frames| > 0 ==> frames[0] <= r
  {
    if |frames| == 0 then [] else Concat(frames[..|frames| - 1]) + frames[|frames| - 1]
  }

  /** The bytes the export handler writes for a canvas of `width` x `height` holding `frames`.
      Its header reads back as width, height and frame count, each modulo 2^16. */
  function Encode(width: nat, height: nat, frames: seq<seq<Byte>>): (r: seq<Byte>)
    ensures |r| >= HeaderSize
    ensures ReadU16(r, 0) == width % 65536
    ensures ReadU16(r, 2) == height % 65536
    ensures ReadU16(r, 4) == |frames| % 65536
  {
    var w, h, n := U16(width), U16(height), U16(|frames|);
    var e := w + h + n + Concat(frames);
    assert e[0] == w[0] && e[1] == w[1] && e[2] == h[0] && e[3] == h[1] && e[4] == n[0] && e[5] == n[1];
    e
  }

  /** The first `k` chunks of `size` bytes of `body`: the frames the import loop cuts out,
      the `f`-th starting at offset `f * size`. */
  function Chunks(body: seq<Byte>, size: nat, k: nat): (r: seq<seq<Byte>>)
    requires k * size <= |body|
    ensures |r| == k && AllFrameSize(r, size)
  {
    if k == 0 then []
    else
      assert (k - 1) * size + size == k * size;
      Chunks(body, size, k - 1) + [body[(k - 1) * size..k * size]]
  }

  /** Why an import stops: the header cannot be read, its dimensions differ from the
      canvas, it announces no frames, or the body holds fewer frames than announced
      (`complete` is how many whole frames it does hold). */
  datatype ImportError = ShortHeader | DimensionMismatch | NoFrames | Truncated(count: nat, complete: nat)

  datatype Decoded = Frames(frames: seq<seq<Byte>>) | Failed(error: ImportError)

  /** What the import handler reads out of `b` for a `width` x `height` canvas. */
  function Decode(b: seq<Byte>, width: nat, height: nat): (r: Decoded)
    requires width > 0 && height > 0
    ensures r.Frames? ==> 1 <= |r.frames| < 65536 && AllFrameSize(r.frames, FrameSize(width, height))
    ensures r.Frames? ==> HeaderSize + |r.frames| * FrameSize(width, height) <= |b|
    ensures r.Failed? && r.error.Truncated? ==>
              r.error.complete < r.error.count &&
              HeaderSize + r.error.complete * FrameSize(width, height) <= |b| < HeaderSize + r.error.count * FrameSize(width, height)
    ensures r.Failed? && r.error.Truncated? ==>
              |b| < HeaderSize + (r.error.complete + 1) * FrameSize(width, height)
  {
    if |b| < HeaderSize then Failed(ShortHeader)
    else if ReadU16(b, 0) != width || ReadU16(b, 2) != height then Failed(DimensionMismatch)
    else
      var n, size := ReadU16(b, 4), FrameSize(width, height);
      if n == 0 then Failed(NoFrames)
      else if |b| < HeaderSize + n * size then
        FrameSizePositive(width, height);
        QuotientBelow(|b| - HeaderSize, size, n);
        var k: nat := (|b| - HeaderSize) / size;
        Failed(Truncated(n, k))
      else Frames(Chunks(b[HeaderSize..], size, n))
  }

  lemma FrameSizePositive(width: nat, height: nat)
    requires width > 0 && height > 0
    ensures FrameSize(width, height) > 0
  {
    MulAtLeast(width, height);
  }

  /** Fewer than `n` chunks' worth of bytes hold fewer than `n` whole chunks. */
  lemma QuotientBelow(a: nat, size: nat, n: nat)
    requires size > 0 && a < n * size
    ensures 0 <= a / size < n && (a / size) * size <= a
  {
    var q := a / size;
    assert q * size + a % size == a;
    assert q * size <= a;
    if q >= n {
      MulMonotone(n, q, size);
    }
  }

  /** Writing back a 16-bit number that was read gives the two bytes it was read from. */
  lemma U16OfRead(b: seq<Byte>, at: nat)
    requires at + 2 <= |b|
    ensures U16(ReadU16(b, at)) == b[at..at + 2]
  {
    var v := ReadU16(b, at);
    DivModUnique(v, 256, b[at + 1], b[at]);
  }

  /** `DataView.setUint16(at, v, true)` on the export buffer. */
  method SetUint16(view: array<Byte>, at: nat, v: nat)
    requires at + 2 <= view.Length
    modifies view
    ensures view[..] == old(view[..])[..at] + U16(v) + old(view[..])[at + 2..]
  {
    view[at] := v % 256;
    view[at + 1] := (v / 256) % 256;
  }

  /** The three `setUint16` calls of the export: width, height and frame count. */
  method WriteHeader(view: array<Byte>, width: nat, height: nat, count: nat)
    requires HeaderSize <= view.Length
    modifies view
    ensures view[..HeaderSize] == U16(width) + U16(height) + U16(count)
    ensures view[HeaderSize..] == old(view[HeaderSize..])
  {
    SetUint16(view, 0, width);
    SetUint16(view, 2, height);
    SetUint16(view, 4, count);
  }

  /** The export's inner loop: `setUint8(offset + i, data[i])` for every byte of a frame. */
  method SetBytes(view: array<Byte>, offset: nat, data: seq<Byte>)
    requires offset + |data| <= view.Length
    modifies view
    ensures view[..] == old(view[..])[..offset] + data + old(view[..])[offset + |data|..]
  {
    for i := 0 to |data|
      invariant forall k :: 0 <= k < view.Length ==>
                  view[k] == if offset <= k < offset + i then data[k - offset] else old(view[k])
    {
      view[offset + i] := data[i];
    }
    assert view[..] == old(view[..])[..offset] + data + old(view[..])[offset + |data|..];
  }

  /** The export's frame loop: each frame's bytes in turn at a running offset that starts
      after the header and grows by the frame's length. */
  method SetFrames(view: array<Byte>, frames: seq<seq<Byte>>, size: nat)
    requires AllFrameSize(frames, size) && view.Length == HeaderSize + size * |frames|
    modifies view
    ensures view[..] == old(view[..HeaderSize]) + Concat(frames)
  {
    ConcatLength(frames, size);
    assert view.Length == HeaderSize + |Concat(frames)|;
    ghost var header := view[..HeaderSize];
    var offset := HeaderSize;
    var f := 0;
    while f < |frames|
      invariant f <= |frames|
      invariant offset == HeaderSize + |Concat(frames[..f])| <= view.Length
      invariant view[..offset] == header + Concat(frames[..f])
    {
      var frameData := frames[f];
      ExportPrefix(frames, size, f);
      ghost var before := view[..];
      SetBytes(view, offset, frameData);
      ExportLoopStep(before, view[..], header, frames, f, offset);
      offset := offset + |frameData|;
      f := f + 1;
    }
    assert frames[..f] == frames;
    assert view[..] == view[..offset];
  }

  // ---------------------------------------------------------------------
  // Layout of the exported bytes

  lemma {:induction false} ConcatLength(frames: seq<seq<Byte>>, size: nat)
    requires AllFrameSize(frames, size)
    ensures |Concat(frames)| == |frames| * size
    decreases |frames|
  {
    if |frames| > 0 {
      ConcatLength(frames[..|frames| - 1], size);
      assert (|frames| - 1) * size + size == |frames| * size;
    }
  }

  /** Byte `f*size + i` of the concatenation is byte `i` of frame `f`. */
  lemma {:induction false} ConcatAt(frames: seq<seq<Byte>>, size: nat, f: nat, i: nat)
    requires AllFrameSize(frames, size) && f < |frames| && i < size
    ensures f * size + i < |Concat(frames)|
    ensures Concat(frames)[f * size + i] == frames[f][i]
    decreases |frames|
  {
    var n := |frames|;
    var init := frames[..n - 1];
    ConcatLength(init, size);
    ConcatLength(frames, size);
    MulMonotone(f + 1, n, size);
    if f < n - 1 {
      ConcatAt(init, size, f, i);
      MulMonotone(f + 1, n - 1, size);
    } else {
      assert f * size + i - |Concat(init)| == i;
    }
  }

  /** The export is `6 + width*height*4*frames` bytes long. */
  lemma EncodeLength(width: nat, height: nat, frames: seq<seq<Byte>>)
    requires AllFrameSize(frames, FrameSize(width, height))
    ensures |Encode(width, height, frames)| == HeaderSize + FrameSize(width, height) * |frames|
  {
    ConcatLength(frames, FrameSize(width, height));
  }

  /** Byte `6 + f*width*height*4 + i` of the export is byte `i` of frame `f`. */
  lemma EncodeLayout(width: nat, height: nat, frames: seq<seq<Byte>>, f: nat, i: nat)
    requires AllFrameSize(frames, FrameSize(width, height))
    requires f < |frames| && i < FrameSize(width, height)
    ensures HeaderSize + f * FrameSize(width, height) + i < |Encode(width, height, frames)|
    ensures Encode(width, height, frames)[HeaderSize + f * FrameSize(width, height) + i] == frames[f][i]
  {
    var size := FrameSize(width, height);
    ConcatAt(frames, size, f, i);
    var header := U16(width) + U16(height) + U16(|frames|);
    IndexAfterPrefix(header, Concat(frames), f * size + i);
  }

  /** Index `|a| + j` of `a + c` is index `j` of `c`. */
  lemma IndexAfterPrefix(a: seq<Byte>, c: seq<Byte>, j: nat)
    requires j < |c|
    ensures |a| + j < |a + c| && (a + c)[|a| + j] == c[j]
  {
  }

  /** Frame `f` ends where the concatenation of frames `0..f` ends, within the whole. */
  lemma ExportPrefix(frames: seq<seq<Byte>>, size: nat, f: nat)
    requires AllFrameSize(frames, size) && f < |frames|
    ensures |Concat(frames[..f])| + |frames[f]| == |Concat(frames[..f + 1])| <= |Concat(frames)|
  {
    assert frames[..f + 1][..f] == frames[..f];
    ConcatLength(frames[..f + 1], size);
    ConcatLength(frames, size);
    MulMonotone(f + 1, |frames|, size);
  }

  /** After the export loop writes frame `f` at `offset`, the buffer up to its end holds
      the header and frames `0..f`. */
  lemma ExportLoopStep(before: seq<Byte>, after: seq<Byte>, header: seq<Byte>, frames: seq<seq<Byte>>,
                       f: nat, offset: nat)
    requires f < |frames| && offset + |frames[f]| <= |before|
    requires before[..offset] == header + Concat(frames[..f])
    requires after == before[..offset] + frames[f] + before[offset + |frames[f]|..]
    ensures after[..offset + |frames[f]|] == header + Concat(frames[..f + 1])
  {
    assert frames[..f + 1][..f] == frames[..f];
    assert after[..offset + |frames[f]|] == before[..offset] + frames[f];
  }

  // ---------------------------------------------------------------------
  // Import against export

  /** Cutting the concatenation of equal-size frames back into chunks gives the frames,
      whatever follows them. */
  lemma {:induction false} ChunksOfConcat(frames: seq<seq<Byte>>, size: nat, rest: seq<Byte>)
    requires AllFrameSize(frames, size)
    ensures |frames| * size <= |Concat(frames) + rest|
    ensures Chunks(Concat(frames) + rest, size, |frames|) == frames
    decreases |frames|
  {
    ConcatLength(frames, size);
    var n := |frames|;
    if n > 0 {
      var init, last := frames[..n - 1], frames[n - 1];
      assert Concat(frames) + rest == Concat(init) + (last + rest);
      ChunksOfConcat(init, size, last + rest);
      ConcatLength(init, size);
      var body := Concat(frames) + rest;
      assert (n - 1) * size + size == n * size;
      assert body[(n - 1) * size..n * size] == last;
      assert frames == init + [last];
    }
  }

  /** The other direction: the chunks laid end to end are the bytes they were cut from. */
  lemma {:induction false} ConcatOfChunks(body: seq<Byte>, size: nat, k: nat)
    requires k * size <= |body|
    ensures Concat(Chunks(body, size, k)) == body[..k * size]
    decreases k
  {
    if k > 0 {
      assert (k - 1) * size + size == k * size;
      var c := Chunks(body, size, k);
      assert c[..k - 1] == Chunks(body, size, k - 1);
      ConcatOfChunks(body, size, k - 1);
      assert body[..k * size] == body[..(k - 1) * size] + body[(k - 1) * size..k * size];
    }
  }

  /** Import round trip: reading an export of a canvas of the same size gives back every
      frame byte for byte, provided width, height and frame count fit in 16 bits. */
  lemma DecodeEncode(width: nat, height: nat, frames: seq<seq<Byte>>)
    requires 0 < width < 65536 && 0 < height < 65536 && 0 < |frames| < 65536
    requires AllFrameSize(frames, FrameSize(width, height))
    ensures Decode(Encode(width, height, frames), width, height) == Frames(frames)
  {
    var e := Encode(width, height, frames);
    EncodeLength(width, height, frames);
    assert e[HeaderSize..] == Concat(frames) + [];
    ChunksOfConcat(frames, FrameSize(width, height), []);
  }

  /** Whatever the import accepts is an export followed by bytes it ignores. */
  lemma EncodeDecode(b: seq<Byte>, width: nat, height: nat)
    requires width > 0 && height > 0 && Decode(b, width, height).Frames?
    ensures var fr := Decode(b, width, height).frames;
      Encode(width, height, fr) == b[..HeaderSize + |fr| * FrameSize(width, height)]
  {
    DecodedFrames(b, width, height);
    ChunksEncode(b, width, height, ReadU16(b, 4));
  }

  /** A header of `width`, `height` and `n` followed by `n` frames is the export of those frames. */
  lemma ChunksEncode(b: seq<Byte>, width: nat, height: nat, n: nat)
    requires HeaderSize <= |b| && ReadU16(b, 0) == width && ReadU16(b, 2) == height && ReadU16(b, 4) == n
    requires HeaderSize + n * FrameSize(width, height) <= |b|
    ensures Encode(width, height, Chunks(b[HeaderSize..], FrameSize(width, height), n)) ==
            b[..HeaderSize + n * FrameSize(width, height)]
  {
    var size := FrameSize(width, height);
    var m := n * size;
    var fr := Chunks(b[HeaderSize..], size, n);
    ConcatOfChunks(b[HeaderSize..], size, n);
    assert Concat(fr) == b[HeaderSize..][..m];
    U16OfRead(b, 0);
    U16OfRead(b, 2);
    U16OfRead(b, 4);
    HeaderAndBody(b, m);
  }

  /** What an accepted input is made of: the header agrees with the canvas and the frames
      are the first `count` chunks after it. */
  lemma DecodedFrames(b: seq<Byte>, width: nat, height: nat)
    requires width > 0 && height > 0 && Decode(b, width, height).Frames?
    ensures HeaderSize <= |b| && ReadU16(b, 0) == width && ReadU16(b, 2) == height
    ensures HeaderSize + ReadU16(b, 4) * FrameSize(width, height) <= |b|
    ensures Decode(b, width, height).frames == Chunks(b[HeaderSize..], FrameSize(width, height), ReadU16(b, 4))
  {
  }

  /** The first `6 + m` bytes split into the three header fields and `m` body bytes. */
  lemma HeaderAndBody(b: seq<Byte>, m: nat)
    requires HeaderSize + m <= |b|
    ensures b[..HeaderSize + m] == b[0..2] + b[2..4] + b[4..6] + b[HeaderSize..][..m]
  {
  }

  /** Bytes after the last announced frame do not change what is read. */
  lemma DecodeIgnoresTrailing(b: seq<Byte>, extra: seq<Byte>, width: nat, height: nat)
    requires width > 0 && height > 0 && Decode(b, width, height).Frames?
    ensures Decode(b + extra, width, height) == Decode(b, width, height)
  {
    var fr := Decode(b, width, height).frames;
    var size := FrameSize(width, height);
    EncodeDecode(b, width, height);
    var e := b[..HeaderSize + |fr| * size];
    assert b + extra == e + (b[HeaderSize + |fr| * size..] + extra);
    assert b == e + b[HeaderSize + |fr| * size..];
    DecodeEncodePrefix(width, height, fr, b[HeaderSize + |fr| * size..] + extra);
    DecodeEncodePrefix(width, height, fr, b[HeaderSize + |fr| * size..]);
  }

  /** An export followed by anything reads back as the exported frames. */
  lemma DecodeEncodePrefix(width: nat, height: nat, frames: seq<seq<Byte>>, rest: seq<Byte>)
    requires 0 < width < 65536 && 0 < height < 65536 && 0 < |frames| < 65536
    requires AllFrameSize(frames, FrameSize(width, height))
    ensures Decode(Encode(width, height, frames) + rest, width, height) == Frames(frames)
  {
    var e := Encode(width, height, frames) + rest;
    EncodeLength(width, height, frames);
    assert e[..6] == Encode(width, height, frames)[..6];
    assert ReadU16(e, 0) == width && ReadU16(e, 2) == height && ReadU16(e, 4) == |frames|;
    assert e[HeaderSize..] == Concat(frames) + rest;
    ChunksOfConcat(frames, FrameSize(width, height), rest);
  }

  /** An export missing its last byte is refused as truncated. */
  lemma DecodeShortExport(width: nat, height: nat, frames: seq<seq<Byte>>)
    requires 0 < width < 65536 && 0 < height < 65536 && 0 < |frames| < 65536
    requires AllFrameSize(frames, FrameSize(width, height))
    ensures var e := Encode(width, height, frames);
      |e| > HeaderSize && Decode(e[..|e| - 1], width, height).Failed? &&
      Decode(e[..|e| - 1], width, height).error == Truncated(|frames|, |frames| - 1)
  {
    var e := Encode(width, height, frames);
    var n := |frames|;
    EncodeLength(width, height, frames);
    MulAtLeast(n, FrameSize(width, height));
    var t := e[..|e| - 1];
    assert t[..6] == e[..6];
    OneByteShort(t, width, height, n);
  }

  /** A header of `width`, `height` and `n` with one byte fewer than `n` frames behind it
      reads as truncated after `n - 1` whole frames. */
  lemma OneByteShort(t: seq<Byte>, width: nat, height: nat, n: nat)
    requires width > 0 && height > 0 && n > 0
    requires |t| == HeaderSize + FrameSize(width, height) * n - 1
    requires |t| >= HeaderSize && ReadU16(t, 0) == width && ReadU16(t, 2) == height && ReadU16(t, 4) == n
    ensures Decode(t, width, height) == Failed(Truncated(n, n - 1))
  {
    var size := FrameSize(width, height);
    FrameSizePositive(width, height);
    assert size * n == (n - 1) * size + size;
    DivModUnique(|t| - HeaderSize, size, n - 1, size - 1);
  }

  /** A canvas 65536 or more pixels wide exports a header that its own import refuses. */
  lemma WideExportNotImportable(width: nat, height: nat, frames: seq<seq<Byte>>)
    requires width >= 65536 && height > 0
    ensures Decode(Encode(width, height, frames), width, height) == Failed(DimensionMismatch)
  {
  }
}

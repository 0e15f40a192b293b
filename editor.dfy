/** The editor's state: the canvas pixels, the frame store (`frames`,
    `totalFrames`, `currentFrame`) and playback, with the handlers that move
    pixels between them and the `.dgm` export and import. */
module Editor {
  import opened Raster
  import opened Playback
  import PixelWrites
  import DotFill
  import Palette
  import Dgm

  /** `totalFrames` when the page loads. */
  const DefaultFrameCount: nat := 10

  /** The tools the tool buttons select. */
  datatype Tool = Brush | Fill | Eraser

  /** The brush and fill colours as `hexToRGBA` turns them into channels. */
  const BrushRgba: Rgba := Palette.HexToRgba(Palette.BrushHex)
  const FillRgba: Rgba := Palette.HexToRgba(Palette.FillHex)

  /** `count` blank frames, as `initFrames` creates them. */
  function BlankFrames(width: nat, height: nat, count: nat): (r: seq<seq<Byte>>)
    ensures |r| == count && Dgm.AllFrameSize(r, FrameSize(width, height))
  {
    seq(count, _ => BlankFrame(width, height))
  }

  class Editor {
    const width: nat
    const height: nat
    /** The canvas pixels, as `getImageData` reads them and `putImageData` writes them. */
    const canvas: array<Byte>
    var frames: seq<seq<Byte>>
    var totalFrames: nat
    var currentFrame: nat
    var playing: bool
    /** `frameIdx` of the running playback timer. */
    var playIndex: nat
    /** The rate the playback timer was last started with. */
    var fps: int

    /** Holds after every handler, even one that stopped half-way: a non-empty canvas and
        one canvas-sized frame per `totalFrames`. */
    ghost predicate Shaped()
      reads this
    {
      width > 0 && height > 0 && canvas.Length == FrameSize(width, height) &&
      |frames| == totalFrames && Dgm.AllFrameSize(frames, FrameSize(width, height))
    }

    /** The state between handlers that ran to the end: the current frame is one of the frames. */
    ghost predicate Valid()
      reads this
    {
      Shaped() && currentFrame < totalFrames
    }

    /** Page load: ten blank frames, frame 0 on the (blank) canvas, no playback. */
    constructor (w: nat, h: nat)
      requires w > 0 && h > 0
      ensures Valid() && fresh(canvas) && width == w && height == h
      ensures totalFrames == DefaultFrameCount && frames == BlankFrames(w, h, DefaultFrameCount)
      ensures currentFrame == 0 && canvas[..] == BlankFrame(w, h) && !playing
    {
      width, height := w, h;
      canvas := new Byte[FrameSize(w, h)](_ => 0);
      frames := [];
      totalFrames := DefaultFrameCount;
      currentFrame := 0;
      playing := false;
      playIndex := 0;
      fps := MinFps;
      new;
      InitFrames();
      LoadFrame(0);
    }

    /** `initFrames`: `totalFrames` blank frames. */
    method InitFrames()
      modifies this`frames
      ensures frames == BlankFrames(width, height, totalFrames)
    {
      frames := [];
      var i := 0;
      while i < totalFrames
        invariant i <= totalFrames
        invariant frames == BlankFrames(width, height, i)
      {
        frames := frames + [BlankFrame(width, height)];
        i := i + 1;
      }
    }

    /** `ctx.putImageData(image, 0, 0)` with an image the size of the canvas. */
    method PutImage(image: seq<Byte>)
      requires |image| == canvas.Length
      modifies canvas
      ensures canvas[..] == image
    {
      forall i | 0 <= i < canvas.Length {
        canvas[i] := image[i];
      }
    }

    /** `loadFrame(i)`: frame `i` becomes the current frame and is shown on the canvas. */
    method LoadFrame(frameIndex: nat)
      requires frameIndex < |frames| && |frames[frameIndex]| == canvas.Length
      modifies this`currentFrame, canvas
      ensures currentFrame == frameIndex && canvas[..] == frames[frameIndex]
      ensures old(Shaped()) ==> Valid()
    {
      currentFrame := frameIndex;
      PutImage(frames[frameIndex]);
    }

    /** `saveFrame`: the canvas is copied into the current frame's slot; no other slot changes. */
    method SaveFrame()
      requires currentFrame < |frames|
      modifies this`frames
      ensures frames == old(frames)[currentFrame := canvas[..]]
      ensures old(Valid()) ==> Valid()
    {
      frames := frames[currentFrame := canvas[..]];
    }

    /** `switchFrame(i)` as written: save the canvas, load frame `i`, then stop a running
        playback. */
    method SwitchFrame(frameIndex: nat)
      requires Valid() && frameIndex < totalFrames
      modifies this`frames, this`currentFrame, this`playing, canvas
      ensures Valid() && !playing
      ensures frames == old(frames)[old(currentFrame) := old(canvas[..])]
      ensures currentFrame == frameIndex && canvas[..] == frames[frameIndex]
    {
      SaveFrame();
      LoadFrame(frameIndex);
      if playing {
        StopAnimation();
      }
    }

    /** `switchFrame(i)` with the playback stopped first, so that the frame on show is not
        saved over the current frame: during playback no frame changes. */
    method SwitchFrameStoppingPlayback(frameIndex: nat)
      requires Valid() && frameIndex < totalFrames
      modifies this`frames, this`currentFrame, this`playing, canvas
      ensures Valid() && !playing
      ensures old(playing) ==> frames == old(frames)
      ensures !old(playing) ==> frames == old(frames)[old(currentFrame) := old(canvas[..])]
      ensures currentFrame == frameIndex && canvas[..] == frames[frameIndex]
    {
      if playing {
        StopAnimation();
        assert frames[currentFrame] == canvas[..];
      }
      SaveFrame();
      LoadFrame(frameIndex);
    }

    /** `startAnimation` without its timer: playback starts at frame 0 at the clamped rate. */
    method StartAnimation(rate: Option<int>)
      modifies this`playing, this`playIndex, this`fps
      ensures playing && playIndex == 0 && fps == ClampFps(rate)
      ensures MinFps <= fps <= MaxFps
    {
      playing := true;
      playIndex := 0;
      fps := ClampFps(rate);
    }

    /** `stopAnimation`: playback stops and the current frame is shown again. */
    method StopAnimation()
      requires Valid()
      modifies this`playing, this`currentFrame, canvas
      ensures Valid() && !playing && currentFrame == old(currentFrame)
      ensures canvas[..] == frames[currentFrame]
    {
      playing := false;
      LoadFrame(currentFrame);
    }

    /** One firing of the playback timer: show frame `frameIdx`, then step the index. When
        the index names no frame, `putImageData` throws before anything changes. */
    method Tick()
      requires Shaped() && playing
      modifies this`playIndex, canvas
      ensures old(playIndex) < totalFrames ==>
                canvas[..] == frames[old(playIndex)] && playIndex == NextFrameIndex(old(playIndex), totalFrames)
      ensures old(playIndex) < totalFrames ==> playIndex < totalFrames
      ensures old(playIndex) >= totalFrames ==> playIndex == old(playIndex) && canvas[..] == old(canvas[..])
    {
      if playIndex < |frames| {
        PutImage(frames[playIndex]);
        playIndex := NextFrameIndex(playIndex, totalFrames);
      }
    }

    /** The new-project button, once confirmed: blank frames, frame 0 shown, playback stopped.
        After a zero-count import the store stays empty and `loadFrame(0)` throws once it has
        set the index. */
    method NewProject()
      requires Shaped()
      modifies this`frames, this`currentFrame, this`playing, canvas
      ensures totalFrames == old(totalFrames) && frames == BlankFrames(width, height, totalFrames)
      ensures currentFrame == 0
      ensures totalFrames > 0 ==> Valid() && !playing && canvas[..] == BlankFrame(width, height)
      ensures totalFrames == 0 ==> Shaped() && playing == old(playing) && canvas[..] == old(canvas[..])
    {
      InitFrames();
      if totalFrames == 0 {
        // `loadFrame(0)` sets the index, then `putImageData(undefined)` throws
        currentFrame := 0;
        return;
      }
      LoadFrame(0);
      if playing {
        StopAnimation();
      }
    }

    /** The tool dispatch of `drawOrFill` at canvas pixel (x, y). */
    method Apply(tool: Tool, x: int, y: int)
      requires Shaped()
      modifies canvas
      ensures canvas[..] == match tool
        case Brush => PixelWrites.WritePixel(old(canvas[..]), width, height, x, y, BrushRgba)
        case Eraser => PixelWrites.WritePixel(old(canvas[..]), width, height, x, y, Transparent)
        case Fill => DotFill.DotFilled(old(canvas[..]), width, height, Coord(x, y), FillRgba)
    {
      match tool
      case Brush => PixelWrites.DrawPixel(canvas, width, height, x, y, BrushRgba);
      case Eraser => PixelWrites.ErasePixel(canvas, width, height, x, y);
      case Fill => { var _ := DotFill.FloodFillDotPattern(canvas, width, height, x, y, FillRgba); }
    }

    /** The `.dgm` export handler: a buffer of `6 + frameSize * totalFrames` bytes, the
        header written with `setUint16`, then every frame's bytes at a running offset. */
    method ExportDgm() returns (out: seq<Byte>)
      requires Shaped()
      ensures out == Dgm.Encode(width, height, frames)
      ensures |out| == Dgm.HeaderSize + FrameSize(width, height) * totalFrames
    {
      var frameSize := width * height * 4;
      assert frameSize == FrameSize(width, height);
      var buffer := new Byte[Dgm.HeaderSize + frameSize * totalFrames];
      Dgm.WriteHeader(buffer, width, height, totalFrames);
      Dgm.SetFrames(buffer, frames, frameSize);
      out := buffer[..];
      Dgm.EncodeLength(width, height, frames);
    }

    /** The import loop: frame `f` is cut out of the bytes at offset `6 + f*frameSize` until
        `totalFrames` frames are read (`ok`), or until the next frame runs past the end of
        the bytes, where `new Uint8ClampedArray` throws a RangeError (`!ok`) after the first
        `complete` frames have been replaced. */
    method ReadFrames(bytes: seq<Byte>) returns (complete: nat, ok: bool)
      requires Shaped() && Dgm.HeaderSize <= |bytes|
      modifies this`frames
      ensures Shaped() && complete <= totalFrames
      ensures Dgm.HeaderSize + complete * FrameSize(width, height) <= |bytes|
      ensures frames == Dgm.Chunks(bytes[Dgm.HeaderSize..], FrameSize(width, height), complete) + old(frames)[complete..]
      ensures ok ==> complete == totalFrames
      ensures !ok ==> complete < totalFrames && (|bytes| - Dgm.HeaderSize) / FrameSize(width, height) == complete &&
                      |bytes| < Dgm.HeaderSize + totalFrames * FrameSize(width, height)
    {
      ghost var base := frames;
      var frameSize := width * height * 4;
      Dgm.FrameSizePositive(width, height);
      var offset: nat := Dgm.HeaderSize;
      var f := 0;
      ReadStart(bytes, frameSize, base);
      while f < totalFrames
        invariant f <= totalFrames && |frames| == totalFrames
        invariant ReadInv(bytes, frameSize, base, frames, f, offset)
      {
        if offset + frameSize > |bytes| {
          ReadStopped(bytes, frameSize, base, frames, f, offset);
          TruncatedAt(bytes, frameSize, f, totalFrames);
          return f, false;
        }
        ReadStep(bytes, frameSize, base, frames, f, offset);
        frames := frames[f := bytes[offset..offset + frameSize]];
        offset := offset + frameSize;
        f := f + 1;
      }
      ReadStopped(bytes, frameSize, base, frames, f, offset);
      return f, true;
    }

    /** The `.dgm` import handler. It reads the header; refuses other dimensions; when the
        frame count differs it adopts it and blanks the store; then cuts the frames out one
        by one, shows frame 0 and stops a running playback. A header past the end of the
        bytes, a frame past the end of the bytes and a count of zero each end in an
        exception, the last two after the store has changed: the error result says which,
        and the state is the one the exception leaves behind. */
    method Import(bytes: seq<Byte>) returns (failure: Option<Dgm.ImportError>)
      requires Shaped()
      modifies this`frames, this`totalFrames, this`currentFrame, this`playing, canvas
      ensures var d := Dgm.Decode(bytes, width, height);
        failure == if d.Frames? then None else Some(d.error)
      ensures var d := Dgm.Decode(bytes, width, height);
        d.Frames? ==> Valid() && frames == d.frames && currentFrame == 0 && canvas[..] == frames[0] && !playing
      ensures var d := Dgm.Decode(bytes, width, height);
        d.Failed? && (d.error.ShortHeader? || d.error.DimensionMismatch?) ==>
          frames == old(frames) && totalFrames == old(totalFrames) && currentFrame == old(currentFrame) &&
          playing == old(playing) && canvas[..] == old(canvas[..])
      ensures var d := Dgm.Decode(bytes, width, height);
        d.Failed? && d.error.NoFrames? ==>
          Shaped() && frames == [] && currentFrame == 0 && playing == old(playing) && canvas[..] == old(canvas[..])
      ensures var d := Dgm.Decode(bytes, width, height);
        d.Failed? && d.error.Truncated? ==>
          Shaped() && totalFrames == d.error.count &&
          frames == Dgm.Chunks(bytes[Dgm.HeaderSize..], FrameSize(width, height), d.error.complete) +
                    (if d.error.count == old(totalFrames) then old(frames)
                     else BlankFrames(width, height, d.error.count))[d.error.complete..] &&
          currentFrame == old(currentFrame) && playing == old(playing) && canvas[..] == old(canvas[..])
    {
      if |bytes| < Dgm.HeaderSize {
        return Some(Dgm.ShortHeader);
      }
      var w := Dgm.ReadU16(bytes, 0);
      var h := Dgm.ReadU16(bytes, 2);
      var framesCount := Dgm.ReadU16(bytes, 4);
      if w != width || h != height {
        return Some(Dgm.DimensionMismatch);
      }
      if framesCount != totalFrames {
        totalFrames := framesCount;
        InitFrames();
      }
      var complete, ok := ReadFrames(bytes);
      if !ok {
        return Some(Dgm.Truncated(framesCount, complete));
      }
      if totalFrames == 0 {
        // `loadFrame(0)` sets the index, then `putImageData(undefined)` throws
        currentFrame := 0;
        return Some(Dgm.NoFrames);
      }
      LoadFrame(0);
      if playing {
        StopAnimation();
      }
      return None;
    }
  }

  /** The import loop's step: frame `f` is the next chunk after the first `f`. */
  lemma ChunksStep(bytes: seq<Byte>, size: nat, f: nat)
    requires Dgm.HeaderSize + f * size + size <= |bytes|
    ensures (f + 1) * size <= |bytes[Dgm.HeaderSize..]|
    ensures Dgm.Chunks(bytes[Dgm.HeaderSize..], size, f + 1) ==
            Dgm.Chunks(bytes[Dgm.HeaderSize..], size, f) +
            [bytes[Dgm.HeaderSize + f * size..Dgm.HeaderSize + f * size + size]]
  {
    var a := f * size;
    assert (f + 1) * size == a + size;
    SliceOfSuffix(bytes, Dgm.HeaderSize, a, a + size);
  }

  /** The import loop's invariant: `f` frames are read, the offset is just past them, and
      the store holds their chunks followed by the untouched rest of the old store. */
  ghost predicate ReadInv(bytes: seq<Byte>, size: nat, base: seq<seq<Byte>>, frames: seq<seq<Byte>>,
                          f: nat, offset: nat)
  {
    f <= |base| && Dgm.HeaderSize + f * size <= |bytes| && offset == Dgm.HeaderSize + f * size &&
    frames == Dgm.Chunks(bytes[Dgm.HeaderSize..], size, f) + base[f..]
  }

  lemma ReadStart(bytes: seq<Byte>, size: nat, base: seq<seq<Byte>>)
    requires Dgm.HeaderSize <= |bytes|
    ensures ReadInv(bytes, size, base, base, 0, Dgm.HeaderSize)
  {
    assert base[0..] == base;
  }

  /** One step of the import loop: writing the next chunk at index `f` extends the chunks
      read so far by one and leaves the rest of the store alone. */
  lemma ReadStep(bytes: seq<Byte>, size: nat, base: seq<seq<Byte>>, frames: seq<seq<Byte>>, f: nat, offset: nat)
    requires ReadInv(bytes, size, base, frames, f, offset) && f < |base| && offset + size <= |bytes|
    ensures f < |frames|
    ensures ReadInv(bytes, size, base, frames[f := bytes[offset..offset + size]], f + 1, offset + size)
  {
    ChunksStep(bytes, size, f);
    var done := Dgm.Chunks(bytes[Dgm.HeaderSize..], size, f);
    var chunk := bytes[offset..offset + size];
    assert |done| == f;
    assert base[f..] == [base[f]] + base[f + 1..];
    assert frames[f := chunk] == done + [chunk] + base[f + 1..];
    assert offset + size == Dgm.HeaderSize + (f + 1) * size;
  }

  /** Wherever the import loop stops, the store has kept its length and frame size. */
  lemma ReadStopped(bytes: seq<Byte>, size: nat, base: seq<seq<Byte>>, frames: seq<seq<Byte>>, f: nat, offset: nat)
    requires ReadInv(bytes, size, base, frames, f, offset) && Dgm.AllFrameSize(base, size)
    ensures Dgm.HeaderSize + f * size <= |bytes| && offset == Dgm.HeaderSize + f * size
    ensures frames == Dgm.Chunks(bytes[Dgm.HeaderSize..], size, f) + base[f..]
    ensures |frames| == |base| && Dgm.AllFrameSize(frames, size)
  {
    var done := Dgm.Chunks(bytes[Dgm.HeaderSize..], size, f);
    assert |done| == f;
    forall k | 0 <= k < |frames| ensures |frames[k]| == size {
      if k >= f { assert frames[k] == base[k]; }
    }
  }

  lemma SliceOfSuffix(b: seq<Byte>, h: nat, lo: nat, hi: nat)
    requires h + hi <= |b| && lo <= hi
    ensures b[h..][lo..hi] == b[h + lo..h + hi]
  {
  }

  /** Where the import loop stops early: the bytes hold `f` whole frames and not `f + 1`. */
  lemma TruncatedAt(bytes: seq<Byte>, size: nat, f: nat, count: nat)
    requires size > 0 && f < count
    requires Dgm.HeaderSize + f * size <= |bytes| < Dgm.HeaderSize + f * size + size
    ensures (|bytes| - Dgm.HeaderSize) / size == f
    ensures |bytes| < Dgm.HeaderSize + count * size
  {
    DivModUnique(|bytes| - Dgm.HeaderSize, size, f, |bytes| - Dgm.HeaderSize - f * size);
    MulMonotone(f + 1, count, size);
  }

  // ---------------------------------------------------------------------
  // Scenarios

  /** Exporting and importing back into the same editor restores every frame and shows
      frame 0, when the dimensions and the frame count fit in 16 bits. */
  method ExportThenImport(ed: Editor)
    requires ed.Valid() && ed.width < 65536 && ed.height < 65536 && ed.totalFrames < 65536
    modifies ed, ed.canvas
    ensures ed.Valid() && ed.frames == old(ed.frames) && ed.totalFrames == old(ed.totalFrames)
    ensures ed.currentFrame == 0 && ed.canvas[..] == ed.frames[0] && !ed.playing
  {
    var bytes := ed.ExportDgm();
    Dgm.DecodeEncode(ed.width, ed.height, ed.frames);
    var failure := ed.Import(bytes);
  }

  /** A truncated import leaves the current index past the end of a shorter store; importing
      a good file afterwards recovers: its frames are loaded and frame 0 is shown. */
  method ImportAfterTruncatedImport(ed: Editor, bad: seq<Byte>, good: seq<Byte>)
    requires ed.Valid()
    requires Dgm.Decode(bad, ed.width, ed.height).Failed? && Dgm.Decode(bad, ed.width, ed.height).error.Truncated?
    requires Dgm.Decode(good, ed.width, ed.height).Frames?
    modifies ed, ed.canvas
    ensures ed.Valid() && ed.frames == Dgm.Decode(good, ed.width, ed.height).frames
    ensures ed.currentFrame == 0 && ed.canvas[..] == ed.frames[0] && !ed.playing
  {
    var first := ed.Import(bad);
    var second := ed.Import(good);
  }

  /** A new project after a truncated import recovers: blank frames of the file's count, frame 0
      shown, playback stopped. */
  method NewProjectAfterTruncatedImport(ed: Editor, bad: seq<Byte>)
    requires ed.Valid()
    requires Dgm.Decode(bad, ed.width, ed.height).Failed? && Dgm.Decode(bad, ed.width, ed.height).error.Truncated?
    modifies ed, ed.canvas
    ensures ed.Valid() && ed.totalFrames == Dgm.Decode(bad, ed.width, ed.height).error.count
    ensures ed.frames == BlankFrames(ed.width, ed.height, ed.totalFrames)
    ensures ed.currentFrame == 0 && ed.canvas[..] == BlankFrame(ed.width, ed.height) && !ed.playing
  {
    var failure := ed.Import(bad);
    ed.NewProject();
  }

  /** As written: a pixel is drawn and saved in frame 0, playback is started and runs on to
      frame 1, then frame 1 is chosen. The canvas, showing the blank frame 1, is saved over
      frame 0 and the drawing is lost. */
  method SwitchDuringPlaybackLosesDrawing() returns (drawn: Rgba, afterSwitch: Rgba)
    ensures drawn == [0, 0, 128, 255] && afterSwitch == Transparent
  {
    var ed := new Editor(1, 1);
    ed.Apply(Brush, 0, 0);
    ed.SaveFrame();
    Palette.BrushColorValue();
    drawn := ColorAt(ed.frames[0], 1, 1, Coord(0, 0));
    ed.StartAnimation(None);
    ed.Tick();
    ed.Tick();
    ed.SwitchFrame(1);
    afterSwitch := ColorAt(ed.frames[0], 1, 1, Coord(0, 0));
  }

  /** Corrected: the same steps with the playback stopped before saving keep the drawing. */
  method SwitchAfterStoppingKeepsDrawing() returns (drawn: Rgba, afterSwitch: Rgba)
    ensures drawn == [0, 0, 128, 255] && afterSwitch == drawn
  {
    var ed := new Editor(1, 1);
    ed.Apply(Brush, 0, 0);
    ed.SaveFrame();
    Palette.BrushColorValue();
    drawn := ColorAt(ed.frames[0], 1, 1, Coord(0, 0));
    ed.StartAnimation(None);
    ed.Tick();
    ed.Tick();
    ed.SwitchFrameStoppingPlayback(1);
    afterSwitch := ColorAt(ed.frames[0], 1, 1, Coord(0, 0));
  }
}

# Digimation core in Dafny

Digimation is a browser raster-animation editor. This project models its data core:

- **the canvas:** a flat, row-major RGBA byte array of `width*height*4` bytes;
- **the drawing tools** that write into the canvas: the brush, the eraser and the dot-pattern flood fill;
- **the frame store:** `frames`, `totalFrames` and `currentFrame`, with the handlers that move pixels between the store and the canvas;
- **playback:** the frame-rate clamp and the index step of the playback timer;
- **the `.dgm` project file:** a six-byte header of three little-endian 16-bit numbers (width, height, frame count), followed by every frame's bytes.

The project has seven modules:

- `Raster` holds the byte layout and its index arithmetic.
- `Palette` holds `hexToRGBA` and the editor's colours.
- `PixelWrites` holds `drawPixel` and `erasePixel`.
- `DotFill` holds `floodFillDotPattern`. It is specified by the ghost function `DotFilled`: the even pixels of the seed's 4-connected same-colour region take the fill colour. That region is taken in the original colours.
- `Playback` holds `clampFPS` and the timer step.
- `Dgm` holds the file format: `Encode` and `Decode` as functions, and the export's `DataView` writes as methods on an array.
- `Editor` holds the class `Editor`. Its fields are the canvas array and the frame store. Its methods are the handlers.

The canvas is an `array` that the handlers update in place. The frames are values (`seq<seq<Byte>>`), because the handlers only ever replace whole frames.

## Model

| member | source | states |
|---|---|---|
| Raster.PixelStart | script.js:98 | `(y*width+x)*4` is a multiple of 4, and is non-negative for non-negative coordinates |
| Raster.BlankFrame | script.js:35 | `createImageData` gives `width*height*4` bytes, all zero |
| Raster.PixelStartInRange | script.js:98 | for an on-canvas pixel, `(y*width+x)*4` is a multiple of 4 and all four bytes lie inside the buffer |
| Raster.PixelsDisjoint | script.js:152 | distinct on-canvas pixels own disjoint four-byte ranges |
| Raster.ByteInPixel | script.js:152 | a byte belongs to pixel `c` exactly when it lies in `c`'s four bytes |
| Palette.DigitValue | script.js:70 | a hexadecimal digit is worth less than 16 |
| Palette.ParseHexAppend | script.js:70 | base-16 parsing of `a + b` is `parse(a) * 16^|b| + parse(b)` |
| Palette.ParseHex | script.js:70 | base-16 parsing of `n` hexadecimal digits gives less than `16^n` |
| Palette.ParseHexExactInDouble | script.js:70 | up to 13 digits parse below 2^53, the range in which the double `parseInt` returns is the exact value |
| Palette.HexToRgba | script.js:69-75 | alpha is always 255 and every channel is a byte |
| Palette.HexToRgbaDigitPairs | script.js:69-75 | for `#RRGGBB`, the channels are the values of the digit pairs RR, GG and BB, then 255 |
| Palette.Channels | script.js:71-74 | alpha is 255, and the three shifted and masked channels recombine to the parsed value modulo 2^24, so no bit below 24 is lost |
| Palette.BrushColorValue | script.js:8 | the brush colour `#000080` is (0, 0, 128, 255) |
| Palette.FillColorValue | script.js:9 | the fill colour `#4040A0` is (64, 64, 160, 255) |
| PixelWrites.WritePixel | script.js:95-103 | writing a pixel keeps the buffer's length |
| PixelWrites.WriteRgba | script.js:99-101 | the four bytes at `pos` become the colour and no other byte changes |
| PixelWrites.DrawPixel | script.js:95-103 | the canvas becomes `WritePixel` of the old canvas with the brush colour |
| PixelWrites.ErasePixel | script.js:105-114 | the canvas becomes `WritePixel` of the old canvas with (0, 0, 0, 0) |
| PixelWrites.WritePixelBytes | script.js:95-114 | off the canvas nothing changes; on it exactly the bytes `(y*width+x)*4 .. +3` take `rgba[0..3]`, and every other byte is kept |
| PixelWrites.WritePixelReadBack | script.js:98-101 | reading a written pixel back gives the colour written |
| PixelWrites.WritePixelKeepsOthers | script.js:98-101 | every other pixel keeps its colour |
| DotFill.Neighbours | script.js:162-165 | four coordinates are pushed, each one row or column step from the popped pixel |
| DotFill.NeighboursAreAdjacent | script.js:162-165 | the pushed coordinates are exactly the pixels one row or column step away, none of them twice |
| DotFill.DotFilled | script.js:116-169 | the specification of the fill keeps the buffer's length, and a seed off the canvas changes nothing |
| DotFill.MatchColor | script.js:124-129 | true exactly when the four bytes at `pos` equal the target colour |
| DotFill.FloodFillDotPattern | script.js:116-169 | the canvas becomes `DotFilled` of the original canvas, and at most `4*width*height + 1` coordinates are ever pushed |
| DotFill.UnvisitedPixelIsOriginal | script.js:147-153 | while the loop runs, a pixel not yet visited still holds its original colour when the fill compares it |
| DotFill.ClosedVisitedCoversRegion | script.js:144-166 | when the stack is empty, the visited set covers the seed's region and the buffer equals `DotFilled` |
| DotFill.FillDone | script.js:144-166 | at loop exit the buffer is `DotFilled`, and at most `width*height` pixels pushed neighbours |
| DotFill.SeedOfFillColorIsNoOp | script.js:131-139 | a seed that already has the fill colour leaves the buffer unchanged |
| DotFill.RegionContainsSeed | script.js:141 | an on-canvas seed belongs to its own region |
| DotFill.RegionHasSeedColor | script.js:150-153 | every region pixel is on the canvas and has the seed's original colour |
| DotFill.DotFilledPixel | script.js:141-166 | an on-canvas pixel has the fill colour when it is in the seed's region and `x+y` is even; otherwise it keeps its original colour |
| DotFill.DotFilledChannel | script.js:156-160 | the same statement, byte by byte |
| DotFill.DotFillIdempotent | script.js:116-169 | a second fill from the same seed with the same colour changes nothing |
| DotFill.NeighbourParity | script.js:162-165 | a step to a 4-neighbour flips the parity of `x+y` |
| DotFill.NeighbourOfOddSeed | script.js:156-165 | after a fill from an odd seed, no on-canvas neighbour of the seed keeps the seed's colour |
| DotFill.RegionOfIsolatedSeed | script.js:153-165 | if no on-canvas neighbour shares the seed's colour, the region is the seed alone |
| DotFill.UniformCanvasIsOneRegion | script.js:162-165 | on a one-colour canvas every pixel is reachable from the seed |
| DotFill.UniformCanvasFillIsCheckerboard | script.js:141-166 | filling a one-colour canvas gives an exact checkerboard |
| DotFill.FillBlankCanvas | script.js:156-160 | filling a blank frame paints exactly the even pixels, at any canvas size |
| DotFill.FillDoesNotCrossDiagonal | script.js:162-165 | connectivity is 4-way: a same-coloured pixel touching only diagonally is not filled |
| Playback.ClampFps | script.js:229-233 | the result lies in [1, 15] and is the input itself when the input lies in [1, 15] |
| Playback.NextFrameIndex | script.js:217-218 | the next index is `i + 1` or 0, and lies below `totalFrames` |
| Playback.IndexAfter | script.js:213-218 | after any number of ticks from frame 0 the index names a frame |
| Playback.IndexAfterCycles | script.js:213-218 | after `k` ticks from frame 0 the index is `k mod totalFrames` |
| Dgm.U16 | script.js:301-303 | `setUint16(_, v, true)` writes two bytes, low byte first, worth `v mod 65536` |
| Dgm.ReadU16 | script.js:336-338 | a little-endian 16-bit read is below 65536 |
| Dgm.SetUint16 | script.js:301 | exactly the two bytes at `at` become `U16(v)` |
| Dgm.WriteHeader | script.js:300-303 | the first six bytes are width, height and frame count as 16-bit little-endian values, and every byte from offset 6 on keeps its value |
| Dgm.SetBytes | script.js:309-311 | a frame's bytes are copied to `offset..offset+length`, and the rest of the buffer is unchanged |
| Dgm.SetFrames | script.js:306-313 | after the header, the buffer holds the frames' bytes back to back, with the offset growing by each frame's length |
| Dgm.Concat | script.js:306-313 | the frames' bytes laid end to end start with frame 0 |
| Dgm.ConcatLength | script.js:297 | `n` frames of `size` bytes concatenate to `n*size` bytes |
| Dgm.ConcatAt | script.js:306-313 | byte `f*size + i` of the concatenation is byte `i` of frame `f` |
| Dgm.EncodeLength | script.js:297 | an export is `6 + width*height*4*totalFrames` bytes long |
| Dgm.Encode | script.js:294-313 | the export's bytes 0-1, 2-3 and 4-5 read back as width, height and frame count, each modulo 65536 |
| Dgm.EncodeLayout | script.js:306-313 | byte `6 + f*width*height*4 + i` of the export is byte `i` of frame `f` |
| Dgm.Chunks | script.js:352-358 | cutting `k` chunks gives `k` frames of the frame size |
| Dgm.Decode | script.js:336-358 | an accepted file holds 1 to 65535 frames of the canvas's frame size, all inside the bytes; a truncated file names the count and the number of whole frames present: fewer than announced, and no further whole frame fits |
| Dgm.ChunksOfConcat | script.js:352-358 | cutting a concatenation back into chunks gives the frames, whatever follows them |
| Dgm.ConcatOfChunks | script.js:352-358 | concatenating the first `k` chunks gives the first `k*size` bytes |
| Dgm.DecodeEncode | script.js:294-358 | when the dimensions and the frame count fit in 16 bits, reading an export gives back its frames |
| Dgm.DecodeEncodePrefix | script.js:352-358 | the same holds when any bytes follow the export |
| Dgm.EncodeDecode | script.js:336-358 | every accepted file is an export of the frames read, followed by bytes that are ignored |
| Dgm.ChunksEncode | script.js:335-358 | a header naming the canvas size and `n`, followed by `n` frames, is byte for byte the export of those frames |
| Dgm.DecodeIgnoresTrailing | script.js:352-358 | bytes after the last announced frame do not change what is read |
| Dgm.DecodeShortExport | script.js:354 | an export missing its last byte is refused as truncated, after `count - 1` whole frames |
| Dgm.OneByteShort | script.js:335-358 | a matching header announcing `n` frames with one byte fewer than `n` frames behind it reads as truncated after `n - 1` frames |
| Dgm.WideExportNotImportable | script.js:336-343 | a canvas 65536 or more pixels wide exports a header its own import rejects as a dimension mismatch |
| Editor.BlankFrames | script.js:32-37 | `count` frames, each of the canvas's frame size |
| Editor.Editor.constructor | script.js:12-38 | at page load there are ten blank frames, frame 0 is current and shown, and no playback runs |
| Editor.Editor.InitFrames | script.js:32-37 | the store becomes `totalFrames` blank frames |
| Editor.Editor.PutImage | script.js:55 | the canvas becomes the image |
| Editor.Editor.LoadFrame | script.js:53-56 | frame `i` becomes current and the canvas shows it |
| Editor.Editor.SaveFrame | script.js:58-60 | the current slot takes the canvas, and no other slot changes |
| Editor.Editor.SwitchFrame | script.js:62-66 | as written: the old canvas is saved into the old current slot, then frame `i` is current and shown, and playback is stopped |
| Editor.Editor.SwitchFrameStoppingPlayback | script.js:62-66 | corrected: during playback no frame changes; otherwise as `SwitchFrame` |
| Editor.Editor.StartAnimation | script.js:210-214 | playback runs from index 0 at the clamped rate |
| Editor.Editor.StopAnimation | script.js:222-227 | playback stops, and the current frame is shown again |
| Editor.Editor.Tick | script.js:215-218 | a tick shows frame `frameIdx` and steps the index, which stays below `totalFrames` |
| Editor.Editor.NewProject | script.js:193-199 | the store is blanked, frame 0 is current and shown, and playback is stopped, also from the state a truncated import leaves; after a zero-count import the store stays empty and `currentFrame` becomes 0 while the canvas and playback are unchanged (`loadFrame(0)` throws) |
| Editor.Editor.Apply | script.js:86-92 | brush, eraser and fill give `WritePixel` with the brush colour, `WritePixel` with transparent, and `DotFilled` with the fill colour |
| Editor.Editor.ExportDgm | script.js:294-313 | the export handler's buffer is exactly `Encode(width, height, frames)`, of length `6 + frameSize*totalFrames` |
| Editor.Editor.ReadFrames | script.js:352-358 | the first `complete` frames are the chunks after the header and the rest are unchanged; the loop stops early exactly when the bytes hold fewer than `totalFrames` whole frames |
| Editor.Editor.Import | script.js:333-361 | see the note after this table; it runs from any well-shaped state, including the ones its own failures leave |
| Editor.ExportThenImport | script.js:294-361 | exporting and importing into the same editor keeps every frame and shows frame 0 |
| Editor.ImportAfterTruncatedImport | script.js:333-361 | after a truncated import, importing a good file loads its frames and shows frame 0 |
| Editor.NewProjectAfterTruncatedImport | script.js:193-199 | after a truncated import, a new project gives blank frames of the file's count, shows frame 0 and stops playback |
| Editor.SwitchDuringPlaybackLosesDrawing | script.js:62-66 | a drawing saved in frame 0 is lost when frame 1 is chosen during playback |
| Editor.SwitchAfterStoppingKeepsDrawing | script.js:62-66 | with playback stopped first, the same steps keep the drawing |

`Editor.Editor.Import` states its result case by case:

- **Accepted file:** the store is the decoded frames, frame 0 is current and shown, and playback is stopped.
- **Short header or dimension mismatch:** nothing changes.
- **Count of zero:** the store is emptied and `currentFrame` is 0, while the canvas and playback are unchanged.
- **Truncated file:** the store holds the whole frames read, followed by the rest of the (possibly re-blanked) old store.

## Left out

- The DOM, the event wiring and the buttons are left out. So are `alert` and `confirm`: `NewProject` models the confirmed case.
- The timer itself (`setInterval` and `clearInterval`) is left out. `Tick` models one firing.
- GIF and MP4 export are left out. They call external libraries.
- File I/O around the codec is left out (`Blob`, download, `FileReader`). The codec works on byte sequences.
- The mouse-to-pixel mapping in `drawOrFill` is left out, because it is floating-point arithmetic. `Apply` takes pixel coordinates.
- `parseInt` of arbitrary text is left out. The rate is an `Option<int>`, with `None` for NaN.
- Palette.HexToRgba: the parse is exact. The source's `parseInt` returns a double, and `>>` and `&` first reduce it to a signed 32-bit integer. The two agree up to 13 digits (`ParseHexExactInDouble`), which covers the six-digit colours the editor uses. From 14 digits on, the double is rounded and the source can give other channels: for `#FFFFFFFFFFFFFF` it gives (0, 0, 0, 255), while the model gives (255, 255, 255, 255).
- Canvas width and height are taken to be positive. A zero-size canvas has no pixels and no frames to draw in.
- The `mouseup` and `mouseleave` handlers only call `saveFrame`. They are covered by `SaveFrame`.
- DotFill.FloodFillDotPattern: for an off-canvas seed, the source takes its target colour from `data.slice(pos, pos + 4)` with `pos = (y*width+x)*4`. A negative `pos` counts from the end of the buffer, and a `pos` near or past the end gives a short or empty slice. The model takes transparent instead. Either way the fill changes nothing, because the popped seed is off the canvas.
- Editor.Editor.LoadFrame: requires an existing slot. For a missing slot, `frames[i]` is `undefined`, and `putImageData` throws after `currentFrame` has already been set. The model does not cover that call. `Tick` models its missing-slot case as a no-op.
- Editor.Editor.SaveFrame: requires `currentFrame` to name a slot. A truncated import or a zero-frame import can leave `currentFrame` at or past `totalFrames`. From there the source's `frames[currentFrame] = …` (called on mouseup, mouseleave and by the frame buttons) grows the array with holes. The model has no holes and does not cover that state.
- Editor.Editor.SwitchFrame: requires `Valid()`, so it does not cover the frame buttons after a failed import left `currentFrame` past the end. In the source such a button first saves into a new slot past the end, then shows frame `i`.
- Editor.Editor.StopAnimation: requires `Valid()`. After a failed import with playback running, the source clears `playing` and then throws in `loadFrame`; the model does not cover that state.
- Editor.Editor.SwitchFrameStoppingPlayback: it corrects the frame buttons only. The `mouseup` and `mouseleave` handlers (script.js:177-185) also call `saveFrame` during playback and save the image on show over the current frame in the same way; the model has no corrected handler for them.
- Editor.Editor.Import: frames built on the import buffer share that buffer. The model copies the bytes, so aliasing between frames and the file buffer is not captured. The thrown exceptions (RangeError, TypeError) are modelled as error results, with the state the exception leaves behind.

## Findings

| source | as written | input that shows it | evidently intended | confidence | as-written member | corrected member |
|---|---|---|---|---|---|---|
| script.js:62-66 | `switchFrame` calls `saveFrame` before stopping playback, so during playback the frame on show is saved over the current frame (the `mouseup` and `mouseleave` handlers at script.js:177-185 save it in the same way) | 1x1 canvas: brush at (0,0), then save; start playback and tick twice (frame 1 on show); choose frame 1. Frame 0 is now transparent | choosing a frame during playback stops playback without overwriting a frame with the playback image | not executed | Editor.SwitchDuringPlaybackLosesDrawing | Editor.Editor.SwitchFrameStoppingPlayback |

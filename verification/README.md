# Pixel-buffer colour reader

This is a Dafny model of `ColorBufferReaderWithPixelBuffer`, from the OpenGL back end of the
GLideN64 graphics plugin. The reader copies a rendered colour buffer back to host
memory through pixel-pack buffer objects (PBOs). The model covers three parts of it:

- **Format choice.** A pixel-size hint picks either the full-colour or the monochrome
  (format, type, bytes-per-pixel) triple. See `PixelFormats`.
- **Row copy.** The GPU read captures rows `realWidth` pixels wide. `readPixels` packs
  `height` rows of `width * bpp` bytes into the scratch buffer `m_pixelData` and drops
  the padding between source rows. See `RowCopy`.
- **Slot rotation.** There is a ring of two PBOs. An async read captures into one slot
  and maps the other, so it returns the previous call's capture. A sync read uses the
  last slot for both the capture and the map. The buffer lifecycle (`_initBuffers`,
  `_destroyBuffers`, `cleanUp`) is modelled as transitions on an immutable `Reader`
  value. See `PixelBufferReader`.

The GPU is abstract state:

- each slot has `textureBytes` of storage, reserved by `_initBuffers`, and may be mapped;
- the framebuffer capture is an input: the `realWidth * height * bpp` bytes the GPU
  read packs (`WriteCapture`) over the start of the slot bound to the pack target;
- mapping a slot (`MapBufferRange`) returns its first bytes, or fails (null);
- `CachedBindBuffer` is reduced to the slot currently bound to `GL_PIXEL_PACK_BUFFER`.

`WriteCapture` and `MapBufferRange` stand for the driver and follow the OpenGL rules
for `glReadPixels` and `glMapBufferRange`:

- a read into a mapped pack buffer, or one longer than the buffer, is refused and writes
  nothing;
- a map fails when the driver fails, when the buffer is already mapped, when the range
  is empty, or when it runs past the buffer.

So the mapping state matters. A caller must `cleanUp` after every read. The runs of
reads in the model do so, and `SyncReadNeedsCleanUp` shows what happens when a caller
does not.

Constants:

- `_numPBO` is 2. The `^ 1` rotation only addresses slots 0 and 1.
- `G_IM_SIZ_8b` is 1, the RDP size code for 8-bit texels.

Files:

- `wrappers.dfy`: `Option`, which stands for a nullable pointer.
- `pixel_formats.dfy`: bytes and the format threshold.
- `row_copy.dfy`: the strided copy, as a recursive reference definition (`StridedCopy`)
  and as the loop of `readPixels` (`CopyRows`) proved equal to it.
- `pixel_buffer_reader.dfy`: the reader's state, its operations, and the lemmas about
  one read, two reads and whole async runs.

## Model

| member | source | states |
|---|---|---|
| PixelFormats.SelectFormatThreshold | src/Graphics/OpenGLContext/opengl_ColorBufferReaderWithPixelBuffer.cpp:53-61 | Sizes above the 8-bit code read with the full-colour triple. All other sizes, including the 8-bit code itself, read with the monochrome triple. |
| PixelFormats.SelectFormatMonotone | src/Graphics/OpenGLContext/opengl_ColorBufferReaderWithPixelBuffer.cpp:53-61 | The choice is a threshold. When the two triples differ: a size that picks full colour means every larger size does too, and a size that picks monochrome means every smaller size does too. |
| RowCopy.RowStartIsProduct | src/Graphics/OpenGLContext/opengl_ColorBufferReaderWithPixelBuffer.cpp:84-85 | The row offset the model accumulates is exactly `lnIndex*widthBytes` or `lnIndex*strideBytes`, as in the `memcpy` arguments. |
| RowCopy.Splice | src/Graphics/OpenGLContext/opengl_ColorBufferReaderWithPixelBuffer.cpp:85 | A `memcpy` of a chunk to offset `at` writes each chunk byte to `at + i`. Every byte outside the destination range is unchanged, and the length is kept. |
| RowCopy.SourceRow | src/Graphics/OpenGLContext/opengl_ColorBufferReaderWithPixelBuffer.cpp:85 | The bytes one `memcpy` reads for row `row`: `widthBytes` bytes, byte `col` being mapped byte `row*strideBytes + col`. |
| RowCopy.StridedCopy | src/Graphics/OpenGLContext/opengl_ColorBufferReaderWithPixelBuffer.cpp:84-86 | The reference definition of the copy after `rows` iterations keeps the scratch buffer's length. Its contents are stated by `StridedCopyPacksRows` and `StridedCopyFrame`. |
| RowCopy.StridedCopyPacksRows | src/Graphics/OpenGLContext/opengl_ColorBufferReaderWithPixelBuffer.cpp:80-86 | After the copy of `rows` rows, `out[row*widthBytes + col] == mapped[row*strideBytes + col]` for every row and every `col < widthBytes`, with both indices in range. The output is tightly packed. |
| RowCopy.StridedCopyFrame | src/Graphics/OpenGLContext/opengl_ColorBufferReaderWithPixelBuffer.cpp:83-86 | The copy writes nothing at or after `rows*widthBytes`: every later scratch byte keeps its old value. |
| RowCopy.SourceReadsInRange | src/Graphics/OpenGLContext/opengl_ColorBufferReaderWithPixelBuffer.cpp:80-85 | For at least one row, every byte the copy reads lies below `rows*strideBytes` exactly when `widthBytes <= strideBytes`, in both directions. |
| RowCopy.SourceReadsInMappedRange | src/Graphics/OpenGLContext/opengl_ColorBufferReaderWithPixelBuffer.cpp:76-85 | Every byte the copy reads lies inside the mapped range of `realWidth*height*bpp` bytes exactly when `width <= realWidth`. This holds for any `bpp > 0` and at least one row. |
| RowCopy.CopyFitsForRead | src/Graphics/OpenGLContext/opengl_ColorBufferReaderWithPixelBuffer.cpp:76-81 | With `width <= realWidth` and a scratch buffer of `height*width*bpp` bytes, the mapped range and the scratch buffer cover every row the copy touches, with `widthBytes = width*bpp` and `strideBytes = realWidth*bpp`. |
| RowCopy.CopyRows | src/Graphics/OpenGLContext/opengl_ColorBufferReaderWithPixelBuffer.cpp:80-86 | The copy loop returns exactly the reference copy `StridedCopy`. Its result is packed row by row from the strided source, and the scratch bytes past the `height` rows are unchanged. |
| PixelBufferReader.Xor1 | src/Graphics/OpenGLContext/opengl_ColorBufferReaderWithPixelBuffer.cpp:66-67 | `i ^ 1` differs from `i` only in the lowest bit. |
| PixelBufferReader.Xor1OnRing | src/Graphics/OpenGLContext/opengl_ColorBufferReaderWithPixelBuffer.cpp:66-67 | On the ring indices 0 and 1, `^ 1` stays in the ring, swaps the two slots and is its own inverse. |
| PixelBufferReader.InitBuffers | src/Graphics/OpenGLContext/opengl_ColorBufferReaderWithPixelBuffer.cpp:35-47 | After init, the handles are the generated ones and the rotation index is 0. Each slot holds `textureBytes` of reserved storage, nothing is mapped, and the pack binding is null. |
| PixelBufferReader.DestroyBuffers | src/Graphics/OpenGLContext/opengl_ColorBufferReaderWithPixelBuffer.cpp:21-33 | Every handle becomes 0, and nothing other than the handles changes. |
| PixelBufferReader.DestroyBuffersIdempotent | src/Graphics/OpenGLContext/opengl_ColorBufferReaderWithPixelBuffer.cpp:31-32 | Destroying twice leaves the same state as destroying once. |
| PixelBufferReader.DestroyBuffersUnbinds | src/Graphics/OpenGLContext/opengl_ColorBufferReaderWithPixelBuffer.cpp:31-32 | Once the handles are 0, the pack binding reads as null, whichever slot was bound. |
| PixelBufferReader.CleanUp | src/Graphics/OpenGLContext/opengl_ColorBufferReaderWithPixelBuffer.cpp:90-94 | Afterwards the bound slot is no longer mapped, no other slot changes its mapping, and the pack binding is null. Nothing else changes. |
| PixelBufferReader.CleanUpAfterRead | src/Graphics/OpenGLContext/opengl_ColorBufferReaderWithPixelBuffer.cpp:90-94 | After a read, `cleanUp` unmaps the slot that read mapped and unbinds it. The mapping state is the one before the read, minus that slot. The storage, the rotation index and the scratch buffer are unchanged. |
| PixelBufferReader.MapAfterCapture | src/Graphics/OpenGLContext/opengl_ColorBufferReaderWithPixelBuffer.cpp:69-76 | Mapping an unmapped buffer straight after a capture returns the captured bytes: a capture and a map of the same length round-trip. |
| PixelBufferReader.MapReservedStorage | src/Graphics/OpenGLContext/opengl_ColorBufferReaderWithPixelBuffer.cpp:44-76 | Mapping storage that no read has written returns the reserved bytes. |
| PixelBufferReader.WriteCapturePrefix | src/Graphics/OpenGLContext/opengl_ColorBufferReaderWithPixelBuffer.cpp:69-73 | After a capture, the first bytes of the buffer, up to the capture's length, are the capture's. |
| PixelBufferReader.CopyOut | src/Graphics/OpenGLContext/opengl_ColorBufferReaderWithPixelBuffer.cpp:80-86 | The copy `readPixels` makes from the mapped bytes, with `widthBytes = width*bpp` and `strideBytes = realWidth*bpp`, keeps the scratch buffer's length. `ReadPixelsPacksRows` states its contents. |
| PixelBufferReader.ReadPixels | src/Graphics/OpenGLContext/opengl_ColorBufferReaderWithPixelBuffer.cpp:49-88 | One read keeps the ring valid and leaves the texture and handles unchanged. A sync read keeps the rotation index and an async read flips it. Only the capture slot's storage can change: the capture is written over its start unless that slot is still mapped. The binding is the mapped slot's handle. The result is null exactly when the driver fails, the map slot is still mapped, or the map length is 0 or exceeds `textureBytes`. Then the scratch buffer and the mapping state are unchanged. Otherwise the result is the scratch buffer and the map slot becomes mapped. |
| PixelBufferReader.ReadPixelsReturnsMappedSlot | src/Graphics/OpenGLContext/opengl_ColorBufferReaderWithPixelBuffer.cpp:65-86 | A read returns the row copy of the first bytes of the slot `MapTarget` names, taken after this read's own capture, or null when that slot cannot be mapped. |
| PixelBufferReader.ReadPixelsPacksRows | src/Graphics/OpenGLContext/opengl_ColorBufferReaderWithPixelBuffer.cpp:76-86 | A non-null result holds `height` packed rows of the mapped slot, with rows `realWidth*bpp` bytes apart in the slot. Scratch bytes past `height*width*bpp` are unchanged. |
| PixelBufferReader.NullOnMapFailure | src/Graphics/OpenGLContext/opengl_ColorBufferReaderWithPixelBuffer.cpp:76-78 | A failed map returns null and copies nothing: the scratch buffer and the mapping state are unchanged. The binding and, into an unmapped slot, the capture have still happened. |
| PixelBufferReader.CaptureAndMapTargets | src/Graphics/OpenGLContext/opengl_ColorBufferReaderWithPixelBuffer.cpp:65-74 | A read maps the slot it captured into exactly when it is sync. |
| PixelBufferReader.SyncReturnsOwnCapture | src/Graphics/OpenGLContext/opengl_ColorBufferReaderWithPixelBuffer.cpp:71-76 | A sync read binds the last slot and keeps the rotation index. When the last slot is not still mapped and the map succeeds, it returns the row copy of its own capture. |
| PixelBufferReader.SyncReadNeedsCleanUp | src/Graphics/OpenGLContext/opengl_ColorBufferReaderWithPixelBuffer.cpp:71-94 | Right after a successful sync read, a second sync read with no `cleanUp` between them returns null and captures nothing. With `cleanUp` in between, the second read returns its own capture. |
| PixelBufferReader.ReadThenCleanUp | src/Graphics/OpenGLContext/opengl_ColorBufferReaderWithPixelBuffer.cpp:49-94 | A read followed by `cleanUp` leaves nothing bound. When nothing was mapped before the read, nothing is mapped after it. It returns the read's pixels. |
| PixelBufferReader.AsyncReturnsPreviousCapture | src/Graphics/OpenGLContext/opengl_ColorBufferReaderWithPixelBuffer.cpp:65-76 | Take two async reads with `cleanUp` between them. The second maps the slot the first captured into, whose first bytes are the first read's capture. It returns the row copy of that capture, one call behind, or null when its map fails. |
| PixelBufferReader.FirstAsyncReadsReservedSlot | src/Graphics/OpenGLContext/opengl_ColorBufferReaderWithPixelBuffer.cpp:35-76 | Init sets the index to 0, so the first async read after init binds and maps slot 0 and captures into slot 1. Slot 0 still holds only the storage reserved at init, and that is what the read returns. |
| PixelBufferReader.SyncOverwritesNextAsync | src/Graphics/OpenGLContext/opengl_ColorBufferReaderWithPixelBuffer.cpp:65-76 | Take an async read that captured into the last slot, then a sync read, each followed by `cleanUp`, all with the same dimensions. The sync read's capture replaces the async one, so the next async read returns the row copy of the sync read's capture. |
| PixelBufferReader.TwoAsyncReadsRestoreIndex | src/Graphics/OpenGLContext/opengl_ColorBufferReaderWithPixelBuffer.cpp:66 | Two async reads bring the rotation index back to its starting value. |
| PixelBufferReader.AsyncReads | src/Graphics/OpenGLContext/opengl_ColorBufferReaderWithPixelBuffer.cpp:65-94 | A run of async reads, each followed by `cleanUp`, yields one result per request. Every state in the run is a valid ring over the same texture, with nothing mapped and a scratch buffer of the same size. |
| PixelBufferReader.AsyncReadsAt | src/Graphics/OpenGLContext/opengl_ColorBufferReaderWithPixelBuffer.cpp:65-94 | The k-th result of a run is a read plus `cleanUp`, applied to the state the previous read left. |
| PixelBufferReader.AsyncReadsOneCallBehind | src/Graphics/OpenGLContext/opengl_ColorBufferReaderWithPixelBuffer.cpp:65-76 | With no sync read in between and `cleanUp` after every read, the k-th async read of a run maps the slot whose first bytes are the (k-1)-th read's capture. It returns the row copy of that capture, or null when its map fails. |

## Left out

- The GL calls behind `FunctionWrapper` are not modelled, and neither is their possible deferral to another thread. They become state updates: generated handles and the framebuffer capture are inputs, and the map step may fail.
- `x0` and `y0` are not modelled: they only choose which framebuffer region is captured, and the capture is an input.
- `gfxContext.getFramebufferTextureFormats()` and the GL enum values are not modelled. The two format triples are a parameter, and formats and types are plain numbers.
- The deduplication inside `CachedBindBuffer` is not modelled; only the slot currently bound to the pack target is kept.
- The intermediate binds in `_initBuffers` (line 43) are not modelled; only the final null binding is.
- `GL_DYNAMIC_READ` and the other usage hints are not modelled.
- The sizing of `m_pixelData` lives in a header that is not part of this model. That the scratch buffer holds `height*width*bpp` bytes is a precondition.
- `_numPBO` and `G_IM_SIZ_8b` are defined in headers that are not part of this model. They are the constants 2 and 1.
- Allocation failure in `glGenBuffers` is not modelled; it is reported by the owning context, not by this file.
- GL deleting a mapped buffer also unmaps it. `DestroyBuffers` does not model this.
- RowCopy.CopyRows: returns a new sequence rather than writing into `m_pixelData` in place; the scratch buffer's old contents are its input.
- PixelBufferReader.ReadPixels: requires `width <= realWidth` and a large enough scratch buffer. The source does not check either. When they fail, it reads past the mapped range or writes past `m_pixelData`, which is undefined behaviour that the model does not describe.
- PixelBufferReader.ReadPixels: models `widthBytes` and `strideBytes` as unbounded naturals. In the source they are signed `int`, so they overflow for widths that no texture reaches.
- PixelBufferReader.FirstAsyncReadsReservedSlot: reads reserved storage as zero bytes. `_initBuffers` passes no data to `glBufferData`, so GL leaves the contents undefined; the model reads them as zero bytes.

/**
 The pixel-buffer colour reader: two pixel-pack buffers ("slots") used as a
 ring so that an asynchronous read returns the frame captured by the previous
 call while the current capture is still in flight.

 The GPU is abstract state. Each slot has `textureBytes` of storage and may be
 mapped; the capture of the framebuffer region is an opaque input that
 `glReadPixels` packs over the start of the bound slot; mapping a slot either
 yields its first bytes or fails (null). The `CachedBindBuffer` is reduced to
 the slot currently bound to the pixel-pack target.
 */
module PixelBufferReader {
  import opened Wrappers
  import opened PixelFormats
  import opened RowCopy

  /** `_numPBO`: the number of pixel-pack buffers in the ring. */
  const NumPbo: nat := 2

  /** `ObjectHandle::null`, also the value a deleted slot handle is reset to. */
  const NullHandle: nat := 0

  /** The part of the cached texture the reader uses. */
  datatype Texture = Texture(realWidth: nat, textureBytes: nat)

  /** The storage `glBufferData` reserves when it is handed no data. GL leaves
      its bytes undefined; here they read as zeros. */
  function ReservedStorage(size: nat): (storage: seq<byte>)
    ensures |storage| == size
  {
    seq(size, _ => 0)
  }

  /** The reader's state: buffer handles (`m_PBO`), each slot's storage and
      whether it is mapped, the rotation index (`m_curIndex`), the slot bound
      to the pixel-pack target (`None` for null), and the scratch buffer
      (`m_pixelData`). */
  datatype Reader = Reader(
    texture: Texture,
    pbo: seq<nat>,
    storage: seq<seq<byte>>,
    mapped: set<nat>,
    curIndex: nat,
    boundSlot: Option<nat>,
    pixelData: seq<byte>)

  /** The ring has `NumPbo` slots of `textureBytes` each and every index into
      it is in range. */
  predicate Valid(r: Reader)
  {
    && |r.pbo| == NumPbo
    && |r.storage| == NumPbo
    && |r.storage[0]| == r.texture.textureBytes
    && |r.storage[1]| == r.texture.textureBytes
    && r.curIndex < NumPbo
    && (r.boundSlot.Some? ==> r.boundSlot.value < NumPbo)
  }

  /** No slot is mapped: the state `_initBuffers` and every `cleanUp` after a
      read leave behind. */
  predicate NoneMapped(r: Reader)
  {
    r.mapped == {}
  }

  /** The handle bound to `GL_PIXEL_PACK_BUFFER`. */
  function PackBinding(r: Reader): (handle: nat)
    requires Valid(r)
  {
    match r.boundSlot
    case None => NullHandle
    case Some(i) => r.pbo[i]
  }

  /** `i ^ 1` on an unsigned index. */
  function Xor1(i: nat): (j: nat)
    ensures j / 2 == i / 2
    ensures j % 2 != i % 2
  {
    if i % 2 == 0 then i + 1 else i - 1
  }

  /** On the ring's indices `^ 1` swaps the two slots and is its own inverse. */
  lemma Xor1OnRing(i: nat)
    requires i < NumPbo
    ensures Xor1(i) < NumPbo
    ensures Xor1(i) == 1 - i
    ensures Xor1(Xor1(i)) == i
  {
  }

  /** `_initBuffers`: the buffers named by `handles` each get `textureBytes`
      of reserved storage, the rotation index starts at 0, nothing is mapped
      and the pixel-pack binding is left null. */
  function InitBuffers(texture: Texture, handles: seq<nat>, pixelData: seq<byte>): (r: Reader)
    requires |handles| == NumPbo
    ensures Valid(r)
    ensures r.pbo == handles && r.texture == texture && r.pixelData == pixelData
    ensures r.curIndex == 0
    ensures r.boundSlot == None && PackBinding(r) == NullHandle
    ensures NoneMapped(r)
    ensures forall i :: 0 <= i < NumPbo ==> r.storage[i] == ReservedStorage(texture.textureBytes)
  {
    var reserved := ReservedStorage(texture.textureBytes);
    Reader(texture, handles, [reserved, reserved], {}, 0, None, pixelData)
  }

  /** `_destroyBuffers`: every handle is reset to null; nothing else changes. */
  function DestroyBuffers(r: Reader): (r': Reader)
    ensures |r'.pbo| == NumPbo
    ensures forall i :: 0 <= i < NumPbo ==> r'.pbo[i] == NullHandle
    ensures r'.(pbo := r.pbo) == r
  {
    r.(pbo := seq(NumPbo, _ => NullHandle))
  }

  /** Destroying twice is the same as destroying once. */
  lemma DestroyBuffersIdempotent(r: Reader)
    ensures DestroyBuffers(DestroyBuffers(r)) == DestroyBuffers(r)
  {
  }

  /** Once the handles are reset, whatever slot is bound reads as the null
      binding. */
  lemma DestroyBuffersUnbinds(r: Reader)
    requires Valid(r)
    ensures Valid(DestroyBuffers(r))
    ensures PackBinding(DestroyBuffers(r)) == NullHandle
  {
  }

  /** `cleanUp`: unmap the slot bound to the pixel-pack target, then bind
      null; nothing else changes. Unmapping with nothing bound, or a bound
      slot that is not mapped, is refused by GL and changes nothing. */
  function CleanUp(r: Reader): (r': Reader)
    requires Valid(r)
    ensures Valid(r')
    ensures r'.boundSlot == None && PackBinding(r') == NullHandle
    ensures r.boundSlot.None? ==> r'.mapped == r.mapped
    ensures r.boundSlot.Some? ==> r'.mapped == r.mapped - {r.boundSlot.value}
    ensures r'.(mapped := r.mapped, boundSlot := r.boundSlot) == r
  {
    var mapped := match r.boundSlot
                  case None => r.mapped
                  case Some(i) => r.mapped - {i};
    r.(mapped := mapped, boundSlot := None)
  }

  /** `glReadPixels` into the bound pack buffer at offset 0: the packed rows
      overwrite the start of the storage and the rest is kept. A capture
      longer than the storage is refused and writes nothing. */
  function WriteCapture(storage: seq<byte>, capture: seq<byte>): (written: seq<byte>)
    ensures |written| == |storage|
    ensures |capture| <= |storage| ==>
              forall i :: 0 <= i < |storage| ==> written[i] == if i < |capture| then capture[i] else storage[i]
    ensures |capture| > |storage| ==> written == storage
  {
    if |capture| <= |storage| then capture + storage[|capture|..] else storage
  }

  /** `glMapBufferRange(GL_PIXEL_PACK_BUFFER, 0, length, GL_MAP_READ_BIT)`:
      null when the driver fails, the buffer is already mapped, the range is
      empty or it runs past the storage; otherwise the first `length` bytes. */
  function MapBufferRange(storage: seq<byte>, isMapped: bool, length: nat, fails: bool): (m: Option<seq<byte>>)
    ensures m.None? <==> fails || isMapped || length == 0 || length > |storage|
    ensures m.Some? ==> |m.value| == length && forall i :: 0 <= i < length ==> m.value[i] == storage[i]
  {
    if fails || isMapped || length == 0 || length > |storage| then None else Some(storage[..length])
  }

  /** The first `length` bytes after a capture of at least that many bytes
      are the capture's. */
  lemma WriteCapturePrefix(storage: seq<byte>, capture: seq<byte>, length: nat)
    requires length <= |capture| <= |storage|
    ensures WriteCapture(storage, capture)[..length] == capture[..length]
  {
    assert forall i :: 0 <= i < length ==> WriteCapture(storage, capture)[..length][i] == capture[..length][i];
  }

  /** Mapping an unmapped buffer right after a capture returns the captured
      bytes. */
  lemma MapAfterCapture(storage: seq<byte>, capture: seq<byte>, length: nat)
    requires 0 < length <= |capture| <= |storage|
    ensures MapBufferRange(WriteCapture(storage, capture), false, length, false) == Some(capture[..length])
  {
    WriteCapturePrefix(storage, capture, length);
  }

  /** Mapping storage that no capture has written returns zero bytes. */
  lemma MapReservedStorage(size: nat, length: nat)
    requires 0 < length <= size
    ensures MapBufferRange(ReservedStorage(size), false, length, false) == Some(seq(length, _ => 0))
  {
    assert ReservedStorage(size)[..length] == seq(length, _ => 0);
  }

  /** The number of bytes `readPixels` captures and maps: `realWidth` pixels
      of `bytesPerPixel` bytes for each of `height` rows. */
  function MapLength(texture: Texture, height: nat, bpp: nat): (length: nat)
  {
    texture.realWidth * height * bpp
  }

  /** The slot a read captures into: the fixed last slot for a sync read,
      the other slot of the ring for an async read. */
  function CaptureTarget(r: Reader, sync: bool): (slot: nat)
    requires Valid(r)
    ensures slot < NumPbo
  {
    if sync then NumPbo - 1 else 1 - r.curIndex
  }

  /** The slot a read maps: the fixed last slot for a sync read; for an async
      read the slot the rotation index named before the call, i.e. the one
      the previous async read captured into. */
  function MapTarget(r: Reader, sync: bool): (slot: nat)
    requires Valid(r)
    ensures slot < NumPbo
  {
    if sync then NumPbo - 1 else r.curIndex
  }

  /** The result of `readPixels`: the new state and the returned pixels,
      `None` for a null pointer. */
  datatype ReadResult = ReadResult(reader: Reader, pixels: Option<seq<byte>>)

  /** What `readPixels` demands of its caller: the requested width is no
      wider than the texture and the scratch buffer holds the packed rows. */
  predicate ReadFits(r: Reader, fmts: FramebufferTextureFormats, width: nat, height: nat, size: nat)
  {
    && width <= r.texture.realWidth
    && height * (width * SelectFormat(fmts, size).bytesPerPixel) <= |r.pixelData|
  }

  /** The bytes-per-pixel count a read with pixel-size hint `size` uses. */
  function ReadBpp(fmts: FramebufferTextureFormats, size: nat): (bpp: nat)
  {
    SelectFormat(fmts, size).bytesPerPixel
  }

  /** The row copy at the end of `readPixels`, applied to the mapped bytes:
      `height` rows of `width * bpp` bytes taken `realWidth * bpp` apart. */
  function CopyOut(r: Reader, fmts: FramebufferTextureFormats, width: nat, height: nat, size: nat, mapped: seq<byte>): (out: seq<byte>)
    requires ReadFits(r, fmts, width, height, size)
    requires |mapped| == MapLength(r.texture, height, ReadBpp(fmts, size))
    ensures |out| == |r.pixelData|
  {
    var bpp := ReadBpp(fmts, size);
    CopyFitsForRead(r.pixelData, mapped, width, r.texture.realWidth, height, bpp);
    StridedCopy(r.pixelData, mapped, width * bpp, r.texture.realWidth * bpp, height)
  }

  /** `readPixels(_x0, _y0, _width, _height, _size, _sync)`, with the
      `realWidth * height * bpp` bytes the GPU read packs from the framebuffer
      given as `capture` and the driver's verdict on the map call as
      `mapFails`. A capture into a mapped slot, and a map of a mapped slot,
      are refused as GL refuses them. */
  function ReadPixels(r: Reader, fmts: FramebufferTextureFormats, width: nat, height: nat, size: nat,
                      sync: bool, capture: seq<byte>, mapFails: bool): (res: ReadResult)
    requires Valid(r)
    requires ReadFits(r, fmts, width, height, size)
    requires |capture| == MapLength(r.texture, height, ReadBpp(fmts, size))
    ensures Valid(res.reader)
    ensures res.reader.texture == r.texture && res.reader.pbo == r.pbo
    ensures sync ==> res.reader.curIndex == r.curIndex
    ensures !sync ==> res.reader.curIndex == 1 - r.curIndex
    ensures CaptureTarget(r, sync) in r.mapped ==> res.reader.storage == r.storage
    ensures CaptureTarget(r, sync) !in r.mapped ==>
              res.reader.storage
              == r.storage[CaptureTarget(r, sync) := WriteCapture(r.storage[CaptureTarget(r, sync)], capture)]
    ensures res.reader.boundSlot == Some(MapTarget(r, sync))
    ensures PackBinding(res.reader) == r.pbo[MapTarget(r, sync)]
    ensures res.pixels.None? <==>
              || mapFails
              || MapTarget(r, sync) in r.mapped
              || |capture| == 0
              || |capture| > r.texture.textureBytes
    ensures res.pixels.None? ==> res.reader.pixelData == r.pixelData && res.reader.mapped == r.mapped
    ensures res.pixels.Some? ==>
              && res.pixels.value == res.reader.pixelData
              && |res.pixels.value| == |r.pixelData|
              && res.reader.mapped == r.mapped + {MapTarget(r, sync)}
  {
    var bpp := ReadBpp(fmts, size);
    // The async path flips the rotation index, captures into the slot it now
    // names and maps the other one; the sync path uses the last slot for both.
    var curIndex := if sync then r.curIndex else Xor1(r.curIndex);
    var captureSlot := if sync then NumPbo - 1 else curIndex;
    var mapSlot := if sync then NumPbo - 1 else Xor1(curIndex);
    Xor1OnRing(r.curIndex);
    Xor1OnRing(Xor1(r.curIndex));
    var captured := if captureSlot in r.mapped then r.storage[captureSlot]
                    else WriteCapture(r.storage[captureSlot], capture);
    var storage := r.storage[captureSlot := captured];
    var bound := r.(storage := storage, curIndex := curIndex, boundSlot := Some(mapSlot));
    match MapBufferRange(storage[mapSlot], mapSlot in r.mapped, MapLength(r.texture, height, bpp), mapFails)
    case None => ReadResult(bound, None)
    case Some(bytes) =>
      var out := CopyOut(r, fmts, width, height, size, bytes);
      ReadResult(bound.(pixelData := out, mapped := r.mapped + {mapSlot}), Some(out))
  }

  /** The pixels a read returns are the row copy of the first bytes of the
      slot `MapTarget` names, as it stands after this read's own capture;
      null exactly when mapping that slot fails. */
  lemma ReadPixelsReturnsMappedSlot(r: Reader, fmts: FramebufferTextureFormats, width: nat, height: nat, size: nat,
                                    sync: bool, capture: seq<byte>, mapFails: bool)
    requires Valid(r)
    requires ReadFits(r, fmts, width, height, size)
    requires |capture| == MapLength(r.texture, height, ReadBpp(fmts, size))
    ensures var res := ReadPixels(r, fmts, width, height, size, sync, capture, mapFails);
            var len := |capture|;
            var slot := res.reader.storage[MapTarget(r, sync)];
            && (mapFails || MapTarget(r, sync) in r.mapped || len == 0 || len > |slot| ==> res.pixels == None)
            && (!mapFails && MapTarget(r, sync) !in r.mapped && 0 < len <= |slot| ==>
                  res.pixels == Some(CopyOut(r, fmts, width, height, size, slot[..len])))
  {
    Xor1OnRing(r.curIndex);
  }

  /** A successful read returns `height` tightly packed rows: byte `col` of
      row `row` is byte `col` of row `row` of the mapped slot, whose rows lie
      `realWidth * bpp` bytes apart; the rest of the scratch buffer is left as
      it was. */
  lemma ReadPixelsPacksRows(r: Reader, fmts: FramebufferTextureFormats, width: nat, height: nat, size: nat,
                            sync: bool, capture: seq<byte>, mapFails: bool)
    requires Valid(r)
    requires ReadFits(r, fmts, width, height, size)
    requires |capture| == MapLength(r.texture, height, ReadBpp(fmts, size))
    ensures var res := ReadPixels(r, fmts, width, height, size, sync, capture, mapFails);
            var bpp := ReadBpp(fmts, size);
            var slot := res.reader.storage[MapTarget(r, sync)];
            res.pixels.Some? ==>
              && (forall row, col :: 0 <= row < height && 0 <= col < width * bpp ==>
                    && DstIndex(row, col, width * bpp) < |res.pixels.value|
                    && SrcIndex(row, col, r.texture.realWidth * bpp) < |slot|
                    && res.pixels.value[DstIndex(row, col, width * bpp)]
                       == slot[SrcIndex(row, col, r.texture.realWidth * bpp)])
              && (forall i :: height * (width * bpp) <= i < |r.pixelData| ==> res.pixels.value[i] == r.pixelData[i])
  {
    var res := ReadPixels(r, fmts, width, height, size, sync, capture, mapFails);
    var bpp := ReadBpp(fmts, size);
    var len := |capture|;
    var slot := res.reader.storage[MapTarget(r, sync)];
    ReadPixelsReturnsMappedSlot(r, fmts, width, height, size, sync, capture, mapFails);
    if res.pixels.Some? {
      var mapped := slot[..len];
      CopyFitsForRead(r.pixelData, mapped, width, r.texture.realWidth, height, bpp);
      StridedCopyPacksRows(r.pixelData, mapped, width * bpp, r.texture.realWidth * bpp, height);
      StridedCopyFrame(r.pixelData, mapped, width * bpp, r.texture.realWidth * bpp, height);
      RowStartIsProduct(height, width * bpp);
    }
  }

  /** A failed map returns null and copies nothing: the scratch buffer and
      the mapping state are untouched, while the capture and the binding have
      already happened. */
  lemma NullOnMapFailure(r: Reader, fmts: FramebufferTextureFormats, width: nat, height: nat, size: nat,
                         sync: bool, capture: seq<byte>)
    requires Valid(r)
    requires ReadFits(r, fmts, width, height, size)
    requires |capture| == MapLength(r.texture, height, ReadBpp(fmts, size))
    ensures var res := ReadPixels(r, fmts, width, height, size, sync, capture, true);
            && res.pixels == None
            && res.reader.pixelData == r.pixelData
            && res.reader.mapped == r.mapped
            && PackBinding(res.reader) == r.pbo[MapTarget(r, sync)]
            && (CaptureTarget(r, sync) !in r.mapped ==>
                  res.reader.storage[CaptureTarget(r, sync)] == WriteCapture(r.storage[CaptureTarget(r, sync)], capture))
  {
  }

  /** An async read never maps the slot it captures into; a sync read maps
      exactly the slot it captures into. */
  lemma CaptureAndMapTargets(r: Reader, sync: bool)
    requires Valid(r)
    ensures sync <==> CaptureTarget(r, sync) == MapTarget(r, sync)
  {
  }

  /** A sync read returns this call's own capture (no skew) and leaves the
      rotation index alone, provided the last slot is not still mapped. */
  lemma SyncReturnsOwnCapture(r: Reader, fmts: FramebufferTextureFormats, width: nat, height: nat, size: nat,
                              capture: seq<byte>, mapFails: bool)
    requires Valid(r)
    requires ReadFits(r, fmts, width, height, size)
    requires |capture| == MapLength(r.texture, height, ReadBpp(fmts, size))
    ensures var res := ReadPixels(r, fmts, width, height, size, true, capture, mapFails);
            && res.reader.curIndex == r.curIndex
            && PackBinding(res.reader) == r.pbo[NumPbo - 1]
            && (NumPbo - 1 !in r.mapped && !mapFails && 0 < |capture| <= r.texture.textureBytes ==>
                  res.pixels == Some(CopyOut(r, fmts, width, height, size, capture)))
  {
    ReadPixelsReturnsMappedSlot(r, fmts, width, height, size, true, capture, mapFails);
    if |capture| <= r.texture.textureBytes {
      WriteCapturePrefix(r.storage[NumPbo - 1], capture, |capture|);
    }
  }

  /** `cleanUp` must come between reads: right after a successful sync read
      the last slot is still mapped, so a second sync read neither captures
      nor maps and returns null; after `cleanUp` the same read returns its
      own capture. */
  lemma SyncReadNeedsCleanUp(r: Reader, fmts: FramebufferTextureFormats, width: nat, height: nat, size: nat,
                             capture1: seq<byte>, capture2: seq<byte>, mapFails2: bool)
    requires Valid(r)
    requires ReadFits(r, fmts, width, height, size)
    requires |capture1| == |capture2| == MapLength(r.texture, height, ReadBpp(fmts, size))
    ensures var res1 := ReadPixels(r, fmts, width, height, size, true, capture1, false);
            res1.pixels.Some? ==>
              && ReadFits(res1.reader, fmts, width, height, size)
              && ReadPixels(res1.reader, fmts, width, height, size, true, capture2, mapFails2).pixels == None
              && ReadPixels(res1.reader, fmts, width, height, size, true, capture2, mapFails2).reader.storage
                 == res1.reader.storage
              && (!mapFails2 ==>
                    ReadPixels(CleanUp(res1.reader), fmts, width, height, size, true, capture2, mapFails2).pixels
                    == Some(CopyOut(CleanUp(res1.reader), fmts, width, height, size, capture2)))
  {
    var res1 := ReadPixels(r, fmts, width, height, size, true, capture1, false);
    if res1.pixels.Some? {
      SyncReturnsOwnCapture(CleanUp(res1.reader), fmts, width, height, size, capture2, mapFails2);
    }
  }

  /** The arguments of one `readPixels` call apart from the sync flag. */
  datatype Request = Request(fmts: FramebufferTextureFormats, width: nat, height: nat, size: nat,
                             capture: seq<byte>, mapFails: bool)

  /** `ReadFits` for a request, whose capture has the length the read packs. */
  predicate RequestFits(r: Reader, q: Request)
  {
    && ReadFits(r, q.fmts, q.width, q.height, q.size)
    && |q.capture| == MapLength(r.texture, q.height, ReadBpp(q.fmts, q.size))
  }

  /** `readPixels` for a request. */
  function ReadRequest(r: Reader, q: Request, sync: bool): (res: ReadResult)
    requires Valid(r)
    requires RequestFits(r, q)
  {
    ReadPixels(r, q.fmts, q.width, q.height, q.size, sync, q.capture, q.mapFails)
  }

  /** The row copy `readPixels` makes for a request from mapped bytes. */
  function RequestCopy(r: Reader, q: Request, mapped: seq<byte>): (out: seq<byte>)
    requires RequestFits(r, q)
    requires |mapped| == |q.capture|
  {
    CopyOut(r, q.fmts, q.width, q.height, q.size, mapped)
  }

  /** One read followed by the `cleanUp` its caller owes: the pixels stay in
      the scratch buffer, and nothing is left mapped or bound. */
  function ReadThenCleanUp(r: Reader, q: Request, sync: bool): (res: ReadResult)
    requires Valid(r)
    requires RequestFits(r, q)
    ensures Valid(res.reader)
    ensures res.reader.texture == r.texture && res.reader.pbo == r.pbo
    ensures |res.reader.pixelData| == |r.pixelData|
    ensures res.reader.boundSlot == None
    ensures NoneMapped(r) ==> NoneMapped(res.reader)
    ensures res.pixels == ReadRequest(r, q, sync).pixels
  {
    var read := ReadRequest(r, q, sync);
    var clean := CleanUp(read.reader);
    ReadResult(clean, read.pixels)
  }

  /** `cleanUp` after a read unmaps the slot that read mapped and unbinds it,
      so the mapping state is back to what it was, with that slot unmapped;
      the captured contents and the rotation are left alone. */
  lemma CleanUpAfterRead(r: Reader, q: Request, sync: bool)
    requires Valid(r)
    requires RequestFits(r, q)
    ensures var res := ReadRequest(r, q, sync);
            var c := CleanUp(res.reader);
            && (res.pixels.Some? ==> MapTarget(r, sync) in res.reader.mapped)
            && c.mapped == r.mapped - {MapTarget(r, sync)}
            && c.boundSlot == None && PackBinding(c) == NullHandle
            && c.storage == res.reader.storage && c.curIndex == res.reader.curIndex
            && c.pixelData == res.reader.pixelData
  {
    var res := ReadRequest(r, q, sync);
    var c := CleanUp(res.reader);
  }

  /** Two async reads with the `cleanUp` between them: the second maps the
      slot the first captured into, so it returns the first one's capture,
      one call behind. */
  lemma AsyncReturnsPreviousCapture(r: Reader, p: Request, q: Request)
    requires Valid(r) && NoneMapped(r)
    requires RequestFits(r, p) && RequestFits(r, q)
    ensures var r1 := ReadThenCleanUp(r, p, false).reader;
            var res2 := ReadRequest(r1, q, false);
            var tb := r.texture.textureBytes;
            && RequestFits(r1, q)
            && MapTarget(r1, false) == CaptureTarget(r, false)
            && (|p.capture| <= tb ==> r1.storage[MapTarget(r1, false)][..|p.capture|] == p.capture)
            && (q.mapFails || |q.capture| == 0 || |q.capture| > tb ==> res2.pixels == None)
            && (!q.mapFails && 0 < |q.capture| <= |p.capture| <= tb ==>
                  res2.pixels == Some(RequestCopy(r1, q, p.capture[..|q.capture|])))
  {
    var r1 := ReadThenCleanUp(r, p, false).reader;
    var slot := CaptureTarget(r, false);
    Xor1OnRing(r.curIndex);
    assert slot !in r.mapped;
    assert r1.storage[slot] == WriteCapture(r.storage[slot], p.capture);
    if |p.capture| <= r.texture.textureBytes {
      WriteCapturePrefix(r.storage[slot], p.capture, |p.capture|);
      if |q.capture| <= |p.capture| {
        WriteCapturePrefix(r.storage[slot], p.capture, |q.capture|);
      }
    }
    assert slot !in r1.mapped;
    ReadPixelsReturnsMappedSlot(r1, q.fmts, q.width, q.height, q.size, false, q.capture, q.mapFails);
  }

  /** The first async read after `_initBuffers` maps slot 0, which no read
      has written: it returns the reserved storage, not any capture. */
  lemma FirstAsyncReadsReservedSlot(texture: Texture, handles: seq<nat>, pixelData: seq<byte>, q: Request)
    requires |handles| == NumPbo
    requires RequestFits(InitBuffers(texture, handles, pixelData), q)
    ensures var r := InitBuffers(texture, handles, pixelData);
            var res := ReadRequest(r, q, false);
            var len := |q.capture|;
            && MapTarget(r, false) == 0
            && PackBinding(res.reader) == handles[0]
            && res.reader.storage[0] == ReservedStorage(texture.textureBytes)
            && res.reader.storage[1] == WriteCapture(ReservedStorage(texture.textureBytes), q.capture)
            && (!q.mapFails && 0 < len <= texture.textureBytes ==>
                  res.pixels == Some(RequestCopy(r, q, seq(len, _ => 0))))
  {
    var r := InitBuffers(texture, handles, pixelData);
    var len := |q.capture|;
    ReadPixelsReturnsMappedSlot(r, q.fmts, q.width, q.height, q.size, false, q.capture, q.mapFails);
    if 0 < len <= texture.textureBytes {
      assert ReservedStorage(texture.textureBytes)[..len] == seq(len, _ => 0);
    }
  }

  /** A sync read between two async reads can overwrite what the second async
      read returns: when the first async read captured into the last slot, the
      sync read's capture replaces it and the second async read returns the
      sync read's capture instead. Each read is followed by its `cleanUp`. */
  lemma SyncOverwritesNextAsync(r: Reader, fmts: FramebufferTextureFormats, width: nat, height: nat, size: nat,
                                captureA: seq<byte>, captureS: seq<byte>, captureB: seq<byte>,
                                mapFailsA: bool, mapFailsS: bool, mapFailsB: bool)
    requires Valid(r) && NoneMapped(r)
    requires r.curIndex == 0
    requires ReadFits(r, fmts, width, height, size)
    requires |captureA| == |captureS| == |captureB| == MapLength(r.texture, height, ReadBpp(fmts, size))
    ensures var a := Request(fmts, width, height, size, captureA, mapFailsA);
            var s := Request(fmts, width, height, size, captureS, mapFailsS);
            var b := Request(fmts, width, height, size, captureB, mapFailsB);
            var rA := ReadThenCleanUp(r, a, false).reader;
            var rS := ReadThenCleanUp(rA, s, true).reader;
            && CaptureTarget(r, false) == NumPbo - 1
            && RequestFits(rS, b)
            && MapTarget(rS, false) == NumPbo - 1
            && rS.curIndex == rA.curIndex
            && (!mapFailsB && 0 < |captureS| <= r.texture.textureBytes ==>
                  ReadRequest(rS, b, false).pixels == Some(RequestCopy(rS, b, captureS)))
  {
    var a := Request(fmts, width, height, size, captureA, mapFailsA);
    var s := Request(fmts, width, height, size, captureS, mapFailsS);
    var b := Request(fmts, width, height, size, captureB, mapFailsB);
    assert RequestFits(r, a) && RequestFits(r, s) && RequestFits(r, b);
    var rA := ReadThenCleanUp(r, a, false).reader;
    var rS := ReadThenCleanUp(rA, s, true).reader;
    assert NumPbo - 1 !in rA.mapped;
    assert rS.storage[NumPbo - 1] == WriteCapture(rA.storage[NumPbo - 1], captureS);
    if |captureS| <= r.texture.textureBytes {
      WriteCapturePrefix(rA.storage[NumPbo - 1], captureS, |captureS|);
    }
    assert NumPbo - 1 !in rS.mapped;
    ReadPixelsReturnsMappedSlot(rS, fmts, width, height, size, false, captureB, mapFailsB);
  }

  /** Two async reads bring the rotation index back to where it was. */
  lemma TwoAsyncReadsRestoreIndex(r: Reader, fmts: FramebufferTextureFormats, width: nat, height: nat, size: nat,
                                  capture1: seq<byte>, capture2: seq<byte>, mapFails1: bool, mapFails2: bool)
    requires Valid(r)
    requires ReadFits(r, fmts, width, height, size)
    requires |capture1| == |capture2| == MapLength(r.texture, height, ReadBpp(fmts, size))
    ensures var r1 := ReadPixels(r, fmts, width, height, size, false, capture1, mapFails1).reader;
            && ReadFits(r1, fmts, width, height, size)
            && ReadPixels(r1, fmts, width, height, size, false, capture2, mapFails2).reader.curIndex == r.curIndex
  {
  }

  /** `readPixels(..., false)` and its `cleanUp` for each request in turn,
      starting from `r`. */
  function AsyncReads(r: Reader, qs: seq<Request>): (rs: seq<ReadResult>)
    requires Valid(r) && NoneMapped(r)
    requires forall i :: 0 <= i < |qs| ==> RequestFits(r, qs[i])
    ensures |rs| == |qs|
    ensures forall i :: 0 <= i < |rs| ==>
              && Valid(rs[i].reader)
              && NoneMapped(rs[i].reader)
              && rs[i].reader.texture == r.texture
              && |rs[i].reader.pixelData| == |r.pixelData|
    decreases |qs|
  {
    if |qs| == 0 then []
    else
      var q := qs[0];
      assert RequestFits(r, q);
      var first := ReadThenCleanUp(r, q, false);
      assert forall i :: 0 <= i < |qs[1..]| ==> RequestFits(first.reader, qs[1..][i]) by {
        forall i | 0 <= i < |qs[1..]|
          ensures RequestFits(first.reader, qs[1..][i])
        {
          assert RequestFits(r, qs[i + 1]);
        }
      }
      [first] + AsyncReads(first.reader, qs[1..])
  }

  /** The async read `q` made from state `prev` returned `res`, and `prev`
      is what the read with capture `previous` left: the slot it maps starts
      with those bytes, and the pixels are their row copy (null if the map
      fails). */
  predicate OneCallBehind(prev: Reader, q: Request, previous: seq<byte>, res: ReadResult)
  {
    var tb := prev.texture.textureBytes;
    && Valid(prev)
    && NoneMapped(prev)
    && RequestFits(prev, q)
    && (|previous| <= tb ==> prev.storage[MapTarget(prev, false)][..|previous|] == previous)
    && (q.mapFails || |q.capture| == 0 || |q.capture| > tb ==> res.pixels == None)
    && (!q.mapFails && 0 < |q.capture| <= |previous| <= tb ==>
          res.pixels == Some(RequestCopy(prev, q, previous[..|q.capture|])))
  }

  /** The state the k-th read of a run starts from. */
  function StateBefore(r: Reader, rs: seq<ReadResult>, k: nat): (s: Reader)
    requires k <= |rs|
  {
    if k == 0 then r else rs[k - 1].reader
  }

  /** The k-th result of a run is `readPixels` and `cleanUp` applied to the
      state the (k-1)-th read left behind. */
  lemma {:induction false} AsyncReadsAt(r: Reader, qs: seq<Request>, k: nat)
    requires Valid(r) && NoneMapped(r)
    requires forall i :: 0 <= i < |qs| ==> RequestFits(r, qs[i])
    requires k < |qs|
    ensures var rs := AsyncReads(r, qs);
            var s := StateBefore(r, rs, k);
            && Valid(s)
            && NoneMapped(s)
            && RequestFits(s, qs[k])
            && rs[k] == ReadThenCleanUp(s, qs[k], false)
    decreases k
  {
    var rs := AsyncReads(r, qs);
    var q := qs[0];
    assert RequestFits(r, q);
    var first := ReadThenCleanUp(r, q, false);
    var rest := AsyncReads(first.reader, qs[1..]);
    assert rs == [first] + rest;
    if k > 0 {
      assert RequestFits(first.reader, qs[1..][k - 1]) by {
        assert RequestFits(r, qs[k]);
      }
      AsyncReadsAt(first.reader, qs[1..], k - 1);
      assert StateBefore(first.reader, rest, k - 1) == StateBefore(r, rs, k);
    }
  }

  /** Two consecutive async reads, stated with `OneCallBehind`. */
  lemma OneCallBehindStep(s: Reader, p: Request, q: Request)
    requires Valid(s) && NoneMapped(s)
    requires RequestFits(s, p) && RequestFits(s, q)
    ensures var res1 := ReadThenCleanUp(s, p, false);
            RequestFits(res1.reader, q)
            && OneCallBehind(res1.reader, q, p.capture, ReadThenCleanUp(res1.reader, q, false))
  {
    AsyncReturnsPreviousCapture(s, p, q);
  }

  /** The k-th read of an async run returns the (k-1)-th read's capture. */
  lemma AsyncReadsOneCallBehindAt(r: Reader, qs: seq<Request>, k: nat)
    requires Valid(r) && NoneMapped(r)
    requires forall i :: 0 <= i < |qs| ==> RequestFits(r, qs[i])
    requires 1 <= k < |qs|
    ensures var rs := AsyncReads(r, qs);
            OneCallBehind(rs[k - 1].reader, qs[k], qs[k - 1].capture, rs[k])
  {
    var rs := AsyncReads(r, qs);
    AsyncReadsAt(r, qs, k - 1);
    AsyncReadsAt(r, qs, k);
    var s := StateBefore(r, rs, k - 1);
    assert StateBefore(r, rs, k) == rs[k - 1].reader;
    assert RequestFits(s, qs[k]) by {
      assert RequestFits(r, qs[k]);
    }
    OneCallBehindStep(s, qs[k - 1], qs[k]);
  }

  /** With no sync read in between, and `cleanUp` after every read, the k-th
      async read returns the capture made by the (k-1)-th. */
  lemma AsyncReadsOneCallBehind(r: Reader, qs: seq<Request>)
    requires Valid(r) && NoneMapped(r)
    requires forall i :: 0 <= i < |qs| ==> RequestFits(r, qs[i])
    ensures var rs := AsyncReads(r, qs);
            forall k :: 1 <= k < |qs| ==> OneCallBehind(rs[k - 1].reader, qs[k], qs[k - 1].capture, rs[k])
  {
    forall k | 1 <= k < |qs|
      ensures OneCallBehind(AsyncReads(r, qs)[k - 1].reader, qs[k], qs[k - 1].capture, AsyncReads(r, qs)[k])
    {
      AsyncReadsOneCallBehindAt(r, qs, k);
    }
  }
}

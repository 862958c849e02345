/**
 The stride-correcting copy at the end of `readPixels`.

 The mapped pixel-pack buffer holds `rows` rows of `strideBytes` bytes each (the
 texture's allocated width); the caller wants `rows` rows of `widthBytes` bytes
 each, packed with no gap. Each row is one `memcpy` into the scratch buffer.
 */
module RowCopy {

  /** Byte offset of the start of row `row` when rows are `rowBytes` long;
      defined by repeated addition so that proofs about it stay linear. */
  function RowStart(row: nat, rowBytes: nat): (start: nat)
  {
    if row == 0 then 0 else RowStart(row - 1, rowBytes) + rowBytes
  }

  /** `RowStart` is the `lnIndex * widthBytes` / `lnIndex * strideBytes` product
      `readPixels` passes to `memcpy`. */
  lemma {:induction false} RowStartIsProduct(row: nat, rowBytes: nat)
    ensures RowStart(row, rowBytes) == row * rowBytes
  {
    if row > 0 {
      RowStartIsProduct(row - 1, rowBytes);
    }
  }

  /** Where byte `col` of row `row` lands in the packed output. */
  function DstIndex(row: nat, col: nat, widthBytes: nat): (index: nat)
  {
    RowStart(row, widthBytes) + col
  }

  /** Where byte `col` of row `row` is read from in the mapped buffer. */
  function SrcIndex(row: nat, col: nat, strideBytes: nat): (index: nat)
  {
    RowStart(row, strideBytes) + col
  }

  /** `memcpy(dst + at, chunk, |chunk|)` on a sequence, one element at a time. */
  function Splice<T>(dst: seq<T>, at: nat, chunk: seq<T>): (r: seq<T>)
    requires at + |chunk| <= |dst|
    ensures |r| == |dst|
    ensures forall i :: 0 <= i < |chunk| ==> r[at + i] == chunk[i]
    ensures forall i :: 0 <= i < |dst| && !(at <= i < at + |chunk|) ==> r[i] == dst[i]
    decreases |chunk|
  {
    if |chunk| == 0 then dst
    else
      var r := Splice(dst[at := chunk[0]], at + 1, chunk[1..]);
      assert forall i :: 1 <= i < |chunk| ==> r[at + i] == chunk[i] by {
        forall i | 1 <= i < |chunk|
          ensures r[at + i] == chunk[i]
        {
          assert r[(at + 1) + (i - 1)] == chunk[1..][i - 1];
        }
      }
      r
  }

  /** Row starts grow with the row number. */
  lemma {:induction false} RowStartMonotone(row: nat, later: nat, rowBytes: nat)
    requires row <= later
    ensures RowStart(row, rowBytes) <= RowStart(later, rowBytes)
    decreases later
  {
    if row < later {
      RowStartMonotone(row, later - 1, rowBytes);
    }
  }

  /** A full row fits below the start of any later row. */
  lemma RowBeforeLaterRow(row: nat, later: nat, rowBytes: nat)
    requires row < later
    ensures RowStart(row, rowBytes) + rowBytes <= RowStart(later, rowBytes)
  {
    RowStartMonotone(row + 1, later, rowBytes);
  }

  /** The precondition shared by the reference copy and its implementation:
      rows are no wider than the stride, the mapped range holds every source
      row and the scratch buffer holds every packed row. */
  predicate CopyFits<T>(scratch: seq<T>, mapped: seq<T>, widthBytes: nat, strideBytes: nat, rows: nat)
  {
    && widthBytes <= strideBytes
    && RowStart(rows, strideBytes) <= |mapped|
    && RowStart(rows, widthBytes) <= |scratch|
  }

  lemma CopyFitsFewerRows<T>(scratch: seq<T>, mapped: seq<T>, widthBytes: nat, strideBytes: nat, rows: nat, fewer: nat)
    requires CopyFits(scratch, mapped, widthBytes, strideBytes, rows)
    requires fewer <= rows
    ensures CopyFits(scratch, mapped, widthBytes, strideBytes, fewer)
  {
    RowStartMonotone(fewer, rows, strideBytes);
    RowStartMonotone(fewer, rows, widthBytes);
  }

  /** Source row `row` of the mapped buffer: its first `widthBytes` bytes. */
  function SourceRow<T>(mapped: seq<T>, widthBytes: nat, strideBytes: nat, row: nat): (r: seq<T>)
    requires widthBytes <= strideBytes
    requires RowStart(row + 1, strideBytes) <= |mapped|
    ensures |r| == widthBytes
    ensures forall col :: 0 <= col < widthBytes ==> r[col] == mapped[SrcIndex(row, col, strideBytes)]
  {
    mapped[RowStart(row, strideBytes) .. RowStart(row, strideBytes) + widthBytes]
  }

  /** Reference definition of the copy loop: the scratch buffer after the
      first `rows` iterations. */
  function StridedCopy<T>(scratch: seq<T>, mapped: seq<T>, widthBytes: nat, strideBytes: nat, rows: nat): (r: seq<T>)
    requires CopyFits(scratch, mapped, widthBytes, strideBytes, rows)
    ensures |r| == |scratch|
    decreases rows
  {
    if rows == 0 then scratch
    else
      CopyFitsFewerRows(scratch, mapped, widthBytes, strideBytes, rows, rows - 1);
      var prev := StridedCopy(scratch, mapped, widthBytes, strideBytes, rows - 1);
      Splice(prev, RowStart(rows - 1, widthBytes), SourceRow(mapped, widthBytes, strideBytes, rows - 1))
  }

  /** One iteration of the copy loop: row `n` is a `memcpy` of `widthBytes`
      bytes from the start of source row `n` to the start of packed row `n`. */
  lemma StridedCopyStep<T>(scratch: seq<T>, mapped: seq<T>, widthBytes: nat, strideBytes: nat, n: nat)
    requires CopyFits(scratch, mapped, widthBytes, strideBytes, n + 1)
    ensures RowStart(n, strideBytes) + widthBytes <= |mapped|
    ensures RowStart(n, widthBytes) + widthBytes <= |scratch|
    ensures CopyFits(scratch, mapped, widthBytes, strideBytes, n)
    ensures StridedCopy(scratch, mapped, widthBytes, strideBytes, n + 1)
            == Splice(StridedCopy(scratch, mapped, widthBytes, strideBytes, n), RowStart(n, widthBytes),
                      mapped[RowStart(n, strideBytes) .. RowStart(n, strideBytes) + widthBytes])
  {
    CopyFitsFewerRows(scratch, mapped, widthBytes, strideBytes, n + 1, n);
  }

  /** One step of the copy: row `rows - 1` is spliced over the result of the
      steps before it. */
  lemma StridedCopyUnfold<T>(scratch: seq<T>, mapped: seq<T>, widthBytes: nat, strideBytes: nat, rows: nat)
    requires CopyFits(scratch, mapped, widthBytes, strideBytes, rows)
    requires rows > 0
    ensures CopyFits(scratch, mapped, widthBytes, strideBytes, rows - 1)
    ensures RowStart(rows - 1, widthBytes) + widthBytes <= |scratch|
    ensures StridedCopy(scratch, mapped, widthBytes, strideBytes, rows)
            == Splice(StridedCopy(scratch, mapped, widthBytes, strideBytes, rows - 1),
                      RowStart(rows - 1, widthBytes), SourceRow(mapped, widthBytes, strideBytes, rows - 1))
  {
    CopyFitsFewerRows(scratch, mapped, widthBytes, strideBytes, rows, rows - 1);
  }

  /** One step of the copy, seen from an earlier row: it is left alone, so
      what that row held after the previous step it still holds. */
  lemma StridedCopyKeepsEarlierRow<T>(scratch: seq<T>, mapped: seq<T>, widthBytes: nat, strideBytes: nat, before: nat, row: nat, col: nat)
    requires CopyFits(scratch, mapped, widthBytes, strideBytes, before + 1)
    requires row < before && col < widthBytes
    requires DstIndex(row, col, widthBytes) < |scratch| && SrcIndex(row, col, strideBytes) < |mapped|
    requires StridedCopy(scratch, mapped, widthBytes, strideBytes, before)[DstIndex(row, col, widthBytes)]
             == mapped[SrcIndex(row, col, strideBytes)]
    ensures StridedCopy(scratch, mapped, widthBytes, strideBytes, before + 1)[DstIndex(row, col, widthBytes)]
            == mapped[SrcIndex(row, col, strideBytes)]
  {
    RowBeforeLaterRow(row, before, widthBytes);
    StridedCopyUnfold(scratch, mapped, widthBytes, strideBytes, before + 1);
  }

  /** One step of the copy, seen from the row it writes. */
  lemma StridedCopyWritesLastRow<T>(scratch: seq<T>, mapped: seq<T>, widthBytes: nat, strideBytes: nat, before: nat, col: nat)
    requires CopyFits(scratch, mapped, widthBytes, strideBytes, before + 1)
    requires col < widthBytes
    ensures SrcIndex(before, col, strideBytes) < |mapped|
    ensures StridedCopy(scratch, mapped, widthBytes, strideBytes, before + 1)[DstIndex(before, col, widthBytes)]
            == mapped[SrcIndex(before, col, strideBytes)]
  {
    StridedCopyUnfold(scratch, mapped, widthBytes, strideBytes, before + 1);
    var prev := StridedCopy(scratch, mapped, widthBytes, strideBytes, before);
    var last := SourceRow(mapped, widthBytes, strideBytes, before);
    var at := RowStart(before, widthBytes);
    assert Splice(prev, at, last)[at + col] == last[col];
    assert last[col] == mapped[SrcIndex(before, col, strideBytes)];
  }

  /** Byte `col` of packed row `row` lies inside the scratch buffer and reads
      a byte inside the mapped range. */
  lemma CopyIndexBounds<T>(scratch: seq<T>, mapped: seq<T>, widthBytes: nat, strideBytes: nat, rows: nat, row: nat, col: nat)
    requires CopyFits(scratch, mapped, widthBytes, strideBytes, rows)
    requires row < rows && col < widthBytes
    ensures DstIndex(row, col, widthBytes) < |scratch|
    ensures SrcIndex(row, col, strideBytes) < |mapped|
  {
    RowBeforeLaterRow(row, rows, widthBytes);
    RowBeforeLaterRow(row, rows, strideBytes);
  }

  /** Byte `col` of packed row `row` is byte `col` of source row `row`. */
  lemma {:induction false} StridedCopyByte<T>(scratch: seq<T>, mapped: seq<T>, widthBytes: nat, strideBytes: nat, rows: nat, row: nat, col: nat)
    requires CopyFits(scratch, mapped, widthBytes, strideBytes, rows)
    requires row < rows && col < widthBytes
    ensures DstIndex(row, col, widthBytes) < |scratch| && SrcIndex(row, col, strideBytes) < |mapped|
    ensures StridedCopy(scratch, mapped, widthBytes, strideBytes, rows)[DstIndex(row, col, widthBytes)]
            == mapped[SrcIndex(row, col, strideBytes)]
    decreases rows
  {
    CopyIndexBounds(scratch, mapped, widthBytes, strideBytes, rows, row, col);
    if row < rows - 1 {
      var before: nat := rows - 1;
      CopyFitsFewerRows(scratch, mapped, widthBytes, strideBytes, rows, before);
      StridedCopyByte(scratch, mapped, widthBytes, strideBytes, before, row, col);
      StridedCopyKeepsEarlierRow(scratch, mapped, widthBytes, strideBytes, before, row, col);
    } else {
      var before: nat := rows - 1;
      StridedCopyWritesLastRow(scratch, mapped, widthBytes, strideBytes, before, col);
    }
  }

  /** Every copied byte is the matching byte of the matching source row: the
      output holds `rows` rows of `widthBytes` bytes with no padding. */
  lemma StridedCopyPacksRows<T>(scratch: seq<T>, mapped: seq<T>, widthBytes: nat, strideBytes: nat, rows: nat)
    requires CopyFits(scratch, mapped, widthBytes, strideBytes, rows)
    ensures forall row, col :: 0 <= row < rows && 0 <= col < widthBytes ==>
              DstIndex(row, col, widthBytes) < |scratch|
              && SrcIndex(row, col, strideBytes) < |mapped|
              && StridedCopy(scratch, mapped, widthBytes, strideBytes, rows)[DstIndex(row, col, widthBytes)]
                 == mapped[SrcIndex(row, col, strideBytes)]
  {
    forall row, col | 0 <= row < rows && 0 <= col < widthBytes
      ensures DstIndex(row, col, widthBytes) < |scratch|
      ensures SrcIndex(row, col, strideBytes) < |mapped|
      ensures StridedCopy(scratch, mapped, widthBytes, strideBytes, rows)[DstIndex(row, col, widthBytes)]
              == mapped[SrcIndex(row, col, strideBytes)]
    {
      StridedCopyByte(scratch, mapped, widthBytes, strideBytes, rows, row, col);
    }
  }

  /** The copy writes only the first `rows` packed rows of the scratch buffer;
      every byte after them keeps its old value. */
  lemma {:induction false} StridedCopyFrame<T>(scratch: seq<T>, mapped: seq<T>, widthBytes: nat, strideBytes: nat, rows: nat)
    requires CopyFits(scratch, mapped, widthBytes, strideBytes, rows)
    ensures forall i :: RowStart(rows, widthBytes) <= i < |scratch| ==>
              StridedCopy(scratch, mapped, widthBytes, strideBytes, rows)[i] == scratch[i]
    decreases rows
  {
    if rows > 0 {
      CopyFitsFewerRows(scratch, mapped, widthBytes, strideBytes, rows, rows - 1);
      StridedCopyFrame(scratch, mapped, widthBytes, strideBytes, rows - 1);
    }
  }

  /** The source bytes the copy reads all lie inside a mapped range of
      `rows` strides exactly when the requested row is no wider than the
      stride (for a non-empty read). */
  lemma SourceReadsInRange(widthBytes: nat, strideBytes: nat, rows: nat)
    requires rows > 0
    ensures (forall row, col :: 0 <= row < rows && 0 <= col < widthBytes ==>
               SrcIndex(row, col, strideBytes) < RowStart(rows, strideBytes))
            <==> widthBytes <= strideBytes
  {
    if widthBytes <= strideBytes {
      forall row, col | 0 <= row < rows && 0 <= col < widthBytes
        ensures SrcIndex(row, col, strideBytes) < RowStart(rows, strideBytes)
      {
        RowBeforeLaterRow(row, rows, strideBytes);
      }
    } else {
      assert SrcIndex(rows - 1, strideBytes, strideBytes) == RowStart(rows, strideBytes);
    }
  }

  /** Scaling by a positive bytes-per-pixel count keeps the order of widths. */
  lemma {:induction false} ScaleByBpp(width: nat, realWidth: nat, bpp: nat)
    requires bpp > 0
    ensures width * bpp <= realWidth * bpp <==> width <= realWidth
    decreases bpp
  {
    if bpp > 1 {
      ScaleByBpp(width, realWidth, bpp - 1);
      assert width * bpp == width * (bpp - 1) + width;
      assert realWidth * bpp == realWidth * (bpp - 1) + realWidth;
    }
  }

  /** The length `readPixels` maps, `realWidth * rows * bpp`, is
      `rows` strides of `realWidth * bpp` bytes. */
  lemma MappedLengthIsRows(realWidth: nat, rows: nat, bpp: nat)
    ensures RowStart(rows, realWidth * bpp) == realWidth * rows * bpp
  {
    RowStartIsProduct(rows, realWidth * bpp);
    assert rows * (realWidth * bpp) == realWidth * rows * bpp;
  }

  /** The arguments `readPixels` hands to the copy fit: with `width` no wider
      than `realWidth`, a mapped range of `realWidth * height * bpp` bytes and
      a scratch buffer of at least `height * width * bpp` bytes. */
  lemma CopyFitsForRead<T>(scratch: seq<T>, mapped: seq<T>, width: nat, realWidth: nat, height: nat, bpp: nat)
    requires width <= realWidth
    requires |mapped| == realWidth * height * bpp
    requires height * (width * bpp) <= |scratch|
    ensures CopyFits(scratch, mapped, width * bpp, realWidth * bpp, height)
  {
    if bpp > 0 {
      ScaleByBpp(width, realWidth, bpp);
    }
    MappedLengthIsRows(realWidth, height, bpp);
    RowStartIsProduct(height, width * bpp);
  }

  /** The same range fact in the terms of `readPixels`: with `bpp` bytes per
      pixel, the reads stay inside the `realWidth * rows * bpp` bytes that are
      mapped exactly when `width <= realWidth`. */
  lemma SourceReadsInMappedRange(width: nat, realWidth: nat, rows: nat, bpp: nat)
    requires rows > 0 && bpp > 0
    ensures (forall row, col :: 0 <= row < rows && 0 <= col < width * bpp ==>
               SrcIndex(row, col, realWidth * bpp) < realWidth * rows * bpp)
            <==> width <= realWidth
  {
    SourceReadsInRange(width * bpp, realWidth * bpp, rows);
    MappedLengthIsRows(realWidth, rows, bpp);
    ScaleByBpp(width, realWidth, bpp);
  }

  /** The copy loop of `readPixels`: for each of `height` rows, one
      `memcpy` of `widthBytes` bytes from offset `lnIndex * strideBytes` of the
      mapped range to offset `lnIndex * widthBytes` of the scratch buffer. */
  method CopyRows<T>(scratch: seq<T>, mapped: seq<T>, widthBytes: nat, strideBytes: nat, height: nat)
    returns (out: seq<T>)
    requires CopyFits(scratch, mapped, widthBytes, strideBytes, height)
    ensures out == StridedCopy(scratch, mapped, widthBytes, strideBytes, height)
    ensures |out| == |scratch|
    ensures forall row, col :: 0 <= row < height && 0 <= col < widthBytes ==>
              DstIndex(row, col, widthBytes) < |out|
              && SrcIndex(row, col, strideBytes) < |mapped|
              && out[DstIndex(row, col, widthBytes)] == mapped[SrcIndex(row, col, strideBytes)]
    ensures forall i :: RowStart(height, widthBytes) <= i < |scratch| ==> out[i] == scratch[i]
  {
    out := scratch;
    var lnIndex: nat := 0;
    while lnIndex < height
      invariant lnIndex <= height
      invariant CopyFits(scratch, mapped, widthBytes, strideBytes, lnIndex)
      invariant out == StridedCopy(scratch, mapped, widthBytes, strideBytes, lnIndex)
    {
      CopyFitsFewerRows(scratch, mapped, widthBytes, strideBytes, height, lnIndex + 1);
      StridedCopyStep(scratch, mapped, widthBytes, strideBytes, lnIndex);
      // `lnIndex * widthBytes` and `lnIndex * strideBytes`, see RowStartIsProduct.
      var dst := RowStart(lnIndex, widthBytes);
      var src := RowStart(lnIndex, strideBytes);
      out := Splice(out, dst, mapped[src .. src + widthBytes]);
      lnIndex := lnIndex + 1;
    }
    StridedCopyPacksRows(scratch, mapped, widthBytes, strideBytes, height);
    StridedCopyFrame(scratch, mapped, widthBytes, strideBytes, height);
  }
}

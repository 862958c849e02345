/**
 Bytes and the colour-format choice made at the start of `readPixels`.

 The graphics context supplies two (format, type, bytes-per-pixel) triples per
 frame: one for full-colour reads and one for monochrome reads. The GL enum
 values themselves are opaque here, so formats and types are plain numbers.
 */
module PixelFormats {

  newtype byte = x: int | 0 <= x < 256

  /** One (format, type, bytes-per-pixel) triple as handed to `glReadPixels`. */
  datatype FormatTriple = FormatTriple(format: nat, pixelType: nat, bytesPerPixel: nat)

  /** The two triples the context reports for framebuffer textures. */
  datatype FramebufferTextureFormats = FramebufferTextureFormats(color: FormatTriple, monochrome: FormatTriple)

  /** The RDP size code for 8-bit texels (`G_IM_SIZ_8b`); the size codes are
      4-bit = 0, 8-bit = 1, 16-bit = 2, 32-bit = 3. */
  const ImSiz8b: nat := 1

  /** True when a pixel-size hint asks for the full-colour layout. */
  predicate IsColorSize(size: nat)
  {
    size > ImSiz8b
  }

  /** The triple `readPixels` reads with for the pixel-size hint `size`. */
  function SelectFormat(fmts: FramebufferTextureFormats, size: nat): (triple: FormatTriple)
  {
    if size > ImSiz8b then fmts.color else fmts.monochrome
  }

  /** Sizes strictly above the 8-bit code choose the full-colour triple, all
      other sizes (the 8-bit code itself included) the monochrome one. */
  lemma SelectFormatThreshold(fmts: FramebufferTextureFormats, size: nat)
    ensures IsColorSize(size) ==> SelectFormat(fmts, size) == fmts.color
    ensures !IsColorSize(size) ==> SelectFormat(fmts, size) == fmts.monochrome
    ensures SelectFormat(fmts, ImSiz8b) == fmts.monochrome
  {
  }

  /** Once a size selects the full-colour triple, every larger size does too;
      once one selects monochrome, every smaller size does too. */
  lemma SelectFormatMonotone(fmts: FramebufferTextureFormats, size: nat, larger: nat)
    requires size <= larger
    ensures SelectFormat(fmts, size) == fmts.color && fmts.color != fmts.monochrome
            ==> SelectFormat(fmts, larger) == fmts.color
    ensures SelectFormat(fmts, larger) == fmts.monochrome && fmts.color != fmts.monochrome
            ==> SelectFormat(fmts, size) == fmts.monochrome
  {
  }
}

/** The decode stage both samples share: what libpng's simplified read API
    hands back for an input file, and the fixed-size acceptance checks that
    read_png_file and run_inference wrap around it. The file system and the
    codec itself are not modelled; a PngSource stands for their outcome. */
module Png {

  /** An unsigned 8-bit sample (png_byte). */
  type Byte = b: int | 0 <= b < 256

  datatype Option<+T> = None | Some(value: T)

  /** One more than the largest png_uint_32. */
  const U32: nat := 0x1_0000_0000

  /** The buffer length PNG_IMAGE_SIZE reports for an 8-bit BGR image of the
      given size: three one-byte channels per pixel, rows packed. libpng
      computes it in png_uint_32 arithmetic, so the product wraps modulo
      2^32 (wrapping after each multiplication gives the same result). */
  function ImageSize(height: nat, width: nat): (n: nat)
    ensures n < U32
    ensures height * width * 3 < U32 ==> n == height * width * 3
  {
    (height * width * 3) % U32
  }

  /** What decoding an input file yields: whether its header could be read,
      the size the header declares, and the interleaved BGR samples that
      finishing the read would store (None when that step fails). */
  datatype PngSource = PngSource(opens: bool, height: nat, width: nat, pixels: Option<seq<Byte>>)
  {
    /** The header's height and width are png_uint_32 values. A successful
        finish-read fills the whole image, three bytes per pixel; libpng
        refuses ("image too large") an image whose byte count does not fit
        in 32 bits, so a decoded image is never one whose size wrapped. */
    predicate Valid()
    {
      height < U32 && width < U32 &&
      (pixels.Some? ==> height * width * 3 < U32 && |pixels.value| == height * width * 3)
    }
  }

  /** The point at which a run of either sample stops on a given image. */
  datatype Verdict =
    | BeginReadFailed    // the header could not be read
    | WrongLength        // the decoded length is not the one hard-coded
    | FinishReadFailed   // the pixel data could not be decoded
    | WrongSize          // decoded, but not the expected height and width
    | Admitted           // handed to the model

  /** Where a sample whose model takes side-by-side images stops on src:
      read_png_file checks the begin-read, the decoded length and the
      finish-read; run_inference then checks height and width. */
  function Admission(src: PngSource, side: nat): (v: Verdict)
    ensures v == Admitted <==> src.opens && src.pixels.Some? && src.height == side && src.width == side
    ensures v == WrongSize ==> src.pixels.Some? && ImageSize(src.height, src.width) == ImageSize(side, side)
    ensures v == WrongLength ==> src.height != side || src.width != side
  {
    if !src.opens then BeginReadFailed
    else if ImageSize(src.height, src.width) != ImageSize(side, side) then WrongLength
    else if src.pixels.None? then FinishReadFailed
    else if src.height != side || src.width != side then WrongSize
    else Admitted
  }

  /** read_png_file hands its pixels to the converter exactly when it gets
      past the length check and the finish-read; the image it hands over
      then has exactly side * side pixels whenever the expected length
      itself does not wrap. */
  function Decoded(src: PngSource, side: nat): (d: bool)
    ensures d <==> src.opens && src.pixels.Some? && ImageSize(src.height, src.width) == ImageSize(side, side)
    ensures d && src.Valid() ==> |src.pixels.value| == ImageSize(side, side)
    ensures d && src.Valid() && side * side * 3 < U32 ==> src.height * src.width == side * side
  {
    Admission(src, side) == WrongSize || Admission(src, side) == Admitted
  }
}

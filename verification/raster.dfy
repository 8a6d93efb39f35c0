/** The decoded image as the converter sees it: a finite sequence of
    `(x, y, pixel)` triples, in whatever order the decoder's pixel iterator
    yields them. The decoder itself, and that order, are outside the model. */
module Raster {

  const U32_LIMIT: int := 0x1_0000_0000

  /** An 8-bit colour channel. */
  newtype u8 = v: int | 0 <= v < 256

  /** An unsigned 32-bit pixel coordinate or image dimension. */
  newtype u32 = v: int | 0 <= v < U32_LIMIT

  const U32_MAX: u32 := 0xFFFF_FFFF

  /** An RGBA pixel; `r`, `g`, `b`, `a` are channels 0 to 3 of the pixel array. */
  datatype Rgba = Rgba(r: u8, g: u8, b: u8, a: u8)

  datatype Pixel = Pixel(x: u32, y: u32, color: Rgba) {

    /** `x + 1` and `y + 1` are again 32-bit values. */
    predicate CellFits() {
      x < U32_MAX && y < U32_MAX
    }
  }

  datatype Image = Image(width: u32, height: u32, pixels: seq<Pixel>) {

    /** Every pixel the iterator yields lies inside the image. */
    predicate Valid() {
      forall i :: 0 <= i < |pixels| ==> pixels[i].x < width && pixels[i].y < height
    }

    /** The iterator yields every position of the image exactly once. */
    predicate Complete() {
      && Valid()
      && |pixels| == width as int * height as int
      && forall i, j :: 0 <= i < j < |pixels| ==>
           (pixels[i].x, pixels[i].y) != (pixels[j].x, pixels[j].y)
    }
  }

  /** Coordinates inside an image have a 32-bit successor, so the cell bounds
      `x + 1` and `y + 1` never wrap around. */
  lemma ValidPixelsFit(img: Image)
    requires img.Valid()
    ensures forall i :: 0 <= i < |img.pixels| ==> img.pixels[i].CellFits()
  {
  }
}

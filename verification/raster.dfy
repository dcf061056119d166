/** Raster data as the soil-masking transform sees it once the image has been
    decoded: a grid of rows × cols pixels, each pixel one unsigned 8-bit value
    per channel, channels ordered blue, green, red and then any extra band
    (alpha). A single-band mask has the same grid with one byte per cell.

    Both carry their dimensions explicitly, as an array shape does, so that an
    image with rows but no columns is still described exactly. */
module Raster {

  /** Largest value an 8-bit channel holds. */
  const MaxPixel: int := 255

  /** One unsigned 8-bit sample. */
  type Byte = x: int | 0 <= x <= 255

  /** Channel indices of the green and red planes; blue is channel 0. */
  const Green: nat := 1
  const Red: nat := 2

  /** Number of colour channels; channels from this index on are extra bands. */
  const ColourChannels: nat := 3

  /** A rows × cols × channels array of bytes. */
  datatype Image = Image(rows: nat, cols: nat, channels: nat, data: seq<seq<seq<Byte>>>)
  {
    /** The nested sequences have exactly the declared shape. */
    predicate Valid()
    {
      && |data| == rows
      && (forall r :: 0 <= r < rows ==> |data[r]| == cols)
      && (forall r, c :: 0 <= r < rows && 0 <= c < cols ==> |data[r][c]| == channels)
    }

    /** Number of pixels. */
    function Size(): nat
    {
      rows * cols
    }
  }

  /** A rows × cols array of bytes, one per pixel. */
  datatype Mask = Mask(rows: nat, cols: nat, data: seq<seq<Byte>>)
  {
    predicate Valid()
    {
      && |data| == rows
      && (forall r :: 0 <= r < rows ==> |data[r]| == cols)
    }

    function Size(): nat
    {
      rows * cols
    }
  }
}

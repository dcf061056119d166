/** The green:red ratio soil mask (transformer.py:68-141).

    A pixel is plant when its green value is at least `ratio` times its red
    value. The transform precomputes, for every green value, the largest red
    value still allowed; it marks each pixel 255 (plant) or 0 (soil) by a
    lookup in that table; it zeroes the colour channels of soil pixels and
    keeps every other band; and it reports the share of plant pixels.

    The division `green / ratio` is exact `real` arithmetic here; the source
    computes it in double precision. */
module RatioMask {
  import opened Raster
  import opened MaskCount

  /** Ratio the command line uses when none is given. */
  const DefaultRatio: real := 1.0

  /** Mask value of a plant pixel and of a soil pixel. */
  const PlantValue: Byte := 255
  const SoilValue: Byte := 0

  /** One table entry per possible green value. */
  const TableSize: nat := 256

  /** Why the transform refuses to produce a result. */
  datatype Error =
    | InvalidRatio(ratio: real)   // ratio is zero or negative
    | TooFewChannels              // fewer than three channels: the image cannot be read as colour
    | EmptyImage                  // no pixels to mask or to count

  datatype Result<T> = Ok(value: T) | Err(error: Error)

  /** What the transform returns: the plant fraction and the masked image. */
  datatype Masked = Masked(plantFraction: real, image: Image)

  /** Python's two-argument `min`: the first argument unless the second is smaller. */
  function Min(a: real, b: real): (m: real)
    ensures m <= a && m <= b
    ensures m == a || m == b
  {
    if b < a then b else a
  }

  /** Largest red value still compatible with plant for a given green value. */
  function RedLimit(green: int, ratio: real): (limit: real)
    requires ratio != 0.0
    ensures limit <= MaxPixel as real
    ensures ratio > 0.0 && green >= 0 ==> 0.0 <= limit
  {
    Min(green as real / ratio, MaxPixel as real)
  }

  /** Once green reaches 255 times the ratio the limit is clamped at 255, so
      any red value passes; with a ratio below 1 this holds at green 255. */
  lemma RedLimitClamps(green: int, ratio: real)
    requires ratio > 0.0 && green as real >= MaxPixel as real * ratio
    ensures RedLimit(green, ratio) == MaxPixel as real
  {
    var q := green as real / ratio;
    assert q * ratio == green as real;
    ScaleOrder(MaxPixel as real, q, ratio);
    assert q >= MaxPixel as real;
    assert RedLimit(green, ratio) == Min(q, MaxPixel as real);
  }

  /** Multiplying both sides by a positive factor keeps their order. */
  lemma ScaleOrder(a: real, b: real, k: real)
    requires k > 0.0
    ensures a <= b <==> a * k <= b * k
  {
    assert (b - a) * k == b * k - a * k;
    if a > b {
      assert (a - b) * k > 0.0;
    }
  }

  /** `table` is the red-limit table for `ratio`. */
  predicate IsRedLimitTable(table: seq<real>, ratio: real)
    requires ratio != 0.0
  {
    && |table| == TableSize
    && forall g :: 0 <= g < TableSize ==> table[g] == RedLimit(g, ratio)
  }

  /** Builds the red-limit table one green value at a time. */
  method BuildRedLimitTable(ratio: real) returns (table: seq<real>)
    requires ratio != 0.0
    ensures IsRedLimitTable(table, ratio)
    ensures forall g :: 0 <= g < |table| ==> table[g] <= MaxPixel as real
  {
    table := [];
    var idx := 0;
    while idx < TableSize
      invariant 0 <= idx <= TableSize
      invariant |table| == idx
      invariant forall g :: 0 <= g < idx ==> table[g] == RedLimit(g, ratio)
    {
      table := table + [RedLimit(idx, ratio)];
      idx := idx + 1;
    }
  }

  /** The ratio rule itself: green is at least `ratio` times red. */
  predicate IsPlant(pixel: seq<Byte>, ratio: real)
    requires |pixel| >= ColourChannels
  {
    pixel[Green] as real >= pixel[Red] as real * ratio
  }

  /** The table rule: red does not exceed the limit for the pixel's green value. */
  predicate WithinRedLimit(pixel: seq<Byte>, table: seq<real>)
    requires |pixel| >= ColourChannels && |table| == TableSize
  {
    table[pixel[Green]] >= pixel[Red] as real
  }

  /** The (row, column) positions of an image's plant pixels under the ratio rule. */
  function PlantCells(img: Image, ratio: real): set<(int, int)>
    requires img.Valid() && img.channels >= ColourChannels
  {
    set r, c | 0 <= r < img.rows && 0 <= c < img.cols && IsPlant(img.data[r][c], ratio) :: (r, c)
  }

  /** The mask of an image under a red-limit table: 255 where the pixel is
      within the limit, 0 elsewhere. */
  function Classify(img: Image, table: seq<real>): (mask: Mask)
    requires img.Valid() && img.channels >= ColourChannels && |table| == TableSize
    ensures mask.Valid() && mask.rows == img.rows && mask.cols == img.cols
    ensures forall r, c :: 0 <= r < img.rows && 0 <= c < img.cols ==>
              mask.data[r][c] == PlantValue || mask.data[r][c] == SoilValue
    ensures forall r, c :: 0 <= r < img.rows && 0 <= c < img.cols ==>
              (mask.data[r][c] == PlantValue <==> WithinRedLimit(img.data[r][c], table))
  {
    var data := seq(img.rows, r requires 0 <= r < img.rows =>
                  seq(img.cols, c requires 0 <= c < img.cols =>
                    if WithinRedLimit(img.data[r][c], table) then PlantValue else SoilValue));
    Mask(img.rows, img.cols, data)
  }

  /** Comparing red with the clamped limit is the same as comparing green
      with `red * ratio`: the clamp at 255 never changes the outcome because
      red is at most 255. */
  lemma RedLimitMatchesRatio(green: Byte, red: Byte, ratio: real)
    requires ratio > 0.0
    ensures RedLimit(green, ratio) >= red as real <==> green as real >= red as real * ratio
  {
    var q := green as real / ratio;
    assert q * ratio == green as real;
    if q <= MaxPixel as real {
      assert RedLimit(green, ratio) == q;
      ScaleOrder(red as real, q, ratio);
    } else {
      assert RedLimit(green, ratio) == MaxPixel as real;
      ScaleOrder(red as real, q, ratio);
    }
  }

  /** Classifying with the red-limit table for `ratio` marks exactly the
      pixels the ratio rule calls plant. */
  lemma ClassifyFollowsRatio(img: Image, table: seq<real>, ratio: real)
    requires img.Valid() && img.channels >= ColourChannels
    requires ratio > 0.0 && IsRedLimitTable(table, ratio)
    ensures forall r, c :: 0 <= r < img.rows && 0 <= c < img.cols ==>
              (Classify(img, table).data[r][c] == PlantValue <==> IsPlant(img.data[r][c], ratio))
    ensures NonZeroCells(Classify(img, table)) == PlantCells(img, ratio)
  {
    var mask := Classify(img, table);
    forall r, c | 0 <= r < img.rows && 0 <= c < img.cols
      ensures mask.data[r][c] == PlantValue <==> IsPlant(img.data[r][c], ratio)
    {
      var p := img.data[r][c];
      RedLimitMatchesRatio(p[Green], p[Red], ratio);
    }
  }

  /** gen_plant_mask: builds the table for `ratio` and classifies every pixel. */
  method GenPlantMask(img: Image, ratio: real) returns (mask: Mask)
    requires img.Valid() && img.channels >= ColourChannels && ratio != 0.0
    ensures mask.Valid() && mask.rows == img.rows && mask.cols == img.cols
    ensures forall r, c :: 0 <= r < img.rows && 0 <= c < img.cols ==>
              mask.data[r][c] == PlantValue || mask.data[r][c] == SoilValue
    ensures forall r, c :: 0 <= r < img.rows && 0 <= c < img.cols ==>
              (mask.data[r][c] == PlantValue
               <==> RedLimit(img.data[r][c][Green], ratio) >= img.data[r][c][Red] as real)
    ensures ratio > 0.0 ==>
              forall r, c :: 0 <= r < img.rows && 0 <= c < img.cols ==>
                (mask.data[r][c] == PlantValue <==> IsPlant(img.data[r][c], ratio))
    ensures ratio > 0.0 ==> NonZeroCells(mask) == PlantCells(img, ratio)
  {
    var table := BuildRedLimitTable(ratio);
    mask := Classify(img, table);
    if ratio > 0.0 {
      ClassifyFollowsRatio(img, table, ratio);
    }
  }

  /** One pixel under the mask: its colour channels where the mask is
      non-zero, zeros where it is zero, and any further bands unchanged. */
  function MaskPixel(pixel: seq<Byte>, m: Byte): (out: seq<Byte>)
    requires |pixel| >= ColourChannels
    ensures |out| == |pixel|
    ensures forall ch :: ColourChannels <= ch < |pixel| ==> out[ch] == pixel[ch]
    ensures forall ch :: 0 <= ch < ColourChannels ==> out[ch] == (if m != 0 then pixel[ch] else 0)
  {
    (if m != 0 then pixel[..ColourChannels] else [0, 0, 0]) + pixel[ColourChannels..]
  }

  /** gen_rgb_mask: applies a mask to an image of three or more channels. */
  function GenRgbMask(img: Image, mask: Mask): (out: Image)
    requires img.Valid() && img.channels >= ColourChannels
    requires mask.Valid() && mask.rows == img.rows && mask.cols == img.cols
    ensures out.Valid()
    ensures out.rows == img.rows && out.cols == img.cols && out.channels == img.channels
    ensures forall r, c, ch :: 0 <= r < img.rows && 0 <= c < img.cols && 0 <= ch < ColourChannels ==>
              out.data[r][c][ch] == (if mask.data[r][c] != 0 then img.data[r][c][ch] else 0)
    ensures forall r, c, ch :: 0 <= r < img.rows && 0 <= c < img.cols && ColourChannels <= ch < img.channels ==>
              out.data[r][c][ch] == img.data[r][c][ch]
  {
    var data := seq(img.rows, r requires 0 <= r < img.rows =>
                  seq(img.cols, c requires 0 <= c < img.cols =>
                    MaskPixel(img.data[r][c], mask.data[r][c])));
    Image(img.rows, img.cols, img.channels, data)
  }

  /** Applying the same mask twice changes nothing after the first time. */
  lemma GenRgbMaskIdempotent(img: Image, mask: Mask)
    requires img.Valid() && img.channels >= ColourChannels
    requires mask.Valid() && mask.rows == img.rows && mask.cols == img.cols
    ensures GenRgbMask(GenRgbMask(img, mask), mask) == GenRgbMask(img, mask)
  {
    var once := GenRgbMask(img, mask);
    var twice := GenRgbMask(once, mask);
    forall r, c | 0 <= r < img.rows && 0 <= c < img.cols
      ensures twice.data[r][c] == once.data[r][c]
    {
      assert |twice.data[r][c]| == |once.data[r][c]|;
    }
    assert forall r | 0 <= r < img.rows :: twice.data[r] == once.data[r];
  }

  /** Masking the masked image again keeps it as it is and marks every pixel
      plant: soil pixels have become black, and black (green 0, red 0) meets
      the inclusive threshold `0 >= 0`. */
  lemma MaskedImageIsAllPlant(img: Image, table: seq<real>, ratio: real)
    requires img.Valid() && img.channels >= ColourChannels
    requires ratio != 0.0 && IsRedLimitTable(table, ratio)
    ensures var out := GenRgbMask(img, Classify(img, table));
            && (forall r, c :: 0 <= r < out.rows && 0 <= c < out.cols ==>
                  Classify(out, table).data[r][c] == PlantValue)
            && GenRgbMask(out, Classify(out, table)) == out
  {
    var mask := Classify(img, table);
    var out := GenRgbMask(img, mask);
    var again := Classify(out, table);
    assert table[0] == 0.0;
    forall r, c | 0 <= r < out.rows && 0 <= c < out.cols
      ensures again.data[r][c] == PlantValue
    {
      if mask.data[r][c] == SoilValue {
        assert out.data[r][c][Green] == 0 && out.data[r][c][Red] == 0;
      } else {
        assert out.data[r][c][Green] == img.data[r][c][Green];
        assert out.data[r][c][Red] == img.data[r][c][Red];
      }
    }
    var out2 := GenRgbMask(out, again);
    forall r, c | 0 <= r < out.rows && 0 <= c < out.cols
      ensures out2.data[r][c] == out.data[r][c]
    {
      assert |out2.data[r][c]| == |out.data[r][c]|;
    }
    assert forall r | 0 <= r < out.rows :: out2.data[r] == out.data[r];
  }

  /** soilmask_by_ratio on an already decoded image: rejects a ratio that is
      zero or negative before looking at the image, then returns the plant
      fraction and the image with soil pixels' colour channels zeroed. */
  method SoilmaskByRatio(img: Image, ratio: real) returns (res: Result<Masked>)
    requires img.Valid()
    ensures ratio <= 0.0 ==> res == Err(InvalidRatio(ratio))
    ensures ratio > 0.0 && img.channels < ColourChannels ==> res == Err(TooFewChannels)
    ensures ratio > 0.0 && img.channels >= ColourChannels && img.Size() == 0 ==> res == Err(EmptyImage)
    ensures ratio > 0.0 && img.channels >= ColourChannels && img.Size() > 0 ==> res.Ok?
    ensures res.Ok? ==>
              && img.channels >= ColourChannels && img.Size() > 0
              && 0.0 <= res.value.plantFraction <= 1.0
              && res.value.plantFraction == |PlantCells(img, ratio)| as real / img.Size() as real
    ensures res.Ok? ==>
              var out := res.value.image;
              && out.Valid()
              && out.rows == img.rows && out.cols == img.cols && out.channels == img.channels
              && forall r, c :: 0 <= r < img.rows && 0 <= c < img.cols ==>
                   if IsPlant(img.data[r][c], ratio) then out.data[r][c] == img.data[r][c]
                   else && out.data[r][c][..ColourChannels] == [0, 0, 0]
                        && out.data[r][c][ColourChannels..] == img.data[r][c][ColourChannels..]
  {
    if ratio <= 0.0 {
      return Err(InvalidRatio(ratio));
    }
    if img.channels < ColourChannels {
      return Err(TooFewChannels);
    }
    var mask := GenPlantMask(img, ratio);
    if mask.Size() == 0 {
      return Err(EmptyImage);
    }
    var fraction := PlantFraction(mask);
    var out := GenRgbMask(img, mask);
    forall r, c | 0 <= r < img.rows && 0 <= c < img.cols
      ensures if IsPlant(img.data[r][c], ratio) then out.data[r][c] == img.data[r][c]
              else && out.data[r][c][..ColourChannels] == [0, 0, 0]
                   && out.data[r][c][ColourChannels..] == img.data[r][c][ColourChannels..]
    {
      assert |out.data[r][c]| == |img.data[r][c]|;
    }
    return Ok(Masked(fraction, out));
  }

  /** Worked cases of the rule: at the default ratio 1 green 100 admits red
      100 (the threshold is inclusive) but not red 101; at ratio 2 green 50
      admits at most red 25; at ratio 0.5 the limit for green 50 is 100. */
  lemma RuleExamples()
    ensures IsPlant([0, 100, 100], DefaultRatio) && RedLimit(100, DefaultRatio) == 100.0
    ensures !IsPlant([0, 100, 101], DefaultRatio)
    ensures RedLimit(50, 2.0) == 25.0 && !IsPlant([0, 50, 30], 2.0)
    ensures RedLimit(50, 0.5) == 100.0 && IsPlant([0, 50, 30], 0.5)
  {
  }

  /** Below ratio 1 the limit for green 255 is clamped to 255, so a pixel
      with green 255 is plant whatever its red value. */
  lemma FullGreenIsPlantBelowUnitRatio(red: Byte, ratio: real)
    requires 0.0 < ratio < 1.0
    ensures RedLimit(MaxPixel, ratio) == MaxPixel as real
    ensures IsPlant([0, MaxPixel, red], ratio)
  {
    RedLimitClamps(MaxPixel, ratio);
    RedLimitMatchesRatio(MaxPixel, red, ratio);
  }

  /** A 2 × 2 image at the default ratio 1 with one plant pixel and three soil pixels has
      plant fraction one quarter; the soil pixels come out black and the
      fourth band is kept. */
  lemma QuarterPlantExample(table: seq<real>)
    requires IsRedLimitTable(table, DefaultRatio)
    ensures var img := Image(2, 2, 4, [[[0, 100, 100, 7], [0, 100, 101, 7]],
                                       [[0, 10, 200, 7], [0, 0, 1, 7]]]);
            var mask := Classify(img, table);
            && PlantFraction(mask) == 0.25
            && GenRgbMask(img, mask).data[0][1] == [0, 0, 0, 7]
  {
    var img := Image(2, 2, 4, [[[0, 100, 100, 7], [0, 100, 101, 7]],
                               [[0, 10, 200, 7], [0, 0, 1, 7]]]);
    var mask := Classify(img, table);
    assert table[100] == 100.0 && table[10] == 10.0 && table[0] == 0.0;
    assert mask.data[0][0] == 255 && mask.data[0][1] == 0;
    assert mask.data[1][0] == 0 && mask.data[1][1] == 0;
    assert NonZeroCells(mask) == {(0, 0)};
  }
}

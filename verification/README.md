# Soil masking by green:red ratio — a Dafny model

This project models the core of the soil-mask-by-ratio transformer. It takes
a decoded colour image and a green:red ratio. A pixel is plant when its green
value is at least `ratio` times its red value, and soil otherwise. The
transform returns two things:

- the fraction of pixels that are plant;
- a copy of the image with the colour channels of soil pixels set to zero.

Any band past the third, such as alpha, is copied through unchanged. The
project also models the helper that names the mask file.

Files:

- `raster.dfy` (module `Raster`): the image and mask as datatypes of nested
  byte sequences with explicit dimensions. Channel 0 is blue, 1 is green and
  2 is red. That is the order the image is in after the source's BGR→RGB
  conversion call.
- `ratio_mask.dfy` (module `RatioMask`): the parts of the transform.
  - the ratio guard;
  - the red-limit lookup table, `min(g / ratio, 255)` for each green value `g`;
  - per-pixel classification into 255 (plant) or 0 (soil);
  - mask application;
  - the whole `soilmask_by_ratio` step as a method returning a `Result`.
- `mask_count.dfy` (module `MaskCount`): numpy's `count_nonzero` on a mask
  and the plant fraction computed from it. The count is tied to an
  independent definition: the cardinality of the set of non-zero cells.
- `mask_name.dfy` (module `MaskName`): `get_maskfilename`. It uses the POSIX
  rules of `os.path.basename` and `os.path.splitext`.

Main properties proved:

- The table lookup is equivalent to the ratio rule `green >= red * ratio`.
  The clamp at 255 never changes a decision because red is at most 255, and
  the threshold is inclusive.
- Soil pixels come out black, while plant pixels and extra bands are
  unchanged.
- The fraction is the share of plant pixels and lies in [0, 1]. It is 1
  exactly when every pixel is plant, and 0 exactly when none is.
- Masking is idempotent. Running the mask again on its own output marks
  every pixel plant, because black meets the inclusive threshold `0 >= 0`.
- The mask file name splits back into the input's stem plus `_mask`, and the
  input's extension.

The model follows the code in these details:

- The mask is applied wherever the mask byte is non-zero. This is the rule
  of `cv2.bitwise_and` with a mask (transformer.py:106).
- Every band past the third is passed through (transformer.py:108-109).
- The transform reports two more errors besides a ratio ≤ 0.
  - `TooFewChannels`: the image has fewer than three channels.
  - `EmptyImage`: the image has no pixels.

  The source raises an exception in both cases while loading and converting
  the image, before the masking code runs. "## Left out" says more.

## Model

| member | source | states |
|---|---|---|
| `RatioMask.RedLimit` | transformer.py:79-81 | a table entry never exceeds 255 and is non-negative for a positive ratio |
| `RatioMask.RedLimitClamps` | transformer.py:81 | once green reaches 255 × ratio, the entry is clamped to exactly 255 |
| `RatioMask.BuildRedLimitTable` | transformer.py:79-82 | the table has 256 entries, entry g is `min(g / ratio, 255)`, and none exceeds 255 |
| `RatioMask.Classify` | transformer.py:85-93 | the mask has the image's rows × cols, every entry is 0 or 255, and 255 exactly when `table[green] >= red` (equality is plant) |
| `RatioMask.RedLimitMatchesRatio` | transformer.py:79-90 | for a positive ratio, `min(green / ratio, 255) >= red` holds iff `green >= red * ratio` |
| `RatioMask.ClassifyFollowsRatio` | transformer.py:79-93 | classifying with the table for a positive ratio marks exactly the pixels with `green >= red * ratio`, so its non-zero cells are the plant cells |
| `RatioMask.GenPlantMask` | transformer.py:68-95 | gen_plant_mask gives a rows × cols mask of 0/255 values, 255 iff the pixel is within the red limit, which for a positive ratio is iff the ratio rule holds |
| `RatioMask.MaskPixel` | transformer.py:106-109 | a masked pixel keeps its length and its bands from index 3 on, and its colour channels are kept when the mask byte is non-zero and 0 otherwise |
| `RatioMask.GenRgbMask` | transformer.py:97-111 | the output has the input's shape and channel count, channels 0..2 equal the input where the mask is non-zero and 0 where it is zero, and channels 3 and up are copied unchanged |
| `RatioMask.GenRgbMaskIdempotent` | transformer.py:106-109 | applying the same mask to the masked image gives the masked image again |
| `RatioMask.MaskedImageIsAllPlant` | transformer.py:79-111 | re-classifying the masked image at the same ratio marks every pixel plant, and re-masking leaves it unchanged |
| `RatioMask.SoilmaskByRatio` | transformer.py:114-141 | a ratio ≤ 0 is rejected whatever the image. Otherwise a success carries a fraction in [0, 1] equal to the number of plant pixels over the pixel count, and an image of the same shape where plant pixels are unchanged and soil pixels have zero colour channels and unchanged extra bands. Too few channels and an empty image are errors |
| `RatioMask.RuleExamples` | transformer.py:79-90 | worked cases: at the default ratio 1, green 100 admits red 100 but not red 101; at ratio 2, green 50 gives limit 25; at ratio 0.5 it gives 100 |
| `RatioMask.FullGreenIsPlantBelowUnitRatio` | transformer.py:79-90 | below ratio 1 the limit for green 255 is clamped to 255, so a pixel with green 255 is plant whatever its red value |
| `RatioMask.QuarterPlantExample` | transformer.py:134-139 | a 2 × 2 image with one plant pixel has fraction 0.25, a soil pixel becomes black, and its fourth band is kept |
| `MaskCount.GridCellsCount` | transformer.py:136 | the recursive non-zero count of a grid equals the cardinality of its set of non-zero cells |
| `MaskCount.CountNonZero` | transformer.py:136 | count_nonzero is the number of non-zero cells and at most rows × cols |
| `MaskCount.PlantFraction` | transformer.py:136-137 | fraction × size equals the number of non-zero cells, and the fraction lies in [0, 1] |
| `MaskCount.FractionOneIffAllPlant` | transformer.py:136-137 | the fraction is 1 exactly when every mask cell is non-zero |
| `MaskCount.FractionZeroIffNoPlant` | transformer.py:136-137 | the fraction is 0 exactly when every mask cell is zero |
| `MaskName.RFind` | transformer.py:41 | the result is -1 or an index holding the character, and no later index holds it |
| `MaskName.Basename` | transformer.py:41 | the base name has no separator and is the suffix of the path after its last separator |
| `MaskName.SplitExt` | transformer.py:41 | stem + extension is the input. The extension is empty or one dot followed by neither dot nor separator. It is non-empty exactly when the last path component has a dot preceded there by a non-dot character |
| `MaskName.LastDotDecides` | transformer.py:41 | such a dot exists exactly when the path's last dot lies after its last separator and has a non-dot character before it in that component |
| `MaskName.MaskFileName` | transformer.py:41-43 | the mask name has no directory part and is five characters longer than the base name. A base name without an extension just gains `_mask` at its end |
| `MaskName.MaskFileNameSplits` | transformer.py:41-43 | splitting the mask name gives the input's stem + `_mask` and the input's extension, and that stem + extension is the input's base name |
| `MaskName.SplitExtLastDotExamples` | transformer.py:41 | `img.tif` splits into `img` and `.tif`, and `a.b.c` into `a.b` and `.c` |
| `MaskName.SplitExtHiddenFileExample` | transformer.py:41 | `.bashrc` has no extension |
| `MaskName.MaskFileNameExample` | transformer.py:41-43 | `/data/dir.d/field.tif` gives `field_mask.tif` |
| `MaskName.MaskFileNameNoExtensionExample` | transformer.py:41-43 | `dir.d/README` gives `README_mask` |

## Left out

- Reading the raster through GDAL (transformer.py:130) and writing the GeoTIFF or TIFF (transformer.py:256-259). Both are file I/O through libraries the model cannot see. The model takes the decoded image as a parameter.
- The `cv2.cvtColor` BGR↔RGB conversions (transformer.py:131, 251). The model takes the image in the channel order the conversion produces. The conversion's own refusal of channel counts other than 3 and 4 is not modelled.
- `perform_process` and `check_continue` (transformer.py:163-284). They are pipeline orchestration: file existence checks, EPSG and bounds lookup, exception wrapping and result codes.
- `prepare_metadata_for_geotiff` (transformer.py:46-66). It only assembles a dictionary for the external writer.
- `configuration.py`. It holds string constants for the host framework and has no behaviour.
- RatioMask.RedLimit: uses exact `real` division where the source uses IEEE double division of `idx / ratio`. A pixel whose red value sits exactly on a limit that a double cannot represent may be classified differently.
- MaskCount.PlantFraction: divides exactly in `real`, where the source divides `count / float(size)` in double precision (transformer.py:137). The double quotient is rounded, so the promise that fraction × size equals the count holds only for the exact quotient.
- RatioMask.SoilmaskByRatio: `TooFewChannels` and `EmptyImage` stand in for exceptions the source raises while loading and converting the image. A one-band raster fails at `np.rollaxis` (transformer.py:130). A two-band or empty array fails at `cv2.cvtColor` (transformer.py:131), which accepts only 3 or 4 channels and rejects empty input. The model does not tell these exceptions apart.
- RatioMask.SoilmaskByRatio: a NaN or infinite ratio has no `real` counterpart. The source lets NaN through `ratio <= 0`.
- MaskName.Basename: follows the POSIX path rules only, so Windows separators are not modelled; MaskName.SplitExt likewise.

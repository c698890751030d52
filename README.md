# CAP5400 image toolkit — a Dafny model

This project models the core of the CAP5400 image-processing toolkit:

- **The pixel buffer** (`Image`). A grid of rows × columns × channels integer samples. Writes clamp values into [0, 255]. The buffer keeps a list of subscribers and calls them once after every successful write.
- **The region of interest** (`ROI`). A copy of a rectangular block of a source image. Filters edit the copy, and `applyModifications` writes it back into the source.
- **The region filters** of `Toolbox`: add grey, add or decrease brightness, binarise, and rotate by quarter turns.
- **The RGB histogram** (`Histogram`). For every channel, a map from each intensity to the set of region points with that intensity. The histogram subscribes to its region image and performs linear histogram stretching. In the source, its subscription rebuilds the bins on every notification. The model rebuilds them, with `ComputeBin`, only at the end of its own stretch (see Left out).
- **The string helpers** of `Misc`: file extensions and random name suffixes.

## How the model is built

Java exceptions become values. `Result<T>` and `Outcome` carry them, and `Errors.Error` has one constructor per exception class. Failures that the JVM raises on its own get constructors too: `ArrayIndexOutOfBounds` for an index past the end of an array or list, and `NullPointer` for a missing map entry. Methods that throw in Java return `Fail(...)` or `Err(...)` in the model, and their contracts say exactly when.

Most classes update their state in place, and the model keeps that form:

- `Image` is a class. Its dimensions are constants and its samples are an `array3<int>`.
- Subscribers are modelled as ids in `observers`.
- Each notification round is recorded in a ghost log, `notifications`. Every round holds the subscriber list it called, so contracts can say how many rounds an operation fires, e.g. `Rounds(observers, n)`.

The loops of the Java code stay loops. Their invariants are stated per sample, and the nested-loop counters use `Regions.Steps`.

Java's 32-bit `int` is written out where it matters:

- `JavaInt.Wrap` models overflow of the sums in `addGrey`, `decreaseBrightness` and the ROI bounds test.
- Requirements of the form `IsInt(x)` state that an argument is a Java `int`.

Quirks of the code are modelled as written:

- **Inclusive bounds test.** The two-index test `isInBounds` accepts the one-past-the-end row and column. An access there passes the test and then fails on the array: `Err(ArrayIndexOutOfBounds)`. `NewRoi` accepts a block that ends exactly at the image edge.
- **Stretch arithmetic.**
  - `newMin` and `newMax` are the lowest and highest non-empty bins scaled by 1.05 and 0.95 and truncated (Histogram.java:280-281). The products are taken in double precision, which gives the exact integer quotients `lowest * 105 / 100` and `highest * 95 / 100` for every intensity in 0..255.
  - New bin = `minStretch + (i - newMin) * (maxStretch - minStretch) / (newMax - newMin)`. The `(int)` cast at Histogram.java:296 truncates; it does not round.
  - Intensities below `newMin` collapse onto `newMin` itself, not onto `minStretch`. The mapping is therefore monotone only inside `[newMin, newMax)` (`StretchMonotoneInside`) and can swap neighbours at the lower edge (`StretchCanReorder`).
  - When the lowest non-empty bin is 244 or more, `newMin` exceeds 255. The stretched-bin map has no list for it, and the stretch fails with a null pointer before anything is written.
- **Channel count.** `ROI.getChannels` and the `region.getNumChannels()` calls of `Toolbox` and `Histogram` are both read as the source image's channel count (`Regions.ROI.Channels`).

Properties proved beyond the single-call contracts:

- Extension round trip (`Misc.ExtensionOfJoin`).
- `n & (n - 1) == 0` exactly for powers of two (`Regions.PowerOfTwoTest`).
- An ROI cut out and committed unchanged leaves its image as it was (`Regions.ExtractAndCommit`).
- Four quarter turns are the identity (`Toolbox.FullTurn`), so rotating by a multiple of 360 degrees moves no sample (`Toolbox.FullCircle`).
- The histogram bins partition the region (`Histograms.BinsPartition`), and the lowest and highest non-empty bins are the channel's smallest and largest samples (`Histograms.BinsGiveExtremes`).
- A stretch leaves the bins of every other channel unchanged (`Histograms.Histogram.PerformStretch`).
- The bin sizes of a channel add up to rows × columns (`Histograms.BinSizesSum`).
- Add grey, add brightness, decrease brightness and binarise give the same region whether applied once or twice (`Toolbox.AddGreyTwice` and the three methods beside it).

## Model

| member | source | states |
|---|---|---|
| JavaInt.Wrap | src/main/java/org/CAP5400/Toolbox/Toolbox.java:37 | the result is a 32-bit int congruent to the argument modulo 2^32, and equals the argument when it already fits |
| Misc.LastIndexOf | src/main/java/org/CAP5400/Misc/Misc.java:33 | -1 exactly when the character is absent; otherwise a position holding it with no occurrence after it |
| Misc.GetFileExtension | src/main/java/org/CAP5400/Misc/Misc.java:29-38 | "" for null, blank or dot-free names; otherwise the dot-free suffix after the last '.', the name being prefix + "." + extension |
| Misc.ExtensionOfJoin | src/main/java/org/CAP5400/Misc/Misc.java:29-38 | the extension of stem + "." + e is e for every dot-free e (round trip) |
| Misc.ToLowerCase | src/main/java/org/CAP5400/Toolbox/Histogram.java:52 | same length; no ASCII capital is left; each capital becomes the letter 32 code points above it, and every other character is kept |
| Misc.LowerCaseOfRgb | src/main/java/org/CAP5400/Toolbox/Histogram.java:52-53 | lower-casing is idempotent and yields "rgb" exactly for the upper/lower-case spellings of "rgb" |
| Misc.GetRandomString | src/main/java/org/CAP5400/Misc/Misc.java:45-56 | IllegalArgument("Length must be greater than 0.") exactly when length <= 0; otherwise `length` characters, each from CHARACTERS |
| Images.LimitValue | src/main/java/org/CAP5400/Image/Image.java:293-301 | the result lies in [0, 255], equals in-range values, and is the nearest in-range value |
| Images.LimitValueIsMinMax | src/main/java/org/CAP5400/Image/Image.java:293-301 | clamping equals min(255, max(0, value)) |
| Images.FlatIndex | src/main/java/org/CAP5400/Image/Image.java:256 | i * columns + j lies in [0, rows * columns) and decodes back to (i, j) by division and remainder |
| Images.Image.constructor | src/main/java/org/CAP5400/Image/Image.java:46-56 | a fresh zero-filled grid of the given dimensions; isColor exactly for three channels; no subscribers |
| Images.Image.Copy | src/main/java/org/CAP5400/Image/Image.java:72-89 | a fresh grid with the same dimensions and samples (Equals) and no subscribers |
| Images.Image.IsInBounds | src/main/java/org/CAP5400/Image/Image.java:237-239 | every grid position passes; the only other positions that pass are those in the one-past-the-end row or column |
| Images.Image.IsInBounds3 | src/main/java/org/CAP5400/Image/Image.java:227-229 | every grid sample passes; a sample outside the grid passes only in the one-past-the-end row or column |
| Images.Image.GetPixel | src/main/java/org/CAP5400/Image/Image.java:155-160 | Ok with the stored sample exactly for a position in the grid; ImageOutOfBounds when the inclusive test fails, ArrayIndexOutOfBounds when it passes at a one-past-end index |
| Images.Image.GetGreyPixel | src/main/java/org/CAP5400/Image/Image.java:169-178 | Ok exactly for a grey image and a grid position, with channel 0's sample; ImageOutOfBounds when the bounds test fails, then GreyscaleOnly for colour images, then ArrayIndexOutOfBounds at a one-past-end row or column |
| Images.Image.SetPixel | src/main/java/org/CAP5400/Image/Image.java:191-198 | on success the sample becomes LimitValue(value), nothing else changes, and one notification round fires; on failure no sample changes and nothing is notified |
| Images.Image.SetGreyPixel | src/main/java/org/CAP5400/Image/Image.java:209-218 | as SetPixel on channel 0; fails with ImageOutOfBounds, then GreyscaleOnly, then ArrayIndexOutOfBounds at a one-past-end row or column, changing nothing and notifying no one |
| Images.Image.GetChannel | src/main/java/org/CAP5400/Image/Image.java:246-260 | IllegalArgument for a bad channel; otherwise rows * columns samples with entry i * columns + j holding sample (i, j) |
| Images.Image.SetChannel | src/main/java/org/CAP5400/Image/Image.java:268-285 | fails for a bad channel or length; otherwise channel k takes the clamped data in row-major order, the other channels are kept, and one round fires |
| Images.Image.Equals | src/main/java/org/CAP5400/Image/Image.java:381-390 | an image equals itself; EqualsIsObservational characterises it by dimensions and GetPixel |
| Images.Image.EqualsIsObservational | src/main/java/org/CAP5400/Image/Image.java:381-390 | two images are Equals exactly when they have the same dimensions and every GetPixel agrees |
| Images.Image.DeepCopy | src/main/java/org/CAP5400/Image/Image.java:463-476 | ImageDimensionsNotSame exactly for differing dimensions (nothing changes); otherwise the samples become the other's, the images are Equals, and one round fires |
| Images.Image.AddObserver | src/main/java/org/CAP5400/Image/Image.java:482-484 | the subscriber is appended; nothing is notified |
| Images.Image.RemoveObserver | src/main/java/org/CAP5400/Image/Image.java:491-493 | the first occurrence of the subscriber is removed, as List.remove does |
| Images.Image.NotifyObserver | src/main/java/org/CAP5400/Image/Image.java:499-501 | one round calling the current subscribers in order |
| Images.RemoveFirst | src/main/java/org/CAP5400/Image/Image.java:491-493 | an absent element leaves the list as it is; a present one is removed at its first index, one fewer in the multiset |
| Images.OpenMode | src/main/java/org/CAP5400/Image/Image.java:97-110 | ".pgm" opens grey, ".ppm" colour, any other extension is ImageIncorrectExtension |
| Images.SaveCheck | src/main/java/org/CAP5400/Image/Image.java:307-312 | saving is refused unless the extension is ppm or pgm, and accepts exactly the names that can be opened |
| Images.OpenByExtension | src/main/java/org/CAP5400/Image/Image.java:99-110 | for every stem and dot-free extension, stem.pgm opens grey, stem.ppm colour, other extensions are refused |
| Images.NewImage | src/main/java/org/CAP5400/Image/Image.java:46-49 | IllegalArgument exactly when a dimension is not positive; otherwise a fresh zero-filled image of those dimensions |
| Images.CopyChannels | src/main/java/org/CAP5400/Image/Image.java:246-285 | copying every channel of a through GetChannel and SetChannel makes b Equals a |
| Regions.ROI.constructor | src/main/java/org/CAP5400/RegionOfInterest/ROI.java:99-122 | a valid region whose fresh region image holds exactly the block of the source (InSync) |
| Regions.ROI.EndX | src/main/java/org/CAP5400/RegionOfInterest/ROI.java:70-72 | one past the last source row of the block; its property is stated by EndsInBounds |
| Regions.ROI.EndY | src/main/java/org/CAP5400/RegionOfInterest/ROI.java:78-80 | one past the last source column of the block; its property is stated by EndsInBounds |
| Regions.ROI.EndsInBounds | src/main/java/org/CAP5400/RegionOfInterest/ROI.java:70-80 | the end corner passes the source's bounds test and region positions are exactly the block [start, end) |
| Regions.ROI.EnforceSquareDimensions | src/main/java/org/CAP5400/RegionOfInterest/ROI.java:128-132 | fails with "ROI must be square" exactly when enforcing and the extents differ |
| Regions.ROI.EnforceBaseTwoDimensions | src/main/java/org/CAP5400/RegionOfInterest/ROI.java:138-144 | fails exactly when enforcing and an extent is not a power of two |
| Regions.ROI.Equals | src/main/java/org/CAP5400/RegionOfInterest/ROI.java:151-161 | a region equals itself, and equal regions end at the same corner; SyncedRoisEqual shows it depends only on the position and the block's samples |
| Regions.ROI.ApplyModifications | src/main/java/org/CAP5400/RegionOfInterest/ROI.java:190-199 | the block of the source becomes the region's samples, the rest of the source is unchanged, and one round fires per sample |
| Regions.PowerOfTwoTest | src/main/java/org/CAP5400/RegionOfInterest/ROI.java:139-140 | for positive n, n & (n - 1) == 0 exactly when n is a power of two |
| Regions.WrappedEndTest | src/main/java/org/CAP5400/RegionOfInterest/ROI.java:101-102 | the bounds test on the wrapped int sum start + total agrees with the test on the exact sum |
| Regions.NewRoi | src/main/java/org/CAP5400/RegionOfInterest/ROI.java:99-112 | RoiOutOfBounds exactly when a corner fails the inclusive test; IllegalArgument for a non-positive extent; otherwise a valid, synchronised region |
| Regions.SyncedRoisEqual | src/main/java/org/CAP5400/RegionOfInterest/ROI.java:151-161 | synchronised regions at the same place in equal sources are equal |
| Regions.ExtractAndCommit | src/main/java/org/CAP5400/RegionOfInterest/ROI.java:190-199 | cutting a region out and applying it unchanged leaves every sample of the image as it was |
| Toolbox.GreyAdded | src/main/java/org/CAP5400/Toolbox/Toolbox.java:37-38 | the new sample always lies in [0, 255], even when the int sum overflows |
| Toolbox.GreyAddedIsCappedSum | src/main/java/org/CAP5400/Toolbox/Toolbox.java:37-38 | without overflow the new sample is the sum clamped to [0, 255] |
| Toolbox.GreyAddedOverflowIsBlack | src/main/java/org/CAP5400/Toolbox/Toolbox.java:37-38 | a sum that overflows the int range wraps negative and gives 0 |
| Toolbox.AddGrey | src/main/java/org/CAP5400/Toolbox/Toolbox.java:29-41 | refuses colour sources; otherwise channel 0 of every region sample becomes GreyAdded(source sample, value), other channels are kept, one round per sample |
| Toolbox.BrightenSample | src/main/java/org/CAP5400/Toolbox/Toolbox.java:54-58 | one region sample becomes its source sample plus value, clamped; nothing else changes; one round fires |
| Toolbox.AddBrightness | src/main/java/org/CAP5400/Toolbox/Toolbox.java:49-63 | for -50 < value < 50 every sample becomes LimitValue(source + value) with one round per sample; any other value changes nothing |
| Toolbox.Darkened | src/main/java/org/CAP5400/Toolbox/Toolbox.java:88-92 | below the threshold the new sample lies in [0, 255]; at or above it the current region sample is kept |
| Toolbox.DarkenedTwice | src/main/java/org/CAP5400/Toolbox/Toolbox.java:88-92 | darkening a sample a second time with the same arguments changes nothing |
| Toolbox.DarkenedIsDarker | src/main/java/org/CAP5400/Toolbox/Toolbox.java:88-91 | a darkened sample is max(0, sample - value) and never brighter than the source sample |
| Toolbox.DarkenSample | src/main/java/org/CAP5400/Toolbox/Toolbox.java:86-92 | writes, and notifies, exactly when the source sample is below the threshold; the sample becomes Darkened(...) |
| Toolbox.DecreaseBrightness | src/main/java/org/CAP5400/Toolbox/Toolbox.java:74-96 | a threshold outside [0, 255] is refused with nothing changed; otherwise samples whose source is below the threshold are darkened and the rest kept |
| Toolbox.Binarized | src/main/java/org/CAP5400/Toolbox/Toolbox.java:119 | the result is 0 or 255, and 0 exactly below the threshold |
| Toolbox.BinarizedMonotone | src/main/java/org/CAP5400/Toolbox/Toolbox.java:119 | binarising preserves the order of samples |
| Toolbox.Binarize | src/main/java/org/CAP5400/Toolbox/Toolbox.java:105-123 | the colour test, then the threshold test; otherwise channel 0 becomes Binarized(source sample), one round per sample |
| Toolbox.QuarterTurnSource | src/main/java/org/CAP5400/Toolbox/Toolbox.java:168-174 | stays inside an n × n grid, and the loop's write position (j, n-1-i) of the result is the given position, so it inverts the quarter turn |
| Toolbox.RotatedFrom | src/main/java/org/CAP5400/Toolbox/Toolbox.java:171-173 | the source position of a sample after some quarter turns stays inside an n × n grid |
| Toolbox.RotatedFromAdd | src/main/java/org/CAP5400/Toolbox/Toolbox.java:197-200 | a + b quarter turns are b quarter turns followed by a |
| Toolbox.FullTurn | src/main/java/org/CAP5400/Toolbox/Toolbox.java:164-179 | four quarter turns put every position back |
| Toolbox.FourMore | src/main/java/org/CAP5400/Toolbox/Toolbox.java:197-200 | four more quarter turns change nothing |
| Toolbox.RotationPeriod | src/main/java/org/CAP5400/Toolbox/Toolbox.java:197-200 | only the number of quarter turns modulo four matters |
| Toolbox.AddGreyTwice | src/main/java/org/CAP5400/Toolbox/Toolbox.java:29-41 | two addGrey calls have the same outcome and leave the region exactly as one call does |
| Toolbox.AddBrightnessTwice | src/main/java/org/CAP5400/Toolbox/Toolbox.java:49-63 | two addBrightness calls leave the region exactly as one call does |
| Toolbox.DecreaseBrightnessTwice | src/main/java/org/CAP5400/Toolbox/Toolbox.java:74-96 | two decreaseBrightness calls have the same outcome and leave the region exactly as one call does |
| Toolbox.BinarizeTwice | src/main/java/org/CAP5400/Toolbox/Toolbox.java:105-123 | two binarize calls have the same outcome and leave the region exactly as one call does |
| Toolbox.RotateClockwise90 | src/main/java/org/CAP5400/Toolbox/Toolbox.java:164-179 | a non-square region is refused and unchanged; otherwise sample (a, b) becomes the old sample (n-1-b, a) with one round |
| Toolbox.Rotate | src/main/java/org/CAP5400/Toolbox/Toolbox.java:187-201 | the angle checks in order, then the square check; on success every sample comes from RotatedFrom(n, angle / 90, ·) with angle / 90 rounds |
| Toolbox.FullCircle | src/main/java/org/CAP5400/Toolbox/Toolbox.java:187-201 | rotating by a positive multiple of 360 degrees moves no sample |
| Histograms.NormalizeColorSpace | src/main/java/org/CAP5400/Toolbox/Histogram.java:52 | the settled colour space has no ASCII capital and, for a named non-blank space, the length of the name |
| Histograms.CheckColorSpace | src/main/java/org/CAP5400/Toolbox/Histogram.java:52-55 | IllegalColorspace exactly when the normalised name is neither "rgb" nor "hsv" |
| Histograms.RgbSpellings | src/main/java/org/CAP5400/Toolbox/Histogram.java:52-53 | null and blank select rgb; otherwise rgb exactly for the case variants of "rgb" |
| Histograms.MaxChannelValue | src/main/java/org/CAP5400/Toolbox/Histogram.java:165-176 | 255 for rgb; the HSV table for hsv, with an index failure outside it; IllegalColorspace otherwise |
| Histograms.BinsPartition | src/main/java/org/CAP5400/Toolbox/Histogram.java:94-108 | every region point lies in exactly one bin of each channel, and points outside the region lie in none |
| Histograms.BinSizesSum | src/main/java/org/CAP5400/Toolbox/Histogram.java:94-108 | on correct bins, the sizes of the 256 bins of a channel add up to rows × columns |
| Histograms.RebinAgreeing | src/main/java/org/CAP5400/Toolbox/Histogram.java:78-108 | bins stay correct for any image with the same samples in that channel |
| Histograms.AgreeingBins | src/main/java/org/CAP5400/Toolbox/Histogram.java:78-108 | images with the same samples in a channel have identical bins there |
| Histograms.LowestBin | src/main/java/org/CAP5400/Toolbox/Histogram.java:264-270 | -1 or a non-empty bin, with every bin before it empty |
| Histograms.HighestBin | src/main/java/org/CAP5400/Toolbox/Histogram.java:272-278 | -1 or a non-empty bin, with every bin after it empty |
| Histograms.BinsGiveExtremes | src/main/java/org/CAP5400/Toolbox/Histogram.java:264-278 | on correct bins, the lowest and highest non-empty bins are the channel's smallest and largest samples |
| Histograms.NewMin | src/main/java/org/CAP5400/Toolbox/Histogram.java:280 | never below a non-negative lowest bin |
| Histograms.NewMax | src/main/java/org/CAP5400/Toolbox/Histogram.java:281 | between 0 and a non-negative highest bin |
| Histograms.StretchTarget | src/main/java/org/CAP5400/Toolbox/Histogram.java:289-306 | the bin each intensity moves to; its range and order are stated by StretchMiddleRange, StretchTargetRange, StretchMonotoneInside and StretchCanReorder |
| Histograms.NewMinMaxBounds | src/main/java/org/CAP5400/Toolbox/Histogram.java:280-281 | newMin >= lowest and exceeds 255 exactly for lowest >= 244; newMax <= highest and <= 242 |
| Histograms.StretchMiddleRange | src/main/java/org/CAP5400/Toolbox/Histogram.java:295-296 | inside [newMin, newMax) the new bin lies in [minStretch, maxStretch) |
| Histograms.StretchTargetRange | src/main/java/org/CAP5400/Toolbox/Histogram.java:289-306 | with valid arguments every target lies in [0, 255] once newMin does |
| Histograms.StretchMonotoneInside | src/main/java/org/CAP5400/Toolbox/Histogram.java:295-296 | inside [newMin, newMax) the stretch preserves order |
| Histograms.StretchCanReorder | src/main/java/org/CAP5400/Toolbox/Histogram.java:291-299 | at the lower edge the stretch can swap neighbours (104 goes to 105, 105 goes to 0) |
| Histograms.StretchArgumentCheck | src/main/java/org/CAP5400/Toolbox/Histogram.java:243-259 | passes exactly for 0 <= minStretch < maxStretch <= 255 and a channel in [0, 3] below the channel count; each failure carries the code's message in the code's order |
| Histograms.LowestNonEmpty | src/main/java/org/CAP5400/Toolbox/Histogram.java:264-270 | the upward search returns LowestBin(bins, 0) |
| Histograms.HighestNonEmpty | src/main/java/org/CAP5400/Toolbox/Histogram.java:272-278 | the downward search returns HighestBin(bins, 255) |
| Histograms.StretchBins | src/main/java/org/CAP5400/Toolbox/Histogram.java:285-306 | NullPointer exactly when NewMin(lowest) > 255; otherwise bin t holds exactly the points whose sample stretches to t |
| Histograms.ApplyStretch | src/main/java/org/CAP5400/Toolbox/Histogram.java:308-316 | a fresh copy whose stretched channel holds each sample's target and whose other channels are unchanged |
| Histograms.Histogram.constructor | src/main/java/org/CAP5400/Toolbox/Histogram.java:51-70 | subscribes once to the region image (no round fires) and leaves correct RGB bins |
| Histograms.Histogram.ComputeBin | src/main/java/org/CAP5400/Toolbox/Histogram.java:78-110 | one map per channel with a bin for every intensity 0..255, each holding exactly the points with that sample |
| Histograms.Histogram.PerformStretch | src/main/java/org/CAP5400/Toolbox/Histogram.java:238-323 | argument failures as StretchArgumentCheck; then NullPointer exactly when NewMin(lowest) > 255, with nothing changed; otherwise the channel's samples become their StretchTarget, other channels and their bins are kept, one round fires |
| Histograms.Histogram.StretchChannel | src/main/java/org/CAP5400/Toolbox/Histogram.java:259-323 | the stretch once the arguments have passed, with the same outcome and new state |
| Histograms.Histogram.PlanStretch | src/main/java/org/CAP5400/Toolbox/Histogram.java:261-316 | without touching the histogram or the region: NullPointer exactly when NewMin(Low) > 255, otherwise a fresh stretched copy |
| Histograms.Histogram.Commit | src/main/java/org/CAP5400/Toolbox/Histogram.java:318 | the region image takes the copy's samples with one round; the rebuilt bins equal the old ones on every channel the copy left alone |
| Histograms.Histogram.PerformStretchAll | src/main/java/org/CAP5400/Toolbox/Histogram.java:331-337 | succeeds exactly for valid bounds, at most four channels and every channel's NewMin(lowest) <= 255; then every channel is stretched by its own bounds and one notification round fires per channel; in every case the log grows by at most that many whole rounds |
| Histograms.NewHistogram | src/main/java/org/CAP5400/Toolbox/Histogram.java:51-70 | IllegalColorspace exactly when the normalised colour space is not rgb, before subscribing; otherwise a valid histogram over the region, subscribed once; no notification round fires |

## Left out

- **File input and output.** This covers reading and decoding image files (`Image(String)` beyond its extension test), `save` beyond its extension test, `getOpenCvMat`, and the histogram picture written by `saveChannelHistogram`. They are I/O through OpenCV and the file system. The failures of `saveChannelHistogram` that the model keeps are its list access, which fails when the channel equals the channel count.
- **The HSV colour space of `Histogram`.** Its bins come from OpenCV's colour conversion, a foreign call. `NewHistogram` requires that the colour space is not HSV; HSV's maximum channel values are still modelled in `MaxChannelValue`.
- **Histogram equalisation, threshold equalisation, `scale` and the Fourier and filter wrappers of `Toolbox`.** They run on OpenCV matrices and single-precision floats. `Fourier.java` is not part of this model.
- **Other files and members.** The command-line `Parser`, `HistogramBin`, `FloatRange`, `StringOptions`, the tracker-file and date helpers of `Misc`, `hashCode`, `toString`, `close`, and the exception classes beyond their kind are not modelled.
- **Subscribers other than the histogram.** They are ids whose callbacks are opaque. A notification records the round, and only the histogram's callback, `ComputeBin`, is run, as the final step of a stretch. Nothing but the histogram's own stretch re-bins it in this model.
- **Exception messages that embed numbers** are simplified to their fixed text. Examples are the channel-count message of `performStretch` and `Invalid image dimensions: …`.
- Images.Image.GetChannel: the product rows * columns is unbounded; the code's int overflow for huge images is not modelled.
- Images.Image.SetChannel: its length test compares against the unbounded product rows * columns; the code's int overflow of that product is not modelled.
- Histograms.Histogram.ComputeBin: runs only as the last step of the histogram's own stretch. A write to the region image by anything else, such as `Toolbox.AddGrey`, leaves the bins stale, so `Histograms.Histogram.Valid` no longer holds afterwards; in the source the subscription would rebuild them.
- Histograms.StretchTarget: the middle of the stretch is computed exactly. The code uses single precision, whose rounded factor may land one bin lower for some inputs.
- Toolbox.DecreaseBrightness: states that the notification log grows by whole rounds of the current subscribers. It does not give their exact number, which is the number of samples below the threshold.
- Histograms.Histogram.PerformStretchAll: when a channel after the first fails, the contract does not say which channels were already stretched.
- Misc.ToLowerCase: only the ASCII letters are lower-cased. This agrees with Java's US-locale lower-casing for every comparison against "rgb" and "hsv" that the model makes.
- Misc.GetRandomString: each random index is an arbitrary choice in range rather than a draw from `SecureRandom`.

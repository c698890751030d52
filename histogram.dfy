/**
 * The intensity histogram of a region image: for every channel, a map from
 * each intensity 0..255 to the set of region points with that intensity.
 * The histogram subscribes to its region image and rebuilds its bins when
 * the image notifies; histogram stretching rewrites one channel of the
 * region image through a copy and a deepCopy.
 */
module Histograms {
  import opened Errors
  import opened JavaInt
  import opened Images
  import opened Regions
  import opened Misc

  /** Largest intensity per channel in the HSV colour space. */
  const MAX_HSV: seq<int> := [179, MAX_RGB, MAX_RGB]

  const STRETCH_RANGE: string := "The stretch value must be between 0 - 255"
  const CHANNEL_RANGE: string := "The channel must be between 0 - 3!"
  const STRETCH_ORDER: string := "The minStretch must be less than the maxStretch value!"
  const CHANNEL_COUNT: string := "The channel index entered exceeds the max number of channels"

  /** The colour space the constructor settles on: "rgb" for null or blank, else the lower-cased name. */
  function NormalizeColorSpace(colorSpace: Option<string>): (r: string)
    ensures forall i :: 0 <= i < |r| ==> !('A' <= r[i] <= 'Z')
    ensures colorSpace.Some? && !IsBlank(colorSpace.value) ==> |r| == |colorSpace.value|
  {
    if colorSpace.None? || IsBlank(colorSpace.value) then "rgb" else ToLowerCase(colorSpace.value)
  }

  /** The constructor's colour-space test. */
  function CheckColorSpace(colorSpace: Option<string>): (r: Result<string>)
    ensures r.Ok? <==> NormalizeColorSpace(colorSpace) == "rgb" || NormalizeColorSpace(colorSpace) == "hsv"
    ensures r.Ok? ==> r.value == NormalizeColorSpace(colorSpace)
    ensures r.Err? ==> r.error == IllegalColorspace
  {
    var colorspace := NormalizeColorSpace(colorSpace);
    if colorspace != "rgb" && colorspace != "hsv" then Err(IllegalColorspace) else Ok(colorspace)
  }

  /** Null, blank and any upper/lower-case spelling of "rgb" select RGB. */
  lemma RgbSpellings(colorSpace: Option<string>)
    ensures colorSpace.None? ==> CheckColorSpace(colorSpace) == Ok("rgb")
    ensures colorSpace.Some? && IsBlank(colorSpace.value) ==> CheckColorSpace(colorSpace) == Ok("rgb")
    ensures colorSpace.Some? && !IsBlank(colorSpace.value) ==>
      (CheckColorSpace(colorSpace) == Ok("rgb") <==>
        |colorSpace.value| == 3
        && (colorSpace.value[0] == 'r' || colorSpace.value[0] == 'R')
        && (colorSpace.value[1] == 'g' || colorSpace.value[1] == 'G')
        && (colorSpace.value[2] == 'b' || colorSpace.value[2] == 'B'))
  {
    if colorSpace.Some? {
      LowerCaseOfRgb(colorSpace.value);
    }
  }

  /** getMaxChannelValue(channel): 255 in RGB, the HSV table entry in HSV. */
  function MaxChannelValue(colorspace: string, channel: int): (r: Result<int>)
    ensures colorspace == "rgb" ==> r == Ok(MAX_RGB)
    ensures colorspace == "hsv" ==> (r.Ok? <==> 0 <= channel < 3) && (r.Err? ==> r.error == ArrayIndexOutOfBounds)
    ensures colorspace != "rgb" && colorspace != "hsv" ==> r == Err(IllegalColorspace)
    ensures r.Ok? ==> 0 < r.value <= MAX_RGB
  {
    if colorspace == "rgb" then Ok(MAX_RGB)
    else if colorspace == "hsv" then
      if 0 <= channel < |MAX_HSV| then Ok(MAX_HSV[channel]) else Err(ArrayIndexOutOfBounds)
    else Err(IllegalColorspace)
  }

  /**
   * d holds, for every channel of the image, a bin per intensity 0..255,
   * and a point is in bin v of channel c exactly when its sample there is v.
   */
  ghost predicate Binned(d: seq<map<int, set<Point>>>, image: Image)
    reads image.pixels
    requires image.Valid()
  {
    && |d| == image.channels
    && (forall c, v :: 0 <= c < |d| ==> (v in d[c] <==> 0 <= v <= MAX_RGB))
    && (forall c, v, p :: 0 <= c < |d| && v in d[c] ==>
          (p in d[c][v] <==> image.InGrid(p.x, p.y, c) && image.pixels[p.x, p.y, c] == v))
  }

  /** The bins of one channel partition the region: every point lies in exactly one bin. */
  lemma BinsPartition(d: seq<map<int, set<Point>>>, image: Image, c: int, p: Point)
    requires image.Valid() && Binned(d, image) && 0 <= c < |d|
    ensures image.InGrid(p.x, p.y, c) ==> image.pixels[p.x, p.y, c] in d[c] && p in d[c][image.pixels[p.x, p.y, c]]
    ensures forall v1, v2 :: v1 in d[c] && v2 in d[c] && p in d[c][v1] && p in d[c][v2] ==> v1 == v2
    ensures !image.InGrid(p.x, p.y, c) ==> forall v :: v in d[c] ==> p !in d[c][v]
  {
  }

  /** The number of points in the bins 0 .. v - 1; a missing bin counts as empty. */
  function BinCount(bins: map<int, set<Point>>, v: nat): nat {
    if v == 0 then 0 else BinCount(bins, v - 1) + (if v - 1 in bins then |bins[v - 1]| else 0)
  }

  /** The points (a, b) with a < rows and b < columns. */
  function GridPoints(rows: nat, columns: nat): set<Point> {
    set a, b | 0 <= a < rows && 0 <= b < columns :: Point(a, b)
  }

  /** The points of one row. */
  function RowPoints(a: int, columns: nat): set<Point> {
    set b | 0 <= b < columns :: Point(a, b)
  }

  lemma {:induction false} RowPointsCount(a: int, columns: nat)
    ensures |RowPoints(a, columns)| == columns
  {
    if columns > 0 {
      assert RowPoints(a, columns) == RowPoints(a, columns - 1) + {Point(a, columns - 1)};
      RowPointsCount(a, columns - 1);
    }
  }

  lemma InGridPoints(rows: nat, columns: nat, p: Point)
    ensures p in GridPoints(rows, columns) <==> 0 <= p.x < rows && 0 <= p.y < columns
    ensures p in RowPoints(p.x, columns) <==> 0 <= p.y < columns
  {
    if 0 <= p.y < columns {
      assert p == Point(p.x, p.y);
    }
  }

  /** A rows × columns grid has rows * columns points. */
  lemma {:induction false} GridPointsCount(rows: nat, columns: nat)
    ensures |GridPoints(rows, columns)| == rows * columns
  {
    if rows > 0 {
      var prev, last := GridPoints(rows - 1, columns), RowPoints(rows - 1, columns);
      forall p ensures p in GridPoints(rows, columns) <==> p in prev || p in last {
        InGridPoints(rows, columns, p);
        InGridPoints(rows - 1, columns, p);
      }
      assert GridPoints(rows, columns) == prev + last;
      forall p | p in last ensures p !in prev {
        InGridPoints(rows - 1, columns, p);
      }
      GridPointsCount(rows - 1, columns);
      RowPointsCount(rows - 1, columns);
      assert |prev + last| == (rows - 1) * columns + columns;
      assert (rows - 1) * columns + columns == rows * columns;
    }
  }

  /** The points of the image whose sample in channel c is below v. */
  ghost function SamplesBelow(image: Image, c: int, v: int): set<Point>
    reads image.pixels
    requires image.Valid() && 0 <= c < image.channels
  {
    set a, b | 0 <= a < image.rows && 0 <= b < image.columns && image.pixels[a, b, c] < v :: Point(a, b)
  }

  lemma InSamplesBelow(image: Image, c: int, v: int, p: Point)
    requires image.Valid() && 0 <= c < image.channels
    ensures p in SamplesBelow(image, c, v) <==> image.InGrid(p.x, p.y, c) && image.pixels[p.x, p.y, c] < v
  {
    if image.InGrid(p.x, p.y, c) && image.pixels[p.x, p.y, c] < v {
      assert p == Point(p.x, p.y);
    }
  }

  /** Raising the bound by one adds exactly the bin of v - 1, which is disjoint from the rest. */
  lemma BelowStep(d: seq<map<int, set<Point>>>, image: Image, c: int, v: int)
    requires image.Valid() && Binned(d, image) && 0 <= c < |d| && 1 <= v <= MAX_RGB + 1
    ensures v - 1 in d[c]
    ensures SamplesBelow(image, c, v) == SamplesBelow(image, c, v - 1) + d[c][v - 1]
    ensures SamplesBelow(image, c, v - 1) !! d[c][v - 1]
  {
    var bin := d[c][v - 1];
    assert forall p :: p in bin <==> image.InGrid(p.x, p.y, c) && image.pixels[p.x, p.y, c] == v - 1;
    forall p ensures p in SamplesBelow(image, c, v) <==> p in SamplesBelow(image, c, v - 1) || p in bin {
      InSamplesBelow(image, c, v, p);
      InSamplesBelow(image, c, v - 1, p);
    }
    forall p | p in bin ensures p !in SamplesBelow(image, c, v - 1) {
      InSamplesBelow(image, c, v - 1, p);
    }
  }

  /** The bins below v hold exactly the points whose sample is below v, each once. */
  lemma {:induction false} BinCountBelow(d: seq<map<int, set<Point>>>, image: Image, c: int, v: nat)
    requires image.Valid() && Binned(d, image) && 0 <= c < |d| && v <= MAX_RGB + 1
    ensures BinCount(d[c], v) == |SamplesBelow(image, c, v)|
  {
    if v == 0 {
      forall p ensures p !in SamplesBelow(image, c, 0) {
        InSamplesBelow(image, c, 0, p);
      }
      assert SamplesBelow(image, c, 0) == {};
    } else {
      BinCountBelow(d, image, c, v - 1);
      BelowStep(d, image, c, v);
    }
  }

  /** The bins of one channel hold rows × columns points in total. */
  lemma BinSizesSum(d: seq<map<int, set<Point>>>, image: Image, c: int)
    requires image.Valid() && Binned(d, image) && 0 <= c < |d|
    ensures BinCount(d[c], MAX_RGB + 1) == image.rows * image.columns
  {
    BinCountBelow(d, image, c, MAX_RGB + 1);
    assert SamplesBelow(image, c, MAX_RGB + 1) == GridPoints(image.rows, image.columns);
    GridPointsCount(image.rows, image.columns);
  }

  /** Maps with the same keys and the same members in every bin are equal. */
  lemma SameBins(m1: map<int, set<Point>>, m2: map<int, set<Point>>)
    requires forall v :: v in m1 <==> v in m2
    requires forall v, p :: v in m1 ==> (p in m1[v] <==> p in m2[v])
    ensures m1 == m2
  {
    forall v | v in m1 ensures m1[v] == m2[v] {
      assert forall p :: p in m1[v] <==> p in m2[v];
    }
    assert forall v :: v in m1.Keys <==> v in m2.Keys;
    assert m1.Keys == m2.Keys;
  }

  /** The first intensity from `from` up to 255 whose bin is non-empty, or -1. */
  function LowestBin(bins: map<int, set<Point>>, from: int): (r: int)
    ensures r == -1 || (from <= r <= MAX_RGB && r in bins && bins[r] != {})
    ensures forall v :: from <= v <= MAX_RGB && (r == -1 || v < r) && v in bins ==> bins[v] == {}
    requires 0 <= from
    decreases MAX_RGB + 1 - from
  {
    if from > MAX_RGB then -1
    else if from in bins && bins[from] != {} then from
    else LowestBin(bins, from + 1)
  }

  /** The last intensity from `upTo` down to 0 whose bin is non-empty, or -1. */
  function HighestBin(bins: map<int, set<Point>>, upTo: int): (r: int)
    ensures r == -1 || (0 <= r <= upTo && r in bins && bins[r] != {})
    ensures forall v :: 0 <= v <= upTo && r < v && v in bins ==> bins[v] == {}
    decreases upTo + 1
  {
    if upTo < 0 then -1
    else if upTo in bins && bins[upTo] != {} then upTo
    else HighestBin(bins, upTo - 1)
  }

  /**
   * On binned data the lowest and highest non-empty bins are the smallest
   * and the largest sample of the channel.
   */
  lemma BinsGiveExtremes(d: seq<map<int, set<Point>>>, image: Image, c: int)
    requires image.Valid() && Binned(d, image) && 0 <= c < |d|
    ensures var lo, hi := LowestBin(d[c], 0), HighestBin(d[c], MAX_RGB);
      && 0 <= lo <= hi <= MAX_RGB
      && (exists a, b :: image.InGrid(a, b, c) && image.pixels[a, b, c] == lo)
      && (exists a, b :: image.InGrid(a, b, c) && image.pixels[a, b, c] == hi)
      && (forall a, b :: image.InGrid(a, b, c) ==> lo <= image.pixels[a, b, c] <= hi)
  {
    var lo, hi := LowestBin(d[c], 0), HighestBin(d[c], MAX_RGB);
    var corner := Point(0, 0);
    assert corner in d[c][image.pixels[0, 0, c]];
    var pl :| pl in d[c][lo];
    var ph :| ph in d[c][hi];
    assert image.InGrid(pl.x, pl.y, c) && image.pixels[pl.x, pl.y, c] == lo;
    assert image.InGrid(ph.x, ph.y, c) && image.pixels[ph.x, ph.y, c] == hi;
    forall a, b | image.InGrid(a, b, c) ensures lo <= image.pixels[a, b, c] <= hi {
      assert Point(a, b) in d[c][image.pixels[a, b, c]];
    }
  }

  /** newMinIntensity = (int)(lowest * 1.05). */
  function NewMin(lowest: int): (r: int)
    ensures 0 <= lowest ==> lowest <= r
  {
    lowest * 105 / 100
  }

  /** newMaxIntensity = (int)(highest * 0.95). */
  function NewMax(highest: int): (r: int)
    ensures 0 <= highest ==> 0 <= r <= highest
  {
    highest * 95 / 100
  }

  /**
   * The bin an intensity is moved to: below newMin to newMin, from newMax on
   * to newMax, and in between scaled linearly from [newMin, newMax) onto
   * [minStretch, maxStretch).
   */
  function StretchTarget(i: int, newMin: int, newMax: int, minStretch: int, maxStretch: int): int {
    if i < newMin then newMin
    else if i < newMax then minStretch + (i - newMin) * (maxStretch - minStretch) / (newMax - newMin)
    else newMax
  }

  lemma DivMonotone(x: int, y: int, d: int)
    requires 0 <= x <= y && 0 < d
    ensures x / d <= y / d
  {
    if x / d > y / d {
      MulLeft(y / d + 1, x / d, d);
    }
  }

  lemma DivBelow(x: int, d: int, r: int)
    requires 0 <= x < r * d && 0 < d
    ensures x / d < r
  {
    if x / d >= r {
      MulLeft(r, x / d, d);
    }
  }

  /** Scaling bounds of the stretch factors for intensities in [0, 255]. */
  lemma NewMinMaxBounds(lowest: int, highest: int)
    requires 0 <= lowest <= MAX_RGB && 0 <= highest <= MAX_RGB
    ensures lowest <= NewMin(lowest)
    ensures NewMin(lowest) > MAX_RGB <==> lowest >= 244
    ensures 0 <= NewMax(highest) <= highest && NewMax(highest) <= 242
  {
  }

  /** Inside [newMin, newMax) the stretch lands in [minStretch, maxStretch). */
  lemma StretchMiddleRange(i: int, newMin: int, newMax: int, minStretch: int, maxStretch: int)
    requires newMin <= i < newMax && minStretch < maxStretch
    ensures minStretch <= StretchTarget(i, newMin, newMax, minStretch, maxStretch) < maxStretch
  {
    var k, d, w := i - newMin, newMax - newMin, maxStretch - minStretch;
    MulLeft(0, k, w);
    MulLeft(k, d - 1, w);
    assert (d - 1) * w == d * w - w;
    assert d * w == w * d;
    DivBelow(k * w, d, w);
  }

  /**
   * With valid stretch arguments every intensity lands in [0, 255] once
   * newMin does; the middle range lands in [minStretch, maxStretch).
   */
  lemma StretchTargetRange(i: int, lowest: int, highest: int, minStretch: int, maxStretch: int)
    requires 0 <= lowest <= MAX_RGB && 0 <= highest <= MAX_RGB
    requires 0 <= minStretch < maxStretch <= MAX_RGB
    ensures var newMin, newMax := NewMin(lowest), NewMax(highest);
      && (newMin <= i < newMax ==> minStretch <= StretchTarget(i, newMin, newMax, minStretch, maxStretch) < maxStretch)
      && (newMin <= MAX_RGB ==> 0 <= StretchTarget(i, newMin, newMax, minStretch, maxStretch) <= MAX_RGB)
  {
    var newMin, newMax := NewMin(lowest), NewMax(highest);
    NewMinMaxBounds(lowest, highest);
    if newMin <= i < newMax {
      StretchMiddleRange(i, newMin, newMax, minStretch, maxStretch);
    }
  }

  /** Inside [newMin, newMax) the stretch keeps the order of intensities. */
  lemma StretchMonotoneInside(i1: int, i2: int, newMin: int, newMax: int, minStretch: int, maxStretch: int)
    requires newMin <= i1 <= i2 < newMax && minStretch <= maxStretch
    ensures StretchTarget(i1, newMin, newMax, minStretch, maxStretch) <= StretchTarget(i2, newMin, newMax, minStretch, maxStretch)
  {
    var w := maxStretch - minStretch;
    MulLeft(0, i1 - newMin, w);
    MulLeft(i1 - newMin, i2 - newMin, w);
    DivMonotone((i1 - newMin) * w, (i2 - newMin) * w, newMax - newMin);
  }

  /**
   * Intensities below newMin go to newMin itself, not to minStretch, so the
   * stretch can swap the order of neighbouring intensities: with lowest 100,
   * highest 200 and target range [0, 255], 104 goes to 105 and 105 goes to 0.
   */
  lemma StretchCanReorder()
    ensures NewMin(100) == 105 && NewMax(200) == 190
    ensures StretchTarget(104, 105, 190, 0, 255) == 105
    ensures StretchTarget(105, 105, 190, 0, 255) == 0
  {
  }

  /**
   * The outcome of performStretch's argument tests, in the order the code
   * makes them; the last one stands for the list access that fails when the
   * channel equals the channel count.
   */
  function StretchArgumentCheck(minStretch: int, maxStretch: int, channel: int, channels: int): (r: Outcome)
    ensures r.Pass? <==> 0 <= minStretch < maxStretch <= MAX_RGB && 0 <= channel <= 3 && channel < channels
    ensures !(0 <= minStretch <= MAX_RGB && 0 <= maxStretch <= MAX_RGB) ==> r == Fail(IllegalArgument(STRETCH_RANGE))
    ensures 0 <= minStretch <= MAX_RGB && 0 <= maxStretch <= MAX_RGB && !(0 <= channel <= 3) ==>
      r == Fail(IllegalArgument(CHANNEL_RANGE))
    ensures 0 <= channel <= 3 && 0 <= maxStretch <= minStretch <= MAX_RGB ==> r == Fail(IllegalArgument(STRETCH_ORDER))
    ensures 0 <= minStretch < maxStretch <= MAX_RGB && 0 <= channel <= 3 && channel > channels ==>
      r == Fail(IllegalArgument(CHANNEL_COUNT))
    ensures 0 <= minStretch < maxStretch <= MAX_RGB && 0 <= channel <= 3 && channel == channels ==>
      r == Fail(ArrayIndexOutOfBounds)
  {
    if minStretch < 0 || maxStretch < 0 || minStretch > MAX_RGB || maxStretch > MAX_RGB then
      Fail(IllegalArgument(STRETCH_RANGE))
    else if channel < 0 || channel > 3 then Fail(IllegalArgument(CHANNEL_RANGE))
    else if minStretch >= maxStretch then Fail(IllegalArgument(STRETCH_ORDER))
    else if channel > channels then Fail(IllegalArgument(CHANNEL_COUNT))
    else if channel == channels then Fail(ArrayIndexOutOfBounds)
    else Pass
  }

  /** The bins of channel c match the image's samples in that channel. */
  ghost predicate ChannelBinned(bins: map<int, set<Point>>, image: Image, c: int)
    reads image.pixels
    requires image.Valid()
  {
    && (forall v :: v in bins <==> 0 <= v <= MAX_RGB)
    && (forall v, p :: v in bins ==> (p in bins[v] <==> image.InGrid(p.x, p.y, c) && image.pixels[p.x, p.y, c] == v))
  }

  /** Bins of a channel stay correct for another image with the same samples in that channel. */
  lemma RebinAgreeing(bins: map<int, set<Point>>, image: Image, other: Image, c: int)
    requires image.Valid() && other.Valid() && ChannelBinned(bins, image, c)
    requires image.rows == other.rows && image.columns == other.columns && image.channels == other.channels
    requires forall a, b :: image.InGrid(a, b, c) ==> other.pixels[a, b, c] == image.pixels[a, b, c]
    ensures ChannelBinned(bins, other, c)
  {
  }

  /** Two images with the same samples in a channel have the same bins there. */
  lemma AgreeingBins(m1: map<int, set<Point>>, image1: Image, m2: map<int, set<Point>>, image2: Image, c: int)
    requires image1.Valid() && image2.Valid() && ChannelBinned(m1, image1, c) && ChannelBinned(m2, image2, c)
    requires image1.rows == image2.rows && image1.columns == image2.columns && image1.channels == image2.channels
    requires forall a, b :: image1.InGrid(a, b, c) ==> image1.pixels[a, b, c] == image2.pixels[a, b, c]
    ensures m1 == m2
  {
    forall v, p | v in m1 ensures p in m1[v] <==> p in m2[v] {
      if image1.InGrid(p.x, p.y, c) {
        assert image1.pixels[p.x, p.y, c] == image2.pixels[p.x, p.y, c];
      }
    }
    SameBins(m1, m2);
  }

  /** performStretch's upward search for the lowest non-empty bin. */
  method LowestNonEmpty(bins: map<int, set<Point>>) returns (minIntensity: int)
    requires forall v :: 0 <= v <= MAX_RGB ==> v in bins
    ensures minIntensity == LowestBin(bins, 0)
  {
    minIntensity := -1;
    var i := 0;
    while i <= MAX_RGB
      invariant 0 <= i <= MAX_RGB + 1
      invariant minIntensity == -1 && LowestBin(bins, 0) == LowestBin(bins, i)
    {
      if bins[i] != {} {
        minIntensity := i;
        break;
      }
      i := i + 1;
    }
  }

  /** performStretch's downward search for the highest non-empty bin. */
  method HighestNonEmpty(bins: map<int, set<Point>>) returns (maxIntensity: int)
    requires forall v :: 0 <= v <= MAX_RGB ==> v in bins
    ensures maxIntensity == HighestBin(bins, MAX_RGB)
  {
    maxIntensity := -1;
    var i := MAX_RGB;
    while i >= 0
      invariant -1 <= i <= MAX_RGB
      invariant maxIntensity == -1 && HighestBin(bins, MAX_RGB) == HighestBin(bins, i)
    {
      if bins[i] != {} {
        maxIntensity := i;
        break;
      }
      i := i - 1;
    }
  }

  /**
   * The stretched-bin map of performStretch: an empty bin per intensity,
   * then the points of every non-empty bin v added to the bin of
   * StretchTarget(v). A target without a bin is a null list, and the
   * lowest non-empty bin has one exactly when NewMin(lowest) <= 255.
   */
  method StretchBins(bins: map<int, set<Point>>, image: Image, channel: int, lowest: int, highest: int,
                     minStretch: int, maxStretch: int) returns (res: Result<map<int, set<Point>>>)
    requires image.Valid() && ChannelBinned(bins, image, channel)
    requires lowest == LowestBin(bins, 0) && 0 <= lowest <= highest <= MAX_RGB
    requires 0 <= minStretch < maxStretch <= MAX_RGB
    ensures res.Err? <==> NewMin(lowest) > MAX_RGB
    ensures res.Err? ==> res.error == NullPointer
    ensures res.Ok? ==> forall t :: t in res.value <==> 0 <= t <= MAX_RGB
    ensures res.Ok? ==> forall t, p :: t in res.value ==>
      (p in res.value[t] <==>
        && image.InGrid(p.x, p.y, channel)
        && StretchTarget(image.pixels[p.x, p.y, channel], NewMin(lowest), NewMax(highest), minStretch, maxStretch) == t)
  {
    var newMin, newMax := NewMin(lowest), NewMax(highest);
    NewMinMaxBounds(lowest, highest);
    var stretchedBin: map<int, set<Point>> := map[];
    for v := 0 to MAX_RGB + 1
      invariant forall t :: t in stretchedBin <==> 0 <= t < v
      invariant forall t :: t in stretchedBin ==> stretchedBin[t] == {}
    {
      stretchedBin := stretchedBin[v := {}];
    }
    for v := 0 to MAX_RGB + 1
      invariant forall t :: t in stretchedBin <==> 0 <= t <= MAX_RGB
      invariant forall t, p :: t in stretchedBin ==>
        (p in stretchedBin[t] <==>
          && image.InGrid(p.x, p.y, channel) && image.pixels[p.x, p.y, channel] < v
          && StretchTarget(image.pixels[p.x, p.y, channel], newMin, newMax, minStretch, maxStretch) == t)
      invariant newMin > MAX_RGB ==> v <= lowest
    {
      var target := StretchTarget(v, newMin, newMax, minStretch, maxStretch);
      StretchTargetRange(v, lowest, highest, minStretch, maxStretch);
      if bins[v] != {} {
        if target !in stretchedBin {
          return Err(NullPointer);
        }
        stretchedBin := stretchedBin[target := stretchedBin[target] + bins[v]];
      }
    }
    return Ok(stretchedBin);
  }

  /**
   * performStretch's write-back: a copy of the image in which every point
   * of stretched bin v has the value v in the stretched channel.
   */
  method ApplyStretch(image: Image, channel: int, stretchedBin: map<int, set<Point>>, newMin: int, newMax: int,
                      minStretch: int, maxStretch: int) returns (stretched: Image)
    requires image.Valid() && 0 <= channel < image.channels
    requires forall t :: t in stretchedBin <==> 0 <= t <= MAX_RGB
    requires forall t, p :: t in stretchedBin ==>
      (p in stretchedBin[t] <==>
        && image.InGrid(p.x, p.y, channel)
        && StretchTarget(image.pixels[p.x, p.y, channel], newMin, newMax, minStretch, maxStretch) == t)
    requires forall a, b :: image.InGrid(a, b, channel) ==>
      0 <= StretchTarget(image.pixels[a, b, channel], newMin, newMax, minStretch, maxStretch) <= MAX_RGB
    ensures fresh(stretched) && fresh(stretched.pixels) && stretched.Valid()
    ensures stretched.rows == image.rows && stretched.columns == image.columns && stretched.channels == image.channels
    ensures forall a, b, c :: stretched.InGrid(a, b, c) ==>
      stretched.pixels[a, b, c] ==
        if c == channel then StretchTarget(image.pixels[a, b, c], newMin, newMax, minStretch, maxStretch)
        else image.pixels[a, b, c]
  {
    stretched := new Image.Copy(image);
    for v := 0 to MAX_RGB + 1
      modifies stretched, stretched.pixels
      invariant stretched.Valid()
      invariant stretched.rows == image.rows && stretched.columns == image.columns && stretched.channels == image.channels
      invariant forall a, b, c :: stretched.InGrid(a, b, c) ==>
        stretched.pixels[a, b, c] ==
          if c == channel && StretchTarget(image.pixels[a, b, c], newMin, newMax, minStretch, maxStretch) < v
          then StretchTarget(image.pixels[a, b, c], newMin, newMax, minStretch, maxStretch)
          else image.pixels[a, b, c]
    {
      var points := stretchedBin[v];
      while points != {}
        modifies stretched, stretched.pixels
        invariant stretched.Valid()
        invariant stretched.rows == image.rows && stretched.columns == image.columns && stretched.channels == image.channels
        invariant points <= stretchedBin[v]
        invariant forall a, b, c :: stretched.InGrid(a, b, c) ==>
          stretched.pixels[a, b, c] ==
            if c == channel && (StretchTarget(image.pixels[a, b, c], newMin, newMax, minStretch, maxStretch) < v
                                || (StretchTarget(image.pixels[a, b, c], newMin, newMax, minStretch, maxStretch) == v
                                    && Point(a, b) !in points))
            then StretchTarget(image.pixels[a, b, c], newMin, newMax, minStretch, maxStretch)
            else image.pixels[a, b, c]
        decreases |points|
      {
        var point :| point in points;
        var stored := stretched.SetPixel(point.x, point.y, channel, v);
        points := points - {point};
      }
    }
  }

  class Histogram {
    const colorspace: string
    const region: ROI
    /** The id under which the histogram subscribed to its region image. */
    const observer: nat
    var data: seq<map<int, set<Point>>>

    /** An RGB histogram, subscribed to its valid region, whose bins match the region image. */
    ghost predicate Valid()
      reads this, region.regionImage, region.sourceImage.pixels, region.regionImage.pixels
    {
      && region.Valid()
      && colorspace == "rgb"
      && observer in region.regionImage.observers
      && Binned(data, region.regionImage)
    }

    /** The lowest non-empty bin of a channel. */
    ghost function Low(channel: int): int
      reads this
      requires 0 <= channel < |data|
    {
      LowestBin(data[channel], 0)
    }

    /** The highest non-empty bin of a channel. */
    ghost function High(channel: int): int
      reads this
      requires 0 <= channel < |data|
    {
      HighestBin(data[channel], MAX_RGB)
    }

    /**
     * Histogram(region, "rgb"): subscribes to the region image, then builds
     * the bins; `NewHistogram` covers the colour-space test.
     */
    constructor (region: ROI, observer: nat)
      requires region.Valid()
      modifies region.regionImage
      ensures Valid()
      ensures this.region == region && this.observer == observer && colorspace == "rgb"
      ensures region.regionImage.observers == old(region.regionImage.observers) + [observer]
      ensures region.regionImage.notifications == old(region.regionImage.notifications)
    {
      colorspace := "rgb";
      this.region := region;
      this.observer := observer;
      data := [];
      new;
      region.regionImage.AddObserver(observer);
      ComputeBin();
    }

    /**
     * computeBin (RGB): an empty bin for every intensity of every channel,
     * then every point of the region added to the bin of its sample.
     */
    method ComputeBin()
      requires region.Valid() && colorspace == "rgb"
      modifies this
      ensures Binned(data, region.regionImage)
    {
      var image := region.regionImage;
      data := [];
      for i := 0 to region.Channels()
        invariant |data| == i
        invariant forall c, v :: 0 <= c < i ==> (v in data[c] <==> 0 <= v <= MAX_RGB)
        invariant forall c, v :: 0 <= c < i && v in data[c] ==> data[c] [v] == {}
      {
        data := data + [map[]];
        var maxIntensity := MaxChannelValue(colorspace, i).value;
        for j := 0 to maxIntensity + 1
          invariant |data| == i + 1
          invariant forall c, v :: 0 <= c < i ==> (v in data[c] <==> 0 <= v <= MAX_RGB)
          invariant forall c, v :: 0 <= c < i && v in data[c] ==> data[c][v] == {}
          invariant forall v :: v in data[i] <==> 0 <= v < j
          invariant forall v :: v in data[i] ==> data[i][v] == {}
        {
          data := data[i := data[i][j := {}]];
        }
      }
      for i := 0 to region.totalX
        invariant |data| == image.channels
        invariant forall c, v :: 0 <= c < |data| ==> (v in data[c] <==> 0 <= v <= MAX_RGB)
        invariant forall c, v, p :: 0 <= c < |data| && v in data[c] ==>
          (p in data[c][v] <==> image.InGrid(p.x, p.y, c) && p.x < i && image.pixels[p.x, p.y, c] == v)
      {
        for j := 0 to region.totalY
          invariant |data| == image.channels
          invariant forall c, v :: 0 <= c < |data| ==> (v in data[c] <==> 0 <= v <= MAX_RGB)
          invariant forall c, v, p :: 0 <= c < |data| && v in data[c] ==>
            (p in data[c][v] <==> image.InGrid(p.x, p.y, c) && Before(p.x, p.y, 0, i, j, 0) && image.pixels[p.x, p.y, c] == v)
        {
          for k := 0 to region.Channels()
            invariant |data| == image.channels
            invariant forall c, v :: 0 <= c < |data| ==> (v in data[c] <==> 0 <= v <= MAX_RGB)
            invariant forall c, v, p :: 0 <= c < |data| && v in data[c] ==>
              (p in data[c][v] <==> image.InGrid(p.x, p.y, c) && Before(p.x, p.y, c, i, j, k) && image.pixels[p.x, p.y, c] == v)
          {
            var point := Point(i, j);
            var intensity := image.GetPixel(i, j, k).value;
            data := data[k := data[k][intensity := data[k][intensity] + {point}]];
          }
        }
      }
    }

    /**
     * performStretch(minStretch, maxStretch, channel): moves every point of
     * the channel to the bin StretchTarget gives its intensity, writes the
     * result into a copy of the region image and deepCopies it back, which
     * makes the subscription rebuild the bins. The lowest non-empty bin
     * must scale to at most 255, or the stretched-bin map has no entry for
     * it and the move fails on a null list.
     */
    method PerformStretch(minStretch: int, maxStretch: int, channel: int) returns (res: Outcome)
      requires Valid() && IsInt(minStretch) && IsInt(maxStretch) && IsInt(channel)
      modifies this, region.regionImage, region.regionImage.pixels
      ensures Valid()
      ensures StretchArgumentCheck(minStretch, maxStretch, channel, region.Channels()).Fail? ==>
        res == StretchArgumentCheck(minStretch, maxStretch, channel, region.Channels())
      ensures StretchArgumentCheck(minStretch, maxStretch, channel, region.Channels()).Pass? ==>
        (res.Pass? <==> NewMin(old(Low(channel))) <= MAX_RGB) && (res.Fail? ==> res.error == NullPointer)
      ensures res.Pass? ==> forall a, b, c :: region.regionImage.InGrid(a, b, c) ==>
        region.regionImage.pixels[a, b, c] ==
          if c == channel then
            StretchTarget(old(region.regionImage.pixels[a, b, c]),
                          NewMin(old(Low(channel))), NewMax(old(High(channel))), minStretch, maxStretch)
          else old(region.regionImage.pixels[a, b, c])
      ensures res.Pass? ==> forall c :: 0 <= c < |data| && c != channel ==> data[c] == old(data[c])
      ensures res.Fail? ==> data == old(data)
      ensures res.Fail? ==> forall a, b, c :: region.regionImage.InGrid(a, b, c) ==>
        region.regionImage.pixels[a, b, c] == old(region.regionImage.pixels[a, b, c])
      ensures region.regionImage.observers == old(region.regionImage.observers)
      ensures region.regionImage.notifications ==
        old(region.regionImage.notifications) + Rounds(region.regionImage.observers, if res.Pass? then 1 else 0)
    {
      var maxChannelValue := MaxChannelValue(colorspace, channel).value;
      if minStretch < 0 || maxStretch < 0 || minStretch > maxChannelValue || maxStretch > maxChannelValue {
        return Fail(IllegalArgument(STRETCH_RANGE));
      }
      if channel < 0 || channel > 3 {
        return Fail(IllegalArgument(CHANNEL_RANGE));
      }
      if minStretch >= maxStretch {
        return Fail(IllegalArgument(STRETCH_ORDER));
      }
      if channel > region.Channels() {
        return Fail(IllegalArgument(CHANNEL_COUNT));
      }
      // The histogram export reads data.get(channel) first.
      if channel >= |data| {
        return Fail(ArrayIndexOutOfBounds);
      }
      res := StretchChannel(minStretch, maxStretch, channel);
    }

    /** The body of performStretch once its argument tests have passed. */
    method StretchChannel(minStretch: int, maxStretch: int, channel: int) returns (res: Outcome)
      requires Valid() && StretchArgumentCheck(minStretch, maxStretch, channel, region.Channels()).Pass?
      modifies this, region.regionImage, region.regionImage.pixels
      ensures Valid()
      ensures res.Pass? <==> NewMin(old(Low(channel))) <= MAX_RGB
      ensures res.Fail? ==> res.error == NullPointer
      ensures res.Pass? ==> forall a, b, c :: region.regionImage.InGrid(a, b, c) ==>
        region.regionImage.pixels[a, b, c] ==
          if c == channel then
            StretchTarget(old(region.regionImage.pixels[a, b, c]),
                          NewMin(old(Low(channel))), NewMax(old(High(channel))), minStretch, maxStretch)
          else old(region.regionImage.pixels[a, b, c])
      ensures res.Pass? ==> forall c :: 0 <= c < |data| && c != channel ==> data[c] == old(data[c])
      ensures res.Fail? ==> data == old(data)
      ensures res.Fail? ==> forall a, b, c :: region.regionImage.InGrid(a, b, c) ==>
        region.regionImage.pixels[a, b, c] == old(region.regionImage.pixels[a, b, c])
      ensures region.regionImage.observers == old(region.regionImage.observers)
      ensures region.regionImage.notifications ==
        old(region.regionImage.notifications) + Rounds(region.regionImage.observers, if res.Pass? then 1 else 0)
    {
      var stretched := PlanStretch(minStretch, maxStretch, channel);
      if stretched.Err? {
        return Fail(stretched.error);
      }
      res := Commit(stretched.value, channel);
    }

    /**
     * performStretch up to the write-back: the bin search, the stretched
     * bins and the stretched copy of the region image; the histogram and
     * the region are not touched.
     */
    method PlanStretch(minStretch: int, maxStretch: int, channel: int) returns (res: Result<Image>)
      requires Valid() && StretchArgumentCheck(minStretch, maxStretch, channel, region.Channels()).Pass?
      ensures res.Err? <==> NewMin(Low(channel)) > MAX_RGB
      ensures res.Err? ==> res.error == NullPointer
      ensures res.Ok? ==> fresh(res.value) && fresh(res.value.pixels) && res.value.Valid()
      ensures res.Ok? ==> res.value.rows == region.regionImage.rows && res.value.columns == region.regionImage.columns
      ensures res.Ok? ==> res.value.channels == region.regionImage.channels
      ensures res.Ok? ==> forall a, b, c :: region.regionImage.InGrid(a, b, c) ==>
        res.value.pixels[a, b, c] ==
          if c == channel then
            StretchTarget(region.regionImage.pixels[a, b, c], NewMin(Low(channel)), NewMax(High(channel)), minStretch, maxStretch)
          else region.regionImage.pixels[a, b, c]
    {
      var image := region.regionImage;
      var bins := data[channel];
      assert ChannelBinned(bins, image, channel);
      BinsGiveExtremes(data, image, channel);
      var minIntensity := LowestNonEmpty(bins);
      var maxIntensity := HighestNonEmpty(bins);
      var stretchedBin := StretchBins(bins, image, channel, minIntensity, maxIntensity, minStretch, maxStretch);
      if stretchedBin.Err? {
        return Err(stretchedBin.error);
      }
      var newMinIntensity, newMaxIntensity := NewMin(minIntensity), NewMax(maxIntensity);
      forall a, b | image.InGrid(a, b, channel)
        ensures 0 <= StretchTarget(image.pixels[a, b, channel], newMinIntensity, newMaxIntensity, minStretch, maxStretch) <= MAX_RGB
      {
        StretchTargetRange(image.pixels[a, b, channel], minIntensity, maxIntensity, minStretch, maxStretch);
      }
      var stretched := ApplyStretch(image, channel, stretchedBin.value, newMinIntensity, newMaxIntensity, minStretch, maxStretch);
      return Ok(stretched);
    }

    /**
     * performStretch's last step: the region image takes the stretched
     * copy's samples by deepCopy, and the notification rebuilds the bins;
     * the bins of every channel the copy left alone come out the same.
     */
    method Commit(stretched: Image, channel: int) returns (res: Outcome)
      requires Valid() && stretched.Valid()
      requires stretched != region.regionImage && stretched.pixels != region.regionImage.pixels
      requires stretched.pixels != region.sourceImage.pixels
      requires stretched.rows == region.regionImage.rows && stretched.columns == region.regionImage.columns
      requires stretched.channels == region.regionImage.channels
      requires forall a, b, c :: region.regionImage.InGrid(a, b, c) && c != channel ==>
        stretched.pixels[a, b, c] == region.regionImage.pixels[a, b, c]
      modifies this, region.regionImage, region.regionImage.pixels
      ensures Valid() && res == Pass
      ensures forall a, b, c :: region.regionImage.InGrid(a, b, c) ==> region.regionImage.pixels[a, b, c] == stretched.pixels[a, b, c]
      ensures forall c :: 0 <= c < |data| && c != channel ==> data[c] == old(data[c])
      ensures region.regionImage.observers == old(region.regionImage.observers)
      ensures region.regionImage.notifications == old(region.regionImage.notifications) + [region.regionImage.observers]
    {
      var image := region.regionImage;
      ghost var before := data;
      forall c | 0 <= c < |before| && c != channel ensures ChannelBinned(before[c], stretched, c) {
        assert ChannelBinned(before[c], image, c);
        RebinAgreeing(before[c], image, stretched, c);
      }
      res := image.DeepCopy(stretched);
      // The deepCopy notifies the subscription, which rebuilds the bins.
      ComputeBin();
      forall c | 0 <= c < |data| && c != channel ensures data[c] == old(data[c]) {
        assert ChannelBinned(data[c], image, c);
        AgreeingBins(data[c], image, before[c], stretched, c);
      }
    }

    /** performStretch(minStretch, maxStretch): the one-channel stretch on channels 0, 1, ... in turn. */
    method PerformStretchAll(minStretch: int, maxStretch: int) returns (res: Outcome)
      requires Valid() && IsInt(minStretch) && IsInt(maxStretch)
      modifies this, region.regionImage, region.regionImage.pixels
      ensures Valid()
      ensures res.Pass? <==>
        && 0 <= minStretch < maxStretch <= MAX_RGB && region.Channels() <= 4
        && forall c :: 0 <= c < region.Channels() ==> NewMin(old(Low(c))) <= MAX_RGB
      ensures !(0 <= minStretch < maxStretch <= MAX_RGB) ==>
        res == StretchArgumentCheck(minStretch, maxStretch, 0, region.Channels())
      ensures res.Pass? ==> forall a, b, c :: region.regionImage.InGrid(a, b, c) ==>
        region.regionImage.pixels[a, b, c] ==
          StretchTarget(old(region.regionImage.pixels[a, b, c]), NewMin(old(Low(c))), NewMax(old(High(c))), minStretch, maxStretch)
      ensures region.regionImage.observers == old(region.regionImage.observers)
      ensures res.Pass? ==>
        region.regionImage.notifications == old(region.regionImage.notifications) + Rounds(region.regionImage.observers, region.Channels())
      ensures |old(region.regionImage.notifications)| <= |region.regionImage.notifications| <= |old(region.regionImage.notifications)| + region.Channels()
      ensures region.regionImage.notifications == old(region.regionImage.notifications) +
        Rounds(region.regionImage.observers, |region.regionImage.notifications| - |old(region.regionImage.notifications)|)
    {
      var image := region.regionImage;
      for i := 0 to region.Channels()
        invariant Valid() && image.observers == old(image.observers)
        invariant image.notifications == old(image.notifications) + Rounds(image.observers, i)
        invariant 0 < i ==> 0 <= minStretch < maxStretch <= MAX_RGB && i <= 4
        invariant forall c :: 0 <= c < i ==> NewMin(old(Low(c))) <= MAX_RGB
        invariant forall c :: i <= c < |data| ==> data[c] == old(data[c])
        invariant forall a, b, c :: image.InGrid(a, b, c) ==>
          image.pixels[a, b, c] ==
            if c < i then
              StretchTarget(old(image.pixels[a, b, c]), NewMin(old(Low(c))), NewMax(old(High(c))), minStretch, maxStretch)
            else old(image.pixels[a, b, c])
      {
        ghost var before := data;
        var stretched := PerformStretch(minStretch, maxStretch, i);
        RoundsSnoc(image.observers, i);
        assert Rounds(image.observers, 1) == [image.observers];
        if stretched.Fail? {
          if StretchArgumentCheck(minStretch, maxStretch, i, region.Channels()).Pass? {
            assert NewMin(LowestBin(before[i], 0)) > MAX_RGB;
            assert old(Low(i)) == LowestBin(before[i], 0);
          }
          return stretched;
        }
      }
      res := Pass;
    }
  }

  /**
   * new Histogram(region, colorSpace): an unknown colour space is refused
   * before the histogram subscribes; HSV is not part of this model.
   */
  method NewHistogram(region: ROI, colorSpace: Option<string>, observer: nat) returns (res: Result<Histogram>)
    requires region.Valid() && NormalizeColorSpace(colorSpace) != "hsv"
    modifies region.regionImage
    ensures res.Ok? <==> NormalizeColorSpace(colorSpace) == "rgb"
    ensures res.Err? ==> res.error == IllegalColorspace
    ensures res.Err? ==> region.regionImage.observers == old(region.regionImage.observers)
    ensures res.Ok? ==> fresh(res.value) && res.value.Valid() && res.value.region == region
    ensures res.Ok? ==> region.regionImage.observers == old(region.regionImage.observers) + [observer]
    ensures region.regionImage.notifications == old(region.regionImage.notifications)
  {
    var colorspace := CheckColorSpace(colorSpace);
    if colorspace.Err? {
      return Err(colorspace.error);
    }
    var histogram := new Histogram(region, observer);
    res := Ok(histogram);
  }
}

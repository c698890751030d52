/**
 * The point filters and rotations of the toolbox. Every filter reads the
 * samples of the source image under the region and writes the region image
 * with setPixel, so a filter never changes the source and running it again
 * gives the same region image.
 */
module Toolbox {
  import opened Errors
  import opened JavaInt
  import opened Images
  import opened Regions

  const GREYSCALE_ONLY: string := "This filter only works on greyscale images."
  const THRESHOLD_RANGE: string := "Threshold needs to be capped between 0 to 255"

  /** addGrey's new sample: the 32-bit sum, capped. */
  function GreyAdded(sample: int, value: int): (r: int)
    ensures 0 <= r <= MAX_RGB
  {
    LimitValue(Wrap(sample + value))
  }

  /** Without overflow addGrey is the capped sum the unit test expects. */
  lemma GreyAddedIsCappedSum(sample: int, value: int)
    requires 0 <= sample <= MAX_RGB && IsInt(value) && sample + value <= MAX_INT
    ensures GreyAdded(sample, value) == Min(MAX_RGB, Max(0, sample + value))
    ensures value >= 0 ==> GreyAdded(sample, value) == Min(sample + value, MAX_RGB)
  {
  }

  /** A value so large that the int sum overflows turns the sample black. */
  lemma GreyAddedOverflowIsBlack(sample: int, value: int)
    requires 0 <= sample <= MAX_RGB && IsInt(value) && sample + value > MAX_INT
    ensures GreyAdded(sample, value) == 0
  {
    assert Wrap(sample + value) == sample + value - TWO_32;
  }

  /**
   * addGrey(region, value): channel 0 of every region sample becomes the
   * capped sum of its source sample and `value`; a colour source is refused.
   */
  method AddGrey(region: ROI, value: int) returns (res: Outcome)
    requires region.Valid() && IsInt(value)
    modifies region.regionImage, region.regionImage.pixels
    ensures region.Valid()
    ensures res.Fail? <==> region.sourceImage.isColor
    ensures res.Fail? ==> res.error == IllegalArgument(GREYSCALE_ONLY)
    ensures res.Pass? ==> forall i, j :: region.regionImage.InGrid(i, j, 0) ==>
      region.regionImage.pixels[i, j, 0] == GreyAdded(region.SourceAt(i, j, 0), value)
    ensures forall i, j, k :: region.regionImage.InGrid(i, j, k) && (res.Fail? || k != 0) ==>
      region.regionImage.pixels[i, j, k] == old(region.regionImage.pixels[i, j, k])
    ensures region.regionImage.observers == old(region.regionImage.observers)
    ensures region.regionImage.notifications == old(region.regionImage.notifications) +
      Rounds(region.regionImage.observers, if res.Pass? then region.totalX * region.totalY else 0)
  {
    if region.sourceImage.isColor {
      return Fail(IllegalArgument(GREYSCALE_ONLY));
    }
    var image, source := region.regionImage, region.sourceImage;
    ghost var count := 0;
    for i := 0 to region.totalX
      modifies image, image.pixels
      invariant region.Valid() && image.observers == old(image.observers)
      invariant count == Steps(i, 0, 0, region.totalY, 1)
      invariant image.notifications == old(image.notifications) + Rounds(image.observers, count)
      invariant forall a, b, c :: image.InGrid(a, b, c) ==>
        image.pixels[a, b, c] ==
          if c == 0 && a < i then GreyAdded(region.SourceAt(a, b, 0), value) else old(image.pixels[a, b, c])
    {
      for j := 0 to region.totalY
        modifies image, image.pixels
        invariant region.Valid() && image.observers == old(image.observers)
        invariant count == Steps(i, j, 0, region.totalY, 1)
        invariant image.notifications == old(image.notifications) + Rounds(image.observers, count)
        invariant forall a, b, c :: image.InGrid(a, b, c) ==>
          image.pixels[a, b, c] ==
            if c == 0 && Before(a, b, 0, i, j, 0) then GreyAdded(region.SourceAt(a, b, 0), value)
            else old(image.pixels[a, b, c])
      {
        var newX := region.startX + i;
        var newY := region.startY + j;
        var sample := source.GetGreyPixel(newX, newY);
        var pixel := Wrap(sample.value + value);
        var stored := image.SetGreyPixel(i, j, pixel);
        RoundsSnoc(image.observers, count);
        count := count + 1;
      }
      StepsCarry(i, region.totalY, region.totalY, 1);
    }
    StepsCarry(region.totalX, 0, region.totalY, 1);
    res := Pass;
  }

  /** One step of addBrightness: region sample (i, j, k) becomes its source sample plus `value`, capped. */
  method BrightenSample(region: ROI, i: int, j: int, k: int, value: int)
    requires region.Valid() && region.regionImage.InGrid(i, j, k) && -50 < value < 50
    modifies region.regionImage, region.regionImage.pixels
    ensures region.Valid()
    ensures forall a, b, c :: region.regionImage.InGrid(a, b, c) ==>
      region.regionImage.pixels[a, b, c] ==
        if (a, b, c) == (i, j, k) then LimitValue(region.SourceAt(a, b, c) + value)
        else old(region.regionImage.pixels[a, b, c])
    ensures region.regionImage.observers == old(region.regionImage.observers)
    ensures region.regionImage.notifications == old(region.regionImage.notifications) + [region.regionImage.observers]
  {
    var sourceX := i + region.startX;
    var sourceY := j + region.startY;
    var oldValue := region.sourceImage.GetPixel(sourceX, sourceY, k);
    var newValue := oldValue.value + value;
    var stored := region.regionImage.SetPixel(i, j, k, newValue);
  }

  /**
   * addBrightness(region, value): for -50 < value < 50 every sample of every
   * channel becomes its source sample plus `value`, capped; any other value
   * leaves the region as it is.
   */
  method AddBrightness(region: ROI, value: int)
    requires region.Valid() && IsInt(value)
    modifies region.regionImage, region.regionImage.pixels
    ensures region.Valid()
    ensures forall i, j, k :: region.regionImage.InGrid(i, j, k) ==>
      region.regionImage.pixels[i, j, k] ==
        if -50 < value < 50 then LimitValue(region.SourceAt(i, j, k) + value)
        else old(region.regionImage.pixels[i, j, k])
    ensures region.regionImage.observers == old(region.regionImage.observers)
    ensures region.regionImage.notifications == old(region.regionImage.notifications) +
      Rounds(region.regionImage.observers,
             if -50 < value < 50 then region.totalX * region.totalY * region.Channels() else 0)
  {
    if value > -50 && value < 50 {
      var image := region.regionImage;
      ghost var count := 0;
      for i := 0 to region.totalX
        modifies image, image.pixels
        invariant region.Valid() && image.observers == old(image.observers)
        invariant count == Steps(i, 0, 0, region.totalY, region.Channels())
        invariant image.notifications == old(image.notifications) + Rounds(image.observers, count)
        invariant forall a, b, c :: image.InGrid(a, b, c) ==>
          image.pixels[a, b, c] ==
            if a < i then LimitValue(region.SourceAt(a, b, c) + value) else old(image.pixels[a, b, c])
      {
        for j := 0 to region.totalY
          modifies image, image.pixels
          invariant region.Valid() && image.observers == old(image.observers)
          invariant count == Steps(i, j, 0, region.totalY, region.Channels())
          invariant image.notifications == old(image.notifications) + Rounds(image.observers, count)
          invariant forall a, b, c :: image.InGrid(a, b, c) ==>
            image.pixels[a, b, c] ==
              if Before(a, b, 0, i, j, 0) then LimitValue(region.SourceAt(a, b, c) + value)
              else old(image.pixels[a, b, c])
        {
          for k := 0 to region.Channels()
            modifies image, image.pixels
            invariant region.Valid() && image.observers == old(image.observers)
            invariant count == Steps(i, j, k, region.totalY, region.Channels())
            invariant image.notifications == old(image.notifications) + Rounds(image.observers, count)
            invariant forall a, b, c :: image.InGrid(a, b, c) ==>
              image.pixels[a, b, c] ==
                if Before(a, b, c, i, j, k) then LimitValue(region.SourceAt(a, b, c) + value)
                else old(image.pixels[a, b, c])
          {
            BrightenSample(region, i, j, k, value);
            RoundsSnoc(image.observers, count);
            count := count + 1;
          }
          StepsCarry(i, j, region.totalY, region.Channels());
        }
        StepsCarry(i, region.totalY, region.totalY, region.Channels());
      }
      StepsCarry(region.totalX, 0, region.totalY, region.Channels());
    }
  }

  /** decreaseBrightness's sample: darkened below the threshold, otherwise kept. */
  function Darkened(sample: int, threshold: int, value: int, current: int): (r: int)
    ensures sample < threshold ==> 0 <= r <= MAX_RGB
    ensures sample >= threshold ==> r == current
  {
    if sample < threshold then LimitValue(Wrap(sample - value)) else current
  }

  /** Darkening never brightens: a non-negative decrease gives at most the source sample. */
  lemma DarkenedIsDarker(sample: int, threshold: int, value: int, current: int)
    requires 0 <= sample <= MAX_RGB && 0 <= value <= MAX_INT && sample < threshold
    ensures Darkened(sample, threshold, value, current) == Max(0, sample - value)
    ensures Darkened(sample, threshold, value, current) <= sample
  {
  }

  /**
   * One step of decreaseBrightness: the region sample (i, j, k) is darkened
   * when its source sample is below the threshold, and only then written.
   */
  method DarkenSample(region: ROI, i: int, j: int, k: int, threshold: int, value: int) returns (written: bool)
    requires region.Valid() && region.regionImage.InGrid(i, j, k) && IsInt(value)
    modifies region.regionImage, region.regionImage.pixels
    ensures region.Valid()
    ensures written <==> region.SourceAt(i, j, k) < threshold
    ensures forall a, b, c :: region.regionImage.InGrid(a, b, c) ==>
      region.regionImage.pixels[a, b, c] ==
        if (a, b, c) == (i, j, k) then Darkened(region.SourceAt(a, b, c), threshold, value, old(region.regionImage.pixels[a, b, c]))
        else old(region.regionImage.pixels[a, b, c])
    ensures region.regionImage.observers == old(region.regionImage.observers)
    ensures region.regionImage.notifications ==
      old(region.regionImage.notifications) + (if written then [region.regionImage.observers] else [])
  {
    var sourceX := i + region.startX;
    var sourceY := j + region.startY;
    var intensity := region.sourceImage.GetPixel(sourceX, sourceY, k);
    written := intensity.value < threshold;
    if written {
      var newValue := Wrap(intensity.value - value);
      var stored := region.regionImage.SetPixel(i, j, k, newValue);
    }
  }

  /**
   * decreaseBrightness(region, threshold, value): every sample whose source
   * sample is below the threshold becomes that sample minus `value`, capped;
   * the others keep their current value. A threshold outside [0, 255] is
   * refused.
   */
  method DecreaseBrightness(region: ROI, threshold: int, value: int) returns (res: Outcome)
    requires region.Valid() && IsInt(threshold) && IsInt(value)
    modifies region.regionImage, region.regionImage.pixels
    ensures region.Valid()
    ensures res.Fail? <==> threshold < 0 || threshold > MAX_RGB
    ensures res.Fail? ==> res.error == IllegalArgument(THRESHOLD_RANGE)
    ensures forall i, j, k :: region.regionImage.InGrid(i, j, k) ==>
      region.regionImage.pixels[i, j, k] ==
        if res.Pass? then Darkened(region.SourceAt(i, j, k), threshold, value, old(region.regionImage.pixels[i, j, k]))
        else old(region.regionImage.pixels[i, j, k])
    ensures region.regionImage.observers == old(region.regionImage.observers)
    ensures |region.regionImage.notifications| >= |old(region.regionImage.notifications)|
    ensures region.regionImage.notifications == old(region.regionImage.notifications) +
      Rounds(region.regionImage.observers, |region.regionImage.notifications| - |old(region.regionImage.notifications)|)
    ensures res.Fail? ==> region.regionImage.notifications == old(region.regionImage.notifications)
  {
    if threshold < 0 || threshold > MAX_RGB {
      return Fail(IllegalArgument(THRESHOLD_RANGE));
    }
    var image := region.regionImage;
    ghost var count := 0;
    for i := 0 to region.totalX
      modifies image, image.pixels
      invariant region.Valid() && image.observers == old(image.observers)
      invariant image.notifications == old(image.notifications) + Rounds(image.observers, count)
      invariant forall a, b, c :: image.InGrid(a, b, c) ==>
        image.pixels[a, b, c] ==
          if a < i then Darkened(region.SourceAt(a, b, c), threshold, value, old(image.pixels[a, b, c]))
          else old(image.pixels[a, b, c])
    {
      for j := 0 to region.totalY
        modifies image, image.pixels
        invariant region.Valid() && image.observers == old(image.observers)
        invariant image.notifications == old(image.notifications) + Rounds(image.observers, count)
        invariant forall a, b, c :: image.InGrid(a, b, c) ==>
          image.pixels[a, b, c] ==
            if Before(a, b, 0, i, j, 0) then Darkened(region.SourceAt(a, b, c), threshold, value, old(image.pixels[a, b, c]))
            else old(image.pixels[a, b, c])
      {
        for k := 0 to region.Channels()
          modifies image, image.pixels
          invariant region.Valid() && image.observers == old(image.observers)
          invariant image.notifications == old(image.notifications) + Rounds(image.observers, count)
          invariant forall a, b, c :: image.InGrid(a, b, c) ==>
            image.pixels[a, b, c] ==
              if Before(a, b, c, i, j, k) then Darkened(region.SourceAt(a, b, c), threshold, value, old(image.pixels[a, b, c]))
              else old(image.pixels[a, b, c])
        {
          var written := DarkenSample(region, i, j, k, threshold, value);
          if written {
            RoundsSnoc(image.observers, count);
            count := count + 1;
          }
        }
      }
    }
    assert |image.notifications| - |old(image.notifications)| == count;
    res := Pass;
  }

  /** binarize's sample: black below the threshold, white from it on. */
  function Binarized(sample: int, threshold: int): (r: int)
    ensures r == 0 || r == MAX_RGB
    ensures r == 0 <==> sample < threshold
  {
    if sample < threshold then 0 else MAX_RGB
  }

  /** Binarising is monotone in the sample. */
  lemma BinarizedMonotone(s1: int, s2: int, threshold: int)
    requires s1 <= s2
    ensures Binarized(s1, threshold) <= Binarized(s2, threshold)
  {
  }

  /**
   * binarize(region, threshold): channel 0 of every region sample becomes 0
   * or 255 by its source sample; a colour source, then a threshold outside
   * [0, 255], is refused.
   */
  method Binarize(region: ROI, threshold: int) returns (res: Outcome)
    requires region.Valid() && IsInt(threshold)
    modifies region.regionImage, region.regionImage.pixels
    ensures region.Valid()
    ensures res.Pass? <==> !region.sourceImage.isColor && 0 <= threshold <= MAX_RGB
    ensures region.sourceImage.isColor ==> res == Fail(IllegalArgument(GREYSCALE_ONLY))
    ensures !region.sourceImage.isColor && res.Fail? ==> res == Fail(IllegalArgument(THRESHOLD_RANGE))
    ensures res.Pass? ==> forall i, j :: region.regionImage.InGrid(i, j, 0) ==>
      region.regionImage.pixels[i, j, 0] == Binarized(region.SourceAt(i, j, 0), threshold)
    ensures forall i, j, k :: region.regionImage.InGrid(i, j, k) && (res.Fail? || k != 0) ==>
      region.regionImage.pixels[i, j, k] == old(region.regionImage.pixels[i, j, k])
    ensures region.regionImage.observers == old(region.regionImage.observers)
    ensures region.regionImage.notifications == old(region.regionImage.notifications) +
      Rounds(region.regionImage.observers, if res.Pass? then region.totalX * region.totalY else 0)
  {
    if region.sourceImage.isColor {
      return Fail(IllegalArgument(GREYSCALE_ONLY));
    }
    if threshold < 0 || threshold > MAX_RGB {
      return Fail(IllegalArgument(THRESHOLD_RANGE));
    }
    var image, source := region.regionImage, region.sourceImage;
    ghost var count := 0;
    for i := 0 to region.totalX
      modifies image, image.pixels
      invariant region.Valid() && image.observers == old(image.observers)
      invariant count == Steps(i, 0, 0, region.totalY, 1)
      invariant image.notifications == old(image.notifications) + Rounds(image.observers, count)
      invariant forall a, b, c :: image.InGrid(a, b, c) ==>
        image.pixels[a, b, c] ==
          if c == 0 && a < i then Binarized(region.SourceAt(a, b, 0), threshold) else old(image.pixels[a, b, c])
    {
      for j := 0 to region.totalY
        modifies image, image.pixels
        invariant region.Valid() && image.observers == old(image.observers)
        invariant count == Steps(i, j, 0, region.totalY, 1)
        invariant image.notifications == old(image.notifications) + Rounds(image.observers, count)
        invariant forall a, b, c :: image.InGrid(a, b, c) ==>
          image.pixels[a, b, c] ==
            if c == 0 && Before(a, b, 0, i, j, 0) then Binarized(region.SourceAt(a, b, 0), threshold)
            else old(image.pixels[a, b, c])
      {
        var sourceX := i + region.startX;
        var sourceY := j + region.startY;
        var originalIntensity := source.GetGreyPixel(sourceX, sourceY);
        var newIntensity := if originalIntensity.value < threshold then 0 else MAX_RGB;
        var stored := image.SetGreyPixel(i, j, newIntensity);
        RoundsSnoc(image.observers, count);
        count := count + 1;
      }
      StepsCarry(i, region.totalY, region.totalY, 1);
    }
    StepsCarry(region.totalX, 0, region.totalY, 1);
    res := Pass;
  }

  /** Where the sample now at p in an n x n block came from, one clockwise quarter turn earlier. */
  function QuarterTurnSource(n: int, p: Point): (r: Point)
    ensures 0 <= p.x < n && 0 <= p.y < n ==> 0 <= r.x < n && 0 <= r.y < n
    ensures Point(r.y, n - 1 - r.x) == p
  {
    Point(n - 1 - p.y, p.x)
  }

  /** Where the sample now at p came from, `turns` clockwise quarter turns earlier. */
  function RotatedFrom(n: int, turns: nat, p: Point): (r: Point)
    ensures 0 <= p.x < n && 0 <= p.y < n ==> 0 <= r.x < n && 0 <= r.y < n
    decreases turns
  {
    if turns == 0 then p else RotatedFrom(n, turns - 1, QuarterTurnSource(n, p))
  }

  /** Turning by a + b quarter turns is turning by b, then by a. */
  lemma {:induction false} RotatedFromAdd(n: int, a: nat, b: nat, p: Point)
    ensures RotatedFrom(n, a + b, p) == RotatedFrom(n, a, RotatedFrom(n, b, p))
    decreases b
  {
    if b != 0 {
      RotatedFromAdd(n, a, b - 1, QuarterTurnSource(n, p));
    }
  }

  /** Four quarter turns put every sample back where it was. */
  lemma FullTurn(n: int, p: Point)
    ensures RotatedFrom(n, 4, p) == p
  {
    assert RotatedFrom(n, 4, p) == RotatedFrom(n, 3, QuarterTurnSource(n, p));
    assert RotatedFrom(n, 2, QuarterTurnSource(n, QuarterTurnSource(n, p))) ==
      RotatedFrom(n, 1, QuarterTurnSource(n, QuarterTurnSource(n, QuarterTurnSource(n, p))));
  }

  /** Four more quarter turns change nothing. */
  lemma FourMore(n: int, turns: nat, p: Point)
    ensures RotatedFrom(n, turns + 4, p) == RotatedFrom(n, turns, p)
  {
    RotatedFromAdd(n, turns, 4, p);
    FullTurn(n, p);
  }

  /** Only the number of quarter turns modulo four matters. */
  lemma {:induction false} RotationPeriod(n: int, turns: nat, p: Point)
    ensures RotatedFrom(n, turns, p) == RotatedFrom(n, turns % 4, p)
    decreases turns
  {
    if turns >= 4 {
      var rest := turns - 4;
      FourMore(n, rest, p);
      RotationPeriod(n, rest, p);
      assert rest % 4 == turns % 4;
    }
  }

  /**
   * rotateClockwise90(region): a square region image turned a quarter turn
   * clockwise through a scratch image and deepCopy; a non-square region is
   * refused and left as it is.
   */
  method RotateClockwise90(region: ROI) returns (res: Outcome)
    requires region.Valid()
    modifies region.regionImage, region.regionImage.pixels
    ensures region.Valid()
    ensures res == region.EnforceSquareDimensions(true)
    ensures forall a, b, k :: region.regionImage.InGrid(a, b, k) ==>
      region.regionImage.pixels[a, b, k] ==
        if res.Pass? then old(region.regionImage.pixels[region.totalX - 1 - b, a, k])
        else old(region.regionImage.pixels[a, b, k])
    ensures region.regionImage.observers == old(region.regionImage.observers)
    ensures region.regionImage.notifications == old(region.regionImage.notifications) +
      Rounds(region.regionImage.observers, if res.Pass? then 1 else 0)
  {
    var square := region.EnforceSquareDimensions(true);
    if square.Fail? {
      return square;
    }
    var image := region.regionImage;
    var n := region.totalX;
    var rotatedImage := new Image(region.totalX, region.totalY, region.Channels());
    for i := 0 to n
      modifies rotatedImage, rotatedImage.pixels
      invariant rotatedImage.Valid()
      invariant forall a, b, c :: rotatedImage.InGrid(a, b, c) ==>
        rotatedImage.pixels[a, b, c] == if n - 1 - b < i then image.pixels[n - 1 - b, a, c] else 0
    {
      for j := 0 to n
        modifies rotatedImage, rotatedImage.pixels
        invariant rotatedImage.Valid()
        invariant forall a, b, c :: rotatedImage.InGrid(a, b, c) ==>
          rotatedImage.pixels[a, b, c] ==
            if Before(n - 1 - b, a, 0, i, j, 0) then image.pixels[n - 1 - b, a, c] else 0
      {
        for k := 0 to region.Channels()
          modifies rotatedImage, rotatedImage.pixels
          invariant rotatedImage.Valid()
          invariant forall a, b, c :: rotatedImage.InGrid(a, b, c) ==>
            rotatedImage.pixels[a, b, c] ==
              if Before(n - 1 - b, a, c, i, j, k) then image.pixels[n - 1 - b, a, c] else 0
        {
          var newY := n - i - 1;
          var intensity := image.GetPixel(i, j, k);
          var stored := rotatedImage.SetPixel(j, newY, k, intensity.value);
        }
      }
    }
    var copied := image.DeepCopy(rotatedImage);
    res := Pass;
  }

  /**
   * rotate(region, angle): angle / 90 clockwise quarter turns; the angle must
   * be positive and a multiple of 90, and the region square.
   */
  method Rotate(region: ROI, angle: int) returns (res: Outcome)
    requires region.Valid()
    modifies region.regionImage, region.regionImage.pixels
    ensures region.Valid()
    ensures angle <= 0 ==> res == Fail(IllegalArgument("Angle must be positive."))
    ensures angle > 0 && angle % 90 != 0 ==> res == Fail(IllegalArgument("Angle must be a multiple of 90."))
    ensures angle > 0 && angle % 90 == 0 ==> res == region.EnforceSquareDimensions(true)
    ensures forall a, b, k :: region.regionImage.InGrid(a, b, k) ==>
      region.regionImage.pixels[a, b, k] ==
        if res.Pass? then
          old(region.regionImage.pixels[RotatedFrom(region.totalX, angle / 90, Point(a, b)).x,
                                        RotatedFrom(region.totalX, angle / 90, Point(a, b)).y, k])
        else old(region.regionImage.pixels[a, b, k])
    ensures region.regionImage.observers == old(region.regionImage.observers)
    ensures region.regionImage.notifications == old(region.regionImage.notifications) +
      Rounds(region.regionImage.observers, if res.Pass? then angle / 90 else 0)
  {
    var baseAngle := 90;
    if angle <= 0 {
      return Fail(IllegalArgument("Angle must be positive."));
    }
    if angle % baseAngle != 0 {
      return Fail(IllegalArgument("Angle must be a multiple of 90."));
    }
    var image := region.regionImage;
    var n := region.totalX;
    var numRotations := angle / baseAngle;
    for i := 0 to numRotations
      modifies image, image.pixels
      invariant region.Valid() && image.observers == old(image.observers)
      invariant i > 0 ==> region.totalX == region.totalY
      invariant image.notifications == old(image.notifications) + Rounds(image.observers, i)
      invariant forall a, b, c :: image.InGrid(a, b, c) ==>
        image.pixels[a, b, c] == old(image.pixels[RotatedFrom(n, i, Point(a, b)).x, RotatedFrom(n, i, Point(a, b)).y, c])
    {
      var turned := RotateClockwise90(region);
      if turned.Fail? {
        return turned;
      }
      forall a, b, c | image.InGrid(a, b, c)
        ensures image.pixels[a, b, c] ==
          old(image.pixels[RotatedFrom(n, i + 1, Point(a, b)).x, RotatedFrom(n, i + 1, Point(a, b)).y, c])
      {
        RotatedFromAdd(n, i, 1, Point(a, b));
      }
      RoundsSnoc(image.observers, i);
    }
    res := Pass;
  }

  /** Rotating by 360 degrees, or any multiple of it, leaves every sample in place. */
  lemma FullCircle(n: int, angle: int, p: Point)
    requires angle > 0 && angle % 360 == 0
    ensures RotatedFrom(n, angle / 90, p) == p
  {
    assert (angle / 90) % 4 == 0;
    RotationPeriod(n, angle / 90, p);
  }

  /** Darkening a sample that was already darkened by the same call changes nothing. */
  lemma DarkenedTwice(sample: int, threshold: int, value: int, current: int)
    ensures Darkened(sample, threshold, value, Darkened(sample, threshold, value, current)) ==
      Darkened(sample, threshold, value, current)
  {
  }

  /**
   * addGrey applied twice to the same region: both calls have the same
   * outcome and the region ends as after one call, since every sample is
   * computed from the unchanged source.
   */
  method AddGreyTwice(region: ROI, value: int) returns (first: Outcome, second: Outcome)
    requires region.Valid() && IsInt(value)
    modifies region.regionImage, region.regionImage.pixels
    ensures region.Valid()
    ensures first == second
    ensures first.Pass? ==> forall i, j :: region.regionImage.InGrid(i, j, 0) ==>
      region.regionImage.pixels[i, j, 0] == GreyAdded(region.SourceAt(i, j, 0), value)
    ensures forall i, j, k :: region.regionImage.InGrid(i, j, k) && (first.Fail? || k != 0) ==>
      region.regionImage.pixels[i, j, k] == old(region.regionImage.pixels[i, j, k])
  {
    first := AddGrey(region, value);
    second := AddGrey(region, value);
  }

  /** addBrightness applied twice to the same region ends as after one call. */
  method AddBrightnessTwice(region: ROI, value: int)
    requires region.Valid() && IsInt(value)
    modifies region.regionImage, region.regionImage.pixels
    ensures region.Valid()
    ensures forall i, j, k :: region.regionImage.InGrid(i, j, k) ==>
      region.regionImage.pixels[i, j, k] ==
        if -50 < value < 50 then LimitValue(region.SourceAt(i, j, k) + value)
        else old(region.regionImage.pixels[i, j, k])
  {
    AddBrightness(region, value);
    AddBrightness(region, value);
  }

  /**
   * decreaseBrightness applied twice to the same region ends as after one
   * call: the second call rewrites the darkened samples with the same values
   * and keeps the others.
   */
  method DecreaseBrightnessTwice(region: ROI, threshold: int, value: int) returns (first: Outcome, second: Outcome)
    requires region.Valid() && IsInt(threshold) && IsInt(value)
    modifies region.regionImage, region.regionImage.pixels
    ensures region.Valid()
    ensures first == second
    ensures forall i, j, k :: region.regionImage.InGrid(i, j, k) ==>
      region.regionImage.pixels[i, j, k] ==
        if first.Pass? then Darkened(region.SourceAt(i, j, k), threshold, value, old(region.regionImage.pixels[i, j, k]))
        else old(region.regionImage.pixels[i, j, k])
  {
    first := DecreaseBrightness(region, threshold, value);
    second := DecreaseBrightness(region, threshold, value);
    forall i, j, k | region.regionImage.InGrid(i, j, k) && first.Pass?
      ensures region.regionImage.pixels[i, j, k] ==
        Darkened(region.SourceAt(i, j, k), threshold, value, old(region.regionImage.pixels[i, j, k]))
    {
      DarkenedTwice(region.SourceAt(i, j, k), threshold, value, old(region.regionImage.pixels[i, j, k]));
    }
  }

  /** binarize applied twice to the same region ends as after one call. */
  method BinarizeTwice(region: ROI, threshold: int) returns (first: Outcome, second: Outcome)
    requires region.Valid() && IsInt(threshold)
    modifies region.regionImage, region.regionImage.pixels
    ensures region.Valid()
    ensures first == second
    ensures first.Pass? ==> forall i, j :: region.regionImage.InGrid(i, j, 0) ==>
      region.regionImage.pixels[i, j, 0] == Binarized(region.SourceAt(i, j, 0), threshold)
    ensures forall i, j, k :: region.regionImage.InGrid(i, j, k) && (first.Fail? || k != 0) ==>
      region.regionImage.pixels[i, j, k] == old(region.regionImage.pixels[i, j, k])
  {
    first := Binarize(region, threshold);
    second := Binarize(region, threshold);
  }
}

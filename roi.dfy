/**
 * A region of interest: a rectangular block of a source image, copied into
 * a region image of its own. Filters read the source and write the region
 * image; `ApplyModifications` writes the region image back into the block.
 */
module Regions {
  import opened Errors
  import opened JavaInt
  import opened Images

  class ROI {
    const sourceImage: Image
    const regionImage: Image
    const startX: int
    const startY: int
    const totalX: int
    const totalY: int

    /**
     * Both images are valid and distinct, the block lies inside the source
     * and the region image has the block's shape and the source's channels.
     */
    ghost predicate Valid()
      reads sourceImage.pixels, regionImage.pixels
    {
      && sourceImage.Valid() && regionImage.Valid()
      && sourceImage != regionImage && sourceImage.pixels != regionImage.pixels
      && 0 <= startX && 0 <= startY && 0 < totalX && 0 < totalY
      && startX + totalX <= sourceImage.rows && startY + totalY <= sourceImage.columns
      && regionImage.rows == totalX && regionImage.columns == totalY
      && regionImage.channels == sourceImage.channels
    }

    /** The source sample under entry (i, j, k) of the region image. */
    function SourceAt(i: int, j: int, k: int): int
      reads sourceImage.pixels, regionImage.pixels
      requires Valid() && regionImage.InGrid(i, j, k)
    {
      sourceImage.pixels[startX + i, startY + j, k]
    }

    /** Every sample of the region image is the matching sample of the block. */
    ghost predicate InSync()
      reads sourceImage.pixels, regionImage.pixels
      requires Valid()
    {
      forall i, j, k :: regionImage.InGrid(i, j, k) ==>
        regionImage.pixels[i, j, k] == sourceImage.pixels[startX + i, startY + j, k]
    }

    /**
     * ROI(image, startX, startY, totalX, totalY) once the bounds test has
     * passed; `NewRoi` covers the rejected arguments.
     */
    constructor (image: Image, startX: int, startY: int, totalX: int, totalY: int)
      requires image.Valid()
      requires 0 <= startX && 0 <= startY && 0 < totalX && 0 < totalY
      requires startX + totalX <= image.rows && startY + totalY <= image.columns
      ensures Valid() && InSync()
      ensures sourceImage == image && fresh(regionImage) && fresh(regionImage.pixels)
      ensures this.startX == startX && this.startY == startY
      ensures this.totalX == totalX && this.totalY == totalY
      ensures regionImage.observers == []
    {
      var region := new Image(totalX, totalY, image.channels);
      for i := 0 to totalX
        modifies region, region.pixels
        invariant region.Valid() && region.observers == []
        invariant forall a, b, c :: region.InGrid(a, b, c) ==>
          region.pixels[a, b, c] == if a < i then image.pixels[startX + a, startY + b, c] else 0
      {
        for j := 0 to totalY
          modifies region, region.pixels
          invariant region.Valid() && region.observers == []
          invariant forall a, b, c :: region.InGrid(a, b, c) ==>
            region.pixels[a, b, c] == if Before(a, b, 0, i, j, 0) then image.pixels[startX + a, startY + b, c] else 0
        {
          for k := 0 to image.channels
            modifies region, region.pixels
            invariant region.Valid() && region.observers == []
            invariant forall a, b, c :: region.InGrid(a, b, c) ==>
              region.pixels[a, b, c] == if Before(a, b, c, i, j, k) then image.pixels[startX + a, startY + b, c] else 0
          {
            var value := image.GetPixel(i + startX, j + startY, k);
            var stored := region.SetPixel(i, j, k, value.value);
          }
        }
      }
      sourceImage := image;
      regionImage := region;
      this.startX := startX;
      this.startY := startY;
      this.totalX := totalX;
      this.totalY := totalY;
    }

    /** getEndX: one past the last source row of the block. */
    function EndX(): int {
      startX + totalX
    }

    /** getEndY: one past the last source column of the block. */
    function EndY(): int {
      startY + totalY
    }

    /** getChannels: the channel count of the source image. */
    function Channels(): int {
      sourceImage.channels
    }

    /** The end corner passes the source's bounds test and the block fills [start, end). */
    lemma EndsInBounds()
      requires Valid()
      ensures sourceImage.IsInBounds(EndX(), EndY())
      ensures EndX() - startX == regionImage.rows && EndY() - startY == regionImage.columns
      ensures forall i, j, k :: regionImage.InGrid(i, j, k) <==>
        (startX <= startX + i < EndX() && startY <= startY + j < EndY() && 0 <= k < Channels())
    {
    }

    /** enforceSquareDimensions(enforceSquare). */
    function EnforceSquareDimensions(enforceSquare: bool): (r: Outcome)
      ensures r.Fail? <==> enforceSquare && totalX != totalY
      ensures r.Fail? ==> r.error == IllegalArgument("ROI must be square")
    {
      if enforceSquare && totalX != totalY then Fail(IllegalArgument("ROI must be square")) else Pass
    }

    /**
     * enforceBaseTwoDimensions(enforceBaseTwo): the test n & (n - 1) == 0
     * on both extents, which for positive n holds exactly for powers of two.
     */
    function EnforceBaseTwoDimensions(enforceBaseTwo: bool): (r: Outcome)
      requires 0 < totalX && 0 < totalY
      ensures r.Fail? <==> enforceBaseTwo && !(IsPowerOfTwo(totalX) && IsPowerOfTwo(totalY))
      ensures r.Fail? ==> r.error == IllegalArgument("ROI must be in the form of 2^n x 2^n")
    {
      PowerOfTwoTest(totalX);
      PowerOfTwoTest(totalY);
      var baseTwoX := BitAnd(totalX, totalX - 1) == 0;
      var baseTwoY := BitAnd(totalY, totalY - 1) == 0;
      if enforceBaseTwo && (!baseTwoX || !baseTwoY) then
        Fail(IllegalArgument("ROI must be in the form of 2^n x 2^n"))
      else
        Pass
    }

    /** equals: equal region images and the same start and extents. */
    predicate Equals(other: ROI)
      reads regionImage.pixels, other.regionImage.pixels
      requires regionImage.Valid() && other.regionImage.Valid()
      ensures Equals(other) ==> EndX() == other.EndX() && EndY() == other.EndY()
      ensures other == this ==> Equals(other)
    {
      && regionImage.Equals(other.regionImage)
      && startX == other.startX && startY == other.startY
      && totalX == other.totalX && totalY == other.totalY
    }

    /**
     * applyModifications: writes every region sample back into the block,
     * one setPixel (and one notification round of the source) per sample.
     */
    method ApplyModifications()
      requires Valid()
      modifies sourceImage, sourceImage.pixels
      ensures Valid() && InSync()
      ensures forall i, j, k :: regionImage.InGrid(i, j, k) ==>
        sourceImage.pixels[startX + i, startY + j, k] == regionImage.pixels[i, j, k]
      ensures forall i, j, k :: sourceImage.InGrid(i, j, k) && !(startX <= i < EndX() && startY <= j < EndY()) ==>
        sourceImage.pixels[i, j, k] == old(sourceImage.pixels[i, j, k])
      ensures sourceImage.observers == old(sourceImage.observers)
      ensures sourceImage.notifications ==
        old(sourceImage.notifications) + Rounds(sourceImage.observers, totalX * totalY * Channels())
    {
      ghost var count := 0;
      for i := startX to EndX()
        modifies sourceImage, sourceImage.pixels
        invariant Valid()
        invariant sourceImage.observers == old(sourceImage.observers)
        invariant count == Steps(i - startX, 0, 0, totalY, Channels())
        invariant sourceImage.notifications == old(sourceImage.notifications) + Rounds(sourceImage.observers, count)
        invariant forall a, b, c :: sourceImage.InGrid(a, b, c) ==>
          sourceImage.pixels[a, b, c] ==
            if startX <= a < i && startY <= b < EndY() then regionImage.pixels[a - startX, b - startY, c]
            else old(sourceImage.pixels[a, b, c])
      {
        for j := startY to EndY()
          modifies sourceImage, sourceImage.pixels
          invariant Valid()
          invariant sourceImage.observers == old(sourceImage.observers)
          invariant count == Steps(i - startX, j - startY, 0, totalY, Channels())
          invariant sourceImage.notifications == old(sourceImage.notifications) + Rounds(sourceImage.observers, count)
          invariant forall a, b, c :: sourceImage.InGrid(a, b, c) ==>
            sourceImage.pixels[a, b, c] ==
              if startX <= a && startY <= b < EndY() && Before(a, b, 0, i, j, 0) then regionImage.pixels[a - startX, b - startY, c]
              else old(sourceImage.pixels[a, b, c])
        {
          for k := 0 to Channels()
            modifies sourceImage, sourceImage.pixels
            invariant Valid()
            invariant sourceImage.observers == old(sourceImage.observers)
            invariant count == Steps(i - startX, j - startY, k, totalY, Channels())
            invariant sourceImage.notifications == old(sourceImage.notifications) + Rounds(sourceImage.observers, count)
            invariant forall a, b, c :: sourceImage.InGrid(a, b, c) ==>
              sourceImage.pixels[a, b, c] ==
                if startX <= a && startY <= b < EndY() && Before(a, b, c, i, j, k) then regionImage.pixels[a - startX, b - startY, c]
                else old(sourceImage.pixels[a, b, c])
          {
            var newValue := regionImage.GetPixel(i - startX, j - startY, k);
            var stored := sourceImage.SetPixel(i, j, k, newValue.value);
            RoundsSnoc(sourceImage.observers, count);
            count := count + 1;
          }
          StepsCarry(i - startX, j - startY, totalY, Channels());
        }
        StepsCarry(i - startX, totalY, totalY, Channels());
      }
      StepsCarry(totalX, 0, totalY, Channels());
    }
  }

  /**
   * The number of iterations three nested loops over (a, b, c) have run,
   * with y middle and z inner iterations per outer one.
   */
  function Steps(a: int, b: int, c: int, y: int, z: int): int {
    (a * y + b) * z + c
  }

  lemma StepsCarry(a: int, b: int, y: int, z: int)
    ensures Steps(a, b, z, y, z) == Steps(a, b + 1, 0, y, z)
    ensures Steps(a, y, 0, y, z) == Steps(a + 1, 0, 0, y, z)
    ensures Steps(a, 0, 0, y, z) == a * y * z
  {
    assert (a * y + b) * z + z == (a * y + b + 1) * z;
    assert a * y + y == (a + 1) * y;
  }

  /** Bitwise AND of two non-negative ints. */
  function BitAnd(a: nat, b: nat): nat
    decreases a
  {
    if a == 0 || b == 0 then 0
    else 2 * BitAnd(a / 2, b / 2) + (if a % 2 == 1 && b % 2 == 1 then 1 else 0)
  }

  function Pow2(e: nat): nat {
    if e == 0 then 1 else 2 * Pow2(e - 1)
  }

  ghost predicate IsPowerOfTwo(n: int) {
    exists e: nat :: n == Pow2(e)
  }

  /** One step of the bitwise recursion, with the low bits of n and n - 1 never both set. */
  lemma BitAndStep(a: nat, b: nat)
    requires 0 < b && a == b + 1
    ensures BitAnd(a, b) == 2 * BitAnd(a / 2, b / 2)
  {
  }

  lemma {:induction false} Pow2Parity(e: nat)
    ensures e == 0 || Pow2(e) % 2 == 0
  {
    if e > 0 {
      assert Pow2(e) == 2 * Pow2(e - 1);
    }
  }

  lemma BitAndSelf(a: nat)
    ensures BitAnd(a, a) == a
  {
  }

  /** For positive n, n & (n - 1) == 0 holds exactly when n is a power of two. */
  lemma {:induction false} PowerOfTwoTest(n: nat)
    requires 0 < n
    ensures BitAnd(n, n - 1) == 0 <==> IsPowerOfTwo(n)
    decreases n
  {
    if n == 1 {
      assert n == Pow2(0);
    } else if n % 2 == 0 {
      var h := n / 2;
      assert n == 2 * h && n - 1 == 2 * (h - 1) + 1;
      BitAndStep(n, n - 1);
      PowerOfTwoTest(h);
      if IsPowerOfTwo(h) {
        var e: nat :| h == Pow2(e);
        assert n == Pow2(e + 1);
      }
      if IsPowerOfTwo(n) {
        var e: nat :| n == Pow2(e);
        assert n / 2 == Pow2(e - 1);
      }
    } else {
      var h := n / 2;
      assert n == 2 * h + 1 && n - 1 == 2 * h && 0 < h;
      BitAndStep(n, n - 1);
      BitAndSelf(h);
      forall e: nat ensures n != Pow2(e) {
        Pow2Parity(e);
      }
    }
  }

  /**
   * The bounds test of the constructor with Java's wrap-around on
   * start + total agrees with the test on the exact sum.
   */
  lemma WrappedEndTest(start: int, total: int, limit: int)
    requires 0 < limit <= MAX_INT && 0 <= start <= limit && IsInt(total)
    ensures (0 <= Wrap(start + total) <= limit) <==> (0 <= start + total <= limit)
  {
  }

  /**
   * new ROI(image, startX, startY, totalX, totalY): a start or end corner
   * outside the inclusive bounds test is RoiOutOfBounds; a block that
   * passes the test but has a non-positive extent fails in the region
   * image's constructor.
   */
  method NewRoi(image: Image, startX: int, startY: int, totalX: int, totalY: int) returns (res: Result<ROI>)
    requires image.Valid()
    requires IsInt(startX) && IsInt(startY) && IsInt(totalX) && IsInt(totalY)
    ensures res.Ok? <==>
      && 0 <= startX && 0 <= startY && 0 < totalX && 0 < totalY
      && startX + totalX <= image.rows && startY + totalY <= image.columns
    ensures res.Err? ==> (res.error == RoiOutOfBounds <==>
      !(image.IsInBounds(startX, startY) && image.IsInBounds(startX + totalX, startY + totalY)))
    ensures res.Err? && res.error != RoiOutOfBounds ==> res.error.IllegalArgument?
    ensures res.Ok? ==> res.value.Valid() && res.value.InSync()
    ensures res.Ok? ==> res.value.sourceImage == image && fresh(res.value.regionImage) && fresh(res.value.regionImage.pixels)
    ensures res.Ok? ==> res.value.startX == startX && res.value.startY == startY
    ensures res.Ok? ==> res.value.totalX == totalX && res.value.totalY == totalY
  {
    var isStartInBound := image.IsInBounds(startX, startY);
    var isEndInBound := image.IsInBounds(Wrap(startX + totalX), Wrap(startY + totalY));
    if isStartInBound {
      WrappedEndTest(startX, totalX, image.rows);
      WrappedEndTest(startY, totalY, image.columns);
    }
    if !isStartInBound || !isEndInBound {
      return Err(RoiOutOfBounds);
    }
    if totalX <= 0 || totalY <= 0 {
      return Err(IllegalArgument("Invalid image dimensions"));
    }
    var roi := new ROI(image, startX, startY, totalX, totalY);
    res := Ok(roi);
  }

  /**
   * Two synchronised regions at the same place in equal sources are equal:
   * ROI equality depends only on the block's position and samples.
   */
  lemma SyncedRoisEqual(r1: ROI, r2: ROI)
    requires r1.Valid() && r2.Valid() && r1.InSync() && r2.InSync()
    requires r1.sourceImage.Equals(r2.sourceImage)
    requires r1.startX == r2.startX && r1.startY == r2.startY
    requires r1.totalX == r2.totalX && r1.totalY == r2.totalY
    ensures r1.Equals(r2)
  {
  }

  /** Cutting a region out and committing it unchanged leaves the image's samples as they were. */
  method ExtractAndCommit(image: Image, startX: int, startY: int, totalX: int, totalY: int) returns (res: Outcome)
    requires image.Valid()
    requires IsInt(startX) && IsInt(startY) && IsInt(totalX) && IsInt(totalY)
    modifies image, image.pixels
    ensures image.Valid()
    ensures forall i, j, k :: image.InGrid(i, j, k) ==> image.pixels[i, j, k] == old(image.pixels[i, j, k])
    ensures res.Pass? <==>
      && 0 <= startX && 0 <= startY && 0 < totalX && 0 < totalY
      && startX + totalX <= image.rows && startY + totalY <= image.columns
  {
    var roi := NewRoi(image, startX, startY, totalX, totalY);
    if roi.Err? {
      return Fail(roi.error);
    }
    var region := roi.value;
    region.ApplyModifications();
    forall i, j, k | image.InGrid(i, j, k) ensures image.pixels[i, j, k] == old(image.pixels[i, j, k]) {
      if region.startX <= i < region.EndX() && region.startY <= j < region.EndY() {
        assert region.regionImage.InGrid(i - region.startX, j - region.startY, k);
      }
    }
    res := Pass;
  }
}

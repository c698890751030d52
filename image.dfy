/**
 * The pixel buffer of the toolkit: a rows x columns x channels grid of
 * samples, each kept in [0, 255], with bounds-checked accessors, whole
 * channel get/set in row-major order, a dimension-checked deep copy,
 * element-wise equality, and a synchronous list of observers.
 *
 * Observers are modelled by subscriber ids; every notification round is
 * appended to the ghost log `notifications` as the list of ids it called,
 * in the order it called them.
 */
module Images {
  import opened Errors
  import opened JavaInt
  import opened Misc

  const MAX_RGB: int := 255

  /** A coordinate inside a region or an image (java.awt.Point). */
  datatype Point = Point(x: int, y: int)

  function Dist(a: int, b: int): nat {
    if a <= b then b - a else a - b
  }

  /** Caps a sample at 0 and 255. */
  function LimitValue(value: int): (r: int)
    ensures 0 <= r <= MAX_RGB
    ensures 0 <= value <= MAX_RGB ==> r == value
    ensures forall w :: 0 <= w <= MAX_RGB ==> Dist(r, value) <= Dist(w, value)
  {
    if value < 0 then 0 else if value > MAX_RGB then MAX_RGB else value
  }

  /** The expression the unit tests use for the cap, min(255, max(0, v)). */
  lemma LimitValueIsMinMax(value: int)
    ensures LimitValue(value) == Min(MAX_RGB, Max(0, value))
  {
  }

  function Min(a: int, b: int): int { if a <= b then a else b }
  function Max(a: int, b: int): int { if a <= b then b else a }

  /** (a, b, c) comes before (i, j, k) in the order of three nested loops. */
  predicate Before(a: int, b: int, c: int, i: int, j: int, k: int) {
    a < i || (a == i && (b < j || (b == j && c < k)))
  }

  /** Position of entry (i, j) in a row-major flattening with `columns` columns. */
  function FlatIndex(i: int, j: int, rows: int, columns: int): (n: int)
    requires 0 <= i < rows && 0 <= j < columns
    ensures 0 <= n < rows * columns
    ensures n / columns == i && n % columns == j
  {
    FlatIndexFacts(i, j, rows, columns);
    i * columns + j
  }

  lemma FlatIndexFacts(i: int, j: int, rows: int, columns: int)
    requires 0 <= i < rows && 0 <= j < columns
    ensures 0 <= i * columns + j < rows * columns
    ensures (i * columns + j) / columns == i && (i * columns + j) % columns == j
  {
    MulLeft(i + 1, rows, columns);
    assert i * columns + j < (i + 1) * columns;
    DivModUnique(i * columns + j, columns, i, j);
  }

  /** x <= y and c >= 0 give x * c <= y * c. */
  lemma MulLeft(x: int, y: int, c: int)
    requires x <= y && 0 <= c
    ensures x * c <= y * c
  {
    assert y * c - x * c == (y - x) * c;
  }

  /** Quotient and remainder are the only q, r with n == q * c + r and 0 <= r < c. */
  lemma DivModUnique(n: int, c: int, q: int, r: int)
    requires 0 < c && 0 <= r < c && n == q * c + r
    ensures n / c == q && n % c == r
  {
    var q', r' := n / c, n % c;
    assert (q - q') * c == r' - r;
    if q > q' {
      MulLeft(1, q - q', c);
    } else if q < q' {
      MulLeft(1, q' - q, c);
    }
  }

  class Image {
    const rows: int
    const columns: int
    const channels: int
    const isColor: bool
    const pixels: array3<int>
    var observers: seq<nat>
    ghost var notifications: seq<seq<nat>>

    /** Dimensions are positive Java ints, match the grid, and every sample lies in [0, 255]. */
    ghost predicate Valid()
      reads pixels
    {
      && 0 < rows <= MAX_INT && 0 < columns <= MAX_INT && 0 < channels <= MAX_INT
      && pixels.Length0 == rows && pixels.Length1 == columns && pixels.Length2 == channels
      && isColor == (channels == 3)
      && forall i, j, k :: 0 <= i < rows && 0 <= j < columns && 0 <= k < channels ==>
           0 <= pixels[i, j, k] <= MAX_RGB
    }

    predicate InGrid(i: int, j: int, k: int) {
      0 <= i < rows && 0 <= j < columns && 0 <= k < channels
    }

    /** Image(int, int, int): an all-zero image; `NewImage` covers the rejected dimensions. */
    constructor (rows: int, columns: int, channels: int)
      requires 0 < rows <= MAX_INT && 0 < columns <= MAX_INT && 0 < channels <= MAX_INT
      ensures Valid() && fresh(pixels)
      ensures this.rows == rows && this.columns == columns && this.channels == channels
      ensures isColor <==> channels == 3
      ensures forall i, j, k :: InGrid(i, j, k) ==> pixels[i, j, k] == 0
      ensures observers == [] && notifications == []
    {
      this.rows := rows;
      this.columns := columns;
      this.channels := channels;
      isColor := channels == 3;
      pixels := new int[rows, columns, channels]((i, j, k) => 0);
      observers := [];
      notifications := [];
    }

    /** Image(Image): a new image with the dimensions and samples of `image` and no observers. */
    constructor Copy(image: Image)
      requires image.Valid()
      ensures Valid() && fresh(pixels)
      ensures rows == image.rows && columns == image.columns && channels == image.channels
      ensures Equals(image)
      ensures observers == [] && notifications == []
    {
      rows := image.rows;
      columns := image.columns;
      channels := image.channels;
      isColor := image.isColor;
      pixels := new int[image.rows, image.columns, image.channels]((i, j, k) => 0);
      observers := [];
      notifications := [];
      new;
      for i := 0 to rows
        modifies pixels
        invariant forall a, b, c :: InGrid(a, b, c) ==>
          pixels[a, b, c] == if a < i then image.pixels[a, b, c] else 0
      {
        for j := 0 to columns
          modifies pixels
          invariant forall a, b, c :: InGrid(a, b, c) ==>
            pixels[a, b, c] == if Before(a, b, 0, i, j, 0) then image.pixels[a, b, c] else 0
        {
          for k := 0 to channels
            modifies pixels
            invariant forall a, b, c :: InGrid(a, b, c) ==>
              pixels[a, b, c] == if Before(a, b, c, i, j, k) then image.pixels[a, b, c] else 0
          {
            pixels[i, j, k] := image.pixels[i, j, k];
          }
        }
      }
    }

    /** The two-index bounds test; it admits the one-past-the-end row and column. */
    predicate IsInBounds(row: int, column: int)
      ensures 0 <= row < rows && 0 <= column < columns ==> IsInBounds(row, column)
      ensures IsInBounds(row, column) && !(0 <= row < rows && 0 <= column < columns) ==>
        row == rows || column == columns
    {
      (row >= 0 && row <= rows) && (column >= 0 && column <= columns)
    }

    /** The three-index bounds test: the two-index test and a channel in [0, channels). */
    predicate IsInBounds3(row: int, column: int, channel: int)
      ensures InGrid(row, column, channel) ==> IsInBounds3(row, column, channel)
      ensures IsInBounds3(row, column, channel) && !InGrid(row, column, channel) ==>
        row == rows || column == columns
    {
      IsInBounds(row, column) && (channel >= 0 && channel < channels)
    }

    /**
     * getPixel(row, column, channel). An index the bounds test rejects is an
     * ImageOutOfBounds failure; the one-past-the-end row or column passes that
     * test and then fails on the array index.
     */
    function GetPixel(row: int, column: int, channel: int): (r: Result<int>)
      reads pixels
      requires Valid()
      ensures r.Ok? <==> InGrid(row, column, channel)
      ensures r.Ok? ==> r.value == pixels[row, column, channel] && 0 <= r.value <= MAX_RGB
      ensures r.Err? ==> r.error == (if IsInBounds3(row, column, channel) then ArrayIndexOutOfBounds else ImageOutOfBounds)
    {
      if !IsInBounds3(row, column, channel) then Err(ImageOutOfBounds)
      else if row == rows || column == columns then Err(ArrayIndexOutOfBounds)
      else Ok(pixels[row, column, channel])
    }

    /** getPixel(row, column): channel 0 of a non-colour image. */
    function GetGreyPixel(row: int, column: int): (r: Result<int>)
      reads pixels
      requires Valid()
      ensures r.Ok? <==> !isColor && 0 <= row < rows && 0 <= column < columns
      ensures r.Ok? ==> r == GetPixel(row, column, 0)
      ensures !IsInBounds(row, column) ==> r == Err(ImageOutOfBounds)
      ensures IsInBounds(row, column) && isColor ==> r == Err(GreyscaleOnly)
      ensures IsInBounds(row, column) && !isColor && (row == rows || column == columns) ==> r == Err(ArrayIndexOutOfBounds)
    {
      if !IsInBounds(row, column) then Err(ImageOutOfBounds)
      else if isColor then Err(GreyscaleOnly)
      else if row == rows || column == columns then Err(ArrayIndexOutOfBounds)
      else Ok(pixels[row, column, 0])
    }

    /**
     * setPixel(row, column, channel, value): stores the capped value and
     * notifies every observer once; a rejected call changes nothing.
     */
    method SetPixel(row: int, column: int, channel: int, value: int) returns (res: Outcome)
      requires Valid()
      modifies this, pixels
      ensures Valid()
      ensures res.Pass? <==> InGrid(row, column, channel)
      ensures res.Fail? ==> res.error == (if IsInBounds3(row, column, channel) then ArrayIndexOutOfBounds else ImageOutOfBounds)
      ensures res.Pass? ==> GetPixel(row, column, channel) == Ok(LimitValue(value))
      ensures forall i, j, k :: InGrid(i, j, k) && (i, j, k) != (row, column, channel) ==>
        pixels[i, j, k] == old(pixels[i, j, k])
      ensures observers == old(observers)
      ensures notifications == if res.Pass? then old(notifications) + [observers] else old(notifications)
    {
      if !IsInBounds3(row, column, channel) {
        return Fail(ImageOutOfBounds);
      }
      if row == rows || column == columns {
        return Fail(ArrayIndexOutOfBounds);
      }
      pixels[row, column, channel] := LimitValue(value);
      NotifyObserver();
      res := Pass;
    }

    /** setPixel(row, column, value): channel 0 of a non-colour image. */
    method SetGreyPixel(row: int, column: int, value: int) returns (res: Outcome)
      requires Valid()
      modifies this, pixels
      ensures Valid()
      ensures res.Pass? <==> !isColor && 0 <= row < rows && 0 <= column < columns
      ensures !IsInBounds(row, column) ==> res == Fail(ImageOutOfBounds)
      ensures IsInBounds(row, column) && isColor ==> res == Fail(GreyscaleOnly)
      ensures IsInBounds(row, column) && !isColor && (row == rows || column == columns) ==> res == Fail(ArrayIndexOutOfBounds)
      ensures res.Pass? ==> GetPixel(row, column, 0) == Ok(LimitValue(value))
      ensures forall i, j, k :: InGrid(i, j, k) && (i, j, k) != (row, column, 0) ==>
        pixels[i, j, k] == old(pixels[i, j, k])
      ensures res.Fail? ==> forall i, j, k :: InGrid(i, j, k) ==> pixels[i, j, k] == old(pixels[i, j, k])
      ensures observers == old(observers)
      ensures notifications == if res.Pass? then old(notifications) + [observers] else old(notifications)
    {
      if !IsInBounds(row, column) {
        return Fail(ImageOutOfBounds);
      }
      if isColor {
        return Fail(GreyscaleOnly);
      }
      if row == rows || column == columns {
        return Fail(ArrayIndexOutOfBounds);
      }
      pixels[row, column, 0] := LimitValue(value);
      NotifyObserver();
      res := Pass;
    }

    /** getChannel(channel): the channel's samples in row-major order. */
    method GetChannel(channel: int) returns (res: Result<seq<int>>)
      requires Valid()
      ensures res.Ok? <==> 0 <= channel < channels
      ensures res.Err? ==> res.error.IllegalArgument?
      ensures res.Ok? ==> |res.value| == rows * columns
      ensures res.Ok? ==> forall i, j :: 0 <= i < rows && 0 <= j < columns ==>
        res.value[FlatIndex(i, j, rows, columns)] == pixels[i, j, channel]
    {
      if channel < 0 || channel >= channels {
        return Err(IllegalArgument("Invalid channel index"));
      }
      var channelPixels := new int[rows * columns];
      for n := 0 to rows * columns {
        channelPixels[n] := 0;
      }
      for i := 0 to rows
        invariant forall a, b :: 0 <= a < i && 0 <= b < columns ==>
          channelPixels[FlatIndex(a, b, rows, columns)] == pixels[a, b, channel]
      {
        for j := 0 to columns
          invariant forall a, b :: 0 <= a < rows && 0 <= b < columns && Before(a, b, 0, i, j, 0) ==>
            channelPixels[FlatIndex(a, b, rows, columns)] == pixels[a, b, channel]
        {
          channelPixels[FlatIndex(i, j, rows, columns)] := pixels[i, j, channel];
        }
      }
      res := Ok(channelPixels[..]);
    }

    /**
     * setChannel(channelData, channel): writes the capped row-major data into
     * one channel and notifies the observers once.
     */
    method SetChannel(channelData: seq<int>, channel: int) returns (res: Outcome)
      requires Valid()
      modifies this, pixels
      ensures Valid()
      ensures res.Pass? <==> 0 <= channel < channels && |channelData| == rows * columns
      ensures res.Fail? ==> res.error.IllegalArgument?
      ensures res.Pass? ==> forall i, j :: 0 <= i < rows && 0 <= j < columns ==>
        pixels[i, j, channel] == LimitValue(channelData[FlatIndex(i, j, rows, columns)])
      ensures forall i, j, k :: InGrid(i, j, k) && (res.Fail? || k != channel) ==>
        pixels[i, j, k] == old(pixels[i, j, k])
      ensures observers == old(observers)
      ensures notifications == if res.Pass? then old(notifications) + [observers] else old(notifications)
    {
      if channel < 0 || channel >= channels {
        return Fail(IllegalArgument("Invalid channel index"));
      }
      if |channelData| != rows * columns {
        return Fail(IllegalArgument("Invalid channel data length"));
      }
      for i := 0 to rows
        modifies pixels
        invariant Valid()
        invariant forall a, b, c :: InGrid(a, b, c) && !(c == channel && a < i) ==>
          pixels[a, b, c] == old(pixels[a, b, c])
        invariant forall a, b :: 0 <= a < i && 0 <= b < columns ==>
          pixels[a, b, channel] == LimitValue(channelData[FlatIndex(a, b, rows, columns)])
      {
        for j := 0 to columns
          modifies pixels
          invariant Valid()
          invariant forall a, b, c :: InGrid(a, b, c) && !(c == channel && Before(a, b, 0, i, j, 0)) ==>
            pixels[a, b, c] == old(pixels[a, b, c])
          invariant forall a, b :: 0 <= a < rows && 0 <= b < columns && Before(a, b, 0, i, j, 0) ==>
            pixels[a, b, channel] == LimitValue(channelData[FlatIndex(a, b, rows, columns)])
        {
          pixels[i, j, channel] := LimitValue(channelData[FlatIndex(i, j, rows, columns)]);
        }
      }
      NotifyObserver();
      res := Pass;
    }

    /** Same dimensions and the same samples (equals). */
    predicate Equals(other: Image)
      reads pixels, other.pixels
      requires Valid() && other.Valid()
      ensures other == this ==> Equals(other)
    {
      && rows == other.rows && columns == other.columns && channels == other.channels
      && forall i, j, k | 0 <= i < rows && 0 <= j < columns && 0 <= k < channels ::
           pixels[i, j, k] == other.pixels[i, j, k]
    }

    /** Equal images cannot be told apart by any read. */
    lemma EqualsIsObservational(other: Image)
      requires Valid() && other.Valid()
      ensures Equals(other) <==>
        (&& rows == other.rows && columns == other.columns && channels == other.channels
         && forall i, j, k :: GetPixel(i, j, k) == other.GetPixel(i, j, k))
    {
      if Equals(other) {
        forall i, j, k ensures GetPixel(i, j, k) == other.GetPixel(i, j, k) {
        }
      }
      if rows == other.rows && columns == other.columns && channels == other.channels
         && forall i, j, k :: GetPixel(i, j, k) == other.GetPixel(i, j, k)
      {
        forall i, j, k | InGrid(i, j, k) ensures pixels[i, j, k] == other.pixels[i, j, k] {
          assert GetPixel(i, j, k) == other.GetPixel(i, j, k);
        }
      }
    }

    /**
     * deepCopy(other): overwrites every sample with the one of `other` and
     * notifies the observers once; mismatched dimensions change nothing.
     */
    method DeepCopy(other: Image) returns (res: Outcome)
      requires Valid() && other.Valid()
      modifies this, pixels
      ensures Valid()
      ensures res.Pass? <==> rows == other.rows && columns == other.columns && channels == other.channels
      ensures res.Fail? ==> res.error == ImageDimensionsNotSame
      ensures res.Pass? ==> forall i, j, k :: InGrid(i, j, k) ==> pixels[i, j, k] == old(other.pixels[i, j, k])
      ensures res.Pass? ==> Equals(other)
      ensures res.Fail? || old(Equals(other)) ==> forall i, j, k :: InGrid(i, j, k) ==> pixels[i, j, k] == old(pixels[i, j, k])
      ensures observers == old(observers)
      ensures notifications == if res.Pass? then old(notifications) + [observers] else old(notifications)
    {
      if other.rows != rows || other.columns != columns || other.channels != channels {
        return Fail(ImageDimensionsNotSame);
      }
      for i := 0 to rows
        modifies pixels
        invariant Valid()
        invariant forall a, b, c :: InGrid(a, b, c) ==>
          pixels[a, b, c] == if a < i then old(other.pixels[a, b, c]) else old(pixels[a, b, c])
        invariant forall a, b, c :: InGrid(a, b, c) && a >= i ==> other.pixels[a, b, c] == old(other.pixels[a, b, c])
      {
        for j := 0 to columns
          modifies pixels
          invariant Valid()
          invariant forall a, b, c :: InGrid(a, b, c) ==>
            pixels[a, b, c] == if Before(a, b, 0, i, j, 0) then old(other.pixels[a, b, c]) else old(pixels[a, b, c])
          invariant forall a, b, c :: InGrid(a, b, c) && !Before(a, b, 0, i, j, 0) ==>
            other.pixels[a, b, c] == old(other.pixels[a, b, c])
        {
          for k := 0 to channels
            modifies pixels
            invariant Valid()
            invariant forall a, b, c :: InGrid(a, b, c) ==>
              pixels[a, b, c] == if Before(a, b, c, i, j, k) then old(other.pixels[a, b, c]) else old(pixels[a, b, c])
            invariant forall a, b, c :: InGrid(a, b, c) && !Before(a, b, c, i, j, k) ==>
              other.pixels[a, b, c] == old(other.pixels[a, b, c])
          {
            pixels[i, j, k] := other.pixels[i, j, k];
          }
        }
      }
      NotifyObserver();
      res := Pass;
    }

    /** addObserver: appends a subscriber (duplicates allowed, as in a List). */
    method AddObserver(observer: nat)
      modifies this
      ensures observers == old(observers) + [observer]
      ensures notifications == old(notifications)
    {
      observers := observers + [observer];
    }

    /** removeObserver: drops the first registration of `observer`, if any. */
    method RemoveObserver(observer: nat)
      modifies this
      ensures observers == RemoveFirst(old(observers), observer)
      ensures notifications == old(notifications)
    {
      observers := RemoveFirst(observers, observer);
    }

    /** notifyObserver: one round that calls every registered observer in order. */
    method NotifyObserver()
      modifies this
      ensures observers == old(observers)
      ensures notifications == old(notifications) + [observers]
    {
      notifications := notifications + [observers];
    }
  }

  /**
   * The extension test of Image(String fileName): a ".pgm" name opens as a
   * grey image, a ".ppm" name as a colour image (the value is isColor), any
   * other extension is refused before the file is touched.
   */
  function OpenMode(fileName: string): (r: Result<bool>)
    ensures r.Ok? <==> GetFileExtension(Some(fileName)) == "pgm" || GetFileExtension(Some(fileName)) == "ppm"
    ensures r.Ok? ==> (r.value <==> GetFileExtension(Some(fileName)) == "ppm")
    ensures r.Err? ==> r.error == ImageIncorrectExtension
  {
    var extension := GetFileExtension(Some(fileName));
    if extension == "pgm" then Ok(false)
    else if extension == "ppm" then Ok(true)
    else Err(ImageIncorrectExtension)
  }

  /** The extension test of save(fileName). */
  function SaveCheck(fileName: string): (r: Outcome)
    ensures r.Pass? <==> GetFileExtension(Some(fileName)) in {"ppm", "pgm"}
    ensures r.Pass? <==> OpenMode(fileName).Ok?
    ensures r.Fail? ==> r.error == ImageIncorrectExtension
  {
    var extension := GetFileExtension(Some(fileName));
    if extension != "ppm" && extension != "pgm" then Fail(ImageIncorrectExtension) else Pass
  }

  /** A name "stem.pgm" opens grey, "stem.ppm" colour, and any other dot-free extension is refused. */
  lemma OpenByExtension(stem: string, extension: string)
    requires '.' !in extension
    ensures OpenMode(stem + "." + extension) ==
      if extension == "pgm" then Ok(false)
      else if extension == "ppm" then Ok(true)
      else Err(ImageIncorrectExtension)
  {
    ExtensionOfJoin(stem, extension);
  }

  /** `n` notification rounds, each calling `observers` in order. */
  function Rounds(observers: seq<nat>, n: nat): (r: seq<seq<nat>>)
    ensures |r| == n && forall m :: 0 <= m < n ==> r[m] == observers
  {
    seq(n, _ => observers)
  }

  lemma RoundsSnoc(observers: seq<nat>, n: nat)
    ensures Rounds(observers, n) + [observers] == Rounds(observers, n + 1)
  {
  }

  /** Index of the first occurrence of x in s, or -1 (List.indexOf). */
  function IndexOf(s: seq<nat>, x: nat): (r: int)
    ensures -1 <= r < |s|
    ensures r == -1 <==> x !in s
    ensures r >= 0 ==> s[r] == x && x !in s[..r]
  {
    if s == [] then -1
    else if s[0] == x then 0
    else
      var r := IndexOf(s[1..], x);
      if r == -1 then -1
      else
        assert s[..r + 1] == [s[0]] + s[1..][..r];
        r + 1
  }

  /** s without its first occurrence of x (List.remove(Object)). */
  function RemoveFirst(s: seq<nat>, x: nat): (r: seq<nat>)
    ensures x !in s ==> r == s
    ensures x in s ==> |r| == |s| - 1 && multiset(r) == multiset(s) - multiset{x}
    ensures x in s ==> exists i :: 0 <= i < |s| && s[i] == x && x !in s[..i] && r == s[..i] + s[i + 1..]
  {
    var i := IndexOf(s, x);
    if i == -1 then s
    else
      assert s == s[..i] + [s[i]] + s[i + 1..];
      s[..i] + s[i + 1..]
  }

  /** Image(rows, columns, channels) including the rejection of non-positive dimensions. */
  method NewImage(rows: int, columns: int, channels: int) returns (res: Result<Image>)
    requires IsInt(rows) && IsInt(columns) && IsInt(channels)
    ensures res.Ok? <==> 0 < rows && 0 < columns && 0 < channels
    ensures res.Err? ==> res.error.IllegalArgument?
    ensures res.Ok? ==> fresh(res.value) && fresh(res.value.pixels) && res.value.Valid()
    ensures res.Ok? ==> res.value.rows == rows && res.value.columns == columns && res.value.channels == channels
    ensures res.Ok? ==> (res.value.isColor <==> channels == 3)
    ensures res.Ok? ==> forall i, j, k :: res.value.InGrid(i, j, k) ==> res.value.pixels[i, j, k] == 0
    ensures res.Ok? ==> res.value.observers == []
  {
    if rows <= 0 || columns <= 0 || channels <= 0 {
      return Err(IllegalArgument("Invalid image dimensions"));
    }
    var image := new Image(rows, columns, channels);
    res := Ok(image);
  }

  /**
   * The round trip of the unit test: every channel of `a` read with
   * GetChannel and written into a same-shaped `b` with SetChannel makes b
   * equal to a.
   */
  method CopyChannels(a: Image, b: Image)
    requires a.Valid() && b.Valid() && a.pixels != b.pixels
    requires a.rows == b.rows && a.columns == b.columns && a.channels == b.channels
    modifies b, b.pixels
    ensures b.Valid() && b.Equals(a)
  {
    for k := 0 to a.channels
      invariant b.Valid()
      invariant forall i, j, c :: a.InGrid(i, j, c) && c < k ==> b.pixels[i, j, c] == a.pixels[i, j, c]
    {
      var data := a.GetChannel(k);
      var done := b.SetChannel(data.value, k);
      assert done.Pass?;
    }
  }
}

/**
  ImageProcess: holds the loaded image and the processed one, removes
  salt-and-pepper noise with a 3x3 median filter over the interior pixels and
  copies the one-pixel border unchanged. Images are indexed [x, y]: Length0 is
  the width, Length1 the height.
 */
module ImageProcessing {
  import opened Wrappers
  import opened OrderStatistics
  import opened Sorting
  import opened Pixels

  /** Pixel (x, y) of a width x height image lies on its first or last row or column. */
  predicate OnBorder(width: int, height: int, x: int, y: int) {
    x == 0 || x == width - 1 || y == 0 || y == height - 1
  }

  /**
    The cleaned image as a value: each interior pixel is the filtered value
    of its neighbourhood in `img`, each border pixel is copied.
   */
  ghost function FilteredImage(img: seq<seq<Pixel>>): (f: seq<seq<Pixel>>)
    requires Rectangular(img)
    ensures |f| == |img| && Rectangular(f) && Height(f) == Height(img)
    ensures forall x, y :: 0 <= x < |img| && 0 <= y < Height(img) ==>
              f[x][y] == if OnBorder(|img|, Height(img), x, y) then img[x][y]
                         else FilteredPixel(Window(img, x, y))
  {
    seq(|img|, x requires 0 <= x < |img| =>
      seq(Height(img), y requires 0 <= y < Height(img) =>
        if OnBorder(|img|, Height(img), x, y) then img[x][y]
        else FilteredPixel(Window(img, x, y))))
  }

  /** `img` holds the pixels of the array `a`, column by column. */
  ghost predicate Holds(img: seq<seq<Pixel>>, a: array2<Pixel>)
    reads a
  {
    && |img| == a.Length0 && Rectangular(img)
    && (a.Length0 > 0 ==> Height(img) == a.Length1)
    && forall x, y :: 0 <= x < a.Length0 && 0 <= y < a.Length1 ==> img[x][y] == a[x, y]
  }

  /** The pixels of an image array as a value, column by column. */
  ghost function Snapshot(a: array2<Pixel>): (img: seq<seq<Pixel>>)
    reads a
    ensures Holds(img, a)
  {
    seq(a.Length0, x requires 0 <= x < a.Length0 reads a =>
      seq(a.Length1, y requires 0 <= y < a.Length1 reads a => a[x, y]))
  }

  /**
    `target` holds the filtered value of every interior pixel of `img`. The
    link to the filter is looked up only through a pixel's window, so code
    that fills in `target` cell by cell need not unfold the filter.
   */
  ghost predicate InteriorTargets(img: seq<seq<Pixel>>, target: seq<seq<Pixel>>)
    requires Rectangular(img)
  {
    && |target| == |img|
    && (forall x :: 0 <= x < |target| ==> |target[x]| == Height(img))
    && forall x, y {:trigger Window(img, x, y)} :: 1 <= x < |img| - 1 && 1 <= y < Height(img) - 1 ==>
         target[x][y] == FilteredPixel(Window(img, x, y))
  }

  /** Proof helper: the filtered image, behind a trigger, as the interior targets of CleanNoise. */
  lemma FilteredImageTargets(img: seq<seq<Pixel>>) returns (target: seq<seq<Pixel>>)
    requires Rectangular(img)
    ensures InteriorTargets(img, target)
  {
    target := FilteredImage(img);
    forall x, y | 1 <= x < |img| - 1 && 1 <= y < Height(img) - 1
      ensures target[x][y] == FilteredPixel(Window(img, x, y))
    {
      assert !OnBorder(|img|, Height(img), x, y);
    }
  }

  /**
    An image that copies the border of `img` and holds the interior targets
    everywhere else is the filtered image.
   */
  lemma FilledTargets(img: seq<seq<Pixel>>, target: seq<seq<Pixel>>, result: seq<seq<Pixel>>)
    requires Rectangular(img) && InteriorTargets(img, target)
    requires Rectangular(result) && |result| == |img| && Height(result) == Height(img)
    requires forall x, y :: 0 <= x < |img| && 0 <= y < Height(img) ==>
               result[x][y] == if OnBorder(|img|, Height(img), x, y) then img[x][y] else target[x][y]
    ensures result == FilteredImage(img)
  {
    var f := FilteredImage(img);
    forall x, y | 0 <= x < |img| && 0 <= y < Height(img)
      ensures result[x][y] == f[x][y]
    {
      if !OnBorder(|img|, Height(img), x, y) {
        assert target[x][y] == FilteredPixel(Window(img, x, y));
      }
    }
    SameImage(result, f);
  }

  /** An image value that holds an array's pixels is that array's snapshot. */
  lemma HoldsSnapshot(img: seq<seq<Pixel>>, a: array2<Pixel>)
    requires Holds(img, a)
    ensures Snapshot(a) == img
  {
    SameImage(Snapshot(a), img);
  }

  /** Two rectangular images of the same size that agree pixel by pixel are equal. */
  lemma SameImage(a: seq<seq<Pixel>>, b: seq<seq<Pixel>>)
    requires Rectangular(a) && Rectangular(b) && |a| == |b| && Height(a) == Height(b)
    requires forall x, y :: 0 <= x < |a| && 0 <= y < Height(a) ==> a[x][y] == b[x][y]
    ensures a == b
  {
    forall x | 0 <= x < |a|
      ensures a[x] == b[x]
    {
      assert |a[x]| == |b[x]| == Height(a);
      forall y | 0 <= y < |a[x]|
        ensures a[x][y] == b[x][y]
      {
      }
    }
  }

  /** An image two pixels wide or high has no interior: cleaning copies it. */
  lemma SmallImageCopied(img: seq<seq<Pixel>>)
    requires Rectangular(img)
    requires |img| <= 2 || Height(img) <= 2
    ensures FilteredImage(img) == img
  {
    var f := FilteredImage(img);
    forall x, y | 0 <= x < |img| && 0 <= y < Height(img)
      ensures f[x][y] == img[x][y]
    {
      assert OnBorder(|img|, Height(img), x, y);
    }
    SameImage(f, img);
  }

  /**
    A single noisy pixel whose eight neighbours all hold the colour p is
    replaced by p's colour (with alpha byte 0).
   */
  lemma IsolatedImpulseRemoved(img: seq<seq<Pixel>>, x: int, y: int, p: Pixel)
    requires Rectangular(img)
    requires 1 <= x < |img| - 1 && 1 <= y < Height(img) - 1
    requires forall i, j :: x - 1 <= i <= x + 1 && y - 1 <= j <= y + 1 && !(i == x && j == y) ==> img[i][j] == p
    ensures FilteredImage(img)[x][y] == ColourBits(p)
  {
    var w := Window(img, x, y);
    assert w[0] == img[x - 1][y - 1] == p;
    assert w[1] == img[x][y - 1] == p;
    assert w[2] == img[x + 1][y - 1] == p;
    assert w[3] == img[x - 1][y] == p;
    assert w[5] == img[x + 1][y] == p;
    assert w[6] == img[x - 1][y + 1] == p;
    assert w[7] == img[x][y + 1] == p;
    assert w[8] == img[x + 1][y + 1] == p;
    ImpulseRejection(w, p);
  }

  /**
    Cleaning an image of one colour p keeps its border and gives every
    interior pixel p's colour with alpha byte 0.
   */
  lemma UniformImage(img: seq<seq<Pixel>>, p: Pixel)
    requires Rectangular(img)
    requires forall i, j :: 0 <= i < |img| && 0 <= j < Height(img) ==> img[i][j] == p
    ensures forall x, y :: 0 <= x < |img| && 0 <= y < Height(img) ==>
              FilteredImage(img)[x][y] == if OnBorder(|img|, Height(img), x, y) then p else ColourBits(p)
  {
    forall x, y | 0 <= x < |img| && 0 <= y < Height(img) && !OnBorder(|img|, Height(img), x, y)
      ensures FilteredImage(img)[x][y] == ColourBits(p)
    {
      IsolatedImpulseRemoved(img, x, y, p);
    }
  }

  /**
    An image of one colour whose alpha byte is already 0 comes back
    unchanged; with any other alpha byte the interior loses it.
   */
  lemma UniformImageUnchanged(img: seq<seq<Pixel>>, p: Pixel)
    requires Rectangular(img)
    requires forall i, j :: 0 <= i < |img| && 0 <= j < Height(img) ==> img[i][j] == p
    requires p < 0x100_0000
    ensures FilteredImage(img) == img
  {
    UniformImage(img, p);
    assert ColourBits(p) == p;
    SameImage(FilteredImage(img), img);
  }

  /** Java's `String.lastIndexOf(char)`: the last index holding c, or -1. */
  function LastIndexOf(s: string, c: char): (i: int)
    ensures -1 <= i < |s|
    ensures 0 <= i ==> s[i] == c
    ensures forall k :: i < k < |s| ==> s[k] != c
  {
    if s == [] then -1
    else if s[|s| - 1] == c then |s| - 1
    else LastIndexOf(s[..|s| - 1], c)
  }

  /** The path has a dot after its first character and does not end in a dot. */
  ghost predicate HasExtension(path: string) {
    && 0 < |path| && path[|path| - 1] != '.'
    && exists d :: 0 < d < |path| && path[d] == '.'
  }

  /**
    The format name handed to the image writer: the text after the last dot
    when that dot is neither the first nor the last character, else "jpg".
    The text is not case-folded.
   */
  function FormatName(path: string): (f: string)
    ensures '.' !in f
    ensures HasExtension(path) ==> |f| < |path| - 1 && path == path[..|path| - |f| - 1] + ['.'] + f
    ensures !HasExtension(path) ==> f == "jpg"
  {
    var dotIndex := LastIndexOf(path, '.');
    if dotIndex > 0 && dotIndex < |path| - 1 then
      assert path == path[..dotIndex] + ['.'] + path[dotIndex + 1..];
      path[dotIndex + 1..]
    else
      "jpg"
  }

  /** What the image decoder made of a file. */
  datatype ReadOutcome =
    | ReadFailed                       // the decoder raised an I/O error
    | NotAnImage                       // the decoder returned null
    | Decoded(image: array2<Pixel>)    // a decoded image

  class ImageProcess {
    var original: array2?<Pixel>
    var processed: array2?<Pixel>

    /** A decoded image has at least one pixel in each direction. */
    ghost predicate Valid()
      reads this
    {
      original != null ==> original.Length0 >= 1 && original.Length1 >= 1
    }

    constructor ()
      ensures Valid()
      ensures original == null && processed == null
    {
      original := null;
      processed := null;
    }

    /**
      Stores the decoder's result as the original image. A decoder error
      keeps the previous image; a file that is not an image clears it.
      The processed image is left as it was.
     */
    method LoadImage(outcome: ReadOutcome) returns (ok: bool)
      requires Valid()
      requires outcome.Decoded? ==> outcome.image.Length0 >= 1 && outcome.image.Length1 >= 1
      modifies this`original
      ensures Valid()
      ensures ok <==> outcome.Decoded?
      ensures outcome.ReadFailed? ==> original == old(original)
      ensures outcome.NotAnImage? ==> original == null
      ensures outcome.Decoded? ==> original == outcome.image
    {
      match outcome
      case ReadFailed =>
        ok := false;
      case NotAnImage =>
        original := null;
        ok := false;
      case Decoded(image) =>
        original := image;
        ok := true;
    }

    function HasImage(): (r: bool)
      reads this
      ensures r <==> original != null
    {
      original != null
    }

    function IsProcessed(): (r: bool)
      reads this
      ensures r <==> processed != null
    {
      processed != null
    }

    /**
      Hands the processed image to the writer under the format name taken
      from the path; `written` is the writer's verdict (false also stands for
      an I/O error). Without a processed image nothing is written.
      Returns the result and the format name the writer was given.
     */
    method SaveImage(outputPath: string, written: bool) returns (ok: bool, format: Option<string>)
      ensures !IsProcessed() ==> !ok && format == None
      ensures IsProcessed() ==> ok == written && format == Some(FormatName(outputPath))
    {
      if processed == null {
        return false, None;
      }
      var formatName := FormatName(outputPath);
      format := Some(formatName);
      ok := written;
    }

    /**
      Median-filters the original image into a fresh processed image of the
      same size; the border is copied. Without an original image nothing
      changes.
     */
    method CleanNoise()
      requires Valid()
      modifies this`processed
      ensures Valid()
      ensures original == null ==> processed == old(processed)
      ensures original != null ==> && fresh(processed)
                                   && processed.Length0 == original.Length0
                                   && processed.Length1 == original.Length1
                                   && Snapshot(processed) == FilteredImage(Snapshot(original))
    {
      if original == null {
        return;
      }
      var width := original.Length0;
      var height := original.Length1;
      ghost var img := Snapshot(original);
      assert Rectangular(img) && |img| == width && Height(img) == height;
      ghost var target := FilteredImageTargets(img);
      var out := new Pixel[width, height];
      processed := out;
      FilterInterior(out, img, target);
      label Filtered:
      CopyBorderPixels();
      ghost var result := Snapshot(processed);
      forall i, j | 0 <= i < width && 0 <= j < height
        ensures result[i][j] == if OnBorder(width, height, i, j) then img[i][j] else target[i][j]
      {
        if OnBorder(width, height, i, j) {
          assert result[i][j] == original[i, j];
        } else {
          assert result[i][j] == old@Filtered(out[i, j]);
        }
      }
      FilledTargets(img, target, result);
      assert Holds(img, original);
      HoldsSnapshot(img, original);
    }

    /**
      The nested row and column loops over the interior pixels, in row order,
      writing each filtered pixel into `out`.
     */
    method FilterInterior(out: array2<Pixel>, ghost img: seq<seq<Pixel>>, ghost target: seq<seq<Pixel>>)
      requires original != null && Holds(img, original) && out != original
      requires out.Length0 == original.Length0 && out.Length1 == original.Length1
      requires InteriorTargets(img, target)
      modifies out
      ensures forall i, j :: 0 <= i < out.Length0 && 0 <= j < out.Length1 ==>
                out[i, j] == if OnBorder(out.Length0, out.Length1, i, j) then old(out[i, j]) else target[i][j]
    {
      var width := original.Length0;
      var height := original.Length1;
      var y := 1;
      while y < height - 1
        invariant 1 <= y && (y <= height - 1 || y == 1)
        invariant forall i, j :: 0 <= i < width && 0 <= j < height ==>
                    out[i, j] == if 1 <= i < width - 1 && 1 <= j < y then target[i][j] else old(out[i, j])
      {
        var x := 1;
        while x < width - 1
          invariant 1 <= x && (x <= width - 1 || x == 1)
          invariant forall i, j :: 0 <= i < width && 0 <= j < height ==>
                      out[i, j] == if 1 <= i < width - 1 && (1 <= j < y || (j == y && i < x)) then target[i][j]
                                   else old(out[i, j])
        {
          var newRGB := FilterPixel(x, y, img, target);
          out[x, y] := newRGB;
          x := x + 1;
        }
        y := y + 1;
      }
    }

    /**
      The body of the filter loop for one interior pixel: takes the median
      of each channel's nine samples with a sorter over the sample array and
      repacks the three medians.
     */
    method FilterPixel(x: int, y: int, ghost img: seq<seq<Pixel>>, ghost target: seq<seq<Pixel>>) returns (newRGB: Pixel)
      requires original != null && Holds(img, original)
      requires 1 <= x < original.Length0 - 1 && 1 <= y < original.Length1 - 1
      requires InteriorTargets(img, target)
      ensures newRGB == target[x][y]
    {
      ghost var w := Window(img, x, y);
      var redValues, greenValues, blueValues := GatherNeighbourhood(x, y, img);
      var redSorter := new SortArray(redValues);
      var greenSorter := new SortArray(greenValues);
      var blueSorter := new SortArray(blueValues);
      var medianRed := redSorter.SortAndGetMedian();
      var medianGreen := greenSorter.SortAndGetMedian();
      var medianBlue := blueSorter.SortAndGetMedian();
      assert medianRed.value == ChannelMedian(w, Red);
      assert medianGreen.value == ChannelMedian(w, Green);
      assert medianBlue.value == ChannelMedian(w, Blue);
      newRGB := Pack(medianRed.value, medianGreen.value, medianBlue.value);
      assert newRGB == FilteredPixel(w);
    }

    /**
      Gathers the channels of the nine neighbours of (x, y), row by row, into
      three fresh arrays.
     */
    method GatherNeighbourhood(x: int, y: int, ghost img: seq<seq<Pixel>>)
      returns (redValues: array<int>, greenValues: array<int>, blueValues: array<int>)
      requires original != null && Holds(img, original)
      requires 1 <= x < original.Length0 - 1 && 1 <= y < original.Length1 - 1
      ensures fresh(redValues) && fresh(greenValues) && fresh(blueValues)
      ensures redValues != greenValues && greenValues != blueValues && blueValues != redValues
      ensures redValues[..] == Samples(Window(img, x, y), Red)
      ensures greenValues[..] == Samples(Window(img, x, y), Green)
      ensures blueValues[..] == Samples(Window(img, x, y), Blue)
    {
      ghost var w := Window(img, x, y);
      redValues := new int[9];
      greenValues := new int[9];
      blueValues := new int[9];
      var index := 0;
      for dy := -1 to 2
        invariant index == 3 * (dy + 1)
        invariant forall k :: 0 <= k < index ==>
                    && redValues[k] == Component(w[k], Red)
                    && greenValues[k] == Component(w[k], Green)
                    && blueValues[k] == Component(w[k], Blue)
      {
        for dx := -1 to 2
          invariant index == 3 * (dy + 1) + (dx + 1)
          invariant forall k :: 0 <= k < index ==>
                      && redValues[k] == Component(w[k], Red)
                      && greenValues[k] == Component(w[k], Green)
                      && blueValues[k] == Component(w[k], Blue)
        {
          var neighborX := x + dx;
          var neighborY := y + dy;
          var rgb := original[neighborX, neighborY];
          WindowOffset(img, x, y, dx, dy);
          assert rgb == img[neighborX][neighborY] == w[index];
          redValues[index] := Component(rgb, Red);
          greenValues[index] := Component(rgb, Green);
          blueValues[index] := Component(rgb, Blue);
          index := index + 1;
        }
      }
      assert redValues[..] == Samples(w, Red);
      assert greenValues[..] == Samples(w, Green);
      assert blueValues[..] == Samples(w, Blue);
    }

    /**
      Copies the first and last row, then the first and last column, of the
      original into the processed image; corners are written twice with the
      same value. Every other pixel keeps its value.
     */
    method CopyBorderPixels()
      requires Valid()
      requires original != null && processed != null && processed != original
      requires processed.Length0 == original.Length0 && processed.Length1 == original.Length1
      modifies processed
      ensures forall x, y :: 0 <= x < original.Length0 && 0 <= y < original.Length1 ==>
                processed[x, y] == if OnBorder(original.Length0, original.Length1, x, y) then original[x, y]
                                   else old(processed[x, y])
    {
      var width := original.Length0;
      var height := original.Length1;
      for x := 0 to width
        invariant forall i, j :: 0 <= i < width && 0 <= j < height ==>
                    processed[i, j] == if (j == 0 || j == height - 1) && i < x then original[i, j]
                                       else old(processed[i, j])
      {
        processed[x, 0] := original[x, 0];
        processed[x, height - 1] := original[x, height - 1];
      }
      for y := 0 to height
        invariant forall i, j :: 0 <= i < width && 0 <= j < height ==>
                    processed[i, j] == if j == 0 || j == height - 1 || ((i == 0 || i == width - 1) && j < y) then original[i, j]
                                       else old(processed[i, j])
      {
        processed[0, y] := original[0, y];
        processed[width - 1, y] := original[width - 1, y];
      }
    }
  }
}

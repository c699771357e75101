# Salt-and-pepper noise removal: a verified model

This project models the core of a small Java tool that removes
salt-and-pepper noise from an image with a 3×3 median filter. The
interior pixels are filtered and the border pixels are copied. It has
two parts:

- `SortArray` is a generic sorter. It keeps a reference to its caller's
  array, sorts that array in place with recursive QuickSort over a Lomuto
  partition (the last element is the pivot, elements compared with `<=`),
  and reads the median at index `length / 2`. `null` stands for "no
  median".
- `ImageProcess` holds an original and a processed image.
  - `cleanNoise` allocates a fresh processed image of the same size.
  - For every interior pixel (1 ≤ x ≤ width−2, 1 ≤ y ≤ height−2),
    `cleanNoise` gathers the 3×3 neighbourhood in row-major order (dy
    outer, dx inner). It splits each packed pixel into its red, green and
    blue bytes and takes each channel's median with three sorters. It
    packs the result as `(r << 16) | (g << 8) | b`.
  - `copyBorderPixels` then copies the first and last row and column
    from the original.
  - `saveImage` takes the output format from the text after the last dot
    of the path, or uses `jpg` by default.

The Dafny files:

| file | module | contents |
|---|---|---|
| `wrappers.dfy` | `Wrappers` | `Option`, for Java's nullable results |
| `order_statistics.dfy` | `OrderStatistics` | sortedness, the median of a sequence as an order statistic, rank counts, and the median lemmas |
| `sort_array.dfy` | `Sorting` | the `SortArray` class over an `array?<int>`, with QuickSort, partition, swap and median |
| `pixels.dfy` | `Pixels` | packed pixels, channel extraction and packing, the 3×3 window, the per-channel median of a window |
| `image_process.dfy` | `ImageProcessing` | the whole-image filter as a function, the `ImageProcess` class over `array2?<Pixel>`, and the output-format rule |

A pixel is the 32-bit pattern that Java's `getRGB` returns, read as an
unsigned number (`Pixel`, 0 ≤ p < 2^32). `(rgb >> s) & 0xFF` is modelled
as `(p / 2^s) % 256`. For the bits this keeps, that equals the Java
expression on the signed value. Packing three bytes is
`r·2^16 + g·2^8 + b`. With every byte ≤ 255, that equals the shifts and
ORs.

`CleanNoise` is proved against `FilteredImage`, a function on the value
(a sequence of columns) of the original image:

- every border pixel keeps the original's value;
- every interior pixel is the packed per-channel median of its window
  (`FilteredPixel`), so its top byte is 0;
- every pixel is computed from the original only.

The lemmas about `FilteredImage` state what a median filter is expected
to do:

- images of width or height ≤ 2 are copied (`SmallImageCopied`);
- an isolated impulse is removed (`IsolatedImpulseRemoved`);
- a uniform image keeps its colour (`UniformImage`,
  `UniformImageUnchanged`).

Two lemmas about `Median` cover ties: a value held by more than half of
the samples is the median (`MajorityMedian`), and five 5s with four 9s
give 5 (`TieMedian`).

## Model

| member | source | states |
|---|---|---|
| Sorting.SortArray.Empty | SortArray.java:55-57 | the default sorter holds no array |
| Sorting.SortArray.constructor | SortArray.java:64-66 | the sorter holds the caller's own reference, not a copy |
| Sorting.SortArray.SetArray | SortArray.java:73-75 | the reference is replaced by the given one |
| Sorting.SortArray.QuickSort | SortArray.java:91-96 | afterwards the array is sorted ascending and is a permutation of its old contents; a null array, or one of length 0 or 1, is left unchanged |
| Sorting.SortArray.QuickSortRange | SortArray.java:105-114 | the inclusive range [low, high] becomes sorted, it is a permutation of its old contents, and every cell outside it is unchanged |
| Sorting.SortArray.Partition | SortArray.java:127-147 | returns p in [low, high] holding the old data[high]; every element in [low, p) is ≤ it and every element in (p, high] is greater; only [low, high] is permuted |
| Sorting.SortArray.Swap | SortArray.java:156-160 | the cells i and j exchange values, every other cell keeps its value, and the multiset is unchanged |
| Sorting.SortArray.GetMedian | SortArray.java:169-177 | None exactly when the array is null or empty; otherwise the element at index length/2, which is the median when the array is sorted |
| Sorting.SortArray.SortAndGetMedian | SortArray.java:184-187 | leaves the caller's array sorted and permuted. Returns None exactly when the array is null or empty; otherwise returns the element at index length/2. That element is the median of the old contents: fewer than length/2+1 elements are below it, and at least length/2+1 are ≤ it |
| Sorting.PermutedBounds | SortArray.java:108-112 | a bound that holds over every element of a range still holds after the range is permuted, which lets the pivot's split survive the recursive calls |
| Sorting.JoinAroundPivot | SortArray.java:108-112 | two sorted sides split by a pivot that bounds them form one sorted range |
| OrderStatistics.InsertionSort | SortArray.java:184-187 | an independent reference sort: its result is sorted and a permutation of the input |
| OrderStatistics.InsertSorted | SortArray.java:184-187 | inserting into a sorted sequence keeps it sorted |
| OrderStatistics.Median | SortArray.java:169-177 | the median of a non-empty sequence (index length/2 of its sorted copy) is one of its elements |
| OrderStatistics.SortedUnique | SortArray.java:91-96 | two sorted permutations of the same multiset are equal, so every correct sort gives the same array |
| OrderStatistics.MedianRank | SortArray.java:169-177 | the median has at most length/2 elements below it and at least length/2+1 elements at or below it |
| OrderStatistics.MedianUnique | SortArray.java:169-177 | the rank condition determines the median: any value satisfying it is the median |
| OrderStatistics.SortedRank | SortArray.java:169-177 | in a sorted sequence, the element at index k has at most k elements below it and at least k+1 at or below it |
| OrderStatistics.PermutedRank | SortArray.java:184-187 | rank counts taken from a sorted permutation hold for the original sequence too |
| OrderStatistics.CountBelowPermutation | SortArray.java:184-187 | the number of elements below a bound depends only on the multiset |
| OrderStatistics.MedianPermutation | SortArray.java:184-187 | the median depends only on the multiset of the input, not on its order |
| OrderStatistics.SortedPermutationMedian | SortArray.java:184-187 | any sorted permutation of the input holds the median at index length/2 |
| OrderStatistics.SortedMedianIndex | SortArray.java:175-176 | in a sorted sequence, the median is the element at index length/2 |
| OrderStatistics.MajorityMedian | ImageProcess.java:232-236 | a value held by more than half of the elements is the median |
| OrderStatistics.ImpulseMedian | ImageProcess.java:232-236 | when all elements but one equal v (at least three elements), the median is v |
| OrderStatistics.MedianBounds | ImageProcess.java:211-213 | the median lies within any bounds that hold of every element, so channel medians stay in [0, 255] |
| OrderStatistics.TieMedian | ImageProcess.java:232-236 | the median of five 5s and four 9s is 5 |
| Pixels.Component | ImageProcess.java:211-213 | each extracted channel is a byte in [0, 255] |
| Pixels.ColourBits | ImageProcess.java:242-243 | the colour bits of a pixel fit in 24 bits: the alpha byte is 0 |
| Pixels.Pack | ImageProcess.java:243 | the packed pixel has a zero top byte, and extracting each channel from it gives back that channel's byte |
| Pixels.PackComponents | ImageProcess.java:209-243 | unpacking and repacking a pixel gives `src & 0x00FFFFFF` |
| Pixels.ChannelMedian | ImageProcess.java:228-236 | a channel's median over a window is in [0, 255] and satisfies the rank condition over that channel's nine samples |
| Pixels.FilteredPixel | ImageProcess.java:188-243 | the new pixel's top byte is 0, and each of its channels is the median of that channel over the window |
| Pixels.ImpulseRejection | ImageProcess.java:188-243 | when the eight neighbours of the centre hold the same pixel p, the new pixel is p's colour bits, whatever the centre holds |
| Pixels.Window | ImageProcess.java:198-221 | the window has nine pixels |
| Pixels.WindowSlot | ImageProcess.java:198-221 | slot k of the window is the pixel at (x + k%3 − 1, y + k/3 − 1) |
| Pixels.WindowOffset | ImageProcess.java:198-221 | the neighbour at offset (dx, dy) goes to slot 3·(dy+1)+(dx+1) |
| ImageProcessing.FilteredImage | ImageProcess.java:164-262 | the result has the original's size; a border pixel is the original pixel; an interior pixel is the filtered pixel of its window in the original |
| ImageProcessing.FilledTargets | ImageProcess.java:246-258 | an image that agrees with the original on the border and with the filtered values inside is the filtered image |
| ImageProcessing.SmallImageCopied | ImageProcess.java:185-258 | an image of width or height ≤ 2 has no interior, so the result is an exact copy |
| ImageProcessing.IsolatedImpulseRemoved | ImageProcess.java:185-247 | an interior pixel whose eight neighbours all hold p becomes p's colour bits |
| ImageProcessing.UniformImage | ImageProcess.java:185-258 | in a uniform image, the border keeps p exactly and the interior becomes p's colour bits |
| ImageProcessing.UniformImageUnchanged | ImageProcess.java:185-258 | a uniform image whose alpha byte is 0 comes back identical |
| ImageProcessing.LastIndexOf | ImageProcess.java:115 | returns −1 or an index of c, and no later index holds c |
| ImageProcessing.FormatName | ImageProcess.java:114-120 | when the last dot is at an index > 0 and before the last character, the format is exactly the text after it; otherwise it is "jpg". The format never contains a dot |
| ImageProcessing.ImageProcess.constructor | ImageProcess.java:38-41 | no original image and no processed image |
| ImageProcessing.ImageProcess.LoadImage | ImageProcess.java:57-85 | returns true exactly when the file decoded to an image, which then becomes the original. A file that is not an image clears the original. A read error leaves the original as it was |
| ImageProcessing.ImageProcess.HasImage | ImageProcess.java:321-323 | true exactly when an original image is loaded |
| ImageProcessing.ImageProcess.IsProcessed | ImageProcess.java:330-332 | true exactly when a processed image exists |
| ImageProcessing.ImageProcess.SaveImage | ImageProcess.java:102-139 | without a processed image, returns false and writes nothing. Otherwise it writes with the format from the path's extension (or "jpg") and returns the writer's verdict |
| ImageProcessing.ImageProcess.CleanNoise | ImageProcess.java:164-262 | without an original image, nothing changes. Otherwise the processed image is a fresh array of the original's size whose contents are the filtered image of the original, and the original is untouched |
| ImageProcessing.ImageProcess.FilterInterior | ImageProcess.java:185-254 | every interior cell receives its filtered value and every border cell is left as it was |
| ImageProcessing.ImageProcess.FilterPixel | ImageProcess.java:188-243 | the value computed with three sorters for (x, y) is the packed per-channel median of its window in the original |
| ImageProcessing.ImageProcess.GatherNeighbourhood | ImageProcess.java:188-222 | three fresh, distinct arrays hold the red, green and blue bytes of the nine neighbours, in window slot order |
| ImageProcessing.ImageProcess.CopyBorderPixels | ImageProcess.java:273-296 | every border cell receives the original's pixel and every interior cell keeps its value; a corner is written twice with the same value |

## Left out

- File I/O is not modelled:
  - `ImageIO.read` becomes the `ReadOutcome` parameter of `LoadImage`: a read error, a file that is not an image, or a decoded image.
  - The verdict of `ImageIO.write` is the `written` parameter of `SaveImage`.
  - `SaveImage` returns the format it would pass to the writer.
- Console output is dropped: the load and save messages, the error messages, and the progress line every 50 rows in `cleanNoise`.
- `getArray`, `getOriginalImage` and `getProcessedImage` are plain getters over the fields, which the model exposes directly.
- `SortArray` is generic over `Comparable` types in the source, but the filter only uses it with `Integer`, so the model fixes the element type to `int`.
- The image type and colour model of `BufferedImage` are not modelled:
  - The processed image is an array of packed pixels that stores exactly what `setRGB` is given.
  - How an image of a particular type stores the alpha byte (for example, ignoring it for `TYPE_INT_RGB`) is outside the model.
- CleanNoise: always succeeds, whereas `new BufferedImage(width, height, originalImage.getType())` at ImageProcess.java:177 throws `IllegalArgumentException` for a decoded image of type `TYPE_CUSTOM` (0), before `processedImage` is assigned; the image type is not part of the model.
- Alpha of interior pixels: the code writes `0x00RRGGBB`, so filtered interior pixels carry alpha 0.
  - A median filter is expected to return a uniform image unchanged. Here that holds for border pixels, and for interior pixels only when the alpha byte is already 0 (`UniformImageUnchanged`).
  - For other pixels it holds for the colour bits (`UniformImage`).
  - The model follows the code.
- `OrderStatistics.Median` and `Pixels.FilteredPixel` are ghost specification functions. The executable path computes the median with `SortArray`, and `FilterPixel` is proved equal to them.
- The body of `cleanNoise` is split into `FilterInterior` (the two loops over the interior), `FilterPixel` (one pixel) and `GatherNeighbourhood` (the dy/dx loops). They do the same steps in the same order.
- The command-line entry point and the GUI are not part of this model.

/**
  Packed pixels and the 3x3 median of one neighbourhood. A pixel is the
  32-bit pattern of a Java `int` in the layout 0xAARRGGBB.
 */
module Pixels {
  import opened OrderStatistics

  /**
    A pixel as the bit pattern of a Java `int`, read as an unsigned number:
    bit 0 is the least significant bit of the blue byte.
   */
  newtype Pixel = x: int | 0 <= x < 0x1_0000_0000

  datatype Channel = Red | Green | Blue

  /** The weight of a channel's lowest bit: 2^16 for red, 2^8 for green, 1 for blue. */
  function Shift(c: Channel): int {
    match c
    case Red => 0x1_0000
    case Green => 0x100
    case Blue => 1
  }

  /**
    Channel unpacking, `(rgb >> 16) & 0xFF`, `(rgb >> 8) & 0xFF` and
    `rgb & 0xFF`: the byte that starts at bit 16, 8 or 0. Java's `>>` is
    arithmetic, but the mask keeps only bits 0-7 of the shifted value, and
    those come from bits 16-23 (8-15, 0-7) of the pixel whatever its sign.
   */
  function Component(p: Pixel, c: Channel): (v: int)
    ensures 0 <= v <= 255
  {
    (p as int / Shift(c)) % 0x100
  }

  /** The colour bits of a pixel, `p & 0x00FFFFFF`: everything but the alpha byte. */
  function ColourBits(p: Pixel): (q: Pixel)
    ensures q < 0x100_0000
  {
    p % 0x100_0000
  }

  /**
    Repacking three channel values as `(r << 16) | (g << 8) | b`. The three
    bytes do not overlap, so the `|` is a sum; the alpha byte is 0.
   */
  function Pack(r: int, g: int, b: int): (p: Pixel)
    requires 0 <= r <= 255 && 0 <= g <= 255 && 0 <= b <= 255
    ensures p < 0x100_0000
    ensures Component(p, Red) == r && Component(p, Green) == g && Component(p, Blue) == b
  {
    var p: Pixel := (r * 0x1_0000 + g * 0x100 + b) as Pixel;
    assert p as int / 0x1_0000 == r;
    assert p as int / 0x100 == r * 0x100 + g;
    p
  }

  /** Division with remainder has a unique result. */
  lemma DivModUnique(n: int, m: int, q: int, x: int)
    requires m > 0 && n == q * m + x && 0 <= x < m
    ensures n / m == q && n % m == x
  {
    var d := n / m - q;
    assert d * m == x - n % m;
    MultipleBound(d, m);
  }

  /** A non-zero multiple of m is at least m away from zero. */
  lemma MultipleBound(d: int, m: int)
    requires m > 0
    ensures d >= 1 ==> d * m >= m
    ensures d <= -1 ==> d * m <= -m
  {
  }

  /** Unpacking and repacking a pixel keeps its colour and clears its alpha byte. */
  lemma PackComponents(p: Pixel)
    ensures Pack(Component(p, Red), Component(p, Green), Component(p, Blue)) == ColourBits(p)
  {
    var n := p as int;
    var b, q1 := n % 0x100, n / 0x100;
    var g, q2 := q1 % 0x100, q1 / 0x100;
    var r, a := q2 % 0x100, q2 / 0x100;
    var colour := r * 0x1_0000 + g * 0x100 + b;
    assert n == q1 * 0x100 + b;
    assert q1 == q2 * 0x100 + g;
    assert q2 == a * 0x100 + r;
    assert n == a * 0x100_0000 + colour;
    DivModUnique(n, 0x1_0000, a * 0x100 + r, g * 0x100 + b);
    DivModUnique(n, 0x100_0000, a, colour);
    assert Component(p, Red) == r;
    assert Component(p, Green) == g;
    assert Component(p, Blue) == b;
    assert ColourBits(p) as int == colour;
  }

  /** The values of one channel over a sequence of pixels, in the same order. */
  function Samples(w: seq<Pixel>, c: Channel): seq<int> {
    seq(|w|, k requires 0 <= k < |w| => Component(w[k], c))
  }

  /** The median of one channel over a non-empty neighbourhood: a byte value. */
  ghost function ChannelMedian(w: seq<Pixel>, c: Channel): (v: int)
    requires |w| > 0
    ensures 0 <= v <= 255
    ensures v == Median(Samples(w, c))
    ensures CountBelow(Samples(w, c), v) <= |w| / 2 < CountAtMost(Samples(w, c), v)
  {
    MedianBounds(Samples(w, c), 0, 255);
    MedianRank(Samples(w, c));
    Median(Samples(w, c))
  }

  /**
    The filtered value of a pixel whose 3x3 neighbourhood is `w`: per channel,
    the median of the nine samples; the alpha byte of the result is 0.
   */
  ghost function FilteredPixel(w: seq<Pixel>): (p: Pixel)
    requires |w| == 9
    ensures p < 0x100_0000
    ensures forall c :: Component(p, c) == ChannelMedian(w, c)
  {
    Pack(ChannelMedian(w, Red), ChannelMedian(w, Green), ChannelMedian(w, Blue))
  }

  /**
    Impulse rejection: when all nine samples but the centre one (index 4) are
    the same pixel, the filter restores that pixel's colour whatever the
    centre holds. A uniform neighbourhood is the special case with no outlier.
   */
  lemma ImpulseRejection(w: seq<Pixel>, p: Pixel)
    requires |w| == 9
    requires forall k :: 0 <= k < 9 && k != 4 ==> w[k] == p
    ensures FilteredPixel(w) == ColourBits(p)
  {
    forall c
      ensures Median(Samples(w, c)) == Component(p, c)
    {
      ImpulseMedian(Samples(w, c), 4, Component(p, c));
    }
    PackComponents(p);
  }

  /** The height of an image held as columns: pixel (x, y) is img[x][y]. */
  function Height(img: seq<seq<Pixel>>): nat {
    if |img| == 0 then 0 else |img[0]|
  }

  /** Every column of the image has the same height. */
  ghost predicate Rectangular(img: seq<seq<Pixel>>) {
    forall x :: 0 <= x < |img| ==> |img[x]| == Height(img)
  }

  /**
    The 3x3 neighbourhood of an interior pixel (x, y), rows first:
    (x-1, y-1), (x, y-1), (x+1, y-1), (x-1, y), ..., (x+1, y+1).
   */
  ghost function Window(img: seq<seq<Pixel>>, x: int, y: int): (w: seq<Pixel>)
    requires Rectangular(img)
    requires 1 <= x < |img| - 1 && 1 <= y < Height(img) - 1
    ensures |w| == 9
  {
    [img[x - 1][y - 1], img[x][y - 1], img[x + 1][y - 1],
     img[x - 1][y],     img[x][y],     img[x + 1][y],
     img[x - 1][y + 1], img[x][y + 1], img[x + 1][y + 1]]
  }

  /** The sample of the neighbour at offset (dx, dy) is in slot 3 * (dy + 1) + (dx + 1). */
  lemma WindowOffset(img: seq<seq<Pixel>>, x: int, y: int, dx: int, dy: int)
    requires Rectangular(img)
    requires 1 <= x < |img| - 1 && 1 <= y < Height(img) - 1
    requires -1 <= dx <= 1 && -1 <= dy <= 1
    ensures Window(img, x, y)[3 * (dy + 1) + (dx + 1)] == img[x + dx][y + dy]
  {
    var k := 3 * (dy + 1) + (dx + 1);
    WindowSlot(img, x, y, k);
    assert k / 3 == dy + 1 && k % 3 == dx + 1;
  }

  /** Sample slot k holds pixel (x + k%3 - 1, y + k/3 - 1). */
  lemma WindowSlot(img: seq<seq<Pixel>>, x: int, y: int, k: int)
    requires Rectangular(img)
    requires 1 <= x < |img| - 1 && 1 <= y < Height(img) - 1
    requires 0 <= k < 9
    ensures Window(img, x, y)[k] == img[x + k % 3 - 1][y + k / 3 - 1]
  {
    if k < 3 {
      assert k / 3 == 0 && k % 3 == k;
    } else if k < 6 {
      assert k / 3 == 1 && k % 3 == k - 3;
    } else {
      assert k / 3 == 2 && k % 3 == k - 6;
    }
  }
}

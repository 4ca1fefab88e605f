/**
 Background-colour estimation and text-colour choice (color_utils.py).

 A crop is a rectangular grid of OpenCV pixels, stored blue-green-red. The
 background estimate is the channel-wise mean of a 5-pixel border band (or of
 the whole crop when it is at most 10 pixels high or wide), truncated to an
 integer and reversed into red-green-blue order. The text colour is black on a
 bright background and white otherwise.
 */
module ColorUtils {

  /** One 8-bit channel of a `uint8` image. */
  type Byte = x: int | 0 <= x < 256

  /** A pixel as OpenCV stores it: blue, green, red. */
  datatype Bgr = Bgr(b: Byte, g: Byte, r: Byte)

  /** A colour as the rest of the program passes it around: red, green, blue. */
  datatype Rgb = Rgb(r: int, g: int, b: int)

  const Black := Rgb(0, 0, 0)
  const White := Rgb(255, 255, 255)

  /** Width of the sampled border band, in pixels. */
  const Border := 5

  /** A crop: rows of pixels, all of one width. */
  type Grid = seq<seq<Bgr>>

  function Cols(img: Grid): nat {
    if |img| == 0 then 0 else |img[0]|
  }

  predicate IsRect(img: Grid) {
    forall y :: 0 <= y < |img| ==> |img[y]| == Cols(img)
  }

  /** Channel selector, so that one summation serves all three channels. */
  datatype Channel = Blue | Green | Red

  function Get(p: Bgr, c: Channel): Byte {
    match c
    case Blue => p.b
    case Green => p.g
    case Red => p.r
  }

  /** The same colour with its channel order reversed (`[::-1]`). */
  function ToRgb(p: Bgr): Rgb {
    Rgb(p.r, p.g, p.b)
  }

  function ChannelSum(s: seq<Bgr>, c: Channel): nat
    decreases |s|
  {
    if |s| == 0 then 0 else Get(s[0], c) + ChannelSum(s[1..], c)
  }

  /** `np.mean` of one channel followed by `astype(int)`; the sum is never
      negative, so truncation toward zero is Dafny's division. */
  function ChannelMean(s: seq<Bgr>, c: Channel): nat
    requires |s| > 0
  {
    ChannelSum(s, c) / |s|
  }

  /** The mean colour of a list of samples, reversed into red-green-blue:
      each output channel is the same-named channel's total divided by the
      number of samples, rounded down. */
  function MeanRgb(s: seq<Bgr>): (m: Rgb)
    requires |s| > 0
    ensures m.r * |s| <= ChannelSum(s, Red) < m.r * |s| + |s|
    ensures m.g * |s| <= ChannelSum(s, Green) < m.g * |s| + |s|
    ensures m.b * |s| <= ChannelSum(s, Blue) < m.b * |s| + |s|
  {
    DivBracket(ChannelSum(s, Red), |s|);
    DivBracket(ChannelSum(s, Green), |s|);
    DivBracket(ChannelSum(s, Blue), |s|);
    Rgb(ChannelMean(s, Red), ChannelMean(s, Green), ChannelMean(s, Blue))
  }

  /** The quotient of a natural division brackets the dividend. */
  lemma DivBracket(t: nat, n: nat)
    requires n > 0
    ensures (t / n) * n <= t < (t / n) * n + n
  {
    assert t == n * (t / n) + t % n && 0 <= t % n < n;
  }

  /** Row-major flattening (`reshape(-1, 3)`). */
  function Flatten(rows: seq<seq<Bgr>>): seq<Bgr>
    decreases |rows|
  {
    if |rows| == 0 then [] else rows[0] + Flatten(rows[1..])
  }

  /** The columns `lo..hi` of every row (`img[:, lo:hi]`). */
  function ColumnBand(img: Grid, lo: nat, hi: nat): (band: Grid)
    requires IsRect(img) && lo <= hi <= Cols(img)
    ensures |band| == |img|
    ensures forall y :: 0 <= y < |img| ==> band[y] == img[y][lo..hi]
  {
    seq(|img|, y requires 0 <= y < |img| => img[y][lo..hi])
  }

  /** True when the crop is too small for a border band: the whole crop is averaged. */
  predicate IsSmall(img: Grid) {
    |img| <= 2 * Border || Cols(img) <= 2 * Border
  }

  /** The border pixels in the order they are concatenated: top rows,
      bottom rows, left columns, right columns. Corners appear twice. */
  function BorderSamples(img: Grid): (s: seq<Bgr>)
    requires IsRect(img) && !IsSmall(img)
    ensures |s| == 10 * Cols(img) + 10 * |img|
  {
    var h, w := |img|, Cols(img);
    FlattenRectLength(img[..Border], w);
    FlattenRectLength(img[h - Border..], w);
    FlattenRectLength(ColumnBand(img, 0, Border), Border);
    FlattenRectLength(ColumnBand(img, w - Border, w), Border);
    Flatten(img[..Border]) + Flatten(img[h - Border..])
      + Flatten(ColumnBand(img, 0, Border)) + Flatten(ColumnBand(img, w - Border, w))
  }

  /** Whether pixel `(y, x)` lies in the 5-pixel border band. */
  predicate InBand(img: Grid, y: int, x: int) {
    y < Border || y >= |img| - Border || x < Border || x >= Cols(img) - Border
  }

  /** `get_dominant_color`: the estimated background colour of a crop. */
  function DominantColor(img: Grid): (c: Rgb)
    requires IsRect(img)
    ensures |img| == 0 || Cols(img) == 0 ==> c == Black
    ensures 0 <= c.r < 256 && 0 <= c.g < 256 && 0 <= c.b < 256
    ensures |img| > 0 && Cols(img) > 0 && IsSmall(img) ==> c == MeanRgb(Flatten(img))
    ensures !IsSmall(img) ==> c == MeanRgb(BorderSamples(img))
  {
    if |img| == 0 || Cols(img) == 0 then Black
    else if IsSmall(img) then
      FlattenLength(img);
      MeanRgbIsColour(Flatten(img));
      MeanRgb(Flatten(img))
    else
      MeanRgbIsColour(BorderSamples(img));
      MeanRgb(BorderSamples(img))
  }

  // ---------------------------------------------------------------------
  // Means

  lemma {:induction false} ChannelSumBounds(s: seq<Bgr>, c: Channel, lo: int, hi: int)
    requires forall i :: 0 <= i < |s| ==> lo <= Get(s[i], c) <= hi
    ensures |s| * lo <= ChannelSum(s, c) <= |s| * hi
    decreases |s|
  {
    if |s| > 0 {
      ChannelSumBounds(s[1..], c, lo, hi);
      assert |s| * lo == lo + (|s| - 1) * lo;
      assert |s| * hi == hi + (|s| - 1) * hi;
    }
  }

  /** The truncated mean of a channel lies between that channel's bounds. */
  lemma ChannelMeanBetween(s: seq<Bgr>, c: Channel, lo: int, hi: int)
    requires |s| > 0
    requires forall i :: 0 <= i < |s| ==> lo <= Get(s[i], c) <= hi
    ensures lo <= ChannelMean(s, c) <= hi
  {
    ChannelSumBounds(s, c, lo, hi);
    DivBetween(ChannelSum(s, c), |s|, lo, hi);
  }

  /** Truncating division keeps a total between `n * lo` and `n * hi`
      between `lo` and `hi`. */
  lemma DivBetween(t: int, n: int, lo: int, hi: int)
    requires n > 0 && n * lo <= t <= n * hi
    ensures lo <= t / n <= hi
  {
    var q := t / n;
    assert q * n <= t < q * n + n by {
      assert t == n * q + t % n && 0 <= t % n < n;
    }
    assert (q + 1) * n == q * n + n;
    assert (hi + 1) * n == hi * n + n;
    MulCancel(lo, q + 1, n);
    MulCancel(q, hi + 1, n);
  }

  lemma MulCancel(a: int, b: int, n: int)
    requires n > 0 && a * n < b * n
    ensures a < b
  {
    if a >= b {
      MulMono(b, a, n);
    }
  }

  lemma MulMono(a: int, b: int, n: int)
    requires a <= b && n >= 0
    ensures a * n <= b * n
  {
    assert b * n - a * n == (b - a) * n;
  }

  lemma MeanRgbIsColour(s: seq<Bgr>)
    requires |s| > 0
    ensures var m := MeanRgb(s); 0 <= m.r < 256 && 0 <= m.g < 256 && 0 <= m.b < 256
  {
    ChannelMeanBetween(s, Red, 0, 255);
    ChannelMeanBetween(s, Green, 0, 255);
    ChannelMeanBetween(s, Blue, 0, 255);
  }

  /** Each output channel lies between the smallest and the largest value of
      the matching input channel over the samples (red output from the red
      samples: the reversal keeps channels with their names). */
  lemma MeanRgbBetween(s: seq<Bgr>, lo: Bgr, hi: Bgr)
    requires |s| > 0
    requires forall i :: 0 <= i < |s| ==>
               lo.b <= s[i].b <= hi.b && lo.g <= s[i].g <= hi.g && lo.r <= s[i].r <= hi.r
    ensures var m := MeanRgb(s);
            lo.r <= m.r <= hi.r && lo.g <= m.g <= hi.g && lo.b <= m.b <= hi.b
  {
    ChannelMeanBetween(s, Red, lo.r, hi.r);
    ChannelMeanBetween(s, Green, lo.g, hi.g);
    ChannelMeanBetween(s, Blue, lo.b, hi.b);
  }

  /** Samples of a single colour average to that colour, channels reversed. */
  lemma MeanRgbUniform(s: seq<Bgr>, p: Bgr)
    requires |s| > 0
    requires forall i :: 0 <= i < |s| ==> s[i] == p
    ensures MeanRgb(s) == ToRgb(p)
  {
    MeanRgbBetween(s, p, p);
  }

  // ---------------------------------------------------------------------
  // Flattening and the border band

  lemma {:induction false} FlattenRectLength(rows: seq<seq<Bgr>>, k: nat)
    requires forall y :: 0 <= y < |rows| ==> |rows[y]| == k
    ensures |Flatten(rows)| == |rows| * k
    decreases |rows|
  {
    if |rows| > 0 {
      FlattenRectLength(rows[1..], k);
      assert |rows| * k == k + (|rows| - 1) * k;
    }
  }

  lemma FlattenLength(img: Grid)
    requires IsRect(img)
    ensures |Flatten(img)| == |img| * Cols(img)
  {
    FlattenRectLength(img, Cols(img));
  }

  /** Every pixel of every row is in the flattening, and nothing else is. */
  lemma {:induction false} FlattenMembers(rows: seq<seq<Bgr>>, p: Bgr)
    ensures p in Flatten(rows) <==>
            exists i, j :: 0 <= i < |rows| && 0 <= j < |rows[i]| && rows[i][j] == p
    decreases |rows|
  {
    if |rows| > 0 {
      FlattenMembers(rows[1..], p);
      if p in Flatten(rows[1..]) {
        var i, j :| 0 <= i < |rows[1..]| && 0 <= j < |rows[1..][i]| && rows[1..][i][j] == p;
        assert rows[i + 1][j] == p;
      }
      if exists i, j :: 0 <= i < |rows| && 0 <= j < |rows[i]| && rows[i][j] == p {
        var i, j :| 0 <= i < |rows| && 0 <= j < |rows[i]| && rows[i][j] == p;
        if i == 0 {
          assert rows[0][j] == p;
        } else {
          assert rows[1..][i - 1][j] == p;
        }
      }
    }
  }

  /** Row `i`, column `j` of rows all `k` wide sits at `i * k + j` of the
      flattening. */
  lemma {:induction false} FlattenAt(rows: seq<seq<Bgr>>, k: nat, i: int, j: int)
    requires forall y :: 0 <= y < |rows| ==> |rows[y]| == k
    requires 0 <= i < |rows| && 0 <= j < k
    ensures i * k + j < |Flatten(rows)| && Flatten(rows)[i * k + j] == rows[i][j]
    decreases i
  {
    FlattenRectLength(rows, k);
    if i > 0 {
      FlattenAt(rows[1..], k, i - 1, j);
      assert i * k + j == k + ((i - 1) * k + j);
    }
  }

  /** The four blocks of samples, with their lengths. */
  lemma BorderBlocks(img: Grid)
    requires IsRect(img) && !IsSmall(img)
    ensures var h, w := |img|, Cols(img);
            && BorderSamples(img) == Flatten(img[..Border]) + Flatten(img[h - Border..])
                 + Flatten(ColumnBand(img, 0, Border)) + Flatten(ColumnBand(img, w - Border, w))
            && |Flatten(img[..Border])| == Border * w
            && |Flatten(img[h - Border..])| == Border * w
            && |Flatten(ColumnBand(img, 0, Border))| == Border * h
            && |Flatten(ColumnBand(img, w - Border, w))| == Border * h
  {
    var h, w := |img|, Cols(img);
    FlattenRectLength(img[..Border], w);
    FlattenRectLength(img[h - Border..], w);
    FlattenRectLength(ColumnBand(img, 0, Border), Border);
    FlattenRectLength(ColumnBand(img, w - Border, w), Border);
  }

  /** The top 5 rows come first, row by row. */
  lemma BorderTopAt(img: Grid, y: int, x: int)
    requires IsRect(img) && !IsSmall(img)
    requires 0 <= y < Border && 0 <= x < Cols(img)
    ensures y * Cols(img) + x < |BorderSamples(img)|
    ensures BorderSamples(img)[y * Cols(img) + x] == img[y][x]
  {
    BorderBlocks(img);
    FlattenAt(img[..Border], Cols(img), y, x);
  }

  /** The bottom 5 rows come next, row by row: row `i` of the bottom band is
      image row `|img| - 5 + i`. */
  lemma BorderBottomAt(img: Grid, i: int, x: int)
    requires IsRect(img) && !IsSmall(img)
    requires 0 <= i < Border && 0 <= x < Cols(img)
    ensures Border * Cols(img) + i * Cols(img) + x < |BorderSamples(img)|
    ensures BorderSamples(img)[Border * Cols(img) + i * Cols(img) + x] == img[|img| - Border + i][x]
  {
    var h, w := |img|, Cols(img);
    BorderBlocks(img);
    FlattenAt(img[h - Border..], w, i, x);
    assert img[h - Border..][i] == img[h - Border + i];
    SecondBlockAt(Flatten(img[..Border]), Flatten(img[h - Border..]),
                  Flatten(ColumnBand(img, 0, Border)), Flatten(ColumnBand(img, w - Border, w)), i * w + x);
  }

  /** Position `m` of the second of four concatenated blocks. */
  lemma SecondBlockAt(a: seq<Bgr>, b: seq<Bgr>, c: seq<Bgr>, d: seq<Bgr>, m: int)
    requires 0 <= m < |b|
    ensures |a| + m < |a + b + c + d| && (a + b + c + d)[|a| + m] == b[m]
  {
  }

  /** Then the left 5 columns, as a 5-pixel piece of each row in turn. */
  lemma BorderLeftAt(img: Grid, y: int, x: int)
    requires IsRect(img) && !IsSmall(img)
    requires 0 <= y < |img| && 0 <= x < Border
    ensures 10 * Cols(img) + y * Border + x < |BorderSamples(img)|
    ensures BorderSamples(img)[10 * Cols(img) + y * Border + x] == img[y][x]
  {
    BorderBlocks(img);
    FlattenAt(ColumnBand(img, 0, Border), Border, y, x);
  }

  /** Last the right 5 columns, likewise. */
  lemma BorderRightAt(img: Grid, y: int, x: int)
    requires IsRect(img) && !IsSmall(img)
    requires 0 <= y < |img| && Cols(img) - Border <= x < Cols(img)
    ensures 10 * Cols(img) + Border * |img| + y * Border + (x - (Cols(img) - Border)) < |BorderSamples(img)|
    ensures BorderSamples(img)[10 * Cols(img) + Border * |img| + y * Border + (x - (Cols(img) - Border))] == img[y][x]
  {
    var w := Cols(img);
    BorderBlocks(img);
    FlattenAt(ColumnBand(img, w - Border, w), Border, y, x - (w - Border));
  }

  /** A pixel of the top or bottom 5 rows has a place among the row samples,
      which fill the first `10 * w` positions. */
  lemma RowSample(img: Grid, y: int, x: int) returns (k: nat)
    requires IsRect(img) && !IsSmall(img)
    requires 0 <= x < Cols(img) && (0 <= y < Border || |img| - Border <= y < |img|)
    ensures k < 10 * Cols(img) && k < |BorderSamples(img)| && BorderSamples(img)[k] == img[y][x]
  {
    var h, w := |img|, Cols(img);
    if y < Border {
      BorderTopAt(img, y, x);
      MulMono(y, Border - 1, w);
      k := y * w + x;
    } else {
      var i := y - (h - Border);
      BorderBottomAt(img, i, x);
      MulMono(i, Border - 1, w);
      k := Border * w + i * w + x;
    }
  }

  /** A pixel of the left or right 5 columns has a place among the column
      samples, which come after the first `10 * w`. */
  lemma ColumnSample(img: Grid, y: int, x: int) returns (k: nat)
    requires IsRect(img) && !IsSmall(img)
    requires 0 <= y < |img| && (0 <= x < Border || Cols(img) - Border <= x < Cols(img))
    ensures 10 * Cols(img) <= k < |BorderSamples(img)| && BorderSamples(img)[k] == img[y][x]
  {
    var h, w := |img|, Cols(img);
    if x < Border {
      BorderLeftAt(img, y, x);
      k := 10 * w + y * Border + x;
    } else {
      BorderRightAt(img, y, x);
      k := 10 * w + Border * h + y * Border + (x - (w - Border));
    }
  }

  /** A corner pixel of the band (within 5 of a top or bottom edge and of a
      left or right edge) is sampled twice: once among the rows, once among
      the columns. */
  lemma CornerSampledTwice(img: Grid, y: int, x: int)
    requires IsRect(img) && !IsSmall(img)
    requires 0 <= y < |img| && 0 <= x < Cols(img)
    requires (y < Border || |img| - Border <= y) && (x < Border || Cols(img) - Border <= x)
    ensures exists k1, k2 :: 0 <= k1 < k2 < |BorderSamples(img)|
              && BorderSamples(img)[k1] == img[y][x] && BorderSamples(img)[k2] == img[y][x]
  {
    var k1 := RowSample(img, y, x);
    var k2 := ColumnSample(img, y, x);
    assert k1 < k2;
  }

  /** Every band pixel is sampled. */
  lemma BandPixelSampled(img: Grid, y: int, x: int)
    requires IsRect(img) && !IsSmall(img)
    requires 0 <= y < |img| && 0 <= x < Cols(img) && InBand(img, y, x)
    ensures img[y][x] in BorderSamples(img)
  {
    var h, w, p := |img|, Cols(img), img[y][x];
    if y < Border {
      assert img[..Border][y][x] == p;
      FlattenMembers(img[..Border], p);
    } else if y >= h - Border {
      assert img[h - Border..][y - (h - Border)][x] == p;
      FlattenMembers(img[h - Border..], p);
    } else if x < Border {
      assert ColumnBand(img, 0, Border)[y][x] == p;
      FlattenMembers(ColumnBand(img, 0, Border), p);
    } else {
      assert ColumnBand(img, w - Border, w)[y][x - (w - Border)] == p;
      FlattenMembers(ColumnBand(img, w - Border, w), p);
    }
  }

  /** Every sample is a band pixel: the interior is never read. */
  lemma SampleIsBandPixel(img: Grid, p: Bgr)
    requires IsRect(img) && !IsSmall(img)
    requires p in BorderSamples(img)
    ensures exists y, x :: 0 <= y < |img| && 0 <= x < Cols(img) && InBand(img, y, x) && img[y][x] == p
  {
    var h, w := |img|, Cols(img);
    var top, bottom := img[..Border], img[h - Border..];
    var left, right := ColumnBand(img, 0, Border), ColumnBand(img, w - Border, w);
    FlattenMembers(top, p);
    FlattenMembers(bottom, p);
    FlattenMembers(left, p);
    FlattenMembers(right, p);
    if p in Flatten(top) {
      var i, j :| 0 <= i < |top| && 0 <= j < |top[i]| && top[i][j] == p;
      assert InBand(img, i, j) && img[i][j] == p;
    } else if p in Flatten(bottom) {
      var i, j :| 0 <= i < |bottom| && 0 <= j < |bottom[i]| && bottom[i][j] == p;
      assert InBand(img, i + (h - Border), j) && img[i + (h - Border)][j] == p;
    } else if p in Flatten(left) {
      var i, j :| 0 <= i < |left| && 0 <= j < |left[i]| && left[i][j] == p;
      assert InBand(img, i, j) && img[i][j] == p;
    } else {
      assert p in Flatten(right);
      var i, j :| 0 <= i < |right| && 0 <= j < |right[i]| && right[i][j] == p;
      assert InBand(img, i, j + (w - Border)) && img[i][j + (w - Border)] == p;
    }
  }

  /** Two crops of one size that agree on the border band get the same
      background estimate: glyph pixels in the interior never matter. */
  lemma InteriorIgnored(img1: Grid, img2: Grid)
    requires IsRect(img1) && IsRect(img2) && !IsSmall(img1)
    requires |img1| == |img2| && Cols(img1) == Cols(img2)
    requires forall y, x :: 0 <= y < |img1| && 0 <= x < Cols(img1) && InBand(img1, y, x) ==>
               img1[y][x] == img2[y][x]
    ensures DominantColor(img1) == DominantColor(img2)
  {
    var h, w := |img1|, Cols(img1);
    forall y | 0 <= y < h && (y < Border || y >= h - Border)
      ensures img1[y] == img2[y]
    {
      assert forall x :: 0 <= x < w ==> InBand(img1, y, x);
    }
    assert img1[..Border] == img2[..Border];
    assert img1[h - Border..] == img2[h - Border..];
    forall y | 0 <= y < h
      ensures img1[y][..Border] == img2[y][..Border]
      ensures img1[y][w - Border..w] == img2[y][w - Border..w]
    {
      assert forall x :: 0 <= x < Border ==> InBand(img1, y, x);
      assert forall x :: w - Border <= x < w ==> InBand(img1, y, x);
    }
    assert ColumnBand(img1, 0, Border) == ColumnBand(img2, 0, Border);
    assert ColumnBand(img1, w - Border, w) == ColumnBand(img2, w - Border, w);
  }

  /** A crop with a band of one colour gets exactly that colour, reversed. */
  lemma UniformBorder(img: Grid, p: Bgr)
    requires IsRect(img) && !IsSmall(img)
    requires forall y, x :: 0 <= y < |img| && 0 <= x < Cols(img) && InBand(img, y, x) ==> img[y][x] == p
    ensures DominantColor(img) == ToRgb(p)
  {
    var s := BorderSamples(img);
    forall i | 0 <= i < |s|
      ensures s[i] == p
    {
      SampleIsBandPixel(img, s[i]);
    }
    MeanRgbUniform(s, p);
  }

  /** `p` lies channel by channel between `lo` and `hi`. */
  predicate InBox(p: Bgr, lo: Bgr, hi: Bgr) {
    lo.b <= p.b <= hi.b && lo.g <= p.g <= hi.g && lo.r <= p.r <= hi.r
  }

  /** A small crop averages every one of its pixels: its colour lies within
      the channel ranges of the whole crop. */
  lemma SmallCropBetween(img: Grid, lo: Bgr, hi: Bgr)
    requires IsRect(img) && IsSmall(img) && |img| > 0 && Cols(img) > 0
    requires forall y, x :: 0 <= y < |img| && 0 <= x < Cols(img) ==> InBox(img[y][x], lo, hi)
    ensures var c := DominantColor(img); lo.r <= c.r <= hi.r && lo.g <= c.g <= hi.g && lo.b <= c.b <= hi.b
  {
    var s := Flatten(img);
    FlattenLength(img);
    forall i | 0 <= i < |s|
      ensures InBox(s[i], lo, hi)
    {
      FlattenMembers(img, s[i]);
    }
    MeanRgbBetween(s, lo, hi);
  }

  /** A large crop averages only its border band: its colour lies within the
      channel ranges of the band, whatever the interior holds. */
  lemma BandCropBetween(img: Grid, lo: Bgr, hi: Bgr)
    requires IsRect(img) && !IsSmall(img)
    requires forall y, x :: 0 <= y < |img| && 0 <= x < Cols(img) && InBand(img, y, x) ==> InBox(img[y][x], lo, hi)
    ensures var c := DominantColor(img); lo.r <= c.r <= hi.r && lo.g <= c.g <= hi.g && lo.b <= c.b <= hi.b
  {
    var s := BorderSamples(img);
    forall i | 0 <= i < |s|
      ensures InBox(s[i], lo, hi)
    {
      SampleIsBandPixel(img, s[i]);
    }
    MeanRgbBetween(s, lo, hi);
  }

  /** A small crop of one colour gets exactly that colour, reversed. */
  lemma UniformSmallCrop(img: Grid, p: Bgr)
    requires IsRect(img) && IsSmall(img) && |img| > 0 && Cols(img) > 0
    requires forall y, x :: 0 <= y < |img| && 0 <= x < Cols(img) ==> img[y][x] == p
    ensures DominantColor(img) == ToRgb(p)
  {
    var s := Flatten(img);
    FlattenLength(img);
    forall i | 0 <= i < |s|
      ensures s[i] == p
    {
      FlattenMembers(img, s[i]);
    }
    MeanRgbUniform(s, p);
  }

  // ---------------------------------------------------------------------
  // Text colour

  /** ITU-R BT.601 luminance. */
  function Luminance(c: Rgb): real {
    0.299 * c.r as real + 0.587 * c.g as real + 0.114 * c.b as real
  }

  /** `get_text_color`: black text on a bright background, white otherwise. */
  function TextColor(bg: Rgb): (t: Rgb)
    ensures t == Black || t == White
    ensures t == Black <==> 299 * bg.r + 587 * bg.g + 114 * bg.b > 128000
  {
    if Luminance(bg) > 128.0 then Black else White
  }

  /** Brightening a background never turns black text into white text. */
  lemma TextColorMonotone(dark: Rgb, bright: Rgb)
    requires dark.r <= bright.r && dark.g <= bright.g && dark.b <= bright.b
    requires TextColor(dark) == Black
    ensures TextColor(bright) == Black
  {
  }

  /** The threshold is strict: luminance exactly 128 gives white text. */
  lemma TextColorBoundary()
    ensures TextColor(Rgb(128, 128, 128)) == White
    ensures TextColor(Rgb(129, 128, 128)) == Black
    ensures TextColor(Rgb(0, 0, 0)) == White
    ensures TextColor(Rgb(255, 255, 255)) == Black
  {
  }

  /** The outline colour: the channel-wise inverse of the text colour. */
  function Invert(c: Rgb): (o: Rgb)
    ensures o.r + c.r == 255 && o.g + c.g == 255 && o.b + c.b == 255
  {
    Rgb(255 - c.r, 255 - c.g, 255 - c.b)
  }

  /** Inverting twice gives back the original colour. */
  lemma InvertInvolution(c: Rgb)
    ensures Invert(Invert(c)) == c
  {
  }

  /** Black text gets a white outline and white text a black one. */
  lemma OutlineContrasts(bg: Rgb)
    ensures Invert(TextColor(bg)) == (if TextColor(bg) == Black then White else Black)
  {
  }
}

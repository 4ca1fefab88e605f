/**
 The erase mask of the pipeline (pipeline.py): an all-zero single-channel
 raster, one `cv2.fillPoly(..., 255)` per detected region, then
 `cv2.dilate` with a 5x5 kernel of ones for 2 iterations.

 The polygon rasterisation is abstract: each region arrives as the set of
 `(x, y)` pixels its fill paints, and pixels outside the raster are clipped.
 Dilation with a 5x5 kernel of ones is a maximum over the 5x5 window around
 each pixel, cut at the raster's edges (pixels outside never contribute).
 */
module Mask {

  /** A `uint8` raster, indexed `[y][x]`. */
  type Raster = seq<seq<int>>

  /** The value `fillPoly` paints: erase this pixel. */
  const Erase := 255

  /** Half the side of the 5x5 structuring element. */
  const Radius := 2

  /** The number of dilation passes. */
  const Iterations := 2

  /** The pixels one region's filled polygon covers, as `(x, y)` pairs. */
  type PixelSet = set<(int, int)>

  predicate IsRaster(m: Raster, h: nat, w: nat) {
    |m| == h && forall y :: 0 <= y < h ==> |m[y]| == w
  }

  predicate IsBytes(m: Raster, h: nat, w: nat)
    requires IsRaster(m, h, w)
  {
    forall y, x :: 0 <= y < h && 0 <= x < w ==> 0 <= m[y][x] < 256
  }

  /** Every pixel is either kept (0) or erased (255). */
  predicate IsBinary(m: Raster, h: nat, w: nat)
    requires IsRaster(m, h, w)
  {
    forall y, x :: 0 <= y < h && 0 <= x < w ==> m[y][x] == 0 || m[y][x] == Erase
  }

  /** The all-zero `h` x `w` raster the mask starts from. */
  function Zeros(h: nat, w: nat): (m: Raster)
    ensures IsRaster(m, h, w)
    ensures forall y, x :: 0 <= y < h && 0 <= x < w ==> m[y][x] == 0
  {
    seq(h, y => seq(w, x => 0))
  }

  /** Filling one region: paints the region's pixels, leaves every
      other pixel as it was. */
  function Fill(m: Raster, h: nat, w: nat, pixels: PixelSet): (r: Raster)
    requires IsRaster(m, h, w)
    ensures IsRaster(r, h, w)
    ensures forall y, x :: 0 <= y < h && 0 <= x < w ==>
              r[y][x] == (if (x, y) in pixels then Erase else m[y][x])
  {
    seq(h, y requires 0 <= y < h =>
      seq(w, x requires 0 <= x < w => if (x, y) in pixels then Erase else m[y][x]))
  }

  /** Whether some region covers pixel `(x, y)`. */
  ghost predicate Covered(regions: seq<PixelSet>, x: int, y: int) {
    exists i :: 0 <= i < |regions| && (x, y) in regions[i]
  }

  /** The undilated mask: zeros, then each region filled in detection order.
      It is binary and erases exactly the union of the regions. */
  function BuildMask(h: nat, w: nat, regions: seq<PixelSet>): (m: Raster)
    ensures IsRaster(m, h, w) && IsBinary(m, h, w)
    ensures forall y, x :: 0 <= y < h && 0 <= x < w ==>
              (m[y][x] == Erase <==> Covered(regions, x, y))
    decreases |regions|
  {
    if |regions| == 0 then Zeros(h, w)
    else
      var prefix := regions[..|regions| - 1];
      var m := Fill(BuildMask(h, w, prefix), h, w, regions[|regions| - 1]);
      assert forall y, x :: 0 <= y < h && 0 <= x < w ==>
               (Covered(regions, x, y) <==> Covered(prefix, x, y) || (x, y) in regions[|regions| - 1]) by {
        forall y, x | 0 <= y < h && 0 <= x < w && Covered(regions, x, y)
          ensures Covered(prefix, x, y) || (x, y) in regions[|regions| - 1]
        {
          var i :| 0 <= i < |regions| && (x, y) in regions[i];
          if i < |regions| - 1 {
            assert (x, y) in prefix[i];
          }
        }
        forall y, x | 0 <= y < h && 0 <= x < w && Covered(prefix, x, y)
          ensures Covered(regions, x, y)
        {
          var i :| 0 <= i < |prefix| && (x, y) in prefix[i];
          assert (x, y) in regions[i];
        }
      }
      m
  }

  // ---------------------------------------------------------------------
  // Dilation

  function Abs(a: int): nat {
    if a < 0 then -a else a
  }

  /** Chebyshev distance at most `r` between `(y, x)` and `(yy, xx)`. */
  predicate Within(y: int, x: int, yy: int, xx: int, r: int) {
    Abs(yy - y) <= r && Abs(xx - x) <= r
  }

  /** The maximum of row `yy` over columns `x + dx .. x + Radius` that lie in
      the raster, or 0 when none does. */
  function RowMax(m: Raster, h: nat, w: nat, yy: int, x: int, dx: int): (r: int)
    requires IsRaster(m, h, w) && IsBytes(m, h, w)
    requires -Radius <= dx <= Radius + 1
    ensures 0 <= r < 256
    ensures forall xx :: 0 <= yy < h && 0 <= xx < w && x + dx <= xx <= x + Radius ==> m[yy][xx] <= r
    ensures r == 0 || (0 <= yy < h && exists xx :: 0 <= xx < w && x + dx <= xx <= x + Radius && m[yy][xx] == r)
    decreases Radius + 1 - dx
  {
    if dx > Radius then 0
    else
      var rest := RowMax(m, h, w, yy, x, dx + 1);
      if 0 <= yy < h && 0 <= x + dx < w && m[yy][x + dx] > rest then m[yy][x + dx] else rest
  }

  /** The maximum over rows `y + dy .. y + Radius` of the window around `(y, x)`. */
  function WindowMax(m: Raster, h: nat, w: nat, y: int, x: int, dy: int): (r: int)
    requires IsRaster(m, h, w) && IsBytes(m, h, w)
    requires -Radius <= dy <= Radius + 1
    ensures 0 <= r < 256
    ensures forall yy, xx :: 0 <= yy < h && 0 <= xx < w && y + dy <= yy <= y + Radius && Within(y, x, yy, xx, Radius) ==>
              m[yy][xx] <= r
    ensures r == 0 || exists yy, xx :: 0 <= yy < h && 0 <= xx < w && y + dy <= yy <= y + Radius
                                       && Within(y, x, yy, xx, Radius) && m[yy][xx] == r
    decreases Radius + 1 - dy
  {
    if dy > Radius then 0
    else
      var row := RowMax(m, h, w, y + dy, x, -Radius);
      var rest := WindowMax(m, h, w, y, x, dy + 1);
      if row > rest then row else rest
  }

  /** One pass of `cv2.dilate` with a 5x5 kernel of ones: every pixel becomes
      the largest value in its window. */
  function DilateOnce(m: Raster, h: nat, w: nat): (r: Raster)
    requires IsRaster(m, h, w) && IsBytes(m, h, w)
    ensures IsRaster(r, h, w) && IsBytes(r, h, w)
    ensures forall y, x :: 0 <= y < h && 0 <= x < w ==>
              r[y][x] == WindowMax(m, h, w, y, x, -Radius)
  {
    seq(h, y requires 0 <= y < h =>
      seq(w, x requires 0 <= x < w => WindowMax(m, h, w, y, x, -Radius)))
  }

  /** `n` passes of the 5x5 dilation. */
  function Dilate(m: Raster, h: nat, w: nat, n: nat): (r: Raster)
    requires IsRaster(m, h, w) && IsBytes(m, h, w)
    ensures IsRaster(r, h, w) && IsBytes(r, h, w)
    decreases n
  {
    if n == 0 then m else Dilate(DilateOnce(m, h, w), h, w, n - 1)
  }

  /** The window holds its own centre, so no number of passes lowers a
      pixel. */
  lemma {:induction false} DilateGrows(m: Raster, h: nat, w: nat, n: nat, y: int, x: int)
    requires IsRaster(m, h, w) && IsBytes(m, h, w)
    requires 0 <= y < h && 0 <= x < w
    ensures m[y][x] <= Dilate(m, h, w, n)[y][x]
    decreases n
  {
    if n > 0 {
      var d := DilateOnce(m, h, w);
      assert Within(y, x, y, x, Radius);
      assert m[y][x] <= d[y][x];
      DilateGrows(d, h, w, n - 1, y, x);
    }
  }

  /** Some erased pixel of `m` lies within Chebyshev distance `r` of `(y, x)`. */
  ghost predicate Near(m: Raster, h: nat, w: nat, y: int, x: int, r: int)
    requires IsRaster(m, h, w)
  {
    exists yy, xx :: 0 <= yy < h && 0 <= xx < w && Within(y, x, yy, xx, r) && m[yy][xx] == Erase
  }

  /** On a binary mask one pass stays binary and erases exactly the pixels
      within distance 2 of an erased pixel. */
  lemma DilateOnceBinary(m: Raster, h: nat, w: nat)
    requires IsRaster(m, h, w) && IsBinary(m, h, w)
    ensures IsBytes(m, h, w)
    ensures var d := DilateOnce(m, h, w);
            IsBinary(d, h, w)
            && forall y, x :: 0 <= y < h && 0 <= x < w ==> (d[y][x] == Erase <==> Near(m, h, w, y, x, Radius))
  {
    var d := DilateOnce(m, h, w);
    forall y, x | 0 <= y < h && 0 <= x < w
      ensures d[y][x] == 0 || d[y][x] == Erase
      ensures d[y][x] == Erase <==> Near(m, h, w, y, x, Radius)
    {
      var v := WindowMax(m, h, w, y, x, -Radius);
      assert d[y][x] == v;
      if v != 0 {
        var yy, xx :| 0 <= yy < h && 0 <= xx < w && y - Radius <= yy <= y + Radius
                      && Within(y, x, yy, xx, Radius) && m[yy][xx] == v;
        assert v == Erase;
      }
      if Near(m, h, w, y, x, Radius) {
        var yy, xx :| 0 <= yy < h && 0 <= xx < w && Within(y, x, yy, xx, Radius) && m[yy][xx] == Erase;
        assert m[yy][xx] <= v;
      }
    }
  }

  /** The midpoint step: a pixel within distance 4 of `(y, x)`, both inside the
      raster, is within 2 of some raster pixel that is within 2 of `(y, x)`. */
  lemma Midpoint(h: nat, w: nat, y: int, x: int, yy: int, xx: int)
    requires 0 <= y < h && 0 <= x < w && 0 <= yy < h && 0 <= xx < w
    requires Within(y, x, yy, xx, 2 * Radius)
    ensures exists my, mx :: 0 <= my < h && 0 <= mx < w && Within(y, x, my, mx, Radius) && Within(my, mx, yy, xx, Radius)
  {
    var my := if yy - y > Radius then y + Radius else if y - yy > Radius then y - Radius else yy;
    var mx := if xx - x > Radius then x + Radius else if x - xx > Radius then x - Radius else xx;
    assert Within(y, x, my, mx, Radius) && Within(my, mx, yy, xx, Radius);
  }

  /** An erased pixel of the once-dilated mask near `(y, x)` witnesses an
      erased pixel of the original within distance 4. */
  lemma NearAfterOnce(m: Raster, h: nat, w: nat, y: int, x: int)
    requires IsRaster(m, h, w) && IsBinary(m, h, w)
    requires 0 <= y < h && 0 <= x < w
    ensures IsBytes(m, h, w)
    ensures Near(DilateOnce(m, h, w), h, w, y, x, Radius) ==> Near(m, h, w, y, x, 2 * Radius)
  {
    DilateOnceBinary(m, h, w);
    var d1 := DilateOnce(m, h, w);
    if Near(d1, h, w, y, x, Radius) {
      var my, mx :| 0 <= my < h && 0 <= mx < w && Within(y, x, my, mx, Radius) && d1[my][mx] == Erase;
      assert Near(m, h, w, my, mx, Radius);
      var yy, xx :| 0 <= yy < h && 0 <= xx < w && Within(my, mx, yy, xx, Radius) && m[yy][xx] == Erase;
      assert Within(y, x, yy, xx, 2 * Radius);
    }
  }

  /** Conversely, an erased pixel within distance 4 makes the once-dilated mask
      erased somewhere within distance 2. */
  lemma NearBeforeOnce(m: Raster, h: nat, w: nat, y: int, x: int)
    requires IsRaster(m, h, w) && IsBinary(m, h, w)
    requires 0 <= y < h && 0 <= x < w
    ensures IsBytes(m, h, w)
    ensures Near(m, h, w, y, x, 2 * Radius) ==> Near(DilateOnce(m, h, w), h, w, y, x, Radius)
  {
    DilateOnceBinary(m, h, w);
    var d1 := DilateOnce(m, h, w);
    if Near(m, h, w, y, x, 2 * Radius) {
      var yy, xx :| 0 <= yy < h && 0 <= xx < w && Within(y, x, yy, xx, 2 * Radius) && m[yy][xx] == Erase;
      Midpoint(h, w, y, x, yy, xx);
      var my, mx :| 0 <= my < h && 0 <= mx < w && Within(y, x, my, mx, Radius) && Within(my, mx, yy, xx, Radius);
      assert Near(m, h, w, my, mx, Radius);
      assert d1[my][mx] == Erase;
    }
  }

  /** Two passes on a binary mask erase exactly the pixels within Chebyshev
      distance 4 of an erased pixel (the raster is a rectangle, so a path of
      two radius-2 steps never has to leave it). */
  lemma DilateTwiceBinary(m: Raster, h: nat, w: nat)
    requires IsRaster(m, h, w) && IsBinary(m, h, w)
    ensures IsBytes(m, h, w)
    ensures var d := Dilate(m, h, w, Iterations);
            IsBinary(d, h, w)
            && forall y, x :: 0 <= y < h && 0 <= x < w ==> (d[y][x] == Erase <==> Near(m, h, w, y, x, 2 * Radius))
  {
    DilateOnceBinary(m, h, w);
    var d1 := DilateOnce(m, h, w);
    DilateOnceBinary(d1, h, w);
    var d2 := DilateOnce(d1, h, w);
    assert Dilate(m, h, w, Iterations) == d2;
    forall y, x | 0 <= y < h && 0 <= x < w
      ensures d2[y][x] == Erase <==> Near(m, h, w, y, x, 2 * Radius)
    {
      NearAfterOnce(m, h, w, y, x);
      NearBeforeOnce(m, h, w, y, x);
    }
  }

  /** The dilated mask: the union of the regions grown by two 5x5 passes. It
      erases every pixel some region covers, and every pixel it erases lies
      within distance 4 of one that a region covers. */
  function EraseMask(h: nat, w: nat, regions: seq<PixelSet>): (m: Raster)
    ensures IsRaster(m, h, w) && IsBinary(m, h, w)
    ensures forall y, x :: 0 <= y < h && 0 <= x < w && Covered(regions, x, y) ==> m[y][x] == Erase
    ensures forall y, x :: 0 <= y < h && 0 <= x < w && m[y][x] == Erase ==>
              exists yy, xx :: 0 <= yy < h && 0 <= xx < w && Within(y, x, yy, xx, 2 * Radius) && Covered(regions, xx, yy)
  {
    var base := BuildMask(h, w, regions);
    DilateTwiceBinary(base, h, w);
    EraseMaskCovers(h, w, regions);
    EraseMaskNear(h, w, regions);
    Dilate(base, h, w, Iterations)
  }

  /** Every covered pixel is erased by the two-pass dilation. */
  lemma EraseMaskCovers(h: nat, w: nat, regions: seq<PixelSet>)
    ensures var m := Dilate(BuildMask(h, w, regions), h, w, Iterations);
            IsRaster(m, h, w)
            && forall y, x :: 0 <= y < h && 0 <= x < w && Covered(regions, x, y) ==> m[y][x] == Erase
  {
    var base := BuildMask(h, w, regions);
    DilateTwiceBinary(base, h, w);
    var m := Dilate(base, h, w, Iterations);
    forall y, x | 0 <= y < h && 0 <= x < w && Covered(regions, x, y)
      ensures m[y][x] == Erase
    {
      assert base[y][x] == Erase;
      assert Within(y, x, y, x, 2 * Radius);
    }
  }

  /** Every pixel the two-pass dilation erases lies within distance 4 of a
      covered one. */
  lemma EraseMaskNear(h: nat, w: nat, regions: seq<PixelSet>)
    ensures var m := Dilate(BuildMask(h, w, regions), h, w, Iterations);
            IsRaster(m, h, w)
            && forall y, x :: 0 <= y < h && 0 <= x < w && m[y][x] == Erase ==>
                 exists yy, xx :: 0 <= yy < h && 0 <= xx < w && Within(y, x, yy, xx, 2 * Radius) && Covered(regions, xx, yy)
  {
    var base := BuildMask(h, w, regions);
    DilateTwiceBinary(base, h, w);
    var m := Dilate(base, h, w, Iterations);
    forall y, x | 0 <= y < h && 0 <= x < w && m[y][x] == Erase
      ensures exists yy, xx :: 0 <= yy < h && 0 <= xx < w && Within(y, x, yy, xx, 2 * Radius) && Covered(regions, xx, yy)
    {
      assert Near(base, h, w, y, x, 2 * Radius);
      var yy, xx :| 0 <= yy < h && 0 <= xx < w && Within(y, x, yy, xx, 2 * Radius) && base[yy][xx] == Erase;
      assert Covered(regions, xx, yy);
    }
  }

  /** The converse of `EraseMask`'s last clause: every pixel within
      Chebyshev distance 4 of a covered pixel is erased, so the mask really
      is the twice-dilated union. */
  lemma EraseMaskReaches(h: nat, w: nat, regions: seq<PixelSet>, y: int, x: int, yy: int, xx: int)
    requires 0 <= y < h && 0 <= x < w && 0 <= yy < h && 0 <= xx < w
    requires Within(y, x, yy, xx, 2 * Radius) && Covered(regions, xx, yy)
    ensures EraseMask(h, w, regions)[y][x] == Erase
  {
    var base := BuildMask(h, w, regions);
    DilateTwiceBinary(base, h, w);
    assert base[yy][xx] == Erase;
    assert Near(base, h, w, y, x, 2 * Radius);
  }

  /** Dilation never shrinks coverage: every pixel erased before two passes is
      still erased after them. */
  lemma DilationGrows(m: Raster, h: nat, w: nat, y: int, x: int)
    requires IsRaster(m, h, w) && IsBinary(m, h, w)
    requires 0 <= y < h && 0 <= x < w && m[y][x] == Erase
    ensures IsBytes(m, h, w)
    ensures Dilate(m, h, w, Iterations)[y][x] == Erase
  {
    DilateTwiceBinary(m, h, w);
    assert Within(y, x, y, x, 2 * Radius);
  }
}

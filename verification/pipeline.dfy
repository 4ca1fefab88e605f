/**
 The deterministic part of `VisualTranslatorPipeline.run` (pipeline.py):
 the padded crop rectangle of each detected box, the text colour taken from
 that crop of the original image, the erase mask, and the per-region
 translate-and-render sequence.

 The crop is taken with numpy slicing, whose stop index counts from the end
 of the axis when it is negative. `CropRect` computes the rectangle as the
 source does; `CropImage` slices with numpy's rules, and `Run` colours each
 box that way. `SafeCropRect` is the corrected rectangle (a stop never below
 its start). `CropsAgree` shows that the two differ only for a box more than
 5 pixels above or left of the image, and `AboveImageCropIsNotEmpty` shows
 what the uncorrected one does there.
 */
module Pipeline {
  import opened Wrappers
  import opened Geometry
  import opened ColorUtils
  import opened Mask
  import opened Detector
  import opened Renderer
  import opened Translator

  /** Padding around a box's bounding rectangle, in pixels. */
  const Pad := 5

  /** A crop rectangle: columns `x0..x1`, rows `y0..y1` (stops exclusive). */
  datatype Rect = Rect(x0: int, y0: int, x1: int, y1: int)

  function Max(a: int, b: int): int { if a >= b then a else b }
  function Min(a: int, b: int): int { if a <= b then a else b }

  function MinX(q: Quad): int { Min4(q.p0.x, q.p1.x, q.p2.x, q.p3.x) }
  function MaxX(q: Quad): int { Max4(q.p0.x, q.p1.x, q.p2.x, q.p3.x) }
  function MinY(q: Quad): int { Min4(q.p0.y, q.p1.y, q.p2.y, q.p3.y) }
  function MaxY(q: Quad): int { Max4(q.p0.y, q.p1.y, q.p2.y, q.p3.y) }

  /** The padded bounding rectangle, clamped as the source clamps it: starts
      at least 0, stops at most the image size. A stop may still be negative. */
  function CropRect(box: Quad, h: nat, w: nat): (r: Rect)
    ensures 0 <= r.x0 && 0 <= r.y0 && r.x1 <= w && r.y1 <= h
    ensures MinX(box) - Pad <= r.x0 && r.x1 <= MaxX(box) + Pad
    ensures MinY(box) - Pad <= r.y0 && r.y1 <= MaxY(box) + Pad
  {
    Rect(Max(0, MinX(box) - Pad), Max(0, MinY(box) - Pad),
         Min(w, MaxX(box) + Pad), Min(h, MaxY(box) + Pad))
  }

  /** The corrected rectangle: each stop raised to at least its start, so
      that a box beyond an edge gives an empty crop. */
  function SafeCropRect(box: Quad, h: nat, w: nat): (r: Rect)
    ensures 0 <= r.x0 <= r.x1 && 0 <= r.y0 <= r.y1
  {
    var c := CropRect(box, h, w);
    Rect(c.x0, c.y0, Max(c.x0, c.x1), Max(c.y0, c.y1))
  }

  /** A slice bound as Python reads it before clamping: a negative bound
      counts from the end of an axis of length `n`. */
  function FromEnd(i: int, n: nat): int {
    if i < 0 then i + n else i
  }

  /** Index `j` lies in Python's range of `start:stop`, before clamping. */
  predicate InSliceRange(j: int, start: int, stop: int, n: nat) {
    FromEnd(start, n) <= j < FromEnd(stop, n)
  }

  /** How Python and numpy read one slice bound on an axis of length `n`:
      a negative bound counts from the end, and the result is clamped to
      `[0, n]`. */
  function SliceIndex(i: int, n: nat): (k: nat)
    ensures k <= n
    ensures 0 <= FromEnd(i, n) <= n ==> k == FromEnd(i, n)
    ensures FromEnd(i, n) < 0 ==> k == 0
    ensures n < FromEnd(i, n) ==> k == n
  {
    if i < 0 then Max(0, i + n) else Min(i, n)
  }

  /** The bounds `s[start:stop]` reads, as `lo..hi`. */
  function SliceBounds(start: int, stop: int, n: nat): (b: (nat, nat))
    ensures b.0 <= b.1 <= n
  {
    var lo, hi := SliceIndex(start, n), SliceIndex(stop, n);
    if hi <= lo then (lo, lo) else (lo, hi)
  }

  /** `s[start:stop]` with Python's rules: exactly the items whose index is
      in `InSliceRange`, in order. */
  function AxisSlice<T>(s: seq<T>, start: int, stop: int): (r: seq<T>)
    ensures var b := SliceBounds(start, stop, |s|); r == s[b.0..b.1]
    ensures SliceIndex(start, |s|) + |r| <= |s|
    ensures forall k :: 0 <= k < |r| ==> r[k] == s[SliceIndex(start, |s|) + k]
    ensures forall j :: 0 <= j < |s| ==>
              (InSliceRange(j, start, stop, |s|) <==>
               SliceIndex(start, |s|) <= j < SliceIndex(start, |s|) + |r|)
  {
    var b := SliceBounds(start, stop, |s|);
    s[b.0..b.1]
  }

  /** `img[y0:y1, x0:x1]` on a rectangular image. */
  function CropImage(img: Grid, r: Rect): (c: Grid)
    requires IsRect(img)
    ensures IsRect(c)
    ensures var rows, cols := SliceBounds(r.y0, r.y1, |img|), SliceBounds(r.x0, r.x1, Cols(img));
            && |c| == rows.1 - rows.0
            && (|c| > 0 ==> Cols(c) == cols.1 - cols.0)
            && forall y, x :: 0 <= y < |c| && 0 <= x < cols.1 - cols.0 ==>
                 c[y][x] == img[rows.0 + y][cols.0 + x]
  {
    var rows := AxisSlice(img, r.y0, r.y1);
    seq(|rows|, y requires 0 <= y < |rows| => AxisSlice(rows[y], r.x0, r.x1))
  }

  /** The crop is empty (no pixel at all). */
  predicate IsEmpty(c: Grid) {
    |c| == 0 || Cols(c) == 0
  }

  /** Text colour for one box as the source computes it (pipeline.py:59-80). */
  function TextColorAsWritten(img: Grid, box: Quad): (t: Rgb)
    requires IsRect(img)
    ensures t == Black || t == White
  {
    TextColor(DominantColor(CropImage(img, CropRect(box, |img|, Cols(img)))))
  }

  /** Text colour for one box with the corrected crop. */
  function TextColorFor(img: Grid, box: Quad): (t: Rgb)
    requires IsRect(img)
    ensures t == Black || t == White
    ensures IsEmpty(CropImage(img, SafeCropRect(box, |img|, Cols(img)))) ==> t == White
  {
    TextColor(DominantColor(CropImage(img, SafeCropRect(box, |img|, Cols(img)))))
  }

  /** The padded rectangle around `box` misses the image entirely. */
  predicate PaddedOutside(box: Quad, h: nat, w: nat) {
    MaxX(box) + Pad <= 0 || MinX(box) - Pad >= w || MaxY(box) + Pad <= 0 || MinY(box) - Pad >= h
  }

  /** With the corrected rectangle, the crop is empty exactly when the padded
      box misses the image. */
  lemma SafeCropEmptyIff(img: Grid, box: Quad)
    requires IsRect(img) && |img| > 0 && Cols(img) > 0
    ensures IsEmpty(CropImage(img, SafeCropRect(box, |img|, Cols(img)))) <==> PaddedOutside(box, |img|, Cols(img))
  {
  }

  /** The source's stop index on some axis is negative but above minus the
      axis length, so numpy counts it from the far end instead of reading it
      as an empty range. */
  predicate StopFromEnd(box: Quad, h: nat, w: nat) {
    -(w as int) < MaxX(box) + Pad < 0 || -(h as int) < MaxY(box) + Pad < 0
  }

  /** Raising a non-negative start's stop to the start changes nothing unless
      the stop is a negative index counted from the end. */
  lemma SliceBoundsRaised(start: int, stop: int, n: nat)
    requires 0 <= start
    requires stop >= 0 || stop <= -(n as int)
    ensures SliceBounds(start, stop, n) == SliceBounds(start, Max(start, stop), n)
  {
  }

  /** The source's crop and the corrected one are the same crop, except for a
      stop numpy counts from the end. */
  lemma CropsAgree(img: Grid, box: Quad)
    requires IsRect(img)
    requires !StopFromEnd(box, |img|, Cols(img))
    ensures CropImage(img, CropRect(box, |img|, Cols(img))) == CropImage(img, SafeCropRect(box, |img|, Cols(img)))
    ensures TextColorAsWritten(img, box) == TextColorFor(img, box)
  {
    var c, r := CropRect(box, |img|, Cols(img)), SafeCropRect(box, |img|, Cols(img));
    SliceBoundsRaised(c.y0, c.y1, |img|);
    var rows := AxisSlice(img, c.y0, c.y1);
    assert rows == AxisSlice(img, r.y0, r.y1);
    forall y | 0 <= y < |rows|
      ensures AxisSlice(rows[y], c.x0, c.x1) == AxisSlice(rows[y], r.x0, r.x1)
    {
      assert |rows[y]| == Cols(img);
      SliceBoundsRaised(c.x0, c.x1, Cols(img));
    }
  }

  /** A box whose padded rectangle misses the image falls back to background
      (0, 0, 0) and so to white text with the corrected rectangle; as written,
      too, unless a stop is counted from the end. */
  lemma OutsideBoxGetsWhiteText(img: Grid, box: Quad)
    requires IsRect(img) && |img| > 0 && Cols(img) > 0
    requires PaddedOutside(box, |img|, Cols(img))
    ensures DominantColor(CropImage(img, SafeCropRect(box, |img|, Cols(img)))) == Black
    ensures TextColorFor(img, box) == White
    ensures !StopFromEnd(box, |img|, Cols(img)) ==> TextColorAsWritten(img, box) == White
  {
    SafeCropEmptyIff(img, box);
    if !StopFromEnd(box, |img|, Cols(img)) {
      CropsAgree(img, box);
    }
  }

  /** As written, a box more than 5 pixels beyond the right or bottom edge
      does give an empty crop, and so white text. */
  lemma BeyondFarEdgeGetsWhiteText(img: Grid, box: Quad)
    requires IsRect(img) && |img| > 0 && Cols(img) > 0
    requires MinX(box) - Pad >= Cols(img) || MinY(box) - Pad >= |img|
    ensures IsEmpty(CropImage(img, CropRect(box, |img|, Cols(img))))
    ensures TextColorAsWritten(img, box) == White
  {
  }

  /** A box inside the image: its padded rectangle holds the box's whole
      bounding rectangle, grown by at most 5 pixels on each side, and the
      stops are never below the starts, so the source's rectangle and the
      corrected one agree. */
  lemma InsideBoxRect(box: Quad, h: nat, w: nat)
    requires 0 <= MinX(box) && MaxX(box) < w && 0 <= MinY(box) && MaxY(box) < h
    ensures var r := CropRect(box, h, w);
            && r == SafeCropRect(box, h, w)
            && r.x0 <= MinX(box) && MaxX(box) < r.x1 && r.y0 <= MinY(box) && MaxY(box) < r.y1
            && MinX(box) - Pad <= r.x0 && r.x1 <= MaxX(box) + Pad
            && MinY(box) - Pad <= r.y0 && r.y1 <= MaxY(box) + Pad
  {
    var r := CropRect(box, h, w);
    assert r.x0 <= MinX(box) <= MaxX(box) < r.x1;
    assert r.y0 <= MinY(box) <= MaxY(box) < r.y1;
  }

  /** Cropping to a rectangle inside the image keeps exactly its pixels. */
  lemma CropInside(img: Grid, r: Rect)
    requires IsRect(img)
    requires 0 <= r.x0 < r.x1 <= Cols(img) && 0 <= r.y0 < r.y1 <= |img|
    ensures var c := CropImage(img, r);
            && |c| == r.y1 - r.y0 && Cols(c) == r.x1 - r.x0
            && forall y, x :: r.y0 <= y < r.y1 && r.x0 <= x < r.x1 ==> c[y - r.y0][x - r.x0] == img[y][x]
  {
    var c := CropImage(img, r);
    assert SliceBounds(r.y0, r.y1, |img|) == (r.y0, r.y1);
    assert SliceBounds(r.x0, r.x1, Cols(img)) == (r.x0, r.x1);
    forall y, x | r.y0 <= y < r.y1 && r.x0 <= x < r.x1
      ensures c[y - r.y0][x - r.x0] == img[y][x]
    {
      assert c[y - r.y0][x - r.x0] == img[r.y0 + (y - r.y0)][r.x0 + (x - r.x0)];
    }
  }

  /** Crop `c` holds the pixels of the image rectangle `[lx, hx] x [ly, hy]`
      at their offset from the crop's corner `(ox, oy)`. */
  ghost predicate HoldsPixels(c: Grid, img: Grid, ox: int, oy: int, lx: int, ly: int, hx: int, hy: int) {
    forall y, x :: ly <= y <= hy && lx <= x <= hx ==>
      0 <= y < |img| && 0 <= x < |img[y]| &&
      0 <= y - oy < |c| && 0 <= x - ox < |c[y - oy]| && c[y - oy][x - ox] == img[y][x]
  }

  /** Cropping to a rectangle keeps the pixels of any rectangle inside it. */
  lemma CropKeepsInner(img: Grid, r: Rect, lx: int, ly: int, hx: int, hy: int)
    requires IsRect(img)
    requires 0 <= r.x0 <= lx && hx < r.x1 <= Cols(img) && 0 <= r.y0 <= ly && hy < r.y1 <= |img|
    ensures HoldsPixels(CropImage(img, r), img, r.x0, r.y0, lx, ly, hx, hy)
  {
    if lx <= hx && ly <= hy {
      CropInside(img, r);
    }
  }

  /** A box inside the image is coloured from a crop holding every pixel of
      its bounding rectangle, at the offset of the padded rectangle. */
  lemma InsideBoxCrop(img: Grid, box: Quad)
    requires IsRect(img)
    requires 0 <= MinX(box) && MaxX(box) < Cols(img) && 0 <= MinY(box) && MaxY(box) < |img|
    ensures var r := CropRect(box, |img|, Cols(img));
            HoldsPixels(CropImage(img, r), img, r.x0, r.y0, MinX(box), MinY(box), MaxX(box), MaxY(box))
  {
    InsideBoxRect(box, |img|, Cols(img));
    CropKeepsInner(img, CropRect(box, |img|, Cols(img)), MinX(box), MinY(box), MaxX(box), MaxY(box));
  }

  /** As written: a box lying above the image, more than 5 pixels up, gives a
      negative row stop, which numpy reads from the bottom. The crop is then
      the image's top rows, not empty. */
  lemma AboveImageCropIsNotEmpty(img: Grid, box: Quad)
    requires IsRect(img) && |img| > 0 && Cols(img) > 0
    requires -|img| < MaxY(box) + Pad < 0
    requires MinX(box) - Pad < Cols(img) && 0 < MaxX(box) + Pad
    ensures PaddedOutside(box, |img|, Cols(img))
    ensures var c := CropImage(img, CropRect(box, |img|, Cols(img)));
            |c| == |img| + MaxY(box) + Pad && !IsEmpty(c)
  {
  }

  const WhitePx := Bgr(255, 255, 255)

  /** The 20x20 all-white image of the counterexample. */
  function WhiteImage(): (img: Grid)
    ensures IsRect(img) && |img| == 20 && Cols(img) == 20
    ensures forall y, x :: 0 <= y < 20 && 0 <= x < 20 ==> img[y][x] == WhitePx
  {
    seq(20, y => seq(20, x => WhitePx))
  }

  /** Counterexample: on an all-white 20x20 image, a 10x10 box at rows
      -30..-20 is coloured from the image's top five rows, giving black text,
      where the empty crop the code expects gives white text. */
  lemma AboveImageColourCounterexample()
    ensures TextColorAsWritten(WhiteImage(), AxisBox(0, -30, 10, 10)) == Black
    ensures TextColorFor(WhiteImage(), AxisBox(0, -30, 10, 10)) == White
  {
    var img, box := WhiteImage(), AxisBox(0, -30, 10, 10);
    var c := CropImage(img, CropRect(box, 20, 20));
    assert CropRect(box, 20, 20) == Rect(0, 0, 15, -15);
    assert |c| == 5 && Cols(c) == 15;
    UniformSmallCrop(c, WhitePx);
    assert TextColor(ToRgb(WhitePx)) == Black;
    OutsideBoxGetsWhiteText(img, box);
  }

  // ---------------------------------------------------------------------
  // The run

  /** One region ready to render: its box, original text, translation and
      text colour. */
  datatype Job = Job(box: Quad, source: string, translated: string, textColor: Rgb)

  datatype RunOutput = RunOutput(mask: Raster, jobs: seq<Job>)

  /** `cv2.imread` returned `None`. */
  datatype RunError = ImageUnreadable

  /** The region each detection's box fills, in detection order. */
  function Regions(detections: seq<Detection>, fill: Quad -> PixelSet): (rs: seq<PixelSet>)
    ensures |rs| == |detections|
    ensures forall i :: 0 <= i < |detections| ==> rs[i] == fill(detections[i].box)
  {
    seq(|detections|, i requires 0 <= i < |detections| => fill(detections[i].box))
  }

  /** Every in-image pixel any detection's box fills is erased in `mask`. */
  ghost predicate ErasesFilled(mask: Raster, h: nat, w: nat, detections: seq<Detection>, fill: Quad -> PixelSet) {
    forall i, y, x :: 0 <= i < |detections| && 0 <= y < h && 0 <= x < w && (x, y) in fill(detections[i].box) ==>
      y < |mask| && x < |mask[y]| && mask[y][x] == Erase
  }

  /** The erase mask of the detections' regions erases every filled pixel. */
  lemma EraseMaskErasesFilled(h: nat, w: nat, detections: seq<Detection>, fill: Quad -> PixelSet)
    ensures ErasesFilled(EraseMask(h, w, Regions(detections, fill)), h, w, detections, fill)
  {
    var regions := Regions(detections, fill);
    forall i, y, x | 0 <= i < |detections| && 0 <= y < h && 0 <= x < w && (x, y) in fill(detections[i].box)
      ensures Covered(regions, x, y)
    {
      assert (x, y) in regions[i];
    }
  }

  /** One job per detection, in order. `primary(i)` and `fallback(i)` are the
      language models' replies to region `i`'s own call. */
  function Jobs(detections: seq<Detection>, img: Grid, hasModel: bool, primary: nat -> Reply, fallback: nat -> Reply): (js: seq<Job>)
    requires IsRect(img)
    ensures |js| == |detections|
    ensures forall i :: 0 <= i < |detections| ==>
              && js[i].box == detections[i].box
              && js[i].source == detections[i].text
              && js[i].translated == Translate(detections[i].text, hasModel, primary(i), fallback(i)).text
              && js[i].textColor == TextColorAsWritten(img, detections[i].box)
  {
    seq(|detections|, i requires 0 <= i < |detections| =>
      Job(detections[i].box, detections[i].text,
          Translate(detections[i].text, hasModel, primary(i), fallback(i)).text,
          TextColorAsWritten(img, detections[i].box)))
  }

  /** Every job whose box has no stop counted from the end carries the
      corrected colour, and a job whose padded box misses the image that way
      gets white text. */
  lemma JobsColourAwayFromTopLeft(detections: seq<Detection>, img: Grid, hasModel: bool, primary: nat -> Reply, fallback: nat -> Reply, i: nat)
    requires IsRect(img) && i < |detections|
    requires !StopFromEnd(detections[i].box, |img|, Cols(img))
    ensures Jobs(detections, img, hasModel, primary, fallback)[i].textColor == TextColorFor(img, detections[i].box)
    ensures |img| > 0 && Cols(img) > 0 && PaddedOutside(detections[i].box, |img|, Cols(img)) ==>
              Jobs(detections, img, hasModel, primary, fallback)[i].textColor == White
  {
    CropsAgree(img, detections[i].box);
    if |img| > 0 && Cols(img) > 0 && PaddedOutside(detections[i].box, |img|, Cols(img)) {
      OutsideBoxGetsWhiteText(img, detections[i].box);
    }
  }

  /** `run` up to rendering. `fill` is the pixel set `cv2.fillPoly` paints for
      a box; `primary(i)`/`fallback(i)` are the language models' replies to
      region `i`. Colours come from the original image only: the restored
      image is not an input. */
  function Run(detections: seq<Detection>, original: Option<Grid>, fill: Quad -> PixelSet,
               hasModel: bool, primary: nat -> Reply, fallback: nat -> Reply): (r: Result<RunOutput, RunError>)
    requires original.Some? ==> IsRect(original.value)
    ensures original.None? <==> r.Failure?
    ensures r.Success? ==>
      && IsRaster(r.value.mask, |original.value|, Cols(original.value))
      && IsBinary(r.value.mask, |original.value|, Cols(original.value))
      && ErasesFilled(r.value.mask, |original.value|, Cols(original.value), detections, fill)
      && r.value.mask == EraseMask(|original.value|, Cols(original.value), Regions(detections, fill))
      && r.value.jobs == Jobs(detections, original.value, hasModel, primary, fallback)
  {
    if original.None? then Failure(ImageUnreadable)
    else
      var img := original.value;
      EraseMaskErasesFilled(|img|, Cols(img), detections, fill);
      Success(RunOutput(EraseMask(|img|, Cols(img), Regions(detections, fill)),
                        Jobs(detections, img, hasModel, primary, fallback)))
  }

  /** Rendering every job in detection order, one plan per job. `measure`
      gives the text extent of a string at a font size; `rotate` the size of
      the layer after rotating it by the box's angle. */
  method RenderAll(jobs: seq<Job>, measure: string -> nat -> Extent, rotate: Quad -> (nat, nat) -> (nat, nat))
    returns (plans: seq<Option<Plan>>)
    ensures |plans| == |jobs|
    ensures forall i :: 0 <= i < |jobs| ==>
              PlanFor(jobs[i].box, jobs[i].textColor, measure(jobs[i].translated), rotate(jobs[i].box), plans[i])
  {
    plans := [];
    var i := 0;
    while i < |jobs|
      invariant 0 <= i <= |jobs| && |plans| == i
      invariant forall k :: 0 <= k < i ==>
                  PlanFor(jobs[k].box, jobs[k].textColor, measure(jobs[k].translated), rotate(jobs[k].box), plans[k])
    {
      var job := jobs[i];
      var plan := Render(job.box, job.textColor, measure(job.translated), rotate(job.box));
      plans := plans + [plan];
      i := i + 1;
    }
  }
}

/**
 The arithmetic of `TextRenderer.render` (renderer.py): the zero-area skip,
 the linear font-shrink search, centring offsets, stroke width, outline colour
 and the paste origin of the rotated text layer.

 Font loading and `draw.textbbox` are one oracle, `measure`, from a font size
 to the measured text extent; `Image.rotate(..., expand=True)` is another,
 `rotate`, from the layer size to the rotated layer size. Drawing and pasting
 pixels are not modelled.
 */
module Renderer {
  import opened Wrappers
  import opened Geometry
  import opened ColorUtils

  /** The search never goes below this size (and never measures it). */
  const MinFontSize := 5

  /** One stroke pixel per this many font-size pixels. */
  const StrokeDivisor := 15

  /** `bbox[2] - bbox[0]`, `bbox[3] - bbox[1]` of `draw.textbbox`. */
  datatype Extent = Extent(w: int, h: int)

  predicate Fits(e: Extent, width: int, height: int) {
    e.w <= width && e.h <= height
  }

  /** The outcome the shrink loop is meant to reach: the largest size in
      `[MinFontSize + 1, height]` whose text fits, or `min(height, MinFontSize)`
      when there is none. */
  ghost predicate IsBestFit(size: int, width: int, height: nat, measure: nat -> Extent) {
    if exists s :: MinFontSize < s <= height && Fits(measure(s), width, height) then
      MinFontSize < size <= height && Fits(measure(size), width, height)
      && forall s :: size < s <= height ==> !Fits(measure(s), width, height)
    else
      size == (if height <= MinFontSize then height else MinFontSize)
  }

  /** Only one size meets `IsBestFit`. */
  lemma BestFitUnique(a: int, b: int, width: int, height: nat, measure: nat -> Extent)
    requires IsBestFit(a, width, height, measure) && IsBestFit(b, width, height, measure)
    ensures a == b
  {
  }

  /** The font-shrink loop. `probes` lists the sizes measured inside the loop,
      in order. */
  method ShrinkFont(width: int, height: nat, measure: nat -> Extent) returns (size: nat, probes: seq<nat>)
    ensures IsBestFit(size, width, height, measure)
    ensures height <= MinFontSize ==> size == height && probes == []
    ensures height > MinFontSize ==> MinFontSize <= size <= height
    ensures forall s :: size < s <= height ==> !Fits(measure(s), width, height)
    ensures |probes| == (if height <= MinFontSize then 0
                         else if size > MinFontSize then height - size + 1
                         else height - MinFontSize)
    ensures forall i :: 0 <= i < |probes| ==> probes[i] == height - i && probes[i] > MinFontSize
  {
    size := height;
    probes := [];
    while size > MinFontSize
      invariant size <= height
      invariant height > MinFontSize ==> MinFontSize <= size
      invariant height <= MinFontSize ==> size == height
      invariant forall s :: size < s <= height ==> !Fits(measure(s), width, height)
      invariant |probes| == height - size
      invariant forall i :: 0 <= i < |probes| ==> probes[i] == height - i && probes[i] > MinFontSize
      decreases size
    {
      probes := probes + [size];
      if Fits(measure(size), width, height) {
        break;
      }
      size := size - 1;
    }
    if size > MinFontSize {
      assert MinFontSize < size <= height && Fits(measure(size), width, height);
    } else if height > MinFontSize {
      assert !exists s :: MinFontSize < s <= height && Fits(measure(s), width, height);
    }
  }

  /** A centring offset, `(box - text) // 2`: the leftover space is split
      with at most one more pixel after the text than before it, and the
      offset is negative exactly when the text overflows. */
  function CenterOffset(box: int, text: int): (o: int)
    ensures 2 * o <= box - text < 2 * o + 2
    ensures o < 0 <==> text > box
  {
    (box - text) / 2
  }

  /** The outline thickness: one pixel per 15 of font size, never below 1. */
  function StrokeWidth(size: nat): (sw: nat)
    ensures sw >= 1
    ensures size >= StrokeDivisor ==> sw * StrokeDivisor <= size < sw * StrokeDivisor + StrokeDivisor
    ensures size < 2 * StrokeDivisor ==> sw == 1
  {
    var q := size / StrokeDivisor;
    if q < 1 then 1 else q
  }

  /** A larger font never gets a thinner stroke. */
  lemma StrokeWidthMonotone(a: nat, b: nat)
    requires a <= b
    ensures StrokeWidth(a) <= StrokeWidth(b)
  {
  }

  /** Where the rotated layer's top-left corner goes so that its centre pixel
      `(rw // 2, rh // 2)` lands on `center`. */
  function PasteOrigin(center: Point, rw: nat, rh: nat): (o: Point)
    ensures o.x + rw / 2 == center.x && o.y + rh / 2 == center.y
  {
    Point(center.x - rw / 2, center.y - rh / 2)
  }

  /** Everything `render` computes before it draws. */
  datatype Plan = Plan(
    width: nat, height: nat,
    fontSize: nat, text: Extent,
    offsetX: int, offsetY: int,
    strokeWidth: nat, fill: Rgb, outline: Rgb,
    paste: Point)

  /** What `render` computes for `box`: nothing for a zero-area box;
      otherwise the box's size, the best-fit font size and its measured
      extent, centring offsets, stroke width, fill and inverted outline, and
      a paste origin that puts the rotated layer's centre on the box centre. */
  ghost predicate PlanFor(box: Quad, textColor: Rgb, measure: nat -> Extent, rotate: (nat, nat) -> (nat, nat), plan: Option<Plan>) {
    && (plan.None? <==> Width(box) == 0 || Height(box) == 0)
    && (plan.Some? ==>
         var p := plan.value;
         && p.width == Width(box) && p.height == Height(box)
         && IsBestFit(p.fontSize, p.width, p.height, measure)
         && p.text == measure(p.fontSize)
         && 2 * p.offsetX <= p.width - p.text.w < 2 * p.offsetX + 2
         && 2 * p.offsetY <= p.height - p.text.h < 2 * p.offsetY + 2
         && p.strokeWidth == StrokeWidth(p.fontSize) >= 1
         && p.fill == textColor && p.outline == Invert(textColor)
         && p.paste.x + rotate(p.width, p.height).0 / 2 == Centroid(box).x
         && p.paste.y + rotate(p.width, p.height).1 / 2 == Centroid(box).y)
  }

  /** `TextRenderer.render`, minus the pixels: `None` is the silent no-op for a
      zero-area box. */
  method Render(box: Quad, textColor: Rgb, measure: nat -> Extent, rotate: (nat, nat) -> (nat, nat))
    returns (plan: Option<Plan>)
    ensures PlanFor(box, textColor, measure, rotate, plan)
  {
    var width, height := Width(box), Height(box);
    if width == 0 || height == 0 {
      return None;
    }
    var size, _ := ShrinkFont(width, height, measure);
    var text := measure(size);
    var (rw, rh) := rotate(width, height);
    plan := Some(Plan(
      width, height, size, text,
      CenterOffset(width, text.w), CenterOffset(height, text.h),
      StrokeWidth(size), textColor, Invert(textColor),
      PasteOrigin(Centroid(box), rw, rh)));
  }

  /** With no rotation the layer keeps its size, and for a box with
      non-negative coordinates it is pasted exactly over the box. */
  lemma UnrotatedPasteCoversBox(x: nat, y: nat, w: nat, h: nat)
    ensures PasteOrigin(Centroid(AxisBox(x, y, w, h)), w, h) == Point(x, y)
  {
    var c := Centroid(AxisBox(x, y, w, h));
    assert x + (x + w) + (x + w) + x == 4 * x + 2 * w;
    assert y + y + (y + h) + (y + h) == 4 * y + 2 * h;
    assert c.x == x + w / 2;
    assert c.y == y + h / 2;
  }

  /** For any axis-aligned box, wherever it lies, the unrotated layer is
      pasted within one pixel of the box's corner. */
  lemma UnrotatedPasteNearBox(x: int, y: int, w: nat, h: nat)
    ensures var o := PasteOrigin(Centroid(AxisBox(x, y, w, h)), w, h);
            x <= o.x <= x + 1 && y <= o.y <= y + 1
  {
    var c := Centroid(AxisBox(x, y, w, h));
    assert x + (x + w) + (x + w) + x == 4 * x + 2 * w;
    assert y + y + (y + h) + (y + h) == 4 * y + 2 * h;
  }
}

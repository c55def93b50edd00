/** Frames are opaque images. Only their size matters to the engine; the pixel work
    (decoding, resampling, cropping, pasting onto a canvas) is recorded symbolically. */
module Frames {
  import opened Lists

  /** A rectangle in image coordinates, as Pillow's crop box (left, top, right, bottom). */
  datatype Box = Box(left: int, top: int, right: int, bottom: int)

  /** One image pasted onto a canvas with its top-left corner at (x, y). */
  datatype Layer = Layer(image: Frame, x: int, y: int)

  datatype Frame =
    | Decoded(id: nat, w: int, h: int)              // a frame produced by the decoder
    | Resized(original: Frame, w: int, h: int)      // resampled to (w, h)
    | Cropped(original: Frame, box: Box)            // cut out by a crop box
    | Canvas(w: int, h: int, layers: seq<Layer>)    // a solid black canvas with pasted layers

  function Width(f: Frame): int
  {
    match f
    case Decoded(_, w, _) => w
    case Resized(_, w, _) => w
    case Cropped(_, b) => b.right - b.left
    case Canvas(w, _, _) => w
  }

  function Height(f: Frame): int
  {
    match f
    case Decoded(_, _, h) => h
    case Resized(_, _, h) => h
    case Cropped(_, b) => b.bottom - b.top
    case Canvas(_, h, _) => h
  }

  /** The width that keeps a w x h image's aspect ratio at the new height `target`:
      `int(target / (h / w))` in the source, computed here exactly as floor(target * w / h). */
  function ScaledWidth(w: int, h: int, target: int): (r: int)
    requires w > 0 && h > 0 && target >= 0
    ensures r * h <= target * w < (r + 1) * h
    ensures r >= 0
    ensures target == h ==> r == w
  {
    ScaledWidthBounds(w, h, target);
    target * w / h
  }

  lemma ScaledWidthBounds(w: int, h: int, target: int)
    requires w > 0 && h > 0 && target >= 0
    ensures var r := target * w / h;
            r * h <= target * w < (r + 1) * h && r >= 0 && (target == h ==> r == w)
  {
    var q := target * w;
    MulNonNegative(target, w);
    DivBracket(q, h);
    var r := q / h;
    MulMono(r + 1, 0, h);
    if target == h {
      assert q == w * h;
      DivExact(w, h);
    }
  }

  lemma MulNonNegative(a: int, b: int)
    requires a >= 0 && b >= 0
    ensures a * b >= 0
  {
  }

  /** Floor division brackets the dividend between consecutive multiples of the divisor. */
  lemma DivBracket(q: int, h: int)
    requires h > 0
    ensures (q / h) * h <= q < (q / h + 1) * h
  {
    assert q == (q / h) * h + q % h;
    assert (q / h + 1) * h == (q / h) * h + h;
  }

  lemma DivExact(w: int, h: int)
    requires h > 0
    ensures (w * h) / h == w
  {
    DivBracket(w * h, h);
    var r := (w * h) / h;
    MulMono(r + 1, w, h);
    MulMono(w + 1, r, h);
  }

  /** Multiplying by a non-negative number keeps the order. */
  lemma MulMono(a: int, b: int, d: int)
    requires d >= 0
    ensures a <= b ==> a * d <= b * d
  {
  }

  /** The crop box after the integer clamp: the left/top edges are clamped into the image, and
      the right/bottom edges to the image while staying at least one pixel past the left/top. */
  function ClampBox(left: int, top: int, right: int, bottom: int, w: int, h: int): (b: Box)
    requires w >= 0 && h >= 0
    ensures 0 <= b.left <= w && 0 <= b.top <= h
    ensures b.left < b.right && b.top < b.bottom
    ensures b.right <= w || b.right == b.left + 1
    ensures b.bottom <= h || b.bottom == b.top + 1
    ensures 0 <= left < right <= w && 0 <= top < bottom <= h ==> b == Box(left, top, right, bottom)
  {
    var l := Max(0, Min(left, w));
    var t := Max(0, Min(top, h));
    var r := Max(l + 1, Min(right, w));
    var bt := Max(t + 1, Min(bottom, h));
    Box(l, t, r, bt)
  }

  /** Clamping an already clamped box changes nothing. */
  lemma ClampBoxIdempotent(left: int, top: int, right: int, bottom: int, w: int, h: int)
    requires w >= 0 && h >= 0
    ensures var b := ClampBox(left, top, right, bottom, w, h);
            ClampBox(b.left, b.top, b.right, b.bottom, w, h) == b
  {
  }

  /** A box whose left edge lies right of the image is clamped to a one-pixel column just
      outside it: the clamp does not keep the box inside the image. */
  lemma ClampBoxCanLeaveImage(w: int, h: int)
    requires w >= 0 && h >= 1
    ensures ClampBox(w + 5, 0, w + 40, h, w, h) == Box(w, 0, w + 1, h)
  {
  }

  /** Horizontal offset that centres an image of width w on a canvas of width cw
      (the source's `(cw - w) // 2`). */
  function CenterOffset(cw: int, w: int): (x: int)
    requires 0 <= w <= cw
    ensures 0 <= x && x + w <= cw
    ensures 0 <= (cw - w - x) - x <= 1
  {
    (cw - w) / 2
  }

  /** Image `f` centred horizontally at the top of a black canvas of size cw x ch. */
  function Letterboxed(f: Frame, cw: int, ch: int, x: int): Frame
  {
    Canvas(cw, ch, [Layer(f, x, 0)])
  }

  /** Two images side by side on a canvas of width cw: `left` at x = 0, `right` at x = split. */
  function SideBySide(left: Frame, right: Frame, split: int, cw: int, ch: int): Frame
  {
    Canvas(cw, ch, [Layer(left, 0, 0), Layer(right, split, 0)])
  }
}

/** Integer layout arithmetic of the password view: the width of the row of
    slots, the slot size when the parent imposes a width, and the horizontal
    position of each slot. All values are pixels. */
module Layout {

  /** Java's `int` division by a positive divisor: the quotient is truncated
      toward zero, whereas Dafny's `/` is Euclidean. */
  function JavaDiv(a: int, b: int): (q: int)
    requires b > 0
    ensures 0 <= a ==> 0 <= a - q * b < b
    ensures a < 0 ==> -b < a - q * b <= 0
  {
    if a >= 0 then a / b else -((-a) / b)
  }

  /** The modes a width measure specification can carry. */
  datatype MeasureMode = Unspecified | AtMost | Exactly

  /** A width measure specification: its mode and the size the parent offers. */
  datatype MeasureSpec = MeasureSpec(mode: MeasureMode, size: int)

  /** Width of a row of `count` slots of `size` pixels with `padding` pixels
      between neighbouring slots. */
  function IntrinsicWidth(size: int, padding: int, count: int): (w: int)
    ensures count >= 1 ==> w == SlotLeft(0, size, padding, count - 1) + size
  {
    size * count + padding * (count - 1)
  }

  /** Slot size that the view derives from an exactly imposed `width`. */
  function ExactSize(width: int, padding: int, count: int): (size: int)
    requires count >= 1
    ensures width >= padding * (count - 1) ==> 0 <= size
    ensures width < padding * (count - 1) ==> size <= 0
  {
    JavaDiv(width - padding * (count - 1), count)
  }

  /** What measuring reports: the measured width and height, and the slot size
      the view keeps afterwards. */
  datatype Measured = Measured(width: int, height: int, size: int)

  /** Measuring the view with slot size `size`: without an imposed width the
      row takes its intrinsic width; with one, the slot size is derived from it.
      The height is always the (new) slot size, so slots are square. */
  function Measure(spec: MeasureSpec, size: int, padding: int, count: int): (m: Measured)
    requires count >= 1
    ensures m.height == m.size
    ensures spec.mode != Exactly ==> m.size == size && m.width == IntrinsicWidth(size, padding, count)
    ensures spec.mode == Exactly ==> m.width == spec.size
  {
    match spec.mode
    case Unspecified | AtMost => Measured(IntrinsicWidth(size, padding, count), size, size)
    case Exactly =>
      var s := ExactSize(spec.size, padding, count);
      Measured(spec.size, s, s)
  }

  /** The derived slot size is the largest one whose row still fits in the
      imposed width (when the width leaves room for the padding at all). */
  lemma ExactSizeFits(width: int, padding: int, count: int)
    requires count >= 1 && width >= padding * (count - 1)
    ensures IntrinsicWidth(ExactSize(width, padding, count), padding, count) <= width
    ensures width < IntrinsicWidth(ExactSize(width, padding, count) + 1, padding, count)
  {
    var q := ExactSize(width, padding, count);
    var a := width - padding * (count - 1);
    assert 0 <= a - q * count < count;
    assert (q + 1) * count == q * count + count;
  }

  /** A product with a positive factor that lies strictly between `-c` and `c`
      has a zero co-factor. */
  lemma ZeroCofactor(d: int, c: int)
    requires c >= 1 && -c < d * c < c
    ensures d == 0
  {
  }

  /** A non-negative step taken at least once covers at least one step. */
  lemma StepsCover(w: int, k: int)
    requires w >= 0 && k >= 1
    ensures w * k >= w
  {
    assert w * k == w * (k - 1) + w;
  }

  /** Feeding the intrinsic width back in as an exact width recovers the slot
      size, whatever its sign. */
  lemma IntrinsicWidthRoundTrip(size: int, padding: int, count: int)
    requires count >= 1
    ensures ExactSize(IntrinsicWidth(size, padding, count), padding, count) == size
  {
    var q := ExactSize(IntrinsicWidth(size, padding, count), padding, count);
    var a := size * count;
    assert IntrinsicWidth(size, padding, count) - padding * (count - 1) == a;
    assert a - q * count == (size - q) * count;
    ZeroCofactor(size - q, count);
  }

  /** Exactly mode: the measured width is the imposed one, the height is the new
      slot size, and that size is the largest whose row fits the width. */
  lemma MeasureExactlyFits(spec: MeasureSpec, size: int, padding: int, count: int)
    requires count >= 1 && spec.mode == Exactly && spec.size >= padding * (count - 1)
    ensures var m := Measure(spec, size, padding, count);
      m.width == spec.size && m.height == m.size
      && IntrinsicWidth(m.size, padding, count) <= spec.size < IntrinsicWidth(m.size + 1, padding, count)
  {
    ExactSizeFits(spec.size, padding, count);
  }

  /** Measuring without an imposed width, then imposing the width so obtained,
      leaves the slot size and reports the same width and height. */
  lemma MeasureRoundTrip(mode: MeasureMode, offered: int, size: int, padding: int, count: int)
    requires count >= 1 && mode != Exactly
    ensures var m := Measure(MeasureSpec(mode, offered), size, padding, count);
      Measure(MeasureSpec(Exactly, m.width), size, padding, count) == m
  {
    IntrinsicWidthRoundTrip(size, padding, count);
  }

  /** Four slots, 20 pixels apart, in an exact width of 400 pixels are 85 pixels wide. */
  lemma ExactSizeExample()
    ensures ExactSize(400, 20, 4) == 85
  {
  }

  /** Left edge of slot `i`. */
  function SlotLeft(paddingLeft: int, size: int, padding: int, i: int): (left: int)
    ensures i == 0 ==> left == paddingLeft
    ensures 0 <= i && 0 <= size + padding ==> paddingLeft <= left
  {
    paddingLeft + (size + padding) * i
  }

  /** Horizontal centre of slot `i`, where the caret and the glyphs are drawn:
      half a slot (rounded down) right of its left edge, so inside the slot. */
  function SlotCentre(paddingLeft: int, size: int, padding: int, i: int): (x: int)
    ensures 0 <= size ==> x - SlotLeft(paddingLeft, size, padding, i) == size / 2
    ensures 0 <= size ==> SlotLeft(paddingLeft, size, padding, i) <= x <= SlotLeft(paddingLeft, size, padding, i) + size
  {
    paddingLeft + JavaDiv(size, 2) + (size + padding) * i
  }

  /** Slots are laid out left to right and never overlap. */
  lemma SlotsInOrder(paddingLeft: int, size: int, padding: int, i: int, j: int)
    requires 0 <= size && 0 <= padding && i < j
    ensures SlotLeft(paddingLeft, size, padding, i) + size <= SlotLeft(paddingLeft, size, padding, j)
  {
    var w := size + padding;
    assert w * j == w * i + w * (j - i);
    StepsCover(w, j - i);
  }

  /** Every one of the `count` slots lies inside the row's intrinsic width. */
  lemma SlotInsideRow(paddingLeft: int, size: int, padding: int, count: int, i: int)
    requires 0 <= size && 0 <= padding && 0 <= i < count
    ensures paddingLeft <= SlotLeft(paddingLeft, size, padding, i)
    ensures SlotLeft(paddingLeft, size, padding, i) + size <= paddingLeft + IntrinsicWidth(size, padding, count)
  {
    if i < count - 1 {
      SlotsInOrder(paddingLeft, size, padding, i, count - 1);
    }
    assert SlotLeft(paddingLeft, size, padding, count - 1) == paddingLeft + SlotLeft(0, size, padding, count - 1);
  }

}

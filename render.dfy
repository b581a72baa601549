/** What a frame draws, reduced to integers: the horizontal extent of each slot
    border, whether the caret is drawn and where, and the glyph drawn in each
    filled slot. Colours, strokes, text metrics and vertical positions belong
    to the graphics library and are not modelled. */
module Render {
  import opened Wrappers
  import Layout
  import InputState

  /** The glyph drawn in place of a digit when cipher mode is on. */
  const CIPHER_TEXT := '*'

  /** The horizontal extent of one slot's border (underline or rectangle). */
  datatype Span = Span(left: int, right: int)

  /** A glyph drawn centred at `x`. */
  datatype Glyph = Glyph(x: int, text: char)

  /** The border spans of the first `count` slots, left to right: span `i`
      runs from slot `i`'s left edge for one slot size. */
  function Borders(paddingLeft: int, size: int, padding: int, count: nat): (b: seq<Span>)
    ensures |b| == count
    ensures forall i :: 0 <= i < count ==>
      b[i] == Span(Layout.SlotLeft(paddingLeft, size, padding, i), Layout.SlotLeft(paddingLeft, size, padding, i) + size)
  {
    if count == 0 then []
    else
      var left := Layout.SlotLeft(paddingLeft, size, padding, count - 1);
      Borders(paddingLeft, size, padding, count - 1) + [Span(left, left + size)]
  }

  /** The caret is drawn when the blink phase says so (the flag is false),
      the caret is enabled, input is not complete and the view has focus. */
  predicate CaretShown(cursorShowing: bool, cursorEnable: bool, inputComplete: bool, focused: bool): (shown: bool)
    ensures shown ==> !inputComplete && focused
    ensures !cursorEnable ==> !shown
    ensures cursorShowing ==> !shown
  {
    !cursorShowing && cursorEnable && !inputComplete && focused
  }

  /** The glyphs drawn for `slots`: one per filled slot, in slot order, at the
      slot's centre, the cipher glyph or the digit itself. Read left to right
      they spell the password, or hide each of its characters behind the
      cipher glyph. */
  function Glyphs(slots: seq<Option<char>>, cipherEnable: bool, paddingLeft: int, size: int, padding: int): (g: seq<Glyph>)
    ensures |g| == |InputState.Password(slots)|
    ensures forall k :: 0 <= k < |g| ==>
      g[k].text == if cipherEnable then CIPHER_TEXT else InputState.Password(slots)[k]
  {
    if slots == [] then []
    else
      var i := |slots| - 1;
      Glyphs(slots[..i], cipherEnable, paddingLeft, size, padding)
      + if slots[i].Some? then
          [Glyph(Layout.SlotCentre(paddingLeft, size, padding, i), if cipherEnable then CIPHER_TEXT else slots[i].value)]
        else []
  }

  /** There is one border per slot, each `size` wide, in order, without overlap,
      and all inside the row's intrinsic width. */
  lemma BordersLayout(paddingLeft: int, size: int, padding: int, count: nat)
    requires 0 <= size && 0 <= padding
    ensures var b := Borders(paddingLeft, size, padding, count);
      |b| == count
      && (forall i :: 0 <= i < count ==> b[i] == Span(Layout.SlotLeft(paddingLeft, size, padding, i),
                                                     Layout.SlotLeft(paddingLeft, size, padding, i) + size))
      && (forall i :: 0 <= i < count ==> paddingLeft <= b[i].left && b[i].right <= paddingLeft + Layout.IntrinsicWidth(size, padding, count))
      && (forall i, j :: 0 <= i < j < count ==> b[i].right <= b[j].left)
  {
    var b := Borders(paddingLeft, size, padding, count);
    forall i | 0 <= i < count
      ensures paddingLeft <= b[i].left && b[i].right <= paddingLeft + Layout.IntrinsicWidth(size, padding, count)
    {
      Layout.SlotInsideRow(paddingLeft, size, padding, count, i);
    }
    forall i, j | 0 <= i < j < count
      ensures b[i].right <= b[j].left
    {
      Layout.SlotsInOrder(paddingLeft, size, padding, i, j);
    }
  }

  /** When the filled slots are a prefix of length `n`, exactly `n` glyphs are
      drawn, glyph `k` centred on slot `k`, all cipher glyphs in cipher mode and
      otherwise the digits of the slots, which spell the password in order. */
  lemma {:induction false} GlyphsOfFilledPrefix(slots: seq<Option<char>>, n: nat, cipherEnable: bool,
                                                paddingLeft: int, size: int, padding: int)
    requires n <= |slots|
    requires forall i :: 0 <= i < |slots| ==> (slots[i].Some? <==> i < n)
    ensures |InputState.Password(slots)| == n
    ensures var g := Glyphs(slots, cipherEnable, paddingLeft, size, padding);
      |g| == n
      && (forall k :: 0 <= k < n ==> g[k].x == Layout.SlotCentre(paddingLeft, size, padding, k))
      && (forall k :: 0 <= k < n ==> g[k].text == if cipherEnable then CIPHER_TEXT else slots[k].value)
      && (!cipherEnable ==> forall k :: 0 <= k < n ==> g[k].text == InputState.Password(slots)[k])
  {
    InputState.PasswordOfFilledPrefix(slots, n);
    if slots != [] {
      var i := |slots| - 1;
      GlyphsOfFilledPrefix(slots[..i], if n == |slots| then n - 1 else n, cipherEnable, paddingLeft, size, padding);
      InputState.PasswordOfFilledPrefix(slots[..i], if n == |slots| then n - 1 else n);
    }
  }

  /** Under the state-machine invariant a drawn caret marks an empty slot that
      exists, and sits inside that slot and inside the row. */
  lemma CaretMarksNextSlot(s: InputState.State, cursorShowing: bool, cursorEnable: bool, focused: bool,
                           paddingLeft: int, size: int, padding: int)
    requires InputState.Inv(s) && CaretShown(cursorShowing, cursorEnable, s.complete, focused)
    requires 0 <= size && 0 <= padding
    ensures s.cursor < |s.slots| && s.slots[s.cursor].None?
    ensures var x := Layout.SlotCentre(paddingLeft, size, padding, s.cursor);
      Layout.SlotLeft(paddingLeft, size, padding, s.cursor) <= x <= Layout.SlotLeft(paddingLeft, size, padding, s.cursor) + size
      && paddingLeft <= x <= paddingLeft + Layout.IntrinsicWidth(size, padding, |s.slots|)
  {
    Layout.SlotInsideRow(paddingLeft, size, padding, |s.slots|, s.cursor);
  }
}

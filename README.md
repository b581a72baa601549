# PasswordView, modelled in Dafny

A model of `PasswordView`, an Android widget for entering a PIN. The widget shows a fixed
number of slots, underlined or boxed. Each filled slot shows a digit or a cipher glyph, and
a blinking caret marks the next slot to fill. A key listener updates the slots and tells an
application listener about three things: a change, completion, and an ENTER press.

The model has five modules:

- `Wrappers` holds `Option`. `None` stands for an empty slot, which is a `null` or empty string in Java.
- `InputState` is the slot state machine, written on values.
  - `State` holds the slots, the cursor and the complete flag.
  - `AddStep`, `DeleteStep` and `KeyStep` are the transitions. Each returns the new state, the operation's result, and the callbacks it fires, in order.
  - `Run` applies a sequence of key events.
  - `Inv` is the invariant: the filled slots are exactly those before the cursor, and the view is complete exactly when the cursor is at the end.
  - The lemmas prove the properties below.
- `Layout` holds the integer arithmetic of `onMeasure` and the x-coordinates of the slots.
  - Java's truncating `int` division is written out as `JavaDiv`.
- `Render` holds what a frame draws, reduced to integers: the border extents, the caret predicate and position, and the glyph list of the filled slots.
- `Widget.PasswordView` is the object itself, as a class.
  - The fields are updated in place, and the slots are an `array<Option<char>>`.
  - Each method is proved against the value-level functions above.
  - The listener's callbacks are logged in the ghost field `fired`, and only while a listener is registered.

Key constants are the platform's:

- `ACTION_DOWN` = 0
- `KEYCODE_0`..`KEYCODE_9` = 7..16, so a digit key types the digit `keyCode - 7`
- `KEYCODE_ENTER` = 66
- `KEYCODE_DEL` = 67

Notes on how the code was read:

- The cursor is a `nat`. It starts at 0 and is only decremented when it is positive. So the Java `else if (cursorPosition == 0)` branch of `delete` is a plain `else` here. The implicit "negative cursor" case of that branch cannot arise.
- The slot count is a constant equal to the array's length. The Java field `passwordLength` can drift from `password.length` through `setPasswordLength`, which is left out (see below).
- `add` returns `null` when it does nothing (PasswordView.java:309, :321). That is `None` here.

## Model

| member | source | states |
|---|---|---|
| `Layout.JavaDiv` | passwordview2/src/main/java/com/glemontree/passwordview/PasswordView.java:88 | Java `int` division by a positive divisor truncates toward zero: the remainder has the dividend's sign and is smaller than the divisor |
| `Layout.Measure` | passwordview2/src/main/java/com/glemontree/passwordview/PasswordView.java:78-91 | the measured height is always the slot size. Without an exact width, the size is kept and the width is the intrinsic width. With an exact width, the measured width is that width |
| `Layout.IntrinsicWidth` | passwordview2/src/main/java/com/glemontree/passwordview/PasswordView.java:84 | with at least one slot, the intrinsic width ends exactly at the right edge of the last slot, measured from 0 |
| `Layout.ExactSize` | passwordview2/src/main/java/com/glemontree/passwordview/PasswordView.java:88 | the derived slot size is non-negative when the imposed width covers the padding, and non-positive when it does not |
| `Layout.ExactSizeFits` | passwordview2/src/main/java/com/glemontree/passwordview/PasswordView.java:86-88 | when the imposed width leaves room for the padding, the derived slot size is the largest whose row fits in the width: `size*L + pad*(L-1) <= W < (size+1)*L + pad*(L-1)` |
| `Layout.IntrinsicWidthRoundTrip` | passwordview2/src/main/java/com/glemontree/passwordview/PasswordView.java:82-88 | imposing the intrinsic width `size*L + pad*(L-1)` as the exact width gives back `size`, for every size |
| `Layout.MeasureExactlyFits` | passwordview2/src/main/java/com/glemontree/passwordview/PasswordView.java:86-90 | in exact mode, when the imposed width covers the padding (`W >= pad*(L-1)`), the measured width is the imposed one and the height is the new slot size. That size is the largest whose row fits |
| `Layout.MeasureRoundTrip` | passwordview2/src/main/java/com/glemontree/passwordview/PasswordView.java:82-90 | measuring without an imposed width, then imposing the width so obtained, reproduces the same measurement and the same slot size |
| `Layout.ExactSizeExample` | passwordview2/src/main/java/com/glemontree/passwordview/PasswordView.java:88 | 4 slots, padding 20, exact width 400 give slot size 85 |
| `Layout.SlotsInOrder` | passwordview2/src/main/java/com/glemontree/passwordview/PasswordView.java:154-156 | for a non-negative slot size and padding, slot `i` ends no later than slot `j > i` begins: the slots run left to right without overlap |
| `Layout.SlotInsideRow` | passwordview2/src/main/java/com/glemontree/passwordview/PasswordView.java:164-166 | for a non-negative slot size and padding, each of the `L` slots lies inside the row's intrinsic width |
| `Layout.SlotLeft` | passwordview2/src/main/java/com/glemontree/passwordview/PasswordView.java:155 | slot 0 starts at the left padding, and with a non-negative step every later slot starts no further left |
| `Layout.SlotCentre` | passwordview2/src/main/java/com/glemontree/passwordview/PasswordView.java:142 | for a non-negative size, the centre lies half a slot (rounded down) right of the slot's left edge, so between its edges |
| `InputState.Initial` | passwordview2/src/main/java/com/glemontree/passwordview/PasswordView.java:202 | a fresh view has all slots empty and the cursor at 0, which satisfies the invariant |
| `InputState.Digit` | passwordview2/src/main/java/com/glemontree/passwordview/PasswordView.java:290 | the key `KEYCODE_0 + d` types the decimal digit `d`, the `d`-th character of "0123456789" |
| `InputState.AddStep` | passwordview2/src/main/java/com/glemontree/passwordview/PasswordView.java:308-322 | adding keeps the cursor within the slots and never changes the slot count |
| `InputState.DeleteStep` | passwordview2/src/main/java/com/glemontree/passwordview/PasswordView.java:324-336 | deleting keeps the cursor within the slots and always clears the complete flag |
| `InputState.KeyStep` | passwordview2/src/main/java/com/glemontree/passwordview/PasswordView.java:272-305 | a key event is consumed if and only if it is a press of DEL, a digit key or ENTER |
| `InputState.Run` | passwordview2/src/main/java/com/glemontree/passwordview/PasswordView.java:272-305 | a sequence of key events yields one consumed-or-not answer per event and keeps the cursor within the slots |
| `InputState.Password` | passwordview2/src/main/java/com/glemontree/passwordview/PasswordView.java:338-347 | the assembled password is never longer than the slots |
| `InputState.PasswordChars` | passwordview2/src/main/java/com/glemontree/passwordview/PasswordView.java:338-347 | a character is in the password if and only if some slot holds it |
| `InputState.PasswordOfFilledPrefix` | passwordview2/src/main/java/com/glemontree/passwordview/PasswordView.java:338-347 | when the filled slots are a prefix of length `n`, the assembled password has length `n` and holds those slots' digits in order |
| `InputState.AddStepKeepsInv` | passwordview2/src/main/java/com/glemontree/passwordview/PasswordView.java:308-322 | `add` preserves the invariant: filled prefix, cursor in range, complete iff the cursor is at the end |
| `InputState.DeleteStepKeepsInv` | passwordview2/src/main/java/com/glemontree/passwordview/PasswordView.java:324-336 | `delete` preserves the invariant |
| `InputState.KeyStepKeepsInv` | passwordview2/src/main/java/com/glemontree/passwordview/PasswordView.java:272-305 | every key event preserves the invariant |
| `InputState.RunKeepsInv` | passwordview2/src/main/java/com/glemontree/passwordview/PasswordView.java:272-336 | every sequence of key events preserves the invariant |
| `InputState.ReachableStates` | passwordview2/src/main/java/com/glemontree/passwordview/PasswordView.java:272-347 | from a fresh view, after any key events: `0 <= cursor <= L`, exactly the slots before the cursor are filled, complete iff `cursor == L`, and the password is `cursor` long |
| `InputState.DigitKeyFillsNextSlot` | passwordview2/src/main/java/com/glemontree/passwordview/PasswordView.java:286-295 | a digit press on an incomplete view writes the digit at the cursor and leaves the other slots. It advances the cursor by one and is consumed. It fires `Change(digit)`, preceded by `Complete` exactly when the last slot was filled |
| `InputState.DigitKeyWhenFull` | passwordview2/src/main/java/com/glemontree/passwordview/PasswordView.java:287-292 | a digit press with the cursor at `L` is consumed, changes no slot and no flag, and fires nothing, whatever the complete flag says |
| `InputState.CompleteMarksFill` | passwordview2/src/main/java/com/glemontree/passwordview/PasswordView.java:314-319 | `Complete` fires on a key event if and only if that event turns the view from incomplete to complete. When it fires, the callbacks are exactly `[Complete, Change(digit)]` |
| `InputState.OnlyDeleteClearsComplete` | passwordview2/src/main/java/com/glemontree/passwordview/PasswordView.java:334 | only a DEL press turns a complete view back into an incomplete one |
| `InputState.CompleteOncePerFill` | passwordview2/src/main/java/com/glemontree/passwordview/PasswordView.java:287-319 | over any key events without a DEL press, `Complete` fires at most once, and never if the view is already complete |
| `InputState.DeleteKeyClearsLastSlot` | passwordview2/src/main/java/com/glemontree/passwordview/PasswordView.java:279-284 | a DEL press with a filled slot clears the slot before the cursor and leaves every other slot. It moves the cursor back, clears the complete flag, is consumed, and fires `Change` with the removed digit |
| `InputState.DeleteKeyOnEmpty` | passwordview2/src/main/java/com/glemontree/passwordview/PasswordView.java:275-278 | a DEL press while slot 0 is empty is consumed and changes nothing, not even the complete flag. It fires nothing. Under the invariant, slot 0 is empty only at cursor 0 |
| `InputState.DeleteAtStart` | passwordview2/src/main/java/com/glemontree/passwordview/PasswordView.java:330-335 | `delete` at cursor 0 leaves slots and cursor, returns nothing, and still clears the complete flag |
| `InputState.EnterKeyReports` | passwordview2/src/main/java/com/glemontree/passwordview/PasswordView.java:297-301 | an ENTER press is consumed and changes nothing. It fires one `Enter` carrying the filled slots in order (`cursor` characters) and the current complete flag |
| `InputState.UnhandledKeyIgnored` | passwordview2/src/main/java/com/glemontree/passwordview/PasswordView.java:304 | any other key, and any event that is not a press, is not consumed, changes nothing and fires nothing |
| `InputState.TypeThreeDigits` | passwordview2/src/main/java/com/glemontree/passwordview/PasswordView.java:286-295 | four empty slots, then 1 2 3 give slots `[1,2,3,_]`, cursor 3, not complete, and three `Change` callbacks |
| `InputState.CompleteThenDelete` | passwordview2/src/main/java/com/glemontree/passwordview/PasswordView.java:272-336 | from `[1,2,3,_]`, typing 4 fires `Complete` then `Change('4')`. Typing 5 fires nothing. DEL fires `Change('4')` and returns to `[1,2,3,_]`. ENTER fires `Enter("123", false)` |
| `InputState.FourSlotExample` | passwordview2/src/main/java/com/glemontree/passwordview/PasswordView.java:272-347 | the whole 1 2 3 4 5 DEL ENTER trace on four slots consumes every key, ends at slots `[1,2,3,_]`, cursor 3, not complete, and fires exactly the callbacks listed above, in order |
| `Render.Borders` | passwordview2/src/main/java/com/glemontree/passwordview/PasswordView.java:154-167 | one border span per slot; span `i` runs from slot `i`'s left edge for one slot size |
| `Render.BordersLayout` | passwordview2/src/main/java/com/glemontree/passwordview/PasswordView.java:150-168 | for a non-negative slot size and padding, there is one border per slot, `size` wide, at the slot's left edge. Borders come in order without overlap, inside the intrinsic width |
| `Render.Glyphs` | passwordview2/src/main/java/com/glemontree/passwordview/PasswordView.java:122-134 | there is one glyph per character of the password; in cipher mode each glyph is `*`, otherwise glyph `k` is the password's `k`-th character |
| `Render.CaretShown` | passwordview2/src/main/java/com/glemontree/passwordview/PasswordView.java:141 | the caret is never drawn while the blink flag `isCursorShowing` is set, on a complete view, on a view without focus, or with the caret disabled |
| `Render.GlyphsOfFilledPrefix` | passwordview2/src/main/java/com/glemontree/passwordview/PasswordView.java:113-135 | with a filled prefix of length `n`, exactly `n` glyphs are drawn, glyph `k` at slot `k`'s centre. In cipher mode each glyph is `*`; otherwise the glyphs are the slot digits and spell the password |
| `Render.CaretMarksNextSlot` | passwordview2/src/main/java/com/glemontree/passwordview/PasswordView.java:137-148 | under the invariant and for a non-negative slot size and padding, a drawn caret marks an existing empty slot at the cursor, and its x lies inside that slot and the row |
| `Widget.PasswordView.constructor` | passwordview2/src/main/java/com/glemontree/passwordview/PasswordView.java:59-75 | a new view has `L >= 1` empty slots, cursor 0 and is not complete. The caret and cipher mode are on, the blink phase is off, and there is no listener |
| `Widget.PasswordView.SetPasswordListener` | passwordview2/src/main/java/com/glemontree/passwordview/PasswordView.java:259-261 | registers or removes the listener |
| `Widget.PasswordView.SetPasswordSize` | passwordview2/src/main/java/com/glemontree/passwordview/PasswordView.java:226-229 | sets the slot size |
| `Widget.PasswordView.SetCursorEnable` | passwordview2/src/main/java/com/glemontree/passwordview/PasswordView.java:241-244 | sets whether the caret is enabled |
| `Widget.PasswordView.SetCipherEnable` | passwordview2/src/main/java/com/glemontree/passwordview/PasswordView.java:246-249 | sets whether digits are masked |
| `Widget.PasswordView.BlinkTick` | passwordview2/src/main/java/com/glemontree/passwordview/PasswordView.java:210-216 | one timer tick flips the blink phase and touches nothing else |
| `Widget.PasswordView.OnMeasure` | passwordview2/src/main/java/com/glemontree/passwordview/PasswordView.java:78-91 | the measured width, the measured height and the new slot size are those of `Layout.Measure`, for the slot size before the call |
| `Widget.PasswordView.Add` | passwordview2/src/main/java/com/glemontree/passwordview/PasswordView.java:308-322 | the new slots, cursor and flag, the returned text and the callbacks the listener hears are those of `AddStep`. The object invariant is kept |
| `Widget.PasswordView.Delete` | passwordview2/src/main/java/com/glemontree/passwordview/PasswordView.java:324-336 | the new slots, cursor and flag and the returned text are those of `DeleteStep`. The object invariant is kept |
| `Widget.PasswordView.GetPassword` | passwordview2/src/main/java/com/glemontree/passwordview/PasswordView.java:338-347 | the loop returns the in-order concatenation of the filled slots |
| `Widget.PasswordView.OnKey` | passwordview2/src/main/java/com/glemontree/passwordview/PasswordView.java:272-305 | the new state, the consumed flag and the callbacks the listener hears, in order, are those of `KeyStep`. The object invariant is kept |
| `Widget.PasswordView.DrawCursor` | passwordview2/src/main/java/com/glemontree/passwordview/PasswordView.java:137-148 | a caret x is returned if and only if the blink phase is off, the caret is enabled, input is incomplete and the view has focus. It is then the centre of the empty, existing slot at the cursor, and for a non-negative slot size it lies inside that slot |
| `Widget.PasswordView.DrawBorders` | passwordview2/src/main/java/com/glemontree/passwordview/PasswordView.java:150-168 | the loop produces one border span per slot, as `Render.Borders` describes |
| `Widget.PasswordView.DrawCipherText` | passwordview2/src/main/java/com/glemontree/passwordview/PasswordView.java:113-135 | the loop draws one glyph per filled slot, at its centre. With a valid state that is `cursor` glyphs, each `*` or the slot's digit |

## Left out

- Canvas and Paint calls, colours, stroke widths, text sizes and `getTextBounds` are rendering through the graphics library. Only the x-coordinates and the caret condition are kept. Vertical positions, and the `onSizeChanged` metrics that only feed them, are not modelled.
- `dp2px` and `TypedValue.applyDimension` use floating-point density scaling. The constructor takes the slot size and padding in pixels.
- Style-attribute parsing goes through `TypedArray`, a platform API. The constructor takes the slot count, padding and size as parameters, and the other options start at their defaults: caret enabled, cipher on.
- The Timer and TimerTask scheduling runs on a separate thread. Only the task's body is modelled, as `BlinkTick`.
- The soft keyboard, focus and input-connection plumbing are platform calls: `onTouchEvent`, `onWindowFocusChanged`, `onCreateInputConnection`, `onAttachedToWindow` and `onDetachedFromWindow`. Whether the view has focus is a parameter of `DrawCursor`.
- `postInvalidate` requests a redraw from the platform and is not modelled.
- `setPasswordLength` changes the slot count without reallocating the slot array, after which `add` can index past the array. The model fixes the slot count to the array length as part of the object invariant and does not offer that setter.
- `setCursorColor` and the colour fields only affect painting.
- The listener is modelled only as present or absent. The application's callback code is not visible, so the model records the calls it receives rather than running them.
- `onMeasure` ignores its height specification, and so does the model.
- Java's 32-bit `int` overflow is not modelled in the layout arithmetic. Pixel sizes and slot counts are taken to stay within range.
- `Layout.ExactSizeFits`: it requires the imposed width to cover the padding (`W >= pad*(L-1)`). For narrower widths the source computes a non-positive slot size without complaint, and the lemma says nothing about that case.
- The slot count: the model requires at least one slot, while the source also accepts 0. With no slots, a DEL press throws at PasswordView.java:276, an exact width divides by zero at :88, and the caret is drawn at a slot 0 that does not exist (:141-142). A negative count throws at :202.
- The border style (`mode`, PasswordView.java:104-108) is not modelled. Underlines and rectangles span the same columns, so `DrawBorders` returns one span per slot for both styles.

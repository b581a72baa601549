/** The password view itself: the object whose fields the key handler, the
    measuring pass, the setters and the blink timer update in place. Each
    method is proved against the value-level specification in InputState,
    Layout and Render. */
module Widget {
  import opened Wrappers
  import opened InputState
  import Layout
  import Render

  class PasswordView {
    /** Number of slots; fixed for the life of the view, equal to `password.Length`. */
    const passwordLength: nat
    /** Pixels between neighbouring slots. */
    const passwordPadding: int
    /** The slots; an empty slot is `None`. */
    const password: array<Option<char>>
    /** Pixel size of one (square) slot. */
    var passwordSize: int
    var cursorPosition: nat
    var isInputComplete: bool
    /** Blink phase, flipped by the timer; the caret is drawn while it is false. */
    var isCursorShowing: bool
    var isCursorEnable: bool
    var cipherEnable: bool
    /** Whether a listener is registered. */
    var hasListener: bool
    /** The callbacks the registered listener has received, in order. */
    ghost var fired: seq<Event>

    /** The object invariant: the slot array has the configured length and the
        state machine's invariant holds. */
    ghost predicate Valid()
      reads this, password
    {
      password.Length == passwordLength && Inv(Current())
    }

    /** The state-machine view of the object. */
    function Current(): State
      reads this, password
    {
      State(password[..], cursorPosition, isInputComplete)
    }

    /** The part of `events` the listener receives: all of them, or none when
        no listener is registered. */
    ghost function Heard(events: seq<Event>): seq<Event>
      reads this
    {
      if hasListener then events else []
    }

    /** A view with `passwordLength` empty slots, the caret and cipher mode
        enabled and no listener. */
    constructor (passwordLength: nat, passwordPadding: int, passwordSize: int)
      requires passwordLength >= 1
      ensures Valid() && fresh(password)
      ensures Current() == Initial(passwordLength)
      ensures this.passwordPadding == passwordPadding && this.passwordSize == passwordSize
      ensures !isCursorShowing && isCursorEnable && cipherEnable && !hasListener && fired == []
    {
      this.passwordLength := passwordLength;
      this.passwordPadding := passwordPadding;
      this.passwordSize := passwordSize;
      password := new Option<char>[passwordLength](_ => None);
      cursorPosition := 0;
      isInputComplete := false;
      isCursorShowing := false;
      isCursorEnable := true;
      cipherEnable := true;
      hasListener := false;
      fired := [];
    }

    /** Registers a listener (`true`) or removes it (`false`). */
    method SetPasswordListener(listening: bool)
      modifies this`hasListener
      ensures hasListener == listening
    {
      hasListener := listening;
    }

    method SetPasswordSize(size: int)
      modifies this`passwordSize
      ensures passwordSize == size
    {
      passwordSize := size;
    }

    method SetCursorEnable(enable: bool)
      modifies this`isCursorEnable
      ensures isCursorEnable == enable
    {
      isCursorEnable := enable;
    }

    method SetCipherEnable(enable: bool)
      modifies this`cipherEnable
      ensures cipherEnable == enable
    {
      cipherEnable := enable;
    }

    /** One tick of the blink timer: flips the blink phase. */
    method BlinkTick()
      modifies this`isCursorShowing
      ensures isCursorShowing == !old(isCursorShowing)
    {
      isCursorShowing := !isCursorShowing;
    }

    /** Measures the view for a width specification: returns the measured width
        and height and, for an exact width, updates the slot size. */
    method OnMeasure(widthSpec: Layout.MeasureSpec) returns (measuredWidth: int, measuredHeight: int)
      requires Valid()
      modifies this`passwordSize
      ensures Layout.Measured(measuredWidth, measuredHeight, passwordSize)
              == Layout.Measure(widthSpec, old(passwordSize), passwordPadding, passwordLength)
    {
      var width := 0;
      match widthSpec.mode {
        case Unspecified | AtMost =>
          width := passwordSize * passwordLength + passwordPadding * (passwordLength - 1);
        case Exactly =>
          width := widthSpec.size;
          passwordSize := Layout.JavaDiv(width - passwordPadding * (passwordLength - 1), passwordLength);
      }
      measuredWidth, measuredHeight := width, passwordSize;
    }

    /** Puts `s` into the slot at the cursor, if there is one, and returns it;
        the add that fills the last slot sets the complete flag and notifies the
        listener. */
    method Add(s: char) returns (addText: Option<char>)
      requires Valid()
      modifies password, this`cursorPosition, this`isInputComplete, this`fired
      ensures Valid()
      ensures var o := AddStep(old(Current()), s);
        Current() == o.state && addText == o.result && fired == old(fired) + Heard(o.fired)
    {
      AddStepKeepsInv(Current(), s);
      addText := None;
      if cursorPosition < passwordLength {
        addText := Some(s);
        password[cursorPosition] := Some(s);
        cursorPosition := cursorPosition + 1;
        if cursorPosition == passwordLength {
          isInputComplete := true;
          if hasListener {
            fired := fired + [Complete];
          }
        }
      }
    }

    /** Clears the slot before the cursor (slot 0 when the cursor is at 0),
        moves the cursor back and returns what the slot held; always clears the
        complete flag. */
    method Delete() returns (deleteText: Option<char>)
      requires Valid()
      modifies password, this`cursorPosition, this`isInputComplete
      ensures Valid()
      ensures var o := DeleteStep(old(Current()));
        Current() == o.state && deleteText == o.result
    {
      DeleteStepKeepsInv(Current());
      if cursorPosition > 0 {
        deleteText := password[cursorPosition - 1];
        password[cursorPosition - 1] := None;
        cursorPosition := cursorPosition - 1;
      } else {
        deleteText := password[cursorPosition];
        password[cursorPosition] := None;
      }
      isInputComplete := false;
    }

    /** The filled slots, concatenated in order. */
    method GetPassword() returns (pw: string)
      ensures pw == Password(password[..])
    {
      pw := [];
      for i := 0 to password.Length
        invariant pw == Password(password[..i])
      {
        assert password[..i + 1][..i] == password[..i];
        if password[i].Some? {
          pw := pw + [password[i].value];
        }
      }
      assert password[..password.Length] == password[..];
    }

    /** The key handler: DEL deletes, a digit key adds its digit, ENTER reports
        the password; each notifies the listener. Returns whether the event was
        consumed. */
    method OnKey(keyCode: int, action: int) returns (consumed: bool)
      requires Valid()
      modifies password, this`cursorPosition, this`isInputComplete, this`fired
      ensures Valid()
      ensures var o := KeyStep(old(Current()), Key(keyCode, action));
        Current() == o.state && consumed == o.result && fired == old(fired) + Heard(o.fired)
    {
      if action == ACTION_DOWN {
        if keyCode == KEYCODE_DEL {
          if password[0].None? {
            return true;
          }
          var deleteText := Delete();
          if hasListener && deleteText.Some? {
            fired := fired + [Change(deleteText.value)];
          }
          return true;
        }
        if KEYCODE_0 <= keyCode <= KEYCODE_9 {
          if isInputComplete {
            return true;
          }
          var addText := Add(Digit(keyCode));
          if hasListener && addText.Some? {
            fired := fired + [Change(addText.value)];
          }
          return true;
        }
        if keyCode == KEYCODE_ENTER {
          if hasListener {
            var pw := GetPassword();
            fired := fired + [Enter(pw, isInputComplete)];
          }
          return true;
        }
      }
      return false;
    }

    /** Whether the caret is drawn this frame, given whether the view has focus. */
    predicate CaretVisible(hasFocus: bool)
      reads this
    {
      Render.CaretShown(isCursorShowing, isCursorEnable, isInputComplete, hasFocus)
    }

    /** The horizontal position of the caret line, if it is drawn: the centre
        of the empty slot at the cursor. */
    method DrawCursor(paddingLeft: int, hasFocus: bool) returns (caret: Option<int>)
      requires Valid()
      ensures caret.Some? <==> CaretVisible(hasFocus)
      ensures caret.Some? ==>
        cursorPosition < passwordLength && password[cursorPosition].None?
        && caret.value == Layout.SlotCentre(paddingLeft, passwordSize, passwordPadding, cursorPosition)
      ensures caret.Some? && 0 <= passwordSize ==>
        Layout.SlotLeft(paddingLeft, passwordSize, passwordPadding, cursorPosition) <= caret.value
        && caret.value <= Layout.SlotLeft(paddingLeft, passwordSize, passwordPadding, cursorPosition) + passwordSize
    {
      if !isCursorShowing && isCursorEnable && !isInputComplete && hasFocus {
        assert Current().slots[cursorPosition] == password[cursorPosition];
        caret := Some(paddingLeft + Layout.JavaDiv(passwordSize, 2) + (passwordSize + passwordPadding) * cursorPosition);
      } else {
        caret := None;
      }
    }

    /** The border spans drawn for the slots (underlines in mode 0, rectangles
        otherwise; both span the same columns). */
    method DrawBorders(paddingLeft: int) returns (spans: seq<Render.Span>)
      ensures spans == Render.Borders(paddingLeft, passwordSize, passwordPadding, passwordLength)
    {
      spans := [];
      for i := 0 to passwordLength
        invariant spans == Render.Borders(paddingLeft, passwordSize, passwordPadding, i)
      {
        var left := paddingLeft + (passwordSize + passwordPadding) * i;
        spans := spans + [Render.Span(left, left + passwordSize)];
      }
    }

    /** The glyphs drawn for the filled slots. */
    method DrawCipherText(paddingLeft: int) returns (glyphs: seq<Render.Glyph>)
      ensures glyphs == Render.Glyphs(password[..], cipherEnable, paddingLeft, passwordSize, passwordPadding)
      ensures Valid() ==> |glyphs| == cursorPosition
      ensures Valid() ==> forall k :: 0 <= k < cursorPosition ==>
        glyphs[k].x == Layout.SlotCentre(paddingLeft, passwordSize, passwordPadding, k)
        && glyphs[k].text == if cipherEnable then Render.CIPHER_TEXT else password[k].value
    {
      glyphs := [];
      for i := 0 to password.Length
        invariant glyphs == Render.Glyphs(password[..i], cipherEnable, paddingLeft, passwordSize, passwordPadding)
      {
        assert password[..i + 1][..i] == password[..i];
        if password[i].Some? {
          var text := if cipherEnable then Render.CIPHER_TEXT else password[i].value;
          glyphs := glyphs + [Render.Glyph(paddingLeft + Layout.JavaDiv(passwordSize, 2) + (passwordSize + passwordPadding) * i, text)];
        }
      }
      assert password[..password.Length] == password[..];
      if Valid() {
        Render.GlyphsOfFilledPrefix(password[..], cursorPosition, cipherEnable, paddingLeft, passwordSize, passwordPadding);
      }
    }
  }
}

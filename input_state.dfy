/** The password-slot state machine of the view, as values: a fixed number of
    slots, a cursor at the next slot to fill and the input-complete flag, with
    the transitions made by adding a digit, deleting, and handling a key event,
    and the listener callbacks each transition fires, in order. */
module InputState {
  import opened Wrappers

  /** Key-event constants of the platform. */
  const ACTION_DOWN := 0
  const KEYCODE_0 := 7
  const KEYCODE_9 := 16
  const KEYCODE_ENTER := 66
  const KEYCODE_DEL := 67

  /** A listener callback: `passwordChange(text)`, `passwordComplete()` or
      `keyEnterPress(password, isComplete)`. */
  datatype Event = Change(text: char) | Complete | Enter(password: string, isComplete: bool)

  /** The slots (an empty slot is `None`), the cursor and the complete flag. */
  datatype State = State(slots: seq<Option<char>>, cursor: nat, complete: bool)

  /** A key event: its key code and its action. */
  datatype Key = Key(code: int, action: int)

  /** The new state, what the operation returns, and the callbacks it fires. */
  datatype Outcome<R> = Outcome(state: State, result: R, fired: seq<Event>)

  /** What every operation needs: at least one slot and a cursor within them. */
  predicate WellFormed(s: State)
  {
    1 <= |s.slots| && s.cursor <= |s.slots|
  }

  /** The state-machine invariant: the filled slots are exactly those before
      the cursor, and input is complete exactly when every slot is filled. */
  predicate Inv(s: State)
  {
    WellFormed(s)
    && (forall i :: 0 <= i < |s.slots| ==> (s.slots[i].Some? <==> i < s.cursor))
    && s.complete == (s.cursor == |s.slots|)
  }

  /** A freshly created view with `count` slots. */
  function Initial(count: nat): (s: State)
    requires count >= 1
    ensures Inv(s) && s.cursor == 0 && |s.slots| == count
  {
    State(seq(count, _ => None), 0, false)
  }

  /** The decimal digits, in order. */
  const DIGITS := "0123456789"

  /** The character a digit key types: the key `KEYCODE_0 + d` types the
      decimal digit `d`. */
  function Digit(code: int): (c: char)
    requires KEYCODE_0 <= code <= KEYCODE_9
    ensures c == DIGITS[code - KEYCODE_0]
  {
    (code - KEYCODE_0 + '0' as int) as char
  }

  /** The keys the view consumes: a press of DEL, a digit key or ENTER. */
  predicate Handled(k: Key)
  {
    k.action == ACTION_DOWN
    && (k.code == KEYCODE_DEL || KEYCODE_0 <= k.code <= KEYCODE_9 || k.code == KEYCODE_ENTER)
  }

  /** The in-order concatenation of the filled slots, never longer than the
      slots. */
  function Password(slots: seq<Option<char>>): (pw: string)
    ensures |pw| <= |slots|
  {
    if slots == [] then []
    else
      var last := slots[|slots| - 1];
      Password(slots[..|slots| - 1]) + (if last.Some? then [last.value] else [])
  }

  /** Adding `c`: it goes into the slot at the cursor, if there is one, and the
      add that fills the last slot sets the complete flag and fires `Complete`. */
  function AddStep(s: State, c: char): (o: Outcome<Option<char>>)
    requires WellFormed(s)
    ensures WellFormed(o.state) && |o.state.slots| == |s.slots|
  {
    if s.cursor < |s.slots| then
      var cursor := s.cursor + 1;
      var full := cursor == |s.slots|;
      Outcome(State(s.slots[s.cursor := Some(c)], cursor, if full then true else s.complete),
              Some(c), if full then [Complete] else [])
    else
      Outcome(s, None, [])
  }

  /** Deleting: the slot before the cursor is cleared and the cursor moves back;
      at cursor 0 slot 0 is cleared. The complete flag is always cleared. */
  function DeleteStep(s: State): (o: Outcome<Option<char>>)
    requires WellFormed(s)
    ensures WellFormed(o.state) && |o.state.slots| == |s.slots| && !o.state.complete
  {
    if s.cursor > 0 then
      Outcome(State(s.slots[s.cursor - 1 := None], s.cursor - 1, false), s.slots[s.cursor - 1], [])
    else
      Outcome(State(s.slots[0 := None], 0, false), s.slots[0], [])
  }

  /** Handling one key event; the result says whether the event was consumed. */
  function KeyStep(s: State, k: Key): (o: Outcome<bool>)
    requires WellFormed(s)
    ensures WellFormed(o.state) && |o.state.slots| == |s.slots|
    ensures o.result == Handled(k)
  {
    if k.action != ACTION_DOWN then
      Outcome(s, false, [])
    else if k.code == KEYCODE_DEL then
      if s.slots[0].None? then
        Outcome(s, true, [])
      else
        var d := DeleteStep(s);
        Outcome(d.state, true, if d.result.Some? then [Change(d.result.value)] else [])
    else if KEYCODE_0 <= k.code <= KEYCODE_9 then
      if s.complete then
        Outcome(s, true, [])
      else
        var a := AddStep(s, Digit(k.code));
        Outcome(a.state, true, a.fired + (if a.result.Some? then [Change(a.result.value)] else []))
    else if k.code == KEYCODE_ENTER then
      Outcome(s, true, [Enter(Password(s.slots), s.complete)])
    else
      Outcome(s, false, [])
  }

  /** Handling a sequence of key events in turn: the final state, whether each
      event was consumed, and every callback fired, in order. */
  function Run(s: State, keys: seq<Key>): (o: Outcome<seq<bool>>)
    requires WellFormed(s)
    ensures WellFormed(o.state) && |o.state.slots| == |s.slots|
    ensures |o.result| == |keys|
    decreases |keys|
  {
    if keys == [] then
      Outcome(s, [], [])
    else
      var first := KeyStep(s, keys[0]);
      var rest := Run(first.state, keys[1..]);
      Outcome(rest.state, [first.result] + rest.result, first.fired + rest.fired)
  }

  /** Number of `Complete` callbacks among `fired`. */
  function Completions(fired: seq<Event>): nat
  {
    multiset(fired)[Complete]
  }

  // ---------------------------------------------------------------------------
  // Properties of the transitions

  /** When filled slots form a prefix of length `n`, the password is the
      contents of that prefix, in order. */
  lemma {:induction false} PasswordOfFilledPrefix(slots: seq<Option<char>>, n: nat)
    requires n <= |slots|
    requires forall i :: 0 <= i < |slots| ==> (slots[i].Some? <==> i < n)
    ensures |Password(slots)| == n
    ensures forall i :: 0 <= i < n ==> Password(slots)[i] == slots[i].value
  {
    if slots != [] {
      var init := slots[..|slots| - 1];
      var m := if n == |slots| then n - 1 else n;
      PasswordOfFilledPrefix(init, m);
    }
  }

  /** The password holds a character exactly when some slot holds it. */
  lemma {:induction false} PasswordChars(slots: seq<Option<char>>)
    ensures forall c :: c in Password(slots) <==> Some(c) in slots
  {
    if slots != [] {
      var init := slots[..|slots| - 1];
      PasswordChars(init);
      assert slots == init + [slots[|slots| - 1]];
    }
  }

  /** Adding keeps the invariant. */
  lemma AddStepKeepsInv(s: State, c: char)
    requires Inv(s)
    ensures Inv(AddStep(s, c).state)
  {
  }

  /** Deleting keeps the invariant. */
  lemma DeleteStepKeepsInv(s: State)
    requires Inv(s)
    ensures Inv(DeleteStep(s).state)
  {
  }

  /** Handling any key event keeps the invariant. */
  lemma KeyStepKeepsInv(s: State, k: Key)
    requires Inv(s)
    ensures Inv(KeyStep(s, k).state)
  {
    if k.action == ACTION_DOWN {
      if k.code == KEYCODE_DEL {
        DeleteStepKeepsInv(s);
      } else if KEYCODE_0 <= k.code <= KEYCODE_9 {
        AddStepKeepsInv(s, Digit(k.code));
      }
    }
  }

  /** Any sequence of key events keeps the invariant. */
  lemma {:induction false} RunKeepsInv(s: State, keys: seq<Key>)
    requires Inv(s)
    ensures Inv(Run(s, keys).state)
    decreases |keys|
  {
    if keys != [] {
      KeyStepKeepsInv(s, keys[0]);
      RunKeepsInv(KeyStep(s, keys[0]).state, keys[1..]);
    }
  }

  /** Every state reached from a fresh view by key events has its cursor in
      range, exactly the slots before the cursor filled, the complete flag set
      exactly when the cursor is at the end, and a password as long as the
      cursor. */
  lemma ReachableStates(count: nat, keys: seq<Key>)
    requires count >= 1
    ensures var s := Run(Initial(count), keys).state;
      Inv(s) && s.cursor <= count && |s.slots| == count && |Password(s.slots)| == s.cursor
  {
    RunKeepsInv(Initial(count), keys);
    var s := Run(Initial(count), keys).state;
    PasswordOfFilledPrefix(s.slots, s.cursor);
  }

  /** A press of a digit key on an incomplete view fills the slot at the cursor
      with that digit, leaves every other slot, advances the cursor by one, and
      fires `Change` with the digit, preceded by `Complete` exactly when that
      slot was the last one. */
  lemma DigitKeyFillsNextSlot(s: State, k: Key)
    requires Inv(s) && !s.complete
    requires k.action == ACTION_DOWN && KEYCODE_0 <= k.code <= KEYCODE_9
    ensures var o := KeyStep(s, k);
      s.cursor < |s.slots|
      && o.result
      && o.state.cursor == s.cursor + 1
      && o.state.slots[s.cursor] == Some(Digit(k.code))
      && (forall j :: 0 <= j < |s.slots| && j != s.cursor ==> o.state.slots[j] == s.slots[j])
      && o.state.complete == (o.state.cursor == |s.slots|)
      && o.fired == (if o.state.complete then [Complete] else []) + [Change(Digit(k.code))]
  {
  }

  /** A press of a digit key when the cursor is already past the last slot is
      consumed and changes nothing: no slot, no flag, no callback. */
  lemma DigitKeyWhenFull(s: State, k: Key)
    requires WellFormed(s) && s.cursor == |s.slots|
    requires k.action == ACTION_DOWN && KEYCODE_0 <= k.code <= KEYCODE_9
    ensures KeyStep(s, k) == Outcome(s, true, [])
  {
  }

  /** `Complete` fires on a key event exactly when that event turns the view
      from incomplete to complete, and then only once, before the `Change`. */
  lemma CompleteMarksFill(s: State, k: Key)
    requires Inv(s)
    ensures var o := KeyStep(s, k);
      (Complete in o.fired <==> !s.complete && o.state.complete)
      && (Complete in o.fired ==> o.fired == [Complete, Change(Digit(k.code))])
  {
  }

  /** Only a press of DEL turns a complete view back into an incomplete one. */
  lemma OnlyDeleteClearsComplete(s: State, k: Key)
    requires Inv(s) && s.complete && !KeyStep(s, k).state.complete
    ensures k.action == ACTION_DOWN && k.code == KEYCODE_DEL
  {
  }

  /** Between two presses of DEL, `Complete` fires at most once, and not at all
      if the view is already complete. */
  lemma {:induction false} CompleteOncePerFill(s: State, keys: seq<Key>)
    requires Inv(s)
    requires forall i :: 0 <= i < |keys| ==> !(keys[i].action == ACTION_DOWN && keys[i].code == KEYCODE_DEL)
    ensures Completions(Run(s, keys).fired) <= if s.complete then 0 else 1
    decreases |keys|
  {
    if keys != [] {
      var first := KeyStep(s, keys[0]);
      KeyStepKeepsInv(s, keys[0]);
      CompleteMarksFill(s, keys[0]);
      CompleteOncePerFill(first.state, keys[1..]);
      var rest := Run(first.state, keys[1..]);
      assert Run(s, keys).fired == first.fired + rest.fired;
      assert Completions(first.fired + rest.fired) == Completions(first.fired) + Completions(rest.fired);
      if s.complete {
        assert first.state.complete;
        assert Complete !in first.fired;
      } else if first.state.complete {
        assert first.fired == [Complete, Change(Digit(keys[0].code))];
      } else {
        assert Complete !in first.fired;
      }
    }
  }

  /** A press of DEL on a view with a filled slot clears the slot before the
      cursor, moves the cursor back, clears the complete flag, leaves every
      other slot, and fires `Change` with the removed digit. */
  lemma DeleteKeyClearsLastSlot(s: State, k: Key)
    requires Inv(s) && s.cursor > 0
    requires k.action == ACTION_DOWN && k.code == KEYCODE_DEL
    ensures var o := KeyStep(s, k);
      o.result
      && o.state == State(s.slots[s.cursor - 1 := None], s.cursor - 1, false)
      && s.slots[s.cursor - 1].Some?
      && o.fired == [Change(s.slots[s.cursor - 1].value)]
  {
  }

  /** A press of DEL while slot 0 is empty is consumed and changes nothing: the
      complete flag is not cleared and no callback fires. Under the invariant
      that happens exactly when the cursor is at 0. */
  lemma DeleteKeyOnEmpty(s: State, k: Key)
    requires WellFormed(s) && s.slots[0].None?
    requires k.action == ACTION_DOWN && k.code == KEYCODE_DEL
    ensures KeyStep(s, k) == Outcome(s, true, [])
    ensures Inv(s) ==> s.cursor == 0
  {
  }

  /** Deleting at cursor 0 leaves the slots and the cursor, returns no text,
      and still clears the complete flag. */
  lemma DeleteAtStart(s: State)
    requires Inv(s) && s.cursor == 0
    ensures DeleteStep(s) == Outcome(s.(complete := false), None, [])
  {
    assert s.slots[0 := None] == s.slots;
  }

  /** A press of ENTER is consumed, changes nothing, and fires `Enter` with the
      filled slots in order (as many as the cursor says) and the complete flag. */
  lemma EnterKeyReports(s: State, k: Key)
    requires Inv(s)
    requires k.action == ACTION_DOWN && k.code == KEYCODE_ENTER
    ensures var o := KeyStep(s, k);
      o.result && o.state == s
      && |o.fired| == 1 && o.fired[0].Enter? && o.fired[0].isComplete == s.complete
      && |o.fired[0].password| == s.cursor
      && (forall i :: 0 <= i < s.cursor ==> o.fired[0].password[i] == s.slots[i].value)
  {
    PasswordOfFilledPrefix(s.slots, s.cursor);
  }

  /** Any other key, and any event that is not a press, is not consumed and
      changes nothing. */
  lemma UnhandledKeyIgnored(s: State, k: Key)
    requires WellFormed(s) && !Handled(k)
    ensures KeyStep(s, k) == Outcome(s, false, [])
  {
  }

  /** Handling a non-empty run is handling its first key event, then the rest. */
  lemma RunFirst(s: State, keys: seq<Key>)
    requires WellFormed(s) && keys != []
    ensures var first := KeyStep(s, keys[0]);
      var rest := Run(first.state, keys[1..]);
      Run(s, keys) == Outcome(rest.state, [first.result] + rest.result, first.fired + rest.fired)
  {
  }

  /** Handling a single key event as a run of one. */
  lemma RunOne(s: State, k: Key)
    requires WellFormed(s)
    ensures var o := KeyStep(s, k);
      Run(s, [k]).state == o.state && Run(s, [k]).result == [o.result] && Run(s, [k]).fired == o.fired
  {
    RunFirst(s, [k]);
    assert [k][1..] == [];
  }

  /** Splitting a run of key events in two. */
  lemma {:induction false} RunAppend(s: State, keys: seq<Key>, more: seq<Key>)
    requires WellFormed(s)
    ensures var a := Run(s, keys);
      var b := Run(a.state, more);
      Run(s, keys + more) == Outcome(b.state, a.result + b.result, a.fired + b.fired)
    decreases |keys|
  {
    if keys == [] {
      assert keys + more == more;
      var b := Run(s, more);
      assert [] + b.result == b.result && [] + b.fired == b.fired;
    } else {
      var both := keys + more;
      assert both[0] == keys[0] && both[1..] == keys[1..] + more;
      var first := KeyStep(s, keys[0]);
      var a := Run(first.state, keys[1..]);
      var b := Run(a.state, more);
      RunAppend(first.state, keys[1..], more);
      RunFirst(s, keys);
      RunFirst(s, both);
      assert [first.result] + (a.result + b.result) == ([first.result] + a.result) + b.result;
      assert first.fired + (a.fired + b.fired) == (first.fired + a.fired) + b.fired;
    }
  }

  /** Typing 1 2 3 into four empty slots fills them in order and fires a
      `Change` for each digit. */
  lemma TypeThreeDigits()
    ensures var o := Run(Initial(4), [Key(8, ACTION_DOWN), Key(9, ACTION_DOWN), Key(10, ACTION_DOWN)]);
      o.state == State([Some('1'), Some('2'), Some('3'), None], 3, false)
      && o.result == [true, true, true]
      && o.fired == [Change('1'), Change('2'), Change('3')]
  {
    var k1, k2, k3 := Key(8, ACTION_DOWN), Key(9, ACTION_DOWN), Key(10, ACTION_DOWN);
    var s0 := Initial(4);
    var s1 := State([Some('1'), None, None, None], 1, false);
    var s2 := State([Some('1'), Some('2'), None, None], 2, false);
    var s3 := State([Some('1'), Some('2'), Some('3'), None], 3, false);
    assert KeyStep(s0, k1) == Outcome(s1, true, [Change('1')]);
    assert KeyStep(s1, k2) == Outcome(s2, true, [Change('2')]);
    assert KeyStep(s2, k3) == Outcome(s3, true, [Change('3')]);
    RunOne(s0, k1);
    RunOne(s1, k2);
    RunOne(s2, k3);
    RunAppend(s0, [k1], [k2]);
    RunAppend(s0, [k1] + [k2], [k3]);
    assert [k1] + [k2] + [k3] == [k1, k2, k3];
  }

  /** From 1 2 3 in four slots, typing 4 completes the input (`Complete`
      before `Change`), typing 5 changes nothing, DEL removes the 4 and ENTER
      reports "123" as incomplete. */
  lemma CompleteThenDelete()
    ensures var three := State([Some('1'), Some('2'), Some('3'), None], 3, false);
      var o := Run(three, [Key(11, ACTION_DOWN), Key(12, ACTION_DOWN), Key(KEYCODE_DEL, ACTION_DOWN),
                           Key(KEYCODE_ENTER, ACTION_DOWN)]);
      o.state == three
      && o.result == [true, true, true, true]
      && o.fired == [Complete, Change('4'), Change('4'), Enter("123", false)]
  {
    var k4, k5, k6, k7 := Key(11, ACTION_DOWN), Key(12, ACTION_DOWN), Key(KEYCODE_DEL, ACTION_DOWN), Key(KEYCODE_ENTER, ACTION_DOWN);
    var s3 := State([Some('1'), Some('2'), Some('3'), None], 3, false);
    var s4 := State([Some('1'), Some('2'), Some('3'), Some('4')], 4, true);
    assert KeyStep(s3, k4) == Outcome(s4, true, [Complete, Change('4')]);
    assert KeyStep(s4, k5) == Outcome(s4, true, []);
    assert KeyStep(s4, k6) == Outcome(s3, true, [Change('4')]);
    assert KeyStep(s3, k7) == Outcome(s3, true, [Enter("123", false)]) by {
      PasswordOfFilledPrefix(s3.slots, 3);
      assert Password(s3.slots) == "123";
    }
    RunOne(s3, k4);
    RunOne(s4, k5);
    RunOne(s4, k6);
    RunOne(s3, k7);
    RunAppend(s3, [k4], [k5]);
    RunAppend(s3, [k4] + [k5], [k6]);
    RunAppend(s3, [k4] + [k5] + [k6], [k7]);
    assert [k4] + [k5] + [k6] + [k7] == [k4, k5, k6, k7];
  }

  /** Four slots: typing 1 2 3 4 5, then DEL, then ENTER. */
  lemma FourSlotExample()
    ensures var keys := [Key(8, ACTION_DOWN), Key(9, ACTION_DOWN), Key(10, ACTION_DOWN), Key(11, ACTION_DOWN),
                         Key(12, ACTION_DOWN), Key(KEYCODE_DEL, ACTION_DOWN), Key(KEYCODE_ENTER, ACTION_DOWN)];
      var o := Run(Initial(4), keys);
      o.state == State([Some('1'), Some('2'), Some('3'), None], 3, false)
      && o.result == [true, true, true, true, true, true, true]
      && o.fired == [Change('1'), Change('2'), Change('3'), Complete, Change('4'), Change('4'), Enter("123", false)]
  {
    var typed := [Key(8, ACTION_DOWN), Key(9, ACTION_DOWN), Key(10, ACTION_DOWN)];
    var rest := [Key(11, ACTION_DOWN), Key(12, ACTION_DOWN), Key(KEYCODE_DEL, ACTION_DOWN), Key(KEYCODE_ENTER, ACTION_DOWN)];
    TypeThreeDigits();
    CompleteThenDelete();
    RunAppend(Initial(4), typed, rest);
    assert typed + rest == [Key(8, ACTION_DOWN), Key(9, ACTION_DOWN), Key(10, ACTION_DOWN), Key(11, ACTION_DOWN),
                            Key(12, ACTION_DOWN), Key(KEYCODE_DEL, ACTION_DOWN), Key(KEYCODE_ENTER, ACTION_DOWN)];
  }
}

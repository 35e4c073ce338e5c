/** The chat input box of the client (Game/Client/UI/Game/ChatBox.cs): a
    line of text with a cursor and a selection, edited by key presses while
    the box is writing, and a blinking cursor.

    The selection runs from the cursor to the cursor plus `sel`: a positive
    `sel` selects characters to the right of the cursor, a negative one
    characters to its left (Shift+Right moves the cursor right and lowers
    `sel`, so the first character the cursor passed over stays selected). */
module ChatBoxes {
  import opened Wrappers
  import opened CsMath
  import Keys

  const CursorBlinkRate := 1000

  datatype ChatBox = ChatBox(text: string, cursor: int, sel: int, isWriting: bool, blink: int)

  /** A box with no text, not writing. */
  const Initial := ChatBox("", 0, 0, false, 0)

  /** The cursor lies within the text and the selection within the text. */
  predicate Valid(cb: ChatBox) {
    0 <= cb.cursor <= |cb.text| && -cb.cursor <= cb.sel <= |cb.text| - cb.cursor
  }

  /** The two ends of the selected span. */
  function SelStart(cb: ChatBox): int { if cb.sel < 0 then cb.cursor + cb.sel else cb.cursor }
  function SelEnd(cb: ChatBox): int { if cb.sel < 0 then cb.cursor else cb.cursor + cb.sel }

  /** `s` without the `count` characters starting at `start`. */
  function Cut(s: string, start: int, count: int): (r: string)
    requires 0 <= start && 0 <= count && start + count <= |s|
    ensures |r| == |s| - count
    ensures r[..start] == s[..start] && r[start..] == s[start + count..]
  {
    s[..start] + s[start + count..]
  }

  /** The `CutOut` string extension: the cut, or `ArgumentOutOfRange` when
      the span does not lie within the string. */
  function CutOut(s: string, start: int, count: int): (r: Result<string>)
    ensures r.Success? <==> 0 <= start && 0 <= count && start + count <= |s|
    ensures r.Success? ==> r.value == Cut(s, start, count)
  {
    if 0 <= start && 0 <= count && start + count <= |s| then Success(Cut(s, start, count))
    else Failure(ArgumentOutOfRange)
  }

  /** `String.Insert` of one character. */
  function Insert(s: string, i: int, c: char): (r: string)
    requires 0 <= i <= |s|
    ensures |r| == |s| + 1 && r[i] == c
    ensures r[..i] == s[..i] && r[i + 1..] == s[i..]
  {
    s[..i] + [c] + s[i..]
  }

  /** The `CursorPosition` setter: the value clamped to [0, text length]. */
  function SetCursor(cb: ChatBox, v: int): (r: ChatBox)
    ensures r == cb.(cursor := r.cursor)
    ensures 0 <= r.cursor <= |cb.text|
    ensures 0 <= v <= |cb.text| ==> r.cursor == v
    ensures v < 0 ==> r.cursor == 0
    ensures v > |cb.text| ==> r.cursor == |cb.text|
  {
    cb.(cursor := ClampInt(v, 0, |cb.text|))
  }

  /** The `SelectionLength` setter: the value clamped to [0, text length -
      cursor]. The setter never makes the selection negative. */
  function SetSelection(cb: ChatBox, v: int): (r: ChatBox)
    requires 0 <= cb.cursor <= |cb.text|
    ensures r == cb.(sel := r.sel)
    ensures 0 <= r.sel <= |cb.text| - cb.cursor
    ensures 0 <= v <= |cb.text| - cb.cursor ==> r.sel == v
    ensures v < 0 ==> r.sel == 0
  {
    cb.(sel := ClampInt(v, 0, |cb.text| - cb.cursor))
  }

  /** `removeSelection`. As written (`asWritten`), a negative selection is
      cut at cursor - sel, to the RIGHT of the cursor: the text loses the
      span [cursor - sel, cursor - 2 * sel) and the cursor moves to its
      start; the cut throws when that span runs past the end of the text.
      Corrected, the span [cursor + sel, cursor) left of the cursor is cut
      and the cursor moves to its start. A positive selection is cut in
      place either way. The selection is cleared afterwards. */
  function RemoveSelection(cb: ChatBox, asWritten: bool): (r: Result<ChatBox>)
    requires Valid(cb)
    ensures r.Success? ==> (Valid(r.value) && r.value.sel == 0
      && r.value.isWriting == cb.isWriting && r.value.blink == cb.blink)
    ensures !asWritten ==> (r.Success?
      && r.value.text == cb.text[..SelStart(cb)] + cb.text[SelEnd(cb)..]
      && r.value.cursor == SelStart(cb))
    ensures cb.sel >= 0 ==> (r.Success?
      && r.value.text == cb.text[..cb.cursor] + cb.text[cb.cursor + cb.sel..]
      && r.value.cursor == cb.cursor)
    ensures asWritten && cb.sel < 0 ==> (r.Success? <==> cb.cursor - 2 * cb.sel <= |cb.text|)
    ensures asWritten && cb.sel < 0 && r.Success? ==>
      r.value.text == cb.text[..cb.cursor - cb.sel] + cb.text[cb.cursor - 2 * cb.sel..]
      && r.value.cursor == cb.cursor - cb.sel
  {
    if cb.sel < 0 then
      assert SelStart(cb) == cb.cursor + cb.sel && SelEnd(cb) == cb.cursor;
      RemoveLeftSelection(cb, asWritten)
    else
      assert SelStart(cb) == cb.cursor && SelEnd(cb) == cb.cursor + cb.sel;
      Success(RemoveRightSelection(cb))
  }

  /** The non-negative-selection branch of `removeSelection`: the selected
      span right of the cursor is cut and the cursor stays. */
  function RemoveRightSelection(cb: ChatBox): (r: ChatBox)
    requires Valid(cb) && cb.sel >= 0
    ensures Valid(r) && r.sel == 0 && r.isWriting == cb.isWriting && r.blink == cb.blink
    ensures r.text == cb.text[..cb.cursor] + cb.text[cb.cursor + cb.sel..] && r.cursor == cb.cursor
  {
    if cb.sel > 0 then SetSelection(cb.(text := Cut(cb.text, cb.cursor, cb.sel)), 0)
    else
      assert cb.text[..cb.cursor] + cb.text[cb.cursor..] == cb.text;
      SetSelection(cb, 0)
  }

  /** The negative-selection branch of `removeSelection`. */
  function RemoveLeftSelection(cb: ChatBox, asWritten: bool): (r: Result<ChatBox>)
    requires Valid(cb) && cb.sel < 0
    ensures r.Success? ==> (Valid(r.value) && r.value.sel == 0
      && r.value.isWriting == cb.isWriting && r.value.blink == cb.blink)
    ensures !asWritten ==> (r.Success?
      && r.value.text == cb.text[..cb.cursor + cb.sel] + cb.text[cb.cursor..]
      && r.value.cursor == cb.cursor + cb.sel)
    ensures asWritten ==> (r.Success? <==> cb.cursor - 2 * cb.sel <= |cb.text|)
    ensures asWritten && r.Success? ==>
      r.value.text == cb.text[..cb.cursor - cb.sel] + cb.text[cb.cursor - 2 * cb.sel..]
      && r.value.cursor == cb.cursor - cb.sel
  {
    var start := if asWritten then cb.cursor - cb.sel else cb.cursor + cb.sel;
    match CutOut(cb.text, start, -cb.sel)
    case Failure(e) => Failure(e)
    case Success(t) => Success(SetSelection(SetCursor(cb.(text := t), start), 0))
  }

  /** The keys the box reacts to by name; any other key types its char. */
  predicate IsEditKey(k: Keys.Key) {
    k in {Keys.Back, Keys.Delete, Keys.Left, Keys.Right, Keys.Up, Keys.Down}
  }

  /** `ChatProvider_CharPressed`: key `k` with character `c` pressed, with
      Shift and Control held as given. `asWritten` picks the selection
      removal; it is the only difference between the two behaviours. */
  function Press(cb: ChatBox, k: Keys.Key, c: char, shift: bool, ctrl: bool, asWritten: bool): (r: Result<ChatBox>)
    requires Valid(cb)
    ensures r.Success? ==> Valid(r.value) && r.value.isWriting == cb.isWriting && r.value.blink == cb.blink
    ensures !asWritten ==> r.Success?
    ensures !cb.isWriting ==> r == Success(cb)
  {
    if !cb.isWriting then Success(cb)
    else if k == Keys.Back then
      if cb.sel != 0 then RemoveSelection(cb, asWritten)
      else if cb.cursor > 0 then
        var moved := SetCursor(cb, cb.cursor - 1);
        Success(moved.(text := Cut(moved.text, moved.cursor, 1)))
      else Success(cb)
    else if k == Keys.Delete then
      if cb.sel != 0 then RemoveSelection(cb, asWritten)
      else if cb.cursor < |cb.text| then Success(cb.(text := Cut(cb.text, cb.cursor, 1)))
      else Success(cb)
    else if k == Keys.Left then
      var sel := if !shift then 0 else if cb.cursor > 0 then cb.sel + 1 else cb.sel;
      Success(SetCursor(cb.(sel := sel), cb.cursor - 1))
    else if k == Keys.Right then
      var sel := if !shift then 0 else if cb.cursor < |cb.text| then cb.sel - 1 else cb.sel;
      Success(SetCursor(cb.(sel := sel), cb.cursor + 1))
    else if k == Keys.Up || k == Keys.Down then Success(cb)
    else if k == Keys.A && ctrl then Success(cb.(cursor := 0, sel := |cb.text|))
    else if c == '\0' then Success(cb)
    else
      var cleared := if cb.sel != 0 then RemoveSelection(cb, asWritten) else Success(cb);
      match cleared
      case Failure(e) => Failure(e)
      case Success(b) => Success(SetCursor(b.(text := Insert(b.text, b.cursor, c)), b.cursor + 1))
  }

  /** The key handler as written: it throws when a selection made leftwards
      reaches past the end of the text once mirrored. */
  function CharPressedAsWritten(cb: ChatBox, k: Keys.Key, c: char, shift: bool, ctrl: bool): (r: Result<ChatBox>)
    requires Valid(cb)
    ensures r.Success? ==> Valid(r.value)
    ensures cb.sel >= 0 ==> r == Success(CharPressed(cb, k, c, shift, ctrl))
  {
    PressAgreesOnForwardSelection(cb, k, c, shift, ctrl);
    Press(cb, k, c, shift, ctrl, true)
  }

  /** Without a leftward selection the two removals coincide, and so do the
      two key handlers. */
  lemma PressAgreesOnForwardSelection(cb: ChatBox, k: Keys.Key, c: char, shift: bool, ctrl: bool)
    requires Valid(cb)
    ensures cb.sel >= 0 ==> Press(cb, k, c, shift, ctrl, true) == Press(cb, k, c, shift, ctrl, false)
  {
    if cb.sel >= 0 {
      var r1, r2 := RemoveSelection(cb, true), RemoveSelection(cb, false);
      assert r1.value == r2.value;
    }
  }

  /** The key handler with the selection removed where it is drawn. */
  function CharPressed(cb: ChatBox, k: Keys.Key, c: char, shift: bool, ctrl: bool): (r: ChatBox)
    requires Valid(cb)
    ensures Valid(r) && r.isWriting == cb.isWriting && r.blink == cb.blink
    ensures !cb.isWriting ==> r == cb
  {
    Press(cb, k, c, shift, ctrl, false).value
  }

  /** A key that types its character: not one the box reacts to by name,
      and not Ctrl+A. */
  predicate Types(k: Keys.Key, c: char, ctrl: bool) {
    !IsEditKey(k) && !(k == Keys.A && ctrl) && c != '\0'
  }

  /** Typing a character replaces the selection with it and leaves the
      cursor just after it. */
  lemma TypingReplacesSelection(cb: ChatBox, k: Keys.Key, c: char, shift: bool, ctrl: bool)
    requires Valid(cb) && cb.isWriting && Types(k, c, ctrl)
    ensures var r := CharPressed(cb, k, c, shift, ctrl);
      r.text == cb.text[..SelStart(cb)] + [c] + cb.text[SelEnd(cb)..]
      && r.cursor == SelStart(cb) + 1 && r.sel == 0
  {
    var b := RemoveSelection(cb, false).value;
    var r := CharPressed(cb, k, c, shift, ctrl);
    if cb.sel == 0 {
      assert cb.text[..SelStart(cb)] + cb.text[SelEnd(cb)..] == cb.text;
    }
    assert b.text == cb.text[..SelStart(cb)] + cb.text[SelEnd(cb)..];
    assert r.text == b.text[..b.cursor] + [c] + b.text[b.cursor..];
    assert b.text[..b.cursor] == cb.text[..SelStart(cb)];
    assert b.text[b.cursor..] == cb.text[SelEnd(cb)..];
  }

  /** Backspace right after typing a character, with nothing selected,
      takes the box back to where it was. */
  lemma {:induction false} TypeThenBackspace(cb: ChatBox, k: Keys.Key, c: char, shift: bool, ctrl: bool, c2: char, shift2: bool, ctrl2: bool)
    requires Valid(cb) && cb.isWriting && cb.sel == 0 && Types(k, c, ctrl)
    ensures CharPressed(CharPressed(cb, k, c, shift, ctrl), Keys.Back, c2, shift2, ctrl2) == cb
  {
    var typed := CharPressed(cb, k, c, shift, ctrl);
    TypingReplacesSelection(cb, k, c, shift, ctrl);
    assert typed.text == cb.text[..cb.cursor] + [c] + cb.text[cb.cursor..];
    var back := CharPressed(typed, Keys.Back, c2, shift2, ctrl2);
    assert back.cursor == cb.cursor;
    assert back.text == typed.text[..cb.cursor] + typed.text[cb.cursor + 1..];
    assert typed.text[..cb.cursor] == cb.text[..cb.cursor];
    assert typed.text[cb.cursor + 1..] == cb.text[cb.cursor..];
    assert cb.text[..cb.cursor] + cb.text[cb.cursor..] == cb.text;
  }

  /** With nothing selected, Backspace removes the character before the
      cursor and moves onto its place, and Delete removes the character
      after the cursor; at the ends of the text nothing changes. */
  lemma BackspaceAndDelete(cb: ChatBox, c: char, shift: bool, ctrl: bool)
    requires Valid(cb) && cb.isWriting && cb.sel == 0
    ensures var r := CharPressed(cb, Keys.Back, c, shift, ctrl);
      if cb.cursor == 0 then r == cb
      else r.text == cb.text[..cb.cursor - 1] + cb.text[cb.cursor..] && r.cursor == cb.cursor - 1
    ensures var r := CharPressed(cb, Keys.Delete, c, shift, ctrl);
      if cb.cursor == |cb.text| then r == cb
      else r.text == cb.text[..cb.cursor] + cb.text[cb.cursor + 1..] && r.cursor == cb.cursor
  {
  }

  /** With Shift held, Left and Right move the cursor by one within the text
      and keep the other end of the selection where it was. */
  lemma ShiftArrowsKeepAnchor(cb: ChatBox, k: Keys.Key, c: char, ctrl: bool)
    requires Valid(cb) && cb.isWriting && (k == Keys.Left || k == Keys.Right)
    ensures var r := CharPressed(cb, k, c, true, ctrl);
      r.text == cb.text && r.cursor + r.sel == cb.cursor + cb.sel
      && r.cursor == ClampInt(if k == Keys.Left then cb.cursor - 1 else cb.cursor + 1, 0, |cb.text|)
  {
  }

  /** Without Shift, Left and Right drop the selection. */
  lemma ArrowsDropSelection(cb: ChatBox, k: Keys.Key, c: char, ctrl: bool)
    requires Valid(cb) && cb.isWriting && (k == Keys.Left || k == Keys.Right)
    ensures var r := CharPressed(cb, k, c, false, ctrl);
      r.text == cb.text && r.sel == 0
      && r.cursor == ClampInt(if k == Keys.Left then cb.cursor - 1 else cb.cursor + 1, 0, |cb.text|)
  {
  }

  /** Ctrl+A selects the whole text; Up and Down and the NUL character do
      nothing. */
  lemma SelectAllAndNoOps(cb: ChatBox, k: Keys.Key, c: char, shift: bool, ctrl: bool)
    requires Valid(cb) && cb.isWriting
    ensures var r := CharPressed(cb, Keys.A, c, shift, true);
      r.text == cb.text && SelStart(r) == 0 && SelEnd(r) == |cb.text|
    ensures k == Keys.Up || k == Keys.Down ==> CharPressed(cb, k, c, shift, ctrl) == cb
    ensures !IsEditKey(k) && !(k == Keys.A && ctrl) && c == '\0' ==> CharPressed(cb, k, c, shift, ctrl) == cb
  {
  }

  /** The mirrored cut: select "a" of "abc" leftwards (Shift+Right from the
      start), then press Backspace. As written "c" is deleted and the cursor
      jumps to the end; corrected, "a" is deleted and the cursor stays at
      the start. */
  lemma RemovesWrongSide()
    ensures var cb := ChatBox("abc", 0, 0, true, 0);
      var selected := CharPressed(cb, Keys.Right, '\0', true, false);
      selected == ChatBox("abc", 1, -1, true, 0)
      && CharPressedAsWritten(selected, Keys.Back, '\U{8}', false, false) == Success(ChatBox("ab", 2, 0, true, 0))
      && CharPressed(selected, Keys.Back, '\U{8}', false, false) == ChatBox("bc", 0, 0, true, 0)
  {
    var selected := ChatBox("abc", 1, -1, true, 0);
    assert "abc"[..2] + "abc"[3..] == "ab";
    assert "abc"[..0] + "abc"[1..] == "bc";
  }

  /** Selecting the whole of "ab" leftwards and typing throws as written:
      the mirrored cut starts past the end of the text. */
  lemma RemoveThrowsAsWritten()
    ensures CharPressedAsWritten(ChatBox("ab", 2, -2, true, 0), Keys.A, 'x', false, false).Failure?
  {
  }

  /** `Update`: the chat key toggles writing, and ending a message clears
      text, cursor and selection; while writing the blink timer advances
      modulo the blink rate. */
  function Update(cb: ChatBox, chatActivated: bool, msElapsed: int): (r: ChatBox)
    requires Valid(cb)
    ensures Valid(r)
    ensures r.isWriting == (cb.isWriting != chatActivated)
    ensures chatActivated && cb.isWriting ==> r.text == "" && r.cursor == 0 && r.sel == 0
    ensures !(chatActivated && cb.isWriting) ==> r.text == cb.text && r.cursor == cb.cursor && r.sel == cb.sel
    ensures !r.isWriting ==> r.blink == cb.blink
    ensures r.isWriting ==> (r.blink - (cb.blink + msElapsed)) % CursorBlinkRate == 0
    ensures r.isWriting && 0 <= cb.blink && 0 <= msElapsed ==> 0 <= r.blink < CursorBlinkRate
  {
    var toggled :=
      if !chatActivated then cb
      else if cb.isWriting then cb.(text := "", sel := 0, cursor := 0, isWriting := false)
      else cb.(isWriting := true);
    if toggled.isWriting then
      var b := TruncRem(toggled.blink + msElapsed, CursorBlinkRate);
      TruncDivRem(toggled.blink + msElapsed, CursorBlinkRate);
      assert b - (toggled.blink + msElapsed) == -TruncDiv(toggled.blink + msElapsed, CursorBlinkRate) * CursorBlinkRate;
      toggled.(blink := b)
    else toggled
  }

  /** `CursorVisible`: the cursor shows while writing, in the first half of
      each blink period. */
  function CursorVisible(cb: ChatBox): bool {
    cb.isWriting && cb.blink < CursorBlinkRate / 2
  }

  /** The cursor blinks with the blink rate as its period: a full period
      later it shows exactly when it showed before. */
  lemma {:induction false} BlinkPeriod(cb: ChatBox)
    requires Valid(cb) && cb.isWriting && 0 <= cb.blink < CursorBlinkRate
    ensures Update(cb, false, CursorBlinkRate) == cb
    ensures CursorVisible(Update(cb, false, CursorBlinkRate)) == CursorVisible(cb)
  {
    var r := Update(cb, false, CursorBlinkRate);
    assert (r.blink - cb.blink) % CursorBlinkRate == 0;
    DivModUnique(r.blink - cb.blink, 0, r.blink - cb.blink, CursorBlinkRate);
  }

  /** Half a blink period later the cursor of a box being written to has
      toggled: it shows for the first half of the period and hides for the
      second; a box that is not being written to never shows it. */
  lemma {:induction false} CursorBlinks(cb: ChatBox)
    requires Valid(cb) && 0 <= cb.blink < CursorBlinkRate
    ensures !cb.isWriting ==> !CursorVisible(cb)
    ensures cb.isWriting ==>
      CursorVisible(Update(cb, false, CursorBlinkRate / 2)) == !CursorVisible(cb)
  {
    if cb.isWriting {
      var r := Update(cb, false, CursorBlinkRate / 2);
      var w := r.blink - (cb.blink + CursorBlinkRate / 2);
      assert w % CursorBlinkRate == 0;
      if cb.blink < CursorBlinkRate / 2 {
        if w < 0 {
          DivModUnique(w, -1, w + CursorBlinkRate, CursorBlinkRate);
        } else {
          DivModUnique(w, 0, w, CursorBlinkRate);
        }
        assert r.blink == cb.blink + CursorBlinkRate / 2;
      } else {
        if w > -CursorBlinkRate {
          DivModUnique(w, -1, w + CursorBlinkRate, CursorBlinkRate);
        } else if w < -CursorBlinkRate {
          DivModUnique(w, -2, w + 2 * CursorBlinkRate, CursorBlinkRate);
        }
        assert r.blink == cb.blink - CursorBlinkRate / 2;
      }
    }
  }
}

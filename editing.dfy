/** What single edits and single keys do, stated against the text they started from: each
    edit is taken back by one Ctrl+Z, the keys that delete remove exactly the bytes they
    name, and shifted motions grow a selection from a fixed anchor. */
module Editing {
  import ByteString
  import opened Tokens
  import opened Seeking
  import opened UndoLog
  import opened EditorModel
  import opened History

  // ---------------------------------------------------------------------------------------
  // One edit, one Ctrl+Z

  /** Ctrl+Z right after delete_action puts the bytes back and the cursor where it was; the
      DELETE moves to the redo stack. */
  lemma DeleteThenUndo(e: Editor, amount: int)
    requires Valid(e) && e.selection == -1 && amount != 0 && 0 <= e.cursor + amount
    ensures Undo(DeleteAction(e, amount)) == e.(redo := e.redo + [DeleteEntry(e.text, e.cursor, amount)])
  {
    var entry := DeleteEntry(e.text, e.cursor, amount);
    var d := DeleteAction(e, amount);
    RedoThenUndo(entry, e.text);
    assert Last(d.undo) == entry && d.undo[..|d.undo| - 1] == e.undo;
  }

  /** Ctrl+Z right after replace_action puts the replaced bytes back and restores both the
      cursor and the selection anchor. */
  lemma ReplaceThenUndo(e: Editor, text: seq<char>)
    requires Valid(e) && e.selection != -1
    ensures Undo(ReplaceAction(e, text))
            == e.(redo := e.redo + [ReplaceEntry(e.text, e.cursor, e.selection, text)])
  {
    var entry := ReplaceEntry(e.text, e.cursor, e.selection, text);
    var d := ReplaceAction(e, text);
    RedoThenUndo(entry, e.text);
    assert Last(d.undo) == entry && d.undo[..|d.undo| - 1] == e.undo;
  }

  /** Ctrl+Z right after a keystroke that starts a new undo step with no CURSOR record
      (the action on top is not an INSERT, or it is one ending at the cursor that the
      keystroke does not continue, such as a space after a word) removes what was typed and
      leaves the cursor where typing started; the redo stack then holds just that INSERT. */
  lemma InsertThenUndo(e: Editor, text: seq<char>)
    requires Valid(e) && e.selection == -1 && |text| > 0
    requires !Coalesces(e.undo, e.cursor, text)
    requires e.undo == [] || Last(e.undo).kind != Insert || Last(e.undo).cursorEnd == e.cursor
    ensures Undo(InsertAction(e, text)) == e.(redo := [InsertEntry(e.cursor, text)])
  {
    var entry := InsertEntry(e.cursor, text);
    var d := InsertAction(e, text);
    InsertEntryRedo(e.cursor, text, e.text);
    RedoThenUndo(entry, e.text);
    assert d.undo == e.undo + [entry];
    assert Last(d.undo) == entry && d.undo[..|d.undo| - 1] == e.undo;
  }

  /** Typing away from where the previous INSERT ended records the jump: the first Ctrl+Z
      removes the new text, the second one only moves the cursor back to where the previous
      INSERT ended, and the undo stack is then as before. */
  lemma InsertAfterJumpThenUndo(e: Editor, text: seq<char>)
    requires Valid(e) && Consistent(e) && |text| > 0
    requires e.undo != [] && Last(e.undo).kind == Insert && Last(e.undo).cursorEnd != e.cursor
    ensures var once := Undo(InsertAction(e, text));
            && once.text == e.text && once.cursor == e.cursor
            && once.undo == e.undo + [CursorEntry(Last(e.undo).cursorEnd, e.cursor)]
    ensures var twice := Undo(Undo(InsertAction(e, text)));
            && twice.text == e.text && twice.cursor == Last(e.undo).cursorEnd && twice.undo == e.undo
            && twice.redo == [InsertEntry(e.cursor, text), CursorEntry(Last(e.undo).cursorEnd, e.cursor)]
  {
    var p := Last(e.undo);
    assert WellFormed(e.undo[|e.undo| - 1]) && CanUndo(p, e.text);
    var jump := CursorEntry(p.cursorEnd, e.cursor);
    var entry := InsertEntry(e.cursor, text);
    var d := InsertAction(e, text);
    InsertEntryRedo(e.cursor, text, e.text);
    RedoThenUndo(entry, e.text);
    assert d.undo == (e.undo + [jump]) + [entry];
    var once := Undo(d);
    assert Last(d.undo) == entry && d.undo[..|d.undo| - 1] == e.undo + [jump];
    assert once.undo == e.undo + [jump];
    assert Last(once.undo) == jump && once.undo[..|once.undo| - 1] == e.undo;
  }

  /** A keystroke merged into the INSERT on top is taken back together with it: Ctrl+Z after
      it gives the text, cursor and undo stack that Ctrl+Z gave before it. */
  lemma CoalescedInsertThenUndo(e: Editor, text: seq<char>)
    requires Valid(e) && Consistent(e) && |text| > 0 && Coalesces(e.undo, e.cursor, text)
    ensures var after := Undo(InsertAction(e, text));
            && after.text == Undo(e).text && after.cursor == Undo(e).cursor
            && after.undo == Undo(e).undo
  {
    var p := Last(e.undo);
    var below := e.undo[..|e.undo| - 1];
    var d := InsertAction(e, text);
    assert d.undo == below + [Extended(p, text)];
    ExtendedUndo(e.text, e.cursor, p, text);
    assert Last(d.undo) == Extended(p, text) && d.undo[..|d.undo| - 1] == below;
  }

  /** Because delete_action keeps the redo stack, an undone step can be redone onto a text
      it no longer fits: type "abc", type " ", Ctrl+Z, Backspace, and the INSERT of " " on
      the redo stack points past the end of "ab" (the C++ insert would throw). */
  lemma StaleRedoAfterBackspace()
    ensures Undo(InsertAction(InsertAction(Empty, "abc"), " "))
            == Editor("abc", 3, -1, [InsertEntry(0, "abc")], [InsertEntry(3, " ")])
    ensures var stale := DeleteAction(Editor("abc", 3, -1, [InsertEntry(0, "abc")], [InsertEntry(3, " ")]), -1);
            && stale.text == "ab" && stale.redo == [InsertEntry(3, " ")]
            && !RedoFits(Last(stale.redo), stale.text) && Redo(stale) == stale
  {
    var first := InsertAction(Empty, "abc");
    assert first.undo == [InsertEntry(0, "abc")] && first.text == "abc";
    var typed := InsertAction(first, " ");
    assert !Coalesces(first.undo, 3, " ");
    assert typed.undo == [InsertEntry(0, "abc"), InsertEntry(3, " ")];
    assert typed.text == "abc ";
    var undone := Undo(typed);
    assert undone.text == "abc" && undone.cursor == 3;
    assert undone.redo == [InsertEntry(3, " ")];
    var stale := DeleteAction(undone, -1);
    assert stale.text == "ab";
  }

  /** Home at the end of the one-line text "abcd" goes to its start. */
  lemma HomeOnOneLine(typed: Editor)
    requires typed == Editor("abcd", 4, -1, [InsertEntry(0, "abcd")], [])
    ensures KeyPress(typed, Press(KeyHome, 0), false, 0) == typed.(cursor := 0)
  {
    assert LineStart("abcd", 4) == 0;
  }

  /** Home and Delete on "abcd" remove the "a" and log it. */
  lemma HomeThenDelete()
    ensures var typed := Editor("abcd", 4, -1, [InsertEntry(0, "abcd")], []);
            KeyPress(KeyPress(typed, Press(KeyHome, 0), false, 0), Press(KeyDelete, 0), false, 0)
            == Editor("bcd", 0, -1, [InsertEntry(0, "abcd"), DeleteEntry("abcd", 0, 1)], [])
  {
    var typed := Editor("abcd", 4, -1, [InsertEntry(0, "abcd")], []);
    var home := KeyPress(typed, Press(KeyHome, 0), false, 0);
    HomeOnOneLine(typed);
    assert home == typed.(cursor := 0);
    assert !Controlled(Press(KeyDelete, 0));
    assert KeyPress(home, Press(KeyDelete, 0), false, 0) == DeleteAction(home, 1);
    assert DeleteEntry("abcd", 0, 1) == UndoAction(Delete, [], "a", 0, 0, -1, -1);
    assert DeleteAction(home, 1).text == "bcd";
  }

  /** Ctrl+Z puts the "a" back and moves its DELETE to the redo stack. */
  lemma UndoPutsByteBack()
    ensures var deleted := Editor("bcd", 0, -1, [InsertEntry(0, "abcd"), DeleteEntry("abcd", 0, 1)], []);
            KeyPress(deleted, Press(KeyLowerZ, ControlMask), false, 0)
            == Editor("abcd", 0, -1, [InsertEntry(0, "abcd")], [DeleteEntry("abcd", 0, 1)])
  {
    var del := DeleteEntry("abcd", 0, 1);
    assert del == UndoAction(Delete, [], "a", 0, 0, -1, -1);
    var deleted := Editor("bcd", 0, -1, [InsertEntry(0, "abcd"), del], []);
    assert UndoneText(del, "bcd") == "abcd";
    assert Controlled(Press(KeyLowerZ, ControlMask));
    assert KeyPress(deleted, Press(KeyLowerZ, ControlMask), false, 0) == Undo(deleted);
  }

  /** Right and Backspace then remove the "a" again, and the DELETE that Ctrl+Z moved stays
      on the redo stack. */
  lemma RightThenBackSpace()
    ensures var undone := Editor("abcd", 0, -1, [InsertEntry(0, "abcd")], [DeleteEntry("abcd", 0, 1)]);
            KeyPress(KeyPress(undone, Press(KeyRight, 0), false, 0), Press(KeyBackSpace, 0), false, 0)
            == Editor("bcd", 0, -1, [InsertEntry(0, "abcd"), DeleteEntry("abcd", 1, -1)], [DeleteEntry("abcd", 0, 1)])
  {
    var undone := Editor("abcd", 0, -1, [InsertEntry(0, "abcd")], [DeleteEntry("abcd", 0, 1)]);
    var right := KeyPress(undone, Press(KeyRight, 0), false, 0);
    assert !Controlled(Press(KeyRight, 0));
    assert right == undone.(cursor := 1);
    assert !Controlled(Press(KeyBackSpace, 0));
    assert KeyPress(right, Press(KeyBackSpace, 0), false, 0) == DeleteAction(right, -1);
    assert DeleteEntry("abcd", 1, -1) == UndoAction(Delete, [], "a", 1, 0, -1, -1);
  }

  /** Ctrl+Shift+Z replays the stale DELETE on "bcd" and erases the "b"; Ctrl+Z then puts
      an "a" back. */
  lemma RedoStaleDelete()
    ensures var backspaced := Editor("bcd", 0, -1, [InsertEntry(0, "abcd"), DeleteEntry("abcd", 1, -1)],
                                     [DeleteEntry("abcd", 0, 1)]);
            var redone := KeyPress(backspaced, Press(KeyUpperZ, ControlMask), false, 0);
            && redone.text == "cd"
            && KeyPress(redone, Press(KeyLowerZ, ControlMask), false, 0).text == "acd"
  {
    var del := DeleteEntry("abcd", 0, 1);
    assert del == UndoAction(Delete, [], "a", 0, 0, -1, -1);
    var backspaced := Editor("bcd", 0, -1, [InsertEntry(0, "abcd"), DeleteEntry("abcd", 1, -1)], [del]);
    assert RedoneText(del, "bcd") == "cd";
    assert Controlled(Press(KeyUpperZ, ControlMask)) && Controlled(Press(KeyLowerZ, ControlMask));
    var redone := KeyPress(backspaced, Press(KeyUpperZ, ControlMask), false, 0);
    assert redone == Redo(backspaced);
    assert redone.text == "cd" && Last(redone.undo) == del;
    assert UndoneText(del, "cd") == "acd";
    assert KeyPress(redone, Press(KeyLowerZ, ControlMask), false, 0) == Undo(redone);
  }

  /** A stale redo record can also fit the text and edit the wrong bytes: with "abcd" typed,
      Home, Delete, Ctrl+Z, Right and Backspace leave "bcd" with the DELETE of the "a" at 0
      still on the redo stack. Ctrl+Shift+Z then erases the "b", and Ctrl+Z after it puts an
      "a" back, so redo followed by undo does not give "bcd" back. */
  lemma StaleRedoEditsWrongByte()
    ensures var typed := Editor("abcd", 4, -1, [InsertEntry(0, "abcd")], []);
            var home := KeyPress(typed, Press(KeyHome, 0), false, 0);
            var deleted := KeyPress(home, Press(KeyDelete, 0), false, 0);
            var undone := KeyPress(deleted, Press(KeyLowerZ, ControlMask), false, 0);
            var right := KeyPress(undone, Press(KeyRight, 0), false, 0);
            var backspaced := KeyPress(right, Press(KeyBackSpace, 0), false, 0);
            var redone := KeyPress(backspaced, Press(KeyUpperZ, ControlMask), false, 0);
            && backspaced.text == "bcd"
            && backspaced.redo == [DeleteEntry("abcd", 0, 1)]
            && redone.text == "cd"
            && KeyPress(redone, Press(KeyLowerZ, ControlMask), false, 0).text == "acd"
  {
    HomeThenDelete();
    UndoPutsByteBack();
    RightThenBackSpace();
    RedoStaleDelete();
  }

  // ---------------------------------------------------------------------------------------
  // Keys that delete and keys that type

  function Press(keysym: Keysym, mods: bv16): KeyEvent
  {
    KeyEvent(false, keysym, [], mods, Pressed)
  }

  /** Backspace without a selection and without Control removes the byte before the cursor
      and steps back over it; at the start of the text it does nothing. */
  lemma BackSpaceRemovesPreviousByte(e: Editor, singleLine: bool, lineTarget: int)
    requires Valid(e) && e.selection == -1 && 0 <= lineTarget <= |e.text|
    ensures var r := KeyPress(e, Press(KeyBackSpace, 0), singleLine, lineTarget);
            && (e.cursor > 0 ==> r.text == e.text[..e.cursor - 1] + e.text[e.cursor..]
                                 && r.cursor == e.cursor - 1)
            && (e.cursor == 0 ==> r == e)
  {
    assert !Controlled(Press(KeyBackSpace, 0));
  }

  /** Ctrl+Backspace removes exactly the bytes between the Ctrl+Left target and the cursor,
      leaving the cursor at that target. */
  lemma CtrlBackSpaceRemovesToWordStart(e: Editor, singleLine: bool, lineTarget: int)
    requires Valid(e) && e.selection == -1 && 0 <= lineTarget <= |e.text|
    ensures var target := SeekTokenTarget(e.text, e.cursor, Left);
            var r := KeyPress(e, Press(KeyBackSpace, ControlMask), singleLine, lineTarget);
            && r.text == e.text[..target] + e.text[e.cursor..] && r.cursor == target
            && (target < e.cursor ==> r.undo == e.undo + [DeleteEntry(e.text, e.cursor, target - e.cursor)])
  {
    var target := SeekTokenTarget(e.text, e.cursor, Left);
    var r := KeyPress(e, Press(KeyBackSpace, ControlMask), singleLine, lineTarget);
    assert Controlled(Press(KeyBackSpace, ControlMask));
    assert r == BackSpaceKey(e, true);
    if target < e.cursor {
      assert r == DeleteAction(e, target - e.cursor);
    } else {
      assert e.text[..target] + e.text[e.cursor..] == e.text;
    }
  }

  /** delete_action with a positive amount that stays inside the text removes exactly the
      bytes from the cursor up to `target` and leaves the cursor in place. */
  lemma DeleteUpTo(e: Editor, target: int)
    requires Valid(e) && e.cursor < target <= |e.text|
    ensures var r := DeleteAction(e, target - e.cursor);
            r.text == e.text[..e.cursor] + e.text[target..] && r.cursor == e.cursor
  {
    assert ByteString.Min(ByteString.Max(e.cursor, target), |e.text|) == target;
  }

  /** The Delete branch with Control and no selection removes the bytes from the cursor to
      the Ctrl+Right target. */
  lemma ControlDeleteKey(e: Editor)
    requires Valid(e) && e.selection == -1
    ensures var target := SeekTokenTarget(e.text, e.cursor, Right);
            var r := DeleteKey(e, true);
            && r.text == e.text[..e.cursor] + e.text[target..] && r.cursor == e.cursor
  {
    var target := SeekTokenTarget(e.text, e.cursor, Right);
    if e.cursor < target {
      assert Abs(e.cursor - target) == target - e.cursor;
      assert DeleteKey(e, true) == DeleteAction(e, target - e.cursor);
      DeleteUpTo(e, target);
    } else {
      assert target == e.cursor && DeleteKey(e, true) == e;
      assert e.text[..e.cursor] + e.text[e.cursor..] == e.text;
    }
  }

  /** Ctrl+Delete removes exactly the bytes between the cursor and the Ctrl+Right target;
      the cursor stays. */
  lemma CtrlDeleteRemovesToWordEnd(e: Editor, singleLine: bool, lineTarget: int)
    requires Valid(e) && e.selection == -1 && 0 <= lineTarget <= |e.text|
    ensures var target := SeekTokenTarget(e.text, e.cursor, Right);
            var r := KeyPress(e, Press(KeyDelete, ControlMask), singleLine, lineTarget);
            && r.text == e.text[..e.cursor] + e.text[target..] && r.cursor == e.cursor
  {
    assert Controlled(Press(KeyDelete, ControlMask));
    assert KeyPress(e, Press(KeyDelete, ControlMask), singleLine, lineTarget) == DeleteKey(e, true);
    ControlDeleteKey(e);
  }

  /** With a selection, typing, Backspace and Delete all replace exactly the selected bytes
      (by the typed text or by nothing) and drop the selection. */
  lemma SelectionIsReplaced(e: Editor, ev: KeyEvent, singleLine: bool, lineTarget: int)
    requires Valid(e) && e.selection != -1 && 0 <= lineTarget <= |e.text|
    requires ev.direction == Pressed
    requires ev.isString ==> |ev.str| > 0
    requires ev.isString || ev.keysym == KeyBackSpace || ev.keysym == KeyDelete
    ensures var lo := ByteString.Min(e.cursor, e.selection);
            var hi := ByteString.Max(e.cursor, e.selection);
            var typed := if ev.isString then ev.str else [];
            var r := KeyPress(e, ev, singleLine, lineTarget);
            && r.text == e.text[..lo] + typed + e.text[hi..]
            && r.cursor == lo + |typed| && r.selection == -1
  {
  }

  /** Ctrl+A selects everything: the anchor at the start, the cursor at the end. */
  lemma SelectAll(e: Editor, singleLine: bool, lineTarget: int)
    requires Valid(e) && 0 <= lineTarget <= |e.text|
    ensures var r := KeyPress(e, Press(KeyLowerA, ControlMask), singleLine, lineTarget);
            r.selection == 0 && r.cursor == |r.text| && r.text == e.text
  {
    assert Controlled(Press(KeyLowerA, ControlMask));
  }

  /** Home moves to the first byte of the cursor's line and End to the line break ending it
      (or to the end of the text); with Shift the selection grows from its anchor, and only
      the cursor and the anchor change. */
  lemma HomeAndEnd(e: Editor, mods: bv16, singleLine: bool, lineTarget: int)
    requires Valid(e) && 0 <= lineTarget <= |e.text|
    ensures MovedTo(e, KeyPress(e, Press(KeyHome, mods), singleLine, lineTarget),
                    LineStart(e.text, e.cursor), mods)
    ensures MovedTo(e, KeyPress(e, Press(KeyEnd, mods), singleLine, lineTarget),
                    LineEnd(e.text, e.cursor), mods)
    ensures var r := KeyPress(e, Press(KeyHome, mods), singleLine, lineTarget);
            && r.cursor <= e.cursor && (r.cursor == 0 || e.text[r.cursor - 1] == '\n')
            && (forall k :: r.cursor <= k < e.cursor ==> e.text[k] != '\n')
    ensures var r := KeyPress(e, Press(KeyEnd, mods), singleLine, lineTarget);
            && e.cursor <= r.cursor && (r.cursor == |e.text| || e.text[r.cursor] == '\n')
            && (forall k :: e.cursor <= k < r.cursor ==> e.text[k] != '\n')
  {
  }

  /** Without Control, Delete removes the byte after the cursor and keeps the cursor; at
      the end of the text it does nothing. */
  lemma DeleteRemovesNextByte(e: Editor, singleLine: bool, lineTarget: int)
    requires Valid(e) && e.selection == -1 && 0 <= lineTarget <= |e.text|
    ensures var r := KeyPress(e, Press(KeyDelete, 0), singleLine, lineTarget);
            && (e.cursor < |e.text| ==> r.text == e.text[..e.cursor] + e.text[e.cursor + 1..]
                                        && r.cursor == e.cursor
                                        && r.undo == e.undo + [DeleteEntry(e.text, e.cursor, 1)])
            && (e.cursor == |e.text| ==> r == e)
  {
    assert !Controlled(Press(KeyDelete, 0));
  }

  /** Backspace edits (and so refreshes the preferred column) exactly when it changes the
      editor. */
  lemma BackSpaceEditsWhenItChanges(e: Editor, control: bool)
    requires Valid(e)
    ensures BackSpaceEdits(e, control) <==> BackSpaceKey(e, control) != e
  {
    if e.selection == -1 && control {
      var left := SeekTokenTarget(e.text, e.cursor, Left);
      if left != e.cursor {
        assert BackSpaceKey(e, control) == DeleteAction(e, left - e.cursor);
        assert |BackSpaceKey(e, control).text| < |e.text|;
      }
    }
  }

  /** Delete edits (and so refreshes the preferred column) exactly when it changes the
      editor. */
  lemma DeleteEditsWhenItChanges(e: Editor, control: bool)
    requires Valid(e)
    ensures DeleteEdits(e, control) <==> DeleteKey(e, control) != e
  {
    if e.selection == -1 {
      if control {
        ControlDeleteKey(e);
        var right := SeekTokenTarget(e.text, e.cursor, Right);
        if right != e.cursor {
          assert |DeleteKey(e, control).text| < |e.text|;
        }
      } else if e.cursor < |e.text| {
        assert |DeleteKey(e, control).text| < |e.text|;
      }
    }
  }

  /** Escape keeps the cursor and drops the selection. */
  lemma EscapeDropsSelection(e: Editor, mods: bv16, singleLine: bool, lineTarget: int)
    requires Valid(e) && 0 <= lineTarget <= |e.text|
    ensures KeyPress(e, Press(KeyEscape, mods), singleLine, lineTarget) == e.(selection := -1)
  {
  }

  /** The selection anchor after a motion: an unshifted move drops it, a shifted one keeps
      it, or starts it at the cursor the motion left. */
  function AnchorAfterMove(e: Editor, mods: bv16): int
  {
    if mods & ShiftMask == 0 then -1 else if e.selection == -1 then e.cursor else e.selection
  }

  /** `r` is `e` with the cursor moved to `target` and nothing else changed but the anchor,
      which follows the rule of a motion with modifiers `mods`. */
  predicate MovedTo(e: Editor, r: Editor, target: int, mods: bv16)
  {
    && r.cursor == target && r.selection == AnchorAfterMove(e, mods)
    && r.text == e.text && r.undo == e.undo && r.redo == e.redo
  }

  /** Without Control, Left and Right step one byte, stopping at the ends of the text; only
      the cursor and the anchor change. */
  lemma ArrowsStepOneByte(e: Editor, mods: bv16, singleLine: bool, lineTarget: int)
    requires Valid(e) && 0 <= lineTarget <= |e.text| && mods & ControlMask == 0
    ensures MovedTo(e, KeyPress(e, Press(KeyLeft, mods), singleLine, lineTarget),
                    if e.cursor == 0 then 0 else e.cursor - 1, mods)
    ensures MovedTo(e, KeyPress(e, Press(KeyRight, mods), singleLine, lineTarget),
                    if e.cursor == |e.text| then e.cursor else e.cursor + 1, mods)
  {
    assert !Controlled(Press(KeyLeft, mods)) && !Controlled(Press(KeyRight, mods));
  }

  /** With Control, Left and Right jump to the word-jump target, which moves the cursor
      whenever there is text in that direction; only the cursor and the anchor change. */
  lemma CtrlArrowsJumpByWords(e: Editor, mods: bv16, singleLine: bool, lineTarget: int)
    requires Valid(e) && 0 <= lineTarget <= |e.text| && mods & ControlMask != 0
    ensures var r := KeyPress(e, Press(KeyLeft, mods), singleLine, lineTarget);
            && MovedTo(e, r, SeekTokenTarget(e.text, e.cursor, Left), mods)
            && (e.cursor > 0 ==> r.cursor < e.cursor)
    ensures var r := KeyPress(e, Press(KeyRight, mods), singleLine, lineTarget);
            && MovedTo(e, r, SeekTokenTarget(e.text, e.cursor, Right), mods)
            && (e.cursor < |e.text| ==> r.cursor > e.cursor)
  {
    assert Controlled(Press(KeyLeft, mods)) && Controlled(Press(KeyRight, mods));
    SeekTokenProgress(e.text, e.cursor, Left);
    SeekTokenProgress(e.text, e.cursor, Right);
  }

  /** Up, Down, Page Up and Page Down put the cursor on the offset the layout reports;
      only the cursor and the anchor change. */
  lemma VerticalKeysGoToLineTarget(e: Editor, mods: bv16, singleLine: bool, lineTarget: int)
    requires Valid(e) && 0 <= lineTarget <= |e.text|
    ensures MovedTo(e, KeyPress(e, Press(KeyUp, mods), singleLine, lineTarget), lineTarget, mods)
    ensures MovedTo(e, KeyPress(e, Press(KeyDown, mods), singleLine, lineTarget), lineTarget, mods)
    ensures MovedTo(e, KeyPress(e, Press(KeyPageUp, mods), singleLine, lineTarget), lineTarget, mods)
    ensures MovedTo(e, KeyPress(e, Press(KeyPageDown, mods), singleLine, lineTarget), lineTarget, mods)
  {
  }

  /** A single-line text area ignores Return. */
  lemma SingleLineIgnoresReturn(e: Editor, mods: bv16, lineTarget: int)
    requires Valid(e) && 0 <= lineTarget <= |e.text|
    ensures KeyPress(e, Press(KeyReturn, mods), true, lineTarget) == e
  {
  }

  // ---------------------------------------------------------------------------------------
  // Selections

  /** The editor after a run of cursor moves, all shifted or all unshifted. */
  function MoveAll(e: Editor, targets: seq<int>, shift: bool): Editor
    decreases |targets|
  {
    if targets == [] then e else MoveAll(MoveCursor(e, targets[0], shift), targets[1..], shift)
  }

  /** A run of shifted moves keeps the anchor where the selection started (the old anchor,
      or else the cursor before the first move) and ends with the cursor at the last target;
      a run of unshifted moves ends with nothing selected. Text and stacks do not change. */
  lemma {:induction false} ShiftedMovesKeepAnchor(e: Editor, targets: seq<int>, shift: bool)
    requires targets != [] && (shift && e.selection == -1 ==> e.cursor != -1)
    ensures var r := MoveAll(e, targets, shift);
            && r.text == e.text && r.undo == e.undo && r.redo == e.redo
            && r.cursor == targets[|targets| - 1]
            && r.selection == (if !shift then -1 else if e.selection == -1 then e.cursor else e.selection)
    decreases |targets|
  {
    var next := MoveCursor(e, targets[0], shift);
    if |targets| > 1 {
      ShiftedMovesKeepAnchor(next, targets[1..], shift);
    }
  }
}

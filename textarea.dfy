/** The TextState object of a text area (src/components.h) and the handlers that update it
    in place (src/components.cpp). Each method changes the fields the way the C++ code does,
    step by step, and is proved to end in the state the matching function of EditorModel
    describes. */
module TextArea {
  import ByteString
  import opened Tokens
  import opened Seeking
  import opened UndoLog
  import EditorModel

  class TextState {
    var text: seq<char>
    var cursor: int
    /** The x position (in layout units) vertical motion tries to keep. */
    var preferredX: int
    /** The selection anchor; -1 when nothing is selected. */
    var selectionX: int
    var redoStack: seq<UndoAction>
    var undoStack: seq<UndoAction>

    /** The editing part of the state, as a value. */
    function Model(): EditorModel.Editor
      reads this
    {
      EditorModel.Editor(text, cursor, selectionX, undoStack, redoStack)
    }

    ghost predicate Valid()
      reads this
    {
      EditorModel.Valid(Model())
    }

    /** A new TextState: empty text, cursor 0, preferred x 0, no selection, empty stacks. */
    constructor()
      ensures Model() == EditorModel.Empty && preferredX == 0 && Valid()
    {
      text := [];
      cursor := 0;
      preferredX := 0;
      selectionX := -1;
      redoStack := [];
      undoStack := [];
    }

    /** move_cursor */
    method MoveCursor(byteIndex: int, increaseSelection: bool)
      modifies this
      ensures Model() == EditorModel.MoveCursor(old(Model()), byteIndex, increaseSelection)
      ensures preferredX == old(preferredX)
    {
      if increaseSelection {
        if selectionX == -1 {
          selectionX := cursor;
        }
      } else {
        selectionX := -1;
      }
      cursor := byteIndex;
    }

    /** insert_action; `caretX` is the cursor's x position the layout reports afterwards. */
    method InsertAction(s: seq<char>, caretX: int)
      requires Valid() && |s| > 0
      modifies this
      ensures Model() == EditorModel.InsertAction(old(Model()), s)
      ensures preferredX == caretX
    {
      ghost var before := undoStack;
      ghost var at := cursor;
      var merged := false;
      if |undoStack| > 0 {
        var previous := undoStack[|undoStack| - 1];
        if previous.kind == Insert {
          if previous.cursorEnd == cursor {
            assert WellFormed(undoStack[|undoStack| - 1]);
            var lastChar := previous.insertedText[|previous.insertedText| - 1];
            var textIsSplitToken := s == " " || s == "\n" || s == "\r";
            if textIsSplitToken && lastChar == s[|s| - 1] && |s| == 1 {
              undoStack := undoStack[..|undoStack| - 1]
                + [previous.(insertedText := previous.insertedText + s,
                             cursorEnd := previous.cursorEnd + |s|)];
              merged := true;
            } else {
              if !textIsSplitToken {
                undoStack := undoStack[..|undoStack| - 1]
                  + [previous.(insertedText := previous.insertedText + s,
                               cursorEnd := previous.cursorEnd + |s|)];
                merged := true;
              }
            }
            assert merged <==> Coalesces(before, at, s);
          } else {
            undoStack := undoStack + [CursorEntry(previous.cursorEnd, cursor)];
          }
        }
      }
      if !merged {
        undoStack := undoStack + [InsertEntry(cursor, s)];
      }
      assert undoStack == LogInsert(before, at, s);
      text := ByteString.Insert(text, cursor, s);
      MoveCursor(cursor + |s|, false);
      preferredX := caretX;
      redoStack := [];
    }

    /** delete_action */
    method DeleteAction(amount: int, caretX: int)
      requires Valid() && amount != 0 && 0 <= cursor + amount
      modifies this
      ensures Model() == EditorModel.DeleteAction(old(Model()), amount)
      ensures preferredX == caretX
    {
      ghost var before := Model();
      var undoAction := NewAction(Delete);
      if amount > 0 {
        undoAction := undoAction.(replacedText := ByteString.Substr(text, cursor, amount),
                                  cursorStart := cursor, cursorEnd := cursor);
        text := ByteString.Erase(text, cursor, amount);
      } else {
        undoAction := undoAction.(replacedText := ByteString.Substr(text, cursor + amount, -amount),
                                  cursorStart := cursor, cursorEnd := cursor + amount);
        text := ByteString.Erase(text, cursor + amount, -amount);
      }
      assert undoAction == DeleteEntry(before.text, before.cursor, amount);
      assert text == RedoneText(undoAction, before.text);
      undoStack := undoStack + [undoAction];
      MoveCursor(undoAction.cursorEnd, false);
      preferredX := caretX;
    }

    /** replace_action */
    method ReplaceAction(s: seq<char>, caretX: int)
      requires Valid() && selectionX != -1
      modifies this
      ensures Model() == EditorModel.ReplaceAction(old(Model()), s)
      ensures preferredX == caretX
    {
      ghost var before := Model();
      var minPos := ByteString.Min(cursor, selectionX);
      var maxPos := ByteString.Max(cursor, selectionX);
      var undoAction := NewAction(Replace).(
        insertedText := s,
        replacedText := ByteString.Substr(text, minPos, maxPos - minPos),
        cursorStart := cursor,
        cursorEnd := minPos + |s|,
        selectionStart := selectionX,
        selectionEnd := -1);
      assert undoAction == ReplaceEntry(before.text, before.cursor, before.selection, s);
      undoStack := undoStack + [undoAction];
      text := ByteString.Erase(text, minPos, maxPos - minPos);
      text := ByteString.Insert(text, minPos, s);
      assert text == RedoneText(undoAction, before.text);
      MoveCursor(undoAction.cursorEnd, false);
      preferredX := caretX;
    }

    /** Ctrl+Z (the undo branch of textarea_handle_keypress). */
    method Undo(caretX: int)
      requires Valid()
      modifies this
      ensures Model() == EditorModel.Undo(old(Model()))
      ensures preferredX == caretX
    {
      if |undoStack| > 0 && UndoFits(undoStack[|undoStack| - 1], text) {
        ghost var before := Model();
        var action := undoStack[|undoStack| - 1];
        undoStack := undoStack[..|undoStack| - 1];
        redoStack := redoStack + [action];
        match action.kind {
        case Insert =>
          text := ByteString.Erase(text, action.cursorStart, |action.insertedText|);
          cursor := action.cursorStart;
          selectionX := -1;
        case Delete =>
          var min := ByteString.Min(action.cursorStart, action.cursorEnd);
          text := ByteString.Insert(text, min, action.replacedText);
          cursor := action.cursorStart;
          selectionX := -1;
        case Replace =>
          var at := action.cursorEnd - |action.insertedText|;
          text := ByteString.Erase(text, at, |action.insertedText|);
          text := ByteString.Insert(text, at, action.replacedText);
          cursor := action.cursorStart;
          selectionX := action.selectionStart;
        case Cursor =>
          cursor := action.cursorStart;
        }
        assert text == UndoneText(action, before.text);
        assert selectionX == UndoneSelection(action, before.selection);
        assert Model() == EditorModel.Undo(before);
      }
      preferredX := caretX;
    }

    /** Ctrl+Shift+Z (the redo branch of textarea_handle_keypress). */
    method Redo(caretX: int)
      requires Valid()
      modifies this
      ensures Model() == EditorModel.Redo(old(Model()))
      ensures preferredX == caretX
    {
      if |redoStack| > 0 && RedoFits(redoStack[|redoStack| - 1], text) {
        ghost var before := Model();
        var action := redoStack[|redoStack| - 1];
        redoStack := redoStack[..|redoStack| - 1];
        undoStack := undoStack + [action];
        match action.kind {
        case Insert =>
          text := ByteString.Insert(text, action.cursorStart, action.insertedText);
          cursor := action.cursorEnd;
          selectionX := -1;
        case Delete =>
          var min := ByteString.Min(action.cursorStart, action.cursorEnd);
          text := ByteString.Erase(text, min, |action.replacedText|);
          cursor := action.cursorEnd;
          selectionX := -1;
        case Replace =>
          var min := ByteString.Min(action.cursorStart, action.selectionStart);
          var max := ByteString.Max(action.cursorStart, action.selectionStart);
          text := ByteString.Erase(text, min, max - min);
          text := ByteString.Insert(text, min, action.insertedText);
          cursor := action.cursorEnd;
          selectionX := -1;
        case Cursor =>
          cursor := action.cursorEnd;
        }
        assert text == RedoneText(action, before.text);
        assert selectionX == RedoneSelection(action, before.selection);
        assert Model() == EditorModel.Redo(before);
      }
      preferredX := caretX;
    }

    /** Typing `s`: replace the selection if there is one, insert otherwise. */
    method TypeText(s: seq<char>, caretX: int)
      requires Valid() && |s| > 0
      modifies this
      ensures Model() == EditorModel.TypeText(old(Model()), s)
      ensures preferredX == caretX
    {
      if selectionX != -1 {
        ReplaceAction(s, caretX);
      } else {
        InsertAction(s, caretX);
      }
    }

    /** The Backspace branch of textarea_handle_keypress. */
    method BackSpaceKey(control: bool, caretX: int)
      requires Valid()
      modifies this
      ensures Model() == EditorModel.BackSpaceKey(old(Model()), control)
      ensures preferredX
              == if EditorModel.BackSpaceEdits(old(Model()), control) then caretX else old(preferredX)
    {
      if selectionX != -1 {
        ReplaceAction("", caretX);
      } else if control {
        var jumpTarget := SeekToken(text, cursor, Left);
        var absoluteDistance: int := EditorModel.Abs(cursor - jumpTarget);
        if absoluteDistance != 0 {
          DeleteAction(-absoluteDistance, caretX);
        }
      } else if |text| > 0 && cursor > 0 {
        DeleteAction(-1, caretX);
      }
    }

    /** The Delete branch of textarea_handle_keypress. */
    method DeleteKey(control: bool, caretX: int)
      requires Valid()
      modifies this
      ensures Model() == EditorModel.DeleteKey(old(Model()), control)
      ensures preferredX
              == if EditorModel.DeleteEdits(old(Model()), control) then caretX else old(preferredX)
    {
      if selectionX != -1 {
        ReplaceAction("", caretX);
      } else if control {
        var jumpTarget := SeekToken(text, cursor, Right);
        var absoluteDistance: int := EditorModel.Abs(cursor - jumpTarget);
        if absoluteDistance != 0 {
          DeleteAction(absoluteDistance, caretX);
        }
      } else if cursor < |text| {
        DeleteAction(1, caretX);
      }
    }

    /** textarea_handle_keypress. `lineTarget` is where the text layout puts the cursor for
        a vertical motion and `caretX` the cursor's x position it reports after the key. */
    method HandleKeypress(ev: EditorModel.KeyEvent, singleLine: bool, lineTarget: int, caretX: int)
      requires Valid() && (ev.isString ==> |ev.str| > 0) && 0 <= lineTarget <= |text|
      modifies this
      ensures Model() == EditorModel.KeyPress(old(Model()), ev, singleLine, lineTarget)
      ensures preferredX
              == if EditorModel.RefreshesPreferredX(old(Model()), ev, singleLine) then caretX
                 else old(preferredX)
      ensures Valid()
    {
      if ev.direction == EditorModel.Released {
        return;
      }
      var shift := ev.mods & EditorModel.ShiftMask != 0;
      var control := ev.mods & EditorModel.ControlMask != 0;
      if ev.isString {
        TypeText(ev.str, caretX);
        return;
      }
      match ev.keysym
      case KeyBackSpace =>
        BackSpaceKey(control, caretX);
      case KeyDelete =>
        DeleteKey(control, caretX);
      case KeyEscape =>
        MoveCursor(cursor, false);
      case KeyReturn =>
        if !singleLine {
          TypeText("\n", caretX);
        }
      case KeyTab =>
        TypeText("\t", caretX);
      case KeyLowerA =>
        if control {
          cursor := |text|;
          selectionX := 0;
        }
      case KeyLowerZ =>
        if control {
          Undo(caretX);
        }
      case KeyUpperZ =>
        if control {
          Redo(caretX);
        }
      case KeyLowerC =>
      case KeyLowerV =>
      case KeyHome =>
        var target := LineStartTarget(text, cursor);
        MoveCursor(target, shift);
        preferredX := caretX;
      case KeyEnd =>
        var target := LineEndTarget(text, cursor);
        MoveCursor(target, shift);
        preferredX := caretX;
      case KeyPageUp =>
        MoveCursor(lineTarget, shift);
      case KeyPageDown =>
        MoveCursor(lineTarget, shift);
      case KeyLeft =>
        if control {
          var jumpTarget := SeekToken(text, cursor, Left);
          MoveCursor(jumpTarget, shift);
        } else {
          var cursorTarget := cursor - 1;
          if cursorTarget < 0 {
            cursorTarget := 0;
          }
          MoveCursor(cursorTarget, shift);
        }
        preferredX := caretX;
      case KeyRight =>
        if control {
          var jumpTarget := SeekToken(text, cursor, Right);
          MoveCursor(jumpTarget, shift);
        } else {
          var cursorTarget := cursor + 1;
          if cursorTarget > |text| {
            cursorTarget := |text|;
          }
          MoveCursor(cursorTarget, shift);
        }
        preferredX := caretX;
      case KeyUp =>
        MoveCursor(lineTarget, shift);
      case KeyDown =>
        MoveCursor(lineTarget, shift);
      case KeyOther =>
    }
  }
}

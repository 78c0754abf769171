/** The editing state of a text area and what one key press does to it
    (move_cursor, insert_action, delete_action, replace_action and
    textarea_handle_keypress in src/components.cpp), as functions on values. The TextState
    class in textarea.dfy is proved to follow these functions step by step. */
module EditorModel {
  import ByteString
  import opened Tokens
  import opened Seeking
  import opened UndoLog

  /** The part of a TextState that editing reads and writes: the bytes, the cursor (a byte
      offset), the selection anchor (-1 when nothing is selected) and the two stacks, whose
      last element is the top. */
  datatype Editor = Editor(
    text: seq<char>,
    cursor: int,
    selection: int,
    undo: seq<UndoAction>,
    redo: seq<UndoAction>)

  /** The invariant every handler keeps: the cursor and the anchor are offsets into the text
      and every recorded action is well formed. */
  ghost predicate Valid(e: Editor)
  {
    && 0 <= e.cursor <= |e.text|
    && (e.selection == -1 || 0 <= e.selection <= |e.text|)
    && AllWellFormed(e.undo)
    && AllWellFormed(e.redo)
  }

  /** A fresh text area: empty text, cursor at 0, no selection, empty stacks. */
  const Empty: Editor := Editor([], 0, -1, [], [])

  // ---------------------------------------------------------------------------------------
  // The editing primitives

  /** move_cursor: put the cursor at `byteIndex`; a shifted move keeps the anchor where the
      selection started (and starts one at the old cursor), an unshifted move drops it. */
  function MoveCursor(e: Editor, byteIndex: int, increaseSelection: bool): (r: Editor)
    ensures r.text == e.text && r.undo == e.undo && r.redo == e.redo && r.cursor == byteIndex
    ensures !increaseSelection ==> r.selection == -1
    ensures increaseSelection && e.selection != -1 ==> r.selection == e.selection
    ensures increaseSelection && e.selection == -1 ==> r.selection == e.cursor
    ensures Valid(e) && 0 <= byteIndex <= |e.text| ==> Valid(r)
  {
    var anchor := if !increaseSelection then -1 else if e.selection == -1 then e.cursor else e.selection;
    e.(selection := anchor, cursor := byteIndex)
  }

  /** insert_action: log the keystroke, splice `text` in at the cursor, move past it, drop
      the selection and forget everything that could be redone. */
  function InsertAction(e: Editor, text: seq<char>): (r: Editor)
    requires Valid(e) && |text| > 0
    ensures Valid(r)
    ensures r.text == e.text[..e.cursor] + text + e.text[e.cursor..]
    ensures r.cursor == e.cursor + |text| && r.selection == -1 && r.redo == []
    ensures r.undo == LogInsert(e.undo, e.cursor, text)
  {
    LogInsertShape(e.undo, e.cursor, text);
    Editor(ByteString.Insert(e.text, e.cursor, text), e.cursor + |text|, -1,
           LogInsert(e.undo, e.cursor, text), [])
  }

  /** delete_action: remove `amount` bytes after the cursor (before it when negative), log
      them and leave the cursor at the start of the gap. The redo stack is left as it is. */
  function DeleteAction(e: Editor, amount: int): (r: Editor)
    requires Valid(e) && amount != 0 && 0 <= e.cursor + amount
    ensures Valid(r)
    ensures var lo := ByteString.Min(e.cursor, e.cursor + amount);
            var hi := ByteString.Min(ByteString.Max(e.cursor, e.cursor + amount), |e.text|);
            && r.text == e.text[..lo] + e.text[hi..]
            && r.cursor == lo && r.selection == -1
            && r.undo == e.undo + [DeleteEntry(e.text, e.cursor, amount)] && r.redo == e.redo
  {
    var entry := DeleteEntry(e.text, e.cursor, amount);
    var lo := ByteString.Min(e.cursor, e.cursor + amount);
    var r := Editor(RedoneText(entry, e.text), lo, -1, e.undo + [entry], e.redo);
    assert AllWellFormed(r.undo) by {
      assert forall i :: 0 <= i < |e.undo| ==> r.undo[i] == e.undo[i];
    }
    r
  }

  /** replace_action: replace the bytes between the cursor and the anchor by `text`, log
      both texts and the anchor, and leave the cursor after the new text. The redo stack is
      left as it is. */
  function ReplaceAction(e: Editor, text: seq<char>): (r: Editor)
    requires Valid(e) && e.selection != -1
    ensures Valid(r)
    ensures var lo := ByteString.Min(e.cursor, e.selection);
            var hi := ByteString.Max(e.cursor, e.selection);
            && r.text == e.text[..lo] + text + e.text[hi..]
            && r.cursor == lo + |text| && r.selection == -1
            && r.undo == e.undo + [ReplaceEntry(e.text, e.cursor, e.selection, text)]
            && r.redo == e.redo
  {
    var entry := ReplaceEntry(e.text, e.cursor, e.selection, text);
    var r := Editor(RedoneText(entry, e.text), entry.cursorEnd, -1, e.undo + [entry], e.redo);
    assert AllWellFormed(r.undo) by {
      assert forall i :: 0 <= i < |e.undo| ==> r.undo[i] == e.undo[i];
    }
    r
  }

  /** What typing `text` does: it replaces the selection when there is one and is inserted
      at the cursor otherwise. */
  function TypeText(e: Editor, text: seq<char>): (r: Editor)
    requires Valid(e) && |text| > 0
    ensures Valid(r)
  {
    if e.selection != -1 then ReplaceAction(e, text) else InsertAction(e, text)
  }

  /** Ctrl+Z: move the top action from the undo stack to the redo stack and take its effect
      back. When the action's offsets do not fit the current text the C++ code throws (or,
      for a CURSOR action, leaves the cursor outside the text); the model leaves the editor
      as it is instead. */
  function Undo(e: Editor): (r: Editor)
    requires Valid(e)
    ensures Valid(r)
    ensures e.undo == [] ==> r == e
    ensures e.undo != [] && UndoFits(Last(e.undo), e.text) ==>
              var a := Last(e.undo);
              && r.text == UndoneText(a, e.text) && r.cursor == a.cursorStart
              && r.selection == UndoneSelection(a, e.selection)
              && r.undo + [a] == e.undo && r.redo == e.redo + [a]
  {
    if e.undo == [] then e
    else
      var a := Last(e.undo);
      if !UndoFits(a, e.text) then e
      else
        var r := Editor(UndoneText(a, e.text), a.cursorStart, UndoneSelection(a, e.selection),
                        e.undo[..|e.undo| - 1], e.redo + [a]);
        assert WellFormed(e.undo[|e.undo| - 1]);
        assert AllWellFormed(r.redo) by {
          assert forall i :: 0 <= i < |e.redo| ==> r.redo[i] == e.redo[i];
        }
        assert r.undo + [a] == e.undo;
        r
  }

  /** Ctrl+Shift+Z: move the top action from the redo stack back to the undo stack and do
      it again; guarded like Undo. */
  function Redo(e: Editor): (r: Editor)
    requires Valid(e)
    ensures Valid(r)
    ensures e.redo == [] ==> r == e
    ensures e.redo != [] && RedoFits(Last(e.redo), e.text) ==>
              var a := Last(e.redo);
              && r.text == RedoneText(a, e.text) && r.cursor == a.cursorEnd
              && r.selection == RedoneSelection(a, e.selection)
              && r.undo == e.undo + [a] && r.redo + [a] == e.redo
  {
    if e.redo == [] then e
    else
      var a := Last(e.redo);
      if !RedoFits(a, e.text) then e
      else
        var r := Editor(RedoneText(a, e.text), a.cursorEnd, RedoneSelection(a, e.selection),
                        e.undo + [a], e.redo[..|e.redo| - 1]);
        assert WellFormed(e.redo[|e.redo| - 1]);
        assert AllWellFormed(r.undo) by {
          assert forall i :: 0 <= i < |e.undo| ==> r.undo[i] == e.undo[i];
        }
        assert r.redo + [a] == e.redo;
        assert -1 <= RedoneSelection(a, e.selection);
        r
  }

  // ---------------------------------------------------------------------------------------
  // Key events

  /** The key symbols the handler tells apart; every other symbol is KeyOther. */
  datatype Keysym =
    | KeyBackSpace | KeyDelete | KeyEscape | KeyReturn | KeyTab
    | KeyLowerA | KeyLowerZ | KeyUpperZ | KeyLowerC | KeyLowerV
    | KeyHome | KeyEnd | KeyPageUp | KeyPageDown
    | KeyLeft | KeyRight | KeyUp | KeyDown
    | KeyOther

  datatype KeyDirection = Pressed | Released

  /** One key event as the window system hands it over: whether it produced text, the key
      symbol, the text it produced, the modifier mask and the direction. */
  datatype KeyEvent = KeyEvent(
    isString: bool,
    keysym: Keysym,
    str: seq<char>,
    mods: bv16,
    direction: KeyDirection)

  /** XCB_MOD_MASK_SHIFT and XCB_MOD_MASK_CONTROL. */
  const ShiftMask: bv16 := 1
  const ControlMask: bv16 := 4

  predicate Shifted(ev: KeyEvent) { ev.mods & ShiftMask != 0 }
  predicate Controlled(ev: KeyEvent) { ev.mods & ControlMask != 0 }

  function Abs(x: int): nat { if x < 0 then -x else x }

  /** Backspace: the selection goes if there is one; with Control the bytes back to the
      word-jump target go (if any); otherwise the byte before the cursor goes, if any. */
  function BackSpaceKey(e: Editor, control: bool): (r: Editor)
    requires Valid(e)
    ensures Valid(r)
  {
    if e.selection != -1 then ReplaceAction(e, "")
    else if control then
      var jumpTarget := SeekTokenTarget(e.text, e.cursor, Left);
      var distance: int := Abs(e.cursor - jumpTarget);
      if distance != 0 then DeleteAction(e, -distance) else e
    else if |e.text| > 0 && e.cursor > 0 then DeleteAction(e, -1)
    else e
  }

  /** Whether Backspace calls an editing action (and with it update_preffered_x). */
  predicate BackSpaceEdits(e: Editor, control: bool)
    requires Valid(e)
  {
    || e.selection != -1
    || (if control then SeekTokenTarget(e.text, e.cursor, Left) != e.cursor
        else |e.text| > 0 && e.cursor > 0)
  }

  /** Whether Delete calls an editing action. */
  predicate DeleteEdits(e: Editor, control: bool)
    requires Valid(e)
  {
    || e.selection != -1
    || (if control then SeekTokenTarget(e.text, e.cursor, Right) != e.cursor
        else e.cursor < |e.text|)
  }

  /** Delete: the selection goes if there is one; with Control the bytes up to the
      word-jump target go (if any); otherwise the byte after the cursor goes, if any. */
  function DeleteKey(e: Editor, control: bool): (r: Editor)
    requires Valid(e)
    ensures Valid(r)
  {
    if e.selection != -1 then ReplaceAction(e, "")
    else if control then
      var jumpTarget := SeekTokenTarget(e.text, e.cursor, Right);
      var distance: int := Abs(e.cursor - jumpTarget);
      if distance != 0 then DeleteAction(e, distance) else e
    else if e.cursor < |e.text| then DeleteAction(e, 1)
    else e
  }

  /** textarea_handle_keypress. `singleLine` is the text area's single_line flag and
      `lineTarget` is the byte offset the text layout reports for a vertical motion
      (Page Up, Page Down, Up, Down); an event that produces text carries a non-empty
      string. */
  function KeyPress(e: Editor, ev: KeyEvent, singleLine: bool, lineTarget: int): (r: Editor)
    requires Valid(e) && (ev.isString ==> |ev.str| > 0) && 0 <= lineTarget <= |e.text|
    ensures Valid(r)
  {
    var shift := Shifted(ev);
    var control := Controlled(ev);
    if ev.direction == Released then e
    else if ev.isString then TypeText(e, ev.str)
    else
      match ev.keysym
      case KeyBackSpace => BackSpaceKey(e, control)
      case KeyDelete => DeleteKey(e, control)
      case KeyEscape => MoveCursor(e, e.cursor, false)
      case KeyReturn => if singleLine then e else TypeText(e, "\n")
      case KeyTab => TypeText(e, "\t")
      case KeyLowerA => if control then e.(cursor := |e.text|, selection := 0) else e
      case KeyLowerZ => if control then Undo(e) else e
      case KeyUpperZ => if control then Redo(e) else e
      case KeyLowerC => e
      case KeyLowerV => e
      case KeyHome => MoveCursor(e, LineStart(e.text, e.cursor), shift)
      case KeyEnd => MoveCursor(e, LineEnd(e.text, e.cursor), shift)
      case KeyPageUp => MoveCursor(e, lineTarget, shift)
      case KeyPageDown => MoveCursor(e, lineTarget, shift)
      case KeyLeft =>
        if control then MoveCursor(e, SeekTokenTarget(e.text, e.cursor, Left), shift)
        else MoveCursor(e, if e.cursor - 1 < 0 then 0 else e.cursor - 1, shift)
      case KeyRight =>
        if control then MoveCursor(e, SeekTokenTarget(e.text, e.cursor, Right), shift)
        else MoveCursor(e, if e.cursor + 1 > |e.text| then |e.text| else e.cursor + 1, shift)
      case KeyUp => MoveCursor(e, lineTarget, shift)
      case KeyDown => MoveCursor(e, lineTarget, shift)
      case KeyOther => e
  }

  /** Whether the handler asks the layout for the cursor's new x position
      (update_preffered_x) while handling `ev`: every edit, undo and redo with Control,
      Home, End, Left and Right; vertical motions keep the remembered column. */
  function RefreshesPreferredX(e: Editor, ev: KeyEvent, singleLine: bool): (b: bool)
    requires Valid(e)
    ensures ev.direction == Released ==> !b
    ensures (ev.direction == Pressed && !ev.isString
             && ev.keysym in {KeyEscape, KeyPageUp, KeyPageDown, KeyUp, KeyDown, KeyOther}) ==> !b
  {
    var control := Controlled(ev);
    if ev.direction == Released then false
    else if ev.isString then true
    else
      match ev.keysym
      case KeyBackSpace => BackSpaceEdits(e, control)
      case KeyDelete => DeleteEdits(e, control)
      case KeyReturn => !singleLine
      case KeyTab => true
      case KeyLowerZ => control
      case KeyUpperZ => control
      case KeyHome => true
      case KeyEnd => true
      case KeyLeft => true
      case KeyRight => true
      case _ => false
  }
}

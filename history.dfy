/** What the undo and redo stacks promise: every recorded step can be taken back (and
    every undone step done again) in order, undo and redo are inverse to each other, and
    each editing key keeps the stacks consistent with the text, except for the redo stack
    after a delete or a replacement, which the source leaves in place. */
module History {
  import ByteString
  import opened Tokens
  import opened Seeking
  import opened UndoLog
  import opened EditorModel

  // ---------------------------------------------------------------------------------------
  // Consistent stacks

  /** Undoing the stack from the top down on `text` never hits an offset that does not fit
      and always finds the bytes each action put in. */
  ghost predicate UndoChain(text: seq<char>, undo: seq<UndoAction>)
    decreases |undo|
  {
    undo == []
    || (CanUndo(Last(undo), text) && UndoChain(UndoneText(Last(undo), text), undo[..|undo| - 1]))
  }

  /** The text that undoing the whole stack gives back. */
  ghost function Origin(text: seq<char>, undo: seq<UndoAction>): seq<char>
    requires UndoChain(text, undo)
    decreases |undo|
  {
    if undo == [] then text else Origin(UndoneText(Last(undo), text), undo[..|undo| - 1])
  }

  /** Redoing the stack from the top down on `text` always finds the bytes each action takes
      out where it expects them. */
  ghost predicate RedoChain(text: seq<char>, redo: seq<UndoAction>)
    decreases |redo|
  {
    redo == []
    || (CanRedo(Last(redo), text) && RedoChain(RedoneText(Last(redo), text), redo[..|redo| - 1]))
  }

  ghost predicate Consistent(e: Editor)
  {
    UndoChain(e.text, e.undo) && RedoChain(e.text, e.redo)
  }

  /** Pushing an action that can be undone on top of a consistent undo stack keeps it
      consistent, and undoing everything still leads to the same text. */
  lemma PushUndo(t: seq<char>, undo: seq<UndoAction>, a: UndoAction, t2: seq<char>)
    requires UndoChain(t, undo) && CanUndo(a, t2) && UndoneText(a, t2) == t
    ensures UndoChain(t2, undo + [a]) && Origin(t2, undo + [a]) == Origin(t, undo)
  {
    assert (undo + [a])[..|undo|] == undo;
  }

  lemma PushRedo(t: seq<char>, redo: seq<UndoAction>, a: UndoAction, t2: seq<char>)
    requires RedoChain(t, redo) && CanRedo(a, t2) && RedoneText(a, t2) == t
    ensures RedoChain(t2, redo + [a])
  {
    assert (redo + [a])[..|redo|] == redo;
  }

  // ---------------------------------------------------------------------------------------
  // Undo and redo

  /** On consistent stacks Ctrl+Z always takes the top action back (the guard never fires),
      keeps the stacks consistent and does not change what undoing everything gives. */
  lemma UndoKeepsConsistent(e: Editor)
    requires Valid(e) && Consistent(e)
    ensures Consistent(Undo(e))
    ensures Origin(Undo(e).text, Undo(e).undo) == Origin(e.text, e.undo)
    ensures e.undo != [] ==> |Undo(e).undo| == |e.undo| - 1 && |Undo(e).redo| == |e.redo| + 1
  {
    if e.undo != [] {
      var a := Last(e.undo);
      var r := Undo(e);
      assert r.undo == e.undo[..|e.undo| - 1];
      UndoThenRedo(a, e.text);
      PushRedo(e.text, e.redo, a, r.text);
    }
  }

  /** On consistent stacks Ctrl+Shift+Z always does the top action again, keeps the stacks
      consistent and does not change what undoing everything gives. */
  lemma RedoKeepsConsistent(e: Editor)
    requires Valid(e) && Consistent(e)
    ensures Consistent(Redo(e))
    ensures Origin(Redo(e).text, Redo(e).undo) == Origin(e.text, e.undo)
    ensures e.redo != [] ==> |Redo(e).redo| == |e.redo| - 1 && |Redo(e).undo| == |e.undo| + 1
  {
    if e.redo != [] {
      var a := Last(e.redo);
      var r := Redo(e);
      assert r.redo == e.redo[..|e.redo| - 1];
      RedoThenUndo(a, e.text);
      PushUndo(e.text, e.undo, a, r.text);
    }
  }

  /** Ctrl+Z then Ctrl+Shift+Z gives back the text and both stacks, and a second Ctrl+Z
      lands exactly where the first one did. */
  lemma UndoThenRedoRestores(e: Editor)
    requires Valid(e) && Consistent(e) && e.undo != []
    ensures Redo(Undo(e)).text == e.text
    ensures Redo(Undo(e)).undo == e.undo && Redo(Undo(e)).redo == e.redo
    ensures Undo(Redo(Undo(e))) == Undo(e)
  {
    var a := Last(e.undo);
    var u := Undo(e);
    UndoThenRedo(a, e.text);
    assert Last(u.redo) == a && u.redo[..|u.redo| - 1] == e.redo;
    var back := Redo(u);
    assert back.undo == e.undo;
    assert Last(back.undo) == a && back.undo[..|back.undo| - 1] == u.undo;
  }

  /** Ctrl+Shift+Z then Ctrl+Z gives back the text and both stacks, and a second
      Ctrl+Shift+Z lands exactly where the first one did. */
  lemma RedoThenUndoRestores(e: Editor)
    requires Valid(e) && Consistent(e) && e.redo != []
    ensures Undo(Redo(e)).text == e.text
    ensures Undo(Redo(e)).undo == e.undo && Undo(Redo(e)).redo == e.redo
    ensures Redo(Undo(Redo(e))) == Redo(e)
  {
    var a := Last(e.redo);
    var d := Redo(e);
    RedoThenUndo(a, e.text);
    assert Last(d.undo) == a && d.undo[..|d.undo| - 1] == e.undo;
    var back := Undo(d);
    assert back.redo == e.redo;
    assert Last(back.redo) == a && back.redo[..|back.redo| - 1] == d.redo;
  }

  // ---------------------------------------------------------------------------------------
  // Edits

  /** Typing at the end of the INSERT on top: the grown INSERT still finds its bytes, and
      taking it back gives what taking back the old one gave. */
  lemma ExtendedUndo(t: seq<char>, cursor: nat, p: UndoAction, text: seq<char>)
    requires CanUndo(p, t) && p.kind == Insert && p.cursorEnd == cursor && cursor <= |t|
    requires |text| > 0
    ensures CanUndo(Extended(p, text), ByteString.Insert(t, cursor, text))
    ensures UndoneText(Extended(p, text), ByteString.Insert(t, cursor, text)) == UndoneText(p, t)
  {
    var t2 := ByteString.Insert(t, cursor, text);
    var q := Extended(p, text);
    var cs := p.cursorStart;
    assert t2[cs..cursor] == t[cs..cursor];
    assert t2[cs..q.cursorEnd] == t2[cs..cursor] + t2[cursor..cursor + |text|];
    assert t2[..cs] == t[..cs];
    assert t2[q.cursorEnd..] == t[cursor..];
  }

  /** A keystroke merged into the INSERT on top keeps the undo chain and its origin. */
  lemma CoalescedKeepsUndoChain(t: seq<char>, c: nat, u: seq<UndoAction>, text: seq<char>)
    requires UndoChain(t, u) && AllWellFormed(u) && c <= |t| && |text| > 0 && Coalesces(u, c, text)
    ensures var t2 := ByteString.Insert(t, c, text);
            UndoChain(t2, LogInsert(u, c, text)) && Origin(t2, LogInsert(u, c, text)) == Origin(t, u)
  {
    var t2 := ByteString.Insert(t, c, text);
    var p := Last(u);
    var below := u[..|u| - 1];
    assert LogInsert(u, c, text) == below + [Extended(p, text)];
    ExtendedUndo(t, c, p, text);
    PushUndo(UndoneText(p, t), below, Extended(p, text), t2);
  }

  /** A keystroke that starts a new INSERT (after a CURSOR action when the cursor moved away
      from the INSERT on top) keeps the undo chain and its origin. */
  lemma FreshInsertKeepsUndoChain(t: seq<char>, c: nat, u: seq<UndoAction>, text: seq<char>)
    requires UndoChain(t, u) && AllWellFormed(u) && c <= |t| && |text| > 0 && !Coalesces(u, c, text)
    ensures var t2 := ByteString.Insert(t, c, text);
            UndoChain(t2, LogInsert(u, c, text)) && Origin(t2, LogInsert(u, c, text)) == Origin(t, u)
  {
    var t2 := ByteString.Insert(t, c, text);
    var entry := InsertEntry(c, text);
    InsertEntryRedo(c, text, t);
    RedoThenUndo(entry, t);
    if u != [] && Last(u).kind == Insert && Last(u).cursorEnd != c {
      var p := Last(u);
      assert WellFormed(u[|u| - 1]);
      var jump := CursorEntry(p.cursorEnd, c);
      assert LogInsert(u, c, text) == (u + [jump]) + [entry];
      PushUndo(t, u, jump, t);
      PushUndo(t, u + [jump], entry, t2);
    } else {
      assert LogInsert(u, c, text) == u + [entry];
      PushUndo(t, u, entry, t2);
    }
  }

  /** insert_action keeps both stacks consistent (it empties the redo stack) and leaves what
      undoing everything gives unchanged. */
  lemma InsertKeepsConsistent(e: Editor, text: seq<char>)
    requires Valid(e) && Consistent(e) && |text| > 0
    ensures Consistent(InsertAction(e, text))
    ensures var r := InsertAction(e, text); Origin(r.text, r.undo) == Origin(e.text, e.undo)
  {
    if Coalesces(e.undo, e.cursor, text) {
      CoalescedKeepsUndoChain(e.text, e.cursor, e.undo, text);
    } else {
      FreshInsertKeepsUndoChain(e.text, e.cursor, e.undo, text);
    }
  }

  /** delete_action keeps the undo stack consistent and leaves what undoing everything gives
      unchanged. It does not touch the redo stack, which may then no longer match the text
      (see StaleRedoAfterBackspace). */
  lemma DeleteKeepsUndoChain(e: Editor, amount: int)
    requires Valid(e) && UndoChain(e.text, e.undo) && amount != 0 && 0 <= e.cursor + amount
    ensures var r := DeleteAction(e, amount);
            UndoChain(r.text, r.undo) && Origin(r.text, r.undo) == Origin(e.text, e.undo)
  {
    var entry := DeleteEntry(e.text, e.cursor, amount);
    RedoThenUndo(entry, e.text);
    PushUndo(e.text, e.undo, entry, DeleteAction(e, amount).text);
  }

  /** replace_action keeps the undo stack consistent and leaves what undoing everything
      gives unchanged; like delete_action it does not touch the redo stack. */
  lemma ReplaceKeepsUndoChain(e: Editor, text: seq<char>)
    requires Valid(e) && UndoChain(e.text, e.undo) && e.selection != -1
    ensures var r := ReplaceAction(e, text);
            UndoChain(r.text, r.undo) && Origin(r.text, r.undo) == Origin(e.text, e.undo)
  {
    var entry := ReplaceEntry(e.text, e.cursor, e.selection, text);
    RedoThenUndo(entry, e.text);
    PushUndo(e.text, e.undo, entry, ReplaceAction(e, text).text);
  }

  /** Ctrl+Z keeps the undo stack consistent with the text and leaves what undoing
      everything gives unchanged, whatever the redo stack holds. */
  lemma UndoKeepsUndoChain(e: Editor)
    requires Valid(e) && UndoChain(e.text, e.undo)
    ensures UndoChain(Undo(e).text, Undo(e).undo)
    ensures Origin(Undo(e).text, Undo(e).undo) == Origin(e.text, e.undo)
  {
    if e.undo != [] {
      assert Undo(e).undo == e.undo[..|e.undo| - 1];
    }
  }

  /** Ctrl+Shift+Z as a key: the key event that redoes. */
  predicate IsRedoKey(ev: KeyEvent)
  {
    ev.direction == Pressed && !ev.isString && ev.keysym == KeyUpperZ && Controlled(ev)
  }

  /** Every key press keeps the undo stack consistent with the text, so Ctrl+Z can always
      take every step back down to the same original text. Ctrl+Shift+Z needs a redo stack
      that still matches the text for this. The redo stack stays consistent too, except when
      the key changed the text and left a non-empty redo stack in place, which only
      Backspace, Delete and typing over a selection do. */
  lemma KeyPressKeepsUndoChain(e: Editor, ev: KeyEvent, singleLine: bool, lineTarget: int)
    requires Valid(e) && (ev.isString ==> |ev.str| > 0) && 0 <= lineTarget <= |e.text|
    requires UndoChain(e.text, e.undo) && (IsRedoKey(ev) ==> RedoChain(e.text, e.redo))
    ensures var r := KeyPress(e, ev, singleLine, lineTarget);
            UndoChain(r.text, r.undo) && Origin(r.text, r.undo) == Origin(e.text, e.undo)
    ensures var r := KeyPress(e, ev, singleLine, lineTarget);
            RedoChain(e.text, e.redo) ==>
              RedoChain(r.text, r.redo) || (r.text != e.text && r.redo == e.redo && r.redo != [])
  {
    var r := KeyPress(e, ev, singleLine, lineTarget);
    var control := Controlled(ev);
    if ev.direction == Released {
    } else if ev.isString {
      assert r == TypeText(e, ev.str);
      TypeTextKeepsUndoChain(e, ev.str);
    } else {
      match ev.keysym
      case KeyBackSpace =>
        assert r == BackSpaceKey(e, control);
        BackSpaceKeepsUndoChain(e, control);
      case KeyDelete =>
        assert r == DeleteKey(e, control);
        DeleteKeyKeepsUndoChain(e, control);
      case KeyReturn =>
        if !singleLine {
          assert r == TypeText(e, "\n");
          TypeTextKeepsUndoChain(e, "\n");
        }
      case KeyTab =>
        assert r == TypeText(e, "\t");
        TypeTextKeepsUndoChain(e, "\t");
      case KeyLowerZ =>
        if control {
          assert r == Undo(e);
          UndoKeepsUndoChain(e);
          if RedoChain(e.text, e.redo) {
            UndoKeepsConsistent(e);
          }
        }
      case KeyUpperZ =>
        if control {
          assert r == Redo(e);
          RedoKeepsConsistent(e);
        }
      case _ =>
        assert r.text == e.text && r.undo == e.undo && r.redo == e.redo;
    }
  }

  lemma TypeTextKeepsUndoChain(e: Editor, text: seq<char>)
    requires Valid(e) && UndoChain(e.text, e.undo) && |text| > 0
    ensures var r := TypeText(e, text);
            && UndoChain(r.text, r.undo) && Origin(r.text, r.undo) == Origin(e.text, e.undo)
            && (RedoChain(e.text, e.redo) ==>
                  RedoChain(r.text, r.redo) || (r.text != e.text && r.redo == e.redo && r.redo != []))
  {
    if e.selection != -1 {
      ReplaceKeepsUndoChain(e, text);
    } else if Coalesces(e.undo, e.cursor, text) {
      CoalescedKeepsUndoChain(e.text, e.cursor, e.undo, text);
    } else {
      FreshInsertKeepsUndoChain(e.text, e.cursor, e.undo, text);
    }
  }

  lemma BackSpaceKeepsUndoChain(e: Editor, control: bool)
    requires Valid(e) && UndoChain(e.text, e.undo)
    ensures var r := BackSpaceKey(e, control);
            && UndoChain(r.text, r.undo) && Origin(r.text, r.undo) == Origin(e.text, e.undo)
            && (RedoChain(e.text, e.redo) ==>
                  RedoChain(r.text, r.redo) || (r.text != e.text && r.redo == e.redo && r.redo != []))
  {
    if e.selection != -1 {
      ReplaceKeepsUndoChain(e, "");
    } else if control {
      var target := SeekTokenTarget(e.text, e.cursor, Left);
      var distance: int := Abs(e.cursor - target);
      if distance != 0 {
        assert target - e.cursor == -distance;
        assert BackSpaceKey(e, control) == DeleteAction(e, target - e.cursor);
        DeleteShortens(e, target - e.cursor);
      } else {
        assert BackSpaceKey(e, control) == e;
      }
    } else if |e.text| > 0 && e.cursor > 0 {
      assert BackSpaceKey(e, control) == DeleteAction(e, -1);
      DeleteShortens(e, -1);
    } else {
      assert BackSpaceKey(e, control) == e;
    }
  }

  lemma DeleteKeyKeepsUndoChain(e: Editor, control: bool)
    requires Valid(e) && UndoChain(e.text, e.undo)
    ensures var r := DeleteKey(e, control);
            && UndoChain(r.text, r.undo) && Origin(r.text, r.undo) == Origin(e.text, e.undo)
            && (RedoChain(e.text, e.redo) ==>
                  RedoChain(r.text, r.redo) || (r.text != e.text && r.redo == e.redo && r.redo != []))
  {
    if e.selection != -1 {
      ReplaceKeepsUndoChain(e, "");
    } else if control {
      var target := SeekTokenTarget(e.text, e.cursor, Right);
      var distance: int := Abs(e.cursor - target);
      if distance != 0 {
        assert target - e.cursor == distance;
        assert DeleteKey(e, control) == DeleteAction(e, target - e.cursor);
        DeleteShortens(e, target - e.cursor);
      } else {
        assert DeleteKey(e, control) == e;
      }
    } else if e.cursor < |e.text| {
      assert DeleteKey(e, control) == DeleteAction(e, 1);
      DeleteShortens(e, 1);
    } else {
      assert DeleteKey(e, control) == e;
    }
  }

  /** A delete that removes at least one byte keeps the undo chain, and changes the text, so
      a redo stack it leaves in place is either empty or flagged as possibly stale. */
  lemma DeleteShortens(e: Editor, amount: int)
    requires Valid(e) && UndoChain(e.text, e.undo) && amount != 0 && 0 <= e.cursor + amount
    requires e.cursor + amount <= |e.text|
    ensures var r := DeleteAction(e, amount);
            && UndoChain(r.text, r.undo) && Origin(r.text, r.undo) == Origin(e.text, e.undo)
            && (RedoChain(r.text, r.redo) || (r.text != e.text && r.redo == e.redo && r.redo != []))
  {
    DeleteKeepsUndoChain(e, amount);
    assert |DeleteAction(e, amount).text| < |e.text|;
  }

  // ---------------------------------------------------------------------------------------
  // Runs of keys

  /** The layout's index for a vertical move lies in the text; a value outside is clamped. */
  function InText(i: int, t: seq<char>): (r: int)
    ensures 0 <= r <= |t|
    ensures 0 <= i <= |t| ==> r == i
  {
    if i < 0 then 0 else if i > |t| then |t| else i
  }

  /** The editor after a run of key presses; `lineTargets[i]` is the index the layout reports
      for a vertical move at the i-th key. */
  function KeyPresses(e: Editor, keys: seq<KeyEvent>, singleLine: bool, lineTargets: seq<int>): (r: Editor)
    requires Valid(e) && |lineTargets| == |keys|
    requires forall i :: 0 <= i < |keys| ==> (keys[i].isString ==> |keys[i].str| > 0)
    ensures Valid(r)
    decreases |keys|
  {
    if keys == [] then e
    else
      var next := KeyPress(e, keys[0], singleLine, InText(lineTargets[0], e.text));
      KeyPresses(next, keys[1..], singleLine, lineTargets[1..])
  }

  /** Ctrl+Z pressed `n` times. */
  function UndoTimes(e: Editor, n: nat): (r: Editor)
    requires Valid(e)
    ensures Valid(r)
    decreases n
  {
    if n == 0 then e else UndoTimes(Undo(e), n - 1)
  }

  /** On a consistent undo stack, pressing Ctrl+Z once per recorded action empties the stack
      and gives back exactly the text that undoing everything promises. */
  lemma {:induction false} UndoAllReachesOrigin(e: Editor)
    requires Valid(e) && UndoChain(e.text, e.undo)
    ensures UndoTimes(e, |e.undo|).text == Origin(e.text, e.undo)
    ensures UndoTimes(e, |e.undo|).undo == []
    decreases |e.undo|
  {
    if e.undo != [] {
      var u := Undo(e);
      assert u.undo == e.undo[..|e.undo| - 1];
      assert u.text == UndoneText(Last(e.undo), e.text);
      UndoAllReachesOrigin(u);
    }
  }

  /** A run of keys without Ctrl+Shift+Z keeps the undo stack consistent with the text and
      leaves what undoing everything gives unchanged. */
  lemma {:induction false} KeyPressesKeepUndoChain(e: Editor, keys: seq<KeyEvent>, singleLine: bool,
                                                   lineTargets: seq<int>)
    requires Valid(e) && |lineTargets| == |keys|
    requires forall i :: 0 <= i < |keys| ==> (keys[i].isString ==> |keys[i].str| > 0)
    requires forall i :: 0 <= i < |keys| ==> !IsRedoKey(keys[i])
    requires UndoChain(e.text, e.undo)
    ensures var r := KeyPresses(e, keys, singleLine, lineTargets);
            UndoChain(r.text, r.undo) && Origin(r.text, r.undo) == Origin(e.text, e.undo)
    decreases |keys|
  {
    if keys != [] {
      var next := KeyPress(e, keys[0], singleLine, InText(lineTargets[0], e.text));
      KeyPressKeepsUndoChain(e, keys[0], singleLine, InText(lineTargets[0], e.text));
      KeyPressesKeepUndoChain(next, keys[1..], singleLine, lineTargets[1..]);
    }
  }

  /** Whatever is typed, deleted, replaced, moved, selected or undone in a fresh text area
      (without Ctrl+Shift+Z), pressing Ctrl+Z once per recorded action gives back the empty
      text. */
  lemma EditThenUndoAllIsEmpty(keys: seq<KeyEvent>, singleLine: bool, lineTargets: seq<int>)
    requires |lineTargets| == |keys|
    requires forall i :: 0 <= i < |keys| ==> (keys[i].isString ==> |keys[i].str| > 0)
    requires forall i :: 0 <= i < |keys| ==> !IsRedoKey(keys[i])
    ensures var r := KeyPresses(Empty, keys, singleLine, lineTargets);
            UndoTimes(r, |r.undo|).text == [] && UndoTimes(r, |r.undo|).undo == []
  {
    EmptyIsConsistent();
    KeyPressesKeepUndoChain(Empty, keys, singleLine, lineTargets);
    UndoAllReachesOrigin(KeyPresses(Empty, keys, singleLine, lineTargets));
  }

  /** A fresh text area has consistent stacks, and undoing everything gives the empty
      text. */
  lemma EmptyIsConsistent()
    ensures Valid(Empty) && Consistent(Empty) && Origin(Empty.text, Empty.undo) == []
  {
  }
}

/** The undo/redo action log of the text area (UndoType and UndoAction in src/components.h,
    the action builders of insert_action, delete_action and replace_action, and the text
    effects that Ctrl+Z and Ctrl+Shift+Z replay in src/components.cpp). */
module UndoLog {
  import ByteString
  import opened Tokens

  /** The closed set of action kinds. */
  datatype UndoType = Insert | Delete | Replace | Cursor

  /** One entry of the undo or redo stack. As in the source every kind carries every field;
      the unused ones keep their defaults. */
  datatype UndoAction = UndoAction(
    kind: UndoType,
    insertedText: seq<char>,
    replacedText: seq<char>,
    cursorStart: int,
    cursorEnd: int,
    selectionStart: int,
    selectionEnd: int)

  function Last<T>(s: seq<T>): T
    requires s != []
  {
    s[|s| - 1]
  }

  /** `new UndoAction` with its type set. */
  function NewAction(kind: UndoType): (a: UndoAction)
    ensures a.kind == kind && a.insertedText == [] && a.replacedText == []
    ensures a.cursorStart == a.cursorEnd == a.selectionStart == a.selectionEnd == -1
  {
    UndoAction(kind, [], [], -1, -1, -1, -1)
  }

  /** The shape every action the editor builds has: offsets that are set are non-negative and
      consistent with the texts, the fields a kind does not use keep their defaults, and
      selectionEnd is never set. */
  ghost predicate WellFormed(a: UndoAction)
  {
    && a.selectionEnd == -1
    && match a.kind
       case Insert =>
         && a.cursorStart >= 0 && a.cursorEnd == a.cursorStart + |a.insertedText|
         && |a.insertedText| > 0 && a.replacedText == [] && a.selectionStart == -1
       case Delete =>
         && a.cursorEnd >= 0
         && (a.cursorStart == a.cursorEnd || a.cursorStart == a.cursorEnd + |a.replacedText|)
         && a.insertedText == [] && a.selectionStart == -1
       case Replace =>
         && a.cursorStart >= 0 && a.selectionStart >= 0
         && a.cursorEnd == ByteString.Min(a.cursorStart, a.selectionStart) + |a.insertedText|
         && |a.replacedText| == ByteString.Max(a.cursorStart, a.selectionStart)
                                - ByteString.Min(a.cursorStart, a.selectionStart)
       case Cursor =>
         && a.cursorStart >= 0 && a.cursorEnd >= 0
         && a.insertedText == [] && a.replacedText == [] && a.selectionStart == -1
  }

  /** Every action of a stack is well formed; in particular every INSERT has text, so
      insert_action may read its last byte. */
  ghost predicate AllWellFormed(log: seq<UndoAction>)
  {
    forall i :: 0 <= i < |log| ==> WellFormed(log[i])
  }

  // ---------------------------------------------------------------------------------------
  // Replaying an action

  /** Where undoing `a` hands an offset to std::string::insert or erase, that offset is
      within `t` (a larger or negative one makes the library throw). */
  predicate UndoOffsetsFit(a: UndoAction, t: seq<char>)
  {
    match a.kind
    case Insert => 0 <= a.cursorStart <= |t|
    case Delete => 0 <= ByteString.Min(a.cursorStart, a.cursorEnd) <= |t|
    case Replace => 0 <= a.cursorEnd - |a.insertedText| <= |t|
    case Cursor => true
  }

  /** The text after Ctrl+Z undoes `a`. */
  function UndoneText(a: UndoAction, t: seq<char>): seq<char>
    requires UndoOffsetsFit(a, t)
  {
    match a.kind
    case Insert => ByteString.Erase(t, a.cursorStart, |a.insertedText|)
    case Delete => ByteString.Insert(t, ByteString.Min(a.cursorStart, a.cursorEnd), a.replacedText)
    case Replace =>
      var at := a.cursorEnd - |a.insertedText|;
      ByteString.Insert(ByteString.Erase(t, at, |a.insertedText|), at, a.replacedText)
    case Cursor => t
  }

  /** The selection anchor after undoing `a`: REPLACE restores the old anchor, CURSOR keeps
      the current one, INSERT and DELETE clear it. */
  function UndoneSelection(a: UndoAction, selection: int): int
  {
    match a.kind
    case Replace => a.selectionStart
    case Cursor => selection
    case _ => -1
  }

  /** Undoing `a` on `t` stays within the text: offsets in range and the restored cursor and
      anchor inside the new text. */
  predicate UndoFits(a: UndoAction, t: seq<char>)
  {
    && UndoOffsetsFit(a, t)
    && 0 <= a.cursorStart <= |UndoneText(a, t)|
    && (a.kind == Replace ==> -1 <= a.selectionStart <= |UndoneText(a, t)|)
  }

  predicate RedoOffsetsFit(a: UndoAction, t: seq<char>)
  {
    match a.kind
    case Insert => 0 <= a.cursorStart <= |t|
    case Delete => 0 <= ByteString.Min(a.cursorStart, a.cursorEnd) <= |t|
    case Replace => 0 <= ByteString.Min(a.cursorStart, a.selectionStart) <= |t|
    case Cursor => true
  }

  /** The text after Ctrl+Shift+Z redoes `a`. Redo of REPLACE recomputes the erased span from
      the old cursor and the old anchor. */
  function RedoneText(a: UndoAction, t: seq<char>): seq<char>
    requires RedoOffsetsFit(a, t)
  {
    match a.kind
    case Insert => ByteString.Insert(t, a.cursorStart, a.insertedText)
    case Delete => ByteString.Erase(t, ByteString.Min(a.cursorStart, a.cursorEnd), |a.replacedText|)
    case Replace =>
      var lo := ByteString.Min(a.cursorStart, a.selectionStart);
      var hi := ByteString.Max(a.cursorStart, a.selectionStart);
      ByteString.Insert(ByteString.Erase(t, lo, hi - lo), lo, a.insertedText)
    case Cursor => t
  }

  /** The selection anchor after redoing `a`: CURSOR keeps it, the others clear it. */
  function RedoneSelection(a: UndoAction, selection: int): int
  {
    if a.kind == Cursor then selection else -1
  }

  predicate RedoFits(a: UndoAction, t: seq<char>)
  {
    RedoOffsetsFit(a, t) && 0 <= a.cursorEnd <= |RedoneText(a, t)|
  }

  /** `t` is a text on which `a` was just done: its offsets fit and the bytes it put in are
      where it says. */
  ghost predicate CanUndo(a: UndoAction, t: seq<char>)
  {
    && WellFormed(a)
    && UndoFits(a, t)
    && match a.kind
       case Insert =>
         a.cursorEnd <= |t| && t[a.cursorStart..a.cursorEnd] == a.insertedText
       case Delete => true
       case Replace =>
         a.cursorEnd <= |t| && t[a.cursorEnd - |a.insertedText|..a.cursorEnd] == a.insertedText
       case Cursor => a.cursorEnd <= |t|
  }

  /** `t` is a text on which `a` is about to be done: its offsets fit and the bytes it takes
      out are where it says. */
  ghost predicate CanRedo(a: UndoAction, t: seq<char>)
  {
    && WellFormed(a)
    && RedoFits(a, t)
    && match a.kind
       case Insert => true
       case Delete =>
         var lo := ByteString.Min(a.cursorStart, a.cursorEnd);
         lo + |a.replacedText| <= |t| && t[lo..lo + |a.replacedText|] == a.replacedText
       case Replace =>
         var lo := ByteString.Min(a.cursorStart, a.selectionStart);
         var hi := ByteString.Max(a.cursorStart, a.selectionStart);
         hi <= |t| && t[lo..hi] == a.replacedText
       case Cursor => a.cursorStart <= |t|
  }

  lemma UndoThenRedoReplace(a: UndoAction, t: seq<char>)
    requires CanUndo(a, t) && a.kind == Replace
    ensures CanRedo(a, UndoneText(a, t)) && RedoneText(a, UndoneText(a, t)) == t
  {
    var u := UndoneText(a, t);
    var at := a.cursorEnd - |a.insertedText|;
    var e := ByteString.Erase(t, at, |a.insertedText|);
    assert u == e[..at] + a.replacedText + e[at..];
    assert u[at..at + |a.replacedText|] == a.replacedText;
    assert RedoneText(a, u) == e[..at] + a.insertedText + e[at..];
    assert t == t[..at] + a.insertedText + t[a.cursorEnd..];
  }

  /** Redo after undo gives back the text undo started from. */
  lemma UndoThenRedo(a: UndoAction, t: seq<char>)
    requires CanUndo(a, t)
    ensures CanRedo(a, UndoneText(a, t)) && RedoneText(a, UndoneText(a, t)) == t
  {
    match a.kind
    case Insert =>
      var cs := a.cursorStart;
      assert t == t[..cs] + a.insertedText + t[a.cursorEnd..];
    case Delete =>
      var lo := ByteString.Min(a.cursorStart, a.cursorEnd);
      ByteString.EraseInserted(t, lo, a.replacedText);
    case Replace =>
      UndoThenRedoReplace(a, t);
    case Cursor =>
  }

  lemma RedoThenUndoReplace(a: UndoAction, t: seq<char>)
    requires CanRedo(a, t) && a.kind == Replace
    ensures CanUndo(a, RedoneText(a, t)) && UndoneText(a, RedoneText(a, t)) == t
  {
    var r := RedoneText(a, t);
    var lo := ByteString.Min(a.cursorStart, a.selectionStart);
    var hi := ByteString.Max(a.cursorStart, a.selectionStart);
    var e := ByteString.Erase(t, lo, hi - lo);
    assert r == e[..lo] + a.insertedText + e[lo..];
    assert r[lo..lo + |a.insertedText|] == a.insertedText;
    assert UndoneText(a, r) == e[..lo] + a.replacedText + e[lo..];
    assert t == t[..lo] + a.replacedText + t[hi..];
  }

  /** Undo after redo gives back the text redo started from. */
  lemma RedoThenUndo(a: UndoAction, t: seq<char>)
    requires CanRedo(a, t)
    ensures CanUndo(a, RedoneText(a, t)) && UndoneText(a, RedoneText(a, t)) == t
  {
    match a.kind
    case Insert =>
      ByteString.EraseInserted(t, a.cursorStart, a.insertedText);
    case Delete =>
      var lo := ByteString.Min(a.cursorStart, a.cursorEnd);
      assert t == t[..lo] + a.replacedText + t[lo + |a.replacedText|..];
    case Replace =>
      RedoThenUndoReplace(a, t);
    case Cursor =>
  }

  // ---------------------------------------------------------------------------------------
  // Building actions

  /** A fresh INSERT of `text` typed at `cursor`. */
  function InsertEntry(cursor: nat, text: seq<char>): (a: UndoAction)
    requires |text| > 0
    ensures WellFormed(a) && a.kind == Insert
    ensures a.insertedText == text && a.cursorStart == cursor && a.cursorEnd == cursor + |text|
  {
    NewAction(Insert).(insertedText := text, cursorStart := cursor, cursorEnd := cursor + |text|)
  }

  /** A fresh INSERT replays on any text long enough to hold its position. */
  lemma InsertEntryRedo(cursor: nat, text: seq<char>, t: seq<char>)
    requires |text| > 0 && cursor <= |t|
    ensures CanRedo(InsertEntry(cursor, text), t)
    ensures RedoneText(InsertEntry(cursor, text), t) == ByteString.Insert(t, cursor, text)
  {
  }

  /** The CURSOR action recording a jump from `from` to `to` between two inserts. */
  function CursorEntry(from: int, to: int): (a: UndoAction)
    ensures a.kind == Cursor && a.cursorStart == from && a.cursorEnd == to
    ensures from >= 0 && to >= 0 ==> WellFormed(a)
  {
    NewAction(Cursor).(cursorStart := from, cursorEnd := to)
  }

  /** A lone space, newline or carriage return: typed alone it starts a new undo step unless
      the previous insert ended with the same byte. */
  predicate IsSplitToken(text: seq<char>)
  {
    text == " " || text == "\n" || text == "\r"
  }

  /** Whether insert_action appends `text` to the INSERT on top of the stack instead of
      pushing a new one. A split token continues only an insert whose last byte is the same
      (an INSERT always has text, see WellFormed; `|previous| > 0` only keeps the read of
      that byte in range). */
  predicate Coalesces(undo: seq<UndoAction>, cursor: int, text: seq<char>)
    requires |text| > 0
  {
    && undo != []
    && Last(undo).kind == Insert
    && Last(undo).cursorEnd == cursor
    && var previous := Last(undo).insertedText;
       if IsSplitToken(text) then |previous| > 0 && previous[|previous| - 1] == text[|text| - 1] && |text| == 1
       else true
  }

  /** The undo stack after insert_action types `text` at `cursor`: the text is merged into
      the INSERT on top when it continues it; otherwise a new INSERT is pushed, preceded by a
      CURSOR action when the INSERT on top ended somewhere else. */
  function LogInsert(undo: seq<UndoAction>, cursor: nat, text: seq<char>): (r: seq<UndoAction>)
    requires |text| > 0
    ensures r != [] && Last(r).kind == Insert && Last(r).cursorEnd == cursor + |text|
  {
    if Coalesces(undo, cursor, text) then
      var previous := Last(undo);
      undo[..|undo| - 1]
        + [previous.(insertedText := previous.insertedText + text,
                     cursorEnd := previous.cursorEnd + |text|)]
    else if undo != [] && Last(undo).kind == Insert && Last(undo).cursorEnd != cursor then
      undo + [CursorEntry(Last(undo).cursorEnd, cursor), InsertEntry(cursor, text)]
    else
      undo + [InsertEntry(cursor, text)]
  }

  /** What insert_action does to the undo stack: it keeps every action well formed; a
      continuing keystroke only grows the INSERT on top, which keeps where it started; any
      other keystroke leaves the stack below untouched and pushes a fresh INSERT, with a
      CURSOR action between exactly when the INSERT on top ended somewhere else. */
  lemma LogInsertShape(undo: seq<UndoAction>, cursor: nat, text: seq<char>)
    requires |text| > 0 && AllWellFormed(undo)
    ensures AllWellFormed(LogInsert(undo, cursor, text))
    ensures var r := LogInsert(undo, cursor, text);
            Coalesces(undo, cursor, text) ==>
              |r| == |undo| && r[..|undo| - 1] == undo[..|undo| - 1]
              && Last(r).insertedText == Last(undo).insertedText + text
              && Last(r).cursorStart == Last(undo).cursorStart
    ensures var r := LogInsert(undo, cursor, text);
            !Coalesces(undo, cursor, text) ==>
              (|r| == |undo| + 1 || |r| == |undo| + 2)
              && r[..|undo|] == undo && Last(r) == InsertEntry(cursor, text)
              && (|r| == |undo| + 2 <==> undo != [] && Last(undo).kind == Insert && Last(undo).cursorEnd != cursor)
              && (|r| == |undo| + 2 ==> r[|undo|] == CursorEntry(Last(undo).cursorEnd, cursor))
  {
    if undo != [] {
      assert WellFormed(undo[|undo| - 1]);
    }
  }

  /** The DELETE that delete_action records for removing `amount` bytes at the cursor:
      forwards when `amount` is positive (substr clamps a count that runs past the end),
      backwards when it is negative. */
  function DeleteEntry(t: seq<char>, cursor: int, amount: int): (a: UndoAction)
    requires amount != 0 && 0 <= cursor <= |t| && 0 <= cursor + amount
    ensures var lo := ByteString.Min(cursor, cursor + amount);
            var hi := ByteString.Min(ByteString.Max(cursor, cursor + amount), |t|);
            && a.kind == Delete && a.cursorStart == cursor && a.cursorEnd == lo
            && a.replacedText == t[lo..hi] && WellFormed(a)
            && CanRedo(a, t) && RedoneText(a, t) == t[..lo] + t[hi..]
  {
    if amount > 0 then
      NewAction(Delete).(replacedText := ByteString.Substr(t, cursor, amount),
                         cursorStart := cursor, cursorEnd := cursor)
    else
      NewAction(Delete).(replacedText := ByteString.Substr(t, cursor + amount, -amount),
                         cursorStart := cursor, cursorEnd := cursor + amount)
  }

  /** The REPLACE that replace_action records for replacing the selection between the cursor
      and the anchor `selection` by `text`. */
  function ReplaceEntry(t: seq<char>, cursor: int, selection: int, text: seq<char>): (a: UndoAction)
    requires 0 <= cursor <= |t| && 0 <= selection <= |t|
    ensures var lo := ByteString.Min(cursor, selection);
            var hi := ByteString.Max(cursor, selection);
            && a.kind == Replace && a.cursorStart == cursor && a.selectionStart == selection
            && a.cursorEnd == lo + |text| && a.insertedText == text && a.replacedText == t[lo..hi]
            && CanRedo(a, t) && RedoneText(a, t) == t[..lo] + text + t[hi..]
  {
    var lo := ByteString.Min(cursor, selection);
    var hi := ByteString.Max(cursor, selection);
    NewAction(Replace).(insertedText := text, replacedText := ByteString.Substr(t, lo, hi - lo),
                        cursorStart := cursor, cursorEnd := lo + |text|,
                        selectionStart := selection, selectionEnd := -1)
  }

  /** All keystrokes of a run, in order. */
  function Concat(keys: seq<seq<char>>): seq<char>
  {
    if keys == [] then [] else keys[0] + Concat(keys[1..])
  }

  predicate AllNonEmpty(keys: seq<seq<char>>)
  {
    forall i :: 0 <= i < |keys| ==> |keys[i]| > 0
  }

  /** The undo stack after typing `keys` one after another from `cursor`, each keystroke
      going through insert_action where the previous one left the cursor. */
  function TypeAll(undo: seq<UndoAction>, cursor: nat, keys: seq<seq<char>>): seq<UndoAction>
    requires AllNonEmpty(keys)
    decreases |keys|
  {
    if keys == [] then undo
    else TypeAll(LogInsert(undo, cursor, keys[0]), cursor + |keys[0]|, keys[1..])
  }

  /** The INSERT `top` with `key` typed at its end. */
  function Extended(top: UndoAction, key: seq<char>): UndoAction
  {
    top.(insertedText := top.insertedText + key, cursorEnd := top.cursorEnd + |key|)
  }

  /** Extending by two pieces in turn is extending by both at once. */
  lemma ExtendedTwice(top: UndoAction, a: seq<char>, b: seq<char>)
    ensures Extended(Extended(top, a), b) == Extended(top, a + b)
  {
    assert top.insertedText + a + b == top.insertedText + (a + b);
  }

  /** A keystroke that is not a split token, typed where the INSERT on top ended, goes into
      that INSERT. */
  lemma CoalescedStep(below: seq<UndoAction>, top: UndoAction, key: seq<char>)
    requires |key| > 0 && !IsSplitToken(key)
    requires top.kind == Insert && top.cursorEnd >= 0
    ensures LogInsert(below + [top], top.cursorEnd, key) == below + [Extended(top, key)]
  {
    var undo := below + [top];
    assert Coalesces(undo, top.cursorEnd, key);
    assert undo[..|undo| - 1] == below;
  }

  /** The keystrokes after the first keep the properties of the whole run. */
  lemma RestOfRun(keys: seq<seq<char>>)
    requires keys != [] && AllNonEmpty(keys)
    requires forall i :: 0 <= i < |keys| ==> !IsSplitToken(keys[i])
    ensures AllNonEmpty(keys[1..])
    ensures forall i :: 0 <= i < |keys[1..]| ==> !IsSplitToken(keys[1..][i])
  {
    forall i | 0 <= i < |keys[1..]|
      ensures |keys[1..][i]| > 0 && !IsSplitToken(keys[1..][i])
    {
      assert keys[1..][i] == keys[i + 1];
    }
  }

  /** Keystrokes that are not split tokens, typed where the INSERT on top ended, all go into
      that one INSERT. */
  lemma {:induction false} ContiguousTypingCoalesces(below: seq<UndoAction>, top: UndoAction, keys: seq<seq<char>>)
    requires AllNonEmpty(keys)
    requires forall i :: 0 <= i < |keys| ==> !IsSplitToken(keys[i])
    requires top.kind == Insert && top.cursorEnd >= 0
    ensures TypeAll(below + [top], top.cursorEnd, keys) == below + [Extended(top, Concat(keys))]
    decreases |keys|
  {
    if keys == [] {
      assert top.insertedText + [] == top.insertedText;
    } else {
      var next := Extended(top, keys[0]);
      CoalescedStep(below, top, keys[0]);
      RestOfRun(keys);
      ContiguousTypingCoalesces(below, next, keys[1..]);
      ExtendedTwice(top, keys[0], Concat(keys[1..]));
    }
  }

  /** Keystrokes none of which is a lone space or line break, typed on an empty log, leave a
      single INSERT of everything typed: one Ctrl+Z removes the whole run. */
  lemma TypingWithoutSplitsIsOneStep(keys: seq<seq<char>>)
    requires keys != [] && AllNonEmpty(keys)
    requires forall i :: 0 <= i < |keys| ==> !IsSplitToken(keys[i])
    ensures TypeAll([], 0, keys) == [InsertEntry(0, Concat(keys))]
  {
    var top := InsertEntry(0, keys[0]);
    assert LogInsert([], 0, keys[0]) == [] + [top];
    RestOfRun(keys);
    ContiguousTypingCoalesces([], top, keys[1..]);
    assert Extended(top, Concat(keys[1..])) == InsertEntry(0, Concat(keys));
  }

  /** A space typed right after a word starts a new undo step, and a second space joins
      that step rather than the word. */
  lemma SpacesAfterAWordSplit(below: seq<UndoAction>, top: UndoAction)
    requires top.kind == Insert && top.cursorEnd >= 0
    requires |top.insertedText| > 0 && top.insertedText[|top.insertedText| - 1] != ' '
    ensures LogInsert(below + [top], top.cursorEnd, " ")
            == below + [top, InsertEntry(top.cursorEnd, " ")]
    ensures LogInsert(below + [top, InsertEntry(top.cursorEnd, " ")], top.cursorEnd + 1, " ")
            == below + [top, InsertEntry(top.cursorEnd, "  ")]
  {
    var once := below + [top, InsertEntry(top.cursorEnd, " ")];
    assert !Coalesces(below + [top], top.cursorEnd, " ");
    assert (below + [top]) + [InsertEntry(top.cursorEnd, " ")] == once;
    assert Coalesces(once, top.cursorEnd + 1, " ");
    assert once[..|once| - 1] == below + [top];
    assert " " + " " == "  ";
  }
}

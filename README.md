# Text-area editing engine of stackbar, in Dafny

stackbar's text area (src/components.cpp, src/components.h) keeps its editing state in a
`TextState` object. The object holds the text as a byte string, a cursor byte offset, a selection
anchor (`selection_x`, -1 for none), the preferred x column, and two stacks of `UndoAction`
records. The key handler `textarea_handle_keypress` updates that state:

- typing goes through `insert_action`, which coalesces keystrokes into one undo step;
- deleting goes through `delete_action`;
- typing over a selection goes through `replace_action`;
- Ctrl+Z and Ctrl+Shift+Z pop one stack and push the other;
- Ctrl+Left/Right and Ctrl+Backspace/Delete jump by words, using the `Seeker` and `seek_token`;
- Home and End scan for newlines.

The project is organised as follows:

- `bytestring.dfy` (ByteString): the `std::string` operations the editor uses (`insert`,
  `erase`, `substr`) as functions on `seq<char>`.
- `tokens.dfy` (Tokens): `tokens_list` and the byte classifier `group_at`.
- `seeking.dfy` (Seeking): the `Seeker` class with its loops, and `go_to_edge`, `seek_token`
  and the Home/End scans as methods. Each of them is proved to stop where a recursive
  specification function says.
- `undolog.dfy` (UndoLog): `UndoType` and `UndoAction`, and the effect of undoing and redoing one
  action on the text. Also the records that each edit pushes, including the coalescing rule of
  `insert_action`.
- `editormodel.dfy` (EditorModel): the editing state as a value, one function per operation,
  and the key handler as a function of the key event.
- `textarea.dfy` (TextArea): the `TextState` class. Its methods update the fields in place as
  the C++ code does, and each is proved to end in the state the matching EditorModel function
  describes.
- `history.dfy` (History): what makes an undo history consistent, and how each operation keeps
  it. With a consistent history, undo and redo always fit the text. Undo followed by redo
  restores the text and both stacks, and so does redo followed by undo. The cursor and the
  anchor need not come back. Any run of keys without Ctrl+Shift+Z, started in a new text area
  and followed by one Ctrl+Z per recorded action, gives back the empty text.
- `editing.dfy` (Editing): the effect of single edits and single keys, stated against the
  text they started from.

## Model

| member | source | states |
|---|---|---|
| ByteString.Insert | src/components.cpp:1303 | the result is the text with `s` spliced in at `pos`: prefix, `s`, suffix |
| ByteString.Erase | src/components.cpp:1318-1331 | the result drops exactly the `n` bytes at `pos`, clamped to the end of the text as `std::string::erase` does |
| ByteString.Substr | src/components.cpp:1318-1326 | the result is the run of up to `n` bytes starting at `pos`, clamped to the end |
| ByteString.EraseInserted | src/components.cpp:1303 | erasing what was just inserted gives the original text back |
| ByteString.InsertErased | src/components.cpp:1318-1331 | inserting the erased bytes back where they were gives the original text back |
| Tokens.GroupOf | src/components.cpp:1397-1410 | a position outside the text is `None`; otherwise space, newline, a byte of `tokens_list`, or any other byte, each case an if-and-only-if |
| Tokens.TokensListIsToken | src/components.cpp:1366-1368 | the comparisons `IsToken` makes accept exactly the bytes of `tokens_list` |
| Tokens.ClassifierExamples | src/components.cpp:1366-1368 | sample bytes fall in the groups `tokens_list` assigns them |
| Tokens.LowercaseIsNormal | src/components.cpp:1366-1368 | no letter is a token, so a lower-case letter is always in the `normal` group |
| Seeking.WalkLeft | src/components.cpp:1421-1430 | the leftward walk never moves right and stops where the probed byte is of another group or before the start |
| Seeking.WalkLeftPassesReference | src/components.cpp:1421-1430 | every byte the leftward walk steps over is in the reference group |
| Seeking.WalkRight | src/components.cpp:1431-1440 | the rightward walk never moves left and stops where the probed byte is of another group or past the end |
| Seeking.WalkRightPassesReference | src/components.cpp:1431-1440 | every byte the rightward walk steps over is in the reference group |
| Seeking.SeekTokenTarget | src/components.cpp:1485-1517 | a word jump stays inside the text and never moves against its direction |
| Seeking.SeekSpecificLeft | src/components.cpp:1451-1460 | the leftward scan never moves right and stops where the byte to the left is missing or of the wanted group |
| Seeking.SeekSpecificLeftPassesNone | src/components.cpp:1451-1460 | the leftward scan passes no byte of the wanted group |
| Seeking.SeekSpecificRight | src/components.cpp:1451-1460 | the rightward scan never moves left and stops where the byte to the right is missing or of the wanted group |
| Seeking.SeekSpecificRightPassesNone | src/components.cpp:1451-1460 | the rightward scan passes no byte of the wanted group |
| Seeking.LineStart | src/components.cpp:1755-1762 | Home's target is the first byte of the cursor's line: at most the cursor, after a newline or at 0, with no newline in between |
| Seeking.LineEnd | src/components.cpp:1763-1771 | End's target is the newline ending the cursor's line, or the end of the text, with no newline in between |
| Seeking.SeekTokenProgress | src/components.cpp:1485-1517 | a word jump from inside the text in its direction always moves the cursor |
| Seeking.SeekTokenStopsAtBoundary | src/components.cpp:1476-1483 | a word jump stops at a group boundary or at an end of the text |
| Seeking.JumpRightCrossesSpacesAndWord | src/components.cpp:1485-1517 | Ctrl+Right at the end of "foo" in "foo  bar" crosses the spaces and the word "bar" |
| Seeking.JumpRightStopsAtWordEnd | src/components.cpp:1485-1517 | Ctrl+Right at the start of "foo" in "foo  bar" stops at the end of "foo" |
| Seeking.JumpLeftStopsAtWordStart | src/components.cpp:1485-1517 | Ctrl+Left at the end of "bar" stops at its first byte |
| Seeking.JumpLeftCrossesSpacesAndWord | src/components.cpp:1485-1517 | Ctrl+Left at the start of "bar" crosses the spaces and the word "foo" |
| Seeking.JumpRightLooksOneByteAhead | src/components.cpp:1412-1419 | because `group_to` rightwards looks one byte past the cursor, Ctrl+Right after the spaces of "a  b" stops before the one-byte word |
| Seeking.HomeAndEndOnSecondLine | src/components.cpp:1755-1771 | Home and End on each line of "ab\ncd" give that line's ends |
| Seeking.Seeker.constructor | src/components.cpp:1462-1473 | the seeker starts at the cursor with the groups on both sides and the two flags computed from them |
| Seeking.Seeker.GroupAt | src/components.cpp:1397-1410 | the loop over `tokens_list` returns the group `GroupOf` gives |
| Seeking.Seeker.GroupTo | src/components.cpp:1412-1419 | returns the group one step away in the direction |
| Seeking.Seeker.SeekUntilDifferentToken | src/components.cpp:1421-1441 | the loop ends at the position `Walk` specifies and returns the group found there |
| Seeking.Seeker.SeekUntilRightBeforeDifferentToken | src/components.cpp:1443-1445 | the walk with offset 1 |
| Seeking.Seeker.SeekAndCoverDifferentToken | src/components.cpp:1447-1449 | the walk with offset 0 |
| Seeking.Seeker.SeekUntilSpecificToken | src/components.cpp:1451-1460 | the loop ends where `SeekSpecific` says |
| Seeking.GoToEdge | src/components.cpp:1476-1483 | the seeker ends at `ToEdge` of its reference group |
| Seeking.SeekToken | src/components.cpp:1485-1517 | all branches on the two flags end at `SeekTokenTarget` |
| Seeking.LineStartTarget | src/components.cpp:1755-1762 | the Home scan ends at `LineStart` |
| Seeking.LineEndTarget | src/components.cpp:1763-1771 | the End scan (start one byte left, stop at a newline, step one right) ends at `LineEnd` |
| UndoLog.NewAction | src/components.h:52-64 | a new record has the given kind, empty texts and every offset -1 |
| UndoLog.UndoneText | src/components.cpp:1638-1690 | the text Ctrl+Z leaves for each record kind. It has no contract of its own: UndoLog.UndoThenRedo and UndoLog.RedoThenUndo make it the inverse of `RedoneText` on every record that fits, and Editing.DeleteThenUndo and Editing.ReplaceThenUndo state what it restores |
| UndoLog.UndoneSelection | src/components.cpp:1638-1690 | the anchor after Ctrl+Z: a REPLACE gives back its old anchor, a CURSOR keeps the current one, and the others drop it. It has no contract of its own: Editing.ReplaceThenUndo states that it gives back the anchor `replace_action` dropped |
| UndoLog.RedoneText | src/components.cpp:1691-1747 | the text Ctrl+Shift+Z leaves for each record kind. It has no contract of its own: UndoLog.InsertEntryRedo, UndoLog.DeleteEntry and UndoLog.ReplaceEntry state that redoing each record repeats its edit, and Editing.StaleRedoEditsWrongByte shows it replaying a stale DELETE |
| UndoLog.UndoThenRedo | src/components.cpp:1638-1747 | undoing an action that fits and then redoing it gives back the text |
| UndoLog.UndoThenRedoReplace | src/components.cpp:1638-1747 | the same round trip for a REPLACE record |
| UndoLog.RedoThenUndoReplace | src/components.cpp:1638-1747 | the same round trip for a REPLACE record |
| UndoLog.RedoThenUndo | src/components.cpp:1638-1747 | redoing an action that fits and then undoing it gives back the text |
| UndoLog.InsertEntry | src/components.cpp:1293-1301 | the INSERT record of a keystroke holds the typed text and spans it from the cursor; it is well formed |
| UndoLog.InsertEntryRedo | src/components.cpp:1293-1303 | redoing that record re-inserts the typed text at the cursor |
| UndoLog.CursorEntry | src/components.cpp:1283-1289 | the CURSOR record spans from where the last INSERT ended to the cursor |
| UndoLog.LogInsert | src/components.cpp:1260-1301 | after a keystroke the top of the undo stack is an INSERT ending after the typed text |
| UndoLog.LogInsertShape | src/components.cpp:1260-1301 | a keystroke either extends the INSERT on top (exactly when it coalesces) or pushes a new INSERT, preceded by a CURSOR record exactly when the top INSERT ended elsewhere; well-formed logs stay well formed |
| UndoLog.DeleteEntry | src/components.cpp:1315-1332 | the DELETE record holds exactly the removed bytes, and redoing it removes them |
| UndoLog.ReplaceEntry | src/components.cpp:1342-1355 | the REPLACE record holds both texts and the anchor, and redoing it performs the replacement |
| UndoLog.CoalescedStep | src/components.cpp:1266-1282 | a keystroke that is not a split token, typed where the INSERT on top ended, grows that INSERT |
| UndoLog.ContiguousTypingCoalesces | src/components.cpp:1263-1282 | keystrokes typed one after another at the end of the INSERT on top, none of them a split token, all merge into that one INSERT |
| UndoLog.TypingWithoutSplitsIsOneStep | src/components.cpp:1260-1301 | in a fresh text area such typing leaves a single INSERT holding all of it |
| UndoLog.SpacesAfterAWordSplit | src/components.cpp:1270-1282 | a space after a word starts a new INSERT, and a second space merges into that one |
| UndoLog.IsSplitToken | src/components.cpp:1270 | the split tokens are the one-byte texts space, newline and carriage return. It has no contract of its own: UndoLog.SpacesAfterAWordSplit and UndoLog.ContiguousTypingCoalesces state how they cut a run of typing |
| UndoLog.Coalesces | src/components.cpp:1263-1282 | whether a keystroke is appended to the INSERT on top of the stack. It has no contract of its own: UndoLog.LogInsertShape, UndoLog.CoalescedStep and Editing.CoalescedInsertThenUndo state what merging does to the stack and to Ctrl+Z |
| EditorModel.MoveCursor | src/components.cpp:925-938 | the cursor goes to the index; a shifted move keeps the anchor (or starts it at the old cursor); an unshifted one drops it; nothing else changes |
| EditorModel.InsertAction | src/components.cpp:1258-1311 | the text gets `text` spliced in at the cursor, the cursor moves past it, the selection and redo stack are cleared, the keystroke is logged, and the state stays valid |
| EditorModel.DeleteAction | src/components.cpp:1313-1338 | exactly the bytes between the cursor and cursor+amount are removed, the cursor goes to the start of the gap, a DELETE is pushed, and the redo stack is kept |
| EditorModel.ReplaceAction | src/components.cpp:1340-1364 | exactly the selected bytes are replaced by `text`, the cursor goes after it, the selection is dropped, a REPLACE is pushed, and the redo stack is kept |
| EditorModel.TypeText | src/components.cpp:1576-1582 | typing keeps the state valid; that is all its own contract states. Its effects are stated by EditorModel.InsertAction, Editing.SelectionIsReplaced and History.TypeTextKeepsUndoChain |
| EditorModel.BackSpaceKey | src/components.cpp:1583-1598 | Backspace keeps the state valid; that is all its own contract states. Its effects are stated by Editing.BackSpaceRemovesPreviousByte, Editing.CtrlBackSpaceRemovesToWordStart and Editing.SelectionIsReplaced |
| EditorModel.BackSpaceEdits | src/components.cpp:1583-1598 | whether Backspace calls an editing action. It has no contract of its own: Editing.BackSpaceEditsWhenItChanges states that this holds exactly when the key changes the editor |
| EditorModel.DeleteKey | src/components.cpp:1599-1614 | Delete keeps the state valid; that is all its own contract states. Its effects are stated by Editing.DeleteRemovesNextByte, Editing.CtrlDeleteRemovesToWordEnd and Editing.SelectionIsReplaced |
| EditorModel.DeleteEdits | src/components.cpp:1599-1614 | whether Delete calls an editing action. It has no contract of its own: Editing.DeleteEditsWhenItChanges states that this holds exactly when the key changes the editor |
| EditorModel.Undo | src/components.cpp:1638-1690 | with an empty stack nothing changes; otherwise the top action's effect is taken back and the action moves to the redo stack |
| EditorModel.Redo | src/components.cpp:1691-1747 | with an empty stack nothing changes; otherwise the top action is done again and moves back to the undo stack |
| EditorModel.KeyPress | src/components.cpp:1552-1813 | handling any pressed or released key keeps the state valid (cursor and anchor inside the text, every logged record well formed) |
| EditorModel.RefreshesPreferredX | src/components.cpp:1552-1813 | key releases, Escape and the vertical motions never refresh the preferred column |
| History.PushUndo | src/components.cpp:1638-1747 | pushing an action that undoes back to the old text extends a consistent undo chain and keeps its origin |
| History.PushRedo | src/components.cpp:1638-1747 | the same for the redo chain |
| History.UndoKeepsConsistent | src/components.cpp:1638-1690 | Ctrl+Z keeps the history consistent and its origin unchanged, and always moves exactly one action across |
| History.RedoKeepsConsistent | src/components.cpp:1691-1747 | Ctrl+Shift+Z keeps the history consistent and its origin unchanged, and always moves exactly one action across |
| History.UndoThenRedoRestores | src/components.cpp:1638-1747 | undo followed by redo restores the text and both stacks |
| History.RedoThenUndoRestores | src/components.cpp:1638-1747 | redo followed by undo restores the text and both stacks |
| History.ExtendedUndo | src/components.cpp:1272-1281 | undoing an INSERT that absorbed a keystroke removes the keystroke too |
| History.CoalescedKeepsUndoChain | src/components.cpp:1266-1282 | a merged keystroke keeps the undo chain and its origin |
| History.FreshInsertKeepsUndoChain | src/components.cpp:1283-1303 | a keystroke that pushes a new INSERT (after a CURSOR record when the cursor moved) keeps the undo chain and its origin |
| History.InsertKeepsConsistent | src/components.cpp:1258-1311 | typing keeps the whole history consistent (it clears the redo stack) and keeps its origin |
| History.DeleteKeepsUndoChain | src/components.cpp:1313-1338 | deleting keeps the undo chain and its origin |
| History.ReplaceKeepsUndoChain | src/components.cpp:1340-1364 | replacing keeps the undo chain and its origin |
| History.TypeTextKeepsUndoChain | src/components.cpp:1576-1582 | typing, with or without a selection, keeps the undo chain and its origin; a matching redo stack keeps matching unless the typing replaced a selection with a non-empty redo stack |
| History.BackSpaceKeepsUndoChain | src/components.cpp:1583-1598 | Backspace keeps the undo chain and its origin; a matching redo stack keeps matching unless Backspace edited with a non-empty redo stack |
| History.DeleteKeyKeepsUndoChain | src/components.cpp:1599-1614 | Delete keeps the undo chain and its origin; a matching redo stack keeps matching unless Delete edited with a non-empty redo stack |
| History.DeleteShortens | src/components.cpp:1313-1338 | a delete that removes at least one byte keeps the undo chain and changes the text, so the redo stack it keeps is empty or possibly stale |
| History.UndoKeepsUndoChain | src/components.cpp:1638-1690 | Ctrl+Z keeps the undo chain and its origin whatever the redo stack holds |
| History.KeyPressKeepsUndoChain | src/components.cpp:1552-1813 | from any state whose undo stack is consistent, every key keeps the undo chain and its origin (Ctrl+Shift+Z only when the redo stack matches the text); a matching redo stack keeps matching unless the key edited the text and left a non-empty redo stack behind |
| History.KeyPresses | src/components.cpp:1552-1813 | a run of key presses, one handler call after another, keeps the state valid |
| History.UndoTimes | src/components.cpp:1638-1690 | pressing Ctrl+Z `n` times keeps the state valid |
| History.UndoAllReachesOrigin | src/components.cpp:1638-1690 | on a consistent undo stack, one Ctrl+Z per recorded action empties the stack and gives back exactly the origin text |
| History.KeyPressesKeepUndoChain | src/components.cpp:1552-1813 | a run of keys without Ctrl+Shift+Z keeps the undo chain and its origin, by induction over the run |
| History.EditThenUndoAllIsEmpty | src/components.cpp:1552-1813 | any run of keys without Ctrl+Shift+Z in a new text area, followed by one Ctrl+Z per recorded action, gives back the empty text and an empty undo stack |
| History.EmptyIsConsistent | src/components.h:66-93 | a new text area has a consistent, empty history |
| Editing.DeleteThenUndo | src/components.cpp:1313-1338 | Ctrl+Z right after a delete restores the editor exactly, with the DELETE moved to the redo stack |
| Editing.ReplaceThenUndo | src/components.cpp:1340-1364 | Ctrl+Z right after a replace restores text, cursor and selection exactly |
| Editing.InsertThenUndo | src/components.cpp:1258-1311 | Ctrl+Z right after a keystroke that starts a new undo step without a CURSOR record restores the editor, with only that INSERT on the redo stack. This covers an empty stack, a non-INSERT on top, and a split token typed where the INSERT on top ended |
| Editing.InsertAfterJumpThenUndo | src/components.cpp:1283-1289 | after typing away from the last INSERT, the first Ctrl+Z removes the text and the second moves the cursor back to where that INSERT ended |
| Editing.CoalescedInsertThenUndo | src/components.cpp:1266-1282 | a merged keystroke is undone together with the INSERT it joined |
| Editing.StaleRedoAfterBackspace | src/components.cpp:1313-1338 | because delete keeps the redo stack, type "abc", " ", Ctrl+Z, Backspace leaves a redo record that no longer fits the text |
| Editing.HomeOnOneLine | src/components.cpp:1755-1762 | Home at the end of the one-line text "abcd" goes to offset 0 |
| Editing.HomeThenDelete | src/components.cpp:1599-1614 | Home and Delete on "abcd" leave "bcd" and log the DELETE of "a" |
| Editing.UndoPutsByteBack | src/components.cpp:1638-1690 | Ctrl+Z then puts the "a" back and moves its DELETE to the redo stack |
| Editing.RightThenBackSpace | src/components.cpp:1583-1598 | Right and Backspace then leave "bcd" again, with the DELETE of "a" at 0 still on the redo stack |
| Editing.RedoStaleDelete | src/components.cpp:1691-1747 | Ctrl+Shift+Z on that state erases the "b" instead, giving "cd", and Ctrl+Z after it gives "acd" |
| Editing.StaleRedoEditsWrongByte | src/components.cpp:1313-1338 | because delete keeps the redo stack, a stale redo record can fit the text and edit the wrong byte: after "abcd", Home, Delete, Ctrl+Z, Right, Backspace, redo then undo turns "bcd" into "acd" |
| Editing.BackSpaceRemovesPreviousByte | src/components.cpp:1583-1598 | plain Backspace removes the byte before the cursor and steps back; at the start it does nothing |
| Editing.BackSpaceEditsWhenItChanges | src/components.cpp:1583-1598 | Backspace calls an editing action (and refreshes the preferred column) exactly when it changes the editor |
| Editing.CtrlBackSpaceRemovesToWordStart | src/components.cpp:1583-1598 | Ctrl+Backspace removes exactly the bytes back to the Ctrl+Left target |
| Editing.CtrlDeleteRemovesToWordEnd | src/components.cpp:1599-1614 | Ctrl+Delete removes exactly the bytes up to the Ctrl+Right target |
| Editing.DeleteRemovesNextByte | src/components.cpp:1609-1613 | plain Delete removes the byte after the cursor, keeps the cursor and logs a DELETE; at the end of the text it does nothing |
| Editing.DeleteEditsWhenItChanges | src/components.cpp:1599-1614 | Delete calls an editing action (and refreshes the preferred column) exactly when it changes the editor |
| Editing.SelectionIsReplaced | src/components.cpp:1576-1614 | with a selection, typing, Backspace and Delete replace exactly the selected bytes |
| Editing.SelectAll | src/components.cpp:1631-1637 | Ctrl+A puts the anchor at 0 and the cursor at the end |
| Editing.HomeAndEnd | src/components.cpp:1755-1771 | Home goes to the start of the line and End to its end, crossing no newline; the anchor follows `move_cursor`'s rule (kept or started with Shift, dropped without) and the text and both stacks are unchanged |
| Editing.SingleLineIgnoresReturn | src/components.cpp:1617-1625 | a single-line text area ignores Return |
| Editing.EscapeDropsSelection | src/components.cpp:1615-1616 | Escape keeps the cursor and drops the selection; nothing else changes |
| Editing.ArrowsStepOneByte | src/components.cpp:1776-1806 | plain Left moves to max(cursor-1, 0) and plain Right to min(cursor+1, length); the anchor follows the shift rule and nothing else changes |
| Editing.CtrlArrowsJumpByWords | src/components.cpp:1776-1806 | Ctrl+Left and Ctrl+Right move to the word-jump target, strictly past the cursor whenever there is text that way; the anchor follows the shift rule and nothing else changes |
| Editing.VerticalKeysGoToLineTarget | src/components.cpp:1772-1810 | Up, Down, Page Up and Page Down put the cursor on the offset the layout reports; the anchor follows the shift rule and nothing else changes |
| Editing.ShiftedMovesKeepAnchor | src/components.cpp:925-938 | a run of shifted moves keeps the anchor where the selection began; unshifted moves drop it |
| TextArea.TextState.constructor | src/components.h:66-93 | a new state: empty text, cursor 0, no selection, empty stacks |
| TextArea.TextState.MoveCursor | src/components.cpp:925-938 | updates the fields as `EditorModel.MoveCursor` says and keeps the preferred column |
| TextArea.TextState.InsertAction | src/components.cpp:1258-1311 | the nested coalescing checks update the fields exactly as `EditorModel.InsertAction` says, and the preferred column is refreshed |
| TextArea.TextState.DeleteAction | src/components.cpp:1313-1338 | updates the fields as `EditorModel.DeleteAction` says |
| TextArea.TextState.ReplaceAction | src/components.cpp:1340-1364 | updates the fields as `EditorModel.ReplaceAction` says |
| TextArea.TextState.Undo | src/components.cpp:1638-1690 | updates the fields as `EditorModel.Undo` says |
| TextArea.TextState.Redo | src/components.cpp:1691-1747 | updates the fields as `EditorModel.Redo` says |
| TextArea.TextState.TypeText | src/components.cpp:1576-1582 | a replace with a selection, an insert without one |
| TextArea.TextState.BackSpaceKey | src/components.cpp:1583-1598 | the Backspace branch; the preferred column is refreshed exactly when an edit happened |
| TextArea.TextState.DeleteKey | src/components.cpp:1599-1614 | the Delete branch; the preferred column is refreshed exactly when an edit happened |
| TextArea.TextState.HandleKeypress | src/components.cpp:1552-1813 | the handler updates the fields as `EditorModel.KeyPress` says, refreshes the preferred column exactly when `RefreshesPreferredX` holds, and keeps the state valid |

## Left out

- Text layout (Pango) is not modelled. `move_vertically_lines` (Up, Down, Page Up, Page Down)
  becomes the parameter `lineTarget`, the byte offset the layout reports. `update_preffered_x`
  becomes the parameter `caretX`, the x position the layout reports.
- Drawing, scrolling (`put_cursor_on_screen`, `update_bounds`), the cursor blink timer and the
  key-press timestamps are left out. They do not change the text, the cursor, the selection or
  the stacks.
- The mouse handlers (src/components.cpp:940-1210) are left out. A press or the start of a drag
  moves the cursor through `move_cursor(..., shift)` to the byte index that Pango's
  hit-testing reports: without Shift it drops the selection, with Shift it keeps or starts
  it. A drag motion and the release at its end pass `true`, keeping or starting the
  selection. A double click within 220 ms selects everything. Losing focus
  (`textarea_active_status_changed`) sets the anchor to the cursor, which leaves an empty
  selection, so the next typed key, Backspace or Delete goes through `replace_action`. The
  index comes from the text layout and the double click from a clock, and neither is
  modelled. The `move_cursor` they call is EditorModel.MoveCursor.
- The `prompt`, `cursor_on`, `cursor_blink`, `last_time_*` and `first_bounds_update` fields of
  `TextState` are left out for the same reason.
- The destructor is left out. The undo stacks hold records by value, not pointers, so freeing
  them has no counterpart.
- `textarea_key_release` is left out. It only forwards a key to `textarea_handle_keypress` as a
  key-down event.
- src/taskbar.cpp and src/main.cpp are not part of this model.
- Text is a sequence of bytes. UTF-8 decoding, as done by the layout, is not modelled.
- Ctrl+C and Ctrl+V have empty branches in the source. They are modelled as doing nothing.
- EditorModel.Undo: when the top record's offsets do not fit the text, the C++ code throws
  `std::out_of_range` (or, for a CURSOR record, leaves the cursor outside the text). The model
  leaves the state unchanged instead. History.UndoKeepsConsistent shows this cannot happen with
  a consistent history.
- EditorModel.Redo: guarded the same way. Editing.StaleRedoAfterBackspace shows a stale redo
  record that no longer fits the text after a delete. Editing.StaleRedoEditsWrongByte shows
  one that still fits and edits the wrong byte. The C++ code does the same in both cases,
  because delete and replace keep the redo stack.
- EditorModel.KeyPress: requires the string of a text event to be non-empty, because
  `insert_action` reads the last byte of the text it logs. Its own contract states only
  validity. The effect of each key is stated by a lemma in Editing:
  - typing, Backspace and Delete over a selection: SelectionIsReplaced;
  - Backspace: BackSpaceRemovesPreviousByte and CtrlBackSpaceRemovesToWordStart;
  - Delete: DeleteRemovesNextByte and CtrlDeleteRemovesToWordEnd;
  - Escape: EscapeDropsSelection;
  - Left and Right: ArrowsStepOneByte and CtrlArrowsJumpByWords;
  - Up, Down, Page Up and Page Down: VerticalKeysGoToLineTarget;
  - Home and End: HomeAndEnd;
  - Ctrl+A: SelectAll;
  - Return in a single-line text area: SingleLineIgnoresReturn;
  - Ctrl+Z and Ctrl+Shift+Z: the lemmas in History;
  - runs of keys followed by undoing everything: History.EditThenUndoAllIsEmpty.
  Return (in a multi-line text area) and Tab type a byte like any other keystroke, through
  TypeText.
- EditorModel.RefreshesPreferredX: its contract names only the keys that never refresh the
  preferred column. The full case split is stated by TextArea.TextState.HandleKeypress.
- EditorModel.DeleteAction: requires the cursor plus `amount` to be non-negative. Every caller
  in the handler guarantees this, and a negative position would make `std::string::substr`
  throw.
- History.KeyPressKeepsUndoChain: the redo chain is not preserved after a delete or replace
  with a non-empty redo stack, because the source keeps the stale redo stack. Ctrl+Shift+Z on
  such a stale stack can change what undoing everything gives (Editing.StaleRedoEditsWrongByte),
  so History.KeyPressesKeepUndoChain and History.EditThenUndoAllIsEmpty cover runs of keys
  without Ctrl+Shift+Z.

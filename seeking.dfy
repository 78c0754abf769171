/** Word and line motion: the Seeker of src/components.cpp, go_to_edge, seek_token and the
    Home/End scans. The walks are specified by recursive functions; the Seeker's loops are
    proved to stop exactly where those functions say. */
module Seeking {
  import opened Tokens

  /** The offset group_to adds to current_pos. */
  function Step(direction: Motion): int
  {
    if direction == Left then -1 else 1
  }

  /** group_to: the group of the byte one step from `pos` in `direction`. */
  function GroupToward(text: seq<char>, pos: int, direction: Motion): Group
  {
    GroupOf(text, pos + Step(direction))
  }

  /** Where the leftward loop of seek_until_different_token stops: it steps left while the
      byte at pos - off exists and belongs to `reference`. */
  function WalkLeft(text: seq<char>, pos: int, off: nat, reference: Group): (r: int)
    ensures r <= pos
    ensures r == pos || off - 1 <= r
    ensures !(r - off >= 0 && GroupOf(text, r - off) == reference)
    decreases pos
  {
    if pos - off >= 0 && GroupOf(text, pos - off) == reference then
      WalkLeft(text, pos - 1, off, reference)
    else
      pos
  }

  /** Every byte the leftward walk steps over belongs to the reference group. */
  lemma {:induction false} WalkLeftPassesReference(text: seq<char>, pos: int, off: nat, reference: Group)
    ensures var r := WalkLeft(text, pos, off, reference);
            forall q :: r - off < q <= pos - off ==> GroupOf(text, q) == reference
    decreases pos
  {
    if pos - off >= 0 && GroupOf(text, pos - off) == reference {
      WalkLeftPassesReference(text, pos - 1, off, reference);
    }
  }

  /** Where the rightward loop of seek_until_different_token stops: it steps right while the
      byte at pos + off exists and belongs to `reference`. The source compares the int
      pos + off with the unsigned text size, so a negative pos + off also stops the walk. */
  function WalkRight(text: seq<char>, pos: int, off: nat, reference: Group): (r: int)
    ensures pos <= r
    ensures r == pos || r + off <= |text|
    ensures !(0 <= r + off < |text| && GroupOf(text, r + off) == reference)
    decreases |text| - pos
  {
    if 0 <= pos + off < |text| && GroupOf(text, pos + off) == reference then
      WalkRight(text, pos + 1, off, reference)
    else
      pos
  }

  /** Every byte the rightward walk steps over belongs to the reference group. */
  lemma {:induction false} WalkRightPassesReference(text: seq<char>, pos: int, off: nat, reference: Group)
    ensures var r := WalkRight(text, pos, off, reference);
            forall q :: pos + off <= q < r + off ==> GroupOf(text, q) == reference
    decreases |text| - pos
  {
    if 0 <= pos + off < |text| && GroupOf(text, pos + off) == reference {
      WalkRightPassesReference(text, pos + 1, off, reference);
    }
  }

  /** seek_until_different_token in either direction. */
  function Walk(text: seq<char>, pos: int, direction: Motion, off: nat, reference: Group): int
  {
    if direction == Left then WalkLeft(text, pos, off, reference) else WalkRight(text, pos, off, reference)
  }

  /** go_to_edge: leftwards stop right before the first byte of another group, rightwards
      cover the run and stop on the first byte of another group. */
  function ToEdge(text: seq<char>, pos: int, direction: Motion, reference: Group): int
  {
    if direction == Left then WalkLeft(text, pos, 1, reference) else WalkRight(text, pos, 0, reference)
  }

  /** The target of a word jump (seek_token). The reference group is the one on the side the
      cursor moves towards; after a run of spaces the walk goes on through the group that
      group_to reports at the stopping point. */
  function SeekTokenTarget(text: seq<char>, cursor: int, direction: Motion): (r: int)
    requires 0 <= cursor <= |text|
    ensures 0 <= r <= |text|
    ensures direction == Left ==> r <= cursor
    ensures direction == Right ==> cursor <= r
  {
    var reference := GroupOf(text, if direction == Left then cursor - 1 else cursor);
    var edge := ToEdge(text, cursor, direction, reference);
    if reference == Space then ToEdge(text, edge, direction, GroupToward(text, edge, direction))
    else edge
  }

  /** seek_until_specific_token leftwards: step left until the byte to the left is missing
      or belongs to `target`. */
  function SeekSpecificLeft(text: seq<char>, pos: int, target: Group): (r: int)
    ensures r <= pos
    ensures GroupOf(text, r - 1) == None || GroupOf(text, r - 1) == target
    decreases pos
  {
    var g := GroupOf(text, pos - 1);
    if g != None && g != target then SeekSpecificLeft(text, pos - 1, target) else pos
  }

  /** The leftward scan passes no byte of the wanted group and no position outside the text. */
  lemma {:induction false} SeekSpecificLeftPassesNone(text: seq<char>, pos: int, target: Group)
    ensures var r := SeekSpecificLeft(text, pos, target);
            forall q :: r <= q < pos ==> GroupOf(text, q) != None && GroupOf(text, q) != target
    decreases pos
  {
    var g := GroupOf(text, pos - 1);
    if g != None && g != target {
      SeekSpecificLeftPassesNone(text, pos - 1, target);
    }
  }

  /** seek_until_specific_token rightwards: step right until the byte to the right is
      missing or belongs to `target`. */
  function SeekSpecificRight(text: seq<char>, pos: int, target: Group): (r: int)
    ensures pos <= r
    ensures GroupOf(text, r + 1) == None || GroupOf(text, r + 1) == target
    decreases |text| - pos
  {
    var g := GroupOf(text, pos + 1);
    if g != None && g != target then SeekSpecificRight(text, pos + 1, target) else pos
  }

  /** The rightward scan passes no byte of the wanted group and no position outside the text. */
  lemma {:induction false} SeekSpecificRightPassesNone(text: seq<char>, pos: int, target: Group)
    ensures var r := SeekSpecificRight(text, pos, target);
            forall q :: pos < q <= r ==> GroupOf(text, q) != None && GroupOf(text, q) != target
    decreases |text| - pos
  {
    var g := GroupOf(text, pos + 1);
    if g != None && g != target {
      SeekSpecificRightPassesNone(text, pos + 1, target);
    }
  }

  function SeekSpecific(text: seq<char>, pos: int, direction: Motion, target: Group): int
  {
    if direction == Left then SeekSpecificLeft(text, pos, target) else SeekSpecificRight(text, pos, target)
  }

  /** Home: just after the nearest newline before the cursor, or the start of the text. */
  function LineStart(text: seq<char>, cursor: int): (r: int)
    requires 0 <= cursor <= |text|
    ensures 0 <= r <= cursor
    ensures r == 0 || text[r - 1] == '\n'
    ensures forall k :: r <= k < cursor ==> text[k] != '\n'
  {
    var r := SeekSpecificLeft(text, cursor, Newline);
    SeekSpecificLeftPassesNone(text, cursor, Newline);
    assert r < cursor ==> GroupOf(text, r) != None;
    assert forall k :: r <= k < cursor ==> text[k] != '\n' by {
      forall k | r <= k < cursor ensures text[k] != '\n' {
        assert GroupOf(text, k) != Newline;
      }
    }
    r
  }

  /** End: the first newline at or after the cursor, or the end of the text. The scan starts
      one byte to the left of the cursor and the result is one past where it stops. */
  function LineEnd(text: seq<char>, cursor: int): (r: int)
    requires 0 <= cursor <= |text|
    ensures cursor <= r <= |text|
    ensures r == |text| || text[r] == '\n'
    ensures forall k :: cursor <= k < r ==> text[k] != '\n'
  {
    var p := SeekSpecificRight(text, cursor - 1, Newline);
    SeekSpecificRightPassesNone(text, cursor - 1, Newline);
    assert p >= cursor ==> GroupOf(text, p) != None;
    assert forall k :: cursor <= k < p + 1 ==> text[k] != '\n' by {
      forall k | cursor <= k < p + 1 ensures text[k] != '\n' {
        assert GroupOf(text, k) != Newline;
      }
    }
    p + 1
  }

  /** A word jump always moves when there is room to move. */
  lemma SeekTokenProgress(text: seq<char>, cursor: int, direction: Motion)
    requires 0 <= cursor <= |text|
    ensures direction == Left && cursor > 0 ==> SeekTokenTarget(text, cursor, direction) < cursor
    ensures direction == Right && cursor < |text| ==> SeekTokenTarget(text, cursor, direction) > cursor
  {
  }

  /** A word jump lands on a group boundary or at an end of the text. */
  lemma SeekTokenStopsAtBoundary(text: seq<char>, cursor: int, direction: Motion)
    requires 0 <= cursor <= |text|
    ensures var r := SeekTokenTarget(text, cursor, direction);
            r == 0 || r == |text| || GroupOf(text, r - 1) != GroupOf(text, r)
  {
    var reference := GroupOf(text, if direction == Left then cursor - 1 else cursor);
    var edge := ToEdge(text, cursor, direction, reference);
    if direction == Left {
      WalkLeftPassesReference(text, cursor, 1, reference);
      if reference == Space {
        WalkLeftPassesReference(text, edge, 1, GroupToward(text, edge, Left));
      }
    } else {
      WalkRightPassesReference(text, cursor, 0, reference);
      if reference == Space {
        WalkRightPassesReference(text, edge, 0, GroupToward(text, edge, Right));
      }
    }
  }

  /** Ctrl+Right at the end of "foo" in "foo  bar" crosses the spaces and the next word. */
  lemma JumpRightCrossesSpacesAndWord()
    ensures SeekTokenTarget("foo  bar", 3, Right) == 8
  {
    var t := "foo  bar";
    LowercaseIsNormal(t, 5);
    LowercaseIsNormal(t, 6);
    LowercaseIsNormal(t, 7);
    assert WalkRight(t, 3, 0, Space) == 5;
    assert WalkRight(t, 5, 0, Normal) == 8;
  }

  /** Ctrl+Right at the start of "foo" in "foo  bar" stops at the end of "foo". */
  lemma JumpRightStopsAtWordEnd()
    ensures SeekTokenTarget("foo  bar", 0, Right) == 3
  {
    var t := "foo  bar";
    LowercaseIsNormal(t, 0);
    LowercaseIsNormal(t, 1);
    LowercaseIsNormal(t, 2);
  }

  /** Ctrl+Left at the end of "foo  bar" stops at the start of "bar". */
  lemma JumpLeftStopsAtWordStart()
    ensures SeekTokenTarget("foo  bar", 8, Left) == 5
  {
    var t := "foo  bar";
    LowercaseIsNormal(t, 2);
    LowercaseIsNormal(t, 5);
    LowercaseIsNormal(t, 6);
    LowercaseIsNormal(t, 7);
  }

  /** Ctrl+Left just after spaces crosses them and the word before them. */
  lemma JumpLeftCrossesSpacesAndWord()
    ensures SeekTokenTarget("foo  bar", 5, Left) == 0
  {
    var t := "foo  bar";
    LowercaseIsNormal(t, 0);
    LowercaseIsNormal(t, 1);
    LowercaseIsNormal(t, 2);
  }

  /** After a run of spaces Ctrl+Right picks the next group from the byte one past the edge,
      so in "a  b" a one-byte last word is not crossed: from the end of "a" the jump stops in
      front of "b" (the same motion on "foo  bar" crosses "bar"). */
  lemma JumpRightLooksOneByteAhead()
    ensures SeekTokenTarget("a  b", 1, Right) == 3
  {
  }

  /** Home and End on the second line of "ab\ncd". */
  lemma HomeAndEndOnSecondLine()
    ensures LineStart("ab\ncd", 4) == 3 && LineEnd("ab\ncd", 4) == 5
    ensures LineStart("ab\ncd", 1) == 0 && LineEnd("ab\ncd", 1) == 2
  {
  }

  /** The Seeker of a motion query: a snapshot of the text and of the cursor it started
      from, and the position it walks. */
  class Seeker {
    const text: seq<char>
    var startPos: int
    var currentPos: int
    var startingGroupToLeft: Group
    var startingGroupToRight: Group
    var sameTokenTypeToLeftAndRight: bool
    var differentTokenTypeToAtleastOneSide: bool

    constructor (text: seq<char>, cursor: int)
      ensures this.text == text && startPos == cursor && currentPos == cursor
      ensures startingGroupToLeft == GroupOf(text, cursor - 1)
      ensures startingGroupToRight == GroupOf(text, cursor)
      ensures sameTokenTypeToLeftAndRight == (startingGroupToLeft == startingGroupToRight)
      ensures differentTokenTypeToAtleastOneSide == !sameTokenTypeToLeftAndRight
    {
      this.text := text;
      startPos := cursor;
      currentPos := cursor;
      new;
      var left := GroupAt(startPos - 1);
      var right := GroupAt(startPos);
      startingGroupToLeft, startingGroupToRight := left, right;
      sameTokenTypeToLeftAndRight := right == left;
      differentTokenTypeToAtleastOneSide := !sameTokenTypeToLeftAndRight;
    }

    /** group_at: classifies the byte at `pos`, scanning the token list. */
    method GroupAt(pos: int) returns (g: Group)
      ensures g == GroupOf(text, pos)
    {
      if pos < 0 || pos >= |text| {
        return None;
      }
      var c := text[pos];
      if c == ' ' {
        return Space;
      }
      if c == '\n' {
        return Newline;
      }
      for i := 0 to |TokensList|
        invariant c !in TokensList[..i]
      {
        if TokensList[i] == c {
          TokensListIsToken(c);
          return Token;
        }
      }
      TokensListIsToken(c);
      return Normal;
    }

    /** group_to: the group one byte from the current position. */
    method GroupTo(direction: Motion) returns (g: Group)
      ensures g == GroupToward(text, currentPos, direction)
    {
      var off := 0;
      if direction == Right {
        off := 1;
      } else if direction == Left {
        off := -1;
      }
      g := GroupAt(currentPos + off);
    }

    /** seek_until_different_token: walks while the probed byte stays in the starting group
        to the right, and returns the group of the byte that stopped it. */
    method SeekUntilDifferentToken(direction: Motion, off: nat) returns (g: Group)
      modifies this`currentPos
      ensures currentPos == Walk(text, old(currentPos), direction, off, startingGroupToRight)
      ensures g == GroupOf(text, if direction == Left then currentPos - off else currentPos + off)
    {
      if direction == Left {
        while currentPos - off >= 0
          invariant WalkLeft(text, currentPos, off, startingGroupToRight)
                 == WalkLeft(text, old(currentPos), off, startingGroupToRight)
          decreases currentPos
        {
          var newGroup := GroupAt(currentPos - off);
          if newGroup != startingGroupToRight {
            return newGroup;
          }
          currentPos := currentPos - 1;
        }
      } else {
        while 0 <= currentPos + off < |text|
          invariant WalkRight(text, currentPos, off, startingGroupToRight)
                 == WalkRight(text, old(currentPos), off, startingGroupToRight)
          decreases |text| - currentPos
        {
          var newGroup := GroupAt(currentPos + off);
          if newGroup != startingGroupToRight {
            return newGroup;
          }
          currentPos := currentPos + 1;
        }
      }
      return None;
    }

    method SeekUntilRightBeforeDifferentToken(direction: Motion) returns (g: Group)
      modifies this`currentPos
      ensures currentPos == Walk(text, old(currentPos), direction, 1, startingGroupToRight)
      ensures g == GroupOf(text, if direction == Left then currentPos - 1 else currentPos + 1)
    {
      g := SeekUntilDifferentToken(direction, 1);
    }

    method SeekAndCoverDifferentToken(direction: Motion) returns (g: Group)
      modifies this`currentPos
      ensures currentPos == Walk(text, old(currentPos), direction, 0, startingGroupToRight)
      ensures g == GroupOf(text, currentPos)
    {
      g := SeekUntilDifferentToken(direction, 0);
    }

    /** seek_until_specific_token: walks until the neighbouring byte is missing or belongs to
        `specificToken`, and reports whether it found one. */
    method SeekUntilSpecificToken(direction: Motion, specificToken: Group) returns (found: bool)
      modifies this`currentPos
      ensures currentPos == SeekSpecific(text, old(currentPos), direction, specificToken)
      ensures found <==> specificToken != None && GroupToward(text, currentPos, direction) == specificToken
    {
      var activeGroup := GroupTo(direction);
      while activeGroup != None
        invariant activeGroup == GroupToward(text, currentPos, direction)
        invariant SeekSpecific(text, currentPos, direction, specificToken)
               == SeekSpecific(text, old(currentPos), direction, specificToken)
        decreases if direction == Left then currentPos else |text| - currentPos
      {
        if activeGroup == specificToken {
          return true;
        }
        currentPos := currentPos + (if direction == Left then -1 else 1);
        activeGroup := GroupTo(direction);
      }
      return false;
    }
  }

  /** go_to_edge */
  method GoToEdge(seeker: Seeker, direction: Motion)
    modifies seeker`currentPos
    ensures seeker.currentPos == ToEdge(seeker.text, old(seeker.currentPos), direction, seeker.startingGroupToRight)
  {
    if direction == Left {
      var boundary := seeker.SeekUntilRightBeforeDifferentToken(direction);
    } else {
      var boundary := seeker.SeekAndCoverDifferentToken(direction);
    }
  }

  /** seek_token: the target of Ctrl+Left/Right and of Ctrl+Backspace/Delete. */
  method SeekToken(text: seq<char>, cursor: int, direction: Motion) returns (target: int)
    requires 0 <= cursor <= |text|
    ensures target == SeekTokenTarget(text, cursor, direction)
  {
    var seeker := new Seeker(text, cursor);
    if seeker.sameTokenTypeToLeftAndRight {
      GoToEdge(seeker, direction);
      if seeker.startingGroupToRight == Space {
        var g := seeker.GroupTo(direction);
        seeker.startingGroupToRight, seeker.startingGroupToLeft := g, g;
        GoToEdge(seeker, direction);
      }
    } else if seeker.differentTokenTypeToAtleastOneSide {
      if direction == Left {
        var g := seeker.GroupTo(direction);
        seeker.startingGroupToRight, seeker.startingGroupToLeft := g, g;
        GoToEdge(seeker, direction);
        if seeker.startingGroupToRight == Space {
          g := seeker.GroupTo(direction);
          seeker.startingGroupToRight, seeker.startingGroupToLeft := g, g;
          GoToEdge(seeker, direction);
        }
      } else {
        GoToEdge(seeker, direction);
        if seeker.startingGroupToRight == Space {
          var g := seeker.GroupTo(direction);
          seeker.startingGroupToRight, seeker.startingGroupToLeft := g, g;
          GoToEdge(seeker, direction);
        }
      }
    }
    target := seeker.currentPos;
  }

  /** The Home key's scan: a Seeker at the cursor walks left to the nearest newline. */
  method LineStartTarget(text: seq<char>, cursor: int) returns (target: int)
    requires 0 <= cursor <= |text|
    ensures target == LineStart(text, cursor)
  {
    var seeker := new Seeker(text, cursor);
    var found := seeker.SeekUntilSpecificToken(Left, Newline);
    target := seeker.currentPos;
  }

  /** The End key's scan: a Seeker one byte left of the cursor walks right to the nearest
      newline, and the target is one past where it stops. */
  method LineEndTarget(text: seq<char>, cursor: int) returns (target: int)
    requires 0 <= cursor <= |text|
    ensures target == LineEnd(text, cursor)
  {
    var seeker := new Seeker(text, cursor);
    seeker.currentPos := seeker.currentPos - 1;
    var found := seeker.SeekUntilSpecificToken(Right, Newline);
    target := seeker.currentPos + 1;
  }
}

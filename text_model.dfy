/** The text an editor holds, as the pair of character sequences on either
    side of its cursor, and the effect of every editing command on that
    pair. The editor class is proved to follow these definitions; the
    lemmas here state what the commands promise about the text. */
module TextModel {
  import CharNodes

  /** The characters before the cursor and the characters after it. */
  datatype Text = Text(left: seq<char>, right: seq<char>)

  /** The whole text, ignoring the cursor. */
  function Contents(t: Text): (s: seq<char>)
    ensures |s| == |t.left| + |t.right|
  {
    t.left + t.right
  }

  /** The text with a caret at the cursor. */
  function Render(t: Text): seq<char>
  {
    t.left + "^" + t.right
  }

  /** Typing `c` at the cursor. */
  function InsertChar(t: Text, c: char): Text
  {
    Text(t.left + [c], t.right)
  }

  /** Deleting the character after the cursor, if there is one. */
  function DeleteChar(t: Text): Text
  {
    if t.right == [] then t else Text(t.left, t.right[1..])
  }

  /** Backspace as the editor performs it: the character before the cursor
      goes, except that a lone character before the cursor is overwritten
      with `Nul` instead of removed. */
  function Backspace(t: Text): Text
  {
    if t.left == [] then t
    else if |t.left| == 1 then Text([CharNodes.Nul], t.right)
    else Text(t.left[..|t.left| - 1], t.right)
  }

  /** Backspace as intended: the character before the cursor, if any, goes. */
  function BackspaceFixed(t: Text): Text
  {
    if t.left == [] then t else Text(t.left[..|t.left| - 1], t.right)
  }

  function FrontOfString(t: Text): Text
  {
    Text([], t.left + t.right)
  }

  function EndOfString(t: Text): Text
  {
    Text(t.left + t.right, [])
  }

  function MoveLeft(t: Text): Text
  {
    if t.left == [] then t
    else Text(t.left[..|t.left| - 1], [t.left[|t.left| - 1]] + t.right)
  }

  function MoveRight(t: Text): Text
  {
    if t.right == [] then t else Text(t.left + [t.right[0]], t.right[1..])
  }

  /** The editor dereferences a missing last node of the left list: insertion
      does so when the cursor is at the front of a non-empty text. */
  predicate InsertFails(t: Text)
  {
    t.left == [] && t.right != []
  }

  /** Jumping to the front fails whenever the cursor is already there. */
  predicate FrontFails(t: Text)
  {
    t.left == []
  }

  /** Jumping to the end fails when the cursor is at the front of a
      non-empty text. */
  predicate EndFails(t: Text)
  {
    t.left == [] && t.right != []
  }

  /** `n` presses of the left arrow. */
  function MoveLeftTimes(t: Text, n: nat): Text
    decreases n
  {
    if n == 0 then t else MoveLeftTimes(MoveLeft(t), n - 1)
  }

  /** `n` presses of the right arrow. */
  function MoveRightTimes(t: Text, n: nat): Text
    decreases n
  {
    if n == 0 then t else MoveRightTimes(MoveRight(t), n - 1)
  }

  /** `n` presses of delete. */
  function DeleteTimes(t: Text, n: nat): Text
    decreases n
  {
    if n == 0 then t else DeleteTimes(DeleteChar(t), n - 1)
  }

  /** `n` presses of the corrected backspace. */
  function BackspaceFixedTimes(t: Text, n: nat): Text
    decreases n
  {
    if n == 0 then t else BackspaceFixedTimes(BackspaceFixed(t), n - 1)
  }

  /** The caret sits right after the characters before the cursor. */
  lemma RenderShowsCursor(t: Text)
    ensures |Render(t)| == |Contents(t)| + 1 && Render(t)[|t.left|] == '^'
    ensures Render(t)[..|t.left|] == t.left && Render(t)[|t.left| + 1..] == t.right
  {
    assert Render(t) == t.left + (['^'] + t.right);
  }

  /** Moving the cursor, or jumping to either end, never changes the text. */
  lemma MovesKeepContents(t: Text)
    ensures Contents(MoveLeft(t)) == Contents(t) && Contents(MoveRight(t)) == Contents(t)
    ensures Contents(FrontOfString(t)) == Contents(t) && Contents(EndOfString(t)) == Contents(t)
  {
    if t.left != [] {
      var l := t.left;
      assert l == l[..|l| - 1] + [l[|l| - 1]];
    }
    if t.right != [] {
      var r := t.right;
      assert r == [r[0]] + r[1..];
    }
  }

  /** A left move takes the last character before the cursor. */
  lemma MoveLeftLast(l: seq<char>, r: seq<char>)
    requires l != []
    ensures MoveLeft(Text(l, r)) == Text(l[..|l| - 1], [l[|l| - 1]] + r)
  {
  }

  /** A right move followed by a left move puts the cursor back. */
  lemma MoveRightThenLeft(t: Text)
    requires t.right != []
    ensures MoveLeft(MoveRight(t)) == t
  {
    var l := t.left + [t.right[0]];
    assert l[..|l| - 1] == t.left;
    assert [l[|l| - 1]] + t.right[1..] == t.right;
  }

  /** A left move followed by a right move puts the cursor back. */
  lemma MoveLeftThenRight(t: Text)
    requires t.left != []
    ensures MoveRight(MoveLeft(t)) == t
  {
    var l := t.left;
    assert l[..|l| - 1] + [l[|l| - 1]] == l;
  }

  /** Inserting then backspacing restores the text, provided the cursor was
      not at the front. */
  lemma InsertThenBackspace(t: Text, c: char)
    requires t.left != []
    ensures Backspace(InsertChar(t, c)) == t
  {
    assert (t.left + [c])[..|t.left|] == t.left;
  }

  /** With the cursor at the front, insert then backspace does not give
      back the text for the reason one expects: on the empty text it leaves
      `Nul` before the cursor, and on a non-empty text the insertion fails,
      so the text is unchanged only because nothing was inserted. */
  lemma InsertThenBackspaceAtFront(right: seq<char>, c: char)
    ensures right == [] ==> Backspace(InsertChar(Text([], right), c)) == Text([CharNodes.Nul], [])
    ensures right != [] ==> InsertFails(Text([], right)) && Backspace(Text([], right)) == Text([], right)
  {
  }

  /** Backspacing a one-character text shows a `Nul` and the caret. */
  lemma BackspaceSingle(c: char)
    ensures Render(Backspace(Text([c], []))) == [CharNodes.Nul, '^']
  {
  }

  /** The corrected backspace undoes an insertion at any cursor position. */
  lemma BackspaceFixedUndoesInsert(t: Text, c: char)
    ensures BackspaceFixed(InsertChar(t, c)) == t
  {
    assert (t.left + [c])[..|t.left|] == t.left;
  }

  /** The as-written backspace agrees with the corrected one except on a
      lone character before the cursor. */
  lemma BackspaceAgrees(t: Text)
    ensures Backspace(t) == BackspaceFixed(t) <==> |t.left| != 1
  {
    if |t.left| == 1 {
      assert BackspaceFixed(t).left == [];
    }
  }

  /** Each failing case is reachable: a text with the cursor at the front. */
  lemma FailuresOccur(right: seq<char>)
    requires right != []
    ensures InsertFails(Text([], right)) && FrontFails(Text([], right)) && EndFails(Text([], right))
    ensures FrontFails(Text([], []))
  {
  }

  /** Pressing left as many times as there are characters before the cursor
      moves those characters, in order, to the front of the right part. */
  lemma {:induction false} MoveLeftTimesShifts(l: seq<char>, m: seq<char>, r: seq<char>)
    ensures MoveLeftTimes(Text(l + m, r), |m|) == Text(l, m + r)
    decreases |m|
  {
    if m != [] {
      var k := |m| - 1;
      assert (l + m)[..|l + m| - 1] == l + m[..k];
      assert [(l + m)[|l + m| - 1]] + r == [m[k]] + r;
      MoveLeftTimesShifts(l, m[..k], [m[k]] + r);
      assert m[..k] + ([m[k]] + r) == m + r;
    } else {
      assert l + m == l;
    }
  }

  /** Jumping to the front is pressing left until the cursor is there. */
  lemma FrontIsMovesLeft(t: Text)
    ensures MoveLeftTimes(t, |t.left|) == FrontOfString(t)
  {
    MoveLeftTimesShifts([], t.left, t.right);
    assert [] + t.left == t.left;
  }

  /** Pressing right `|m|` times moves `m` from the front of the right part
      to the end of the left part. */
  lemma {:induction false} MoveRightTimesShifts(l: seq<char>, m: seq<char>, r: seq<char>)
    ensures MoveRightTimes(Text(l, m + r), |m|) == Text(l + m, r)
    decreases |m|
  {
    if m != [] {
      assert (m + r)[0] == m[0] && (m + r)[1..] == m[1..] + r;
      MoveRightTimesShifts(l + [m[0]], m[1..], r);
      assert l + [m[0]] + m[1..] == l + m;
    } else {
      assert m + r == r && l + m == l;
    }
  }

  /** Jumping to the end is pressing right until the cursor is there. */
  lemma EndIsMovesRight(t: Text)
    ensures MoveRightTimes(t, |t.right|) == EndOfString(t)
  {
    MoveRightTimesShifts(t.left, t.right, []);
    assert t.right + [] == t.right;
  }

  /** Deleting `|m|` times removes `m` from the front of the right part. */
  lemma {:induction false} DeleteTimesRemoves(l: seq<char>, m: seq<char>, r: seq<char>)
    ensures DeleteTimes(Text(l, m + r), |m|) == Text(l, r)
    decreases |m|
  {
    if m != [] {
      assert (m + r)[1..] == m[1..] + r;
      DeleteTimesRemoves(l, m[1..], r);
    } else {
      assert m + r == r;
    }
  }

  /** One more delete acts on the text the earlier deletes left. */
  lemma {:induction false} DeleteTimesSplit(t: Text, n: nat)
    ensures DeleteTimes(t, n + 1) == DeleteChar(DeleteTimes(t, n))
    decreases n
  {
    if n > 0 {
      DeleteTimesSplit(DeleteChar(t), n - 1);
    }
  }

  /** Deleting as many times as there are characters after the cursor
      empties the right part. */
  lemma DeleteAllAfterCursor(t: Text)
    ensures DeleteTimes(t, |t.right|) == Text(t.left, [])
  {
    DeleteTimesRemoves(t.left, t.right, []);
    assert t.right + [] == t.right;
  }

  /** The corrected backspace, pressed `|m|` times, removes `m` from the end
      of the left part. */
  lemma {:induction false} BackspaceFixedTimesRemoves(l: seq<char>, m: seq<char>, r: seq<char>)
    ensures BackspaceFixedTimes(Text(l + m, r), |m|) == Text(l, r)
    decreases |m|
  {
    if m != [] {
      var k := |m| - 1;
      assert (l + m)[..|l + m| - 1] == l + m[..k];
      BackspaceFixedTimesRemoves(l, m[..k], r);
    } else {
      assert l + m == l;
    }
  }

  /** The corrected backspace, pressed once per character before the
      cursor, empties the left part. */
  lemma BackspaceAllBeforeCursor(t: Text)
    ensures BackspaceFixedTimes(t, |t.left|) == Text([], t.right)
  {
    BackspaceFixedTimesRemoves([], t.left, t.right);
    assert [] + t.left == t.left;
  }
}

/** The editor used as its callers use it: one command after another on an
    editor built from two strings, reading back the rendering. */
module Scenarios {
  import opened Editor
  import CharNodes
  import TextModel

  /** An editor built from two strings renders them around the caret. */
  method BuildThenRender(left: string, right: string) returns (s: string)
    ensures s == left + "^" + right
  {
    var e := new StringEditor.FromStrings(left, right);
    s := e.ToString();
  }

  /** An empty editor renders as the caret alone; typing `a` puts it
      before the caret. */
  method TypeIntoEmpty() returns (before: string, outcome: Outcome, after: string)
    ensures before == "^" && outcome == Done && after == "a^"
  {
    var e := new StringEditor();
    before := e.ToString();
    outcome := e.InsertChar('a');
    after := e.ToString();
  }

  /** Typing `a` into an empty editor and backspacing leaves `Nul` before
      the caret. */
  method TypeThenBackspace() returns (s: string)
    ensures s == [CharNodes.Nul, '^']
  {
    var e := new StringEditor();
    var outcome := e.InsertChar('a');
    e.Backspace();
    assert e.State() == TextModel.Text([CharNodes.Nul], "");
    s := e.ToString();
  }

  /** Moving left in "ab^cd" gives "a^bcd". */
  method MoveLeftOnce() returns (s: string)
    ensures s == "a^bcd"
  {
    var e := new StringEditor.FromStrings("ab", "cd");
    e.MoveCursorLeft();
    s := e.ToString();
  }

  /** Jumping to the front of "ab^cd" gives "^abcd", and jumping there
      again throws. */
  method JumpToFront() returns (first: Outcome, s: string, second: Outcome)
    ensures first == Done && s == "^abcd" && second == Threw(CharNodes.NullPointer)
  {
    var e := new StringEditor.FromStrings("ab", "cd");
    first := e.FrontOfString();
    assert e.State() == TextModel.Text("", "abcd");
    s := e.ToString();
    assert s == "^abcd";
    second := e.FrontOfString();
  }

  /** Jumping to the end of "ab^cd" gives "abcd^". */
  method JumpToEnd() returns (outcome: Outcome, s: string)
    ensures outcome == Done && s == "abcd^"
  {
    var e := new StringEditor.FromStrings("ab", "cd");
    outcome := e.EndOfString();
    assert e.State() == TextModel.Text("abcd", "");
    s := e.ToString();
  }

  /** Jumping to the end from the front of "^cd" throws. */
  method JumpToEndFromFront() returns (outcome: Outcome)
    ensures outcome == Threw(CharNodes.NullPointer)
  {
    var e := new StringEditor.FromStrings("", "cd");
    outcome := e.EndOfString();
  }

  /** Backspace on "a^" leaves `Nul` before the caret. */
  method BackspaceLone() returns (s: string)
    ensures s == [CharNodes.Nul, '^']
  {
    var e := new StringEditor.FromStrings("a", "");
    e.Backspace();
    assert e.State() == TextModel.Text([CharNodes.Nul], "");
    s := e.ToString();
  }

  /** The corrected backspace on "a^" leaves the caret alone. */
  method BackspaceFixedLone() returns (s: string)
    ensures s == "^"
  {
    var e := new StringEditor.FromStrings("a", "");
    e.BackspaceFixed();
    assert e.State() == TextModel.Text("", "");
    s := e.ToString();
  }

  /** A right move followed by a left move leaves the editor holding the
      text and cursor it had. */
  method RightThenLeft(e: StringEditor)
    requires e.Valid() && e.Right() != []
    modifies e, e.leftNodes, e.rightNodes
    ensures e.Valid() && e.State() == old(e.State())
  {
    e.MoveCursorRight();
    e.MoveCursorLeft();
    TextModel.MoveRightThenLeft(old(e.State()));
  }

  /** Typing a character and then backspacing leaves the editor holding
      the text it had, when the cursor is not at the front. */
  method InsertThenBackspace(e: StringEditor, c: char) returns (outcome: Outcome)
    requires e.Valid() && e.Left() != []
    modifies e, e.leftNodes, e.rightNodes
    ensures outcome == Done && e.Valid() && e.State() == old(e.State())
  {
    outcome := e.InsertChar(c);
    e.Backspace();
    TextModel.InsertThenBackspace(old(e.State()), c);
  }

  /** Types every character of `entry` in turn, as the menu's insert
      command does. The first insertion throws, and the rest are not
      reached, exactly when the cursor is at the front of a non-empty text;
      otherwise `entry` ends up right before the cursor. */
  method TypeString(e: StringEditor, entry: string) returns (outcome: Outcome)
    requires e.Valid()
    modifies e, e.leftNodes, e.rightNodes
    ensures e.Valid()
    ensures entry != [] && TextModel.InsertFails(old(e.State())) ==>
      outcome == Threw(CharNodes.NullPointer) && e.State() == old(e.State())
    ensures entry == [] || !TextModel.InsertFails(old(e.State())) ==>
      outcome == Done && e.State() == TextModel.Text(old(e.Left()) + entry, old(e.Right()))
  {
    ghost var before, after := e.Left(), e.Right();
    outcome := Done;
    var i := 0;
    while i < |entry|
      invariant 0 <= i <= |entry| && e.Valid() && e.KeptOrFresh() && outcome == Done
      invariant e.State() == TextModel.Text(before + entry[..i], after)
      invariant i > 0 ==> !TextModel.InsertFails(TextModel.Text(before, after))
    {
      assert i == 0 ==> before + entry[..i] == before;
      PrefixSnoc(before, entry, i);
      outcome := e.InsertChar(entry[i]);
      if outcome.Threw? {
        return;
      }
      i := i + 1;
    }
    assert entry[..i] == entry;
  }

  /** Deleting once per node after the cursor brings the cursor to the end
      and keeps the text before it. */
  method DeleteToEnd(e: StringEditor) returns (atEnd: bool)
    requires e.Valid()
    modifies e
    ensures atEnd && e.Valid() && e.State() == TextModel.Text(old(e.Left()), [])
  {
    var n := CharNodes.CharNode.ListLength(e.rightList, e.rightNodes);
    var i := 0;
    while i < n
      invariant 0 <= i <= n && e.Valid() && n == i + |e.rightNodes|
      invariant e.State() == TextModel.DeleteTimes(old(e.State()), i)
    {
      TextModel.DeleteTimesSplit(old(e.State()), i);
      e.DeleteChar();
      i := i + 1;
    }
    atEnd := e.IsCursorAtEnd();
    TextModel.DeleteAllAfterCursor(old(e.State()));
  }
}

/** A text editor that keeps the characters before its cursor in one linked
    list and the characters after it in another. Each command rewires or
    copies the nodes of these lists; each is proved to act on the pair of
    texts as the matching function of `TextModel` says. */
module Editor {
  import opened CharNodes
  import TextModel

  /** How a command ended: normally, or by throwing. */
  datatype Outcome = Done | Threw(fault: Fault)

  /** Builds a fresh list holding `s`, one node at a time, as the
      two-string constructor does for each of its arguments. */
  method BuildList(s: seq<char>) returns (head: CharNode?, ghost ns: seq<CharNode>)
    ensures IsChain(head, ns) && Chars(ns) == s && fresh(ns)
  {
    if |s| == 0 {
      return null, [];
    }
    var first := new CharNode(s[0], null);
    var tail: CharNode := first;
    ghost var prefix: seq<CharNode> := [];
    var i := 1;
    while i < |s|
      invariant 1 <= i <= |s| && Copying(first, prefix, tail, s, i - 1)
      invariant fresh(tail) && fresh(prefix)
    {
      ghost var last := tail;
      tail := CharNode.AppendToCopy(first, prefix, tail, s[i], s, i - 1);
      FreshSnoc(prefix, last);
      prefix := prefix + [last];
      i := i + 1;
    }
    CopyDone(first, prefix, tail, s, i - 1);
    FreshSnoc(prefix, tail);
    assert s[..i] == s;
    return first, prefix + [tail];
  }

  /** Reading one more character of `cs` extends the text read so far. */
  lemma PrefixSnoc(front: string, cs: seq<char>, i: nat)
    requires i < |cs|
    ensures front + cs[..i + 1] == front + cs[..i] + [cs[i]]
  {
    assert cs[..i + 1] == cs[..i] + [cs[i]];
  }

  class StringEditor {
    var leftList: CharNode?
    var rightList: CharNode?
    /** The nodes of the list before the cursor, and of the list after it. */
    ghost var leftNodes: seq<CharNode>
    ghost var rightNodes: seq<CharNode>

    /** Both lists are well formed and share no node. */
    ghost predicate Valid()
      reads this, leftNodes, rightNodes
    {
      IsChain(leftList, leftNodes) && IsChain(rightList, rightNodes) && Disjoint(leftNodes, rightNodes)
    }

    ghost function Left(): seq<char>
      reads this, leftNodes
    {
      Chars(leftNodes)
    }

    ghost function Right(): seq<char>
      reads this, rightNodes
    {
      Chars(rightNodes)
    }

    /** The text this editor holds, split at its cursor. */
    ghost function State(): TextModel.Text
      reads this, leftNodes, rightNodes
    {
      TextModel.Text(Left(), Right())
    }

    /** Every node the two lists hold now was held by them before or is
        new, so a caller that may change the old nodes may change these. */
    twostate predicate KeptOrFresh()
      reads this
    {
      (forall i :: 0 <= i < |leftNodes| ==>
         leftNodes[i] in old(leftNodes) || leftNodes[i] in old(rightNodes) || fresh(leftNodes[i])) &&
      (forall i :: 0 <= i < |rightNodes| ==>
         rightNodes[i] in old(leftNodes) || rightNodes[i] in old(rightNodes) || fresh(rightNodes[i]))
    }

    /** An empty editor. */
    constructor ()
      ensures Valid() && State() == TextModel.Text([], [])
      ensures fresh(leftNodes) && fresh(rightNodes)
    {
      leftList, rightList := null, null;
      leftNodes, rightNodes := [], [];
    }

    /** An editor holding `left` before the cursor and `right` after it. */
    constructor FromStrings(left: seq<char>, right: seq<char>)
      ensures Valid() && State() == TextModel.Text(left, right)
      ensures fresh(leftNodes) && fresh(rightNodes)
    {
      var l, ln := BuildList(left);
      var r, rn := BuildList(right);
      leftList, leftNodes := l, ln;
      rightList, rightNodes := r, rn;
    }

    method IsCursorAtFront() returns (b: bool)
      requires Valid()
      ensures b <==> Left() == []
    {
      return leftList == null;
    }

    method IsCursorAtEnd() returns (b: bool)
      requires Valid()
      ensures b <==> Right() == []
    {
      return rightList == null;
    }

    /** Types `c` at the cursor. With the cursor at the front of a non-empty
        text there is no last node before the cursor to append to, and the
        command throws without changing anything. */
    method InsertChar(c: char) returns (outcome: Outcome)
      requires Valid()
      modifies this, leftNodes
      ensures KeptOrFresh()
      ensures Valid()
      ensures TextModel.InsertFails(old(State())) ==> outcome == Threw(NullPointer) && State() == old(State())
      ensures !TextModel.InsertFails(old(State())) ==> outcome == Done && State() == TextModel.InsertChar(old(State()), c)
    {
      if rightList != null {
        var last := CharNode.GetLast(leftList, leftNodes);
        if last == null {
          return Threw(NullPointer);
        }
        AppendAtLast(last, c);
      } else {
        TailInsertLeft(c);
      }
      return Done;
    }

    /** Appends `c` to the list before the cursor by adding a node after
        `last`, the last node of that list. */
    method AppendAtLast(last: CharNode, c: char)
      requires Valid() && leftNodes != [] && last == leftNodes[|leftNodes| - 1]
      modifies this, last
      ensures Valid() && KeptOrFresh()
      ensures State() == TextModel.InsertChar(old(State()), c)
    {
      ghost var cs, rs := Left(), Right();
      assert last !in rightNodes;
      var longer := CharNode.AppendAfterLast(leftList, last, c, leftNodes);
      Kept(rightList, rightNodes);
      label appended:
      leftNodes := longer;
      Kept@appended(leftList, longer);
      assert State() == TextModel.Text(cs + [c], rs);
    }

    /** Appends `c` to the list before the cursor by tail insertion, which
        also starts the list when it is empty. */
    method TailInsertLeft(c: char)
      requires Valid()
      modifies this, leftNodes
      ensures Valid() && KeptOrFresh()
      ensures State() == TextModel.InsertChar(old(State()), c)
    {
      ghost var cs, rs, ns := Left(), Right(), leftNodes;
      var head, longer := CharNode.ListTailInsert(leftList, c, leftNodes);
      Kept(rightList, rightNodes);
      ghost var added := longer[|ns|];
      assert longer == ns + [added] && fresh(added) && added !in rightNodes;
      assert Disjoint(longer, rightNodes);
      label inserted:
      leftList, leftNodes := head, longer;
      Kept@inserted(head, longer);
      assert forall n :: n in leftNodes ==> n in ns || n == added;
      assert State() == TextModel.Text(cs + [c], rs);
    }

    /** Insertion as intended: with the cursor at the front, the new
        character starts the list before the cursor. */
    method InsertCharFixed(c: char)
      requires Valid()
      modifies this, leftNodes
      ensures KeptOrFresh()
      ensures Valid() && State() == TextModel.InsertChar(old(State()), c)
    {
      if leftList == null {
        TailInsertLeft(c);
      } else {
        var outcome := InsertChar(c);
      }
    }

    /** Deletes the character after the cursor, if there is one. */
    method DeleteChar()
      requires Valid()
      modifies this
      ensures KeptOrFresh()
      ensures Valid() && State() == TextModel.DeleteChar(old(State()))
    {
      if rightList != null {
        rightList := rightList.link;
        rightNodes := rightNodes[1..];
      }
    }

    /** Removes the character before the cursor through tail removal, whose
        result is not used; a lone character is overwritten with `Nul`. */
    method Backspace()
      requires Valid()
      modifies this, leftNodes
      ensures KeptOrFresh()
      ensures Valid() && State() == TextModel.Backspace(old(State()))
    {
      if leftList != null {
        var head, rest := CharNode.ListTailRemove(leftList, leftNodes);
        Kept(rightList, rightNodes);
        leftNodes := rest;
      }
    }

    /** Backspace as intended: the list before the cursor is replaced by
        the result of the corrected tail removal. */
    method BackspaceFixed()
      requires Valid()
      modifies this, leftNodes
      ensures KeptOrFresh()
      ensures Valid() && State() == TextModel.BackspaceFixed(old(State()))
    {
      if leftList != null {
        ghost var cs, rs := Left(), Right();
        var head, rest := CharNode.ListTailRemoveFixed(leftList, leftNodes);
        Kept(rightList, rightNodes);
        assert Chars(rest) == cs[..|cs| - 1] && Disjoint(rest, rightNodes);
        label removed:
        leftList, leftNodes := head, rest;
        Kept@removed(head, rest);
        assert State() == TextModel.Text(cs[..|cs| - 1], rs);
      }
    }

    /** Moves the cursor to the front: the last node before the cursor is
        linked to the list after it, and a copy of the joined list becomes
        the list after the cursor. With the cursor already at the front
        there is no last node, and the command throws. */
    method FrontOfString() returns (outcome: Outcome)
      requires Valid()
      modifies this, leftNodes
      ensures KeptOrFresh()
      ensures Valid()
      ensures TextModel.FrontFails(old(State())) ==> outcome == Threw(NullPointer) && State() == old(State())
      ensures !TextModel.FrontFails(old(State())) ==> outcome == Done && State() == TextModel.FrontOfString(old(State()))
    {
      var last := CharNode.GetLast(leftList, leftNodes);
      if last == null {
        return Threw(NullPointer);
      }
      assert State() == old(State());
      ghost var joined, text := leftNodes + rightNodes, Left() + Right();
      CharNode.JoinAfterLast(leftList, last, rightList, leftNodes, rightNodes);
      assert Chars(joined) == text;
      var copy, copyNodes := CharNode.ListCopy(leftList, joined);
      assert Chars(copyNodes) == text;
      label copied:
      rightList, rightNodes := copy, copyNodes;
      leftList, leftNodes := null, [];
      Kept@copied(copy, copyNodes);
      return Done;
    }

    /** Moving to the front as intended: nothing to do when the cursor is
        already there. */
    method FrontOfStringFixed()
      requires Valid()
      modifies this, leftNodes
      ensures KeptOrFresh()
      ensures Valid() && State() == TextModel.FrontOfString(old(State()))
    {
      if leftList != null {
        var outcome := FrontOfString();
      }
    }

    /** Moves the cursor to the end: a copy of the list after the cursor is
        linked after the last node before it. With the cursor at the front
        of a non-empty text there is no last node, and the command throws. */
    method EndOfString() returns (outcome: Outcome)
      requires Valid()
      modifies this, leftNodes
      ensures KeptOrFresh()
      ensures Valid()
      ensures TextModel.EndFails(old(State())) ==> outcome == Threw(NullPointer) && State() == old(State())
      ensures !TextModel.EndFails(old(State())) ==> outcome == Done && State() == TextModel.EndOfString(old(State()))
    {
      if rightList != null {
        var copy, copyNodes := CharNode.ListCopy(rightList, rightNodes);
        var last := CharNode.GetLast(leftList, leftNodes);
        if last == null {
          return Threw(NullPointer);
        }
        assert State() == old(State());
        ghost var joined, text := leftNodes + copyNodes, Left() + Right();
        CharNode.JoinAfterLast(leftList, last, copy, leftNodes, copyNodes);
        assert Chars(joined) == text;
        label linked:
        leftNodes := joined;
        rightList, rightNodes := null, [];
        Kept@linked(leftList, joined);
      }
      return Done;
    }

    /** Moving to the end as intended: with the cursor at the front, the
        list after the cursor becomes the list before it. */
    method EndOfStringFixed()
      requires Valid()
      modifies this, leftNodes
      ensures KeptOrFresh()
      ensures Valid() && State() == TextModel.EndOfString(old(State()))
    {
      if leftList == null {
        leftList, leftNodes := rightList, rightNodes;
        rightList, rightNodes := null, [];
      } else {
        var outcome := EndOfString();
      }
    }

    /** Moves the cursor one character to the left. The last character
        before the cursor is put in a new node in front of a copy of the
        list after the cursor, which becomes that list; the node holding it
        is dropped, either by emptying a one-node list or by walking to the
        node before it and cutting its link. */
    method MoveCursorLeft()
      requires Valid()
      modifies this, leftNodes
      ensures KeptOrFresh()
      ensures Valid() && State() == TextModel.MoveLeft(old(State()))
    {
      if leftList != null {
        if leftList.link == null {
          WalkStart(leftList, leftNodes);
          WalkStep(leftList, leftNodes, 0);
          PushCopyRight(leftList.data);
          leftList, leftNodes := null, [];
        } else {
          var working: CharNode? := leftList;
          ghost var i := 0;
          WalkStart(leftList, leftNodes);
          WalkStep(leftList, leftNodes, 0);
          while working != null
            invariant Valid() && i <= |leftNodes|
            invariant working != null ==> leftNodes == old(leftNodes) && Walking(working, leftNodes, i) && i + 2 <= |leftNodes|
            invariant working != null ==> State() == old(State())
            invariant working == null ==> State() == TextModel.MoveLeft(old(State()))
            invariant KeptOrFresh()
            decreases |leftNodes| - i
          {
            WalkStep(working, leftNodes, i);
            if working.link.link == null {
              MoveLastLeft(working, i);
            } else {
              WalkStep(working.link, leftNodes, i + 1);
            }
            working := working.link;
            i := i + 1;
          }
        }
      }
    }

    /** The step of a left move that has walked to `working`, the node
        before the last one of a list of two or more nodes. */
    method MoveLastLeft(working: CharNode, ghost i: nat)
      requires Valid() && Walking(working, leftNodes, i) && working.link != null && working.link.link == null
      modifies this, working
      ensures Valid() && working.link == null && leftNodes == old(leftNodes)[..i + 1] && fresh(rightNodes)
      ensures State() == TextModel.MoveLeft(old(State()))
    {
      ghost var cs, rs := Left(), Right();
      WalkStep(working, leftNodes, i);
      WalkStep(working.link, leftNodes, i + 1);
      PushCopyRight(working.link.data);
      DropLastLeft(working, i);
      TextModel.MoveLeftLast(cs, rs);
    }

    /** Drops the last node before the cursor by cutting the link of
        `working`, the node before it. */
    method DropLastLeft(working: CharNode, ghost i: nat)
      requires Valid() && Walking(working, leftNodes, i) && i + 2 == |leftNodes|
      modifies this, working
      ensures Valid() && working.link == null && leftNodes == old(leftNodes)[..i + 1]
      ensures rightList == old(rightList) && rightNodes == old(rightNodes)
      ensures State() == TextModel.Text(old(Left())[..i + 1], old(Right()))
    {
      ghost var ns := leftNodes;
      assert working !in rightNodes;
      CharNode.CutAfter(leftList, working, ns, i);
      label cut:
      leftNodes := ns[..i + 1];
      Kept@cut(leftList, leftNodes);
      Kept(rightList, rightNodes);
    }

    /** Puts `c` in a new node in front of a fresh copy of the list after
        the cursor, which becomes the list after the cursor. */
    method PushCopyRight(c: char)
      requires Valid()
      modifies this
      ensures Valid() && leftList == old(leftList) && leftNodes == old(leftNodes)
      ensures fresh(rightNodes) && State() == TextModel.Text(old(Left()), [c] + old(Right()))
    {
      var copy, copyNodes := CharNode.ListCopy(rightList, rightNodes);
      var node := new CharNode(c, copy);
      label copied:
      rightList, rightNodes := node, [node] + copyNodes;
      Kept@copied(copy, copyNodes);
      assert Right() == [c] + Chars(copyNodes);
    }

    /** Moves the cursor one character to the right: the character after
        the cursor is appended to the list before it, and the list after
        it loses its first node. */
    method MoveCursorRight()
      requires Valid()
      modifies this, leftNodes
      ensures KeptOrFresh()
      ensures Valid() && State() == TextModel.MoveRight(old(State()))
    {
      if rightList != null {
        var head, longer := CharNode.ListTailInsert(leftList, rightList.data, leftNodes);
        Kept(rightList, rightNodes);
        assert longer == leftNodes + [longer[|leftNodes|]] && longer[|leftNodes|] !in rightNodes;
        assert Disjoint(longer, rightNodes[1..]);
        assert Chars(longer) == old(Left()) + [old(Right())[0]] && Chars(rightNodes[1..]) == old(Right())[1..];
        label inserted:
        leftList, leftNodes := head, longer;
        rightList, rightNodes := rightList.link, rightNodes[1..];
        Kept@inserted(head, longer);
        Kept@inserted(rightList, rightNodes);
      }
    }

    /** The text with a caret at the cursor. */
    method ToString() returns (s: string)
      requires Valid()
      ensures s == TextModel.Render(State())
    {
      ghost var cs, rs := Left(), Right();
      s := "";
      var working := leftList;
      ghost var i := 0;
      if working != null {
        WalkStart(working, leftNodes);
      }
      while working != null
        invariant working != null ==> Walking(working, leftNodes, i)
        invariant working == null ==> i == |leftNodes|
        invariant i <= |leftNodes| && s == cs[..i]
        decreases |leftNodes| - i
      {
        WalkStep(working, leftNodes, i);
        PrefixSnoc("", cs, i);
        s := s + [working.data];
        working := working.link;
        i := i + 1;
      }
      assert cs[..i] == cs;
      s := s + "^";
      ghost var front := s;
      if rightList != null {
        working, i := rightList, 0;
        WalkStart(working, rightNodes);
        while working != null
          invariant working != null ==> Walking(working, rightNodes, i)
          invariant working == null ==> i == |rightNodes|
          invariant i <= |rightNodes| && s == front + rs[..i]
          decreases |rightNodes| - i
        {
          WalkStep(working, rightNodes, i);
          PrefixSnoc(front, rs, i);
          s := s + [working.data];
          working := working.link;
          i := i + 1;
        }
      }
      assert rs[..|rs|] == rs;
    }
  }
}

# String editor over two linked lists of characters

This project models a small text editor and the linked-list node class it is
built on, and proves what each command does to the text.

- **`CharNodes`** (`char_node.dfy`) is the `CharNode` class. Each node has a
  mutable `data` character and a `link` to the next node. The module also
  holds the static list primitives: copy, copy with tail, length, part,
  position, search, tail remove, tail insert and last node.
  - A list is named by its head reference, as in the source.
  - Its shape is described by a ghost sequence of nodes. `IsChain(head, ns)`
    says that following `link` from `head` visits the distinct nodes `ns` and
    then reaches null. `Chars(ns)` is the text those nodes hold.
  - Every primitive states its effect on the node sequence and on the text.
  - Exceptions that a primitive throws are results:
    `Result.Err(NullPointer)` and `Result.Err(IllegalArgument)`.
- **`TextModel`** (`text_model.dfy`) is the editor's text as a pair of
  character sequences, the part before the cursor and the part after it. Each
  command is a function on that pair, and lemmas state what the commands
  promise. Examples: moves keep the contents, a left move undoes a right move,
  jumping to the front is repeated left moves, and insert then backspace
  restores the text.
- **`Editor`** (`string_editor.dfy`) is the `StringEditor` class.
  - Its real fields are `leftList` and `rightList`. The ghost fields
    `leftNodes` and `rightNodes` hold the node sequences of the two lists.
  - `Valid()` says both are lists and share no node.
  - `State()` is the `TextModel.Text` the editor holds.
  - Every command is a method whose `ensures` ties the new `State()` to the
    matching `TextModel` function of the old one. The loops of
    `moveCursorLeft` and `toString` are kept as loops.
  - The guards `isCursorAtFront()` and `isCursorAtEnd()`, which the commands
    call, are written inline as the null tests on `leftList` and `rightList`
    that they perform.
  - A command that throws in the source returns `Outcome.Threw(NullPointer)`
    and leaves the state as it was.
  - Every command also promises `KeptOrFresh()`: each node of the two lists
    afterwards was one of their nodes before, or is new. With this, and
    with the constructors' promise that their nodes are new, a caller can
    issue one command after another.
- **`Scenarios`** (`scenarios.dfy`) uses the class as its callers do. It
  builds editors from strings, issues commands in sequence and reads back
  the rendering: the concrete cases of the documented behaviour, the
  insertion loop of the menu driver, and round trips on a live editor.

Where the code and its documented intent disagree, the model follows the code.
Each defect is one row under "## Findings":
- Tail removal of a one-node list is documented to give the empty list. The
  code keeps the node and writes `'\0'` into it. So backspace with one
  character before the cursor leaves `'\0'` there, and insert then backspace
  on the empty text does not give back the empty text.
- `insertChar` is described as always making `c` the last character before
  the cursor. The code throws when the cursor is at the front of a
  non-empty text.
- `frontOfString` throws whenever the cursor is already at the front.
- `endOfString` throws when the cursor is at the front of a non-empty text.

For each row there is a corrected member, with the intended property proved
about it.

## Model

| member | source | states |
|---|---|---|
| CharNodes.CharNode.constructor | src/CharNode.java:42-46 | the new node holds the given character and link |
| CharNodes.CharNode.AddNodeAfter | src/CharNode.java:61-64 | a fresh node holding `item` comes right after this node and links to its old successor; the list through this node gains `item` in second place and is otherwise unchanged |
| CharNodes.CharNode.RemoveNodeAfter | src/CharNode.java:320-323 | the successor of this node is unlinked; the list loses its second node and character and keeps the rest |
| CharNodes.CharNode.SetData | src/CharNode.java:333-336 | replaces the character and keeps the link |
| CharNodes.CharNode.SetLink | src/CharNode.java:349-352 | replaces the link and keeps the character |
| CharNodes.CharNode.ListLength | src/CharNode.java:182-192 | the count the loop returns is the number of nodes in the list |
| CharNodes.CharNode.ListCopyWithTail | src/CharNode.java:143-169 | returns a list of fresh nodes holding the same text, and its last node (both null for the empty list) |
| CharNodes.CharNode.ListCopy | src/CharNode.java:104-127 | returns a list of fresh nodes holding the same text as the source list |
| CharNodes.CharNode.ListPart | src/CharNode.java:219-247 | a null start is a null dereference; an end not on the list from start is an illegal argument; otherwise returns a fresh copy of the text from start through the first occurrence of end, and the copy's last node |
| CharNodes.CharNode.ListPosition | src/CharNode.java:267-280 | a position that is not positive is an illegal argument; a position within the list gives the node at that 1-based index; a larger one gives null |
| CharNodes.CharNode.ListSearch | src/CharNode.java:295-304 | null exactly when the character is absent; otherwise a node of the list holding it, with no earlier node holding it |
| CharNodes.CharNode.GetLast | src/CharNode.java:436-446 | the last node of the list, or null exactly when the list is empty |
| CharNodes.CharNode.ListTailRemove | src/CharNode.java:367-384 | the head is returned; a list of two or more nodes loses its last node and character; a one-node list keeps its node, which now holds `'\0'`; the empty list is unchanged |
| CharNodes.CharNode.ListTailRemoveFixed | src/CharNode.java:367-384 | corrected tail removal: every non-empty list loses exactly its last node and character, and a one-node list becomes the empty list |
| CharNodes.CharNode.ListTailInsert | src/CharNode.java:401-421 | the list gains a fresh last node holding `entry` and keeps its earlier nodes in order; a non-null head is returned unchanged |
| CharNodes.CharNode.CutAfter | src/CharNode.java:377-380 | setting a node's link to null ends the list at that node; the list keeps its text up to and including that node |
| CharNodes.CharNode.AppendAfterLast | src/StringEditor.java:130 | adding after the last node of a non-empty list appends `item` to its text |
| CharNodes.CharNode.JoinAfterLast | src/StringEditor.java:172 | linking the last node of a list to the head of a disjoint list gives one list holding the concatenated text |
| TextModel.RenderShowsCursor | src/StringEditor.java:250-269 | the rendering is the text before the cursor, a caret at that index, then the text after the cursor |
| TextModel.MovesKeepContents | src/StringEditor.java:170-240 | left, right, front and end moves never change the whole text |
| TextModel.MoveRightThenLeft | src/StringEditor.java:199-240 | when the cursor is not at the end, a right move followed by a left move restores the text and cursor |
| TextModel.MoveLeftThenRight | src/StringEditor.java:199-240 | when the cursor is not at the front, a left move followed by a right move restores the text and cursor |
| TextModel.InsertThenBackspace | src/StringEditor.java:127-162 | with the cursor not at the front, insert then backspace restores the text |
| TextModel.InsertThenBackspaceAtFront | src/CharNode.java:373-376 | with the cursor at the front of the empty text, insert then backspace leaves `'\0'` before the cursor; at the front of a non-empty text the insertion fails, and backspace then leaves the text as it was |
| TextModel.BackspaceSingle | src/CharNode.java:373-376 | backspace on a one-character text renders as `'\0'` followed by the caret, not as the caret alone |
| TextModel.BackspaceFixedUndoesInsert | src/CharNode.java:367-384 | with corrected tail removal, insert then backspace restores the text at every cursor position |
| TextModel.BackspaceAgrees | src/CharNode.java:367-384 | the as-written and the corrected backspace agree exactly when the part before the cursor does not have length one |
| TextModel.FailuresOccur | src/StringEditor.java:127-191 | with the cursor at the front of a non-empty text, insertion, jump to front and jump to end all fail; jump to front also fails on the empty text |
| TextModel.MoveLeftTimesShifts | src/StringEditor.java:199-225 | `k` left moves carry the last `k` characters before the cursor, in order, to the front of the part after it |
| TextModel.FrontIsMovesLeft | src/StringEditor.java:170-225 | jumping to the front equals one left move per character before the cursor |
| TextModel.MoveRightTimesShifts | src/StringEditor.java:233-240 | `k` right moves carry the first `k` characters after the cursor, in order, to the end of the part before it |
| TextModel.EndIsMovesRight | src/StringEditor.java:184-240 | jumping to the end equals one right move per character after the cursor |
| TextModel.DeleteTimesRemoves | src/StringEditor.java:142-149 | `k` deletes remove the first `k` characters after the cursor |
| TextModel.DeleteTimesSplit | src/StringEditor.java:142-149 | one more delete acts on the text the earlier deletes left |
| TextModel.DeleteAllAfterCursor | src/StringEditor.java:142-149 | one delete per character after the cursor empties that part and keeps the part before it |
| TextModel.BackspaceFixedTimesRemoves | src/StringEditor.java:158-162 | `k` corrected backspaces remove the last `k` characters before the cursor |
| TextModel.BackspaceAllBeforeCursor | src/StringEditor.java:158-162 | one corrected backspace per character before the cursor empties that part and keeps the part after it |
| Editor.BuildList | src/StringEditor.java:57-70 | builds a list of fresh nodes holding the given string |
| Editor.StringEditor.constructor | src/StringEditor.java:37-42 | the new editor is valid and holds the empty text |
| Editor.StringEditor.FromStrings | src/StringEditor.java:54-87 | the new editor is valid and holds `left` before the cursor and `right` after it |
| Editor.StringEditor.IsCursorAtFront | src/StringEditor.java:97-102 | true exactly when no character is before the cursor; changes nothing |
| Editor.StringEditor.IsCursorAtEnd | src/StringEditor.java:112-117 | true exactly when no character is after the cursor; changes nothing |
| Editor.StringEditor.InsertChar | src/StringEditor.java:127-133 | with the cursor at the front of a non-empty text it throws a null dereference and changes nothing; otherwise `c` becomes the last character before the cursor |
| Editor.StringEditor.AppendAtLast | src/StringEditor.java:130 | adding a node after the last node before the cursor appends `c` to the text before the cursor; the text after it is unchanged |
| Editor.StringEditor.TailInsertLeft | src/StringEditor.java:132 | tail insertion on the list before the cursor appends `c` to the text before the cursor, also when that list is empty |
| Editor.StringEditor.InsertCharFixed | src/StringEditor.java:127-133 | corrected insertion: in every state, `c` becomes the last character before the cursor |
| Editor.StringEditor.DeleteChar | src/StringEditor.java:142-149 | the first character after the cursor, if any, is removed |
| Editor.StringEditor.Backspace | src/StringEditor.java:158-162 | follows `TextModel.Backspace`: the last character before the cursor goes, except that a lone one becomes `'\0'` |
| Editor.StringEditor.BackspaceFixed | src/StringEditor.java:158-162 | corrected backspace: the last character before the cursor, if any, is removed |
| Editor.StringEditor.FrontOfString | src/StringEditor.java:170-176 | with the cursor at the front it throws a null dereference and changes nothing; otherwise the whole text comes after the cursor |
| Editor.StringEditor.FrontOfStringFixed | src/StringEditor.java:170-176 | corrected jump to the front: in every state the whole text ends up after the cursor |
| Editor.StringEditor.EndOfString | src/StringEditor.java:184-191 | with the cursor at the front of a non-empty text it throws a null dereference and changes nothing; otherwise the whole text comes before the cursor |
| Editor.StringEditor.EndOfStringFixed | src/StringEditor.java:184-191 | corrected jump to the end: in every state the whole text ends up before the cursor |
| Editor.StringEditor.MoveCursorLeft | src/StringEditor.java:199-225 | the last character before the cursor, if any, becomes the first character after it; the walk over the list before the cursor keeps the text unchanged until that move |
| Editor.StringEditor.MoveLastLeft | src/StringEditor.java:214-220 | at the node before the last one, the last character moves to the front of the part after the cursor, and the walking node becomes the last one |
| Editor.StringEditor.PushCopyRight | src/StringEditor.java:205-206 | the part after the cursor becomes a fresh list holding `c` followed by its old text; the list before the cursor is untouched |
| Editor.StringEditor.DropLastLeft | src/StringEditor.java:218 | cutting the walking node's link drops the last character before the cursor and keeps the rest of the text |
| Editor.StringEditor.MoveCursorRight | src/StringEditor.java:233-240 | the first character after the cursor, if any, becomes the last character before it |
| Editor.StringEditor.ToString | src/StringEditor.java:250-269 | the string returned is the text before the cursor, then `^`, then the text after it |
| Scenarios.BuildThenRender | src/StringEditorTest.java:35-36 | an editor built from two strings renders as the first string, `^`, then the second |
| Scenarios.TypeIntoEmpty | src/StringEditor.java:127-133 | an empty editor renders as `^`; after typing `a` it renders as `a^` |
| Scenarios.TypeThenBackspace | src/CharNode.java:373-376 | typing `a` into an empty editor and backspacing renders as `'\0'` then `^`, not as `^` |
| Scenarios.MoveLeftOnce | src/StringEditor.java:199-225 | a left move on "ab^cd" renders as "a^bcd" |
| Scenarios.JumpToFront | src/StringEditor.java:170-176 | jumping to the front of "ab^cd" renders as "^abcd", and jumping there again throws a null dereference |
| Scenarios.JumpToEnd | src/StringEditor.java:184-191 | jumping to the end of "ab^cd" renders as "abcd^" |
| Scenarios.JumpToEndFromFront | src/StringEditor.java:186-188 | jumping to the end from the front of "^cd" throws a null dereference |
| Scenarios.BackspaceLone | src/CharNode.java:373-376 | backspace on "a^" renders as `'\0'` then `^` |
| Scenarios.BackspaceFixedLone | src/CharNode.java:367-384 | the corrected backspace on "a^" renders as `^` |
| Scenarios.RightThenLeft | src/StringEditor.java:199-240 | on a live editor with text after the cursor, a right move and then a left move leave the editor holding the text and cursor it had |
| Scenarios.InsertThenBackspace | src/StringEditor.java:127-162 | on a live editor with text before the cursor, typing a character and backspacing leaves the editor holding the text it had |
| Scenarios.TypeString | src/StringEditorTest.java:51-57 | typing each character of an entry in turn throws on the first one exactly when the cursor is at the front of a non-empty text, leaving the text unchanged; otherwise the entry ends up right before the cursor |
| Scenarios.DeleteToEnd | src/StringEditor.java:142-149 | deleting once per node after the cursor brings the cursor to the end and keeps the text before it |

## Left out

- The console input and output and the menu of `src/StringEditorTest.java`
  are not part of this model. Only its insertion loop, as
  `Scenarios.TypeString`, and its build-then-render step are.
- `outList`, which prints a list, is left out because output is not modelled.
  `ToString` covers the same traversal.
- The `cursor` field of `StringEditor` is left out. It is only ever written,
  never read, so it cannot affect any command or the rendering.
- `getData` and `getLink` are plain field reads. The model reads `data` and
  `link` directly.
- Java `char` is a UTF-16 code unit, and `toCharArray` splits a character
  outside the Basic Multilingual Plane into two surrogate halves. Here
  strings are `seq<char>` of Unicode scalar values, so a lone surrogate
  cannot be represented.
- Running out of memory when a node is allocated is not modelled.
- Editor.StringEditor.FromStrings: takes two character sequences. A Java
  `null` string, which the source treats like the empty string, is not a
  separate input.
- CharNodes.CharNode.ListLength: returns an unbounded `nat`. The source's
  32-bit `int` would overflow beyond 2^31 - 1 nodes, and that is not modelled.
- CharNodes.CharNode.ListCopyWithTail and CharNodes.CharNode.ListPart: the
  two-element array of head and tail is returned as two results, or as a
  pair inside `Result`.
- Thrown exceptions are not modelled as control transfer. They are values:
  `Result.Err` for the primitives and `Outcome.Threw` for the editor
  commands. A throwing command is modelled as leaving the state unchanged,
  which is what the source does, because each one throws before its first
  write.
- CharNodes.CharNode.RemoveNodeAfter: requires a successor, as its
  documentation demands. Calling it on a tail node is not modelled.
- Reclaiming nodes that are no longer reachable is not modelled. The model
  says nothing about nodes outside the two lists after a command.
- Aliasing of copies: the methods state that copies are fresh but not what
  happens to the nodes they were copied from. Those nodes are not changed,
  because the copy methods have no `modifies` clause.

## Findings

| source | as written | input that shows it | evidently intended | confidence | as-written member | corrected member |
|---|---|---|---|---|---|---|
| src/CharNode.java:373-376 | tail removal of a one-node list keeps the node and writes `'\0'` into it, so backspace of a lone character leaves `'\0'` before the cursor | an editor holding "a" before the cursor and nothing after it; backspace renders as `'\0'` followed by `^`, not `^` | a one-node list becomes empty, so backspace then renders `^` and backspace undoes insertion everywhere | not executed | Scenarios.BackspaceLone | TextModel.BackspaceFixedUndoesInsert |
| src/StringEditor.java:129-130 | insertion with characters after the cursor appends to the last node before the cursor without checking that one exists | an editor holding "" before the cursor and "b" after it; `insertChar('a')` dereferences null | `a` becomes the only character before the cursor, as when the text is empty | not executed | Editor.StringEditor.InsertChar | Editor.StringEditor.InsertCharFixed |
| src/StringEditor.java:172 | jumping to the front always links the last node before the cursor, which does not exist when the cursor is already at the front | any editor with nothing before the cursor, for example "" and "b"; `frontOfString()` dereferences null | nothing to do when the cursor is already at the front | not executed | Editor.StringEditor.FrontOfString | Editor.StringEditor.FrontOfStringFixed |
| src/StringEditor.java:186-188 | jumping to the end links a copy of the part after the cursor to the last node before it, which does not exist when the cursor is at the front | an editor holding "" before the cursor and "b" after it; `endOfString()` dereferences null | the part after the cursor becomes the part before it | not executed | Editor.StringEditor.EndOfString | Editor.StringEditor.EndOfStringFixed |

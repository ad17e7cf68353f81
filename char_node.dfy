/** Nodes of a singly-linked list of characters and the static list
    primitives built on them.

    A list is named by its head reference (null for the empty list). Its
    shape is described by a ghost sequence of nodes: `Seg(head, ns, end)`
    says that following `link` from `head` visits the distinct nodes of `ns`,
    in order, and then arrives at `end`; `IsChain(head, ns)` is the whole
    list, ending in null. `Chars(ns)` is the text the nodes hold. Every
    primitive takes the ghost node sequence of the list it works on and
    states its effect on that sequence and on its text. */
module CharNodes {

  /** The character the one-node case of tail removal writes into the node. */
  const Nul: char := '\0'

  /** The exceptions the primitives throw. */
  datatype Fault = NullPointer | IllegalArgument

  datatype Result<T> = Ok(value: T) | Err(fault: Fault)

  /** From `head`, the links pass through the distinct nodes `ns` and then
      reach `end`. */
  ghost predicate Seg(head: CharNode?, ns: seq<CharNode>, end: CharNode?)
    reads ns
    decreases |ns|
  {
    if ns == [] then head == end
    else head == ns[0] && ns[0] !in ns[1..] && Seg(ns[0].link, ns[1..], end)
  }

  /** `head` starts an acyclic, null-terminated list whose nodes are `ns`. */
  ghost predicate IsChain(head: CharNode?, ns: seq<CharNode>)
    reads ns
  {
    Seg(head, ns, null)
  }

  ghost predicate Disjoint(xs: seq<CharNode>, ys: seq<CharNode>)
  {
    forall n :: n in xs ==> n !in ys
  }

  /** The text held by the nodes `ns`, in order. */
  ghost function Chars(ns: seq<CharNode>): (s: seq<char>)
    reads ns
    ensures |s| == |ns|
  {
    if ns == [] then [] else [ns[0].data] + Chars(ns[1..])
  }

  /** The node a segment starts with, or its end if it is empty. */
  ghost function Entry(ns: seq<CharNode>, end: CharNode?): CharNode?
  {
    if ns == [] then end else ns[0]
  }

  lemma {:induction false} CharsAt(ns: seq<CharNode>, i: nat)
    requires i < |ns|
    ensures Chars(ns)[i] == ns[i].data
  {
    if i > 0 {
      CharsAt(ns[1..], i - 1);
    }
  }

  lemma {:induction false} CharsConcat(xs: seq<CharNode>, ys: seq<CharNode>)
    ensures Chars(xs + ys) == Chars(xs) + Chars(ys)
  {
    if xs == [] {
      assert xs + ys == ys;
    } else {
      assert (xs + ys)[1..] == xs[1..] + ys;
      CharsConcat(xs[1..], ys);
    }
  }

  /** The position of the first occurrence of `x` in `ns`. */
  ghost function IndexOf(ns: seq<CharNode>, x: CharNode?): (k: nat)
    requires x in ns
    ensures k < |ns| && ns[k] == x && x !in ns[..k]
  {
    if ns[0] == x then 0 else
      assert ns[1..][..IndexOf(ns[1..], x)] == ns[1..IndexOf(ns[1..], x) + 1];
      1 + IndexOf(ns[1..], x)
  }

  /** A position holding `x` with no earlier occurrence is the first one. */
  lemma IndexOfFirst(ns: seq<CharNode>, x: CharNode?, k: nat)
    requires k < |ns| && ns[k] == x && x !in ns[..k]
    ensures IndexOf(ns, x) == k
  {
    var j := IndexOf(ns, x);
  }

  /** The text of a prefix of the nodes is the prefix of their text. */
  lemma {:induction false} CharsPrefix(ns: seq<CharNode>, k: nat)
    requires k <= |ns|
    ensures Chars(ns[..k]) == Chars(ns)[..k]
  {
    assert ns == ns[..k] + ns[k..];
    CharsConcat(ns[..k], ns[k..]);
  }

  /** Appending a node holding the next character of `cs` extends the
      prefix of `cs` that a node sequence holds. */
  lemma CharsSnoc(prefix: seq<CharNode>, last: CharNode, cs: seq<char>, i: nat)
    requires i < |cs| && Chars(prefix) == cs[..i] && last.data == cs[i]
    ensures Chars(prefix + [last]) == cs[..i + 1]
  {
    CharsConcat(prefix, [last]);
    assert cs[..i + 1] == cs[..i] + [cs[i]];
  }

  /** Two adjoining segments over disjoint nodes form one segment. */
  lemma {:induction false} SegConcat(head: CharNode?, xs: seq<CharNode>, mid: CharNode?, ys: seq<CharNode>, end: CharNode?)
    requires Seg(head, xs, mid) && Seg(mid, ys, end) && Disjoint(xs, ys)
    ensures Seg(head, xs + ys, end)
  {
    if xs == [] {
      assert xs + ys == ys;
    } else {
      assert (xs + ys)[1..] == xs[1..] + ys;
      SegConcat(xs[0].link, xs[1..], mid, ys, end);
    }
  }

  /** A segment splits at any point into two adjoining, disjoint segments. */
  lemma {:induction false} SegSplit(head: CharNode?, xs: seq<CharNode>, ys: seq<CharNode>, end: CharNode?)
    requires Seg(head, xs + ys, end)
    ensures Seg(head, xs, Entry(ys, end)) && Seg(Entry(ys, end), ys, end) && Disjoint(xs, ys)
  {
    if xs == [] {
      assert xs + ys == ys;
    } else {
      assert (xs + ys)[1..] == xs[1..] + ys;
      SegSplit(xs[0].link, xs[1..], ys, end);
    }
  }

  /** The successor of node `i` of a list is node `i + 1`, or null for the
      last node. */
  lemma ChainNext(head: CharNode?, ns: seq<CharNode>, i: nat)
    requires IsChain(head, ns) && i < |ns|
    ensures ns[i].link == if i + 1 < |ns| then ns[i + 1] else null
    ensures IsChain(ns[i], ns[i..])
  {
    assert ns == ns[..i] + ns[i..];
    SegSplit(head, ns[..i], ns[i..], null);
    assert ns[i..][1..] == ns[i + 1..];
  }

  /** The nodes of a list are distinct. */
  lemma ChainDistinct(head: CharNode?, ns: seq<CharNode>, i: nat)
    requires IsChain(head, ns) && i < |ns|
    ensures ns[i] !in ns[..i]
  {
    assert ns == ns[..i] + ns[i..];
    SegSplit(head, ns[..i], ns[i..], null);
  }

  /** Cutting a list before its node `i`: the nodes before it form a
      segment ending at it and hold the first `i` characters. */
  lemma ChainCut(head: CharNode?, ns: seq<CharNode>, i: nat)
    requires IsChain(head, ns) && i < |ns|
    ensures Seg(head, ns[..i], ns[i]) && ns[i] !in ns[..i]
    ensures Chars(ns[..i]) == Chars(ns)[..i] && ns[..i + 1] == ns[..i] + [ns[i]]
  {
    assert ns == ns[..i] + ns[i..];
    SegSplit(head, ns[..i], ns[i..], null);
    CharsPrefix(ns, i);
  }

  /** A list `ns` whose last node has just been given a fresh successor
      `added` holds one more character. */
  lemma ChainAppended(head: CharNode?, ns: seq<CharNode>, added: CharNode, cs: seq<char>)
    requires |ns| == |cs| > 0 && added !in ns
    requires Seg(head, ns[..|ns| - 1], ns[|ns| - 1]) && ns[|ns| - 1] !in ns[..|ns| - 1]
    requires ns[|ns| - 1].link == added && added.link == null
    requires Chars(ns[..|ns| - 1]) == cs[..|ns| - 1] && ns[|ns| - 1].data == cs[|ns| - 1]
    ensures IsChain(head, ns + [added]) && Chars(ns + [added]) == cs + [added.data]
  {
    var i := |ns| - 1;
    var before, last := ns[..i], ns[i];
    SegConcat(head, before, last, [last, added], null);
    CharsConcat(before, [last, added]);
    assert before + [last, added] == ns + [added];
    assert cs == cs[..i] + [last.data];
  }

  /** The last node of a non-empty list is a one-node list by itself. */
  lemma LastOfChain(head: CharNode?, ns: seq<CharNode>)
    requires IsChain(head, ns) && ns != []
    ensures ns[|ns| - 1].link == null && IsChain(ns[|ns| - 1], [ns[|ns| - 1]])
  {
    ChainNext(head, ns, |ns| - 1);
  }

  /** Linking the last node of the list `ns` to the head `mid` of a
      disjoint list `ms` joins the two. */
  lemma ChainJoin(head: CharNode?, ns: seq<CharNode>, mid: CharNode?, ms: seq<CharNode>)
    requires ns != [] && Seg(head, ns[..|ns| - 1], ns[|ns| - 1]) && ns[|ns| - 1] !in ns[..|ns| - 1]
    requires ns[|ns| - 1].link == mid && IsChain(mid, ms) && Disjoint(ns, ms)
    ensures IsChain(head, ns + ms) && Chars(ns + ms) == Chars(ns) + Chars(ms)
  {
    var k := |ns| - 1;
    SegConcat(head, ns[..k], ns[k], [ns[k]], mid);
    assert ns[..k] + [ns[k]] == ns;
    SegConcat(head, ns, mid, ms, null);
    CharsConcat(ns, ms);
  }

  /** A walk along the list `ns` has reached its node `i`, `cursor`. */
  ghost predicate Walking(cursor: CharNode, ns: seq<CharNode>, i: nat)
    reads ns
  {
    i < |ns| && cursor == ns[i] && IsChain(cursor, ns[i..])
  }

  lemma WalkStart(head: CharNode, ns: seq<CharNode>)
    requires IsChain(head, ns)
    ensures Walking(head, ns, 0)
  {
  }

  /** A walk either moves on to the next node or is at the last one. */
  lemma WalkStep(cursor: CharNode, ns: seq<CharNode>, i: nat)
    requires Walking(cursor, ns, i)
    ensures cursor.data == Chars(ns)[i]
    ensures cursor.link != null ==> Walking(cursor.link, ns, i + 1)
    ensures cursor.link == null <==> i + 1 == |ns|
    ensures ns[..i + 1] == ns[..i] + [cursor]
  {
    assert ns[..i + 1] == ns[..i] + [ns[i]];
    CharsAt(ns, i);
    ChainNext(cursor, ns[i..], 0);
    assert ns[i..][1..] == ns[i + 1..];
  }

  /** A copy of `cs` under construction: it runs from `head` through the
      nodes `prefix` to its last node `tail` and holds `cs[..i + 1]`. */
  ghost predicate Copying(head: CharNode, prefix: seq<CharNode>, tail: CharNode, cs: seq<char>, i: nat)
    reads prefix, tail
  {
    Seg(head, prefix, tail) && tail.link == null && tail !in prefix &&
    i < |cs| && Chars(prefix) == cs[..i] && tail.data == cs[i]
  }

  /** A finished copy is a whole list holding `cs[..i + 1]`. */
  lemma CopyDone(head: CharNode, prefix: seq<CharNode>, tail: CharNode, cs: seq<char>, i: nat)
    requires Copying(head, prefix, tail, cs, i)
    ensures IsChain(head, prefix + [tail]) && Chars(prefix + [tail]) == cs[..i + 1]
    ensures (prefix + [tail])[|prefix|] == tail
  {
    SegConcat(head, prefix, tail, [tail], null);
    CharsSnoc(prefix, tail, cs, i);
  }

  twostate lemma FreshSnoc(new prefix: seq<CharNode>, new last: CharNode)
    requires fresh(prefix) && fresh(last)
    ensures fresh(prefix + [last])
  {
  }

  /** A list none of whose nodes has changed keeps its shape and text. */
  twostate lemma {:induction false} Kept(new head: CharNode?, new ns: seq<CharNode>)
    requires old(allocated(head)) && old(allocated(ns)) && old(Seg(head, ns, null))
    requires forall n :: n in ns ==> unchanged(n)
    ensures Seg(head, ns, null) && Chars(ns) == old(Chars(ns))
  {
    if ns != [] {
      assert ns[0] in ns && unchanged(ns[0]);
      assert forall n :: n in ns[1..] ==> n in ns;
      Kept(ns[0].link, ns[1..]);
    }
  }

  class CharNode {
    var data: char
    var link: CharNode?

    constructor (initialData: char, initialLink: CharNode?)
      ensures data == initialData && link == initialLink
    {
      data := initialData;
      link := initialLink;
    }

    /** Puts a new node holding `item` right after this one; `ns` is the
        list that starts at this node. */
    method AddNodeAfter(item: char, ghost ns: seq<CharNode>)
      requires IsChain(this, ns)
      modifies this
      ensures link != null && fresh(link)
      ensures data == old(data) && link.data == item && link.link == old(link)
      ensures IsChain(this, [this, link] + ns[1..])
      ensures Chars([this, link] + ns[1..]) == [data, item] + old(Chars(ns))[1..]
    {
      ghost var rest, next := ns[1..], link;
      assert this !in rest && Seg(next, rest, null);
      var node := new CharNode(item, link);
      link := node;
      Kept(next, rest);
      assert [this, node] + rest == [this] + ([node] + rest);
      assert ([node] + rest)[1..] == rest;
    }

    /** Unlinks the node after this one; `ns` is the list that starts at
        this node, which must not be its tail. */
    method RemoveNodeAfter(ghost ns: seq<CharNode>)
      requires IsChain(this, ns) && link != null
      modifies this
      ensures |ns| >= 2 && old(link) == ns[1]
      ensures data == old(data) && link == old(link.link)
      ensures IsChain(this, [this] + ns[2..])
      ensures Chars([this] + ns[2..]) == [data] + old(Chars(ns))[2..]
    {
      assert ns != [] && Seg(link, ns[1..], null);
      assert ns[1..] != [];
      ghost var rest := ns[2..];
      ghost var cs := Chars(rest);
      assert ns[1..][1..] == rest;
      link := link.link;
    }

    method SetData(newData: char)
      modifies this
      ensures data == newData && link == old(link)
    {
      data := newData;
    }

    method SetLink(newLink: CharNode?)
      modifies this
      ensures link == newLink && data == old(data)
    {
      link := newLink;
    }

    /** Puts a new node holding `item` after `last`, the last node of the
        list `ns` at `head`, and returns the nodes of the longer list. */
    static method AppendAfterLast(ghost head: CharNode?, last: CharNode, item: char, ghost ns: seq<CharNode>)
      returns (ghost longer: seq<CharNode>)
      requires IsChain(head, ns) && ns != [] && last == ns[|ns| - 1]
      modifies last
      ensures last.link != null && fresh(last.link) && longer == ns + [last.link]
      ensures IsChain(head, longer) && Chars(longer) == old(Chars(ns)) + [item]
    {
      ghost var cs := Chars(ns);
      ChainCut(head, ns, |ns| - 1);
      LastOfChain(head, ns);
      CharsAt(ns, |ns| - 1);
      last.AddNodeAfter(item, [last]);
      ChainAppended(head, ns, last.link, cs);
      longer := ns + [last.link];
    }

    /** Links `last`, the last node of the list `ns` at `head`, to the head
        `mid` of the list `ms`, which shares no node with it. */
    static method JoinAfterLast(ghost head: CharNode?, last: CharNode, mid: CharNode?,
                                ghost ns: seq<CharNode>, ghost ms: seq<CharNode>)
      requires IsChain(head, ns) && ns != [] && last == ns[|ns| - 1]
      requires IsChain(mid, ms) && Disjoint(ns, ms)
      modifies last
      ensures IsChain(head, ns + ms) && Chars(ns + ms) == old(Chars(ns)) + old(Chars(ms))
    {
      ghost var k := |ns| - 1;
      ghost var cs, ds := Chars(ns), Chars(ms);
      ChainCut(head, ns, k);
      CharsAt(ns, k);
      assert last !in ms;
      last.SetLink(mid);
      ChainJoin(head, ns, mid, ms);
      CharsSnoc(ns[..k], last, cs, k);
      assert ns[..k + 1] == ns && cs[..k + 1] == cs;
    }

    /** Cuts the list `ns` at `head` after its node `i`, `node`, which
        becomes the last node. */
    static method CutAfter(ghost head: CharNode?, node: CharNode, ghost ns: seq<CharNode>, ghost i: nat)
      requires IsChain(head, ns) && i < |ns| && node == ns[i]
      modifies node
      ensures node.data == old(node.data) && node.link == null
      ensures IsChain(head, ns[..i + 1]) && Chars(ns[..i + 1]) == old(Chars(ns))[..i + 1]
    {
      ghost var cs := Chars(ns);
      ChainCut(head, ns, i);
      CharsAt(ns, i);
      ghost var before := ns[..i];
      node.link := null;
      SegConcat(head, before, node, [node], null);
      CharsSnoc(before, node, cs, i);
    }

    /** The number of nodes in the list at `head`. */
    static method ListLength(head: CharNode?, ghost ns: seq<CharNode>) returns (answer: nat)
      requires IsChain(head, ns)
      ensures answer == |ns|
    {
      answer := 0;
      var cursor := head;
      while cursor != null
        invariant answer <= |ns| && IsChain(cursor, ns[answer..])
        decreases |ns| - answer
      {
        assert ns[answer..][1..] == ns[answer + 1..];
        answer := answer + 1;
        cursor := cursor.link;
      }
    }

    /** One step of building a copy of `cs`: a new node holding the next
        character `item` is added after the copy's last node `tail` and
        becomes its new last node. */
    static method AppendToCopy(ghost head: CharNode, ghost prefix: seq<CharNode>, tail: CharNode,
                               item: char, ghost cs: seq<char>, ghost i: nat)
      returns (newTail: CharNode)
      requires Copying(head, prefix, tail, cs, i) && i + 1 < |cs| && item == cs[i + 1]
      modifies tail
      ensures fresh(newTail)
      ensures Copying(head, prefix + [tail], newTail, cs, i + 1)
    {
      tail.AddNodeAfter(item, [tail]);
      newTail := tail.link;
      SegConcat(head, prefix, tail, [tail], newTail);
      CharsSnoc(prefix, tail, cs, i);
    }

    /** One step of copying the list `ns`: the walk moves from `cursor` to
        the next node, whose character is appended to the copy. */
    static method CopyStep(ghost ns: seq<CharNode>, ghost cs: seq<char>, cursor: CharNode, ghost i: nat,
                           ghost head: CharNode, ghost prefix: seq<CharNode>, tail: CharNode)
      returns (next: CharNode, newTail: CharNode)
      requires Walking(cursor, ns, i) && cursor.link != null && Chars(ns) == cs
      requires Copying(head, prefix, tail, cs, i) && tail !in ns
      modifies tail
      ensures next == old(cursor.link) && Walking(next, ns, i + 1) && Chars(ns) == cs
      ensures fresh(newTail) && Copying(head, prefix + [tail], newTail, cs, i + 1)
    {
      WalkStep(cursor, ns, i);
      next := cursor.link;
      WalkStep(next, ns, i + 1);
      newTail := AppendToCopy(head, prefix, tail, next.data, cs, i);
    }

    /** A fresh copy of the list at `source`, with its head and its tail
        (both null for the empty list). */
    static method ListCopyWithTail(source: CharNode?, ghost ns: seq<CharNode>)
      returns (copyHead: CharNode?, copyTail: CharNode?, ghost copy: seq<CharNode>)
      requires IsChain(source, ns)
      ensures IsChain(copyHead, copy) && Chars(copy) == Chars(ns)
      ensures fresh(copy)
      ensures copyTail == if copy == [] then null else copy[|copy| - 1]
    {
      if source == null {
        return null, null, [];
      }
      ghost var cs := Chars(ns);
      copyHead := new CharNode(source.data, null);
      var tail: CharNode := copyHead;
      var cursor: CharNode := source;
      ghost var i := 0;
      ghost var prefix: seq<CharNode> := [];
      WalkStart(source, ns);
      WalkStep(source, ns, 0);
      while cursor.link != null
        invariant Walking(cursor, ns, i) && Chars(ns) == cs && Copying(copyHead, prefix, tail, cs, i)
        invariant fresh(tail) && fresh(prefix)
        decreases |ns| - i
      {
        ghost var last := tail;
        cursor, tail := CopyStep(ns, cs, cursor, i, copyHead, prefix, tail);
        FreshSnoc(prefix, last);
        prefix, i := prefix + [last], i + 1;
      }
      WalkStep(cursor, ns, i);
      CopyDone(copyHead, prefix, tail, cs, i);
      FreshSnoc(prefix, tail);
      copyTail := tail;
      copy := prefix + [tail];
      assert cs[..i + 1] == cs;
    }

    /** A fresh copy of the list at `source` (null for the empty list). */
    static method ListCopy(source: CharNode?, ghost ns: seq<CharNode>)
      returns (copyHead: CharNode?, ghost copy: seq<CharNode>)
      requires IsChain(source, ns)
      ensures IsChain(copyHead, copy) && Chars(copy) == Chars(ns)
      ensures fresh(copy)
    {
      var copyTail;
      copyHead, copyTail, copy := ListCopyWithTail(source, ns);
    }

    /** A fresh copy of the part of a list from `start` through `end`, as
        its head and tail. The list at `start` is `ns`. A null `start` is a
        null dereference; an `end` that is not reached from `start` is an
        illegal argument. */
    static method ListPart(start: CharNode?, end: CharNode?, ghost ns: seq<CharNode>)
      returns (r: Result<(CharNode, CharNode)>, ghost copy: seq<CharNode>)
      requires IsChain(start, ns)
      ensures start == null ==> r == Err(NullPointer)
      ensures start != null && end !in ns ==> r == Err(IllegalArgument)
      ensures start != null && end in ns ==>
        r.Ok? && Seg(r.value.0, copy, null) && fresh(copy) &&
        Chars(copy) == Chars(ns[..IndexOf(ns, end) + 1]) && r.value.1 == copy[|copy| - 1]
    {
      if start == null {
        return Err(NullPointer), [];
      }
      ghost var cs := Chars(ns);
      var copyHead := new CharNode(start.data, null);
      var tail: CharNode := copyHead;
      var cursor: CharNode := start;
      ghost var i := 0;
      ghost var prefix: seq<CharNode> := [];
      WalkStart(start, ns);
      WalkStep(start, ns, 0);
      while cursor != end
        invariant Walking(cursor, ns, i) && Chars(ns) == cs && end !in ns[..i]
        invariant Copying(copyHead, prefix, tail, cs, i)
        invariant fresh(tail) && fresh(prefix)
        decreases |ns| - i
      {
        WalkStep(cursor, ns, i);
        var next := cursor.link;
        if next == null {
          assert ns[..i + 1] == ns && end !in ns;
          return Err(IllegalArgument), [];
        }
        ghost var last := tail;
        cursor, tail := CopyStep(ns, cs, cursor, i, copyHead, prefix, tail);
        FreshSnoc(prefix, last);
        prefix, i := prefix + [last], i + 1;
      }
      CopyDone(copyHead, prefix, tail, cs, i);
      FreshSnoc(prefix, tail);
      copy := prefix + [tail];
      IndexOfFirst(ns, end, i);
      CharsPrefix(ns, i + 1);
      assert Chars(copy) == Chars(ns[..IndexOf(ns, end) + 1]);
      r := Ok((copyHead, tail));
    }

    /** The node at the 1-based `position` of the list at `head`, or null
        when the list is shorter; a position that is not positive is an
        illegal argument. */
    static method ListPosition(head: CharNode?, position: int, ghost ns: seq<CharNode>)
      returns (r: Result<CharNode?>)
      requires IsChain(head, ns)
      ensures position <= 0 ==> r == Err(IllegalArgument)
      ensures 0 < position <= |ns| ==> r.Ok? && r.value == ns[position - 1]
      ensures |ns| < position ==> r == Ok(null)
    {
      if position <= 0 {
        return Err(IllegalArgument);
      }
      var cursor := head;
      var i := 1;
      while i < position && cursor != null
        invariant 1 <= i <= position
        invariant i - 1 <= |ns| && IsChain(cursor, ns[i - 1..])
        invariant i - 1 == |ns| ==> cursor == null
        decreases position - i
      {
        assert ns[i - 1..][1..] == ns[i..];
        cursor := cursor.link;
        i := i + 1;
      }
      return Ok(cursor);
    }

    /** The first node of the list at `head` that holds `target`, or null
        when no node does. */
    static method ListSearch(head: CharNode?, target: char, ghost ns: seq<CharNode>)
      returns (r: CharNode?)
      requires IsChain(head, ns)
      ensures r == null <==> target !in Chars(ns)
      ensures r != null ==> r in ns && r.data == target && target !in Chars(ns)[..IndexOf(ns, r)]
    {
      ghost var cs := Chars(ns);
      var cursor := head;
      ghost var i := 0;
      while cursor != null
        invariant i <= |ns| && IsChain(cursor, ns[i..]) && target !in cs[..i]
        decreases |ns| - i
      {
        WalkStep(cursor, ns, i);
        if target == cursor.data {
          ChainDistinct(head, ns, i);
          IndexOfFirst(ns, cursor, i);
          return cursor;
        }
        assert cs[..i + 1] == cs[..i] + [cs[i]];
        cursor := cursor.link;
        i := i + 1;
      }
      assert cs[..i] == cs;
      return null;
    }

    /** The last node of the list at `head`, or null for the empty list. */
    static method GetLast(head: CharNode?, ghost ns: seq<CharNode>) returns (r: CharNode?)
      requires IsChain(head, ns)
      ensures r == if ns == [] then null else ns[|ns| - 1]
    {
      var cursor := head;
      ghost var i := 0;
      while cursor != null
        invariant i <= |ns| && IsChain(cursor, ns[i..]) && (i > 0 ==> cursor != null)
        decreases |ns| - i
      {
        WalkStep(cursor, ns, i);
        if cursor.link == null {
          return cursor;
        }
        cursor := cursor.link;
        i := i + 1;
      }
      return null;
    }

    /** Removes the last node of the list at `head` by cutting the link of
        the node before it. A one-node list keeps its node, which is given
        the character `Nul` instead. */
    static method ListTailRemove(head: CharNode?, ghost ns: seq<CharNode>)
      returns (r: CharNode?, ghost rest: seq<CharNode>)
      requires IsChain(head, ns)
      modifies ns
      ensures r == head && IsChain(r, rest)
      ensures |ns| <= 1 ==> rest == ns
      ensures |ns| == 1 ==> Chars(rest) == [Nul]
      ensures |ns| >= 2 ==> rest == ns[..|ns| - 1] && Chars(rest) == old(Chars(ns))[..|ns| - 1]
    {
      ghost var cs := Chars(ns);
      r, rest := head, ns;
      var cursor := head;
      ghost var i := 0;
      while cursor != null
        invariant cursor != null ==> Walking(cursor, ns, i) && IsChain(head, ns) && Chars(ns) == cs && rest == ns
        invariant cursor != null && |ns| >= 2 ==> i + 2 <= |ns|
        invariant cursor == null ==> IsChain(head, rest)
        invariant cursor == null && |ns| <= 1 ==> rest == ns
        invariant cursor == null && |ns| == 1 ==> Chars(rest) == [Nul]
        invariant cursor == null && |ns| >= 2 ==> rest == ns[..|ns| - 1] && Chars(rest) == cs[..|ns| - 1]
        decreases |ns| - i
      {
        WalkStep(cursor, ns, i);
        if cursor.link == null {
          assert i == 0 && ns == [cursor];
          cursor.SetData(Nul);
          cursor.SetLink(null);
          assert Chars(ns) == [Nul];
        } else if cursor.link.link == null {
          WalkStep(cursor.link, ns, i + 1);
          CutAfter(head, cursor, ns, i);
          rest := ns[..i + 1];
        } else {
          WalkStep(cursor.link, ns, i + 1);
        }
        cursor := cursor.link;
        i := i + 1;
      }
    }

    /** Tail removal as its callers need it: a one-node list becomes the
        empty list. */
    static method ListTailRemoveFixed(head: CharNode?, ghost ns: seq<CharNode>)
      returns (r: CharNode?, ghost rest: seq<CharNode>)
      requires IsChain(head, ns)
      modifies ns
      ensures IsChain(r, rest)
      ensures rest == if ns == [] then [] else ns[..|ns| - 1]
      ensures Chars(rest) == if ns == [] then [] else old(Chars(ns))[..|ns| - 1]
    {
      if head != null {
        WalkStart(head, ns);
        WalkStep(head, ns, 0);
        if head.link == null {
          return null, [];
        }
      }
      r, rest := ListTailRemove(head, ns);
    }

    /** Appends a new node holding `entry` at the end of the list at `head`
        and returns the head of the longer list. */
    static method ListTailInsert(head: CharNode?, entry: char, ghost ns: seq<CharNode>)
      returns (r: CharNode, ghost longer: seq<CharNode>)
      requires IsChain(head, ns)
      modifies ns
      ensures IsChain(r, longer) && Chars(longer) == old(Chars(ns)) + [entry]
      ensures |longer| == |ns| + 1 && longer == ns + [longer[|ns|]] && fresh(longer[|ns|])
      ensures head != null ==> r == head
    {
      ghost var cs := Chars(ns);
      if head == null {
        r := new CharNode(entry, null);
        return r, [r];
      }
      r := head;
      var cursor: CharNode? := head;
      var flag := false;
      ghost var i := 0;
      longer := ns;
      while flag == false
        invariant !flag ==> cursor != null && Walking(cursor, ns, i) && IsChain(head, ns) && Chars(ns) == cs
        invariant flag ==> IsChain(head, longer) && Chars(longer) == cs + [entry]
        invariant flag ==> |longer| == |ns| + 1 && longer == ns + [longer[|ns|]] && fresh(longer[|ns|])
        decreases if flag then 0 else 1 + |ns| - i
      {
        WalkStep(cursor, ns, i);
        if cursor.link == null {
          ChainCut(head, ns, i);
          cursor.AddNodeAfter(entry, [cursor]);
          flag := true;
          ChainAppended(head, ns, cursor.link, cs);
          longer := ns + [cursor.link];
        } else {
          i := i + 1;
        }
        cursor := cursor.link;
      }
    }
  }
}

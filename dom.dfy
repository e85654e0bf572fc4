/** The part of the page's document tree that the phrase applier reads and rewrites:
    a paragraph's children, down to its text nodes. */
module Dom {
  import opened Text

  /** The elements the extension distinguishes: its replacement span, the tooltip span inside it,
      and every other inline element of the page. */
  datatype Tag = ReplacementSpan | TooltipSpan | OtherTag(name: string)

  datatype Node = TextNode(text: string) | Element(tag: Tag, children: seq<Node>)

  /** The text nodes under `ns` in document order, as a `TreeWalker` with `SHOW_TEXT` visits them. */
  function Leaves(ns: seq<Node>): seq<string>
    decreases ns
  {
    if ns == [] then []
    else
      (match ns[0]
       case TextNode(s) => [s]
       case Element(_, cs) => Leaves(cs))
      + Leaves(ns[1..])
  }

  /** `element.textContent`: the text of all its text nodes, concatenated. */
  function TextContent(ns: seq<Node>): string {
    Concat(Leaves(ns))
  }

  lemma {:induction false} LeavesAppend(a: seq<Node>, b: seq<Node>)
    ensures Leaves(a + b) == Leaves(a) + Leaves(b)
    decreases a
  {
    if a == [] {
      assert a + b == b;
    } else {
      assert (a + b)[0] == a[0];
      assert (a + b)[1..] == a[1..] + b;
      LeavesAppend(a[1..], b);
    }
  }

  /** The tree with its `i`-th text node replaced, inside its parent, by the nodes `frag`
      (`node.parentNode.replaceChild(fragment, node)`). */
  function ReplaceLeaf(ns: seq<Node>, i: nat, frag: seq<Node>): seq<Node>
    requires i < |Leaves(ns)|
    decreases ns
  {
    var head := match ns[0] case TextNode(s) => [s] case Element(_, cs) => Leaves(cs);
    assert Leaves(ns) == head + Leaves(ns[1..]);
    if i < |head| then
      match ns[0]
      case TextNode(_) => frag + ns[1..]
      case Element(t, cs) => [Element(t, ReplaceLeaf(cs, i, frag))] + ns[1..]
    else
      [ns[0]] + ReplaceLeaf(ns[1..], i - |head|, frag)
  }

  /** The text nodes of a node followed by those of its siblings. */
  lemma LeavesCons(n: Node, rest: seq<Node>)
    ensures Leaves([n] + rest)
         == (match n case TextNode(s) => [s] case Element(_, cs) => Leaves(cs)) + Leaves(rest)
  {
    assert ([n] + rest)[0] == n && ([n] + rest)[1..] == rest;
  }

  lemma SpliceInHead<T>(head: seq<T>, tail: seq<T>, i: nat, mid: seq<T>)
    requires i < |head|
    ensures (head + tail)[..i] + mid + (head + tail)[i + 1..] == (head[..i] + mid + head[i + 1..]) + tail
  {
    assert (head + tail)[..i] == head[..i];
    assert (head + tail)[i + 1..] == head[i + 1..] + tail;
  }

  lemma SpliceInTail<T>(head: seq<T>, tail: seq<T>, i: nat, mid: seq<T>)
    requires |head| <= i < |head| + |tail|
    ensures (head + tail)[..i] + mid + (head + tail)[i + 1..]
         == head + (tail[..i - |head|] + mid + tail[i - |head| + 1..])
  {
    assert (head + tail)[..i] == head + tail[..i - |head|];
    assert (head + tail)[i + 1..] == tail[i - |head| + 1..];
  }

  /** The text nodes a single node contributes. */
  function NodeLeaves(n: Node): seq<string> {
    Leaves([n])
  }

  lemma NodeLeavesUnfold(n: Node)
    ensures NodeLeaves(n) == match n case TextNode(s) => [s] case Element(_, cs) => Leaves(cs)
  {
    LeavesCons(n, []);
    assert [n] + [] == [n];
  }

  lemma {:induction false} ReplaceLeafLeavesText(ns: seq<Node>, i: nat, frag: seq<Node>)
    requires i < |Leaves(ns)| && ns[0].TextNode? && i == 0
    ensures Leaves(ReplaceLeaf(ns, i, frag)) == Leaves(ns)[..i] + Leaves(frag) + Leaves(ns)[i + 1..]
  {
    LeavesCons(ns[0], ns[1..]);
    assert [ns[0]] + ns[1..] == ns;
    assert ReplaceLeaf(ns, i, frag) == frag + ns[1..];
    LeavesAppend(frag, ns[1..]);
  }

  /** Replacing one text node changes the text-node sequence at that position only:
      every other text node keeps its place and its text. */
  lemma {:induction false} ReplaceLeafLeaves(ns: seq<Node>, i: nat, frag: seq<Node>)
    requires i < |Leaves(ns)|
    ensures Leaves(ReplaceLeaf(ns, i, frag)) == Leaves(ns)[..i] + Leaves(frag) + Leaves(ns)[i + 1..]
    decreases ns
  {
    var head := NodeLeaves(ns[0]);
    NodeLeavesUnfold(ns[0]);
    var tail := Leaves(ns[1..]);
    LeavesCons(ns[0], ns[1..]);
    assert [ns[0]] + ns[1..] == ns;
    assert Leaves(ns) == head + tail;
    if i < |head| {
      if ns[0].TextNode? {
        ReplaceLeafLeavesText(ns, i, frag);
      } else {
        var t, cs := ns[0].tag, ns[0].children;
        SpliceInHead(head, tail, i, Leaves(frag));
        ReplaceLeafLeaves(cs, i, frag);
        assert ReplaceLeaf(ns, i, frag) == [Element(t, ReplaceLeaf(cs, i, frag))] + ns[1..];
        LeavesCons(Element(t, ReplaceLeaf(cs, i, frag)), ns[1..]);
      }
    } else {
      SpliceInTail(head, tail, i, Leaves(frag));
      ReplaceLeafLeaves(ns[1..], i - |head|, frag);
      assert ReplaceLeaf(ns, i, frag) == [ns[0]] + ReplaceLeaf(ns[1..], i - |head|, frag);
      LeavesCons(ns[0], ReplaceLeaf(ns[1..], i - |head|, frag));
    }
  }
}

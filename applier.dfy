/** The content script's phrase applier (`replacePhrasesInElement`): in one paragraph, the first
    text node that contains one of the analyzer's phrases is split on the longest such phrase and
    rebuilt as plain text interleaved with replacement spans that keep the phrase in a tooltip. */
module PhraseApplier {
  import opened Text
  import opened Dom

  /** `{original_phrase, replacement_form}`: a phrase found in the paragraph and the word to show. */
  datatype Pair = Pair(original: string, replacement: string)

  /** The caller keeps only items whose phrase is a non-empty string. */
  predicate ValidPairs(ps: seq<Pair>) {
    forall k :: 0 <= k < |ps| ==> ps[k].original != []
  }

  // ---------------------------------------------------------------------------------------------
  // Ordering the pairs: `replacements.sort((a, b) => b.original_phrase.length - a.original_phrase.length)`

  /** Longer phrases come first. */
  predicate LongestFirst(s: seq<Pair>) {
    forall i, j :: 0 <= i < j < |s| ==> |s[i].original| >= |s[j].original|
  }

  /** The pairs whose phrase has length `n`, in their order. */
  function WithLength(s: seq<Pair>, n: nat): seq<Pair> {
    if s == [] then []
    else if |s[0].original| == n then [s[0]] + WithLength(s[1..], n)
    else WithLength(s[1..], n)
  }

  /** A pair at least as long as the head of a longest-first sequence can go in front of it. */
  lemma LongestFirstCons(a: Pair, s: seq<Pair>)
    requires LongestFirst(s) && (s == [] || |s[0].original| <= |a.original|)
    ensures LongestFirst([a] + s)
  {
    var r := [a] + s;
    forall i, j | 0 <= i < j < |r| ensures |r[i].original| >= |r[j].original| {
      if i == 0 && j > 1 {
        assert |s[0].original| >= |s[j - 1].original|;
      }
    }
  }

  /** Inserts `x` into a longest-first sequence, in front of the first pair that is not longer. */
  function InsertByLength(x: Pair, s: seq<Pair>): (r: seq<Pair>)
    requires LongestFirst(s)
    ensures LongestFirst(r)
    ensures multiset(r) == multiset(s) + multiset{x}
    ensures r[0] == x || (s != [] && r[0] == s[0])
  {
    if s == [] || |s[0].original| <= |x.original| then
      LongestFirstCons(x, s);
      [x] + s
    else
      var rest := InsertByLength(x, s[1..]);
      LongestFirstCons(s[0], rest);
      assert s == [s[0]] + s[1..];
      [s[0]] + rest
  }

  /** `Array.prototype.sort` with the length comparator. The sort is stable, so it is the stable
      insertion sort. */
  function SortByLength(ps: seq<Pair>): (r: seq<Pair>)
    ensures LongestFirst(r)
    ensures multiset(r) == multiset(ps)
    ensures |r| == |ps|
  {
    if ps == [] then []
    else
      assert ps == [ps[0]] + ps[1..];
      InsertByLength(ps[0], SortByLength(ps[1..]))
  }

  lemma {:induction false} InsertWithLength(x: Pair, s: seq<Pair>, n: nat)
    requires LongestFirst(s)
    ensures WithLength(InsertByLength(x, s), n)
         == (if |x.original| == n then [x] else []) + WithLength(s, n)
  {
    if s == [] || |s[0].original| <= |x.original| {
      var r := [x] + s;
      assert r[0] == x && r[1..] == s;
    } else {
      var r := [s[0]] + InsertByLength(x, s[1..]);
      assert r[0] == s[0] && r[1..] == InsertByLength(x, s[1..]);
      InsertWithLength(x, s[1..], n);
    }
  }

  /** The sort is stable: the pairs of each length keep their relative order. */
  lemma {:induction false} SortByLengthStable(ps: seq<Pair>, n: nat)
    ensures WithLength(SortByLength(ps), n) == WithLength(ps, n)
  {
    if ps != [] {
      SortByLengthStable(ps[1..], n);
      InsertWithLength(ps[0], SortByLength(ps[1..]), n);
    }
  }

  // ---------------------------------------------------------------------------------------------
  // The rewritten text node

  /** A piece of the fragment that replaces a text node: a text node of its own, or a replacement
      span showing the new word with the phrase it replaces in a tooltip span. */
  datatype Segment = Plain(text: string) | Mark(replacement: string, original: string)

  /** The DOM nodes the source creates for a segment. */
  function SegmentNode(g: Segment): Node {
    match g
    case Plain(t) => TextNode(t)
    case Mark(r, o) => Element(ReplacementSpan, [TextNode(r), Element(TooltipSpan, [TextNode(o)])])
  }

  function Nodes(gs: seq<Segment>): (ns: seq<Node>)
    ensures |ns| == |gs|
    ensures forall i :: 0 <= i < |gs| ==> ns[i] == SegmentNode(gs[i])
  {
    if gs == [] then [] else [SegmentNode(gs[0])] + Nodes(gs[1..])
  }

  /** The fragment after the first `n` pieces of the split: before every piece but the first a
      replacement span, then the piece itself unless it is empty. */
  function FragmentUpTo(parts: seq<string>, p: Pair, n: nat): seq<Segment>
    requires n <= |parts|
  {
    if n == 0 then []
    else
      FragmentUpTo(parts, p, n - 1)
      + (if n > 1 then [Mark(p.replacement, p.original)] else [])
      + (if parts[n - 1] != [] then [Plain(parts[n - 1])] else [])
  }

  /** The fragment that replaces a text node containing the pair's phrase. */
  function Fragment(text: string, p: Pair): seq<Segment>
    requires p.original != []
  {
    var parts := Split(text, p.original);
    FragmentUpTo(parts, p, |parts|)
  }

  /** The text of the segments, each span read either as its tooltip alone (`withReplacement`
      false) or as the span's whole `textContent`, the new word followed by the tooltip. */
  function Flatten(gs: seq<Segment>, withReplacement: bool): string {
    if gs == [] then [] else SegmentText(gs[0], withReplacement) + Flatten(gs[1..], withReplacement)
  }

  function SegmentText(g: Segment, withReplacement: bool): string {
    match g
    case Plain(t) => t
    case Mark(r, o) => if withReplacement then r + o else o
  }

  lemma FlattenSingle(g: Segment, withReplacement: bool)
    ensures Flatten([g], withReplacement) == SegmentText(g, withReplacement)
  {
    assert [g][1..] == [];
  }

  /** The number of replacement spans. */
  function MarkCount(gs: seq<Segment>): nat {
    if gs == [] then 0 else (if gs[0].Mark? then 1 else 0) + MarkCount(gs[1..])
  }

  lemma {:induction false} FlattenAppend(a: seq<Segment>, b: seq<Segment>, withReplacement: bool)
    ensures Flatten(a + b, withReplacement) == Flatten(a, withReplacement) + Flatten(b, withReplacement)
  {
    if a == [] {
      assert a + b == b;
    } else {
      assert (a + b)[0] == a[0] && (a + b)[1..] == a[1..] + b;
      FlattenAppend(a[1..], b, withReplacement);
    }
  }

  lemma {:induction false} MarkCountAppend(a: seq<Segment>, b: seq<Segment>)
    ensures MarkCount(a + b) == MarkCount(a) + MarkCount(b)
  {
    if a == [] {
      assert a + b == b;
    } else {
      assert (a + b)[0] == a[0] && (a + b)[1..] == a[1..] + b;
      MarkCountAppend(a[1..], b);
    }
  }

  /** The first `n` pieces of the fragment hold `n - 1` spans. */
  lemma {:induction false} FragmentUpToMarks(parts: seq<string>, p: Pair, n: nat)
    requires 1 <= n <= |parts|
    ensures MarkCount(FragmentUpTo(parts, p, n)) == n - 1
  {
    var mark: seq<Segment> := if n > 1 then [Mark(p.replacement, p.original)] else [];
    var plain: seq<Segment> := if parts[n - 1] != [] then [Plain(parts[n - 1])] else [];
    var prev := FragmentUpTo(parts, p, n - 1);
    MarkCountAppend(prev + mark, plain);
    MarkCountAppend(prev, mark);
    if n > 1 {
      FragmentUpToMarks(parts, p, n - 1);
    }
  }

  /** The first `n` pieces of the fragment read back as the first `n` pieces of the split joined,
      with the tooltip or the whole span standing where the phrase stood. */
  lemma {:induction false} FragmentUpToText(parts: seq<string>, p: Pair, n: nat, withReplacement: bool)
    requires 1 <= n <= |parts|
    ensures Flatten(FragmentUpTo(parts, p, n), withReplacement)
         == Join(parts[..n], if withReplacement then p.replacement + p.original else p.original)
  {
    var m := Mark(p.replacement, p.original);
    var sep := SegmentText(m, withReplacement);
    var mark: seq<Segment> := if n > 1 then [m] else [];
    var plain: seq<Segment> := if parts[n - 1] != [] then [Plain(parts[n - 1])] else [];
    var prev := FragmentUpTo(parts, p, n - 1);
    FlattenAppend(prev + mark, plain, withReplacement);
    FlattenAppend(prev, mark, withReplacement);
    if parts[n - 1] != [] { FlattenSingle(Plain(parts[n - 1]), withReplacement); }
    if n == 1 {
      assert parts[..1] == [parts[0]];
    } else {
      FlattenSingle(m, withReplacement);
      FragmentUpToText(parts, p, n - 1, withReplacement);
      assert parts[..n] == parts[..n - 1] + [parts[n - 1]];
      JoinSnoc(parts[..n - 1], parts[n - 1], sep);
    }
  }

  /** Round trip: reading each span as the phrase its tooltip keeps gives back the node's text. */
  lemma FragmentRestoresText(text: string, p: Pair)
    requires p.original != []
    ensures Flatten(Fragment(text, p), false) == text
  {
    var parts := Split(text, p.original);
    FragmentUpToText(parts, p, |parts|, false);
    assert parts[..|parts|] == parts;
    JoinSplit(text, p.original);
  }

  /** The fragment holds one span per occurrence of the phrase, at least one when it occurs. */
  lemma FragmentMarks(text: string, p: Pair)
    requires p.original != []
    ensures MarkCount(Fragment(text, p)) == |Split(text, p.original)| - 1
    ensures MarkCount(Fragment(text, p)) > 0 <==> Contains(text, p.original)
  {
    var parts := Split(text, p.original);
    FragmentUpToMarks(parts, p, |parts|);
    SplitCutsIffContains(text, p.original);
  }

  /** The nodes built for the segments read, as `textContent`, like the segments with every span
      read whole. */
  lemma {:induction false} NodesText(gs: seq<Segment>)
    ensures TextContent(Nodes(gs)) == Flatten(gs, true)
  {
    if gs != [] {
      var n := SegmentNode(gs[0]);
      LeavesCons(n, Nodes(gs[1..]));
      var head := match n case TextNode(s) => [s] case Element(_, cs) => Leaves(cs);
      ConcatAppend(head, Leaves(Nodes(gs[1..])));
      NodesText(gs[1..]);
      if gs[0].Mark? {
        var r, o := gs[0].replacement, gs[0].original;
        LeavesCons(TextNode(r), [Element(TooltipSpan, [TextNode(o)])]);
        LeavesCons(Element(TooltipSpan, [TextNode(o)]), []);
        LeavesCons(TextNode(o), []);
        assert head == [r, o];
      }
    }
  }

  /** After the rewrite the paragraph shows, in place of the node's text, its pieces joined by
      the new word followed by the tooltip's phrase. */
  lemma FragmentShowsReplacement(text: string, p: Pair)
    requires p.original != []
    ensures TextContent(Nodes(Fragment(text, p)))
         == Join(Split(text, p.original), p.replacement + p.original)
  {
    var parts := Split(text, p.original);
    NodesText(Fragment(text, p));
    FragmentUpToText(parts, p, |parts|, true);
    assert parts[..|parts|] == parts;
  }

  // ---------------------------------------------------------------------------------------------
  // Which node, which phrase

  /** The position in `pairs` of the first pair whose phrase `text` includes, or `|pairs|`. */
  function FirstPhrase(text: string, pairs: seq<Pair>): (k: nat)
    ensures k <= |pairs|
    ensures k < |pairs| ==> Contains(text, pairs[k].original)
    ensures forall j :: 0 <= j < k ==> !Contains(text, pairs[j].original)
  {
    if pairs == [] then 0
    else if Contains(text, pairs[0].original) then 0
    else 1 + FirstPhrase(text, pairs[1..])
  }

  /** The position of the first text node that includes some phrase, or `|leaves|`. */
  function FirstLeaf(leaves: seq<string>, pairs: seq<Pair>): (i: nat)
    ensures i <= |leaves|
    ensures i < |leaves| ==> FirstPhrase(leaves[i], pairs) < |pairs|
    ensures forall j :: 0 <= j < i ==> FirstPhrase(leaves[j], pairs) == |pairs|
  {
    if leaves == [] then 0
    else if FirstPhrase(leaves[0], pairs) < |pairs| then 0
    else 1 + FirstLeaf(leaves[1..], pairs)
  }

  /** The sort keeps the same pairs. */
  lemma SortedMember(ps: seq<Pair>, x: Pair)
    ensures x in SortByLength(ps) <==> x in ps
  {
    assert x in multiset(SortByLength(ps)) <==> x in multiset(ps);
  }

  lemma SortedValid(ps: seq<Pair>)
    requires ValidPairs(ps)
    ensures ValidPairs(SortByLength(ps))
  {
    var r := SortByLength(ps);
    forall k | 0 <= k < |r| ensures r[k].original != [] {
      assert r[k] in multiset(ps);
    }
  }

  /** What one call of `replacePhrasesInElement` does to a paragraph with children `content`:
      its new children and the number of replacements made. */
  function ApplyPhrases(content: seq<Node>, pairs: seq<Pair>): (seq<Node>, nat)
    requires ValidPairs(pairs)
  {
    var sorted := SortByLength(pairs);
    var leaves := Leaves(content);
    var i := FirstLeaf(leaves, sorted);
    if i == |leaves| then (content, 0)
    else
      SortedValid(pairs);
      var p := sorted[FirstPhrase(leaves[i], sorted)];
      (ReplaceLeaf(content, i, Nodes(Fragment(leaves[i], p))), |Split(leaves[i], p.original)| - 1)
  }

  /** The loop over the pieces of the split that fills the document fragment and counts the
      replacement spans it creates. */
  method BuildFragment(parts: seq<string>, pair: Pair) returns (fragment: seq<Segment>, count: nat)
    requires |parts| >= 1
    ensures fragment == FragmentUpTo(parts, pair, |parts|)
    ensures count == |parts| - 1
  {
    fragment, count := [], 0;
    var i := 0;
    while i < |parts|
      invariant i <= |parts|
      invariant fragment == FragmentUpTo(parts, pair, i)
      invariant count == if i == 0 then 0 else i - 1
    {
      if i > 0 {
        fragment := fragment + [Mark(pair.replacement, pair.original)];
        count := count + 1;
      }
      if parts[i] != [] {
        fragment := fragment + [Plain(parts[i])];
      }
      i := i + 1;
    }
  }

  /** `ApplyPhrases` when the scan stops at text node `n` on sorted pair `k`. */
  lemma ApplyPhrasesAt(content: seq<Node>, pairs: seq<Pair>, n: nat, k: nat)
    requires ValidPairs(pairs)
    requires n < |Leaves(content)|
    requires forall j :: 0 <= j < n ==> FirstPhrase(Leaves(content)[j], SortByLength(pairs)) == |pairs|
    requires k < |pairs| && Contains(Leaves(content)[n], SortByLength(pairs)[k].original)
    requires forall j :: 0 <= j < k ==> !Contains(Leaves(content)[n], SortByLength(pairs)[j].original)
    ensures SortByLength(pairs)[k].original != []
    ensures ApplyPhrases(content, pairs).0
         == ReplaceLeaf(content, n, Nodes(Fragment(Leaves(content)[n], SortByLength(pairs)[k])))
    ensures ApplyPhrases(content, pairs).1
         == |Split(Leaves(content)[n], SortByLength(pairs)[k].original)| - 1
  {
    SortedValid(pairs);
    var sorted := SortByLength(pairs);
    assert FirstPhrase(Leaves(content)[n], sorted) == k;
    assert FirstLeaf(Leaves(content), sorted) == n;
  }

  /** `ApplyPhrases` when the scan finds no phrase in any text node. */
  lemma ApplyPhrasesMiss(content: seq<Node>, pairs: seq<Pair>)
    requires ValidPairs(pairs)
    requires forall j :: 0 <= j < |Leaves(content)| ==> FirstPhrase(Leaves(content)[j], SortByLength(pairs)) == |pairs|
    ensures ApplyPhrases(content, pairs).0 == content
    ensures ApplyPhrases(content, pairs).1 == 0
  {
  }

  /** `replacePhrasesInElement(element, replacements)`: sort the pairs, take the text nodes, and
      rewrite the first node that includes a phrase on the first such phrase; then stop. */
  method ReplacePhrasesInElement(content: seq<Node>, replacements: seq<Pair>)
    returns (result: seq<Node>, replacementsMade: nat)
    requires ValidPairs(replacements)
    ensures result == ApplyPhrases(content, replacements).0
    ensures replacementsMade == ApplyPhrases(content, replacements).1
  {
    var sorted := SortByLength(replacements);
    SortedValid(replacements);
    var nodesToProcess := Leaves(content);
    var n := 0;
    while n < |nodesToProcess|
      invariant n <= |nodesToProcess|
      invariant forall j :: 0 <= j < n ==> FirstPhrase(nodesToProcess[j], sorted) == |sorted|
    {
      var text := nodesToProcess[n];
      var k := 0;
      while k < |sorted|
        invariant k <= |sorted|
        invariant forall j :: 0 <= j < k ==> !Contains(text, sorted[j].original)
      {
        var pair := sorted[k];
        if Contains(text, pair.original) {
          var parts := Split(text, pair.original);
          var fragment;
          fragment, replacementsMade := BuildFragment(parts, pair);
          result := ReplaceLeaf(content, n, Nodes(fragment));
          ApplyPhrasesAt(content, replacements, n, k);
          return;
        }
        k := k + 1;
      }
      assert FirstPhrase(text, sorted) == |sorted|;
      n := n + 1;
    }
    ApplyPhrasesMiss(content, replacements);
    result, replacementsMade := content, 0;
  }

  // ---------------------------------------------------------------------------------------------
  // What a call does, stated without the sort

  /** No pair's phrase occurs in `text`. */
  predicate NoPhraseIn(text: string, pairs: seq<Pair>) {
    forall k :: 0 <= k < |pairs| ==> !Contains(text, pairs[k].original)
  }

  /** `pairs[m]`'s phrase occurs in `text`, and every other phrase that occurs there is shorter
      or equally long and later in `pairs`. */
  predicate LongestEarliest(text: string, pairs: seq<Pair>, m: nat) {
    && m < |pairs|
    && Contains(text, pairs[m].original)
    && forall k :: 0 <= k < |pairs| && Contains(text, pairs[k].original) ==>
         |pairs[k].original| < |pairs[m].original|
         || (|pairs[k].original| == |pairs[m].original| && m <= k)
  }

  /** The sorted pairs include a phrase of `text` exactly when the unsorted ones do. */
  lemma SortedNoPhrase(text: string, pairs: seq<Pair>)
    ensures FirstPhrase(text, SortByLength(pairs)) == |pairs| <==> NoPhraseIn(text, pairs)
  {
    var sorted := SortByLength(pairs);
    var f := FirstPhrase(text, sorted);
    if f < |sorted| {
      SortedMember(pairs, sorted[f]);
    }
    if !NoPhraseIn(text, pairs) {
      var k :| 0 <= k < |pairs| && Contains(text, pairs[k].original);
      SortedMember(pairs, pairs[k]);
    }
  }

  /** The first pair of a sequence that has length `n` and whose phrase occurs in `text` is also
      the first pair whose phrase occurs in `text` among the pairs of that length. */
  lemma {:induction false} FirstPhraseWithLength(text: string, s: seq<Pair>, n: nat, f: nat)
    requires f < |s| && Contains(text, s[f].original) && |s[f].original| == n
    requires forall j :: 0 <= j < f && |s[j].original| == n ==> !Contains(text, s[j].original)
    ensures FirstPhrase(text, WithLength(s, n)) < |WithLength(s, n)|
    ensures WithLength(s, n)[FirstPhrase(text, WithLength(s, n))] == s[f]
  {
    if f > 0 {
      FirstPhraseWithLength(text, s[1..], n, f - 1);
      if |s[0].original| == n {
        var w := WithLength(s, n);
        assert w[0] == s[0] && w[1..] == WithLength(s[1..], n);
      }
    }
  }

  /** The text node the call rewrites, if any, is the first that includes some phrase. */
  lemma FirstLeafNoPhrase(leaves: seq<string>, pairs: seq<Pair>)
    ensures FirstLeaf(leaves, SortByLength(pairs)) == |leaves|
        <==> forall j :: 0 <= j < |leaves| ==> NoPhraseIn(leaves[j], pairs)
  {
    var i := FirstLeaf(leaves, SortByLength(pairs));
    if i < |leaves| {
      SortedNoPhrase(leaves[i], pairs);
    } else {
      forall j | 0 <= j < |leaves| ensures NoPhraseIn(leaves[j], pairs) {
        SortedNoPhrase(leaves[j], pairs);
      }
    }
  }

  /** Whether a call rewrites anything is decided by the first text node with a phrase. */
  lemma ApplyPhrasesCases(content: seq<Node>, pairs: seq<Pair>)
    requires ValidPairs(pairs)
    ensures FirstLeaf(Leaves(content), SortByLength(pairs)) < |Leaves(content)|
        ==> ApplyPhrases(content, pairs).1 > 0
    ensures FirstLeaf(Leaves(content), SortByLength(pairs)) == |Leaves(content)|
        ==> ApplyPhrases(content, pairs) == (content, 0)
  {
    var sorted := SortByLength(pairs);
    var leaves := Leaves(content);
    var i := FirstLeaf(leaves, sorted);
    if i < |leaves| {
      SortedValid(pairs);
      var p := sorted[FirstPhrase(leaves[i], sorted)];
      SplitCutsIffContains(leaves[i], p.original);
    }
  }

  /** A paragraph none of whose text nodes includes a phrase is left as it is, with no
      replacement; and only such a paragraph gives no replacement. */
  lemma ApplyPhrasesNoHit(content: seq<Node>, pairs: seq<Pair>)
    requires ValidPairs(pairs)
    ensures (forall j :: 0 <= j < |Leaves(content)| ==> NoPhraseIn(Leaves(content)[j], pairs))
        ==> ApplyPhrases(content, pairs) == (content, 0)
    ensures ApplyPhrases(content, pairs).1 == 0
        ==> forall j :: 0 <= j < |Leaves(content)| ==> NoPhraseIn(Leaves(content)[j], pairs)
  {
    FirstLeafNoPhrase(Leaves(content), pairs);
    ApplyPhrasesCases(content, pairs);
  }

  /** The pair a call chooses for a text node is as long as the longest phrase the node includes. */
  lemma ChosenLength(text: string, pairs: seq<Pair>, m: nat)
    requires LongestEarliest(text, pairs, m)
    ensures FirstPhrase(text, SortByLength(pairs)) < |pairs|
    ensures |SortByLength(pairs)[FirstPhrase(text, SortByLength(pairs))].original| == |pairs[m].original|
  {
    var sorted := SortByLength(pairs);
    SortedMember(pairs, pairs[m]);
    var g :| 0 <= g < |sorted| && sorted[g] == pairs[m];
    var f := FirstPhrase(text, sorted);
    assert f <= g;
    assert |sorted[f].original| >= |sorted[g].original|;
    SortedMember(pairs, sorted[f]);
    var k :| 0 <= k < |pairs| && pairs[k] == sorted[f];
    assert Contains(text, pairs[k].original);
  }

  /** The pair a call chooses for a text node: with `m` as in `LongestEarliest`, `pairs[m]`. */
  lemma ChosenPair(text: string, pairs: seq<Pair>, m: nat)
    requires LongestEarliest(text, pairs, m)
    ensures FirstPhrase(text, SortByLength(pairs)) < |pairs|
    ensures SortByLength(pairs)[FirstPhrase(text, SortByLength(pairs))] == pairs[m]
  {
    ChosenLength(text, pairs, m);
    var sorted := SortByLength(pairs);
    var f := FirstPhrase(text, sorted);
    var n := |pairs[m].original|;
    FirstPhraseWithLength(text, sorted, n, f);
    forall j | 0 <= j < m && |pairs[j].original| == n ensures !Contains(text, pairs[j].original) {
    }
    FirstPhraseWithLength(text, pairs, n, m);
    SortByLengthStable(pairs, n);
  }

  /** The text node a call rewrites is the first one that includes a phrase. */
  lemma FirstLeafIsFirstHit(content: seq<Node>, pairs: seq<Pair>, i: nat, m: nat)
    requires i < |Leaves(content)|
    requires forall j :: 0 <= j < i ==> NoPhraseIn(Leaves(content)[j], pairs)
    requires LongestEarliest(Leaves(content)[i], pairs, m)
    ensures FirstLeaf(Leaves(content), SortByLength(pairs)) == i
  {
    var sorted := SortByLength(pairs);
    var leaves := Leaves(content);
    forall j | 0 <= j < i ensures FirstPhrase(leaves[j], sorted) == |sorted| {
      SortedNoPhrase(leaves[j], pairs);
    }
    ChosenPair(leaves[i], pairs, m);
  }

  /** A call rewrites the first text node that includes a phrase, on the longest phrase it
      includes (the earliest of equally long ones), and reports one replacement per occurrence
      of that phrase. */
  lemma ApplyPhrasesFirstHit(content: seq<Node>, pairs: seq<Pair>, i: nat, m: nat)
    requires ValidPairs(pairs)
    requires i < |Leaves(content)|
    requires forall j :: 0 <= j < i ==> NoPhraseIn(Leaves(content)[j], pairs)
    requires LongestEarliest(Leaves(content)[i], pairs, m)
    ensures ApplyPhrases(content, pairs)
         == (ReplaceLeaf(content, i, Nodes(Fragment(Leaves(content)[i], pairs[m]))),
             |Split(Leaves(content)[i], pairs[m].original)| - 1)
  {
    FirstLeafIsFirstHit(content, pairs, i, m);
    ChosenPair(Leaves(content)[i], pairs, m);
  }

  /** Every other text node keeps its place and its text; the rewritten one reads back as its
      old text when each span is read as its tooltip. */
  lemma ApplyPhrasesLeaves(content: seq<Node>, pairs: seq<Pair>, i: nat, m: nat)
    requires ValidPairs(pairs)
    requires i < |Leaves(content)|
    requires forall j :: 0 <= j < i ==> NoPhraseIn(Leaves(content)[j], pairs)
    requires LongestEarliest(Leaves(content)[i], pairs, m)
    ensures Leaves(ApplyPhrases(content, pairs).0)
         == Leaves(content)[..i] + Leaves(Nodes(Fragment(Leaves(content)[i], pairs[m])))
            + Leaves(content)[i + 1..]
    ensures Flatten(Fragment(Leaves(content)[i], pairs[m]), false) == Leaves(content)[i]
  {
    ApplyPhrasesFirstHit(content, pairs, i, m);
    ReplaceLeafLeaves(content, i, Nodes(Fragment(Leaves(content)[i], pairs[m])));
    FragmentRestoresText(Leaves(content)[i], pairs[m]);
  }
}

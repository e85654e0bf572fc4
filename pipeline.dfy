/** The content script's page pass (`processPage`): find the visible paragraphs with text, keep
    those not processed before whose text passes the pre-filter, send them to the analyzer five
    at a time with every rule, apply the validated results paragraph by paragraph and rule by
    rule, and remember every paragraph that was sent. */
module Pipeline {
  import opened Wrappers
  import opened Text
  import opened Json
  import opened Rules
  import opened Dom
  import opened CandidateFilter
  import opened PhraseApplier
  import opened PropertyKeys

  /** `BATCH_SIZE`. */
  const BatchSize: nat := 5

  /** A `<p>` element of the page: whether it is rendered (`offsetParent !== null`) and its children. */
  datatype Block = Block(visible: bool, content: seq<Node>)

  function BlockText(b: Block): string {
    TextContent(b.content)
  }

  /** Positions in strictly increasing order, all below `bound`. */
  predicate IncreasingBelow(ks: seq<nat>, bound: nat) {
    && (forall i :: 0 <= i < |ks| ==> ks[i] < bound)
    && (forall i, j :: 0 <= i < j < |ks| ==> ks[i] < ks[j])
  }

  /** A paragraph `findTextBlocks` returns. */
  predicate IsTextBlock(b: Block) {
    b.visible && Trim(BlockText(b)) != []
  }

  /** The `blocksToProcess` filter on one paragraph. */
  predicate IsCandidate(blocks: seq<Block>, processed: set<nat>, rules: seq<Rule>, k: nat)
    requires k < |blocks|
  {
    && k !in processed
    && Trim(BlockText(blocks[k])) != []
    && MightContainConcept(BlockText(blocks[k]), rules)
  }

  /** The positions of `ks` whose flag is set, in their order (`Array.prototype.filter`). */
  function Where(ks: seq<nat>, keep: seq<bool>): (r: seq<nat>)
    requires forall i :: 0 <= i < |ks| ==> ks[i] < |keep|
    ensures forall k :: k in r <==> k in ks && keep[k]
    ensures IncreasingBelow(ks, |keep|) ==> IncreasingBelow(r, |keep|)
  {
    if ks == [] then []
    else
      var rest := Where(ks[1..], keep);
      assert forall k :: k in ks[1..] ==> k in ks;
      if keep[ks[0]] then
        assert IncreasingBelow(ks, |keep|) ==> forall i :: 0 <= i < |rest| ==> ks[0] < rest[i] by {
          if IncreasingBelow(ks, |keep|) {
            forall i | 0 <= i < |rest| ensures ks[0] < rest[i] {
              assert rest[i] in ks[1..];
              var j :| 0 <= j < |ks[1..]| && ks[1..][j] == rest[i];
              assert ks[j + 1] == rest[i];
            }
          }
        }
        [ks[0]] + rest
      else rest
  }

  /** Every position of the page, in document order. */
  function AllPositions(n: nat): (r: seq<nat>)
    ensures |r| == n && forall i :: 0 <= i < n ==> r[i] == i
  {
    seq(n, i => i)
  }

  function TextFlags(blocks: seq<Block>): (f: seq<bool>)
    ensures |f| == |blocks| && forall k :: 0 <= k < |blocks| ==> f[k] == IsTextBlock(blocks[k])
  {
    seq(|blocks|, k requires 0 <= k < |blocks| => IsTextBlock(blocks[k]))
  }

  function CandidateFlags(blocks: seq<Block>, processed: set<nat>, rules: seq<Rule>): (f: seq<bool>)
    ensures |f| == |blocks|
    ensures forall k :: 0 <= k < |blocks| ==> f[k] == IsCandidate(blocks, processed, rules, k)
  {
    seq(|blocks|, k requires 0 <= k < |blocks| => IsCandidate(blocks, processed, rules, k))
  }

  /** `findTextBlocks()`: the rendered paragraphs with non-blank text, in document order. */
  function FindTextBlocks(blocks: seq<Block>): (r: seq<nat>)
    ensures IncreasingBelow(r, |blocks|)
    ensures forall k: nat :: k in r <==> k < |blocks| && IsTextBlock(blocks[k])
  {
    var all := AllPositions(|blocks|);
    assert IncreasingBelow(all, |blocks|);
    var flags := TextFlags(blocks);
    var r := Where(all, flags);
    assert forall k: nat :: k in r <==> k < |blocks| && flags[k] by {
      forall k: nat ensures k in r <==> k < |blocks| && flags[k] {
        if k < |blocks| { assert all[k] == k; assert k in all; }
      }
    }
    r
  }

  /** `blocksToProcess`: the paragraphs sent to the analyzer, in document order. */
  function Candidates(blocks: seq<Block>, processed: set<nat>, rules: seq<Rule>): (r: seq<nat>)
    ensures IncreasingBelow(r, |blocks|)
    ensures forall k: nat :: k in r <==> k < |blocks| && IsTextBlock(blocks[k]) && IsCandidate(blocks, processed, rules, k)
  {
    Where(FindTextBlocks(blocks), CandidateFlags(blocks, processed, rules))
  }

  // ---------------------------------------------------------------------------------------------
  // Batches

  /** `Math.ceil(n / BATCH_SIZE)`: the number of iterations of `i += BATCH_SIZE` below `n`. */
  function BatchCount(n: nat): (c: nat)
    ensures c * BatchSize >= n
    ensures c > 0 ==> (c - 1) * BatchSize < n
  {
    (n + BatchSize - 1) / BatchSize
  }

  /** `blocksToProcess.slice(i, i + BATCH_SIZE)` with `i = t * BATCH_SIZE`. */
  function Batch(ks: seq<nat>, t: nat): (batch: seq<nat>)
    requires t < BatchCount(|ks|)
    ensures 1 <= |batch| <= BatchSize
  {
    var lo := t * BatchSize;
    var hi := if lo + BatchSize <= |ks| then lo + BatchSize else |ks|;
    ks[lo..hi]
  }

  /** The first `t` batches, one after the other, are the first `t * BATCH_SIZE` positions
      (all of them once `t` reaches the batch count). */
  lemma {:induction false} BatchesCover(ks: seq<nat>, t: nat)
    requires t <= BatchCount(|ks|)
    ensures FlattenBatches(ks, t) == ks[..if t * BatchSize <= |ks| then t * BatchSize else |ks|]
  {
    if t > 0 {
      BatchesCover(ks, t - 1);
    }
  }

  function FlattenBatches(ks: seq<nat>, t: nat): seq<nat>
    requires t <= BatchCount(|ks|)
  {
    if t == 0 then [] else FlattenBatches(ks, t - 1) + Batch(ks, t - 1)
  }

  // ---------------------------------------------------------------------------------------------
  // The analyzer's reply

  /** The message sent for a batch: `{textBlocks, replacements}`. */
  datatype Request = Request(textBlocks: seq<string>, replacements: seq<Rule>)

  /** What `await chrome.runtime.sendMessage(...)` gives: it throws, or it resolves to a value. */
  datatype Reply = Threw | Replied(value: Json)

  /** How the batch loop reads a reply. */
  datatype Outcome = Failed | Results(items: seq<Json>)

  /** A reply that throws, is `null` (reading `result.error` throws) or has a truthy `error` ends
      the batch without replacements; otherwise its `results`, when an array, are the items. */
  function Classify(reply: Reply): (o: Outcome)
    ensures o.Failed? <==> reply.Threw? || reply.value == JNull || HasTruthy(reply.value, "error")
    ensures o.Results? && o.items != [] ==> Get(reply.value, "results") == Some(JArr(o.items))
  {
    match reply
    case Threw => Failed
    case Replied(v) =>
      if v == JNull || HasTruthy(v, "error") then Failed
      else
        match Get(v, "results")
        case Some(JArr(items)) => Results(items)
        case _ => Results([])
  }

  /** A validated result item, its fields converted to the strings the source uses. */
  datatype Item = Item(paragraph: real, ruleKey: string, original: string, replacement: string)

  /** The source's test on a result item of a batch of `batchLength` paragraphs. */
  predicate Accepted(v: Json, batchLength: nat) {
    && Truthy(v)
    && (match Get(v, "paragraph_index")
        case Some(JNum(n)) => 0.0 <= n < batchLength as real
        case _ => false)
    && HasTruthy(v, "rule_id")
    && HasTruthy(v, "original_phrase")
    && HasTruthy(v, "replacement_form")
  }

  /** The item an accepted value stands for, when its fields are values the model renders. */
  function ItemOf(v: Json, batchLength: nat): (r: Option<Item>)
    ensures r.Some? ==> Accepted(v, batchLength)
    ensures r.Some? ==> 0.0 <= r.value.paragraph < batchLength as real
    ensures r.Some? ==> r.value.ruleKey != [] && r.value.original != [] && r.value.replacement != []
  {
    if !Accepted(v, batchLength) then None
    else
      var key := ToJsString(Get(v, "rule_id").value);
      var original := ToJsString(Get(v, "original_phrase").value);
      var replacement := ToJsString(Get(v, "replacement_form").value);
      if key.None? || original.None? || replacement.None? then None
      else Some(Item(Get(v, "paragraph_index").value.n, key.value, original.value, replacement.value))
  }

  /** `resultsByParagraph[j] || []` after the validation loop has seen the first `n` values: the
      accepted items for paragraph `j`, in the order of the results. */
  function ParagraphItems(vs: seq<Json>, batchLength: nat, j: nat, n: nat): (r: seq<Item>)
    requires n <= |vs|
    ensures forall i :: 0 <= i < |r| ==> r[i].paragraph == j as real
    ensures ValidItems(r)
  {
    if n == 0 then []
    else
      var prev := ParagraphItems(vs, batchLength, j, n - 1);
      var item := ItemOf(vs[n - 1], batchLength);
      if item.Some? && item.value.paragraph == j as real then prev + [item.value] else prev
  }

  // ---------------------------------------------------------------------------------------------
  // Grouping one paragraph's items by rule

  /** Items with a non-empty phrase, as every converted accepted item is. */
  predicate ValidItems(items: seq<Item>) {
    forall i :: 0 <= i < |items| ==> items[i].original != []
  }

  /** The keys of `replacementsByRule` after the first `n` items, in the order they were added. */
  function RuleKeys(items: seq<Item>, n: nat): (ks: seq<string>)
    requires n <= |items|
    ensures forall k :: k in ks <==> exists i :: 0 <= i < n && items[i].ruleKey == k
  {
    if n == 0 then []
    else
      var prev := RuleKeys(items, n - 1);
      if items[n - 1].ruleKey in prev then prev else prev + [items[n - 1].ruleKey]
  }

  /** Each rule key is added once. */
  lemma {:induction false} RuleKeysDistinct(items: seq<Item>, n: nat)
    requires n <= |items|
    ensures Distinct(RuleKeys(items, n))
  {
    if n > 0 {
      RuleKeysDistinct(items, n - 1);
      var prev := RuleKeys(items, n - 1);
      var key := items[n - 1].ruleKey;
      if key !in prev {
        var ks := prev + [key];
        forall a, b | 0 <= a < b < |ks| ensures ks[a] != ks[b] {
          assert ks[a] == prev[a];
          if b == |prev| {
            assert prev[a] in prev;
          }
        }
      }
    }
  }

  /** `replacementsByRule[key]` after the first `n` items: their pairs for that rule, in order. */
  function RuleGroup(items: seq<Item>, key: string, n: nat): (ps: seq<Pair>)
    requires n <= |items|
    ensures |ps| > 0 <==> key in RuleKeys(items, n)
    ensures ValidItems(items) ==> ValidPairs(ps)
  {
    if n == 0 then []
    else
      var prev := RuleGroup(items, key, n - 1);
      if items[n - 1].ruleKey == key then prev + [Pair(items[n - 1].original, items[n - 1].replacement)]
      else prev
  }

  // ---------------------------------------------------------------------------------------------
  // Applying a paragraph's items

  /** One iteration of that loop: the rule's pairs are applied when there are any. */
  function ApplyGroup(acc: (seq<Node>, nat), group: seq<Pair>): (seq<Node>, nat)
    requires ValidPairs(group)
  {
    if |group| > 0 then
      var step := ApplyPhrases(acc.0, group);
      (step.0, acc.1 + step.1)
    else acc
  }

  lemma ApplyGroupOf(acc: (seq<Node>, nat), group: seq<Pair>, r: seq<Node>, m: nat)
    requires ValidPairs(group) && |group| > 0
    requires r == ApplyPhrases(acc.0, group).0 && m == ApplyPhrases(acc.0, group).1
    ensures ApplyGroup(acc, group).0 == r && ApplyGroup(acc, group).1 == acc.1 + m
  {
  }

  /** The `for (const ruleId in replacementsByRule)` loop after its first `t` keys of `order`:
      the paragraph's children and the replacements counted so far. */
  function ApplyGroups(content: seq<Node>, items: seq<Item>, order: seq<string>, t: nat): (seq<Node>, nat)
    requires ValidItems(items) && t <= |order|
  {
    if t == 0 then (content, 0)
    else ApplyGroup(ApplyGroups(content, items, order, t - 1), RuleGroup(items, order[t - 1], |items|))
  }

  lemma ApplyGroupsStep(content: seq<Node>, items: seq<Item>, order: seq<string>, t: nat)
    requires ValidItems(items) && t < |order|
    ensures ApplyGroups(content, items, order, t + 1)
         == ApplyGroup(ApplyGroups(content, items, order, t), RuleGroup(items, order[t], |items|))
  {
  }

  lemma ApplyGroupsSkip(content: seq<Node>, items: seq<Item>, order: seq<string>, t: nat)
    requires ValidItems(items) && t < |order| && |RuleGroup(items, order[t], |items|)| == 0
    ensures ApplyGroups(content, items, order, t + 1) == ApplyGroups(content, items, order, t)
  {
    ApplyGroupsStep(content, items, order, t);
  }

  lemma ApplyGroupsApply(content: seq<Node>, items: seq<Item>, order: seq<string>, t: nat,
                         acc: (seq<Node>, nat), group: seq<Pair>, r: seq<Node>, m: nat)
    requires ValidItems(items) && t < |order| && acc == ApplyGroups(content, items, order, t)
    requires group == RuleGroup(items, order[t], |items|) && |group| > 0
    requires r == ApplyPhrases(acc.0, group).0 && m == ApplyPhrases(acc.0, group).1
    ensures ApplyGroups(content, items, order, t + 1).0 == r
    ensures ApplyGroups(content, items, order, t + 1).1 == acc.1 + m
  {
    ApplyGroupsStep(content, items, order, t);
    ApplyGroupOf(acc, group, r, m);
  }

  /** The order in which the loop visits the rules of a paragraph's items. */
  function RuleOrder(items: seq<Item>): seq<string> {
    ForInOrder(RuleKeys(items, |items|))
  }

  /** What the batch loop does to one paragraph with the items for it. */
  function UpdateBlock(content: seq<Node>, items: seq<Item>): (seq<Node>, nat)
    requires ValidItems(items)
  {
    ApplyGroups(content, items, RuleOrder(items), |RuleOrder(items)|)
  }

  /** Every position of the batch is a position of the page. */
  predicate InPage(batch: seq<nat>, blocks: seq<Block>) {
    forall j :: 0 <= j < |batch| ==> batch[j] < |blocks|
  }

  /** The texts of a batch: `batch.map(block => block.textContent)`. */
  function BatchTexts(blocks: seq<Block>, batch: seq<nat>): (texts: seq<string>)
    requires InPage(batch, blocks)
    ensures |texts| == |batch| && forall j :: 0 <= j < |batch| ==> texts[j] == BlockText(blocks[batch[j]])
  {
    seq(|batch|, j requires 0 <= j < |batch| => BlockText(blocks[batch[j]]))
  }

  /** The loop over a batch's paragraphs after its first `n` paragraphs, for the result items `vs`. */
  function ApplyBatch(blocks: seq<Block>, batch: seq<nat>, vs: seq<Json>, n: nat): (r: (seq<Block>, nat))
    requires InPage(batch, blocks) && n <= |batch|
    ensures |r.0| == |blocks|
  {
    if n == 0 then (blocks, 0)
    else
      var prev := ApplyBatch(blocks, batch, vs, n - 1);
      var k := batch[n - 1];
      var step := UpdateBlock(prev.0[k].content, ParagraphItems(vs, |batch|, n - 1, |vs|));
      (prev.0[k := Block(prev.0[k].visible, step.0)], prev.1 + step.1)
  }

  lemma ApplyBatchStep(blocks: seq<Block>, batch: seq<nat>, vs: seq<Json>, j: nat,
                       bs: seq<Block>, made: nat, items: seq<Item>, c: seq<Node>, m: nat)
    requires InPage(batch, blocks) && j < |batch|
    requires bs == ApplyBatch(blocks, batch, vs, j).0 && made == ApplyBatch(blocks, batch, vs, j).1
    requires items == ParagraphItems(vs, |batch|, j, |vs|)
    requires c == UpdateBlock(bs[batch[j]].content, items).0 && m == UpdateBlock(bs[batch[j]].content, items).1
    ensures ApplyBatch(blocks, batch, vs, j + 1).0 == bs[batch[j] := Block(bs[batch[j]].visible, c)]
    ensures ApplyBatch(blocks, batch, vs, j + 1).1 == made + m
  {
  }

  /** One iteration of the batch loop: the request sent, then the paragraphs and count after it. */
  function RunBatch(blocks: seq<Block>, batch: seq<nat>, t: nat, rules: seq<Rule>,
                    analyzer: (nat, Request) -> Reply): (r: (seq<Block>, nat, Request))
    requires InPage(batch, blocks)
    ensures |r.0| == |blocks|
  {
    var request := Request(BatchTexts(blocks, batch), rules);
    match Classify(analyzer(t, request))
    case Failed => (blocks, 0, request)
    case Results(vs) =>
      var applied := ApplyBatch(blocks, batch, vs, |batch|);
      (applied.0, applied.1, request)
  }

  /** The page, the count and the requests after the first `t` batches. */
  datatype PageRun = PageRun(blocks: seq<Block>, made: nat, requests: seq<Request>)

  function RunBatches(blocks: seq<Block>, cands: seq<nat>, t: nat, rules: seq<Rule>,
                      analyzer: (nat, Request) -> Reply): (r: PageRun)
    requires InPage(cands, blocks) && t <= BatchCount(|cands|)
    ensures |r.blocks| == |blocks|
  {
    if t == 0 then PageRun(blocks, 0, [])
    else
      var prev := RunBatches(blocks, cands, t - 1, rules, analyzer);
      var step := RunBatch(prev.blocks, Batch(cands, t - 1), t - 1, rules, analyzer);
      PageRun(step.0, prev.made + step.1, prev.requests + [step.2])
  }

  lemma RunBatchesStep(blocks: seq<Block>, cands: seq<nat>, t: nat, rules: seq<Rule>,
                       analyzer: (nat, Request) -> Reply, acc: PageRun, bs: seq<Block>, made: nat, request: Request)
    requires InPage(cands, blocks) && t < BatchCount(|cands|) && acc == RunBatches(blocks, cands, t, rules, analyzer)
    requires bs == RunBatch(acc.blocks, Batch(cands, t), t, rules, analyzer).0
    requires made == RunBatch(acc.blocks, Batch(cands, t), t, rules, analyzer).1
    requires request == RunBatch(acc.blocks, Batch(cands, t), t, rules, analyzer).2
    ensures RunBatches(blocks, cands, t + 1, rules, analyzer) == PageRun(bs, acc.made + made, acc.requests + [request])
  {
  }

  /** What `processPage(replacements)` does to the page, counts and sends. */
  function ProcessPageRun(blocks: seq<Block>, processed: set<nat>, rules: seq<Rule>,
                          analyzer: (nat, Request) -> Reply): PageRun
  {
    var cands := Candidates(blocks, processed, rules);
    RunBatches(blocks, cands, BatchCount(|cands|), rules, analyzer)
  }

  // ---------------------------------------------------------------------------------------------
  // Properties of a page pass

  /** A batch changes only its own paragraphs. */
  lemma {:induction false} ApplyBatchFrame(blocks: seq<Block>, batch: seq<nat>, vs: seq<Json>, n: nat, k: nat)
    requires InPage(batch, blocks) && n <= |batch| && k < |blocks| && k !in batch[..n]
    ensures ApplyBatch(blocks, batch, vs, n).0[k] == blocks[k]
  {
    if n > 0 {
      assert batch[..n] == batch[..n - 1] + [batch[n - 1]];
      assert batch[n - 1] != k;
      ApplyBatchFrame(blocks, batch, vs, n - 1, k);
      var prev := ApplyBatch(blocks, batch, vs, n - 1);
      var items := ParagraphItems(vs, |batch|, n - 1, |vs|);
      var step := UpdateBlock(prev.0[batch[n - 1]].content, items);
      ApplyBatchStep(blocks, batch, vs, n - 1, prev.0, prev.1, items, step.0, step.1);
    }
  }

  lemma RunBatchFrame(blocks: seq<Block>, batch: seq<nat>, t: nat, rules: seq<Rule>,
                      analyzer: (nat, Request) -> Reply, k: nat)
    requires InPage(batch, blocks) && k < |blocks| && k !in batch
    ensures RunBatch(blocks, batch, t, rules, analyzer).0[k] == blocks[k]
  {
    assert batch[..|batch|] == batch;
    var request := Request(BatchTexts(blocks, batch), rules);
    if Classify(analyzer(t, request)).Results? {
      ApplyBatchFrame(blocks, batch, Classify(analyzer(t, request)).items, |batch|, k);
    }
  }

  /** The first `t` batches change only their own paragraphs. */
  lemma {:induction false} RunBatchesFrame(blocks: seq<Block>, cands: seq<nat>, t: nat, rules: seq<Rule>,
                                           analyzer: (nat, Request) -> Reply, k: nat)
    requires InPage(cands, blocks) && t <= BatchCount(|cands|) && k < |blocks| && k !in FlattenBatches(cands, t)
    ensures RunBatches(blocks, cands, t, rules, analyzer).blocks[k] == blocks[k]
  {
    if t > 0 {
      RunBatchesFrame(blocks, cands, t - 1, rules, analyzer, k);
      NextBatchFrame(blocks, cands, t - 1, rules, analyzer, k);
    }
  }

  /** Batch `t` changes only its own paragraphs. */
  lemma NextBatchFrame(blocks: seq<Block>, cands: seq<nat>, t: nat, rules: seq<Rule>,
                       analyzer: (nat, Request) -> Reply, k: nat)
    requires InPage(cands, blocks) && t < BatchCount(|cands|) && k < |blocks| && k !in Batch(cands, t)
    ensures RunBatches(blocks, cands, t + 1, rules, analyzer).blocks[k]
         == RunBatches(blocks, cands, t, rules, analyzer).blocks[k]
  {
    var prev := RunBatches(blocks, cands, t, rules, analyzer);
    BatchInPage(cands, t, blocks);
    RunBatchFrame(prev.blocks, Batch(cands, t), t, rules, analyzer, k);
  }

  lemma BatchInPage(cands: seq<nat>, t: nat, blocks: seq<Block>)
    requires InPage(cands, blocks) && t < BatchCount(|cands|)
    ensures InPage(Batch(cands, t), blocks)
  {
    var lo := t * BatchSize;
    forall j | 0 <= j < |Batch(cands, t)| ensures Batch(cands, t)[j] < |blocks| {
      assert Batch(cands, t)[j] == cands[lo + j];
    }
  }

  /** A page pass changes no paragraph it did not send to the analyzer. */
  lemma ProcessPageFrame(blocks: seq<Block>, processed: set<nat>, rules: seq<Rule>,
                         analyzer: (nat, Request) -> Reply, k: nat)
    requires k < |blocks| && k !in Candidates(blocks, processed, rules)
    ensures ProcessPageRun(blocks, processed, rules, analyzer).blocks[k] == blocks[k]
  {
    var cands := Candidates(blocks, processed, rules);
    BatchesCover(cands, BatchCount(|cands|));
    assert cands[..|cands|] == cands;
    RunBatchesFrame(blocks, cands, BatchCount(|cands|), rules, analyzer, k);
  }

  /** A position of batch `t` is none of the positions of the batches before it. */
  lemma BatchFresh(cands: seq<nat>, bound: nat, t: nat, j: nat)
    requires IncreasingBelow(cands, bound) && t < BatchCount(|cands|) && j < |Batch(cands, t)|
    ensures Batch(cands, t)[j] !in FlattenBatches(cands, t)
  {
    BatchesCover(cands, t);
    var lo := t * BatchSize;
    assert Batch(cands, t)[j] == cands[lo + j];
  }

  /** Batch `t` is sent with the texts its paragraphs had before the pass began. */
  lemma RunBatchesAgree(blocks: seq<Block>, cands: seq<nat>, t: nat, rules: seq<Rule>,
                        analyzer: (nat, Request) -> Reply)
    requires IncreasingBelow(cands, |blocks|) && t < BatchCount(|cands|)
    ensures BatchTexts(RunBatches(blocks, cands, t, rules, analyzer).blocks, Batch(cands, t))
         == BatchTexts(blocks, Batch(cands, t))
  {
    var b := Batch(cands, t);
    var now := RunBatches(blocks, cands, t, rules, analyzer).blocks;
    BatchInPage(cands, t, blocks);
    forall j | 0 <= j < |b| ensures now[b[j]] == blocks[b[j]] {
      BatchFresh(cands, |blocks|, t, j);
      RunBatchesFrame(blocks, cands, t, rules, analyzer, b[j]);
    }
  }

  /** The request for batch `t`, with the texts its paragraphs have in `blocks`. */
  function BatchRequest(blocks: seq<Block>, cands: seq<nat>, t: nat, rules: seq<Rule>): (r: Request)
    requires InPage(cands, blocks) && t < BatchCount(|cands|)
    ensures r.replacements == rules && |r.textBlocks| == |Batch(cands, t)|
  {
    BatchInPage(cands, t, blocks);
    Request(BatchTexts(blocks, Batch(cands, t)), rules)
  }

  /** Batch `t` adds one request, for the original texts of its paragraphs. */
  lemma NextRequest(blocks: seq<Block>, cands: seq<nat>, t: nat, rules: seq<Rule>,
                    analyzer: (nat, Request) -> Reply)
    requires IncreasingBelow(cands, |blocks|) && t < BatchCount(|cands|)
    ensures RunBatches(blocks, cands, t + 1, rules, analyzer).requests
         == RunBatches(blocks, cands, t, rules, analyzer).requests + [BatchRequest(blocks, cands, t, rules)]
  {
    RunBatchesAgree(blocks, cands, t, rules, analyzer);
    BatchInPage(cands, t, blocks);
  }

  /** The requests for the first `t` batches, each for the texts its paragraphs have in `blocks`. */
  function BatchRequests(blocks: seq<Block>, cands: seq<nat>, t: nat, rules: seq<Rule>): (reqs: seq<Request>)
    requires InPage(cands, blocks) && t <= BatchCount(|cands|)
    ensures |reqs| == t && forall i :: 0 <= i < t ==> reqs[i] == BatchRequest(blocks, cands, i, rules)
  {
    if t == 0 then [] else BatchRequests(blocks, cands, t - 1, rules) + [BatchRequest(blocks, cands, t - 1, rules)]
  }

  /** The first `t` batches send one request each, every one carrying all the rules and the
      original texts of its paragraphs. */
  lemma {:induction false} RunBatchesRequests(blocks: seq<Block>, cands: seq<nat>, t: nat, rules: seq<Rule>,
                                              analyzer: (nat, Request) -> Reply)
    requires IncreasingBelow(cands, |blocks|) && t <= BatchCount(|cands|)
    ensures RunBatches(blocks, cands, t, rules, analyzer).requests == BatchRequests(blocks, cands, t, rules)
  {
    if t > 0 {
      RunBatchesRequests(blocks, cands, t - 1, rules, analyzer);
      NextRequest(blocks, cands, t - 1, rules, analyzer);
    }
  }

  /** All the paragraph texts of a sequence of requests, one after the other. */
  function SentTexts(reqs: seq<Request>): seq<string> {
    if reqs == [] then [] else SentTexts(reqs[..|reqs| - 1]) + reqs[|reqs| - 1].textBlocks
  }

  lemma BatchTextsAppend(blocks: seq<Block>, a: seq<nat>, b: seq<nat>)
    requires InPage(a, blocks) && InPage(b, blocks)
    ensures InPage(a + b, blocks) && BatchTexts(blocks, a + b) == BatchTexts(blocks, a) + BatchTexts(blocks, b)
  {
  }

  /** One more request adds its texts at the end. */
  lemma SentTextsSnoc(prev: seq<Request>, last: Request)
    ensures SentTexts(prev + [last]) == SentTexts(prev) + last.textBlocks
  {
    var reqs := prev + [last];
    assert reqs[..|reqs| - 1] == prev;
  }

  lemma {:induction false} SentTextsUpTo(blocks: seq<Block>, cands: seq<nat>, t: nat, rules: seq<Rule>)
    requires InPage(cands, blocks) && t <= BatchCount(|cands|)
    ensures InPage(FlattenBatches(cands, t), blocks)
    ensures SentTexts(BatchRequests(blocks, cands, t, rules)) == BatchTexts(blocks, FlattenBatches(cands, t))
  {
    if t > 0 {
      SentTextsUpTo(blocks, cands, t - 1, rules);
      var prev := BatchRequests(blocks, cands, t - 1, rules);
      var last := BatchRequest(blocks, cands, t - 1, rules);
      assert BatchRequests(blocks, cands, t, rules) == prev + [last];
      SentTextsSnoc(prev, last);
      BatchInPage(cands, t - 1, blocks);
      assert last.textBlocks == BatchTexts(blocks, Batch(cands, t - 1));
      assert FlattenBatches(cands, t) == FlattenBatches(cands, t - 1) + Batch(cands, t - 1);
      BatchTextsAppend(blocks, FlattenBatches(cands, t - 1), Batch(cands, t - 1));
    }
  }

  /** A page pass sends the text of every candidate paragraph exactly once, in document order,
      in `ceil(n / 5)` requests that each carry every rule. */
  lemma ProcessPageRequests(blocks: seq<Block>, processed: set<nat>, rules: seq<Rule>,
                            analyzer: (nat, Request) -> Reply)
    ensures var cands := Candidates(blocks, processed, rules);
            var reqs := ProcessPageRun(blocks, processed, rules, analyzer).requests;
      && |reqs| == BatchCount(|cands|)
      && (forall i :: 0 <= i < |reqs| ==> reqs[i].replacements == rules && 1 <= |reqs[i].textBlocks| <= BatchSize)
      && SentTexts(reqs) == BatchTexts(blocks, cands)
  {
    var cands := Candidates(blocks, processed, rules);
    var c := BatchCount(|cands|);
    RunBatchesRequests(blocks, cands, c, rules, analyzer);
    SentTextsUpTo(blocks, cands, c, rules);
    BatchesCover(cands, c);
    assert cands[..|cands|] == cands;
  }

  /** An analyzer that fails for every batch leaves the page as it was. */
  ghost predicate AlwaysFails(analyzer: (nat, Request) -> Reply) {
    forall t, request :: Classify(analyzer(t, request)).Failed?
  }

  lemma {:induction false} RunBatchesFailing(blocks: seq<Block>, cands: seq<nat>, t: nat, rules: seq<Rule>,
                                             analyzer: (nat, Request) -> Reply)
    requires InPage(cands, blocks) && t <= BatchCount(|cands|) && AlwaysFails(analyzer)
    ensures RunBatches(blocks, cands, t, rules, analyzer).blocks == blocks
    ensures RunBatches(blocks, cands, t, rules, analyzer).made == 0
  {
    if t > 0 {
      RunBatchesFailing(blocks, cands, t - 1, rules, analyzer);
    }
  }

  lemma ProcessPageFailing(blocks: seq<Block>, processed: set<nat>, rules: seq<Rule>,
                           analyzer: (nat, Request) -> Reply)
    requires AlwaysFails(analyzer)
    ensures ProcessPageRun(blocks, processed, rules, analyzer).blocks == blocks
    ensures ProcessPageRun(blocks, processed, rules, analyzer).made == 0
  {
    var cands := Candidates(blocks, processed, rules);
    RunBatchesFailing(blocks, cands, BatchCount(|cands|), rules, analyzer);
  }

  /** With no paragraph to send, a pass sends nothing and changes nothing. */
  lemma NoCandidates(blocks: seq<Block>, processed: set<nat>, rules: seq<Rule>, analyzer: (nat, Request) -> Reply)
    requires Candidates(blocks, processed, rules) == []
    ensures ProcessPageRun(blocks, processed, rules, analyzer) == PageRun(blocks, 0, [])
  {
  }

  /** After a pass, with the sent paragraphs marked processed, a second pass with the same rules
      finds nothing to send, whatever the analyzer answered the first time. */
  lemma SecondPassIdle(blocks: seq<Block>, processed: set<nat>, rules: seq<Rule>,
                       analyzer: (nat, Request) -> Reply, analyzer': (nat, Request) -> Reply)
    ensures var cands := Candidates(blocks, processed, rules);
            var after := ProcessPageRun(blocks, processed, rules, analyzer).blocks;
            var processed' := processed + PositionSet(cands);
      && Candidates(after, processed', rules) == []
      && ProcessPageRun(after, processed', rules, analyzer') == PageRun(after, 0, [])
  {
    var cands := Candidates(blocks, processed, rules);
    var after := ProcessPageRun(blocks, processed, rules, analyzer).blocks;
    var processed' := processed + PositionSet(cands);
    var again := Candidates(after, processed', rules);
    if again != [] {
      var k := again[0];
      assert k in again;
      assert k !in cands;
      ProcessPageFrame(blocks, processed, rules, analyzer, k);
      assert false;
    }
  }

  /** A paragraph's items are exactly the accepted items that name it. */
  lemma {:induction false} ParagraphItemsMembers(vs: seq<Json>, batchLength: nat, j: nat, n: nat)
    requires n <= |vs|
    ensures forall x :: x in ParagraphItems(vs, batchLength, j, n) <==>
      exists i :: 0 <= i < n && ItemOf(vs[i], batchLength) == Some(x) && x.paragraph == j as real
  {
    if n > 0 {
      ParagraphItemsMembers(vs, batchLength, j, n - 1);
    }
  }

  /** The items seen so far depend only on the values seen so far. */
  lemma {:induction false} ParagraphItemsPrefix(vs: seq<Json>, ws: seq<Json>, batchLength: nat, j: nat, n: nat)
    requires n <= |vs| && n <= |ws| && vs[..n] == ws[..n]
    ensures ParagraphItems(vs, batchLength, j, n) == ParagraphItems(ws, batchLength, j, n)
  {
    if n > 0 {
      assert vs[n - 1] == vs[..n][n - 1];
      assert vs[..n - 1] == vs[..n][..n - 1];
      assert ws[..n - 1] == ws[..n][..n - 1];
      ParagraphItemsPrefix(vs, ws, batchLength, j, n - 1);
    }
  }

  /** One value contributes its item exactly when it is accepted and names the paragraph. */
  lemma ParagraphItemsSingle(v: Json, batchLength: nat, j: nat)
    ensures ParagraphItems([v], batchLength, j, 1)
         == if ItemOf(v, batchLength).Some? && ItemOf(v, batchLength).value.paragraph == j as real
            then [ItemOf(v, batchLength).value] else []
  {
  }

  /** The grouping keeps the order of the results: the items of two runs of results are those of
      the first run, then those of the second. */
  lemma {:induction false} ParagraphItemsAppend(a: seq<Json>, b: seq<Json>, batchLength: nat, j: nat)
    ensures ParagraphItems(a + b, batchLength, j, |a + b|)
         == ParagraphItems(a, batchLength, j, |a|) + ParagraphItems(b, batchLength, j, |b|)
  {
    if b == [] {
      assert a + b == a;
    } else {
      var b' := b[..|b| - 1];
      var v := b[|b| - 1];
      assert a + b == (a + b') + [v];
      ParagraphItemsAppend(a, b', batchLength, j);
      assert (a + b)[..|a + b'|] == (a + b')[..|a + b'|];
      ParagraphItemsPrefix(a + b, a + b', batchLength, j, |a + b'|);
      assert b[..|b'|] == b'[..|b'|];
      ParagraphItemsPrefix(b, b', batchLength, j, |b'|);
      assert (a + b)[|a + b| - 1] == v && b[|b| - 1] == v;
    }
  }

  /** Items that name a paragraph outside the batch are ignored. */
  lemma {:induction false} ParagraphItemsOutside(vs: seq<Json>, batchLength: nat, j: nat, n: nat)
    requires n <= |vs| && j >= batchLength
    ensures ParagraphItems(vs, batchLength, j, n) == []
  {
    if n > 0 {
      ParagraphItemsOutside(vs, batchLength, j, n - 1);
    }
  }

  /** With no result items, the loop over a batch's paragraphs changes nothing and counts nothing. */
  lemma {:induction false} ApplyBatchNoItems(blocks: seq<Block>, batch: seq<nat>, n: nat)
    requires InPage(batch, blocks) && n <= |batch|
    ensures ApplyBatch(blocks, batch, [], n).0 == blocks && ApplyBatch(blocks, batch, [], n).1 == 0
  {
    if n > 0 {
      ApplyBatchNoItems(blocks, batch, n - 1);
      var k := batch[n - 1];
      assert ParagraphItems([], |batch|, n - 1, 0) == [];
      assert RuleOrder([]) == [];
      assert UpdateBlock(blocks[k].content, []) == (blocks[k].content, 0);
      assert blocks[k := Block(blocks[k].visible, blocks[k].content)] == blocks;
    }
  }

  /** A reply whose `results` is missing or not an array leaves the page as it was and counts no
      replacement. */
  lemma MissingResultsNoChange(blocks: seq<Block>, batch: seq<nat>, t: nat, rules: seq<Rule>,
                               analyzer: (nat, Request) -> Reply)
    requires InPage(batch, blocks)
    requires var reply := analyzer(t, Request(BatchTexts(blocks, batch), rules));
      reply.Replied? && !(Get(reply.value, "results").Some? && Get(reply.value, "results").value.JArr?)
    ensures RunBatch(blocks, batch, t, rules, analyzer).0 == blocks
    ensures RunBatch(blocks, batch, t, rules, analyzer).1 == 0
  {
    ApplyBatchNoItems(blocks, batch, |batch|);
  }

  // ---------------------------------------------------------------------------------------------
  // The loops of `processPage`

  /** `set` of the positions in `ks`: what adding them to `processedElements` adds. */
  function PositionSet(ks: seq<nat>): (r: set<nat>)
    ensures forall k :: k in r <==> k in ks
  {
    set k | k in ks
  }

  lemma PositionSetAppend(a: seq<nat>, b: seq<nat>)
    ensures PositionSet(a + b) == PositionSet(a) + PositionSet(b)
  {
    assert forall k :: k in a + b <==> k in a || k in b;
  }

  lemma PositionSetSnoc(ks: seq<nat>, j: nat)
    requires j < |ks|
    ensures PositionSet(ks[..j + 1]) == PositionSet(ks[..j]) + {ks[j]}
  {
    assert ks[..j + 1] == ks[..j] + [ks[j]];
    PositionSetAppend(ks[..j], [ks[j]]);
  }

  /** `resultsByParagraph[j] || []`. */
  function ItemsAt(byParagraph: map<real, seq<Item>>, p: real): seq<Item> {
    if p in byParagraph then byParagraph[p] else []
  }

  /** The validation loop: groups the accepted result items by their `paragraph_index`. */
  method GroupByParagraph(vs: seq<Json>, batchLength: nat) returns (byParagraph: map<real, seq<Item>>)
    ensures forall j: nat :: ItemsAt(byParagraph, j as real) == ParagraphItems(vs, batchLength, j, |vs|)
  {
    byParagraph := map[];
    var i := 0;
    while i < |vs|
      invariant 0 <= i <= |vs|
      invariant forall j: nat :: ItemsAt(byParagraph, j as real) == ParagraphItems(vs, batchLength, j, i)
    {
      var item := ItemOf(vs[i], batchLength);
      if item.Some? {
        var p := item.value.paragraph;
        byParagraph := byParagraph[p := ItemsAt(byParagraph, p) + [item.value]];
      }
      i := i + 1;
    }
  }

  /** `replacementsByRule` and its keys in insertion order after the first `n` items. */
  ghost predicate Grouped(items: seq<Item>, n: nat, keys: seq<string>, groups: map<string, seq<Pair>>)
    requires n <= |items|
  {
    && keys == RuleKeys(items, n)
    && (forall k :: k in groups <==> k in keys)
    && (forall k :: k in groups ==> groups[k] == RuleGroup(items, k, n))
  }

  /** One iteration of the loop building `replacementsByRule`, for an item with a new rule id. */
  lemma GroupedNewKey(items: seq<Item>, n: nat, keys: seq<string>, groups: map<string, seq<Pair>>)
    requires n < |items| && Grouped(items, n, keys, groups) && items[n].ruleKey !in groups
    ensures Grouped(items, n + 1, keys + [items[n].ruleKey],
                    groups[items[n].ruleKey := [Pair(items[n].original, items[n].replacement)]])
  {
    var key := items[n].ruleKey;
    var g := groups[key := [Pair(items[n].original, items[n].replacement)]];
    assert RuleKeys(items, n + 1) == keys + [key];
    assert RuleGroup(items, key, n) == [];
    forall k | k in g ensures g[k] == RuleGroup(items, k, n + 1) {
      if k != key {
        assert RuleGroup(items, k, n + 1) == RuleGroup(items, k, n);
      }
    }
  }

  /** One iteration of the loop building `replacementsByRule`, for an item with a known rule id. */
  lemma GroupedKnownKey(items: seq<Item>, n: nat, keys: seq<string>, groups: map<string, seq<Pair>>)
    requires n < |items| && Grouped(items, n, keys, groups) && items[n].ruleKey in groups
    ensures Grouped(items, n + 1, keys,
                    groups[items[n].ruleKey := groups[items[n].ruleKey] + [Pair(items[n].original, items[n].replacement)]])
  {
    var key := items[n].ruleKey;
    var g := groups[key := groups[key] + [Pair(items[n].original, items[n].replacement)]];
    assert RuleKeys(items, n + 1) == keys;
    forall k | k in g ensures g[k] == RuleGroup(items, k, n + 1) {
      if k != key {
        assert RuleGroup(items, k, n + 1) == RuleGroup(items, k, n);
      }
    }
  }

  /** The loop building `replacementsByRule`: the rule keys in the order they were added, and
      for each key its pairs in the order of the items. */
  method GroupByRule(items: seq<Item>) returns (keys: seq<string>, groups: map<string, seq<Pair>>)
    ensures keys == RuleKeys(items, |items|)
    ensures forall k :: k in groups <==> k in keys
    ensures forall k :: k in groups ==> groups[k] == RuleGroup(items, k, |items|)
  {
    keys, groups := [], map[];
    var i := 0;
    while i < |items|
      invariant 0 <= i <= |items|
      invariant Grouped(items, i, keys, groups)
    {
      var key := items[i].ruleKey;
      var pair := Pair(items[i].original, items[i].replacement);
      if key !in groups {
        GroupedNewKey(items, i, keys, groups);
        keys := keys + [key];
        groups := groups[key := [pair]];
      } else {
        GroupedKnownKey(items, i, keys, groups);
        groups := groups[key := groups[key] + [pair]];
      }
      i := i + 1;
    }
  }

  /** One iteration of that loop: `replacePhrasesInElement` when the rule has pairs. */
  method ApplyRuleGroup(content: seq<Node>, items: seq<Item>, order: seq<string>, t: nat,
                        result: seq<Node>, made: nat, ruleReplacements: seq<Pair>)
      returns (result': seq<Node>, made': nat)
    requires ValidItems(items) && t < |order| && ruleReplacements == RuleGroup(items, order[t], |items|)
    requires result == ApplyGroups(content, items, order, t).0 && made == ApplyGroups(content, items, order, t).1
    ensures result' == ApplyGroups(content, items, order, t + 1).0
    ensures made' == ApplyGroups(content, items, order, t + 1).1
  {
    if |ruleReplacements| > 0 {
      var r, m := ReplacePhrasesInElement(result, ruleReplacements);
      ApplyGroupsApply(content, items, order, t, (result, made), ruleReplacements, r, m);
      result', made' := r, made + m;
    } else {
      ApplyGroupsSkip(content, items, order, t);
      result', made' := result, made;
    }
  }

  /** The loop `for (const ruleId in replacementsByRule)` over one paragraph's children. */
  method ApplyRuleGroups(content: seq<Node>, items: seq<Item>, keys: seq<string>, groups: map<string, seq<Pair>>)
      returns (result: seq<Node>, made: nat)
    requires ValidItems(items) && keys == RuleKeys(items, |items|)
    requires forall k :: k in keys ==> k in groups && groups[k] == RuleGroup(items, k, |items|)
    ensures result == UpdateBlock(content, items).0 && made == UpdateBlock(content, items).1
  {
    var order := ForInOrder(keys);
    result, made := content, 0;
    var t := 0;
    while t < |order|
      invariant 0 <= t <= |order|
      invariant result == ApplyGroups(content, items, order, t).0
      invariant made == ApplyGroups(content, items, order, t).1
    {
      ForInOrderMember(keys, t);
      result, made := ApplyRuleGroup(content, items, order, t, result, made, groups[order[t]]);
      t := t + 1;
    }
  }

  /** What the batch loop does to one paragraph: group its items by rule, then apply them. */
  method UpdateParagraph(content: seq<Node>, paraResults: seq<Item>) returns (result: seq<Node>, made: nat)
    requires ValidItems(paraResults)
    ensures result == UpdateBlock(content, paraResults).0 && made == UpdateBlock(content, paraResults).1
  {
    var keys, groups := GroupByRule(paraResults);
    result, made := ApplyRuleGroups(content, paraResults, keys, groups);
  }

  /** The paragraphs and the count after paragraph `j` of a batch has been updated. */
  method UpdateBatchParagraph(bs: seq<Block>, batch: seq<nat>, vs: seq<Json>, j: nat, paraResults: seq<Item>,
                              made: nat, ghost blocks0: seq<Block>)
      returns (bs': seq<Block>, made': nat)
    requires InPage(batch, blocks0) && j < |batch| && |bs| == |blocks0|
    requires paraResults == ParagraphItems(vs, |batch|, j, |vs|)
    requires bs == ApplyBatch(blocks0, batch, vs, j).0 && made == ApplyBatch(blocks0, batch, vs, j).1
    ensures bs' == ApplyBatch(blocks0, batch, vs, j + 1).0 && made' == ApplyBatch(blocks0, batch, vs, j + 1).1
  {
    var k := batch[j];
    var content, m := UpdateParagraph(bs[k].content, paraResults);
    ApplyBatchStep(blocks0, batch, vs, j, bs, made, paraResults, content, m);
    bs', made' := bs[k := Block(bs[k].visible, content)], made + m;
  }

  /** The paragraphs of a page and the set of paragraphs already processed. */
  class ContentPage {
    var blocks: seq<Block>
    var processed: set<nat>

    /** A freshly loaded page: `processedElements` starts empty. */
    constructor (blocks: seq<Block>)
      ensures this.blocks == blocks && processed == {}
    {
      this.blocks := blocks;
      processed := {};
    }

    /** The loop over a batch's paragraphs after a reply with result items `vs`. */
    method ApplyBatchResults(batch: seq<nat>, vs: seq<Json>) returns (made: nat)
      requires InPage(batch, blocks)
      modifies this
      ensures blocks == ApplyBatch(old(blocks), batch, vs, |batch|).0
      ensures made == ApplyBatch(old(blocks), batch, vs, |batch|).1
      ensures processed == old(processed) + PositionSet(batch)
    {
      var byParagraph := GroupByParagraph(vs, |batch|);
      made := 0;
      var j := 0;
      while j < |batch|
        invariant 0 <= j <= |batch|
        invariant |blocks| == |old(blocks)|
        invariant blocks == ApplyBatch(old(blocks), batch, vs, j).0
        invariant made == ApplyBatch(old(blocks), batch, vs, j).1
        invariant processed == old(processed) + PositionSet(batch[..j])
      {
        var paraResults := ItemsAt(byParagraph, j as real);
        assert paraResults == ParagraphItems(vs, |batch|, j, |vs|);
        made := ApplyParagraph(batch, vs, j, paraResults, made, old(blocks), old(processed));
        j := j + 1;
      }
      assert batch[..j] == batch;
    }

    /** One paragraph of that loop: group its items by rule, apply each rule's pairs, and mark
        the paragraph processed. */
    method ApplyParagraph(batch: seq<nat>, vs: seq<Json>, j: nat, paraResults: seq<Item>, made: nat,
                          ghost blocks0: seq<Block>, ghost processed0: set<nat>)
        returns (made': nat)
      requires InPage(batch, blocks0) && j < |batch| && |blocks| == |blocks0|
      requires paraResults == ParagraphItems(vs, |batch|, j, |vs|)
      requires blocks == ApplyBatch(blocks0, batch, vs, j).0 && made == ApplyBatch(blocks0, batch, vs, j).1
      requires processed == processed0 + PositionSet(batch[..j])
      modifies this
      ensures blocks == ApplyBatch(blocks0, batch, vs, j + 1).0 && made' == ApplyBatch(blocks0, batch, vs, j + 1).1
      ensures processed == processed0 + PositionSet(batch[..j + 1])
    {
      blocks, made' := UpdateBatchParagraph(blocks, batch, vs, j, paraResults, made, blocks0);
      PositionSetSnoc(batch, j);
      processed := processed + {batch[j]};
    }

    /** One iteration of the batch loop: send the batch, then apply the reply or give up on it. */
    method ProcessBatch(batch: seq<nat>, t: nat, rules: seq<Rule>, analyzer: (nat, Request) -> Reply)
        returns (made: nat, request: Request)
      requires InPage(batch, blocks)
      modifies this
      ensures blocks == RunBatch(old(blocks), batch, t, rules, analyzer).0
      ensures made == RunBatch(old(blocks), batch, t, rules, analyzer).1
      ensures request == RunBatch(old(blocks), batch, t, rules, analyzer).2
      ensures processed == old(processed) + PositionSet(batch)
    {
      request := Request(BatchTexts(blocks, batch), rules);
      match Classify(analyzer(t, request))
      case Failed =>
        made := 0;
        processed := processed + PositionSet(batch);
      case Results(vs) =>
        made := ApplyBatchResults(batch, vs);
    }

    /** `processPage(replacements)`: the replacements made and the messages sent. */
    method ProcessPage(rules: seq<Rule>, analyzer: (nat, Request) -> Reply)
        returns (replacementsMade: nat, requests: seq<Request>)
      modifies this
      ensures blocks == ProcessPageRun(old(blocks), old(processed), rules, analyzer).blocks
      ensures replacementsMade == ProcessPageRun(old(blocks), old(processed), rules, analyzer).made
      ensures requests == ProcessPageRun(old(blocks), old(processed), rules, analyzer).requests
      ensures processed == old(processed) + PositionSet(Candidates(old(blocks), old(processed), rules))
    {
      var blocksToProcess := Candidates(blocks, processed, rules);
      if |blocksToProcess| == 0 {
        return 0, [];
      }
      replacementsMade, requests := ProcessBatches(blocksToProcess, rules, analyzer);
    }

    /** The batch loop of `processPage` over the paragraphs `cands`, counting its iterations `t`
        rather than their start positions `i = t * BATCH_SIZE`. */
    method ProcessBatches(cands: seq<nat>, rules: seq<Rule>, analyzer: (nat, Request) -> Reply)
        returns (replacementsMade: nat, requests: seq<Request>)
      requires InPage(cands, blocks)
      modifies this
      ensures blocks == RunBatches(old(blocks), cands, BatchCount(|cands|), rules, analyzer).blocks
      ensures replacementsMade == RunBatches(old(blocks), cands, BatchCount(|cands|), rules, analyzer).made
      ensures requests == RunBatches(old(blocks), cands, BatchCount(|cands|), rules, analyzer).requests
      ensures processed == old(processed) + PositionSet(cands)
    {
      replacementsMade, requests := 0, [];
      var t := 0;
      while t < BatchCount(|cands|)
        invariant t <= BatchCount(|cands|)
        invariant |blocks| == |old(blocks)|
        invariant blocks == RunBatches(old(blocks), cands, t, rules, analyzer).blocks
        invariant replacementsMade == RunBatches(old(blocks), cands, t, rules, analyzer).made
        invariant requests == RunBatches(old(blocks), cands, t, rules, analyzer).requests
        invariant processed == old(processed) + PositionSet(FlattenBatches(cands, t))
      {
        replacementsMade, requests := NextBatch(cands, t, rules, analyzer, replacementsMade, requests, old(blocks), old(processed));
        t := t + 1;
      }
      BatchesCover(cands, t);
      assert cands[..|cands|] == cands;
    }

    /** Iteration `t` of the batch loop, the one with `i = t * BATCH_SIZE`. */
    method NextBatch(cands: seq<nat>, t: nat, rules: seq<Rule>, analyzer: (nat, Request) -> Reply,
                     made: nat, requests: seq<Request>, ghost blocks0: seq<Block>, ghost processed0: set<nat>)
        returns (made': nat, requests': seq<Request>)
      requires InPage(cands, blocks0) && t < BatchCount(|cands|) && |blocks| == |blocks0|
      requires blocks == RunBatches(blocks0, cands, t, rules, analyzer).blocks
      requires made == RunBatches(blocks0, cands, t, rules, analyzer).made
      requires requests == RunBatches(blocks0, cands, t, rules, analyzer).requests
      requires processed == processed0 + PositionSet(FlattenBatches(cands, t))
      modifies this
      ensures blocks == RunBatches(blocks0, cands, t + 1, rules, analyzer).blocks
      ensures made' == RunBatches(blocks0, cands, t + 1, rules, analyzer).made
      ensures requests' == RunBatches(blocks0, cands, t + 1, rules, analyzer).requests
      ensures processed == processed0 + PositionSet(FlattenBatches(cands, t + 1))
    {
      var i := t * BatchSize;
      var batch := cands[i..if i + BatchSize <= |cands| then i + BatchSize else |cands|];
      assert batch == Batch(cands, t);
      ghost var acc := PageRun(blocks, made, requests);
      var m, request := ProcessBatch(batch, t, rules, analyzer);
      RunBatchesStep(blocks0, cands, t, rules, analyzer, acc, blocks, m, request);
      PositionSetAppend(FlattenBatches(cands, t), batch);
      made', requests' := made + m, requests + [request];
    }
  }
}

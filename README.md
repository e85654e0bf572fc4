# A verified model of the language-learning extension's core

The extension rewrites web pages so that a reader meets their vocabulary words in context. The
user makes a list of *replacements*: each one pairs a word with the concepts it can stand for. A
background service asks a language model which phrases of a page's paragraphs express those
concepts. The content script then swaps those phrases for the word inside marker spans, each
with a tooltip holding the original phrase. It also fills a daily "brain jug" with one drop per
replaced element the reader actually sees. The popup edits the list, starts the processing and
shows the jug's progress.

This Dafny project models the logic of those three programs and proves what they promise:

- **Content script** (`src/content/content.js`):
  - the candidate pre-filter (`CandidateFilter`);
  - the page pass with its batches of five and the validation and grouping of result items
    (`Pipeline`, whose `ContentPage` class holds the paragraphs and the `processedElements` set);
  - the phrase replacement in one paragraph (`PhraseApplier`, over the DOM as data in `Dom`);
  - the `for...in` order over rule ids (`PropertyKeys`);
  - the visibility counter with its daily reset (`BrainJug`).
- **Background service** (`src/background/background.js`):
  - the cache key, the combined text and the rule list of the prompt (`Prompt`);
  - the bounded first-in-first-out result cache (`Cache`);
  - the batch analysis and the concept extraction (`Background`).
- **Popup** (`src/popup/popup.js`, module `Popup`):
  - the page check;
  - the progress display;
  - the increments;
  - the replacement list;
  - the processed-tab marks;
  - the auto-process setting.

**Shared modules:** `Text` holds the JavaScript string operations used: `trim` with the `\s`
whitespace set, `toLowerCase` on ASCII letters, `includes`, `split`, `join` and decimal
rendering. `Json` holds JSON values and their truthiness. `Rules` holds the rule record.
`Wrappers` holds `Option`.

**Inputs instead of I/O:**
- The language model is a function from the request to a reply.
- `JSON.parse` is a function from a string to a parse outcome.
- Storage reads, the current day and the active tab's URL are parameters.
- A paragraph is a sequence of DOM nodes with a `visible` flag standing for the layout test.

## Model

| member | source | states |
|---|---|---|
| CandidateFilter.SignificantWords | src/content/content.js:385 | the concept's lower-cased whitespace-separated words longer than three characters, in order |
| CandidateFilter.SomeWordIn | src/content/content.js:393-397 | true exactly when one of the given words occurs in the text |
| CandidateFilter.ConceptMatches | src/content/content.js:385-398 | one concept's test agrees with the stated rule: a significant word occurs, or, with none, the first four lower-cased characters occur |
| CandidateFilter.SomeConceptMatches | src/content/content.js:380-399 | true exactly when some concept of the rule matches, a string `original` counting as one concept |
| CandidateFilter.SomeRuleMatches | src/content/content.js:378-401 | true exactly when some concept of some rule matches |
| CandidateFilter.MightContainConcept | src/content/content.js:376-402 | true iff some concept of some rule hits the lower-cased text |
| CandidateFilterFacts.EmptyConceptHits | src/content/content.js:386-390 | the empty concept hits every text |
| CandidateFilterFacts.EmptyConceptMatchesEverything | src/content/content.js:376-402 | a rule with an empty concept lets every paragraph through |
| CandidateFilterFacts.SingleConceptAsList | src/content/content.js:380 | a string `original` filters exactly like the one-element list |
| CandidateFilterFacts.OneWordConcept | src/content/content.js:385-398 | a lower-case one-word concept longer than three characters matches exactly the texts that include it |
| CandidateFilterFacts.OneWordRuleFilter | src/content/content.js:376-402 | for such a rule the filter is `includes` on the lower-cased text |
| CandidateFilterFacts.WordPresentKept | src/content/content.js:376-402 | a paragraph containing the word is kept |
| CandidateFilterFacts.WordAbsentFiltered | src/content/content.js:376-402 | a paragraph lacking a letter of the word, in either case, is dropped |
| CandidateFilterFacts.UnrelatedTextFiltered | src/content/content.js:376-402 | "The weather was sunny" is dropped for the concept "happy" |
| CandidateFilterFacts.RelatedTextKept | src/content/content.js:376-402 | "I felt very happy" is kept for the concept "happy" |
| Dom.LeavesAppend | src/content/content.js:520-529 | the text nodes of two sibling runs are those of the first, then those of the second |
| Dom.LeavesCons | src/content/content.js:520-529 | a node's text nodes come before those of its following siblings |
| Dom.NodeLeavesUnfold | src/content/content.js:520-529 | a text node is its own text node; an element has its children's text nodes |
| Dom.ReplaceLeafLeaves | src/content/content.js:556 | replacing one text node changes the text-node sequence at that position only |
| PhraseApplier.InsertByLength | src/content/content.js:519 | inserting into a longest-first list keeps it longest-first and adds exactly the pair |
| PhraseApplier.SortByLength | src/content/content.js:519 | the sort orders phrases longest first and is a permutation of the pairs |
| PhraseApplier.SortByLengthStable | src/content/content.js:519 | the sort is stable: pairs of equal length keep their relative order |
| PhraseApplier.SortedMember | src/content/content.js:519 | the sort keeps every pair and adds none |
| PhraseApplier.SortedValid | src/content/content.js:519 | sorting keeps the phrases non-empty |
| PhraseApplier.Nodes | src/content/content.js:537-555 | node i is the DOM node of segment i: a text node for plain text, a replacement span holding the new word and a tooltip span with the phrase for a marker |
| PhraseApplier.FlattenSingle | src/content/content.js:537-555 | one segment's text is its own text |
| PhraseApplier.FlattenAppend | src/content/content.js:537-555 | reading segments back distributes over concatenation |
| PhraseApplier.MarkCountAppend | src/content/content.js:550 | the span count distributes over concatenation |
| PhraseApplier.FragmentUpToMarks | src/content/content.js:537-555 | after the first n pieces of the split the fragment holds n - 1 spans |
| PhraseApplier.FragmentUpToText | src/content/content.js:535-555 | the first n pieces read back as the split's first n pieces joined by the phrase, or by the span's whole text |
| PhraseApplier.FragmentRestoresText | src/content/content.js:535-555 | reading each span as its tooltip gives back the node's original text |
| PhraseApplier.FragmentMarks | src/content/content.js:535-555 | one span per occurrence of the phrase, and at least one exactly when the text contains it |
| PhraseApplier.NodesText | src/content/content.js:537-556 | the built nodes' `textContent` is the segments with each span read as the new word followed by its tooltip |
| PhraseApplier.FragmentShowsReplacement | src/content/content.js:535-556 | after the rewrite the node's text shows its pieces joined by the new word and the tooltip's phrase |
| PhraseApplier.FirstPhrase | src/content/content.js:533-534 | the index of the first pair whose phrase the text includes, or the length when none does |
| PhraseApplier.FirstLeaf | src/content/content.js:530-564 | the index of the first text node that includes some phrase, or the number of nodes |
| PhraseApplier.BuildFragment | src/content/content.js:536-555 | the loop builds exactly the fragment of the pieces and counts one replacement per piece after the first |
| PhraseApplier.ReplacePhrasesInElement | src/content/content.js:516-574 | the method's result and count are those of the specification `ApplyPhrases` |
| PhraseApplier.SortedNoPhrase | src/content/content.js:519-534 | the sorted pairs include a phrase of a text exactly when the unsorted ones do |
| PhraseApplier.FirstPhraseWithLength | src/content/content.js:519-534 | the first hit of a given length is also the first hit among the pairs of that length |
| PhraseApplier.FirstLeafNoPhrase | src/content/content.js:530-564 | no node is rewritten exactly when no text node includes any phrase |
| PhraseApplier.ApplyPhrasesCases | src/content/content.js:530-564 | with a hit in some node the count is positive; with none the paragraph and the count 0 come back unchanged |
| PhraseApplier.ApplyPhrasesNoHit | src/content/content.js:530-573 | the count is 0 exactly when no text node includes a phrase, and then nothing changes |
| PhraseApplier.ChosenPair | src/content/content.js:519-534 | the pair chosen for a node is its longest contained phrase, the earliest of equally long ones |
| PhraseApplier.FirstLeafIsFirstHit | src/content/content.js:530-564 | the node rewritten is the first one in document order that includes a phrase |
| PhraseApplier.ApplyPhrasesFirstHit | src/content/content.js:516-574 | a call rewrites that first node on its longest phrase and returns the number of occurrences of that phrase |
| PhraseApplier.ApplyPhrasesLeaves | src/content/content.js:530-564 | every other text node keeps its place and text; the rewritten one reads back as its old text through the tooltips |
| PropertyKeys.IndexKeys | src/content/content.js:483 | the keys that are array indices, in insertion order |
| PropertyKeys.OtherKeys | src/content/content.js:483 | the other keys, in insertion order |
| PropertyKeys.SplitKeysMultiset | src/content/content.js:483 | the two kinds of keys together are exactly the keys added |
| PropertyKeys.InsertByValue | src/content/content.js:483 | inserting into an ascending key list keeps it ascending and adds exactly the key |
| PropertyKeys.SortByValue | src/content/content.js:483 | the index keys sorted by numeric value, a permutation |
| PropertyKeys.ForInOrderPermutation | src/content/content.js:483 | `for...in` visits every rule id exactly as often as it was added |
| PropertyKeys.ForInOrderMember | src/content/content.js:483 | every key visited was added |
| PropertyKeys.ForInOrderLayout | src/content/content.js:483 | index-like rule ids come first in ascending value, then the others in insertion order |
| PropertyKeys.ForInOrderNoIndexKeys | src/content/content.js:483 | with no index-like id the loop follows insertion order |
| PropertyKeys.NoIndexKeys | src/content/content.js:483 | with no index-like key all keys are other keys |
| Pipeline.Where | src/content/content.js:410-416 | the filtered positions are exactly the kept ones, still increasing |
| Pipeline.FindTextBlocks | src/content/content.js:508-513 | exactly the visible paragraphs with non-blank text, in document order |
| Pipeline.Candidates | src/content/content.js:407-416 | exactly the text paragraphs not yet processed, with non-blank text, that pass the pre-filter, in document order |
| Pipeline.BatchCount | src/content/content.js:423 | the number of batches is ceil(n / 5) |
| Pipeline.Batch | src/content/content.js:424 | each batch has between one and five paragraphs |
| Pipeline.BatchesCover | src/content/content.js:423-424 | the batches laid end to end are the candidates, in order |
| Pipeline.Classify | src/content/content.js:435-446 | a thrown, null or `error` reply fails the batch; otherwise the items are the `results` array, or none |
| Pipeline.ItemOf | src/content/content.js:449-455 | an item is used only when its `paragraph_index` is a number in range and its three fields are truthy |
| Pipeline.ParagraphItems | src/content/content.js:445-463 | every item grouped under paragraph j names j and has non-empty fields; `ParagraphItemsMembers` and `ParagraphItemsAppend` give exactly which items and in what order |
| Pipeline.ParagraphItemsMembers | src/content/content.js:445-463 | the items grouped under paragraph j are exactly the accepted items naming j |
| Pipeline.ParagraphItemsAppend | src/content/content.js:445-463 | the grouping keeps the order of the results: two runs of results group into the first run's items followed by the second's |
| Pipeline.ParagraphItemsSingle | src/content/content.js:449-461 | one result contributes its item exactly when it is accepted and names the paragraph |
| Pipeline.RuleKeys | src/content/content.js:471-480 | the rule ids added to `replacementsByRule` are exactly those of the items |
| Pipeline.RuleKeysDistinct | src/content/content.js:471-480 | each rule id is added once |
| Pipeline.RuleGroup | src/content/content.js:471-480 | a rule id's group is non-empty exactly when the id was added, with valid pairs |
| Pipeline.ApplyGroupOf | src/content/content.js:483-491 | applying a non-empty group adds its replacement count to the running total |
| Pipeline.ApplyGroupsStep | src/content/content.js:483-491 | the group loop advances one rule id at a time |
| Pipeline.ApplyGroupsSkip | src/content/content.js:485 | an empty group changes nothing |
| Pipeline.ApplyGroupsApply | src/content/content.js:485-490 | a non-empty group replaces the paragraph and adds its count |
| Pipeline.ApplyBatch | src/content/content.js:466-494 | applying a batch's results keeps the number of paragraphs |
| Pipeline.ApplyBatchStep | src/content/content.js:466-494 | each paragraph of the batch is updated in turn, with its count added |
| Pipeline.RunBatch | src/content/content.js:427-501 | one batch iteration keeps the number of paragraphs |
| Pipeline.RunBatches | src/content/content.js:423-502 | the batch loop keeps the number of paragraphs |
| Pipeline.RunBatchesStep | src/content/content.js:423-502 | the loop adds one batch's paragraphs, count and request per iteration |
| Pipeline.ApplyBatchFrame | src/content/content.js:466-494 | a batch changes only its own paragraphs |
| Pipeline.RunBatchFrame | src/content/content.js:427-501 | one iteration changes only its batch's paragraphs |
| Pipeline.RunBatchesFrame | src/content/content.js:423-502 | the first t batches change only their own paragraphs |
| Pipeline.BatchInPage | src/content/content.js:424 | every batch position is a paragraph of the page |
| Pipeline.ProcessPageFrame | src/content/content.js:405-505 | a page pass changes no paragraph it did not send |
| Pipeline.BatchFresh | src/content/content.js:423-424 | a batch shares no paragraph with the batches before it |
| Pipeline.RunBatchesAgree | src/content/content.js:423-433 | each batch is sent with the texts its paragraphs had before the pass |
| Pipeline.BatchRequest | src/content/content.js:429-433 | each request carries all the rules and one text per batch paragraph |
| Pipeline.NextRequest | src/content/content.js:429-433 | iteration t adds exactly the request for batch t |
| Pipeline.BatchRequests | src/content/content.js:423-433 | the requests of the first t batches, in order |
| Pipeline.RunBatchesRequests | src/content/content.js:423-433 | the loop sends exactly those requests |
| Pipeline.BatchTextsAppend | src/content/content.js:425 | the texts of two position runs are those of the first, then the second |
| Pipeline.SentTextsUpTo | src/content/content.js:423-433 | the texts sent by the first t batches are those of their paragraphs, in order |
| Pipeline.ProcessPageRequests | src/content/content.js:405-433 | a pass sends every candidate's text exactly once, in order, in ceil(n / 5) requests of one to five texts, each carrying every rule |
| Pipeline.RunBatchesFailing | src/content/content.js:435-501 | when every batch fails the loop leaves the page unchanged and counts 0 |
| Pipeline.ProcessPageFailing | src/content/content.js:405-505 | when every batch fails the pass leaves the page unchanged and counts 0 |
| Pipeline.NoCandidates | src/content/content.js:418-420 | with no candidate, no request, no change and `{replacementsMade: 0}` |
| Pipeline.SecondPassIdle | src/content/content.js:410-499 | after a pass, whatever the answers, a second pass with the same rules sends nothing and changes nothing |
| Pipeline.ParagraphItemsOutside | src/content/content.js:450-452 | items naming a paragraph outside the batch are ignored |
| Pipeline.ApplyBatchNoItems | src/content/content.js:466-494 | with no result items a batch changes nothing and counts nothing |
| Pipeline.MissingResultsNoChange | src/content/content.js:446 | a reply whose `results` is missing or not an array changes nothing and counts nothing |
| Pipeline.PositionSet | src/content/content.js:439-499 | the set of the positions added to `processedElements` |
| Pipeline.PositionSetAppend | src/content/content.js:439-499 | adding two runs of positions adds both |
| Pipeline.PositionSetSnoc | src/content/content.js:493 | adding one more paragraph adds exactly it |
| Pipeline.GroupByParagraph | src/content/content.js:445-463 | the loop builds `resultsByParagraph` with exactly the items of each paragraph, in order |
| Pipeline.GroupByRule | src/content/content.js:471-480 | the loop builds `replacementsByRule` with the ids in insertion order and each id's pairs in item order |
| Pipeline.ApplyRuleGroup | src/content/content.js:484-490 | one iteration of the rule loop is one step of the specification |
| Pipeline.ApplyRuleGroups | src/content/content.js:483-491 | the rule loop computes the specified paragraph and count |
| Pipeline.UpdateParagraph | src/content/content.js:467-491 | grouping by rule and applying each group gives the specified paragraph and count |
| Pipeline.UpdateBatchParagraph | src/content/content.js:466-494 | updating paragraph j is step j of the specified batch update |
| Pipeline.ContentPage.constructor | src/content/content.js:145 | a loaded page starts with `processedElements` empty |
| Pipeline.ContentPage.ApplyBatchResults | src/content/content.js:466-494 | the paragraphs and count are the specified ones, and every batch paragraph is marked processed |
| Pipeline.ContentPage.ApplyParagraph | src/content/content.js:467-493 | one paragraph is updated as specified, then marked processed |
| Pipeline.ContentPage.ProcessBatch | src/content/content.js:424-501 | a batch is sent, its reply applied or given up on, and all its paragraphs marked processed on every path |
| Pipeline.ContentPage.ProcessPage | src/content/content.js:405-505 | the page, the count and the requests are those of `ProcessPageRun`, and `processedElements` grows by exactly the candidates |
| Pipeline.ContentPage.ProcessBatches | src/content/content.js:423-502 | the batch loop gives the specified page, count and requests, and marks exactly the candidates |
| Pipeline.ContentPage.NextBatch | src/content/content.js:423-502 | iteration t of the batch loop is step t of the specification |
| BrainJug.StepFacts | src/content/content.js:155-181 | one entry keeps the count at most 200, counts a new element at most once, and sets the goal flag exactly when the count first reaches 200 |
| BrainJug.StepsFacts | src/content/content.js:154-199 | over a batch of entries the count grows by the number of newly seen elements and never passes 200; the goal flag, once set, stays set |
| BrainJug.DifferenceGrows | src/content/content.js:171 | newly seen elements add up across steps |
| BrainJug.UpdatesCount | src/content/content.js:186-191 | each live update reports one more drop than its `lastCount` |
| BrainJug.SeenNotCounted | src/content/content.js:159 | an element already counted is not counted again |
| BrainJug.FullJugStays | src/content/content.js:160 | at 200 nothing more is counted |
| BrainJug.NewDayResets | src/content/content.js:351-365 | on a new day the jug is empty, nothing is seen, and the day and a last count of 0 are stored |
| BrainJug.SameDayKeeps | src/content/content.js:342-345 | on the same day the stored count is kept |
| BrainJug.LoadFacts | src/content/content.js:342-372 | loading keeps the state valid, is idempotent on one day, and stores the day |
| BrainJug.Show | src/content/content.js:308-320 | over the `lastJugCount` read from the shared local storage, at most 50 drops are animated, the current count is stored as the last one shown, and the count and seen elements are kept |
| BrainJug.ShowFacts | src/content/content.js:308-320 | exactly the drops added since the stored `lastJugCount` are animated when there are at most 50, none when the count did not grow past it, none on a second look that reads back the stored count, and validity is kept |
| BrainJug.AnimatedDrops | src/content/content.js:232-235 | the animation creates the requested count, capped at 50, and none for a count that is not positive |
| BrainJug.Jug.constructor | src/content/content.js:141-146 | the counter starts empty, with the popup closed |
| BrainJug.Jug.OnEntries | src/content/content.js:154-199 | the callback's loop reaches the specified state and sends the specified updates when the popup is open |
| BrainJug.Jug.LoadSaved | src/content/content.js:342-372 | the storage callback is `Load` |
| BrainJug.Jug.ShowJugAnimation | src/content/content.js:308-320 | the `showJugAnimation` command is `Show` over the `lastJugCount` read from storage, and replies with the count |
| BrainJug.Jug.GetJugCount | src/content/content.js:321-325 | `getJugCount` marks the popup open and replies with the count |
| BrainJug.Jug.AnimateDrops | src/content/content.js:326-331 | `animateDrops` animates `message.count \|\| 0` drops and changes no count |
| BrainJug.Jug.PopupClosed | src/content/content.js:332-335 | `popupClosed` stops live updates |
| Prompt.CacheKeyFields | src/background/background.js:118 | when no text or tag contains `\|`, the key splits back into the texts followed by the tags |
| Prompt.CacheKeySeparates | src/background/background.js:118 | such batches share a key only when they have the same texts and the same rule tags |
| Prompt.CacheKeyCollision | src/background/background.js:118 | without that condition, a text holding `\|\|\|` gives the key of two texts |
| Prompt.CombinedTextAt | src/background/background.js:127 | paragraph i+1 sits between the first i paragraphs and the rest, separated by blank lines |
| Prompt.CombinedTextSnoc | src/background/background.js:127 | one more text adds a blank line and its section |
| Prompt.ConceptsText | src/background/background.js:273-276 | plural `concepts:` exactly for more than one concept, `concept:` otherwise |
| Prompt.ConceptDescriptionFacts | src/background/background.js:197-202 | a string `original` is described as its one-element list, a lone concept as `the concept "c"` (`"undefined"` for none), several concepts as `any of these ` followed by the batch prompt's `concepts:` list |
| Prompt.DigitsLackBreak | src/background/background.js:277 | a rule number contains no line break |
| Prompt.RuleLineSingle | src/background/background.js:271-277 | a rule line has no line break when the rule's texts have none |
| Prompt.RulesDescriptionLines | src/background/background.js:271-278 | the rule list splits into exactly one line per rule, line i being rule i numbered from 1 |
| Prompt.RuleLineShape | src/background/background.js:274-277 | line i starts with `i+1. ` and then `concepts:` or `concept:` by the number of concepts |
| Cache.EmptyValid | src/background/background.js:5 | the empty cache is valid |
| Cache.DistinctCard | src/background/background.js:5 | distinct keys number as many as the list |
| Cache.SizeIsLength | src/background/background.js:182 | the map's size is the number of keys in insertion order |
| Cache.EvictListed | src/background/background.js:182-186 | deleting the first key keeps the key order and the map in step |
| Cache.PutListed | src/background/background.js:187 | `set` keeps them in step; a new key goes last, a present one keeps its place |
| Cache.InsertValid | src/background/background.js:182-187 | after an insertion the cache holds at most 100 entries and the new value under its key |
| Cache.InsertBelowBound | src/background/background.js:182-187 | below the bound, a new key is appended and nothing else changes |
| Cache.InsertIntoFull | src/background/background.js:182-187 | into a full cache, exactly the earliest key is evicted, the new key is present, every other entry is unchanged |
| Cache.InsertKeepsOthers | src/background/background.js:182-187 | a key that stays keeps its value |
| Cache.AnalysisCache.constructor | src/background/background.js:5 | the cache starts empty |
| Cache.AnalysisCache.Get | src/background/background.js:121-123 | `has` and `get` are `Lookup` |
| Cache.AnalysisCache.Set | src/background/background.js:182-187 | the cache becomes `Insert` of the old one and stays valid |
| Background.FirstPart | src/background/background.js:159 | a part found is truthy, and with no truthy `candidates` none is found; `FirstPartAgreesWithPartAt` relates it to the optional chain |
| Background.FirstPartAgreesWithPartAt | src/background/background.js:159 | where the batch path finds a part the optional chain of the concept extraction finds the same one, and where the chain stops the batch path finds none |
| Background.FirstPartOfAnswer | src/background/background.js:159 | the batch path finds the one part of a text answer |
| Background.NormalisedResults | src/background/background.js:177-179 | the parsed `results` when an array, else `[]` |
| Background.AnalyzeBatchRun | src/background/background.js:109-194 | the run keeps the cache valid |
| Background.InterpretCases | src/background/background.js:152-179 | non-OK status, a missing or null body, a missing path, unparsable text and a parsed `null` fail; otherwise the result is the normalised `results` |
| Background.NoKeyNoRequest | src/background/background.js:112-115 | a missing key fails before any request and leaves the cache alone |
| Background.CacheHit | src/background/background.js:120-124 | a hit returns the stored results with no request and no change |
| Background.BatchRunFacts | src/background/background.js:109-194 | at most one request, the one for the call's texts and rules; a failure caches nothing; the bound holds; a success is stored under the call's key |
| Background.RepeatIsCached | src/background/background.js:118-187 | asking again for a batch that succeeded returns the same results with no request, whatever the model would answer now |
| Background.BatchReplyClassified | src/content/content.js:435-446 | the content script reads a thrown call as a failed batch and a result as exactly its items |
| Background.AnalyzeBatch | src/background/background.js:109-194 | the method's outcome, requests and cache are those of `AnalyzeBatchRun`, and the cache stays valid |
| Background.Unescape | src/background/background.js:372 | a string without a quote comes back unchanged, and unescaping never lengthens a string |
| Background.EscapeQuotesHead | src/background/background.js:372 | escaping a quote-led string starts with a backslash and a quote |
| Background.UnescapeEscapeQuotes | src/background/background.js:372 | unescaping undoes the escaping of quotes |
| Background.UnwrapQuoted | src/background/background.js:369-373 | a text sent back as a JSON string literal is recovered by the quote removal and the unescaping |
| Background.KeepConcepts | src/background/background.js:385-386 | the filter keeps at most the items it is given |
| Background.TrimClean | src/background/background.js:386 | a trimmed non-blank string is clean |
| Background.AllCleanCons | src/background/background.js:385-386 | a clean concept in front of clean concepts gives clean concepts |
| Background.KeepConceptsTrimmed | src/background/background.js:385-386 | the kept concepts are trimmed and non-empty |
| Background.KeptItemTrim | src/background/background.js:385-386 | a kept item is a string whose trim is non-empty |
| Background.KeepConceptsMembers | src/background/background.js:385-386 | the kept concepts are exactly the trimmed non-blank strings among the items |
| Background.KeepConceptsAppend | src/background/background.js:385-386 | the filter keeps the items' order |
| Background.PartAt | src/background/background.js:366 | a part found is not `null`, and a `null` or missing `candidates` stops the chain with nothing |
| Background.AnswerText | src/background/background.js:328-366 | a missing or empty key fails with `API key not set`; a text read is a string or missing |
| Background.AnswerTextOneRequest | src/background/background.js:328-366 | the answer depends only on the model's reply to the concept prompt for the word, and on no reply at all without a key |
| Background.Fallback | src/background/background.js:394-397 | an empty list becomes `[word]`, a non-empty one is kept |
| Background.AnswerTextFound | src/background/background.js:360-366 | an OK answer whose body leads to a string text gives that text trimmed |
| Background.ExtractAsWrittenCases | src/background/background.js:376-397 | on a parse, exactly the trimmed non-blank strings of the (wrapped) value; on a failed parse, the text itself; the word when nothing is left |
| Background.AsWrittenNoCandidates | src/background/background.js:366-397 | an answer with no candidates gives `[undefined]`, not the word |
| Background.PartOfAnswer | src/background/background.js:366 | the chain finds the one part of a text answer |
| Background.TextOfAnswer | src/background/background.js:366 | the chain finds the answer's trimmed text |
| Background.AsWrittenBlankText | src/background/background.js:366-397 | a blank text gives `[""]` |
| Background.CorrectedNoCandidates | src/background/background.js:366-397 | with the correction, an answer with no `candidates` gives `[replacementWord]` |
| Background.CorrectedBlankText | src/background/background.js:366-397 | with the correction, a blank text gives `[replacementWord]` |
| Background.ParsedConcepts | src/background/background.js:376-391 | the corrected concepts before the fallback are all trimmed and non-empty |
| Background.ExtractConcepts | src/background/background.js:326-405 | the corrected extraction never gives an empty list |
| Background.ExtractConceptsGood | src/background/background.js:326-405 | every corrected concept is a trimmed non-empty string or the word, and it fails exactly when the source does |
| Background.ExtractAgreesOnParse | src/background/background.js:376-397 | on a parse that succeeds, the corrected extraction and the source agree |
| Background.ExtractUnparsable | src/background/background.js:376-397 | on a failed parse the source keeps the text as it is, while the corrected extraction keeps it trimmed, or the word when it is blank |
| Popup.AvoidsPopupRestricted | src/popup/popup.js:165-170 | avoiding the popup's list is avoiding each of its five prefixes |
| Popup.IsValidPage | src/popup/popup.js:162-175 | a page is eligible iff its URL is non-empty and starts with none of `chrome://`, `about:`, `edge://`, `moz-extension://`, `safari-extension://` |
| Popup.ContentPagesAreValid | src/popup/popup.js:165-170 | every page the content script runs on is eligible once it has a URL |
| Popup.ExtensionPagesDisagree | src/content/content.js:10-16 | a `chrome-extension://` page is eligible for the popup but refused by the content script |
| Popup.Percentage | src/popup/popup.js:42-43 | half the count rounded half up, capped at 100; it is 100 exactly from a count of 199 |
| Popup.TierRanges | src/popup/popup.js:52-64 | start at 0%, then the four tiers below 25, 50, 75 and 100, and the goal at 100, each carrying the percentage |
| Popup.TierMonotone | src/popup/popup.js:42-64 | a larger count never shows a lower tier |
| Popup.ProgressMessageCases | src/popup/popup.js:47-64 | offline first, then new day on an empty jug, and the goal for a count of 200 or more |
| Popup.StyleClassesFacts | src/popup/popup.js:70-92 | `full` iff count is at least 200, `offline` iff offline, `new-day` iff new day; other classes kept |
| Popup.CountFrameFacts | src/popup/popup.js:95-130 | the count animation starts at the old count, never goes back, stays between the counts and ends on the new one with its message |
| Popup.CountUpdateFacts | src/popup/popup.js:151-159 | a positive growth shows the increment, stores the new count as the last one and animates min(50, growth) drops; otherwise the total is shown and nothing is stored or animated |
| Popup.DropsAgreeWithPage | src/popup/popup.js:239-241 | the popup and the page compute the same number of drops from the same count and stored `lastJugCount` |
| Popup.LiveUpdatesShowOne | src/popup/popup.js:553-572 | each live update shows a growth of one and animates one drop |
| Popup.JugDisplay.constructor | src/popup/popup.js:20-22 | the display starts at zero with no increment |
| Popup.JugDisplay.UpdateBrainJugCount | src/popup/popup.js:37-92 | shows the count, the specified message and classes, and celebrates exactly at 200 or more |
| Popup.JugDisplay.ShowIncrementThenTotal | src/popup/popup.js:133-159 | a growth shows the old count and the increment and returns the count to store; otherwise the total is displayed |
| Popup.JugDisplay.IncrementDone | src/popup/popup.js:141-148 | the increment is hidden and the count and message end on the total |
| Popup.JugDisplay.OnJugUpdate | src/popup/popup.js:553-572 | the live update stores and animates exactly as specified and shows the increment |
| Popup.JsonStrings | src/popup/popup.js:420 | the strings of an array exactly when every item is a string |
| Popup.AddOutcomeFacts | src/popup/popup.js:404-428 | a blank word is refused; an added rule's replacement is the trimmed non-empty word |
| Popup.ReplyOriginalCases | src/popup/popup.js:420 | `originalConcepts` wins, then `[originalConcept]`, then `[]` |
| Popup.WithoutMembers | src/popup/popup.js:439-440 | removal keeps exactly the rules with a different id |
| Popup.WithoutAppend | src/popup/popup.js:439-440 | removal works rule by rule, keeping the order |
| Popup.WithoutAbsent | src/popup/popup.js:439-440 | removing an id no rule has changes nothing |
| Popup.WithoutIdempotent | src/popup/popup.js:439-440 | removing twice is removing once |
| Popup.RemoveUndoesAdd | src/popup/popup.js:423-440 | removing a just-added rule by its fresh id restores the list |
| Popup.ExtractedItems | src/popup/popup.js:420 | the reply's array of present concepts reads back as their strings |
| Popup.ReplyOfExtracted | src/background/background.js:28-34 | a successful extraction's reply carries no error and reads back as its concepts |
| Popup.ReplyOfFailed | src/background/background.js:31-34 | a failed extraction's reply carries a truthy `error` |
| Popup.AddAfterExtraction | src/popup/popup.js:404-432 | with the corrected extraction, an add fails exactly when it does, and otherwise appends a rule with at least one concept, each trimmed and non-empty or the word |
| Popup.MarksFacts | src/popup/popup.js:470-645 | a mark reads as processed, a navigation clears it, other tabs are untouched, and marking is idempotent |
| Popup.ProcessedTabs.constructor | src/popup/popup.js:524 | a missing record reads as `{}` |
| Popup.ProcessedTabs.Mark | src/popup/popup.js:523-526 | the tab is marked processed |
| Popup.ProcessedTabs.OnProcessingComplete | src/popup/popup.js:536-547 | the sender's tab, when there is one, is marked |
| Popup.ProcessedTabs.OnTabUpdated | src/popup/popup.js:638-646 | a tab starting to load loses its mark |
| Popup.ProcessButtonFollowsMarks | src/popup/popup.js:466-487 | marking the tab shows the button processed, a navigation clears that, and neither changes another tab's button or the auto-process badge |
| Popup.ProcessClickSends | src/popup/popup.js:494-531 | work is sent exactly with rules, a key, an eligible page and an injected script |
| Popup.Reconcile | src/popup/popup.js:355-359 | both storages end with the sync value if there is one, else the local one |
| Popup.AutoProcessAsWrittenDisagrees | src/popup/popup.js:353-359 | sync `false` with local `true` shows the setting on while both storages end `false` |
| Popup.AutoProcessPreferredAgrees | src/popup/popup.js:352-359 | the sync-first reading shows what both storages hold afterwards, is stable on reopening, and differs from the source only for a falsy sync value |
| Popup.AutoProcessSaved | src/popup/popup.js:366-370 | a saved setting reads back as itself |
| Popup.PopupPage.constructor | src/popup/popup.js:382-389 | the list is the stored one, or `[]` |
| Popup.PopupPage.AddReplacement | src/popup/popup.js:404-432 | the status is the specified one; only an accepted add appends, exactly one rule, at the end |
| Popup.PopupPage.RemoveReplacement | src/popup/popup.js:438-444 | the list becomes `Without` of the old one |
| Popup.PopupPage.LoadAutoProcessSetting | src/popup/popup.js:350-363 | the checkbox shows the sync-first reading and both storages end reconciled |
| Popup.PopupPage.ProcessPage | src/popup/popup.js:494-531 | the checks in order; only a sent pass sends the two messages and marks the tab |

## Left out

- The browser APIs are parameters: storage reads, tab queries, script injection,
  runtime messages, and the `onChanged`, `onUpdated` and `beforeunload` listeners. Writes to
  storage are returned values.
- The `fetch` call is not modelled. The language model is a function from the request to an
  HTTP outcome.
- The fixed prose of both prompts is not modelled. The request carries only the parts built
  from the input: the combined text, the rule list and the word.
- `JSON.parse` is an input function from a string to a parse outcome.
- `Background.ParseValue`: a non-string value on the answer's path is treated as follows:
  - an array or an object does not parse;
  - `null`, a boolean or a number reads as itself.

  `JSON.parse` itself would first render an array or an object as a string.
- Real DOM and layout are replaced by data:
  - `TreeWalker` becomes the text-node sequence of a node tree (`Dom`).
  - `offsetParent` and the visibility tests become boolean inputs.
  - `copyTextStyles` and `getComputedStyle` are not modelled.
  - `IntersectionObserver` geometry becomes the entry's fields.
  - `unobserve` and `observeReplacedElements` are not modelled.
- Event-driven concurrency is left out:
  - the `MutationObserver` debounce and auto-processing (content.js lines 591-681);
  - timers and `requestAnimationFrame`;
  - the re-entrancy guard of `animateCount`;
  - the interleaving of several page passes or service calls.

  A page pass is one sequential run.
- Animations and randomness are out of scope beyond the frame arithmetic `Popup.CountFrame`
  and the drop counts: drop positions, `Math.random` and CSS.
- Presentation is out of scope:
  - `showStatus` messages;
  - the exact wording of the progress messages (the model names the tier and its percentage);
  - `renderReplacementsList`;
  - the accordion;
  - the API-key field.
- The legacy single-rule `analyzeTextWithAI` is only network and parse. Only its prompt's
  concept description is modelled (`Prompt.ConceptDescription`).
- `GET_CURRENT_TAB_ID` and the error-message paths of the content script's message handler are
  not modelled.
- `triggerBrainJugAnimation` (popup.js lines 178-323) is not modelled. It chooses between the
  stored counts and the page's reply after injection errors. Only its increment and drops
  arithmetic is modelled, through `Popup.CountUpdate` and `Popup.DropsToAnimate`.
- `BrainJug.Jug.OnEntries`: the reset of `popupIsOpen` when sending a live update fails is not
  modelled, because that failure is asynchronous.
- `Popup.Percentage`: it rounds the exact quotient `count / 2`. The floating product
  `(count / 200) * 100` can differ from it by rounding error near a half, and that is not
  modelled. The source's rule "the goal message exactly at 100%" is stated on this exact value.
- `Popup.CountFrame`: the frame value `Math.floor(from + (to - from) * progress)` is computed in
  exact reals, while the source computes `progress` and the product in floating point. Near a
  whole number the rounding error can change the floor by one, and that is not modelled.
- `Popup.PopupPage.AddReplacement`: some replies hold a concept that is not a string, such as
  the source's `[null]` for a missing model text. The source stores such a list as it is,
  whereas the model's rules hold only strings. The model reports that case as
  `UnstoredConcepts` and leaves the list unchanged.
- Text operations:
  - `toLowerCase` is modelled on ASCII letters only.
  - The `\s` whitespace set of `trim` and `split` is modelled as the ASCII and common Unicode
    space characters listed in `Text.IsSpace`.
- PhraseApplier.SortByLength: phrase lengths count characters (Unicode scalar values), while `.length` counts UTF-16 code units. A phrase with characters outside the Basic Multilingual Plane, such as an emoji, is longer in the source, so the source can sort it before a phrase the model puts first.
- CandidateFilter.SignificantWords: the test `w.length > 3` counts characters, not UTF-16 code units. A word of two emoji has length 4 in the source and is significant there, but not in the model.
- CandidateFilter.Prefix4: `substring(0, 4)` takes four UTF-16 code units in the source and four characters in the model. The two differ, and can even split a surrogate pair in the source, when the concept starts with characters outside the Basic Multilingual Plane.
- Pipeline.GroupByRule: a `rule_id` that names an inherited property of `Object.prototype`, such as `constructor`, `toString` or `__proto__`, is grouped like any other id. In the source, `replacementsByRule[id]` is then already truthy, so `.push` is not a function and throws. The `catch` marks the batch processed, and the paragraphs of the batch not yet rewritten stay as they are. The model does not capture this throw; it rewrites every paragraph of the batch.
- Result items: the rule id, phrase and replacement are read as `String` would render them, which covers strings, `true` and integral numbers below 10^21 in magnitude (in plain decimal). An item whose field is a fractional or larger number, an array or an object passes the source's test, but the model drops it. The source would coerce such a field, for example to `1.5` or `[object Object]`.
- PhraseApplier.SortByLength: a phrase that is a number or `true` has no `.length` in the source, so the comparator returns `NaN` for it. `NaN` counts as "equal", which makes the comparator inconsistent. The order the source's sort then produces is left to the engine. The model sorts such a phrase by the length of its rendered string, so `12345` goes before `"cat"`.
- The cache key is built from concepts that are strings. `String(rule.original)` of another
  value is not modelled.
- The day is an opaque string standing for `new Date().toDateString()`.

## Findings

| source | as written | input that shows it | evidently intended | confidence | as-written member | corrected member |
|---|---|---|---|---|---|---|
| src/background/background.js:366-397 | `extractOriginalConcept` falls back to `[conceptsText]` for every parse failure, including the `JSON.parse(undefined)` of a missing text and the `JSON.parse('')` of a blank one. The list is then `[undefined]` or `[""]`; it is never `[replacementWord]`. An empty concept passes the content script's pre-filter for every paragraph, and `undefined` makes `concept.toLowerCase()` throw. | An answer with no `candidates`, such as a blocked prompt, gives `[undefined]`. An answer whose text is `" "` gives `[""]`. | A missing or blank text yields no concepts, so the final fallback supplies the replacement word. The corrected member reaches this by passing an unparsable text through the same trim-and-drop-blank filter as parsed concepts. This also changes a second case: an unparsable text with surrounding spaces inside its quotes, such as `" x "`, is kept trimmed (`["x"]`) where the source keeps `[" x "]`. | medium, not executed | Background.ExtractAsWritten (Background.AsWrittenNoCandidates, Background.AsWrittenBlankText) | Background.ExtractConcepts (Background.CorrectedNoCandidates, Background.CorrectedBlankText, Background.ExtractConceptsGood, Background.ExtractAgreesOnParse, Background.ExtractUnparsable) |
| src/popup/popup.js:353-359 | The checkbox shows `sync \|\| local \|\| false`, so a synced `false` falls through to a local `true`. The sync that follows copies the synced `false` to local storage, so the popup shows the setting on while both storages hold it off. | sync `autoProcess: false` (set on another device) and local `autoProcess: true` | Prefer the sync value whenever one is stored, so that the checkbox shows what is stored. The comment "Prefer sync storage, fallback to local" suggests this reading. "Stored" is tested with `!== undefined`, as the sync step on line 355 does, so a stored `null` counts as set. Each value is read as a boolean: `sync !== undefined ? !!sync : !!local`. | medium, not executed | Popup.AutoProcessAsWritten (Popup.AutoProcessAsWrittenDisagrees) | Popup.AutoProcessPreferred (Popup.AutoProcessPreferredAgrees, Popup.PopupPage.LoadAutoProcessSetting) |

/** The content script's pre-filter (`mightContainConcept`): a cheap, case-insensitive test of
    whether a paragraph could mention one of the rules' concepts, so that paragraphs that
    cannot are never sent to the analyzer. */
module CandidateFilter {
  import opened Text
  import opened Rules

  /** `concept.toLowerCase().substring(0, 4)`. */
  function Prefix4(lowerConcept: string): string {
    if |lowerConcept| <= 4 then lowerConcept else lowerConcept[..4]
  }

  /** What the source promises of one concept: a word of the lower-cased concept that is longer
      than three characters occurs in the lower-cased text, or, when the concept has no such
      word, its first four lower-cased characters occur there. */
  ghost predicate ConceptHits(lowerText: string, concept: string) {
    var words := Words(ToLower(concept));
    || (exists k :: 0 <= k < |words| && |words[k]| > 3 && Contains(lowerText, words[k]))
    || ((forall k :: 0 <= k < |words| ==> |words[k]| <= 3) && Contains(lowerText, Prefix4(ToLower(concept))))
  }

  /** `conceptWords.filter(w => w.length > 3)`. */
  function SignificantWords(words: seq<string>): (r: seq<string>)
    ensures r == [] <==> forall k :: 0 <= k < |words| ==> |words[k]| <= 3
    ensures forall w :: w in r <==> w in words && |w| > 3
  {
    if words == [] then []
    else if |words[0]| > 3 then [words[0]] + SignificantWords(words[1..])
    else SignificantWords(words[1..])
  }

  /** The inner loop: some significant word occurs in the text. */
  function SomeWordIn(lowerText: string, words: seq<string>): (r: bool)
    ensures r <==> exists k :: 0 <= k < |words| && Contains(lowerText, words[k])
  {
    if words == [] then false
    else if Contains(lowerText, words[0]) then true
    else
      var r := SomeWordIn(lowerText, words[1..]);
      assert forall k :: 1 <= k < |words| ==> words[k] == words[1..][k - 1];
      r
  }

  /** The significant words are exactly the words longer than three characters, so one of them
      occurs exactly when such a word occurs. */
  lemma SignificantWordIn(lowerText: string, words: seq<string>)
    ensures SomeWordIn(lowerText, SignificantWords(words))
        <==> exists k :: 0 <= k < |words| && |words[k]| > 3 && Contains(lowerText, words[k])
  {
    var sig := SignificantWords(words);
    if SomeWordIn(lowerText, sig) {
      var j :| 0 <= j < |sig| && Contains(lowerText, sig[j]);
      assert sig[j] in words;
    }
    if k :| 0 <= k < |words| && |words[k]| > 3 && Contains(lowerText, words[k]) {
      assert words[k] in sig;
    }
  }

  /** The body of the loop over one rule's concepts, for one concept. */
  function ConceptMatches(lowerText: string, concept: string): (r: bool)
    ensures r <==> ConceptHits(lowerText, concept)
  {
    var words := Words(ToLower(concept));
    var conceptWords := SignificantWords(words);
    if conceptWords == [] then Contains(lowerText, Prefix4(ToLower(concept)))
    else
      SignificantWordIn(lowerText, words);
      SomeWordIn(lowerText, conceptWords)
  }

  /** Some concept of a non-empty list hits exactly when the first one does or one of the rest does. */
  lemma ConceptHitsCons(lowerText: string, concepts: seq<string>)
    requires concepts != []
    ensures (exists j :: 0 <= j < |concepts| && ConceptHits(lowerText, concepts[j]))
        <==> ConceptHits(lowerText, concepts[0])
             || exists j :: 0 <= j < |concepts[1..]| && ConceptHits(lowerText, concepts[1..][j])
  {
    if j :| 0 <= j < |concepts| && ConceptHits(lowerText, concepts[j]) {
      if j > 0 {
        assert concepts[1..][j - 1] == concepts[j];
      }
    }
    if j :| 0 <= j < |concepts[1..]| && ConceptHits(lowerText, concepts[1..][j]) {
      assert concepts[j + 1] == concepts[1..][j];
    }
  }

  /** The loop over one rule's concepts. */
  function SomeConceptMatches(lowerText: string, concepts: seq<string>): (r: bool)
    ensures r <==> exists j :: 0 <= j < |concepts| && ConceptHits(lowerText, concepts[j])
  {
    if concepts == [] then false
    else
      ConceptHitsCons(lowerText, concepts);
      if ConceptMatches(lowerText, concepts[0]) then true
      else SomeConceptMatches(lowerText, concepts[1..])
  }

  /** The loop over the rules. */
  function SomeRuleMatches(lowerText: string, rules: seq<Rule>): (r: bool)
    ensures r <==> exists i, j :: 0 <= i < |rules| && 0 <= j < |ConceptList(rules[i].original)|
                                  && ConceptHits(lowerText, ConceptList(rules[i].original)[j])
  {
    if rules == [] then false
    else if SomeConceptMatches(lowerText, ConceptList(rules[0].original)) then true
    else
      var r := SomeRuleMatches(lowerText, rules[1..]);
      assert forall i :: 1 <= i < |rules| ==> rules[i] == rules[1..][i - 1];
      r
  }

  /** `mightContainConcept(text, replacements)`: true exactly when some concept of some rule hits
      the lower-cased text. */
  function MightContainConcept(text: string, rules: seq<Rule>): (r: bool)
    ensures r <==> exists i, j :: 0 <= i < |rules| && 0 <= j < |ConceptList(rules[i].original)|
                                  && ConceptHits(ToLower(text), ConceptList(rules[i].original)[j])
  {
    SomeRuleMatches(ToLower(text), rules)
  }
}

/** Properties of the pre-filter, proved from the contracts of its functions. */
module CandidateFilterFacts {
  import opened Text
  import opened Rules
  import opened CandidateFilter

  /** The empty concept hits every text: it has no words, and its empty prefix occurs everywhere. */
  lemma EmptyConceptHits(lowerText: string)
    ensures ConceptHits(lowerText, "")
  {
    assert Words(ToLower("")) == [];
    assert StartsWith(lowerText, []);
  }

  /** A rule with an empty concept lets every text through. */
  lemma EmptyConceptMatchesEverything(text: string, rules: seq<Rule>, i: nat, j: nat)
    requires i < |rules| && j < |ConceptList(rules[i].original)| && ConceptList(rules[i].original)[j] == ""
    ensures MightContainConcept(text, rules)
  {
    EmptyConceptHits(ToLower(text));
  }

  /** A rule whose `original` is a single string filters exactly like one holding the one-element list. */
  lemma SingleConceptAsList(text: string, id: string, c: string, replacement: string)
    ensures MightContainConcept(text, [Rule(id, Concept(c), replacement)])
        == MightContainConcept(text, [Rule(id, Concepts([c]), replacement)])
  {
  }

  /** A lower-case concept of one word of more than three characters matches exactly the texts
      that include it. */
  lemma OneWordConcept(lowerText: string, w: string)
    requires |w| > 3 && forall i :: 0 <= i < |w| ==> !IsSpace(w[i]) && !('A' <= w[i] <= 'Z')
    ensures ConceptMatches(lowerText, w) == Contains(lowerText, w)
  {
    ToLowerNoUpper(w);
    WordsOfWord(w);
  }

  /** For a rule whose one concept is such a word, the filter is `includes` of that word in the
      lower-cased text. */
  lemma OneWordRuleFilter(text: string, id: string, w: string, replacement: string)
    requires |w| > 3 && forall i :: 0 <= i < |w| ==> !IsSpace(w[i]) && !('A' <= w[i] <= 'Z')
    ensures MightContainConcept(text, [Rule(id, Concepts([w]), replacement)]) == Contains(ToLower(text), w)
  {
    OneWordConcept(ToLower(text), w);
  }

  /** A paragraph in which such a word occurs, in any case, is kept. */
  lemma WordPresentKept(a: string, w: string, b: string, id: string, replacement: string)
    requires |w| > 3 && forall i :: 0 <= i < |w| ==> !IsSpace(w[i]) && !('A' <= w[i] <= 'Z')
    ensures MightContainConcept(a + w + b, [Rule(id, Concepts([w]), replacement)])
  {
    ToLowerAppend(a + w, b);
    ToLowerAppend(a, w);
    ToLowerNoUpper(w);
    var lt := ToLower(a) + w + ToLower(b);
    assert lt[|a|..|a| + |w|] == w;
    ContainsAt(lt, w, |a|);
    OneWordRuleFilter(a + w + b, id, w, replacement);
  }

  /** A paragraph lacking a letter of the word, in either case, is filtered out. */
  lemma WordAbsentFiltered(text: string, id: string, w: string, replacement: string, c: char, upper: char)
    requires |w| > 3 && forall i :: 0 <= i < |w| ==> !IsSpace(w[i]) && !('A' <= w[i] <= 'Z')
    requires 'a' <= c <= 'z' && upper as int == c as int - 32 && c in w && c !in text && upper !in text
    ensures !MightContainConcept(text, [Rule(id, Concepts([w]), replacement)])
  {
    ToLowerMissing(text, c, upper);
    MissingCharNotContained(ToLower(text), w, c);
    OneWordRuleFilter(text, id, w, replacement);
  }

  /** "The weather was sunny" is filtered out for the rule with concept "happy". */
  lemma UnrelatedTextFiltered()
    ensures !MightContainConcept("The weather was sunny", [Rule("1", Concepts(["happy"]), "ecstatic")])
  {
    WordAbsentFiltered("The weather was sunny", "1", "happy", "ecstatic", 'p', 'P');
  }

  /** "I felt very happy" is kept for the rule with concept "happy". */
  lemma RelatedTextKept()
    ensures MightContainConcept("I felt very happy", [Rule("1", Concepts(["happy"]), "ecstatic")])
  {
    assert "I felt very happy" == "I felt very " + "happy" + "";
    WordPresentKept("I felt very ", "happy", "", "1", "ecstatic");
  }
}

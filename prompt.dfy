/** The strings the background service builds from a batch before calling the model: the cache
    key, the combined paragraph text and the numbered rule list of the prompt. */
module Prompt {
  import opened Text
  import opened Rules

  // ---------------------------------------------------------------------------------------------
  // The cache key

  /** The separator of the cache key's fields. */
  const KeySeparator: string := "|||"

  /** `String(rule.original)`: the concept, or the concepts joined by commas. */
  function OriginalString(o: Original): string {
    match o
    case Concept(c) => c
    case Concepts(cs) => Join(cs, ",")
  }

  /** `${r.id}:${r.original}:${r.replacement}`. */
  function RuleTag(r: Rule): string {
    r.id + ":" + OriginalString(r.original) + ":" + r.replacement
  }

  function RuleTags(rules: seq<Rule>): (tags: seq<string>)
    ensures |tags| == |rules| && forall i :: 0 <= i < |rules| ==> tags[i] == RuleTag(rules[i])
  {
    seq(|rules|, i requires 0 <= i < |rules| => RuleTag(rules[i]))
  }

  /** The key of `analysisCache`: the texts, then the rule tags, all joined by `|||`. */
  function CacheKey(texts: seq<string>, rules: seq<Rule>): string {
    Join(texts, KeySeparator) + KeySeparator + Join(RuleTags(rules), KeySeparator)
  }

  /** A string without a `|`. */
  predicate Unpiped(s: string) {
    '|' !in s
  }

  /** When no text and no rule tag contains `|`, the key splits back into the texts followed by
      the rule tags: the key then determines them. */
  lemma CacheKeyFields(texts: seq<string>, rules: seq<Rule>)
    requires texts != [] && rules != []
    requires forall i :: 0 <= i < |texts| ==> Unpiped(texts[i])
    requires forall i :: 0 <= i < |rules| ==> Unpiped(RuleTag(rules[i]))
    ensures Split(CacheKey(texts, rules), KeySeparator) == texts + RuleTags(rules)
  {
    var tags := RuleTags(rules);
    JoinAppend(texts, tags, KeySeparator);
    SplitJoin(texts + tags, KeySeparator);
  }

  /** Two batches whose texts and rule tags avoid `|` share a key only when they have the same
      texts and the same rule tags. */
  lemma CacheKeySeparates(texts: seq<string>, rules: seq<Rule>, texts': seq<string>, rules': seq<Rule>)
    requires texts != [] && rules != [] && texts' != [] && rules' != []
    requires forall i :: 0 <= i < |texts| ==> Unpiped(texts[i])
    requires forall i :: 0 <= i < |rules| ==> Unpiped(RuleTag(rules[i]))
    requires forall i :: 0 <= i < |texts'| ==> Unpiped(texts'[i])
    requires forall i :: 0 <= i < |rules'| ==> Unpiped(RuleTag(rules'[i]))
    requires |texts| == |texts'|
    requires CacheKey(texts, rules) == CacheKey(texts', rules')
    ensures texts == texts' && RuleTags(rules) == RuleTags(rules')
  {
    CacheKeyFields(texts, rules);
    CacheKeyFields(texts', rules');
    var all := texts + RuleTags(rules);
    var all' := texts' + RuleTags(rules');
    assert all == all';
    assert texts == all[..|texts|] && texts' == all'[..|texts|];
    assert RuleTags(rules) == all[|texts|..] && RuleTags(rules') == all'[|texts|..];
  }

  /** The condition on `|` is needed: a text holding the separator gives the key of two texts. */
  lemma CacheKeyCollision(rules: seq<Rule>)
    ensures CacheKey(["a|||b"], rules) == CacheKey(["a", "b"], rules)
  {
    assert ["a", "b"][1..] == ["b"];
    assert Join(["a", "b"], KeySeparator) == "a" + KeySeparator + "b";
  }

  // ---------------------------------------------------------------------------------------------
  // The combined paragraph text

  /** `[Paragraph k]\n<text>`. */
  function Section(k: nat, text: string): string {
    "[Paragraph " + NatToString(k) + "]\n" + text
  }

  function Sections(texts: seq<string>): (r: seq<string>)
    ensures |r| == |texts| && forall i :: 0 <= i < |texts| ==> r[i] == Section(i + 1, texts[i])
  {
    seq(|texts|, i requires 0 <= i < |texts| => Section(i + 1, texts[i]))
  }

  /** The texts as one prompt: each under its 1-based paragraph header, separated by blank lines. */
  function CombinedText(texts: seq<string>): string {
    Join(Sections(texts), "\n\n")
  }

  /** Paragraph `i + 1` comes right after the first `i` paragraphs and a blank line, and is
      followed by a blank line and the rest, so the headers number the texts in order from 1. */
  lemma CombinedTextAt(texts: seq<string>, i: nat)
    requires i < |texts|
    ensures CombinedText(texts)
         == (if i == 0 then "" else CombinedText(texts[..i]) + "\n\n")
            + Section(i + 1, texts[i])
            + (if i + 1 == |texts| then "" else "\n\n" + Join(Sections(texts)[i + 1..], "\n\n"))
  {
    var ss := Sections(texts);
    assert Sections(texts[..i]) == ss[..i];
    JoinAround(ss, i, "\n\n");
  }

  /** One more text adds a blank line and its section. */
  lemma CombinedTextSnoc(texts: seq<string>, text: string)
    requires texts != []
    ensures CombinedText(texts + [text]) == CombinedText(texts) + "\n\n" + Section(|texts| + 1, text)
  {
    assert Sections(texts + [text]) == Sections(texts) + [Section(|texts| + 1, text)];
    JoinSnoc(Sections(texts), Section(|texts| + 1, text), "\n\n");
  }

  // ---------------------------------------------------------------------------------------------
  // The rule list

  function Quoted(c: string): string {
    "\"" + c + "\""
  }

  function QuotedList(cs: seq<string>): (r: seq<string>)
    ensures |r| == |cs| && forall i :: 0 <= i < |cs| ==> r[i] == Quoted(cs[i])
  {
    seq(|cs|, i requires 0 <= i < |cs| => Quoted(cs[i]))
  }

  /** `concepts[0]` rendered in a template: `undefined` for an empty list. */
  function FirstConcept(cs: seq<string>): string {
    if cs == [] then "undefined" else cs[0]
  }

  /** The batch prompt's `conceptsList` for one rule. */
  function ConceptsText(cs: seq<string>): (r: string)
    ensures |cs| > 1 ==> StartsWith(r, "concepts: ")
    ensures |cs| <= 1 ==> StartsWith(r, "concept: ")
  {
    if |cs| > 1 then "concepts: " + Join(QuotedList(cs), ", ")
    else "concept: " + Quoted(FirstConcept(cs))
  }

  /** The single-rule prompt's `conceptDescription`. */
  function ConceptDescription(o: Original): (r: string)
    ensures |ConceptList(o)| > 1 ==> StartsWith(r, "any of these concepts: ")
    ensures |ConceptList(o)| <= 1 ==> r == "the concept " + Quoted(FirstConcept(ConceptList(o)))
  {
    var cs := ConceptList(o);
    if |cs| > 1 then "any of these concepts: " + Join(QuotedList(cs), ", ")
    else "the concept " + Quoted(FirstConcept(cs))
  }

  /** The single-rule prompt describes a string `original` as its one-element list does, quotes a
      lone concept (`undefined` for an empty list), and describes several concepts with the same
      quoted list as the batch prompt's rule line. */
  lemma ConceptDescriptionFacts(c: string, cs: seq<string>)
    ensures ConceptDescription(Concept(c)) == ConceptDescription(Concepts([c]))
    ensures ConceptDescription(Concept(c)) == "the concept \"" + c + "\""
    ensures ConceptDescription(Concepts([])) == "the concept \"undefined\""
    ensures |cs| > 1 ==> ConceptDescription(Concepts(cs)) == "any of these " + ConceptsText(cs)
  {
    assert ConceptList(Concept(c)) == ConceptList(Concepts([c])) == [c];
    assert "the concept " + Quoted(c) == "the concept \"" + c + "\"";
    if |cs| > 1 {
      var j := Join(QuotedList(cs), ", ");
      assert "any of these concepts: " + j == "any of these " + ("concepts: " + j);
    }
  }

  /** Line `index + 1` of the rule list. */
  function RuleLine(index: nat, rule: Rule): string {
    NatToString(index + 1) + ". " + ConceptsText(ConceptList(rule.original))
    + " \U{2192} Replacement word: " + Quoted(rule.replacement)
  }

  function RuleLines(rules: seq<Rule>): (r: seq<string>)
    ensures |r| == |rules| && forall i :: 0 <= i < |rules| ==> r[i] == RuleLine(i, rules[i])
  {
    seq(|rules|, i requires 0 <= i < |rules| => RuleLine(i, rules[i]))
  }

  /** `rulesDescription`: one line per rule, in rule order. */
  function RulesDescription(rules: seq<Rule>): string {
    Join(RuleLines(rules), "\n")
  }

  /** A rule none of whose concepts and whose replacement contains a line break. */
  predicate SingleLine(rule: Rule) {
    && '\n' !in rule.replacement
    && forall i :: 0 <= i < |ConceptList(rule.original)| ==> '\n' !in ConceptList(rule.original)[i]
  }

  lemma DigitsLackBreak(n: nat)
    ensures '\n' !in NatToString(n)
  {
    var s := NatToString(n);
    assert forall i :: 0 <= i < |s| ==> s[i] != '\n';
  }

  /** The concepts part of a rule line has no line break when the concepts have none. */
  lemma ConceptsTextSingle(cs: seq<string>)
    requires forall i :: 0 <= i < |cs| ==> '\n' !in cs[i]
    ensures '\n' !in ConceptsText(cs)
  {
    if |cs| > 1 {
      var qs := QuotedList(cs);
      forall i | 0 <= i < |qs| ensures '\n' !in qs[i] {
        assert qs[i] == "\"" + cs[i] + "\"";
      }
      JoinLacks(qs, ", ", '\n');
      assert ConceptsText(cs) == "concepts: " + Join(qs, ", ");
    } else {
      var q := Quoted(FirstConcept(cs));
      assert '\n' !in FirstConcept(cs);
      assert ConceptsText(cs) == "concept: " + q;
    }
  }

  lemma RuleLineSingle(index: nat, rule: Rule)
    requires SingleLine(rule)
    ensures '\n' !in RuleLine(index, rule)
  {
    var num := NatToString(index + 1);
    var ct := ConceptsText(ConceptList(rule.original));
    var tail := " \U{2192} Replacement word: " + Quoted(rule.replacement);
    DigitsLackBreak(index + 1);
    ConceptsTextSingle(ConceptList(rule.original));
    assert '\n' !in tail;
    assert RuleLine(index, rule) == num + ". " + ct + tail;
  }

  /** The rule list has exactly one line per rule, line `i` being rule `i`'s numbered from 1,
      when no rule text contains a line break; and each line names its concepts in the plural
      exactly when the rule has more than one. */
  lemma RulesDescriptionLines(rules: seq<Rule>)
    requires rules != []
    requires forall i :: 0 <= i < |rules| ==> SingleLine(rules[i])
    ensures var lines := Split(RulesDescription(rules), "\n");
      && |lines| == |rules|
      && forall i :: 0 <= i < |rules| ==> lines[i] == RuleLine(i, rules[i])
  {
    var lines := RuleLines(rules);
    forall i | 0 <= i < |rules| ensures '\n' !in lines[i] {
      RuleLineSingle(i, rules[i]);
    }
    SplitJoin(lines, "\n");
  }

  /** Line `i` starts with `i + 1`, a dot, and `concepts:` or `concept:` by the number of concepts. */
  lemma RuleLineShape(index: nat, rule: Rule)
    ensures var head := NatToString(index + 1) + ". ";
      && (|ConceptList(rule.original)| > 1 ==> StartsWith(RuleLine(index, rule), head + "concepts: "))
      && (|ConceptList(rule.original)| <= 1 ==> StartsWith(RuleLine(index, rule), head + "concept: "))
  {
    var head := NatToString(index + 1) + ". ";
    var ct := ConceptsText(ConceptList(rule.original));
    var tail := " \U{2192} Replacement word: " + Quoted(rule.replacement);
    assert RuleLine(index, rule) == head + ct + tail;
    if |ConceptList(rule.original)| > 1 {
      StartsWithInside(head, ct, tail, "concepts: ");
    } else {
      StartsWithInside(head, ct, tail, "concept: ");
    }
  }
}

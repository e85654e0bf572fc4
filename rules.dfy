/** The user's replacement rules, as the popup stores them and the other contexts read them. */
module Rules {

  /** A rule's `original`: older rules hold one concept string, newer ones an array of concepts. */
  datatype Original = Concept(concept: string) | Concepts(concepts: seq<string>)

  /** `{id, original, replacement}`: the word to learn and the concepts it stands for. */
  datatype Rule = Rule(id: string, original: Original, replacement: string)

  /** `Array.isArray(rule.original) ? rule.original : [rule.original]`. */
  function ConceptList(o: Original): seq<string> {
    match o
    case Concept(c) => [c]
    case Concepts(cs) => cs
  }
}

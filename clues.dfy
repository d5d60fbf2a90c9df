/** One clue record as the puzzle data supplies it. A field the record leaves
    out is the empty string or the empty sequence: every read of an optional
    field in the annotation and mapping code (`|| ""`, `Array.isArray`, a
    truthiness or length test) treats absence and emptiness alike. */
module Clues {

  /** One wordplay step. The mapping strategy is chosen by field, in order:
      non-empty `indices`, then a `range` of exactly two numbers, then a
      non-empty `yields` (here `yielded`, as `yields` is a Dafny keyword);
      with none of these the part maps to nothing. */
  datatype Part = Part(
    hint: string,
    indices: seq<int>,
    range: seq<int>,
    yielded: string)

  datatype Clue = Clue(
    clue: string,
    normalClue: string,
    clueType: string,
    definitions: seq<string>,
    definitionWords: seq<string>,
    indicatorWords: seq<string>,
    fodderWords: seq<string>,
    parts: seq<Part>,
    answer: string)
}

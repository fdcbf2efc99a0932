/** A stand-in for the feature model of feat.h, which is not part of this
    model. A feature is kept as its text: the empty text is "no feature",
    `X` is the wildcard and `nb` the no-bracket sentinel. Matching is equality
    of texts and wildcard substitution rewrites every `[X]` of a category's
    text. Nothing in the category algebra looks inside a feature except
    through these members. */
module Features {
  import opened TextUtils

  datatype Feature = Feature(text: string) {

    predicate IsEmpty() { text == "" }

    predicate Matches(other: Feature) { text == other.text }

    /** The bracketed text appended to an atomic type, empty for no feature. */
    function ToStr(): string {
      if text == "" then "" else "[" + text + "]"
    }

    /** The category text `s` with every wildcard feature replaced by this one. */
    function SubstituteWildcard(s: string): string {
      ReplaceAll(s, "[X]", ToStr())
    }
  }

  function Parse(s: string): Feature { Feature(s) }

  /** `kNONE` (cat.cpp:10), `kNB` (cat.cpp:11) and `kWILDCARD` (feat.h). */
  const NONE: Feature := Parse("")
  const NB: Feature := Parse("nb")
  const WILDCARD: Feature := Parse("X")
}

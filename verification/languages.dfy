/**
 * The language value types the index works on: a language tag (a code such
 * as "en" plus an optional region such as "US") and an ordered pair of tags
 * naming a translation direction. Both are immutable and compared
 * structurally, which is how the index uses them as hash keys.
 */
module Languages {
  import opened Wrappers

  datatype Language = Language(code: string, region: Option<string>) {

    /** `new Language(getLanguage())`: the same code with no region. */
    function Bare(): Language {
      Language(code, None)
    }
  }

  datatype LanguagePair = LanguagePair(source: Language, target: Language) {

    /** The opposite translation direction. */
    function Reversed(): LanguagePair {
      LanguagePair(target, source)
    }
  }

  /** Reverses an optional pair; a missing pair stays missing. */
  function ReverseOption(p: Option<LanguagePair>): Option<LanguagePair> {
    match p
    case None => None
    case Some(q) => Some(q.Reversed())
  }
}

/** The sentence record the parser produces and the engine consumes: one parsed story line. */
module Sentences {
  import opened Wrappers

  /** The three sentence kinds, named after the keyword that opens the line. */
  datatype Kind = Given | When | Then

  /** A parsed line: its kind, the phrase between keyword and parameter, the trailing
      parameter word, and the line it came from. */
  datatype Sentence = Sentence(kind: Kind, phrase: string, param: string, raw: string)

  /** The keyword that opens a line of the given kind. */
  function Keyword(k: Kind): (w: string) {
    match k
    case Given => "Given"
    case When => "When"
    case Then => "Then"
  }

  /** The kind a first word introduces; None for any word other than the three keywords. */
  function KindOf(word: string): (r: Option<Kind>)
    ensures r.Some? ==> Keyword(r.value) == word
    ensures r.None? ==> forall k: Kind :: Keyword(k) != word
  {
    if word == "Given" then Some(Given)
    else if word == "When" then Some(When)
    else if word == "Then" then Some(Then)
    else None
  }

  /** Reading a keyword gives back its kind. */
  lemma KindOfKeyword(k: Kind)
    ensures KindOf(Keyword(k)) == Some(k)
  {
  }
}

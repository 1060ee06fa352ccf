/** The lexicon's entities: the closed set of word classes, a stored word
    (`TavsaWord`) and the decomposition of a verb (`TavsaEtymology`). */
module Lexicon {
  import opened Wrappers

  /** The three lexical classes of the language. */
  datatype WordType = Noun | Verb | Amuini {
    /** The literal that names this class on the wire and in the store. */
    function Name(): string {
      match this
      case Noun => "noun"
      case Verb => "verb"
      case Amuini => "amuini"
    }
  }

  /** `WORD_TYPES`: the accepted type literals, in their declared order. */
  const WordTypes: seq<string> := ["noun", "verb", "amuini"]

  /** The creation-time directive asking for the type to be inferred. */
  const AutoDirective: string := "auto"

  /** The two-character substring that ends a verb's root. */
  const VerbMarker: string := "rn"

  /** The class a type literal names, looked up in `WordTypes`. */
  function ParseWordType(s: string): (r: Option<WordType>)
    ensures r.Some? <==> s in WordTypes
    ensures r.Some? ==> r.value.Name() == s
  {
    if s == "noun" then Some(Noun)
    else if s == "verb" then Some(Verb)
    else if s == "amuini" then Some(Amuini)
    else None
  }

  /** Every class is named by a listed literal, and that literal reads back
      as the same class. */
  lemma NameRoundTrip(t: WordType)
    ensures t.Name() in WordTypes
    ensures ParseWordType(t.Name()) == Some(t)
  {
  }

  /** A stored dictionary row. The type is kept as the text the caller sent;
      the etymology column is always written empty. */
  datatype Word = Word(id: int, word: string, definition: string, wordType: string, etymology: Option<string>)

  /** A verb split into its root and its subject and `ci` morphemes;
      `modifiers` is reserved and never filled. */
  datatype Etymology = Etymology(lexeme: string, subject: Option<string>, ci: Option<string>, modifiers: seq<string>)
}

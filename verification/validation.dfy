/** The checks `tavsa_add` makes before inserting a single entry: every
    field present, the `auto` directive resolved, the type in the closed
    list. */
module Validation {
  import opened Wrappers
  import opened Strings
  import opened Lexicon

  /** Why an entry is refused. */
  datatype AddError = MissingFields | InvalidWordType {
    /** The text the handler answers with. */
    function Message(): string {
      match this
      case MissingFields => "Missing fields"
      case InvalidWordType => "Invalid word type"
    }
  }

  /** An entry ready for the insert: a concrete class, the word and the
      definition as received. */
  datatype Entry = Entry(wordType: WordType, word: string, definition: string)

  /** The validation of `tavsa_add`, ending where the insert would run. */
  function Validate(wordType: string, word: string, definition: string): (r: Result<Entry, AddError>)
    ensures r == Err(MissingFields) <==> wordType == "" || word == "" || definition == ""
    ensures r == Err(InvalidWordType) <==>
              && wordType != "" && word != "" && definition != ""
              && (if wordType == AutoDirective then !Contains(word, VerbMarker) else wordType !in WordTypes)
    ensures r.Ok? ==> r.value.word == word && r.value.definition == definition
    ensures r.Ok? ==> r.value.wordType.Name() in WordTypes
    ensures r.Ok? && wordType == AutoDirective ==> r.value.wordType == Verb && Contains(word, VerbMarker)
    ensures r.Ok? && wordType != AutoDirective ==> r.value.wordType.Name() == wordType
  {
    if wordType == "" || word == "" || definition == "" then Err(MissingFields)
    else
      var resolved :=
        if wordType == AutoDirective then (if Contains(word, VerbMarker) then Some(Verb.Name()) else None)
        else Some(wordType);
      match resolved
      case None => Err(InvalidWordType)
      case Some(name) =>
        match ParseWordType(name)
        case None => Err(InvalidWordType)
        case Some(t) => Ok(Entry(t, word, definition))
  }

  /** An emptiness check wins over any type problem: with a field missing
      the answer is "Missing fields" whatever the type text says. */
  lemma MissingFieldsFirst(wordType: string, word: string, definition: string)
    requires word == "" || definition == ""
    ensures Validate(wordType, word, definition).Err?
    ensures Validate(wordType, word, definition).error.Message() == "Missing fields"
  {
  }

  /** With every field present, `auto` is accepted exactly for words that
      contain the verb marker, and then always as a verb. */
  lemma AutoResolvesToVerb(word: string, definition: string)
    requires word != "" && definition != ""
    ensures Validate(AutoDirective, word, definition).Ok? <==> Contains(word, VerbMarker)
    ensures Validate(AutoDirective, word, definition).Ok? ==>
              Validate(AutoDirective, word, definition).value.wordType == Verb
  {
  }

  /** Every class can be added by naming it, with any non-empty word and
      definition. */
  lemma ListedTypesAccepted(t: WordType, word: string, definition: string)
    requires word != "" && definition != ""
    ensures Validate(t.Name(), word, definition) == Ok(Entry(t, word, definition))
  {
    NameRoundTrip(t);
  }
}

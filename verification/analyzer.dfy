/** `get_word_etymology`: the decomposition of a verb's surface form into
    its root (the text before the first "rn") and two-character subject and
    `ci` morphemes located by marker letters. The slice past the end of the
    word and the `todo!()` arms, which abort in the handler, are error
    values here. */
module Analyzer {
  import opened Wrappers
  import opened Strings
  import opened Lexicon

  datatype AnalysisError =
    | OutOfBounds     // the two-character slice would run past the word's end
    | NotImplemented  // no analysis exists for this word type

  /** `i` is where the morpheme slot looks: the first `primary` if the word
      has one, otherwise the first `fallback`. A `primary` later in the word
      still beats an earlier `fallback`. */
  ghost predicate FirstMarker(word: string, primary: char, fallback: char, i: int) {
    && 0 <= i < |word|
    && if primary in word then word[i] == primary && primary !in word[..i]
       else word[i] == fallback && fallback !in word[..i]
  }

  /** At most one index is the marker of a slot. */
  lemma FirstMarkerUnique(word: string, primary: char, fallback: char, i: int, j: int)
    requires FirstMarker(word, primary, fallback, i)
    requires FirstMarker(word, primary, fallback, j)
    ensures i == j
  {
  }

  /** `word.find(primary).or(word.find(fallback))`. */
  function MarkerIndex(word: string, primary: char, fallback: char): (r: Option<nat>)
    ensures r.None? <==> primary !in word && fallback !in word
    ensures r.Some? ==> FirstMarker(word, primary, fallback, r.value)
  {
    FindChar(word, primary);
    FindChar(word, fallback);
    match Find(word, [primary])
    case Some(i) => Some(i)
    case None => Find(word, [fallback])
  }

  /** One morpheme slot: the two characters from the marker on (the inclusive
      slice `index..=index+1`), nothing when neither letter occurs, and
      `OutOfBounds` when the marker is the last character. */
  function Morpheme(word: string, primary: char, fallback: char): (r: Result<Option<string>, AnalysisError>)
    ensures r.Err? ==> r.error == OutOfBounds
  {
    match MarkerIndex(word, primary, fallback)
    case None => Ok(None)
    case Some(i) => if i + 2 <= |word| then Ok(Some(word[i..i + 2])) else Err(OutOfBounds)
  }

  /** A slot is empty exactly when neither letter occurs, fails exactly when
      its marker is the last character, and otherwise holds the two
      characters starting at its marker. */
  lemma MorphemeSpec(word: string, primary: char, fallback: char)
    ensures var r := Morpheme(word, primary, fallback);
            && (r == Ok(None) <==> primary !in word && fallback !in word)
            && (r == Err(OutOfBounds) <==> FirstMarker(word, primary, fallback, |word| - 1))
            && forall i :: FirstMarker(word, primary, fallback, i) ==>
                 i + 2 <= |word| ==> r == Ok(Some(word[i..i + 2]))
  {
    var m := MarkerIndex(word, primary, fallback);
    if m.Some? {
      forall j | FirstMarker(word, primary, fallback, j)
        ensures j == m.value
      {
        FirstMarkerUnique(word, primary, fallback, m.value, j);
      }
    }
  }

  /** `get_word_etymology(word, word_type)`. */
  function GetWordEtymology(word: string, wordType: string): (r: Result<Option<Etymology>, AnalysisError>)
    ensures r == Err(NotImplemented) <==> wordType != Verb.Name()
    ensures wordType == Verb.Name() ==> (r == Ok(None) <==> !Contains(word, VerbMarker))
  {
    if wordType != Verb.Name() then Err(NotImplemented)
    else
      match Find(word, VerbMarker)
      case None => Ok(None)
      case Some(index) =>
        var letters := word[..index];
        match Morpheme(word, 't', 'd')
        case Err(e) => Err(e)
        case Ok(subject) =>
          match Morpheme(word, 'k', 'g')
          case Err(e) => Err(e)
          case Ok(ci) => Ok(Some(Etymology(letters, subject, ci, [])))
  }

  /** A verb's analysis aborts exactly when it has the verb marker and the
      subject or the `ci` marker is the word's last character, and then
      always with `OutOfBounds`. */
  lemma EtymologyOutOfBounds(word: string)
    ensures GetWordEtymology(word, Verb.Name()).Err? <==>
            && Contains(word, VerbMarker)
            && (FirstMarker(word, 't', 'd', |word| - 1) || FirstMarker(word, 'k', 'g', |word| - 1))
    ensures GetWordEtymology(word, Verb.Name()) == Err(OutOfBounds) <==>
            && Contains(word, VerbMarker)
            && (FirstMarker(word, 't', 'd', |word| - 1) || FirstMarker(word, 'k', 'g', |word| - 1))
  {
    MorphemeSpec(word, 't', 'd');
    MorphemeSpec(word, 'k', 'g');
  }

  /** The root is the text before the first verb marker: its length is the
      marker's first position. */
  lemma EtymologyLexeme(word: string)
    requires GetWordEtymology(word, Verb.Name()).Ok?
    requires GetWordEtymology(word, Verb.Name()).value.Some?
    ensures var e := GetWordEtymology(word, Verb.Name()).value.value;
            && |e.lexeme| <= |word|
            && e.lexeme == word[..|e.lexeme|]
            && Occurs(word, VerbMarker, |e.lexeme|)
            && (forall j :: 0 <= j < |e.lexeme| ==> !Occurs(word, VerbMarker, j))
            && e.modifiers == []
  {
  }

  /** The subject is the two characters at the first 't', or at the first
      'd' when there is no 't', and is absent when neither occurs; `ci`
      likewise with 'k' and 'g'. */
  lemma EtymologyMorphemes(word: string)
    requires GetWordEtymology(word, Verb.Name()).Ok?
    requires GetWordEtymology(word, Verb.Name()).value.Some?
    ensures var e := GetWordEtymology(word, Verb.Name()).value.value;
            && (e.subject.None? <==> 't' !in word && 'd' !in word)
            && (forall i :: FirstMarker(word, 't', 'd', i) ==> i + 2 <= |word| && e.subject == Some(word[i..i + 2]))
            && (e.ci.None? <==> 'k' !in word && 'g' !in word)
            && (forall i :: FirstMarker(word, 'k', 'g', i) ==> i + 2 <= |word| && e.ci == Some(word[i..i + 2]))
  {
    MorphemeSpec(word, 't', 'd');
    MorphemeSpec(word, 'k', 'g');
  }

  /** The root together with the marker is a prefix of the word, and the
      root itself holds no marker, since the split is at the first one. */
  lemma LexemeBeforeFirstMarker(word: string)
    requires GetWordEtymology(word, Verb.Name()).Ok?
    requires GetWordEtymology(word, Verb.Name()).value.Some?
    ensures var e := GetWordEtymology(word, Verb.Name()).value.value;
            && e.lexeme + VerbMarker <= word
            && !Contains(e.lexeme, VerbMarker)
  {
    EtymologyLexeme(word);
    var e := GetWordEtymology(word, Verb.Name()).value.value;
    var n := |e.lexeme|;
    assert word[n..n + 2] == VerbMarker;
    assert e.lexeme + VerbMarker == word[..n + 2];
    forall j | Occurs(e.lexeme, VerbMarker, j)
      ensures false
    {
      assert e.lexeme[j..j + 2] == word[j..j + 2];
      assert Occurs(word, VerbMarker, j);
    }
  }

  /** A verb that is empty or whose last letter is no marker letter
      analyses without error. */
  lemma VerbEndingInOtherLetter(w: string)
    requires |w| > 0 ==> w[|w| - 1] !in "tdkg"
    ensures GetWordEtymology(w, "verb").Ok?
  {
    EtymologyOutOfBounds(w);
  }
}

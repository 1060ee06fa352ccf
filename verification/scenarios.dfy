/** What the modelled handlers return on sample entries. */
module Scenarios {
  import opened Wrappers
  import opened Strings
  import opened Decimal
  import opened Lexicon
  import opened Validation
  import opened Analyzer
  import opened BulkImport

  lemma KatrnaMarker()
    ensures Find("katrna", "rn") == Some(3)
  {
    var w := "katrna";
    assert w[3..5] == "rn";
    assert FindFrom(w, "rn", 3) == Some(3);
    assert w[2..4] == "tr";
    assert FindFrom(w, "rn", 2) == Some(3);
    assert w[1..3] == "at";
    assert FindFrom(w, "rn", 1) == Some(3);
    assert w[0..2] == "ka";
  }

  /** "katrna": root "kat", subject "tr" at the first 't', `ci` "ka" at
      the first 'k'. */
  lemma KatrnaDecomposes()
    ensures GetWordEtymology("katrna", "verb") == Ok(Some(Etymology("kat", Some("tr"), Some("ka"), [])))
  {
    var w := "katrna";
    KatrnaMarker();
    assert w[2..3] == "t";
    assert FindFrom(w, "t", 2) == Some(2);
    assert w[1..2] == "a";
    assert FindFrom(w, "t", 1) == Some(2);
    assert w[0..1] == "k";
    assert Find(w, "t") == Some(2);
    assert Find(w, "k") == Some(0);
    assert MarkerIndex(w, 't', 'd') == Some(2);
    assert MarkerIndex(w, 'k', 'g') == Some(0);
    assert w[2..4] == "tr" && w[0..2] == "ka";
    assert Morpheme(w, 't', 'd') == Ok(Some("tr"));
    assert Morpheme(w, 'k', 'g') == Ok(Some("ka"));
    assert w[..3] == "kat";
  }

  /** A verb whose subject marker is its last character aborts the
      analysis. */
  lemma TrailingMarkerOutOfBounds()
    ensures GetWordEtymology("arnt", "verb") == Err(OutOfBounds)
  {
    var w := "arnt";
    assert w[1..3] == "rn";
    assert Occurs(w, VerbMarker, 1);
    assert 't' in w && w[..3] == "arn";
    assert FirstMarker(w, 't', 'd', 3);
    EtymologyOutOfBounds(w);
  }

  /** `auto` for a word without the marker is refused; with it, the entry
      becomes a verb. */
  lemma AutoExamples()
    ensures Validate("auto", "zint", "def") == Err(InvalidWordType)
    ensures Validate("auto", "katrna", "def") == Ok(Entry(Verb, "katrna", "def"))
  {
    var w := "zint";
    assert w[0..2] == "zi" && w[1..3] == "in" && w[2..4] == "nt";
    assert Find(w, VerbMarker) == None;
    KatrnaMarker();
  }

  lemma MissingSeparatorTokens()
    ensures SplitWhitespace("birdamirna") == ["birdamirna"]
  {
    assert "birdamirna" == Join(["birdamirna"], " ");
    SplitWhitespaceJoin(["birdamirna"]);
  }

  lemma MissingSeparatorRows()
    ensures BuildWords(["birdamirna"], "verb", 6) == Err(MalformedToken("birdamirna"))
  {
    assert '=' !in "birdamirna";
    assert CheckToken("birdamirna", "verb") == Err(MalformedToken("birdamirna"));
    FirstRejectedTokenDecides(["birdamirna"], "verb", 6, 0);
  }

  /** A token without '=' abandons the whole batch. */
  lemma MissingSeparatorAborts()
    ensures Serialize(Some(5), "verb", "birdamirna") == Err(MalformedToken("birdamirna"))
  {
    MissingSeparatorTokens();
    MissingSeparatorRows();
    SerializeErr(Some(5), "verb", "birdamirna", ["birdamirna"], MalformedToken("birdamirna"));
  }

  /** Unlike a single add, bulk import lets an empty word through: a lone
      token `definition=` becomes row 1 with an empty word. */
  lemma EmptyWordImported(definition: string)
    requires IsToken(definition) && '=' !in definition
    ensures var token := definition + "=";
            var words := [Word(1, "", ToLower(definition), "verb", None)];
            Serialize(None, "verb", token) == Ok(Import(words, InsertStatement(words)))
  {
    var token := definition + "=";
    assert IsToken(token);
    SplitWhitespaceToken(token);
    EmptyWordRow(definition);
    SerializeOk(None, "verb", token, [token], [Word(1, "", ToLower(definition), "verb", None)]);
  }

  lemma EmptyWordRow(definition: string)
    requires '=' !in definition
    ensures BuildWords([definition + "="], "verb", 1) == Ok([Word(1, "", ToLower(definition), "verb", None)])
  {
    VerbEndingInOtherLetter("");
    CheckJoinedToken(definition, "", "verb");
    assert definition + "=" + "" == definition + "=";
    OneRow(definition + "=", "verb", 1, Pair(definition, ""));
    assert ToLower("") == "";
  }

  const HouseBirdBody := "house=tokurna bird=amirna"

  lemma HouseBirdTokens()
    ensures SplitWhitespace(HouseBirdBody) == ["house=tokurna", "bird=amirna"]
  {
    var tokens := ["house=tokurna", "bird=amirna"];
    assert IsToken(tokens[0]) && IsToken(tokens[1]);
    assert Join(tokens, " ") == "house=tokurna bird=amirna";
    SplitWhitespaceJoin(tokens);
  }

  lemma HouseChecks()
    ensures CheckToken("house=tokurna", "verb") == Ok(Pair("house", "tokurna"))
  {
    var d, w := "house", "tokurna";
    assert '=' !in d && '=' !in w;
    assert d + "=" + w == "house=tokurna";
    VerbEndingInOtherLetter(w);
    CheckJoinedToken(d, w, "verb");
  }

  lemma BirdChecks()
    ensures CheckToken("bird=amirna", "verb") == Ok(Pair("bird", "amirna"))
  {
    var d, w := "bird", "amirna";
    assert '=' !in d && '=' !in w;
    assert d + "=" + w == "bird=amirna";
    VerbEndingInOtherLetter(w);
    CheckJoinedToken(d, w, "verb");
  }

  lemma HouseBirdLowerCase()
    ensures ToLower("house") == "house" && ToLower("tokurna") == "tokurna"
    ensures ToLower("bird") == "bird" && ToLower("amirna") == "amirna"
  {
    LowerUnchanged("tokurna");
    LowerUnchanged("house");
    LowerUnchanged("amirna");
    LowerUnchanged("bird");
  }

  /** With a stored maximum of 5, two verb tokens become rows 6 and 7 in
      body order, each split at its '=' and lower-cased. */
  lemma HouseBirdImport()
    ensures var words := [Word(6, "tokurna", "house", "verb", None), Word(7, "amirna", "bird", "verb", None)];
            Serialize(Some(5), "verb", HouseBirdBody) == Ok(Import(words, InsertStatement(words)))
  {
    HouseBirdTokens();
    HouseChecks();
    BirdChecks();
    HouseBirdLowerCase();
    TwoTokenImport(Some(5), "verb", HouseBirdBody, "house=tokurna", "bird=amirna",
                   "house", "tokurna", "bird", "amirna");
  }

  lemma TrailingMarkerTokenRejected()
    ensures CheckToken("x=arnt", "verb") == Err(AnalysisFailed("x=arnt", OutOfBounds))
  {
    assert '=' !in "x" && '=' !in "arnt";
    assert "x" + "=" + "arnt" == "x=arnt";
    TrailingMarkerOutOfBounds();
    CheckJoinedToken("x", "arnt", "verb");
  }

  /** A verb token whose analysis overruns aborts the whole import. */
  lemma TrailingMarkerImportAborts()
    ensures Serialize(None, "verb", "x=arnt") == Err(AnalysisFailed("x=arnt", OutOfBounds))
  {
    assert IsToken("x=arnt");
    SplitWhitespaceToken("x=arnt");
    TrailingMarkerTokenRejected();
    FirstRejectedTokenDecides(["x=arnt"], "verb", 1, 0);
    SerializeErr(None, "verb", "x=arnt", ["x=arnt"], AnalysisFailed("x=arnt", OutOfBounds));
  }

  lemma SmallIdsText()
    ensures IntToString(6) == "6" && IntToString(7) == "7"
  {
    assert NatToString(6) == [DigitChar(6)];
    assert NatToString(7) == [DigitChar(7)];
  }

  /** Row 6 of the house/bird import: id, type, word and definition, in the
      order of the statement's column list. */
  lemma HouseRowText()
    ensures Row(Word(6, "tokurna", "house", "verb", None)) == " (6, 'verb', 'tokurna', 'house')"
  {
    SmallIdsText();
    assert " (" + "6" + ", '" + "verb" + "', '" + "tokurna" + "', '" + "house" + "')" == " (6, 'verb', 'tokurna', 'house')";
  }

  /** Row 7 of the house/bird import, in the same column order. */
  lemma BirdRowText()
    ensures Row(Word(7, "amirna", "bird", "verb", None)) == " (7, 'verb', 'amirna', 'bird')"
  {
    SmallIdsText();
    assert " (" + "7" + ", '" + "verb" + "', '" + "amirna" + "', '" + "bird" + "')" == " (7, 'verb', 'amirna', 'bird')";
  }

  /** The statement of the house/bird import, written out. */
  lemma HouseBirdStatementText()
    ensures var words := [Word(6, "tokurna", "house", "verb", None), Word(7, "amirna", "bird", "verb", None)];
            InsertStatement(words) ==
              InsertPrefix + " (6, 'verb', 'tokurna', 'house')" + "," + " (7, 'verb', 'amirna', 'bird')" + ";"
  {
    var words := [Word(6, "tokurna", "house", "verb", None), Word(7, "amirna", "bird", "verb", None)];
    HouseRowText();
    BirdRowText();
    var rows := Rows(words);
    assert rows == [Row(words[0]), Row(words[1])];
    assert Join(rows, ",") == Row(words[0]) + "," + Row(words[1]);
  }
}

/** The pure part of `tavsa_serialize`: choose the first id from the
    stored maximum, split the body into `definition=word` tokens, build one
    row per token with consecutive ids, and fold the rows into a single
    INSERT statement. The maximum-id lookup is a parameter; running the
    statement is not modelled. */
module BulkImport {
  import opened Wrappers
  import opened Strings
  import opened Decimal
  import opened Lexicon
  import opened Analyzer

  /** Why a batch is abandoned; the handler aborts on the first such token,
      so nothing of the batch is inserted. */
  datatype ImportError =
    | MalformedToken(token: string)                         // no '=', so `pair[1]` is missing
    | AnalysisFailed(token: string, error: AnalysisError)   // the etymology call aborted

  /** The text on either side of a token's first '='. */
  datatype Pair = Pair(definition: string, word: string)

  /** The outcome of a whole import: the rows and the statement inserting
      them. */
  datatype Import = Import(words: seq<Word>, query: string)

  /** The first id of the batch: one past the stored maximum, or 1 when the
      lookup fails for any reason (an empty table included). */
  function FirstIndex(lastId: Option<int>): (first: int)
    ensures lastId.Some? ==> first == lastId.value + 1
    ensures lastId.None? ==> first == 1
  {
    match lastId
    case Some(id) => id + 1
    case None => 1
  }

  /** `word.split("=")`, keeping parts 0 and 1: the definition is the text
      before the first '=', the word runs to the second '=' or the end. */
  function ParseToken(token: string): (r: Option<Pair>)
    ensures r.None? <==> '=' !in token
  {
    var parts := Split(token, '=');
    SplitParts(token, '=');
    if |parts| < 2 then None
    else
      Some(Pair(parts[0], parts[1]))
  }

  /** The definition is everything before the first '=', and the word
      everything after it up to the next '=' or the end. */
  lemma ParseTokenSides(token: string)
    requires ParseToken(token).Some?
    ensures var p := ParseToken(token).value;
            var prefix := p.definition + "=" + p.word;
            && '=' !in p.definition && '=' !in p.word
            && prefix <= token
            && (|prefix| == |token| || token[|prefix|] == '=')
  {
    SplitParts(token, '=');
    JoinPrefix(Split(token, '='), '=');
  }

  /** The first two parts of a split, rejoined, begin the original text and
      are followed by the separator unless they make up all of it. */
  lemma JoinPrefix(parts: seq<string>, sep: char)
    requires |parts| >= 2
    ensures var prefix := parts[0] + [sep] + parts[1];
            && prefix <= Join(parts, [sep])
            && (|prefix| == |Join(parts, [sep])| || Join(parts, [sep])[|prefix|] == sep)
  {
    if |parts| > 2 {
      assert Join(parts[1..], [sep]) == parts[1] + [sep] + Join(parts[2..], [sep]);
      assert Join(parts, [sep]) == parts[0] + [sep] + parts[1] + [sep] + Join(parts[2..], [sep]);
    } else {
      assert Join(parts[1..], [sep]) == parts[1];
    }
  }

  /** What the handler does with one token before building its row: split
      it, then run the etymology analysis on the raw word text. The
      analysis result itself is discarded. */
  function CheckToken(token: string, wordType: string): (r: Result<Pair, ImportError>)
    ensures r == Err(MalformedToken(token)) <==> '=' !in token
    ensures r.Ok? <==> ParseToken(token).Some? && GetWordEtymology(ParseToken(token).value.word, wordType).Ok?
    ensures r.Ok? ==> r.value == ParseToken(token).value
    ensures ParseToken(token).Some? && GetWordEtymology(ParseToken(token).value.word, wordType).Err? ==>
              r == Err(AnalysisFailed(token, GetWordEtymology(ParseToken(token).value.word, wordType).error))
  {
    match ParseToken(token)
    case None => Err(MalformedToken(token))
    case Some(p) =>
      match GetWordEtymology(p.word, wordType)
      case Err(e) => Err(AnalysisFailed(token, e))
      case Ok(_) => Ok(p)
  }

  /** Splitting undoes writing a pair as `definition=word`, when neither
      side holds an '='. */
  lemma ParseJoinedToken(definition: string, word: string)
    requires '=' !in definition && '=' !in word
    ensures ParseToken(definition + "=" + word) == Some(Pair(definition, word))
  {
    assert Join([definition, word], "=") == definition + "=" + word;
    SplitJoin([definition, word], '=');
  }

  /** A token written as `definition=word` passes exactly when its word
      analyses, and then yields its two sides; otherwise it fails with the
      analysis error. */
  lemma CheckJoinedToken(definition: string, word: string, wordType: string)
    requires '=' !in definition && '=' !in word
    ensures var token := definition + "=" + word;
            match GetWordEtymology(word, wordType)
            case Ok(_) => CheckToken(token, wordType) == Ok(Pair(definition, word))
            case Err(e) => CheckToken(token, wordType) == Err(AnalysisFailed(token, e))
  {
    ParseJoinedToken(definition, word);
  }

  /** What happens to one token before its row is built. */
  type Check = string -> Result<Pair, ImportError>

  /** The rows for `tokens[k..]`, each token first put through `check`, the
      token at index n numbered `first + n` (`index as i64 + first_index`
      over the enumeration); the first rejected token stops the batch. */
  function BuildFrom(tokens: seq<string>, wordType: string, check: Check, first: int, k: nat): (r: Result<seq<Word>, ImportError>)
    requires k <= |tokens|
    ensures r.Ok? ==> |r.value| == |tokens| - k
    decreases |tokens| - k
  {
    if k == |tokens| then Ok([])
    else
      match check(tokens[k])
      case Err(e) => Err(e)
      case Ok(p) =>
        match BuildFrom(tokens, wordType, check, first, k + 1)
        case Err(e) => Err(e)
        case Ok(rest) => Ok([Word(first + k, ToLower(p.word), ToLower(p.definition), wordType, None)] + rest)
  }

  /** The rows of a whole batch whose first id is `first`. */
  function BuildWords(tokens: seq<string>, wordType: string, first: int): (r: Result<seq<Word>, ImportError>)
    ensures r.Ok? ==> |r.value| == |tokens|
  {
    BuildFrom(tokens, wordType, t => CheckToken(t, wordType), first, 0)
  }

  /** If every token from `k` on passes, the rows from `k` on are built. */
  lemma {:induction false} AcceptedTokensBuild(tokens: seq<string>, wordType: string, check: Check, first: int, k: nat)
    requires k <= |tokens|
    requires forall n :: k <= n < |tokens| ==> check(tokens[n]).Ok?
    ensures BuildFrom(tokens, wordType, check, first, k).Ok?
    decreases |tokens| - k
  {
    if k < |tokens| {
      AcceptedTokensBuild(tokens, wordType, check, first, k + 1);
    }
  }

  /** A successful run from `k` holds, for each later token n, the row
      numbered `first + n` whose word and definition are the token's two
      sides lower-cased, with the batch's type and no etymology. */
  lemma {:induction false} BuildFromRows(tokens: seq<string>, wordType: string, check: Check, first: int, k: nat, n: nat)
    requires k <= n < |tokens|
    requires BuildFrom(tokens, wordType, check, first, k).Ok?
    ensures check(tokens[n]).Ok?
    ensures var p := check(tokens[n]).value;
            BuildFrom(tokens, wordType, check, first, k).value[n - k] ==
              Word(first + n, ToLower(p.word), ToLower(p.definition), wordType, None)
    decreases n - k
  {
    if k < n {
      BuildFromRows(tokens, wordType, check, first, k + 1, n);
    }
  }

  /** Fail-fast from `k`: the error is that of the first rejected token at
      or after `k`, whatever follows it. */
  lemma {:induction false} FirstRejectedFrom(tokens: seq<string>, wordType: string, check: Check, first: int, k: nat, n: nat)
    requires k <= n < |tokens|
    requires check(tokens[n]).Err?
    requires forall m :: k <= m < n ==> check(tokens[m]).Ok?
    ensures BuildFrom(tokens, wordType, check, first, k) == Err(check(tokens[n]).error)
    decreases n - k
  {
    if k < n {
      FirstRejectedFrom(tokens, wordType, check, first, k + 1, n);
    }
  }

  /** The position of the earliest token at or after `k` that does not
      pass. */
  ghost function FirstRejected(tokens: seq<string>, check: Check, k: nat): (n: nat)
    requires k <= |tokens|
    requires exists n :: k <= n < |tokens| && check(tokens[n]).Err?
    ensures k <= n < |tokens| && check(tokens[n]).Err?
    ensures forall m :: k <= m < n ==> check(tokens[m]).Ok?
    decreases |tokens| - k
  {
    if check(tokens[k]).Err? then k else FirstRejected(tokens, check, k + 1)
  }

  /** A successful batch holds, for the n-th token, the row numbered
      `first + n` built from that token. */
  lemma BuildWordsRows(tokens: seq<string>, wordType: string, first: int, n: nat)
    requires BuildWords(tokens, wordType, first).Ok?
    requires n < |tokens|
    ensures CheckToken(tokens[n], wordType).Ok?
    ensures var p := CheckToken(tokens[n], wordType).value;
            BuildWords(tokens, wordType, first).value[n] ==
              Word(first + n, ToLower(p.word), ToLower(p.definition), wordType, None)
  {
    BuildFromRows(tokens, wordType, t => CheckToken(t, wordType), first, 0, n);
  }

  /** Fail-fast: the batch's error is the error of its first rejected token,
      whatever follows it, so no row of the batch survives. */
  lemma FirstRejectedTokenDecides(tokens: seq<string>, wordType: string, first: int, n: nat)
    requires n < |tokens|
    requires CheckToken(tokens[n], wordType).Err?
    requires forall m :: 0 <= m < n ==> CheckToken(tokens[m], wordType).Ok?
    ensures BuildWords(tokens, wordType, first) == Err(CheckToken(tokens[n], wordType).error)
  {
    FirstRejectedFrom(tokens, wordType, t => CheckToken(t, wordType), first, 0, n);
  }

  /** A batch succeeds exactly when every one of its tokens passes. */
  lemma BuildWordsSucceedsIff(tokens: seq<string>, wordType: string, first: int)
    ensures BuildWords(tokens, wordType, first).Ok? <==>
            forall n :: 0 <= n < |tokens| ==> CheckToken(tokens[n], wordType).Ok?
  {
    var check: Check := t => CheckToken(t, wordType);
    if forall n :: 0 <= n < |tokens| ==> CheckToken(tokens[n], wordType).Ok? {
      AcceptedTokensBuild(tokens, wordType, check, first, 0);
    } else {
      var n := FirstRejected(tokens, check, 0);
      FirstRejectedFrom(tokens, wordType, check, first, 0, n);
    }
  }

  /** The statement's fixed head. */
  const InsertPrefix: string := "INSERT INTO tavsa (id, type, word, definition) VALUES"

  /** One row's tuple, ` (id, 'type', 'word', 'definition')`. The values are
      pasted in unescaped. */
  function Row(w: Word): (r: string)
    ensures var id := IntToString(w.id);
            && |r| >= |id| + 4
            && r[..2] == " (" && r[2..2 + |id|] == id
            && r[|r| - 2..] == "')"
  {
    " (" + IntToString(w.id) + ", '" + w.wordType + "', '" + w.word + "', '" + w.definition + "')"
  }

  /** An id's text is a sign and digits, so it never holds a quote. */
  lemma IdHasNoQuote(n: int)
    ensures '\'' !in IntToString(n)
  {
    var id := IntToString(n);
    if n < 0 {
      assert id == [id[0]] + id[1..];
    }
  }

  /** A row read back at its quotes: when no value holds a quote, splitting
      the tuple at `'` gives the id's text, then the type, the word and the
      definition, in the order of the column list, each as given. */
  lemma RowFields(w: Word)
    requires '\'' !in w.wordType && '\'' !in w.word && '\'' !in w.definition
    ensures Split(Row(w), '\'') == [" (" + IntToString(w.id) + ", ", w.wordType, ", ", w.word, ", ", w.definition, ")"]
  {
    var parts := [" (" + IntToString(w.id) + ", ", w.wordType, ", ", w.word, ", ", w.definition, ")"];
    assert forall k :: 0 <= k < |parts| ==> '\'' !in parts[k] by {
      IdHasNoQuote(w.id);
    }
    assert Join(parts, "'") == Row(w) by {
      JoinSeven(parts, "'");
    }
    SplitJoin(parts, '\'');
  }

  function Rows(ws: seq<Word>): (rs: seq<string>)
    ensures |rs| == |ws|
    ensures forall k :: 0 <= k < |ws| ==> rs[k] == Row(ws[k])
  {
    seq(|ws|, k requires 0 <= k < |ws| => Row(ws[k]))
  }

  /** The handler's fold: append each row and a comma to the accumulator. */
  function FoldRows(acc: string, ws: seq<Word>): string
    decreases |ws|
  {
    if |ws| == 0 then acc else FoldRows(acc + Row(ws[0]) + ",", ws[1..])
  }

  /** The statement as the handler builds it: the fold, `pop` of its last
      character, then ";". */
  function BuildQuery(ws: seq<Word>): (q: string)
    ensures InsertPrefix[..|InsertPrefix| - 1] <= q
    ensures q[|q| - 1] == ';'
  {
    var folded := FoldRows(InsertPrefix, ws);
    FoldRowsExtends(InsertPrefix, ws);
    folded[..|folded| - 1] + ";"
  }

  /** The statement as it is meant to read: the head, the rows separated by
      commas, then ";". With no rows, `pop` eats the final 'S' of VALUES
      instead of a comma. */
  function InsertStatement(ws: seq<Word>): string
  {
    if |ws| == 0 then "INSERT INTO tavsa (id, type, word, definition) VALUE;"
    else InsertPrefix + Join(Rows(ws), ",") + ";"
  }

  /** Each row followed by a comma, concatenated. */
  function Terminated(ws: seq<Word>): string
    decreases |ws|
  {
    if |ws| == 0 then "" else Row(ws[0]) + "," + Terminated(ws[1..])
  }

  lemma {:induction false} FoldRowsExtends(acc: string, ws: seq<Word>)
    ensures FoldRows(acc, ws) == acc + Terminated(ws)
    decreases |ws|
  {
    if |ws| > 0 {
      FoldRowsExtends(acc + Row(ws[0]) + ",", ws[1..]);
    }
  }

  lemma {:induction false} TerminatedIsJoin(ws: seq<Word>)
    requires |ws| > 0
    ensures Terminated(ws) == Join(Rows(ws), ",") + ","
    decreases |ws|
  {
    if |ws| > 1 {
      TerminatedIsJoin(ws[1..]);
      assert Rows(ws)[1..] == Rows(ws[1..]);
    }
  }

  /** The fold-then-pop construction yields the intended statement: one
      tuple per row in input order, comma-separated, ";" at the end. */
  lemma BuildQueryIsInsertStatement(ws: seq<Word>)
    ensures BuildQuery(ws) == InsertStatement(ws)
  {
    FoldRowsExtends(InsertPrefix, ws);
    if |ws| > 0 {
      TerminatedIsJoin(ws);
      var j := Join(Rows(ws), ",");
      assert FoldRows(InsertPrefix, ws) == (InsertPrefix + j) + ",";
    }
  }

  /** `tavsa_serialize` up to the execution of the statement. */
  function Serialize(lastId: Option<int>, wordType: string, body: string): (r: Result<Import, ImportError>)
    ensures var tokens := SplitWhitespace(body);
            r.Ok? <==> forall n :: 0 <= n < |tokens| ==> CheckToken(tokens[n], wordType).Ok?
    ensures r.Ok? ==> |r.value.words| == |SplitWhitespace(body)|
    ensures r.Ok? ==> forall n :: 0 <= n < |r.value.words| ==> r.value.words[n].id == FirstIndex(lastId) + n
    ensures r.Ok? ==> forall i, j :: 0 <= i < j < |r.value.words| ==> r.value.words[i].id < r.value.words[j].id
    ensures r.Ok? ==> forall w :: w in r.value.words ==> w.wordType == wordType && w.etymology.None?
    ensures r.Ok? ==> r.value.query == InsertStatement(r.value.words)
    ensures r.Err? ==> BuildWords(SplitWhitespace(body), wordType, FirstIndex(lastId)) == Err(r.error)
  {
    var tokens := SplitWhitespace(body);
    BuildWordsSucceedsIff(tokens, wordType, FirstIndex(lastId));
    match BuildWords(tokens, wordType, FirstIndex(lastId))
    case Err(e) => Err(e)
    case Ok(words) =>
      assert forall n :: 0 <= n < |words| ==>
          words[n].id == FirstIndex(lastId) + n && words[n].wordType == wordType && words[n].etymology.None? by {
        forall n | 0 <= n < |words|
          ensures words[n].id == FirstIndex(lastId) + n && words[n].wordType == wordType && words[n].etymology.None?
        {
          BuildWordsRows(tokens, wordType, FirstIndex(lastId), n);
        }
      }
      BuildQueryIsInsertStatement(words);
      Ok(Import(words, BuildQuery(words)))
  }

  /** The n-th row of a successful import is built from the n-th token:
      its id is `FirstIndex(lastId) + n`, its word and definition are the
      token's sides around the first '=', lower-cased. */
  lemma SerializeRows(lastId: Option<int>, wordType: string, body: string, n: nat)
    requires Serialize(lastId, wordType, body).Ok?
    requires n < |SplitWhitespace(body)|
    ensures var token := SplitWhitespace(body)[n];
            && ParseToken(token).Some?
            && var p := ParseToken(token).value;
               Serialize(lastId, wordType, body).value.words[n] ==
                 Word(FirstIndex(lastId) + n, ToLower(p.word), ToLower(p.definition), wordType, None)
  {
    var tokens := SplitWhitespace(body);
    BuildWordsSucceedsIff(tokens, wordType, FirstIndex(lastId));
    BuildWordsRows(tokens, wordType, FirstIndex(lastId), n);
  }

  /** New ids lie above the stored maximum the import started from. */
  lemma IdsAboveStoredMaximum(lastId: Option<int>, wordType: string, body: string)
    requires Serialize(lastId, wordType, body).Ok?
    ensures forall w :: w in Serialize(lastId, wordType, body).value.words ==> w.id >= FirstIndex(lastId)
    ensures lastId.Some? ==>
              forall w :: w in Serialize(lastId, wordType, body).value.words ==> w.id > lastId.value
  {
    var words := Serialize(lastId, wordType, body).value.words;
    forall w | w in words
      ensures w.id >= FirstIndex(lastId)
    {
      var n :| 0 <= n < |words| && words[n] == w;
    }
  }

  /** An empty body succeeds for any type, since no token ever reaches the
      analysis, and yields no rows and the statement cut to "VALUE;". */
  lemma EmptyImport(lastId: Option<int>, wordType: string, body: string)
    requires SplitWhitespace(body) == []
    ensures Serialize(lastId, wordType, body) ==
            Ok(Import([], "INSERT INTO tavsa (id, type, word, definition) VALUE;"))
  {
    BuildQueryIsInsertStatement([]);
  }

  /** The type is not checked: a non-empty import of anything but verbs
      aborts at its first token, in the analysis when the token has '=' and
      at the split otherwise. */
  lemma NonVerbImportAborts(lastId: Option<int>, wordType: string, body: string)
    requires wordType != Verb.Name()
    requires |SplitWhitespace(body)| > 0
    ensures var t := SplitWhitespace(body)[0];
            Serialize(lastId, wordType, body) ==
              Err(if '=' in t then AnalysisFailed(t, NotImplemented) else MalformedToken(t))
  {
    var tokens := SplitWhitespace(body);
    var t := tokens[0];
    assert CheckToken(t, wordType).Err?;
    FirstRejectedTokenDecides(tokens, wordType, FirstIndex(lastId), 0);
  }

  /** An import's outcome is that of building its rows, with the statement
      added on success. */
  lemma SerializeOk(lastId: Option<int>, wordType: string, body: string, tokens: seq<string>, words: seq<Word>)
    requires SplitWhitespace(body) == tokens
    requires BuildWords(tokens, wordType, FirstIndex(lastId)) == Ok(words)
    ensures Serialize(lastId, wordType, body) == Ok(Import(words, InsertStatement(words)))
  {
  }

  /** A rejected import fails with the error of building its rows, which
      `FirstRejectedTokenDecides` names as that of the first failing
      token. */
  lemma SerializeErr(lastId: Option<int>, wordType: string, body: string, tokens: seq<string>, e: ImportError)
    requires SplitWhitespace(body) == tokens
    requires BuildWords(tokens, wordType, FirstIndex(lastId)) == Err(e)
    ensures Serialize(lastId, wordType, body) == Err(e)
  {
  }

  /** The row of a one-token batch whose token passes. */
  lemma OneRow(t: string, wordType: string, first: int, p: Pair)
    requires CheckToken(t, wordType) == Ok(p)
    ensures BuildWords([t], wordType, first) ==
            Ok([Word(first, ToLower(p.word), ToLower(p.definition), wordType, None)])
  {
    var tokens := [t];
    assert forall n :: 0 <= n < |tokens| ==> CheckToken(tokens[n], wordType).Ok?;
    BuildWordsSucceedsIff(tokens, wordType, first);
    BuildWordsRows(tokens, wordType, first, 0);
    var rows := BuildWords(tokens, wordType, first).value;
    assert rows == [rows[0]];
  }

  /** The rows of a two-token batch whose tokens both pass. */
  lemma TwoRows(t1: string, t2: string, wordType: string, first: int, p1: Pair, p2: Pair)
    requires CheckToken(t1, wordType) == Ok(p1)
    requires CheckToken(t2, wordType) == Ok(p2)
    ensures BuildWords([t1, t2], wordType, first) ==
            Ok([Word(first, ToLower(p1.word), ToLower(p1.definition), wordType, None),
                Word(first + 1, ToLower(p2.word), ToLower(p2.definition), wordType, None)])
  {
    var tokens := [t1, t2];
    assert forall n :: 0 <= n < |tokens| ==> CheckToken(tokens[n], wordType).Ok?;
    BuildWordsSucceedsIff(tokens, wordType, first);
    BuildWordsRows(tokens, wordType, first, 0);
    BuildWordsRows(tokens, wordType, first, 1);
    var rows := BuildWords(tokens, wordType, first).value;
    assert rows == [rows[0], rows[1]];
  }

  /** An import of a body that splits into two passing tokens whose sides
      are already lower-case. */
  lemma TwoTokenImport(lastId: Option<int>, wordType: string, body: string, t1: string, t2: string,
                       d1: string, w1: string, d2: string, w2: string)
    requires SplitWhitespace(body) == [t1, t2]
    requires CheckToken(t1, wordType) == Ok(Pair(d1, w1))
    requires CheckToken(t2, wordType) == Ok(Pair(d2, w2))
    requires ToLower(d1) == d1 && ToLower(w1) == w1 && ToLower(d2) == d2 && ToLower(w2) == w2
    ensures var first := FirstIndex(lastId);
            var words := [Word(first, w1, d1, wordType, None), Word(first + 1, w2, d2, wordType, None)];
            Serialize(lastId, wordType, body) == Ok(Import(words, InsertStatement(words)))
  {
    var first := FirstIndex(lastId);
    TwoRows(t1, t2, wordType, first, Pair(d1, w1), Pair(d2, w2));
    var words := [Word(first, w1, d1, wordType, None), Word(first + 1, w2, d2, wordType, None)];
    SerializeOk(lastId, wordType, body, [t1, t2], words);
  }
}

# Lexicon entry pipeline of the tavsa dictionary server

The server keeps a dictionary of a constructed language. Each entry has a
type (`noun`, `verb` or `amuini`), a spelling and a definition. This
project models the three pieces of the request handlers that hold real
logic, once the web framework and the database are taken away:

- **Single add** (`tavsa_add`). Every field must be non-empty. The `auto`
  directive becomes `verb` when the word contains `"rn"`. The type must be
  one of `WORD_TYPES`. The model stops where the SQL insert would run
  (module `Validation`).
- **Etymology** (`get_word_etymology`). A verb splits into a root (the
  lexeme: the text before the first `"rn"`) and two 2-character morphemes.
  The subject starts at the first `t`, or at the first `d` if there is no
  `t`. The `ci` morpheme works the same way with `k` and `g`. The source
  panics in two places: a slice that runs past the word's end, and
  `todo!()` for every type but `verb`. Both are `Err` values here
  (module `Analyzer`).
- **Bulk import** (`tavsa_serialize`). The first id is one past the stored
  maximum, or 1 when the lookup fails. The body is split on whitespace.
  Each `definition=word` token becomes a row with the next id and
  lower-cased text. The rows are folded into one `INSERT` statement
  (module `BulkImport`). The stored maximum is a parameter
  (`Option<int>`). The model produces the rows and the statement text but
  does not run it.

Supporting modules: `Wrappers` (`Option`, `Result`), `Strings` (the
`str` methods the handlers use), `Decimal` (how an `i64` is written into
the statement), `Lexicon` (the entities) and `Scenarios` (what the modelled handlers return on sample entries).

Strings are ASCII. A `char` stands for a byte, so Rust's byte indices are
sequence indices, `to_lowercase` is ASCII lower-casing, and
`split_whitespace` splits on ASCII whitespace: tab, line feed, vertical
tab, form feed, carriage return and space.

The handler behaves as follows on these inputs, and the model does the same:

- A token may contain more than one `=`. The parts after the second `=`
  are dropped; the token is not rejected as malformed.
- The first id falls back to 1 when the lookup fails for any reason, not
  only when the table is empty.
- Bulk import checks neither the type nor the fields. A token `house=`
  stores an empty word. With any type other than `verb`, a non-empty body
  aborts at its first token: in the analysis if that token has an `=`, and
  as malformed otherwise.
- The etymology is computed from the token's raw word, before
  lower-casing, and is then thrown away. Every stored row has no
  etymology.
- With no tokens, `pop` removes the final `S` of `VALUES`, so the
  statement ends in `VALUE;`. No analysis runs, so the pure part completes
  for every type. That text is not valid SQL: the handler's `.unwrap()`
  on running it panics, which is outside this model (see "## Left out").

Values are pasted into the statement without escaping, as in the source.
A value that holds a quote therefore ends its SQL string early;
`BulkImport.RowFields` reads a tuple back only when no value does.

## Model

| member | source | states |
|---|---|---|
| `Strings.Find` | src/main.rs:187 | `str::find` returns an index where the pattern occurs, with no occurrence before it; it returns `None` exactly when the pattern occurs nowhere |
| `Strings.Contains` | src/main.rs:101 | `str::contains` is true exactly when the pattern occurs at some index |
| `Strings.FindChar` | src/main.rs:189-190 | searching for a one-letter pattern gives the first position of that letter, and fails exactly when the letter is absent |
| `Strings.Split` | src/main.rs:148 | `split("=")` always yields at least one piece, even for an empty token |
| `Strings.SplitParts` | src/main.rs:148 | `split("=")` gives pieces that hold no `=` and that rebuild the token when joined with `=`; there are at least two pieces exactly when the token has an `=` |
| `Strings.SplitJoin` | src/main.rs:148 | splitting undoes joining when no part holds the separator, so the split pieces are determined |
| `Strings.ToLower` | src/main.rs:154-155 | lower-casing keeps the length, leaves no upper-case letter, keeps every other character, and shifts each upper-case letter to its lower-case form |
| `Strings.ToLowerIdempotent` | src/main.rs:154-155 | lower-casing already lower-cased text changes nothing |
| `Strings.SplitWhitespace` | src/main.rs:146 | every token from `split_whitespace` is non-empty and contains no whitespace |
| `Strings.SplitWhitespaceKeepsText` | src/main.rs:146 | the tokens, concatenated, are the body with only its whitespace removed |
| `Strings.SplitWhitespaceJoin` | src/main.rs:146 | splitting tokens joined with single spaces gives back exactly those tokens |
| `Strings.SplitWhitespaceToken` | src/main.rs:146 | a body that is one token splits into exactly that token |
| `Strings.SplitWhitespaceSkip` | src/main.rs:146 | leading whitespace of any kind and length is dropped |
| `Strings.SplitWhitespaceAppend` | src/main.rs:146 | any non-empty run of whitespace (spaces, tabs, newlines, repeated) separates tokens: splitting across it is splitting each side and concatenating, so with the two lemmas above the tokens of every body are fixed |
| `Decimal.IntToString` | src/main.rs:164-166 | an id is written as digits, with a leading `-` exactly when it is negative, and with no leading zero (only 0 itself starts with `0`) |
| `Decimal.IntToStringRoundTrip` | src/main.rs:164-166 | each id written into the statement reads back as the same number |
| `Lexicon.ParseWordType` | src/main.rs:108 | a type text is recognised exactly when it is listed in `WORD_TYPES`, and as the class of that name |
| `Lexicon.NameRoundTrip` | src/main.rs:18 | each of the three classes has a listed name, and that name reads back as the same class |
| `Validation.Validate` | src/main.rs:95-110 | "Missing fields" exactly when a field is empty. "Invalid word type" exactly when all fields are present and either `auto` meets a word without `"rn"` or the type is not listed. On success the word and definition are unchanged, the type is listed, `auto` becomes `verb`, and any other type is kept as given |
| `Validation.MissingFieldsFirst` | src/main.rs:95-97 | an empty word or definition gives "Missing fields", whatever the type text is |
| `Validation.AutoResolvesToVerb` | src/main.rs:100-106 | with all fields present, `auto` is accepted exactly when the word contains `"rn"`, and always as a verb |
| `Validation.ListedTypesAccepted` | src/main.rs:108-110 | naming any of the three classes, with a non-empty word and definition, gives that class and the fields unchanged |
| `Analyzer.MarkerIndex` | src/main.rs:189 | `find(t).or(find(d))` is empty exactly when neither letter occurs; otherwise it is the first `t`, or the first `d` when there is no `t` |
| `Analyzer.Morpheme` | src/main.rs:189-190 | one morpheme slot can fail only with `OutOfBounds` |
| `Analyzer.MorphemeSpec` | src/main.rs:189-190 | a morpheme slot is empty exactly when neither letter occurs, fails exactly when its marker is the last character, and otherwise holds the two characters starting at the marker |
| `Analyzer.GetWordEtymology` | src/main.rs:184-206 | the result is `NotImplemented` exactly when the type is not `verb`; for a verb the result is "no decomposition" exactly when the word has no `"rn"` |
| `Analyzer.EtymologyOutOfBounds` | src/main.rs:187-190 | a verb's analysis fails exactly when the word has `"rn"` and its subject or `ci` marker is the last character, and it then fails with `OutOfBounds` |
| `Analyzer.EtymologyLexeme` | src/main.rs:187-196 | the lexeme is the word's prefix that ends at the first `"rn"`, and `modifiers` is empty |
| `Analyzer.EtymologyMorphemes` | src/main.rs:189-190 | the subject is missing exactly when the word has neither `t` nor `d`; otherwise it is the two characters at the first `t` (a `t` wins over an earlier `d`) or at the first `d`. The same holds for `ci` with `k` and `g` |
| `Analyzer.LexemeBeforeFirstMarker` | src/main.rs:187-188 | the lexeme followed by `"rn"` is a prefix of the word, and the lexeme itself contains no `"rn"` |
| `BulkImport.FirstIndex` | src/main.rs:138-144 | the first id is exactly one past the stored maximum when the lookup succeeds, and 1 when it fails |
| `BulkImport.ParseToken` | src/main.rs:148-150 | a token gives no pair (the `pair[1]` panic) exactly when it has no `=` |
| `BulkImport.ParseTokenSides` | src/main.rs:148-155 | the definition is the text before the first `=`; the word runs from there to the next `=` or to the end; neither holds an `=` |
| `BulkImport.ParseJoinedToken` | src/main.rs:148 | splitting a token written as `definition=word`, with no `=` on either side, gives back that definition and word |
| `BulkImport.CheckToken` | src/main.rs:148-150 | a token is rejected as malformed exactly when it has no `=`; it passes exactly when it splits and the etymology of its raw word succeeds, and then yields its two sides; when the analysis fails, the token fails with that analysis error |
| `BulkImport.CheckJoinedToken` | src/main.rs:148-150 | a token `definition=word` passes with exactly those sides when the word analyses, and otherwise fails with the analysis error |
| `BulkImport.BuildFrom` | src/main.rs:147-159 | building from position k onwards, a success has one row for each token from k on |
| `BulkImport.BuildWords` | src/main.rs:147-159 | a successful batch has one row per token |
| `BulkImport.BuildWordsRows` | src/main.rs:147-157 | the n-th row has id `first + n`, the n-th token's word and definition lower-cased, the batch's type, and no etymology |
| `BulkImport.BuildWordsSucceedsIff` | src/main.rs:147-159 | a batch succeeds exactly when every token can be split and analysed |
| `BulkImport.FirstRejectedTokenDecides` | src/main.rs:147-161 | a batch fails with the error of its first rejected token, whatever follows that token, so no row is kept |
| `BulkImport.Row` | src/main.rs:164-166 | a tuple opens with ` (` and the id as `IntToString` writes it, and closes with `')` |
| `BulkImport.RowFields` | src/main.rs:164-166 | when no value holds a quote, splitting a tuple at `'` gives back ` (`, the id and `, `, then the type, the word and the definition exactly as given, in the order of the column list, separated by `, ` and closed by `)`: each value is pasted in, quoted and unescaped |
| `BulkImport.BuildQuery` | src/main.rs:161-172 | the fold-then-`pop` statement starts with the head less its final `S` and ends in `;` |
| `BulkImport.BuildQueryIsInsertStatement` | src/main.rs:161-172 | with rows, the fold-then-`pop` statement is the fixed head, one tuple per row in input order separated by commas, then `;`. With no rows it is the head without its final `S`, then `;` |
| `BulkImport.Serialize` | src/main.rs:138-172 | an import succeeds exactly when every token passes. It then has one row per token, ids `first + n` that strictly increase in input order, the request's type and no etymology on every row, and the statement for those rows. A rejected import fails with the error of building its rows |
| `BulkImport.SerializeRows` | src/main.rs:146-157 | the n-th row of an import comes from the n-th whitespace token, with its id and its lower-cased sides |
| `BulkImport.IdsAboveStoredMaximum` | src/main.rs:138-153 | every new id is at least the first id and above the stored maximum the import started from |
| `BulkImport.EmptyImport` | src/main.rs:146-172 | a body with no tokens succeeds for any type, with no rows and the statement ending in `VALUE;` |
| `BulkImport.NonVerbImportAborts` | src/main.rs:202-204 | any type but `verb` aborts a non-empty import at its first token: `NotImplemented` if it has an `=`, malformed otherwise |
| `Scenarios.KatrnaDecomposes` | src/main.rs:184-197 | `katrna` as a verb has lexeme `kat`, subject `tr`, `ci` `ka`, and no modifiers |
| `Scenarios.TrailingMarkerOutOfBounds` | src/main.rs:189 | `arnt`, whose only `t` is its last character, aborts with `OutOfBounds` |
| `Scenarios.AutoExamples` | src/main.rs:100-110 | `auto` with `zint` is refused as an invalid type; `auto` with `katrna` becomes a verb entry |
| `Analyzer.VerbEndingInOtherLetter` | src/main.rs:187-197 | a verb that is empty or does not end in `t`, `d`, `k` or `g` analyses without error |
| `Scenarios.HouseBirdImport` | src/main.rs:138-172 | with a stored maximum of 5, the body `house=tokurna bird=amirna` as verbs gives rows 6 (`tokurna`, `house`) and 7 (`amirna`, `bird`) in that order, and their statement |
| `Scenarios.HouseRowText` | src/main.rs:164-166 | row 6 of the house/bird import is written as ` (6, 'verb', 'tokurna', 'house')`: id, type, word, definition, in the order of the column list |
| `Scenarios.BirdRowText` | src/main.rs:164-166 | row 7 of the house/bird import is written as ` (7, 'verb', 'amirna', 'bird')` |
| `Scenarios.HouseBirdStatementText` | src/main.rs:161-172 | the house/bird statement is the head, the two tuples joined by `,`, then `;` |
| `Scenarios.TrailingMarkerImportAborts` | src/main.rs:147-150 | the verb token `x=arnt` aborts the import with `OutOfBounds` from its analysis |
| `Scenarios.MissingSeparatorAborts` | src/main.rs:146-150 | the body `birdamirna` fails the whole import as a malformed token |
| `Scenarios.EmptyWordImported` | src/main.rs:148-157 | a lone token `definition=` is stored as row 1 with an empty word |

## Left out

- The router, `main`, the server binding and tracing (src/main.rs:27-57): I/O plumbing.
- The `tavsa` and `game` handlers and the `static_handler` module (src/main.rs:59-69, 253-263): they only serve files.
- Every database call: the insert of `tavsa_add`, the max-id query (a parameter here), running the bulk statement and its `unwrap`, `tavsa_delete`, and the listing of `get_words`/`tavsa_dict`. `Validation.Validate` returns the entry that would be inserted. `BulkImport.Serialize` returns the rows and the statement text.
- The HTML rendering of the listing and `DELETE_COMPONENT` (src/main.rs:232-251): presentation only.
- Two concurrent imports can read the same maximum id and insert clashing ids. That race lives in the store, outside the pure logic.
- The `debug!` logging of each split token.
- `BulkImport.FirstIndex`: ids are unbounded integers. The 64-bit overflow of `row.id + 1` and `index as i64 + first_index` is not modelled.
- `Strings.ToLower`: ASCII only. Rust's Unicode lower-casing of other characters is not modelled.
- `Strings.SplitWhitespace`: splits on ASCII whitespace only. Non-ASCII whitespace that Rust also splits on is not modelled.
- `Analyzer.Morpheme`: the slice panic on a non-ASCII character boundary cannot happen under the ASCII assumption, so it is not modelled.
- All panics become error values, so the model does not say which panic message a request would show. An import stops at the first rejected token, which is the one whose panic ends the handler.

# Doctors' service book: row-to-document ingestion

A model of the ingestion script `load_2_elastic.py`. The script reads the
rows of a spreadsheet of doctors and does four things for each row:

- it builds one text from the row;
- it asks an inference endpoint for that text's embedding;
- it skips the row when no embedding comes back;
- otherwise it builds a document from the row's cells and submits it to a
  search index, whatever the index answers.

The model is written in four files:

- `wrappers.dfy`: the `Option` type. It models a missing spreadsheet cell
  (pandas' NaN) and Python's `None`.
- `pytext.dfy` (module `PyText`): the Python string operations the script
  relies on. These are `str.strip()` with Python's whitespace set, and the
  f-string that joins parts with single spaces. It also has `split(" ")`,
  which is a left inverse of the join on parts without spaces, and which
  the join undoes on every string.
- `row_to_document.dfy` (module `RowToDocument`): a row of cells, the
  values composed from it, the street address, the embedding text,
  `parse_phones`, `generate_embedding` and the document. All of these are
  pure functions, with lemmas about them.
- `ingestion.dfy` (module `Ingestion`): the loop over the rows. It is a
  method `Ingest` that appends each index call to a `submitted` sequence
  and each printed message to a `log`. The method is proved equal to the
  specification functions `Submitted` and `Log`, and the lemmas state what
  those two functions guarantee.

The remote calls and the foreign parser are function parameters, grouped
in `Ingestion.Services`:

- `infer(i)(model_id, text)` is the inference endpoint's answer to the
  call made for row `i`. It either raises or returns a list of inference
  results.
- `literalEval(text)` is `ast.literal_eval`. It returns `None` when the
  call raises.
- `index(i)` is the answer to the index call for row `i`. It either raises
  or returns an answer whose `_id` is missing, null, or a text.

Each row makes at most one inference call and at most one index call, so
answers keyed by the row's position can stand for any answers the services
give. In particular two rows with the same text can get different
inference answers, as they can from a live endpoint.

A cell is `None` when it is missing. Otherwise it holds the cell's text,
`str(cell)`. The embedding vector is a `seq<real>` that is only passed
along, never computed with.

Two facts about the script shape the model:

- The embedding text has seven parts; the last is the stripped
  `street_address`, not the street and the house number as separate parts
  (`load_2_elastic.py:84,94`).
- The index mapping declares 384 dimensions for the embedding. The script
  never checks the vector's length; the server does.

## Model

| member | source | states |
|---|---|---|
| `PyText.StripStartSpec` | load_2_elastic.py:84 | removing leading whitespace leaves the suffix that starts at the first non-whitespace character |
| `PyText.StripEndSpec` | load_2_elastic.py:84 | removing trailing whitespace leaves the prefix that ends at the last non-whitespace character |
| `PyText.StripTrims` | load_2_elastic.py:84 | `strip()` output has no whitespace at either end, and it is "" exactly when the input is all whitespace |
| `PyText.StripUnique` | load_2_elastic.py:84 | any trimmed slice with only whitespace outside it equals `strip()`'s output, which pins `strip` down completely |
| `PyText.StripIdempotent` | load_2_elastic.py:84 | stripping twice gives the same result as stripping once |
| `PyText.JoinWithSpacesCounts` | load_2_elastic.py:94 | joining n parts adds n - 1 characters, and every added character is a space |
| `PyText.SplitJoin` | load_2_elastic.py:94 | splitting on spaces gives back the joined parts when no part contains a space |
| `PyText.JoinSplit` | load_2_elastic.py:94 | joining the pieces of a split gives back any string |
| `PyText.SplitJoinLeading` | load_2_elastic.py:94 | when every part but the last is free of spaces, splitting the join gives those parts back followed by the split of the last part |
| `PyText.JoinInjective` | load_2_elastic.py:94 | two joins of equally many parts, all but the last free of spaces, are equal only when the parts are |
| `RowToDocument.NoneIfEmptyRoundTrip` | load_2_elastic.py:105-114 | the empty-to-null mapping loses nothing that `OrEmpty` needs; only a present empty cell is not recovered |
| `RowToDocument.MissingCellsBecomeEmpty` | load_2_elastic.py:82-92 | for each of the eight composed columns, a missing cell becomes "" and a present cell keeps its text |
| `RowToDocument.StreetAddressShape` | load_2_elastic.py:84 | the street address is "" exactly when street and house number are both all whitespace (both missing included), and it is trimmed |
| `RowToDocument.StreetAddressOfTrimmed` | load_2_elastic.py:84 | for trimmed parts the address is street, a space and house number, or just the part that is present |
| `RowToDocument.EmbeddingTextShape` | load_2_elastic.py:94 | the embedding text is the seven parts in the script's order, each pair separated by one space, with nothing stripped |
| `RowToDocument.EmbeddingTextSeparators` | load_2_elastic.py:94 | the text is 6 characters longer than its parts together and always holds at least 6 spaces, even when fields are empty |
| `RowToDocument.EmbeddingTextDeterminesParts` | load_2_elastic.py:94 | when no part contains a space, the seven parts can be recovered from the text |
| `RowToDocument.EmbeddingTextDeterminesFields` | load_2_elastic.py:84-94 | when the six parts before the street address hold no space, the first six pieces of the split text are those parts and the street address, spaces included, is everything after the sixth space |
| `RowToDocument.EmbeddingTextInjective` | load_2_elastic.py:84-94 | under that condition, two rows' composed values with the same embedding text agree on all seven parts |
| `RowToDocument.EmbeddingTextExample` | load_2_elastic.py:82-94 | a row with only first name, last name and city gives "דנה כהן    תל אביב " |
| `RowToDocument.ParsePhonesCases` | load_2_elastic.py:50-58 | a missing cell gives [], a failed literal evaluation gives [], and otherwise the evaluated list is returned unchanged |
| `RowToDocument.DocumentFields` | load_2_elastic.py:104-116 | each of the eight text fields is null exactly when its composed value is "", and otherwise holds that value; the license number is null exactly when its cell is missing; phones are parsed; the embedding is the one given |
| `RowToDocument.EmptyLicenseIsKept` | load_2_elastic.py:107 | a present but empty license number is stored as "", while an empty first name is stored as null |
| `RowToDocument.DocumentRestoresText` | load_2_elastic.py:94-116 | the embedding text can be recomputed from the stored document |
| `RowToDocument.GenerateEmbeddingCases` | load_2_elastic.py:60-70 | an embedding is returned exactly when the first inference result holds a vector, and it is that vector; every exception ends in `None` |
| `Ingestion.Ingest` | load_2_elastic.py:80-124 | the loop's index calls and printed messages are exactly `Submitted` and `Log` of the rows |
| `Ingestion.SubmittedAtMostRows` | load_2_elastic.py:99-101 | there are never more index calls than rows |
| `Ingestion.SubmittedSound` | load_2_elastic.py:97-120 | every index call belongs to a row that got an embedding and carries that row's document with exactly the generated embedding; calls follow row order |
| `Ingestion.SubmittedComplete` | load_2_elastic.py:97-120 | every row that gets an embedding is submitted |
| `Ingestion.SubmittedIgnoresIndexing` | load_2_elastic.py:119-124 | the index calls made do not depend on what the index answers, so a failed call does not stop the rows after it |
| `Ingestion.LogIndexErrors` | load_2_elastic.py:119-124 | an index error is printed for row i exactly when row i was submitted and its index call raised or its answer had no `_id` key |
| `Ingestion.LogMissingIds` | load_2_elastic.py:119-122 | the missing-id warning is printed for row i exactly when row i was submitted and its answer's `_id` is null or "" |
| `Ingestion.RowEventsIndexError` | load_2_elastic.py:119-124 | the messages for row j name row i as an index error only when i = j, and then exactly when the row was submitted and its index call failed |
| `Ingestion.RowEventsMissingId` | load_2_elastic.py:119-122 | the messages for row j name row i as missing its id only when i = j, and then exactly when the row was submitted and its `_id` is null or "" |
| `Ingestion.RowEventsEmbeddingError` | load_2_elastic.py:60-70 | a row's messages hold one embedding error exactly when its inference call raised (or gave no result), and none otherwise |
| `Ingestion.RowEventsPhoneParseError` | load_2_elastic.py:50-58 | a row's messages hold one phone parse error exactly when the row got an embedding and its phone cell does not evaluate, and none otherwise; a skipped row's phones are never parsed |
| `Ingestion.LogEmbeddingErrors` | load_2_elastic.py:60-70 | the log holds one embedding error per row whose inference call raised, so one appears exactly when some row's call raised |
| `Ingestion.LogPhoneParseErrors` | load_2_elastic.py:50-58 | the log holds one phone parse error per submitted row whose phone cell does not evaluate, so one appears exactly when such a row exists |
| `Ingestion.RaisedRowsPositive` | load_2_elastic.py:60-70 | the count of rows whose inference call raised is positive exactly when such a row exists |
| `Ingestion.PhoneFailureRowsPositive` | load_2_elastic.py:50-58 | the count of submitted rows whose phone cell does not evaluate is positive exactly when such a row exists |
| `Ingestion.EveryRowSubmittedOrSkipped` | load_2_elastic.py:99-101 | the number of skip messages plus the number of index calls equals the number of rows |
| `Ingestion.RowEventsSkipped` | load_2_elastic.py:99-101 | a row's messages contain a skip with text t exactly when the row has no embedding and t is its embedding text |
| `Ingestion.LogSkippedSound` | load_2_elastic.py:99-101 | every skip message belongs to a row that has no embedding and whose text it carries |
| `Ingestion.LogSkippedComplete` | load_2_elastic.py:99-101 | every row without an embedding has its skip message, with its text, in the log |
| `Ingestion.LogSkipped` | load_2_elastic.py:99-101 | a skip message with text t is printed exactly when some row has no embedding and t is that row's text |
| `Ingestion.RowSubmittedOrSkipped` | load_2_elastic.py:97-120 | row i gets an index call exactly when it has an embedding, and otherwise its skip is reported, so no row is both |
| `Ingestion.AllEmbeddedAllSubmitted` | load_2_elastic.py:80-120 | when every row gets an embedding, row k is the k-th index call, for every row |
| `Ingestion.ThreeRowsExample` | load_2_elastic.py:80-124 | with three embedded rows, one of which has a phone list that does not evaluate, all three are submitted in order; the bad row has no phone numbers and the parse error is reported |
| `PyText.Strip` | load_2_elastic.py:84 | `str.strip()`; its promises are stated by `StripTrims`, `StripUnique` and `StripIdempotent` |
| `PyText.JoinWithSpaces` | load_2_elastic.py:94 | the f-string joining parts with single spaces; stated by `JoinWithSpacesCounts`, `SplitJoin` and `JoinSplit` |
| `RowToDocument.OrEmpty` | load_2_elastic.py:82-92 | `cell if pd.notna(cell) else ''`; stated by `MissingCellsBecomeEmpty` and `NoneIfEmptyRoundTrip` |
| `RowToDocument.NoneIfEmpty` | load_2_elastic.py:105-114 | `value if value else None`; stated by `NoneIfEmptyRoundTrip` and `DocumentFields` |
| `RowToDocument.StreetAddress` | load_2_elastic.py:84 | the street address; stated by `StreetAddressShape` and `StreetAddressOfTrimmed` |
| `RowToDocument.Compose` | load_2_elastic.py:82-92 | the composed values of a row; stated by `MissingCellsBecomeEmpty` |
| `RowToDocument.EmbeddingText` | load_2_elastic.py:94 | the embedding text; stated by `EmbeddingTextShape`, `EmbeddingTextSeparators`, `EmbeddingTextDeterminesFields` and `EmbeddingTextInjective` |
| `RowToDocument.ParsePhones` | load_2_elastic.py:50-58 | `parse_phones`; stated by `ParsePhonesCases` |
| `RowToDocument.EmbeddingAttempt` | load_2_elastic.py:61-70 | how the try block of `generate_embedding` ends on a response; stated by `GenerateEmbeddingCases` |
| `RowToDocument.Attempt.Returned` | load_2_elastic.py:67-70 | the value `generate_embedding` returns for each way it ends; stated by `GenerateEmbeddingCases` |
| `RowToDocument.GenerateEmbedding` | load_2_elastic.py:60-70 | `generate_embedding`; stated by `GenerateEmbeddingCases` |
| `RowToDocument.BuildDocument` | load_2_elastic.py:104-116 | the document dictionary; stated by `DocumentFields`, `EmptyLicenseIsKept` and `DocumentRestoresText` |
| `Ingestion.RowText` | load_2_elastic.py:82-94 | the text embedded for a row; stated through `EmbeddingText` |
| `Ingestion.RowEmbedding` | load_2_elastic.py:97 | what `generate_embedding` returns on the row's text, through the same `Attempt.Returned` as `GenerateEmbedding`; stated by `GenerateEmbeddingCases` and the `Submitted` lemmas |
| `Ingestion.RowSubmissions` | load_2_elastic.py:97-120 | the index call one row makes; stated by `SubmittedSound` and `SubmittedComplete` |
| `Ingestion.IndexEvents` | load_2_elastic.py:119-124 | the messages after an index call; stated by `LogIndexErrors` and `LogMissingIds` |
| `Ingestion.RowEvents` | load_2_elastic.py:97-124 | the messages for one row, in order; stated by `RowEventsSkipped`, `RowEventsEmbeddingError`, `RowEventsPhoneParseError`, `RowEventsIndexError` and `RowEventsMissingId` |
| `Ingestion.Submitted` | load_2_elastic.py:80-120 | the index calls for all rows; stated by `Ingest` and the `Submitted` lemmas |
| `Ingestion.Log` | load_2_elastic.py:80-124 | the messages for all rows; stated by `Ingest`, `LogSkipped`, `LogEmbeddingErrors`, `LogPhoneParseErrors`, `LogIndexErrors` and `LogMissingIds` |

## Left out

- Client construction, the credentials, and the deletion and re-creation of the index with its 384-dimension mapping (`load_2_elastic.py:7-48`). This is remote administration and does no local computation.
- The remote inference call inside `generate_embedding`. It is the `infer` parameter, keyed by row; a response without `inference_results` is represented as a raised call, because the script handles both the same way.
- The grammar of `ast.literal_eval`. It is the `literalEval` parameter, and it is restricted to lists of strings. The real call can return any literal, which the script would store unchanged.
- Loading the spreadsheet with pandas and the progress bar (`load_2_elastic.py:76-80`). The row index `idx` is taken to be the row's position, which is pandas' default index.
- The exception messages inside printed errors. A printed line is modelled only by its kind and its row, or by the skipped row's text.
- The refresh of the index and the count report after the loop (`load_2_elastic.py:126-131`). The count is computed by the server.
- Whether a submitted document is actually stored. That is the server's decision; the model records only the calls made and the answers given.
- The truthiness of non-text cells. Cells are modelled by their text, so the test `value if value else None` reads a numeric cell such as 0 by its text "0", not as Python's falsy 0.
- `elastic_search_query.py`, the query client. Its embedding call, the cosine scoring done by the server in floating point, and the printing of results are not part of this model.

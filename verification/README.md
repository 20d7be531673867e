# billionaires-rag-query, modelled in Dafny

The repository reads a table from a PDF page and cleans it up. It then
serialises the table in ten formats. Each serialisation is sent as
context to a chat-completion model with one fixed question, and the answers
are printed as a three-column table. This project models the logic the
repository writes itself:

- `Text` (`text.dfy`): Python's `str.replace` for a one-character pattern
  (`Replace`). It also holds a reference definition "delete every character
  of a set" (`Strip`), the subsequence relation, and the lemmas relating them.
- `Tables` (`tables.dfy`): the normaliser inside `get_tables`. It promotes
  row 0 to the header, deletes line breaks from cells and sanitises column
  names. It also models the page loop, which keeps only the last table seen.
- `Formats` (`formats.dfy`): the ten-row test set (`eval_df`). Each row has a
  "Data Format" label and an opaque payload.
- `Answers` (`answers.dfy`): `run_question_test` and `BeautifulTableformat`.
- `Wrappers` (`wrappers.dfy`): `Option` and `Result`.

The PDF extractor's output is an input: a sequence of pages, each a sequence
of raw grids of text cells. Each serialiser is the parameter
`serialize(format, frame)`. Python's `str(...)` applied to a payload is the
parameter `show`. The chat-completion call is the parameter
`ask(question, context)`.

Error paths follow the code:
- A table with no row makes `table_df.iloc[0]` raise. This aborts the whole
  scan, and the model returns `Failure(EmptyTable)`.
- If no page yields a table, `return table_df` finds the variable unbound.
  The model returns `Failure(NoTable)`.

Three facts about the code shape the model:
- The test set has ten rows, DICT included
  (billionaires_rag_query/billionaires_rag_query.py lines 54-94).
- Nothing is done about two column names that become equal after
  sanitisation.
- Nothing stops a frame from being normalised twice. Normalising an already
  normalised frame again would promote its first data row. `NormalizeRoundTrip`
  states instead that putting the header back as row 0 and normalising
  returns the same frame.

## Model

| member | source | states |
|---|---|---|
| Text.Replace | billionaires_rag_query/billionaires_rag_query.py:36-40 | Replacing a character by text without it leaves no occurrence of that character. Every character of the result comes from the input (and is not the pattern) or from the replacement. Replacing by the empty string is deleting the pattern. |
| Text.ReplaceKeepsOrder | billionaires_rag_query/billionaires_rag_query.py:36-40 | Once the replacement's characters are deleted from both sides, the result is the input with the pattern deleted. So the other characters keep their order. |
| Text.ReplaceOne | billionaires_rag_query/billionaires_rag_query.py:36-40 | A single character becomes the replacement if it is the pattern and is kept otherwise. |
| Text.ReplaceAppend | billionaires_rag_query/billionaires_rag_query.py:36-40 | Replacing in a concatenation is concatenating the replaced parts. With `ReplaceOne` this fixes the result on every input, so each occurrence of the pattern becomes one copy of the replacement in its place. |
| Text.ReplaceKeepsCounts | billionaires_rag_query/billionaires_rag_query.py:36-40 | Every character that is neither the pattern nor in the replacement occurs in the result exactly as often as in the input. |
| Text.Strip | billionaires_rag_query/billionaires_rag_query.py:36 | Deleting a set of characters leaves none of them, and the result is never longer than the input. |
| Text.StripKeepsTheRest | billionaires_rag_query/billionaires_rag_query.py:36 | Deletion, not replacement. Every other character is kept exactly as often as in the input. The result is a subsequence of the input, so order is kept. |
| Text.StripCharacterised | billionaires_rag_query/billionaires_rag_query.py:36 | These facts pin the result down. Any string that avoids the set, keeps the other characters' counts and is a subsequence of the input is the stripped string. |
| Tables.CleanCell | billionaires_rag_query/billionaires_rag_query.py:36 | `str.replace('\n','')` on a cell deletes exactly the line breaks. The result has no line break. |
| Tables.SanitizeColumn | billionaires_rag_query/billionaires_rag_query.py:39-40 | Four steps: newline to space, remove spaces, remove `(`, remove `)`. Together they equal deleting the four characters newline, space, `(` and `)`. No sanitised name holds any of them. |
| Tables.CleanRows | billionaires_rag_query/billionaires_rag_query.py:36 | The shape is kept: as many rows, each with as many cells. Every cell is its input cell with line breaks deleted. |
| Tables.SanitizeColumns | billionaires_rag_query/billionaires_rag_query.py:39-40 | One name per header cell, in order, each the cell with newline, space, `(` and `)` deleted. |
| Tables.SanitizeColumnIdempotent | billionaires_rag_query/billionaires_rag_query.py:39-40 | Sanitising an already sanitised name changes nothing. |
| Tables.CleanCellIdempotent | billionaires_rag_query/billionaires_rag_query.py:36 | Cleaning an already cleaned cell changes nothing. |
| Tables.SanitizeUnitHeader | billionaires_rag_query/billionaires_rag_query.py:39-40 | A header `<w1> <w2> (<unit>)` sanitises to the three words run together. For example, `Net Worth (USD)` becomes `NetWorthUSD`. |
| Tables.Normalize | billionaires_rag_query/billionaires_rag_query.py:30-40 | An empty grid fails with `EmptyTable`, and only an empty grid does. Otherwise there is one column name per cell of row 0, each the sanitised cell. The data rows are raw rows 1..n-1 in order, so one fewer than the raw rows. Each cell is its raw cell with line breaks deleted. The result is clean. |
| Tables.NormalizeRoundTrip | billionaires_rag_query/billionaires_rag_query.py:30-40 | Take a clean frame, put its header back as row 0, and normalise again. The result is the same frame. |
| Tables.NormalizeKeepsWidth | billionaires_rag_query/billionaires_rag_query.py:30-34 | Start from a rectangular grid. Every data row then has exactly as many cells as there are column names. |
| Tables.LastTable | billionaires_rag_query/billionaires_rag_query.py:22-28 | The table the loop leaves behind. It is `None` exactly when every page is empty. Otherwise it is the last table of a non-empty page after which every page is empty. |
| Tables.GetTables | billionaires_rag_query/billionaires_rag_query.py:21-42 | A table with no row fails with `EmptyTable`. No table at all fails with `NoTable`. Otherwise the result is the normalisation of the last table of the last page that produced one, and it is clean. |
| Formats.FormatOf | billionaires_rag_query/billionaires_rag_query.py:54-94 | Reads a "Data Format" label back. It is the exact inverse of the labels the rows are written with. |
| Formats.EvalRows | billionaires_rag_query/billionaires_rag_query.py:54-94 | The labels are exactly JSON, DICT, CSV, TSV (tab-separated), HTML, LaTeX, Markdown, STRING, NumPy, XML, in that order. Each row's payload is the table serialised in the format its label names. |
| Formats.EvalRowsCoverEachFormatOnce | billionaires_rag_query/billionaires_rag_query.py:54-94 | Every format has a row, and no two rows share a label. |
| Formats.BuildTestSet | billionaires_rag_query/billionaires_rag_query.py:46-94 | An empty table or no table stops the script. Otherwise the test set is built from the last table found. |
| Answers.RunQuestionTest | billionaires_rag_query/billionaires_rag_query.py:152-165 | One answered row per input row, in the same order. Format and payload are kept. Every Question is the query. Answer i is the model's reply to the query with `str` of payload i as context. |
| Answers.RunQuestionTestKeepsRows | billionaires_rag_query/billionaires_rag_query.py:152-165 | Dropping the Question and Answer columns gives back the input rows. |
| Answers.RunQuestionTestAppend | billionaires_rag_query/billionaires_rag_query.py:157-160 | Rows are answered independently. Answering a concatenation gives the concatenation of the answers. |
| Answers.BeautifulTableFormat | billionaires_rag_query/billionaires_rag_query.py:167-173 | The header is `Data Format`, `Query`, `Answer`. The given width bound is kept. There is one row `[format, query, answer]` per result, in order. |
| Answers.ReportCoversEveryFormat | billionaires_rag_query/billionaires_rag_query.py:54-173 | The printed table for the test set has ten rows. Each format appears exactly once in the first column. The second column is always the query. Each answer was obtained with the table serialised in the format its row names. |

## Left out

- PDF table extraction (`camelot.read_pdf`). It is a library call on PDF bytes, so its output is the input `pages`.
- The text the serialisers produce (`to_json`, `to_dict`, `to_csv`, `to_html`, `to_latex`, `to_markdown`, `to_string`, `to_numpy`, `to_xml`). These are library output formats, so payloads are opaque values of a type parameter.
- `response_test` and the chat-completion client. These are network I/O. They become the function `ask`. In the model `ask` is deterministic, never fails and always returns text. In the code the request can raise (network, authentication or quota errors), which aborts `run_question_test` at line 159 before any column is written, and `message.content` at line 144 can be `None`.
- `str(...)` of a payload. Its text is library-defined, so it is the parameter `show`.
- BeautifulTable's width-bounded rendering and the `print` in `main.py`. This is terminal layout inside a library. Only the width bound is recorded. The default bound `MaxWidth = 250` is not modelled: `BeautifulTableFormat` always takes the bound explicitly, as `main.py` does with 150.
- The hard-coded file path, page list, credentials and the module-level call `get_tables(file_path, pages=[3])`. These are configuration. `BuildTestSet` takes the pages as input.
- `run_question_test` writing its two columns into the frame it is given. The model returns new rows instead of mutating a shared frame.
- Duplicate column names after sanitisation. The code has no policy for them, and the model invents none.
- pandas' `apply` on a frame with no data rows. It is taken to leave the (empty) rows as they are.
- Formats.BuildTestSet: in the model the extractor and the serialisers never fail. In the code `camelot.read_pdf` (line 23) raises on a missing file or a page past the end of the document. `to_json(orient='records')` (line 57) raises `ValueError` when two sanitised column names coincide, for example for header cells `Net Worth` and `NetWorth`, or two empty header cells. `to_xml` (line 93) rejects column names that are not XML names, such as `""` or `"2024"`. These failures depend on library behaviour, so they are not modelled.

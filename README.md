# hr-analytics-bot: the `/nlquery` handler in Dafny

hr-analytics-bot answers HR questions asked in plain language (Russian or
English) about a CSV file of employees. Its API, `api/main.py`, does four
things for each `POST /nlquery` request (question text plus dataset path):

1. It loads the CSV into the DuckDB table `hr_data`, or refuses the request
   when the path is empty or names no file.
2. It turns the question into SQL with the stub translator `nl_to_sql_stub`.
   The stub knows one topic, staff turnover: when the lower-cased question
   contains the stem `текуч`, it returns a monthly terminations/active query.
   Otherwise it returns `SELECT * FROM hr_data LIMIT 100;`.
3. It refuses any query whose lower-cased text contains one of the
   denylisted words `drop`, `delete`, `update`, `insert`, `alter`, `attach`.
4. It runs the query. A DuckDB error becomes an `SQL Error: …` reply. On
   success it returns the query and at most the first 200 rows.

The model is pure: datatypes, functions and lemmas. The file system and
DuckDB are function parameters of the handler:

- `fileExists` for `os.path.exists`;
- `load` for the `CREATE OR REPLACE TABLE` statement;
- `execute` for running a query.

Each is a total function from its input to a value or a raised message.

Files:

- `text.dfy`, module `Text`: `str.lower()`, and Python's `in` on strings
  (`Contains`), with the block lemmas the proofs use.
- `gate.dfy`, module `Gate`: the denylist `ForbiddenWords` (api/main.py:14)
  and the gate. It also holds a piecewise test that proves short pieces of
  text are accepted; a piece can fail the test and still be accepted (`start `
  holds the block `rt`). The test relies on two facts. Every denylisted
  word contains one of the two-letter blocks `dr`, `et`, `pd`, `rt`, `al`,
  `tt`. A piece that ends in a character
  of no denylisted word cannot start a denylisted word that runs on into the
  next piece.
- `translator.dfy`, module `Translator`: the stub and its two queries,
  `TurnoverSql` (api/main.py:46) and `ListRowsSql` (api/main.py:47). Each
  query is written as the join of short pieces of its literal, one list of
  pieces per line of the query; joined, the pieces are the literals of the
  source character for character (`\n` means a newline in both languages).
  `ListRowsSqlLiteral` states the join of the shorter query outright.
- `stub_queries.dfy`, module `StubQueries`: the proofs that both queries pass
  the gate.
- `api.dfy`, module `Api`: request outcomes, the 200-row cut, and the
  handler, both for any translator and for the stub.

The repository expects a richer translator than `api/main.py` has: the
result page ui/app.py:47-93 charts the columns `attrition_rate`, `age_group`,
`service_percentage` and `recommended_hiring_target`, and neither of the
stub's two queries produces any of them. The handler itself has only the
two-way stub, and the model follows the code.

## Model

| member | source | states |
|---|---|---|
| Text.LowerChar | api/main.py:29 | the result of lower-casing one character is never an upper-case letter, and a character is left unchanged exactly when it is not upper-case |
| Text.Lower | api/main.py:29 | `s.lower()` has the length of `s` and lower-cases each character in place |
| Text.LowerIdempotent | api/main.py:29 | lower-casing twice gives the same as lower-casing once, and the result has no upper-case letter |
| Text.LowerKeepsLowercase | api/main.py:45 | a text with no upper-case letter, such as each pattern the handler searches for, is its own lower-case form |
| Text.Contains | api/main.py:30 | Python's `p in s`: the empty string occurs in every text, and a text never contains anything longer than itself |
| Gate.AnyContained | api/main.py:30 | `any(b in low for b in words)` is true exactly when some word of the list occurs in `low` |
| Gate.Rejects | api/main.py:29-31 | a query is refused exactly when some word of FORBIDDEN occurs as a substring of its lower-cased text |
| Gate.RejectsIgnoresCase | api/main.py:29-30 | a query and its lower-case form get the same verdict |
| Gate.RejectsInAnyCase | api/main.py:29-30 | a denylisted word in any mixture of cases, anywhere in a query, gets the query refused |
| Gate.CapitalDropRejected | api/main.py:14 | `DROP` in capitals, with any text around it, is refused like `drop` |
| Gate.EmbeddedWordRejected | api/main.py:30 | the test is on substrings, not words: a read-only query naming a column `updated_at` is refused |
| Gate.AcceptsConcat | api/main.py:30 | a query made of accepted pieces that each end in a character of no denylisted word is accepted |
| Gate.DenylistShape | api/main.py:14 | each denylisted word is made of the letters a c d e h i l n o p r s t u and holds one of the blocks dr, et, pd, rt, al, tt |
| Gate.ScanPassesClean | api/main.py:30 | a piece that passes the two-letter scan is accepted by the gate and ends in a character of no denylisted word |
| Gate.AcceptsScanned | api/main.py:30 | a query made of pieces that pass the scan is accepted |
| Translator.ListRowsSqlLiteral | api/main.py:47 | the row listing is exactly `SELECT * FROM hr_data LIMIT 100;` |
| Translator.QueriesDiffer | api/main.py:46-47 | the turnover query and the row listing are different strings |
| Translator.NounContainsStem | api/main.py:45 | a text that contains `текучесть` contains `текуч`, so the second test of the condition adds nothing |
| Translator.NlToSqlStub | api/main.py:43-47 | the stub returns one of the two queries for every text; it returns the turnover query exactly when the lower-cased text contains `текуч`, and the row listing exactly when it does not |
| Translator.StubReadsLowerCase | api/main.py:45 | the stub gives a text and its lower-case form the same query |
| Translator.StubCaseInsensitive | api/main.py:45 | two texts with the same lower-case form get the same query |
| Translator.StemInAnyCase | api/main.py:45-46 | the stem in any mixture of cases, anywhere in the question, selects the turnover query |
| Translator.UpperStemLowers | api/main.py:45 | `ТЕКУЧ` lower-cases to the stem |
| Translator.StubWithoutTeLetter | api/main.py:45-47 | a question without the letter т in either case, such as any English question, gets the row listing |
| StubQueries.TurnoverSqlAccepted | api/main.py:46 | the turnover query contains no denylisted word in any case, so the gate accepts it |
| StubQueries.ListRowsSqlAccepted | api/main.py:47 | the row listing passes the gate |
| StubQueries.StubPassesGate | api/main.py:26-31 | whatever the question, the query the stub produces passes the gate |
| Api.Truncate | api/main.py:40 | `rows[:200]` has length min(\|rows\|, 200) and is the prefix of the rows of that length, order kept; a result of at most 200 rows is returned whole |
| Api.TruncateIdempotent | api/main.py:40 | cutting a cut result changes nothing |
| Api.DatasetPresent | api/main.py:20 | an empty path never counts as a dataset, and a path that counts names an existing file |
| Api.Handle | api/main.py:17-40 | the request ends in DatasetNotFound exactly when the path is empty or names no file; in LoadFailed, with the load's message, exactly when the load raises; in Forbidden exactly when the loaded request's query is refused; in SqlError with "SQL Error: " and DuckDB's message exactly when the accepted query raises; otherwise in an answer carrying the query and at most 200 first rows of its result |
| Api.MissingDatasetFirst | api/main.py:20-23 | a missing dataset yields DatasetNotFound whatever the question, translator, load and execution |
| Api.RejectedQueryNeverExecuted | api/main.py:30-35 | a refused query is never run: the outcome does not depend on execution, and it is Forbidden once the dataset is loaded |
| Api.ExecutionFailureReported | api/main.py:34-37 | an accepted query that raises in DuckDB yields SqlError with "SQL Error: " followed by the message |
| Api.SuccessAnswers | api/main.py:34-40 | when every step succeeds the answer is the query and the first rows of its result |
| Api.NlQuery | api/main.py:17-40 | the handler with the stub never ends in Forbidden, and an answer carries one of the two queries, the turnover query exactly when the lower-cased question contains `текуч` |
| Api.NlQueryReachesExecution | api/main.py:26-35 | with the stub, a loaded dataset always gets its query run: the request ends in an answer or an SQL error |

## Left out

- ui/app.py: the Streamlit page, the upload of the CSV to disk, the HTTP call
  to the API and the charts. These are user interface and I/O.
- DuckDB: `load` and `execute` are parameters. The model does not cover what
  the SQL means, the process-wide connection `con`, or the `hr_data` table
  each load replaces. Requests sharing that connection concurrently are not
  modelled either.
- The load statement puts the path into the SQL text unescaped. Since `load`
  is a parameter, the model says nothing about what such a path does.
- FastAPI and pydantic: request parsing, status codes and the JSON shape of
  replies. An outcome carries only what the reply's detail or body carries.
  An exception from the load is not caught by the handler. The server turns
  it into an internal error (HTTP 500), and the model keeps it as
  `LoadFailed` with the message.
- The conversion of the DataFrame to records. A row is an abstract type
  parameter, and `execute` returns the records directly.
- Text.LowerChar: does not model all of Python's `str.lower()`. It lower-cases
  only ASCII A-Z, Cyrillic А-Я and Ѐ-Џ, and leaves every other character as
  it is. Python also lower-cases other scripts. A few of its mappings change
  the length of the text (`İ` becomes `i` plus a combining dot), and one maps
  a non-ASCII character to an ASCII letter (the Kelvin sign becomes `k`).
  None of these characters occurs in the stub's patterns, the denylist or
  the two queries.

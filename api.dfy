/*
 * The `/nlquery` handler of api/main.py: load the CSV the request names,
 * translate the question, refuse queries the gate rejects, run the query and
 * return at most 200 rows.
 *
 * The file system and DuckDB are parameters: `fileExists` stands for
 * `os.path.exists`, `load` for the `CREATE OR REPLACE TABLE hr_data ...`
 * statement on the given path, and `execute` for `con.execute(sql).fetchdf()`.
 */
module Api {
  import opened Text
  import opened Gate
  import opened Translator
  import opened StubQueries

  /** What a call into DuckDB comes back with: a value, or the message of
      the exception it raised. */
  datatype Execution<T> = Done(value: T) | Raised(message: string)

  /** How a request ends. */
  datatype Outcome<Row> =
    | DatasetNotFound                    // HTTP 400, 'Dataset file not found'
    | LoadFailed(message: string)        // the load raised; nothing catches it
    | Forbidden                          // HTTP 400, 'Forbidden SQL operation'
    | SqlError(detail: string)           // HTTP 400, 'SQL Error: ' and the message
    | Answer(sql: string, rows: seq<Row>)

  /** At most this many rows are returned (api/main.py:40). */
  const MaxRows := 200

  const SqlErrorPrefix := "SQL Error: "

  /** `rows[:200]`: the first rows of the result, order kept. */
  function Truncate<Row>(rows: seq<Row>): (r: seq<Row>)
    ensures |r| == if |rows| <= MaxRows then |rows| else MaxRows
    ensures r == rows[..|r|]
    ensures |rows| <= MaxRows ==> r == rows
  {
    if |rows| <= MaxRows then rows else rows[..MaxRows]
  }

  /** Cutting a cut result changes nothing. */
  lemma TruncateIdempotent<Row>(rows: seq<Row>)
    ensures Truncate(Truncate(rows)) == Truncate(rows)
  {
  }

  /** `q.dataset_path and os.path.exists(q.dataset_path)`: the path is not
      empty and names an existing file. */
  predicate DatasetPresent(datasetPath: string, fileExists: string -> bool)
    ensures datasetPath == [] ==> !DatasetPresent(datasetPath, fileExists)
    ensures DatasetPresent(datasetPath, fileExists) ==> fileExists(datasetPath)
  {
    datasetPath != [] && fileExists(datasetPath)
  }

  /** The handler of api/main.py:17-40, for any translator. */
  function Handle<Row>(text: string, datasetPath: string, fileExists: string -> bool,
                       load: string -> Execution<()>, translate: string -> string,
                       execute: string -> Execution<seq<Row>>): (r: Outcome<Row>)
    ensures r.DatasetNotFound? <==> !DatasetPresent(datasetPath, fileExists)
    ensures r.LoadFailed? <==> DatasetPresent(datasetPath, fileExists) && load(datasetPath).Raised?
    ensures r.LoadFailed? ==> r.message == load(datasetPath).message
    ensures r.Forbidden? <==>
              DatasetPresent(datasetPath, fileExists) && load(datasetPath).Done? && Rejects(translate(text))
    ensures r.SqlError? <==>
              DatasetPresent(datasetPath, fileExists) && load(datasetPath).Done? && !Rejects(translate(text)) &&
              execute(translate(text)).Raised?
    ensures r.SqlError? ==> r.detail == SqlErrorPrefix + execute(translate(text)).message
    ensures r.Answer? ==>
              r.sql == translate(text) && execute(r.sql).Done? && r.rows == Truncate(execute(r.sql).value) &&
              |r.rows| <= MaxRows
  {
    if !DatasetPresent(datasetPath, fileExists) then DatasetNotFound
    else
      match load(datasetPath)
      case Raised(m) => LoadFailed(m)
      case Done(_) =>
        var sql := translate(text);
        if Rejects(sql) then Forbidden
        else
          match execute(sql)
          case Raised(m) => SqlError(SqlErrorPrefix + m)
          case Done(rows) => Answer(sql, Truncate(rows))
  }

  /** A missing dataset is reported before anything else happens: the
      question, the translator, the load and the execution play no part. */
  lemma MissingDatasetFirst<Row>(text1: string, text2: string, datasetPath: string, fileExists: string -> bool,
                                 load1: string -> Execution<()>, load2: string -> Execution<()>,
                                 translate1: string -> string, translate2: string -> string,
                                 execute1: string -> Execution<seq<Row>>, execute2: string -> Execution<seq<Row>>)
    requires !DatasetPresent(datasetPath, fileExists)
    ensures Handle(text1, datasetPath, fileExists, load1, translate1, execute1) == DatasetNotFound
    ensures Handle(text1, datasetPath, fileExists, load1, translate1, execute1) ==
            Handle(text2, datasetPath, fileExists, load2, translate2, execute2)
  {
  }

  /** A query the gate rejects is never executed: whatever execution would
      do, the outcome is the same, and it is not an answer or an SQL error. */
  lemma RejectedQueryNeverExecuted<Row>(text: string, datasetPath: string, fileExists: string -> bool,
                                        load: string -> Execution<()>, translate: string -> string,
                                        execute1: string -> Execution<seq<Row>>,
                                        execute2: string -> Execution<seq<Row>>)
    requires Rejects(translate(text))
    ensures Handle(text, datasetPath, fileExists, load, translate, execute1) ==
            Handle(text, datasetPath, fileExists, load, translate, execute2)
    ensures DatasetPresent(datasetPath, fileExists) && load(datasetPath).Done? ==>
              Handle(text, datasetPath, fileExists, load, translate, execute1) == Forbidden
  {
  }

  /** A query that passes the gate and fails in DuckDB is reported with the
      exception's message after the "SQL Error: " prefix. */
  lemma ExecutionFailureReported<Row>(text: string, datasetPath: string, fileExists: string -> bool,
                                      load: string -> Execution<()>, translate: string -> string,
                                      execute: string -> Execution<seq<Row>>, message: string)
    requires DatasetPresent(datasetPath, fileExists) && load(datasetPath).Done?
    requires !Rejects(translate(text))
    requires execute(translate(text)) == Raised(message)
    ensures Handle(text, datasetPath, fileExists, load, translate, execute) == SqlError(SqlErrorPrefix + message)
  {
  }

  /** When every step succeeds the answer is the query and the first rows
      of its result. */
  lemma SuccessAnswers<Row>(text: string, datasetPath: string, fileExists: string -> bool,
                            load: string -> Execution<()>, translate: string -> string,
                            execute: string -> Execution<seq<Row>>, rows: seq<Row>)
    requires DatasetPresent(datasetPath, fileExists) && load(datasetPath).Done?
    requires !Rejects(translate(text))
    requires execute(translate(text)) == Done(rows)
    ensures Handle(text, datasetPath, fileExists, load, translate, execute) == Answer(translate(text), Truncate(rows))
  {
  }

  /** `nlquery` as written: the handler with the stub translator. */
  function NlQuery<Row>(text: string, datasetPath: string, fileExists: string -> bool,
                        load: string -> Execution<()>, execute: string -> Execution<seq<Row>>): (r: Outcome<Row>)
    ensures !r.Forbidden?
    ensures r.Answer? ==> r.sql == TurnoverSql || r.sql == ListRowsSql
    ensures r.Answer? ==> (r.sql == TurnoverSql <==> Contains(Lower(text), TurnoverStem))
  {
    StubPassesGate(text);
    Handle(text, datasetPath, fileExists, load, NlToSqlStub, execute)
  }

  /** With the stub translator, a loaded dataset always gets its query run:
      the request ends in an answer or an SQL error. */
  lemma NlQueryReachesExecution<Row>(text: string, datasetPath: string, fileExists: string -> bool,
                                     load: string -> Execution<()>, execute: string -> Execution<seq<Row>>)
    requires DatasetPresent(datasetPath, fileExists) && load(datasetPath).Done?
    ensures NlQuery(text, datasetPath, fileExists, load, execute).Answer? ||
            NlQuery(text, datasetPath, fileExists, load, execute).SqlError?
  {
  }
}

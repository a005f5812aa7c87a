# Splunk CSV lookup importer — a Dafny model

`splunk_csv_importer.py` turns a CSV file into a Splunk lookup table. It
reads the file into columns. If the target lookup already holds data, it
copies the lookup to a timestamped backup. It then builds one SPL query that
recreates every column with `makeresults` / `eval` / `makemv` / `mvexpand`
and writes the result with `outputlookup`. Finally it checks the row count of
the new lookup.

This project models those four pieces and proves their properties:

- `CsvTable` (`csv_table.dfy`) models the transposition in `csv_to_dict`.
  - `CsvToDict` and `AppendRow` keep the source's nested loops.
  - Both are proved against the specification function `TableOf`.
- `Backup` (`backup.dfy`) models the backup name and the three fixed query
  strings.
- `Spl` (`spl.dfy`) models the query synthesis.
  - It covers the template fragment, the wrapping in `| appendcols [...]`, the
    newline join and the output command.
  - `BuildGenerationQuery` keeps the source's loop over `datas.items()`.
  - `ParseFragment` reads a fragment back, which gives a round trip.
- `Gateway` (`gateway.dfy`) models `oneshot_search`.
  - `SearchGateway` is a class that logs every query it is asked to run.
  - The service is replaced by an oracle: a function from the query's position
    in the log and its text to the service's answer.
  - An answer is a sequence of reader entries, an authentication error or
    some other SDK error.
  - Only row entries are kept.
- `Importer` (`importer.dfy`) models `backup_lookup_if_exists` and
  `generate_lookup`.
  - They are methods on the gateway.
  - Each is proved to leave in the gateway's log exactly the queries that the
    specification function `ImportSession` predicts, in order, and to end
    with the outcome it predicts.
  - `ImportSession` is stated on the structured steps `Check`, `Copy`,
    `Generate` and `CountRows`.
  - The control-flow properties are lemmas about `ImportSession`.
- `Text` (`text.dfy`) holds `Join` and `Split`, the two string operations the
  importer uses, and their round trip.
- `Wrappers` (`wrappers.dfy`) holds `Option`.

Three inputs become parameters:

- The CSV file arrives already parsed: a header and rows, each row a map from
  field name to value. An unreadable file is the `Unreadable` source.
- The clock reading arrives as a timestamp string.
- The service arrives as the oracle.

How the model reads the code:

- **Duplicate header names**:
  - The dictionary keeps each name once, at its first position.
  - The inner loop visits every header position, so a name that occurs `k`
    times receives `k` copies of each row's value.
  - `ColumnOf`, `ColumnOfLength` and `DuplicateHeaderExample` state this.
  - The "one entry per row" guarantee is proved for distinct header names, in
    `TableOfDistinct` and `CsvToDict`.
- **Empty lookup check**: `if results:` on the check query's result list is
  modelled as "at least one row".
- **Count query result**:
  - With no rows, nothing is reported: `Reported(None)`.
  - Otherwise the report is the first row's `count` field, and `"0"` when that
    field is missing (`.get('count', 0)`).
- **SDK errors**:
  - An authentication error ends the program with `exit(1)`: `AuthExit`.
  - Any other SDK error propagates out of `oneshot_search` and ends the run:
    `QueryAborted`.
  - No query is issued after either.
- **When the CSV is read**: the file is read only after the backup step, so an
  unreadable file ends the run (`CsvUnreadable`) after the backup queries.

## Model

| member | source | states |
|---|---|---|
| CsvTable.CsvToDict | splunk_csv_importer.py:33-37 | The nested loops build exactly `TableOf(header, rows)`: one key for each header name, and an empty column for each name when there are no rows. With distinct names the keys are in header order, and each column has one value per row, where element i is row i's field. |
| CsvTable.AppendRow | splunk_csv_importer.py:36-37 | One pass of the inner loop appends the row's value to column c once for each occurrence of c in the header, and leaves the key set unchanged. |
| CsvTable.TableOf | splunk_csv_importer.py:33-37 | The table is valid: the names are distinct, and the column keys are exactly those names. |
| CsvTable.Dedup | splunk_csv_importer.py:33 | The key order of the dictionary comprehension has no repeats and holds exactly the header's names; its order is stated by the next row. |
| CsvTable.DedupFirstOccurrenceOrder | splunk_csv_importer.py:33 | The key order keeps each name at its first occurrence: one name comes before another when its first position in the header comes before the other's. |
| CsvTable.DedupDistinct | splunk_csv_importer.py:33 | With distinct header names, the key order is the header order. |
| CsvTable.TableOfDistinct | splunk_csv_importer.py:33-37 | With distinct header names, the keys are the header in order; after M rows every column has length M, and element i of column c is field c of row i. |
| CsvTable.ColumnOfLength | splunk_csv_importer.py:35-37 | A column holds one value per row for each time its name occurs in the header. |
| CsvTable.ColumnOfSingle | splunk_csv_importer.py:35-37 | For a name that occurs once in the header, element i of its column is row i's value. |
| CsvTable.DuplicateHeaderExample | splunk_csv_importer.py:33-37 | For any two distinct names `a` and `b`, the header `a, b, a` over one row gives the keys `a, b`, gives `a` two copies of the row's value and gives `b` one. |
| CsvTable.ColumnOfOneRow | splunk_csv_importer.py:35-37 | Over a single row, a column is that row's value repeated once for each occurrence of its name in the header. |
| Backup.BackupNameOf | splunk_csv_importer.py:98 | The backup name is the lookup name up to its first `.`, then `_backup_`, the timestamp and `.csv`. |
| Backup.BackupNameWhole | splunk_csv_importer.py:98 | A lookup name without `.` is used whole in the backup name. |
| Backup.BackupNameExample | splunk_csv_importer.py:97-98 | `attacks_lookup.csv` at `20240102030405` is backed up as `attacks_lookup_backup_20240102030405.csv`. |
| Backup.BackupNameEnding | splunk_csv_importer.py:97-98 | With a 14-digit clock reading, the backup name ends with `_backup_`, those digits and `.csv`. |
| Backup.BackupNameDiffers | splunk_csv_importer.py:98-101 | The copy never targets the lookup it copies: the backup name differs from the lookup name. |
| Text.Split | splunk_csv_importer.py:98 | A split gives at least one piece, and no piece contains the separator. |
| Text.SplitHead | splunk_csv_importer.py:98 | `split(sep)[0]` is the prefix of the text before the first separator, or all of the text when it has no separator. |
| Text.SplitHeadUnique | splunk_csv_importer.py:98 | Any separator-free prefix followed by the separator is `split(sep)[0]`. |
| Text.SplitNoSeparator | splunk_csv_importer.py:98 | Text without the separator splits into itself alone. |
| Text.SplitAtFirstSeparator | splunk_csv_importer.py:98 | Splitting at the first separator gives the text before it, followed by the split of the rest. |
| Text.SplitJoin | splunk_csv_importer.py:140 | Splitting a join gives back the pieces, when there is at least one piece and none of them contains the separator. |
| Text.JoinIsNotInjective | splunk_csv_importer.py:140 | Without those conditions the round trip fails: `[]` and `[""]` join to the same text, and a value made of two separator-free pieces around the separator comes back as those two values. |
| Text.JoinSnoc | splunk_csv_importer.py:147 | Joining one more piece appends a separator and that piece. |
| Spl.ParseFragmentComplete | splunk_csv_importer.py:126-140 | A fragment whose column name and data are free of `"` reads back as that same name and data. |
| Spl.ParseFragmentSound | splunk_csv_importer.py:126-140 | Any text that reads back as a name and a data string is exactly the template filled with them. |
| Spl.FragmentRecoversColumn | splunk_csv_importer.py:126-140 | A fragment determines its column: the name and the values (non-empty, free of `"` and `,`) are recovered from the fragment, the values by splitting the data on `,`. |
| Spl.PartsJoinComposed | splunk_csv_importer.py:138-147 | The newline join of the parts equals building the query column by column: the first fragment, then for each further column a newline and its wrapped fragment. |
| Spl.GenerationQueryShape | splunk_csv_importer.py:138-148 | No columns give only the output command, and a single column gives its fragment followed by the output command. An empty column gives an empty data string. The query starts with the first column's fragment without wrapping. Each further column adds a newline and its wrapped fragment just before the output command (`fields - _time`, then `outputlookup` of the lookup name). |
| Spl.BuildGenerationQuery | splunk_csv_importer.py:138-148 | The loop over `datas.items()` followed by the join and the suffix produces exactly `GenerationQuery(items, lookup)`. |
| Gateway.RowsOnly | splunk_csv_importer.py:67 | The filter never yields more results than the reader gave. |
| Gateway.RowsOnlyMembers | splunk_csv_importer.py:67 | The filter keeps exactly the row entries: a row is in the result if and only if the reader yielded it. |
| Gateway.RowsOnlyAppend | splunk_csv_importer.py:67 | The filter keeps the reader's order: filtering a concatenation is concatenating the filtered halves. |
| Gateway.RowsOnlyMessages | splunk_csv_importer.py:67 | A reply made only of messages gives no results. |
| Gateway.SearchGateway.OneshotSearch | splunk_csv_importer.py:43-74 | Each call appends the query to the log and returns the service's answer for it: the row entries on success, or the authentication failure, or the other failure. |
| Importer.BackupLookupIfExists | splunk_csv_importer.py:77-108 | The queries the backup step issues on the gateway, and how it stops, are exactly `BackupPhase`. |
| Importer.GenerateLookup | splunk_csv_importer.py:111-161 | A whole run leaves in the gateway's log exactly the texts of `ImportSession`'s steps, in order, and ends with its outcome; the planned query is the one synthesized from the CSV file. |
| Importer.SynthesizeQuery | splunk_csv_importer.py:133-148 | Reading the CSV and building the query gives the generation query of `TableOf(header, rows)`. |
| Importer.SubmitAndVerify | splunk_csv_importer.py:150-161 | The generation query, then the count query, are issued and reported exactly as `GenerationPhase` says. |
| Importer.CheckComesFirst | splunk_csv_importer.py:90-93 | The first query of every run is the check query: `inputlookup` of the lookup, then `head 1`. |
| Importer.CopyIffCheckFoundRows | splunk_csv_importer.py:95-104 | The backup copy is issued if and only if the check returned at least one row; then it is the second query, which is `inputlookup` of the lookup followed by `outputlookup` of the backup name. |
| Importer.GenerationBeforeCount | splunk_csv_importer.py:123-158 | A run that reports comes from a read CSV file. Its last two queries are exactly one generation query (the synthesized one) and then one count query, and everything before them is the check or the copy. |
| Importer.GenerationPrecedesCount | splunk_csv_importer.py:122-158 | In every run, whatever its outcome: a count query is the last query and comes straight after the synthesized generation query. A generation query is issued only for a read CSV file, at most once, after nothing but the check and the copy, and only the count query can follow it. |
| Importer.ReportedCountIsFirstRow | splunk_csv_importer.py:157-161 | A count is reported only when the count query returned rows; it is the first row's `count` field, or `"0"` when that field is missing. |
| Importer.FailingQueryIsLast | splunk_csv_importer.py:54-74 | Every query except the last returned rows, so a failing query is the last one issued. |
| Importer.FailureStopsTheRun | splunk_csv_importer.py:54-74 | The run ends with `exit(1)` exactly when its last query failed to authenticate, and with an SDK exception exactly when that query failed in another way. |
| Importer.BackupPhaseReplies | splunk_csv_importer.py:90-104 | The backup step issues one or two queries, and each query before its last returned rows. It stops the program exactly when its last query failed, with that failure. |
| Importer.GenerationPhaseReplies | splunk_csv_importer.py:151-161 | The generation and count queries are one or two queries, and each one before the last returned rows. The run reports exactly when the last query returned rows, and otherwise ends with that query's failure. |
| Importer.NoOverwriteWithoutBackup | splunk_csv_importer.py:95-151 | When the lookup held rows, every generation query is preceded by the copy to the backup name. |
| Importer.RunScenarios | splunk_csv_importer.py:90-161 | On a lookup with rows, where every query is answered, the run is exactly check, copy, generation, count, and it reports. An authentication failure on the check ends the run with no further query. |

## Left out

- The SDK calls `client.connect`, `service.jobs.oneshot` and
  `results.JSONResultsReader` stand for network and foreign-library code.
  `SearchGateway.OneshotSearch` replaces them with the caller-supplied oracle.
- The process exit at `exit(1)` is not modelled as termination. It is the
  `AuthFailed` result of the gateway and the `AuthExit` outcome of the run,
  after which no further query is issued.
- These are environment and command-line input, and are not modelled:
  - the `load_dotenv` / `os.getenv` configuration;
  - `argparse`;
  - `main`.
- Opening the file and `csv.DictReader`'s parsing are library behaviour.
  - This covers quoting, short rows (`None` values), long rows (extra fields
    under a `None` key) and an empty file with no header.
  - The model takes the parsed header and rows, and requires that every row
    has every header field (`WellFormed`).
  - An unreadable file is one `Unreadable` source.
- `datetime.now().strftime(...)` is the clock. The timestamp is a parameter,
  and `IsTimestamp` states what the format produces.
- The `print` diagnostics are not modelled. A reported count is the
  `Reported` outcome instead of a printed line.
- What the search service does with the SPL is not modelled: the row alignment
  of `mvexpand`/`appendcols`, whether `outputlookup` succeeds, and whether the
  count query is idempotent. These are remote semantics. The service's answers
  are the oracle's.
- The query log message shows only the first 50 characters of each query.
  That is output only, like the other debug prints.
- `Gateway.SearchGateway.OneshotSearch` ignores the credentials, host and
  port. These are configuration of the connection that the oracle
  abstracts.

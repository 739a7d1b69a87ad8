# SonarQube batch analysis: verified model of the metrics pipeline

This project models the deterministic part of a script that scans a batch of
checked-out repositories with `sonar-scanner`. The script then asks the
SonarQube measures API for each project's quality metrics and writes one CSV
row per repository. The external effects are inputs to the model:

- the scanner run is a `ScanOutcome`: the exit status, or `Raised` when anything inside
  `analyze_repo`'s `try` block raised (spawning the process, decoding its captured
  output, printing it), whatever the exit status was;
- the measures request is a `Response`: a status with a decoded JSON body, or an exception;
- the repository listing is a plain sequence of names.

The model has four modules:

- `Builtins`: `Option` (Python's `None` or a value), `','.join` with its
  inverse `str.split`, and the "no repeats" predicate.
- `SonarAnalyzer` (`src/sonar_analyzer.py`): project-key derivation,
  `analyze_repo` over the scanner outcome, the fixed metric list and its
  `metricKeys` parameter, and `get_sonar_metrics`. The last one covers the
  response shape checks and the flattening of the `measures` list into a map.
- `FileManager` (`src/file_manager.py`): `save_results_to_csv`. It models the
  empty-input guard, the choice of canonical columns, and the table as
  columns plus rows of cells.
- `Driver` (`src/main.py`): `main` as a method whose loop builds one record
  per repository and then saves the list.

The shape of a JSON response is a datatype with optional fields. Reading a
field that is absent raises in the source (`measure['metric']`), and the
source catches that exception and returns `{}`. The model treats it the
same way. A body that is not JSON, or is JSON of another shape, is
`Undecodable`; in the source such a body either raises or fails the shape
test, and both give `{}`.

The script does not retry a failed scan and reads no coverage report.
`get_sonar_metrics` sends the measures request even when the token is
missing; the model's response input covers whatever the server answers.

## Model

| member | source | states |
|---|---|---|
| `SonarAnalyzer.ProjectKey` | src/sonar_analyzer.py:11 | the key has the name's length; each character is the name's, except that '/' becomes '_' |
| `SonarAnalyzer.ProjectKeyHasNoSlash` | src/sonar_analyzer.py:11 | no project key contains '/' |
| `SonarAnalyzer.ProjectKeyOfSlashFreeName` | src/sonar_analyzer.py:11 | a name without '/' is its own key |
| `SonarAnalyzer.ProjectKeyIdempotent` | src/sonar_analyzer.py:11 | deriving the key twice gives the same key as deriving it once |
| `SonarAnalyzer.ProjectKeyEmpty` | src/sonar_analyzer.py:11 | the key is empty exactly when the repository name is |
| `SonarAnalyzer.ProjectKeyExample` | src/sonar_analyzer.py:11 | the name `org/pkg` gives the key `org_pkg` |
| `SonarAnalyzer.AnalyzeRepo` | src/sonar_analyzer.py:25-36 | a key is returned exactly when the scanner exits with 0, and then it is the project key; a non-zero exit or any exception inside the `try` block gives `None` |
| `SonarAnalyzer.MetricsAreDistinct` | src/sonar_analyzer.py:45-50 | the requested metric list has 11 names, none repeated |
| `SonarAnalyzer.MetricKeys` | src/sonar_analyzer.py:45-54 | splitting the `metricKeys` string at commas gives back exactly the 11 metric names, in order |
| `SonarAnalyzer.MeasuresQuery` | src/sonar_analyzer.py:53-54 | the query has exactly the parameters `component` (the project key) and `metricKeys` (which splits back into the metric list) |
| `SonarAnalyzer.Flatten` | src/sonar_analyzer.py:61-62 | the comprehension succeeds exactly when every entry has both `metric` and `value`; its keys are then exactly the entries' metric names |
| `SonarAnalyzer.FlattenLastEntryWins` | src/sonar_analyzer.py:61-62 | a metric name maps to the value of the last entry that carries it |
| `SonarAnalyzer.GetSonarMetrics` | src/sonar_analyzer.py:57-67 | a failed request, a status other than 200, an undecodable body, a missing `component` or a missing `measures` each give the empty map; a non-empty result comes only from a response that passes every shape check of lines 58-60 (`Accepted`) |
| `SonarAnalyzer.MetricsOfAcceptedResponse` | src/sonar_analyzer.py:58-62 | for an accepted response with complete entries, the keys are exactly the entries' metric names, each mapped to its last entry's value; an empty list gives the empty map |
| `SonarAnalyzer.IncompleteMeasureGivesNothing` | src/sonar_analyzer.py:61-67 | one entry without `metric` or `value` makes the whole result the empty map (the raised error is caught) |
| `Builtins.Join` | src/sonar_analyzer.py:54 | `','.join`: no parts give the empty string, one part gives that part |
| `Builtins.JoinSplit` | src/sonar_analyzer.py:54 | joining the pieces of a split gives back the string, so the `metricKeys` string, which splits into the metric list, is exactly the comma-join of that list |
| `Builtins.SplitJoin` | src/sonar_analyzer.py:54 | splitting a comma-join at commas recovers the parts, provided no part contains a comma |
| `FileManager.ColumnsOrderIsDistinct` | src/file_manager.py:12-17 | the canonical column list has 15 names, none repeated |
| `FileManager.AllKeys` | src/file_manager.py:10 | the DataFrame's columns are exactly the keys that occur in at least one record |
| `FileManager.KeepPresent` | src/file_manager.py:19 | the filter keeps exactly the listed names that are present, as a subsequence of the list, and keeps a repeat-free list repeat-free |
| `FileManager.ExistingColumns` | src/file_manager.py:12-20 | a column is kept if and only if it is canonical and some record has it as a key; the kept columns appear in canonical order, with no duplicates |
| `FileManager.SaveResultsToCsv` | src/file_manager.py:4-24 | an empty list gives no table; otherwise there is one row per record, in input order, under the kept columns; every row has exactly one cell per kept column (none when no column is kept), and a cell (`Row`) is empty exactly where the record lacks that column, as pandas leaves a missing key empty |
| `FileManager.NonCanonicalKeysAreDropped` | src/file_manager.py:19-20 | a key outside the canonical list never becomes a column |
| `FileManager.ColumnsIgnoreRecordOrder` | src/file_manager.py:10-19 | two record lists holding the same records, in any order or multiplicity, give the same column layout |
| `FileManager.SubsequenceDeterminedByElements` | src/file_manager.py:19 | within the canonical list, which columns are kept fixes their order: two subsequences with the same elements are equal |
| `FileManager.RepoColumnComesFirst` | src/file_manager.py:12-19 | when every record has `repo`, the first column is `repo` |
| `FileManager.TwoRecordExample` | src/file_manager.py:6-24 | the records `{repo: a, bugs: 2}` and `{repo: b}` give columns `repo, bugs` and two rows, the second with an empty `bugs` cell |
| `Driver.TruthyKeyIffScanSucceeded` | src/main.py:20-23 | the key `main` tests with `if project_key:` (`Truthy`) is truthy exactly when the scanner exited with 0 and the repository name is not empty |
| `Driver.RepoRecord` | src/main.py:20-24 | with a falsy key the record is exactly `{repo: name}`; with a truthy key its keys are `repo` plus the metric names, every metric keeps its value, and `repo` keeps the name unless the metrics themselves have a `repo` key |
| `Driver.RecordKeysComeFromOwnResponse` | src/main.py:21-26 | every key of a repository's record is `repo` or a metric from that repository's own response |
| `Driver.IssuedQuery` | src/main.py:20-24 | a measures query is sent exactly when the scan exited with 0 for a non-empty name, and it is the query for that repository's project key |
| `Driver.ProcessRepository` | src/main.py:16-26 | one loop pass yields that repository's record and the query it sent, if any |
| `Driver.Run` | src/main.py:7-30 | an empty listing returns early with nothing saved; otherwise there is one record per repository, in listing order, each built from that repository's own scan and response, and the full list is saved once; the i-th query sent is the one `IssuedQuery` gives for the i-th repository and its scan, and `responses(i)` stands for the answer to it; the resulting table has one row per repository and `repo` as its first column |

## Left out

- Running `sonar-scanner` (the command line, working directory and captured output): an external process. Only its outcome is an input.
- The HTTP request itself (the model records only its query parameters), its bearer header and URL, and the 15-second sleep before it: network and timing.
- The environment variables for URL, token and organization: process environment. They only feed the command line and the request, which are not modelled.
- Type mismatches inside the JSON body: a `component` that is not an object raises or fails the shape test, which the model folds into `Undecodable`. A non-list `measures` passes the shape test; if it is empty (`{}`, `""`) the comprehension yields `{}`, which the model writes as an empty `measures` list, and otherwise its items are not objects and reading a field raises, which the model writes as entries without fields. Every such case gives `{}`.
- Non-string metric names and values: the measures API sends strings, and the model uses strings throughout.
- Writing the CSV file (`to_csv`) and building the pandas DataFrame: a foreign library. The table is modelled as a column list plus rows of cells, and an empty cell stands for a missing value.
- `get_repositories_list`: its result depends on the filesystem and on the OS listing order, so the list is an input of `Driver.Run`.
- `src/report_generator.py`: chart rendering with matplotlib and seaborn, floating-point label offsets, and the titles' string casing.
- `src/sonar_analyser.py`: an older draft that only launches the scanner. Its key derivation is the same as `SonarAnalyzer.ProjectKey`.
- The console messages printed along the way.

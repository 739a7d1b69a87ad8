/**
  `main` of `src/main.py`: scan each repository, collect its metrics when the
  scan gave a project key, build one record per repository and hand the whole
  list to `save_results_to_csv`. The directory listing is the input `repos`;
  the outcome of the i-th scanner run and of the i-th measures request are
  `scans(i)` and `responses(i)`. The chart rendering after the save is not
  modelled.
 */
module Driver {
  import opened Builtins
  import opened SonarAnalyzer
  import opened FileManager

  /** Python truthiness of the value `analyze_repo` returned. */
  predicate Truthy(key: Option<string>) {
    key.Some? && key.value != ""
  }

  /** A scan gives a usable key exactly when it exits with 0 for a non-empty name. */
  lemma TruthyKeyIffScanSucceeded(repoName: string, scan: ScanOutcome)
    ensures Truthy(AnalyzeRepo(repoName, scan)) <==> scan == Exited(0) && repoName != ""
  {
    ProjectKeyEmpty(repoName);
  }

  /**
    The record `main` builds for one repository: `{"repo": repo}`, updated
    with the repository's metrics only when the scan gave a truthy key.
   */
  function RepoRecord(repo: string, scan: ScanOutcome, response: Response): (record: Record)
    ensures !Truthy(AnalyzeRepo(repo, scan)) ==> record == map["repo" := repo]
    ensures Truthy(AnalyzeRepo(repo, scan)) ==>
              && record.Keys == {"repo"} + GetSonarMetrics(response).Keys
              && (forall k :: k in GetSonarMetrics(response) ==> record[k] == GetSonarMetrics(response)[k])
              && record["repo"] == (if "repo" in GetSonarMetrics(response)
                                    then GetSonarMetrics(response)["repo"] else repo)
  {
    var base := map["repo" := repo];
    if Truthy(AnalyzeRepo(repo, scan)) then base + GetSonarMetrics(response) else base
  }

  /** Every key of a record is `repo` or a metric of that repository's own response. */
  lemma RecordKeysComeFromOwnResponse(repo: string, scan: ScanOutcome, response: Response)
    ensures forall k :: k in RepoRecord(repo, scan, response) ==> k == "repo" || k in GetSonarMetrics(response)
    ensures "repo" in RepoRecord(repo, scan, response)
  {
  }

  /**
    The measures query `main` sends for one repository: the query for its
    project key when the scan gave a truthy key, and none otherwise.
   */
  function IssuedQuery(repo: string, scan: ScanOutcome): (query: Option<map<string, string>>)
    ensures query.Some? <==> scan == Exited(0) && repo != ""
    ensures query.Some? ==> query.value == MeasuresQuery(ProjectKey(repo))
  {
    TruthyKeyIffScanSucceeded(repo, scan);
    var key := AnalyzeRepo(repo, scan);
    if Truthy(key) then Some(MeasuresQuery(key.value)) else None
  }

  /**
    How `main` ended: early for an empty listing, or after saving the records.
    `queries[i]` is the measures query sent for the i-th repository, if any;
    `responses(i)` stands for the server's answer to it.
   */
  datatype RunOutcome =
    | NoRepositories
    | Completed(results: seq<Record>, queries: seq<Option<map<string, string>>>, table: Option<Table>)

  /**
    One pass of `main`'s loop: scan the repository and, when the scan gave a
    truthy key, query its metrics and merge them into `{"repo": repo}`.
   */
  method ProcessRepository(repo: string, scan: ScanOutcome, response: Response)
    returns (result: Record, query: Option<map<string, string>>)
    ensures result == RepoRecord(repo, scan, response)
    ensures query == IssuedQuery(repo, scan)
  {
    var projectKey := AnalyzeRepo(repo, scan);
    result := map["repo" := repo];
    query := None;
    if Truthy(projectKey) {
      query := Some(MeasuresQuery(projectKey.value));
      result := result + GetSonarMetrics(response);
    }
  }

  /**
    `main`: returns early when there are no repositories; otherwise builds one
    record per repository, in listing order, each from that repository's own
    scan and response, and saves the full list once, after the loop.
   */
  method Run(repos: seq<string>, scans: nat -> ScanOutcome, responses: nat -> Response)
    returns (outcome: RunOutcome)
    ensures repos == [] <==> outcome == NoRepositories
    ensures outcome.Completed? ==>
              && |outcome.results| == |repos|
              && (forall i :: 0 <= i < |repos| ==>
                    outcome.results[i] == RepoRecord(repos[i], scans(i), responses(i)))
              && outcome.table == SaveResultsToCsv(outcome.results)
    ensures outcome.Completed? ==>
              && |outcome.queries| == |repos|
              && forall i :: 0 <= i < |repos| ==>
                   outcome.queries[i] == IssuedQuery(repos[i], scans(i))
    ensures outcome.Completed? ==>
              && outcome.table.Some?
              && |outcome.table.value.rows| == |repos|
              && outcome.table.value.columns != []
              && outcome.table.value.columns[0] == "repo"
  {
    if repos == [] {
      return NoRepositories;
    }

    var sonarResults: seq<Record> := [];
    var queries: seq<Option<map<string, string>>> := [];
    for i := 0 to |repos|
      invariant |sonarResults| == i
      invariant |queries| == i
      invariant forall j :: 0 <= j < i ==> queries[j] == IssuedQuery(repos[j], scans(j))
      invariant forall j :: 0 <= j < i ==> sonarResults[j] == RepoRecord(repos[j], scans(j), responses(j))
    {
      var result, query := ProcessRepository(repos[i], scans(i), responses(i));
      ghost var previous := queries;
      queries := queries + [query];
      forall j | 0 <= j < i + 1 ensures queries[j] == IssuedQuery(repos[j], scans(j)) {
        if j < i {
          assert queries[j] == previous[j];
        }
      }
      sonarResults := sonarResults + [result];
    }

    RepoColumnComesFirst(sonarResults);
    outcome := Completed(sonarResults, queries, SaveResultsToCsv(sonarResults));
  }
}

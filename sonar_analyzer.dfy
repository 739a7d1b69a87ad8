/**
  The scanner step and the measures query of `src/sonar_analyzer.py`.
  The external effects are inputs here: what the `sonar-scanner` process
  did (`ScanOutcome`) and what the measures endpoint answered
  (`Response`, already decoded from JSON).
 */
module SonarAnalyzer {
  import opened Builtins

  // ---------------------------------------------------------------------------
  // Project key

  /** The project key: the repository name with every '/' replaced by '_'. */
  function ProjectKey(repoName: string): (key: string)
    ensures |key| == |repoName|
    ensures forall i :: 0 <= i < |repoName| ==>
              key[i] == (if repoName[i] == '/' then '_' else repoName[i])
  {
    if repoName == [] then ""
    else [if repoName[0] == '/' then '_' else repoName[0]] + ProjectKey(repoName[1..])
  }

  /** A project key never holds a '/'. */
  lemma ProjectKeyHasNoSlash(repoName: string)
    ensures '/' !in ProjectKey(repoName)
  {
    var key := ProjectKey(repoName);
    forall i | 0 <= i < |key| ensures key[i] != '/' {
    }
  }

  /** A name without '/' is its own project key. */
  lemma ProjectKeyOfSlashFreeName(repoName: string)
    requires '/' !in repoName
    ensures ProjectKey(repoName) == repoName
  {
    var key := ProjectKey(repoName);
    forall i | 0 <= i < |key| ensures key[i] == repoName[i] {
      assert repoName[i] in repoName;
    }
  }

  /** Deriving the key twice is the same as deriving it once. */
  lemma ProjectKeyIdempotent(repoName: string)
    ensures ProjectKey(ProjectKey(repoName)) == ProjectKey(repoName)
  {
    ProjectKeyHasNoSlash(repoName);
    ProjectKeyOfSlashFreeName(ProjectKey(repoName));
  }

  /** The key is empty exactly when the name is. */
  lemma ProjectKeyEmpty(repoName: string)
    ensures ProjectKey(repoName) == "" <==> repoName == ""
  {
    assert |ProjectKey(repoName)| == |repoName|;
  }

  lemma ProjectKeyExample()
    ensures ProjectKey("org/pkg") == "org_pkg"
  {
    var key := ProjectKey("org/pkg");
    assert key[3] == '_';
    assert key == ['o', 'r', 'g', '_', 'p', 'k', 'g'];
  }

  // ---------------------------------------------------------------------------
  // Scanner run

  /**
    What the `try` block of `analyze_repo` did: the scanner exited with a
    status, or something inside the block raised (spawning the process,
    decoding its captured output, printing it), whatever the exit status was.
   */
  datatype ScanOutcome = Exited(code: int) | Raised

  /** `analyze_repo`: the project key after a clean exit, `None` otherwise. */
  function AnalyzeRepo(repoName: string, scan: ScanOutcome): (key: Option<string>)
    ensures key.Some? <==> scan == Exited(0)
    ensures key.Some? ==> key.value == ProjectKey(repoName)
  {
    match scan
    case Raised => None
    case Exited(code) => if code != 0 then None else Some(ProjectKey(repoName))
  }

  // ---------------------------------------------------------------------------
  // Measures query

  /** The metrics requested from the measures endpoint, in request order. */
  const Metrics: seq<string> := [
    "bugs", "code_smells", "vulnerabilities", "coverage",
    "duplicated_lines_density", "ncloc", "complexity",
    "security_hotspots", "reliability_rating", "security_rating",
    "sqale_rating"
  ]

  lemma MetricsAreDistinct()
    ensures |Metrics| == 11 && Distinct(Metrics)
  {
  }

  /** The `metricKeys` parameter: the metric names separated by commas. */
  function MetricKeys(): (s: string)
    ensures Split(s, ',') == Metrics
  {
    forall i | 0 <= i < |Metrics| ensures ',' !in Metrics[i] {
    }
    SplitJoin(Metrics, ',');
    Join(Metrics, ',')
  }

  /** The query parameters of the measures request for one project. */
  function MeasuresQuery(projectKey: string): (params: map<string, string>)
    ensures params.Keys == {"component", "metricKeys"}
    ensures params["component"] == projectKey
    ensures Split(params["metricKeys"], ',') == Metrics
  {
    map["component" := projectKey, "metricKeys" := MetricKeys()]
  }

  /**
    One entry of the `measures` list. A field the entry lacks is `None`; an
    entry that is not an object at all has neither field. Reading a missing
    field raises, as `measure['metric']` does.
   */
  datatype Measure = Measure(metric: Option<string>, value: Option<string>)

  /** The `component` object of the body; `measures` is `None` when absent. */
  datatype Component = Component(measures: Option<seq<Measure>>)

  /** The decoded JSON body, or a body whose decoding raised. */
  datatype Body = Decoded(component: Option<Component>) | Undecodable

  /** What the HTTP request gave: a status and body, or an exception. */
  datatype Response = Responded(status: int, body: Body) | RequestRaised

  predicate Complete(m: Measure) {
    m.metric.Some? && m.value.Some?
  }

  /**
    The dict comprehension `{m['metric']: m['value'] for m in measures}`:
    `None` when some entry lacks a field (the comprehension raises), else the
    map in which a later entry overrides an earlier one.
   */
  function Flatten(measures: seq<Measure>): (r: Option<map<string, string>>)
    ensures r.Some? <==> forall i :: 0 <= i < |measures| ==> Complete(measures[i])
    ensures r.Some? ==>
              r.value.Keys == set i | 0 <= i < |measures| && measures[i].metric.Some? :: measures[i].metric.value
  {
    if measures == [] then Some(map[])
    else
      var last := measures[|measures| - 1];
      var init := Flatten(measures[..|measures| - 1]);
      if init.Some? && Complete(last) then
        Some(init.value[last.metric.value := last.value.value])
      else
        None
  }

  /** Each metric name maps to the value of the LAST entry carrying that name. */
  lemma {:induction false} FlattenLastEntryWins(measures: seq<Measure>, i: nat, name: string)
    requires Flatten(measures).Some?
    requires i < |measures| && measures[i].metric == Some(name)
    requires forall j :: i < j < |measures| ==> measures[j].metric != Some(name)
    ensures name in Flatten(measures).value
    ensures Flatten(measures).value[name] == measures[i].value.value
  {
    var n := |measures|;
    var init := measures[..n - 1];
    if i < n - 1 {
      assert init[i] == measures[i];
      FlattenLastEntryWins(init, i, name);
    }
  }

  /** True when the response passes every shape check of `get_sonar_metrics`. */
  predicate Accepted(response: Response) {
    && response.Responded?
    && response.status == 200
    && response.body.Decoded?
    && response.body.component.Some?
    && response.body.component.value.measures.Some?
  }

  /** The `measures` list of an accepted response. */
  function MeasuresOf(response: Response): seq<Measure>
    requires Accepted(response)
  {
    response.body.component.value.measures.value
  }

  /** No entry after the i-th carries the same metric name. */
  predicate LastWithItsMetric(measures: seq<Measure>, i: nat)
    requires i < |measures|
  {
    forall j :: i < j < |measures| ==> measures[j].metric != measures[i].metric
  }

  /**
    `get_sonar_metrics`: the flattened measures of an accepted response; the
    empty map on a non-200 status, a missing `component` or `measures`, an
    undecodable body, an incomplete entry, or a failed request.
   */
  function GetSonarMetrics(response: Response): (metrics: map<string, string>)
    ensures response.RequestRaised? ==> metrics == map[]
    ensures response.Responded? && response.status != 200 ==> metrics == map[]
    ensures response.Responded? && response.body.Undecodable? ==> metrics == map[]
    ensures response.Responded? && response.body.Decoded? && response.body.component.None? ==> metrics == map[]
    ensures (response.Responded? && response.body.Decoded? && response.body.component.Some? &&
             response.body.component.value.measures.None?) ==> metrics == map[]
    ensures metrics != map[] ==> Accepted(response)
  {
    match response
    case RequestRaised => map[]
    case Responded(status, body) =>
      if status != 200 then map[]
      else
        match body
        case Undecodable => map[]
        case Decoded(component) =>
          if component.Some? && component.value.measures.Some? then
            match Flatten(component.value.measures.value)
            case Some(flat) => flat
            case None => map[]
          else map[]
  }

  /**
    For an accepted response whose entries are all complete, the keys are
    exactly the entries' metric names, each mapped to its last entry's value;
    an empty `measures` list gives the empty map.
   */
  lemma MetricsOfAcceptedResponse(response: Response)
    requires Accepted(response)
    requires forall i :: 0 <= i < |MeasuresOf(response)| ==> Complete(MeasuresOf(response)[i])
    ensures GetSonarMetrics(response).Keys ==
              set i | 0 <= i < |MeasuresOf(response)| && MeasuresOf(response)[i].metric.Some? ::
                MeasuresOf(response)[i].metric.value
    ensures MeasuresOf(response) == [] ==> GetSonarMetrics(response) == map[]
    ensures forall i :: 0 <= i < |MeasuresOf(response)| && LastWithItsMetric(MeasuresOf(response), i) ==>
              GetSonarMetrics(response)[MeasuresOf(response)[i].metric.value] == MeasuresOf(response)[i].value.value
  {
    var measures := MeasuresOf(response);
    forall i | 0 <= i < |measures| && LastWithItsMetric(measures, i)
      ensures GetSonarMetrics(response)[measures[i].metric.value] == measures[i].value.value
    {
      FlattenLastEntryWins(measures, i, measures[i].metric.value);
    }
  }

  /** An accepted response with one incomplete entry yields the empty map. */
  lemma IncompleteMeasureGivesNothing(response: Response, i: nat)
    requires Accepted(response)
    requires i < |MeasuresOf(response)|
    requires !Complete(MeasuresOf(response)[i])
    ensures GetSonarMetrics(response) == map[]
  {
  }
}

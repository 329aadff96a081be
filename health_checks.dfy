/**
 * The decision logic of common/health_checks.py: aggregating the probe results into an overall
 * status, choosing between the HTML page and the JSON body, the per-check classification of the
 * HTML page, and the readiness probe's order of checks. The probes themselves are inputs.
 */
module HealthChecks {
  import opened Json
  import opened Text

  /** One probe result, a dict such as `{'status': True, 'type': 'cache', ...}`. */
  type Check = map<string, Value>

  /** Every probe reports a `status` entry, which `health_check` indexes directly. */
  predicate HasStatuses(checks: map<string, Check>) {
    forall n :: n in checks ==> "status" in checks[n]
  }

  predicate Failing(check: Check)
    requires "status" in check
  {
    !Truthy(check["status"])
  }

  predicate Warning(check: Check) {
    Truthy(Get(check, "warning", Bool(false)))
  }

  /**
   * The overall status of `health_check`: `unhealthy` when some status is falsy, otherwise
   * `warning` when some check carries a truthy warning, otherwise `healthy`.
   */
  function OverallStatus(checks: map<string, Check>): (s: string)
    requires HasStatuses(checks)
    ensures s in {"healthy", "warning", "unhealthy"}
  {
    if exists n :: n in checks && Failing(checks[n]) then "unhealthy"
    else if exists n :: n in checks && Warning(checks[n]) then "warning"
    else "healthy"
  }

  /** `'text/html' in accept and 'application/json' not in accept`. */
  predicate WantsHtml(accept: string) {
    Contains(accept, "text/html") && !Contains(accept, "application/json")
  }

  /** An Accept header of just `text/html` gets the page. */
  lemma HtmlOnlyGetsPage()
    ensures WantsHtml("text/html")
  {
    ContainsIffSlice("text/html", "application/json");
  }

  /** An Accept header that also names JSON gets JSON, and so does a missing one. */
  lemma JsonAcceptGetsJson()
    ensures !WantsHtml("text/html, application/json")
    ensures !WantsHtml("")
  {
    var both := "text/html, application/json";
    var json := "application/json";
    assert both == both[..11] + json;
    ContainsSuffix(both[..11], json);
  }

  // ---------------------------------------------------------------------------------------
  // The HTML context

  /** The CSS class and badge of a status. */
  datatype Style = Style(cssClass: string, badge: string)

  /** `status_mapping.get(status, unknown)`: `error` shares the unhealthy style. */
  function StatusStyle(status: string): (st: Style)
    ensures status == "healthy" ==> st == Style("healthy", "success")
    ensures status == "warning" ==> st == Style("warning", "warning")
    ensures status == "unhealthy" || status == "error" ==> st == Style("unhealthy", "danger")
    ensures status !in {"healthy", "warning", "unhealthy", "error"} ==> st == Style("unknown", "secondary")
  {
    var mapping := map[
      "healthy" := Style("healthy", "success"),
      "warning" := Style("warning", "warning"),
      "unhealthy" := Style("unhealthy", "danger"),
      "error" := Style("unhealthy", "danger")];
    if status in mapping then mapping[status] else Style("unknown", "secondary")
  }

  /** The overall style always names the overall status itself as its class. */
  lemma OverallStyleNamesStatus(checks: map<string, Check>)
    requires HasStatuses(checks)
    ensures StatusStyle(OverallStatus(checks)).cssClass == OverallStatus(checks)
    ensures StatusStyle(OverallStatus(checks)).badge != "secondary"
  {
  }

  /** The classification of one check on the page: class, badge and tag. */
  datatype Label = Label(cssClass: string, badge: string, text: string)

  /**
   * A check whose status is falsy or missing is unhealthy; otherwise a truthy warning makes it a
   * warning; otherwise it is healthy.
   */
  function Classify(check: Check): Label {
    if !Truthy(Get(check, "status", Bool(false))) then Label("unhealthy", "danger", "Unhealthy")
    else if Truthy(Get(check, "warning", Bool(false))) then Label("warning", "warning", "Warning")
    else Label("healthy", "success", "Healthy")
  }

  const UiKeys: set<string> := {"status_class", "badge_class", "status_text"}

  /** `{**check_data, 'status_class': ..., 'badge_class': ..., 'status_text': ...}`. */
  function ProcessCheck(check: Check): (p: Check)
    ensures p.Keys == check.Keys + UiKeys
    ensures forall k :: k in check && k !in UiKeys ==> p[k] == check[k]
    ensures p["status_class"] == Str(Classify(check).cssClass)
    ensures p["badge_class"] == Str(Classify(check).badge)
    ensures p["status_text"] == Str(Classify(check).text)
  {
    var tag := Classify(check);
    check + map["status_class" := Str(tag.cssClass), "badge_class" := Str(tag.badge),
                "status_text" := Str(tag.text)]
  }

  /** `processed_checks`: every check, under its own name, processed. */
  function ProcessedChecks(checks: map<string, Check>): (p: map<string, Check>)
    ensures p.Keys == checks.Keys
  {
    map n | n in checks :: ProcessCheck(checks[n])
  }

  /**
   * The page's classification agrees with the overall status: the overall status is
   * `unhealthy` exactly when some check is classed unhealthy, `warning` exactly when none is
   * unhealthy and some is a warning.
   */
  lemma OverallAgreesWithClassification(checks: map<string, Check>)
    requires HasStatuses(checks)
    ensures OverallStatus(checks) == "unhealthy" <==>
      exists n :: n in checks && Classify(checks[n]).cssClass == "unhealthy"
    ensures OverallStatus(checks) == "warning" <==>
      && (forall n :: n in checks ==> Classify(checks[n]).cssClass != "unhealthy")
      && (exists n :: n in checks && Classify(checks[n]).cssClass == "warning")
    ensures OverallStatus(checks) == "healthy" <==>
      forall n :: n in checks ==> Classify(checks[n]).cssClass == "healthy"
  {
    if OverallStatus(checks) == "unhealthy" {
      var n :| n in checks && Failing(checks[n]);
      assert Classify(checks[n]).cssClass == "unhealthy";
    } else if OverallStatus(checks) == "warning" {
      var n :| n in checks && Warning(checks[n]);
      assert Classify(checks[n]).cssClass == "warning";
    }
  }

  function StrMap(m: map<string, Check>): map<string, Value> {
    map n | n in m :: Dict(m[n])
  }

  lemma SameEntries(a: map<string, Check>, b: map<string, Check>)
    requires forall n :: n in a <==> n in b
    requires forall n :: n in a ==> a[n] == b[n]
    ensures a == b
  {
  }

  /** The template context `prepare_html_context` assembles around the processed checks. */
  function HtmlContext(status: string, processed: map<string, Check>, version: Value, timestamp: string,
                       projectName: string): map<string, Value>
  {
    var style := StatusStyle(status);
    map["status" := Str(status),
        "overall_status_class" := Str(style.cssClass),
        "status_badge_class" := Str(style.badge),
        "checks" := Dict(StrMap(processed)),
        "version" := version,
        "timestamp" := Str(timestamp),
        "project_name" := Str(projectName)]
  }

  /** `prepare_html_context`: processes the checks, then assembles the template context. */
  method PrepareHtmlContext(status: string, checks: map<string, Check>, version: Value, timestamp: string,
                            projectName: string) returns (context: map<string, Value>)
    ensures context == HtmlContext(status, ProcessedChecks(checks), version, timestamp, projectName)
  {
    var processed := ProcessChecks(checks);
    context := HtmlContext(status, processed, version, timestamp, projectName);
  }

  /** The loop of `prepare_html_context`: each check, one by one, into a new dict. */
  method ProcessChecks(checks: map<string, Check>) returns (processed: map<string, Check>)
    ensures processed == ProcessedChecks(checks)
  {
    processed := map[];
    var remaining := checks.Keys;
    while remaining != {}
      invariant remaining <= checks.Keys
      invariant forall n :: n in processed <==> n in checks && n !in remaining
      invariant forall n :: n in processed ==> processed[n] == ProcessCheck(checks[n])
      decreases |remaining|
    {
      var name :| name in remaining;
      var checkData := checks[name];
      var tag := Classify(checkData);
      var entry := checkData + map["status_class" := Str(tag.cssClass),
                                   "badge_class" := Str(tag.badge),
                                   "status_text" := Str(tag.text)];
      assert entry == ProcessCheck(checkData);
      processed := processed[name := entry];
      remaining := remaining - {name};
    }
    SameEntries(processed, ProcessedChecks(checks));
  }

  // ---------------------------------------------------------------------------------------
  // The endpoints

  datatype HealthResponse =
    | HtmlPage(code: int, context: map<string, Value>)
    | JsonBody(code: int, data: map<string, Value>)

  /**
   * `health_check` once the probes have answered: the page for browsers, JSON otherwise, with
   * 200 for a healthy application and 503 for any other overall status.
   */
  function HealthCheck(checks: map<string, Check>, accept: string, timestamp: string, version: Value,
                       projectName: string): (r: HealthResponse)
    requires HasStatuses(checks)
    ensures r.HtmlPage? <==> WantsHtml(accept)
    ensures r.code == 200 <==> OverallStatus(checks) == "healthy"
    ensures r.code == 200 || r.code == 503
    ensures r.JsonBody? ==> "status" in r.data && "checks" in r.data && r.data["status"] == Str(OverallStatus(checks)) && r.data["checks"] == Dict(StrMap(checks))
    ensures r.HtmlPage? ==> "checks" in r.context && r.context["checks"] == Dict(StrMap(ProcessedChecks(checks)))
  {
    var overall := OverallStatus(checks);
    if WantsHtml(accept) then
      HtmlPage(if overall != "healthy" then 503 else 200,
               HtmlContext(overall, ProcessedChecks(checks), version, timestamp, projectName))
    else
      JsonBody(if overall == "healthy" then 200 else 503,
               map["status" := Str(overall), "timestamp" := Str(timestamp),
                   "checks" := Dict(StrMap(checks)), "version" := version])
  }

  /** The page and the JSON body report the same status code for the same probe results. */
  lemma HtmlAndJsonCodesAgree(checks: map<string, Check>, accept1: string, accept2: string,
                              timestamp: string, version: Value, projectName: string)
    requires HasStatuses(checks)
    ensures HealthCheck(checks, accept1, timestamp, version, projectName).code
         == HealthCheck(checks, accept2, timestamp, version, projectName).code
  {
  }

  datatype ProbeResponse = ProbeResponse(code: int, body: map<string, Value>)

  /**
   * `readiness_probe`: the database is checked first and a failure there answers
   * `database_unavailable`; only then is the cache consulted; both passing answers `ready`.
   */
  function Readiness(db: Check, cache: Check): (r: ProbeResponse)
    requires "status" in db
    requires Truthy(db["status"]) ==> "status" in cache
    ensures r.code == 200 <==> Truthy(db["status"]) && Truthy(cache["status"])
    ensures r.code != 200 ==> r.code == 503 && "status" in r.body && r.body["status"] == Str("not_ready")
    ensures r.code == 200 ==> r.body == map["status" := Str("ready")]
    ensures !Truthy(db["status"]) ==>
      r.body == map["status" := Str("not_ready"), "reason" := Str("database_unavailable")]
    ensures Truthy(db["status"]) && !Truthy(cache["status"]) ==>
      r.body == map["status" := Str("not_ready"), "reason" := Str("cache_unavailable")]
  {
    if !Truthy(db["status"]) then
      ProbeResponse(503, map["status" := Str("not_ready"), "reason" := Str("database_unavailable")])
    else if !Truthy(cache["status"]) then
      ProbeResponse(503, map["status" := Str("not_ready"), "reason" := Str("cache_unavailable")])
    else
      ProbeResponse(200, map["status" := Str("ready")])
  }

  /** With the database down, the cache's answer makes no difference. */
  lemma ReadinessIgnoresCacheWhenDatabaseDown(db: Check, cache1: Check, cache2: Check)
    requires "status" in db && !Truthy(db["status"])
    ensures Readiness(db, cache1) == Readiness(db, cache2)
  {
  }
}

/**
 * The version-dependent behaviour of config/versioning.py: the version a request carries, the
 * serializer context derived from it, the two response envelopes, and the deprecation headers.
 */
module Versioning {
  import opened Wrappers
  import opened Json

  /**
   * The `version` attribute of a request: never set, set to None (no versioning scheme matched),
   * or set to a version name.
   */
  datatype VersionAttr = Unset | NoVersion | Named(name: string)

  /** `getattr(request, 'version', 'v1')`, with Python's None as `None`. */
  function RequestVersion(attr: VersionAttr): (v: Option<string>)
    ensures attr.Unset? ==> v == Some("v1")
    ensures attr.NoVersion? <==> v.None?
    ensures attr.Named? ==> v == Some(attr.name)
  {
    match attr
    case Unset => Some("v1")
    case NoVersion => None
    case Named(name) => Some(name)
  }

  /** `str(version)`: the name itself, or `None`. */
  function VersionText(v: Option<string>): string {
    match v
    case None => "None"
    case Some(name) => name
  }

  /** The context `get_api_version_context` builds (the request itself is left out). */
  datatype VersionContext = VersionContext(version: Option<string>, isV1: bool, isV2: bool)

  function ApiVersionContext(attr: VersionAttr): (c: VersionContext)
    ensures c.version == RequestVersion(attr)
    ensures c.isV1 <==> c.version == Some("v1")
    ensures c.isV2 <==> c.version == Some("v2")
    ensures !(c.isV1 && c.isV2)
    ensures attr.Unset? ==> c.isV1
  {
    var version := RequestVersion(attr);
    VersionContext(version, version == Some("v1"), version == Some("v2"))
  }

  // ---------------------------------------------------------------------------------------
  // VersionedResponse

  datatype Response = Response(code: int, body: map<string, Value>)

  function VersionValue(v: Option<string>): Value {
    match v
    case None => Null
    case Some(name) => Str(name)
  }

  /** `VersionedResponse.success`: the v1 envelope for `v1`, the newer one for anything else. */
  function Success(data: Value, message: string, version: Option<string>): (r: Response)
    ensures r.code == 200
    ensures version == Some("v1") ==> r.body.Keys == {"success", "message", "data"} && r.body["success"] == Bool(true)
    ensures version != Some("v1") ==>
      && r.body.Keys == {"status", "message", "result", "version"} && r.body["status"] == Str("success")
      && r.body["version"] == (if version.None? then Null else Str(version.value))
  {
    if version == Some("v1") then
      Response(200, map["success" := Bool(true), "message" := Str(message), "data" := data])
    else
      Response(200, map["status" := Str("success"), "message" := Str(message), "result" := data,
                        "version" := VersionValue(version)])
  }

  /** `VersionedResponse.error`: the same split, with code 400. */
  function Error(message: string, errors: Value, version: Option<string>): (r: Response)
    ensures r.code == 400
    ensures version == Some("v1") ==> r.body.Keys == {"success", "message", "errors"} && r.body["success"] == Bool(false)
    ensures version != Some("v1") ==>
      && r.body.Keys == {"status", "message", "details", "version"} && r.body["status"] == Str("error")
      && r.body["version"] == (if version.None? then Null else Str(version.value))
  {
    if version == Some("v1") then
      Response(400, map["success" := Bool(false), "message" := Str(message), "errors" := errors])
    else
      Response(400, map["status" := Str("error"), "message" := Str(message), "details" := errors,
                        "version" := VersionValue(version)])
  }

  /** What a client reads out of either envelope: outcome, message and payload. */
  datatype Envelope = Envelope(ok: bool, message: string, payload: Value)

  /** A client's reading of a response body, whichever format it is in. */
  function ReadEnvelope(body: map<string, Value>): Option<Envelope> {
    if "message" !in body || !body["message"].Str? then None
    else if "success" in body && body["success"].Bool? then
      var ok := body["success"].b;
      var key := if ok then "data" else "errors";
      if key in body then Some(Envelope(ok, body["message"].s, body[key])) else None
    else if "status" in body && body["status"] in {Str("success"), Str("error")} then
      var ok := body["status"] == Str("success");
      var key := if ok then "result" else "details";
      if key in body then Some(Envelope(ok, body["message"].s, body[key])) else None
    else None
  }

  /**
   * Both envelopes, for every version, carry the outcome, the message and the payload: a client
   * reading either format gets back exactly what was passed in.
   */
  lemma EnvelopesRoundTrip(data: Value, message: string, version: Option<string>)
    ensures ReadEnvelope(Success(data, message, version).body) == Some(Envelope(true, message, data))
    ensures ReadEnvelope(Error(message, data, version).body) == Some(Envelope(false, message, data))
  {
  }

  // ---------------------------------------------------------------------------------------
  // Deprecation headers

  const WarningHeader := "X-API-Warning"
  const DateHeader := "X-API-Deprecation-Date"

  /** The name of the view attribute holding a version's deprecation date. */
  function DateAttribute(v: Option<string>): string {
    "deprecation_date_" + VersionText(v)
  }

  /**
   * The headers after `handle_deprecated_version`: for a deprecated version, the warning and the
   * date (`Unknown` when the view names none) are set on top of the existing headers; otherwise
   * the headers are as they were.
   */
  function DeprecationHeaders(version: Option<string>, deprecated: seq<Option<string>>,
                              dates: map<string, string>, headers: map<string, string>): (h: map<string, string>)
    ensures version !in deprecated ==> h == headers
    ensures version in deprecated ==> h.Keys == headers.Keys + {WarningHeader, DateHeader}
    ensures version in deprecated ==> h[WarningHeader] == "API version " + VersionText(version) + " is deprecated"
    ensures version in deprecated ==>
      h[DateHeader] == if DateAttribute(version) in dates then dates[DateAttribute(version)] else "Unknown"
    ensures forall k :: k in headers && k != WarningHeader && k != DateHeader ==> k in h && h[k] == headers[k]
  {
    if version in deprecated then
      var date := if DateAttribute(version) in dates then dates[DateAttribute(version)] else "Unknown";
      headers[WarningHeader := "API version " + VersionText(version) + " is deprecated"][DateHeader := date]
    else headers
  }

  /** Handling the deprecation a second time changes nothing more. */
  lemma DeprecationHeadersIdempotent(version: Option<string>, deprecated: seq<Option<string>>,
                                     dates: map<string, string>, headers: map<string, string>)
    ensures var once := DeprecationHeaders(version, deprecated, dates, headers);
      DeprecationHeaders(version, deprecated, dates, once) == once
  {
    var once := DeprecationHeaders(version, deprecated, dates, headers);
    if version in deprecated {
      var twice := DeprecationHeaders(version, deprecated, dates, once);
      assert twice.Keys == once.Keys;
      assert forall k :: k in once ==> twice[k] == once[k];
    }
  }

  /** The part of a versioned view that `handle_deprecated_version` reads and writes. */
  class APIVersionView {
    var requestVersion: VersionAttr
    var deprecatedVersions: seq<Option<string>>
    var deprecationDates: map<string, string>
    var headers: map<string, string>

    constructor (requestVersion: VersionAttr, deprecatedVersions: seq<Option<string>>,
                 deprecationDates: map<string, string>)
      ensures this.requestVersion == requestVersion
      ensures this.deprecatedVersions == deprecatedVersions
      ensures this.deprecationDates == deprecationDates
      ensures headers == map[]
    {
      this.requestVersion := requestVersion;
      this.deprecatedVersions := deprecatedVersions;
      this.deprecationDates := deprecationDates;
      headers := map[];
    }

    /** `handle_deprecated_version`: adds the two headers for a deprecated version, in place. */
    method HandleDeprecatedVersion()
      modifies this`headers
      ensures headers == DeprecationHeaders(RequestVersion(requestVersion), deprecatedVersions,
                                            deprecationDates, old(headers))
    {
      var version := RequestVersion(requestVersion);
      if version in deprecatedVersions {
        headers := headers[WarningHeader := "API version " + VersionText(version) + " is deprecated"];
        var date := "Unknown";
        if DateAttribute(version) in deprecationDates {
          date := deprecationDates[DateAttribute(version)];
        }
        headers := headers[DateHeader := date];
      }
    }
  }
}

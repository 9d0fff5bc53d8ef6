/** The wire vocabulary shared by the capture process, the dispatcher and
    the classifier: the messages read from the capture process and the
    update sent to the client, with their JSON field names. */
module Types {
  import opened Wrappers
  import opened Json

  /** The severities the classifier assigns. */
  datatype Severity = High | Medium | Critical {
    function Wire(): string {
      match this
      case High => "high"
      case Medium => "medium"
      case Critical => "critical"
    }
  }

  /** The issues the classifier reports. */
  datatype Issue = UnencryptedHttp | ThirdPartyTracker | HiddenFirstPartyTracker | PiiEmailLeak {
    function Wire(): string {
      match this
      case UnencryptedHttp => "Unencrypted (HTTP)"
      case ThirdPartyTracker => "3rd Party Tracker"
      case HiddenFirstPartyTracker => "Hidden 1st Party Tracker"
      case PiiEmailLeak => "PII (Email) Leak"
    }
  }

  /** One finding about a request: an issue label and its severity. */
  datatype Violation = Violation(issue: Issue, severity: Severity)

  /** Geolocation of a request's host; the resolver is outside this model. */
  datatype GeoData = GeoData(lat: real, lon: real, country: string)

  /** One network request as the capture process reports it. */
  datatype RawTraffic = RawTraffic(url: string, httpMethod: string, resourceType: string, postData: Option<string>)

  /** The classified request sent to the client. */
  datatype TrafficUpdate = TrafficUpdate(
    url: string,
    httpMethod: string,
    resourceType: string,
    domain: string,
    violations: seq<Violation>,
    geo: GeoData,
    isTracker: bool)

  /** A message of the capture process, selected by its `type` field. */
  datatype NodeMessage =
    | Status(message: string)
    | Error(message: string)
    | Traffic(data: RawTraffic)

  // ---------------------------------------------------------------------
  // Decoding (serde's derived `Deserialize`)
  // ---------------------------------------------------------------------

  /** A required string field: present and a JSON string. */
  function StringField(m: map<string, Json>, key: string): (r: Option<string>)
    ensures r.Some? <==> key in m && m[key].JString?
    ensures r.Some? ==> m[key] == JString(r.value)
  {
    if key in m && m[key].JString? then Some(m[key].s) else None
  }

  /** An `Option<String>` value: `null` is `None`, a string is `Some`,
      anything else fails. */
  function OptionalString(j: Json): (r: Option<Option<string>>)
    ensures r.Some? <==> j.JNull? || j.JString?
    ensures r == Some(None) <==> j.JNull?
    ensures j.JString? ==> r == Some(Some(j.s))
  {
    match j
    case JNull => Some(None)
    case JString(s) => Some(Some(s))
    case _ => None
  }

  /** A `RawTraffic`, from an object with keys `url`, `method`,
      `resourceType` and `postData` (optional; other keys are ignored), or
      from an array of exactly those four values in that order. */
  function DecodeRawTraffic(j: Json): (r: Option<RawTraffic>)
    ensures r.Some? && j.JObject? ==>
      && "url" in j.fields && j.fields["url"] == JString(r.value.url)
      && "method" in j.fields && j.fields["method"] == JString(r.value.httpMethod)
      && "resourceType" in j.fields && j.fields["resourceType"] == JString(r.value.resourceType)
      && (r.value.postData.None? <==> "postData" !in j.fields || j.fields["postData"] == JNull)
    ensures r.Some? && j.JObject? && r.value.postData.Some? ==>
      "postData" in j.fields && j.fields["postData"] == JString(r.value.postData.value)
    ensures j.JObject? ==>
      (r.Some? <==>
        && "url" in j.fields && j.fields["url"].JString?
        && "method" in j.fields && j.fields["method"].JString?
        && "resourceType" in j.fields && j.fields["resourceType"].JString?
        && ("postData" in j.fields ==> j.fields["postData"].JNull? || j.fields["postData"].JString?))
    ensures j.JArray? ==>
      (r.Some? <==>
        && |j.items| == 4
        && j.items[0].JString? && j.items[1].JString? && j.items[2].JString?
        && (j.items[3].JNull? || j.items[3].JString?))
    ensures r.Some? && j.JArray? ==>
      && j.items[0] == JString(r.value.url)
      && j.items[1] == JString(r.value.httpMethod)
      && j.items[2] == JString(r.value.resourceType)
      && j.items[3] == (if r.value.postData.None? then JNull else JString(r.value.postData.value))
    ensures r.Some? ==> j.JObject? || j.JArray?
  {
    match j
    case JObject(m) =>
      var url :- StringField(m, "url");
      var httpMethod :- StringField(m, "method");
      var resourceType :- StringField(m, "resourceType");
      var postData :- if "postData" in m then OptionalString(m["postData"]) else Some(None);
      Some(RawTraffic(url, httpMethod, resourceType, postData))
    case JArray(xs) =>
      if |xs| == 4 && xs[0].JString? && xs[1].JString? && xs[2].JString? then
        var postData :- OptionalString(xs[3]);
        Some(RawTraffic(xs[0].s, xs[1].s, xs[2].s, postData))
      else None
    case _ => None
  }

  /** The `type` tag of each variant. */
  function Tag(msg: NodeMessage): string {
    match msg
    case Status(_) => "status"
    case Error(_) => "error"
    case Traffic(_) => "traffic"
  }

  /** The variant named by `tag`, from the value of its one field (`message`
      for `status` and `error`, `data` for `traffic`), or `None` when the
      field is missing. */
  function DecodeVariant(tag: string, field: Option<Json>): (r: Option<NodeMessage>)
    ensures r.Some? ==> Tag(r.value) == tag && field.Some?
    ensures r.Some? && !r.value.Traffic? ==> field.value == JString(r.value.message)
    ensures r.Some? && r.value.Traffic? ==> DecodeRawTraffic(field.value) == Some(r.value.data)
  {
    var value :- field;
    if tag == "status" || tag == "error" then
      if value.JString? then
        Some(if tag == "status" then Status(value.s) else Error(value.s))
      else None
    else if tag == "traffic" then
      var data :- DecodeRawTraffic(value);
      Some(Traffic(data))
    else None
  }

  /** The value at `key`, if any. */
  function Lookup(m: map<string, Json>, key: string): Option<Json> {
    if key in m then Some(m[key]) else None
  }

  /** A `NodeMessage` (serde's internally tagged form). From an object, the
      `type` string selects the variant: `status` and `error` need a string
      `message`, `traffic` needs a decodable `data`, and other keys are
      ignored. From an array, the tag comes first and the variant's one
      field second, and nothing may follow. */
  function DecodeMessage(j: Json): (r: Option<NodeMessage>)
    ensures r.Some? ==> j.JObject? || (j.JArray? && |j.items| == 2)
    ensures r.Some? && j.JObject? ==>
      && "type" in j.fields && j.fields["type"] == JString(Tag(r.value))
      && (!r.value.Traffic? ==> "message" in j.fields && j.fields["message"] == JString(r.value.message))
      && (r.value.Traffic? ==> "data" in j.fields && DecodeRawTraffic(j.fields["data"]) == Some(r.value.data))
    ensures r.Some? && j.JArray? ==>
      && j.items[0] == JString(Tag(r.value))
      && (!r.value.Traffic? ==> j.items[1] == JString(r.value.message))
      && (r.value.Traffic? ==> DecodeRawTraffic(j.items[1]) == Some(r.value.data))
    ensures j.JObject? && "type" in j.fields && "message" in j.fields && j.fields["message"].JString? ==>
      && (j.fields["type"] == JString("status") ==> r == Some(Status(j.fields["message"].s)))
      && (j.fields["type"] == JString("error") ==> r == Some(Error(j.fields["message"].s)))
    ensures j.JObject? && "type" in j.fields && j.fields["type"] == JString("traffic") ==>
      (r.Some? <==> "data" in j.fields && DecodeRawTraffic(j.fields["data"]).Some?)
    ensures j.JArray? && |j.items| == 2 && j.items[1].JString? ==>
      && (j.items[0] == JString("status") ==> r == Some(Status(j.items[1].s)))
      && (j.items[0] == JString("error") ==> r == Some(Error(j.items[1].s)))
    ensures j.JArray? && |j.items| == 2 && j.items[0] == JString("traffic") ==>
      (r.Some? <==> DecodeRawTraffic(j.items[1]).Some?)
  {
    match j
    case JObject(m) =>
      var tag :- StringField(m, "type");
      DecodeVariant(tag, Lookup(m, if tag == "traffic" then "data" else "message"))
    case JArray(xs) =>
      if |xs| == 2 && xs[0].JString? then DecodeVariant(xs[0].s, Some(xs[1])) else None
    case _ => None
  }

  // ---------------------------------------------------------------------
  // What the capture process writes (scanner.js `JSON.stringify`)
  // ---------------------------------------------------------------------

  /** A request as the capture process writes it; an absent `postData`
      (`undefined` in JavaScript) is left out of the object. */
  function RawTrafficToJson(r: RawTraffic): Json {
    var base := map["url" := JString(r.url), "method" := JString(r.httpMethod), "resourceType" := JString(r.resourceType)];
    match r.postData
    case None => JObject(base)
    case Some(p) => JObject(base["postData" := JString(p)])
  }

  /** A message as the capture process writes it, tagged by `type`. */
  function MessageToJson(msg: NodeMessage): Json {
    match msg
    case Status(m) => JObject(map["type" := JString("status"), "message" := JString(m)])
    case Error(m) => JObject(map["type" := JString("error"), "message" := JString(m)])
    case Traffic(d) => JObject(map["type" := JString("traffic"), "data" := RawTrafficToJson(d)])
  }

  /** Every message the capture process can write decodes to itself. */
  lemma DecodeMessageToJson(msg: NodeMessage)
    ensures DecodeMessage(MessageToJson(msg)) == Some(msg)
  {
    if msg.Traffic? {
      var d := msg.data;
      assert DecodeRawTraffic(RawTrafficToJson(d)) == Some(d);
    }
  }

  /** `postData` may be written as `null` or left out: both decode to `None`. */
  lemma DecodeNullPostData(r: RawTraffic)
    requires r.postData.None?
    ensures DecodeRawTraffic(JObject(RawTrafficToJson(r).fields["postData" := JNull])) == Some(r)
  {
  }

  /** Keys other than the ones a variant reads do not change the result. */
  lemma DecodeMessageIgnoresExtraKeys(m: map<string, Json>, key: string, v: Json)
    requires key !in {"type", "message", "data"}
    ensures DecodeMessage(JObject(m[key := v])) == DecodeMessage(JObject(m))
  {
    var m' := m[key := v];
    assert "type" in m' <==> "type" in m;
    assert "message" in m' <==> "message" in m;
    assert "data" in m' <==> "data" in m;
  }

  /** Decoding is exhaustive over the three tags: any other tag, or a
      missing or non-string one, is rejected. */
  lemma DecodeMessageClosed(j: Json)
    requires DecodeMessage(j).Some?
    ensures (if j.JObject? then j.fields["type"] else j.items[0]) in {JString("status"), JString("error"), JString("traffic")}
  {
  }

  // ---------------------------------------------------------------------
  // What the client receives (serde's derived `Serialize`)
  // ---------------------------------------------------------------------

  /** A violation as `{"issue": ..., "severity": ...}` with the wire labels. */
  function ViolationToJson(v: Violation): Json {
    JObject(map["issue" := JString(v.issue.Wire()), "severity" := JString(v.severity.Wire())])
  }

  /** The JSON list of an update's violations. */
  function ViolationsToJson(vs: seq<Violation>): seq<Json> {
    seq(|vs|, i requires 0 <= i < |vs| => ViolationToJson(vs[i]))
  }

  /** The geolocation as `{"lat": ..., "lon": ..., "country": ...}`. */
  function GeoToJson(g: GeoData): Json {
    JObject(map["lat" := JNumber(g.lat), "lon" := JNumber(g.lon), "country" := JString(g.country)])
  }

  /** The update as the client receives it: `resourceType` is sent as
      `type` and `isTracker` keeps its name; the other fields keep theirs. */
  function UpdateToJson(u: TrafficUpdate): Json {
    JObject(map[
      "url" := JString(u.url),
      "method" := JString(u.httpMethod),
      "type" := JString(u.resourceType),
      "domain" := JString(u.domain),
      "violations" := JArray(ViolationsToJson(u.violations)),
      "geo" := GeoToJson(u.geo),
      "isTracker" := JBool(u.isTracker)])
  }

  // A reader of the client's view, used to show that no field is lost.

  function SeverityFromWire(s: string): Option<Severity> {
    if s == "high" then Some(High)
    else if s == "medium" then Some(Medium)
    else if s == "critical" then Some(Critical)
    else None
  }

  function IssueFromWire(s: string): Option<Issue> {
    if s == "Unencrypted (HTTP)" then Some(UnencryptedHttp)
    else if s == "3rd Party Tracker" then Some(ThirdPartyTracker)
    else if s == "Hidden 1st Party Tracker" then Some(HiddenFirstPartyTracker)
    else if s == "PII (Email) Leak" then Some(PiiEmailLeak)
    else None
  }

  function ViolationFromJson(j: Json): Option<Violation> {
    match j
    case JObject(m) =>
      var issue :- StringField(m, "issue");
      var severity :- StringField(m, "severity");
      var i :- IssueFromWire(issue);
      var s :- SeverityFromWire(severity);
      Some(Violation(i, s))
    case _ => None
  }

  function ViolationsFromJson(items: seq<Json>): Option<seq<Violation>>
    decreases |items|
  {
    if |items| == 0 then Some([])
    else
      var v :- ViolationFromJson(items[0]);
      var rest :- ViolationsFromJson(items[1..]);
      Some([v] + rest)
  }

  function GeoFromJson(j: Json): Option<GeoData> {
    match j
    case JObject(m) =>
      if "lat" in m && m["lat"].JNumber? && "lon" in m && m["lon"].JNumber? then
        var country :- StringField(m, "country");
        Some(GeoData(m["lat"].n, m["lon"].n, country))
      else None
    case _ => None
  }

  function UpdateFromJson(j: Json): Option<TrafficUpdate> {
    match j
    case JObject(m) =>
      var url :- StringField(m, "url");
      var httpMethod :- StringField(m, "method");
      var kind :- StringField(m, "type");
      var domain :- StringField(m, "domain");
      if "violations" in m && m["violations"].JArray? && "geo" in m && "isTracker" in m && m["isTracker"].JBool? then
        var violations :- ViolationsFromJson(m["violations"].items);
        var geo :- GeoFromJson(m["geo"]);
        Some(TrafficUpdate(url, httpMethod, kind, domain, violations, geo, m["isTracker"].b))
      else None
    case _ => None
  }

  /** The issue and severity labels are distinct, so a label names one value. */
  lemma {:induction false} ViolationsRoundTrip(vs: seq<Violation>)
    ensures ViolationsFromJson(ViolationsToJson(vs)) == Some(vs)
    decreases |vs|
  {
    var items := ViolationsToJson(vs);
    if |vs| > 0 {
      var v := vs[0];
      assert ViolationFromJson(items[0]) == Some(v) by {
        assert items[0] == ViolationToJson(v);
        assert IssueFromWire(v.issue.Wire()) == Some(v.issue);
        assert SeverityFromWire(v.severity.Wire()) == Some(v.severity);
      }
      assert items[1..] == ViolationsToJson(vs[1..]);
      ViolationsRoundTrip(vs[1..]);
      assert [v] + vs[1..] == vs;
    }
  }

  /** Where each field of an update goes on the wire. */
  lemma UpdateToJsonFields(u: TrafficUpdate)
    ensures UpdateToJson(u).JObject?
    ensures UpdateToJson(u).fields.Keys == {"url", "method", "type", "domain", "violations", "geo", "isTracker"}
    ensures UpdateToJson(u).fields["url"] == JString(u.url)
    ensures UpdateToJson(u).fields["method"] == JString(u.httpMethod)
    ensures UpdateToJson(u).fields["type"] == JString(u.resourceType)
    ensures UpdateToJson(u).fields["domain"] == JString(u.domain)
    ensures UpdateToJson(u).fields["violations"] == JArray(ViolationsToJson(u.violations))
    ensures UpdateToJson(u).fields["geo"] == GeoToJson(u.geo)
    ensures UpdateToJson(u).fields["isTracker"] == JBool(u.isTracker)
  {
  }

  /** The update's wire form keeps every field: reading it back gives the
      update. */
  lemma UpdateRoundTrip(u: TrafficUpdate)
    ensures UpdateFromJson(UpdateToJson(u)) == Some(u)
  {
    UpdateToJsonFields(u);
    ViolationsRoundTrip(u.violations);
    var m := UpdateToJson(u).fields;
    assert GeoFromJson(m["geo"]) == Some(u.geo);
  }
}

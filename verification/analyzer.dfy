/** The per-request privacy classifier: transport, tracker and PII checks,
    in that order, plus host extraction. URL host parsing and geolocation
    are supplied as functions. */
module Analyzer {
  import opened Wrappers
  import opened Text
  import opened Types
  import Utf8
  import Percent
  import Email

  /** The host of a URL as the URL parser reports it; `None` when the text
      does not parse or the parsed URL has no host. */
  type HostParser = string -> Option<string>

  /** The geolocation of a request URL. */
  type Locator = string -> GeoData

  /** The domain reported when a URL has no host. */
  const UNKNOWN := "unknown"

  const HTTP_PREFIX := "http://"

  /** The fifteen tracker keywords, matched against the lowercased URL. */
  const KEYWORDS: seq<string> := [
    "analytics", "pixel", "tracker", "telemetry", "collect",
    "facebook", "tiktok", "adsystem", "googleads", "doubleclick",
    "clarity", "hotjar", "fbevents", "measure", "beacon"
  ]

  /** The host of `url`, or the sentinel `"unknown"`; never fails. The
      sentinel is ambiguous: a URL whose host is literally `unknown` gets
      it too. */
  function ExtractDomain(host: HostParser, url: string): (d: string)
    ensures host(url).Some? && host(url).value != UNKNOWN ==> d == host(url).value
    ensures d != UNKNOWN ==> host(url) == Some(d)
    ensures d == UNKNOWN <==> host(url).None? || host(url) == Some(UNKNOWN)
  {
    host(url).GetOr(UNKNOWN)
  }

  /** `lower` contains one of `ks`, tried in order (the keyword array's
      `iter().any`). */
  predicate AnyKeyword(lower: string, ks: seq<string>)
    decreases |ks|
  {
    |ks| > 0 && (Contains(lower, ks[0]) || AnyKeyword(lower, ks[1..]))
  }

  /** The ordered search finds a keyword exactly when one occurs. */
  lemma {:induction false} AnyKeywordFinds(lower: string, ks: seq<string>)
    ensures AnyKeyword(lower, ks) <==> exists i | 0 <= i < |ks| :: Contains(lower, ks[i])
    decreases |ks|
  {
    if |ks| > 0 {
      AnyKeywordFinds(lower, ks[1..]);
      assert forall i | 1 <= i < |ks| :: ks[i] == ks[1..][i - 1];
      if exists i | 0 <= i < |ks| :: Contains(lower, ks[i]) {
        var i :| 0 <= i < |ks| && Contains(lower, ks[i]);
        if i > 0 {
          assert Contains(lower, ks[1..][i - 1]);
        }
      }
    }
  }

  /** The URL, lowercased, contains a tracker keyword. */
  predicate IsTracker(url: string) {
    AnyKeyword(Lower(url), KEYWORDS)
  }

  /** A URL is a tracker exactly when its lowercase form contains one of
      the fifteen keywords. */
  lemma TrackerIffKeyword(url: string)
    ensures IsTracker(url) <==> exists i | 0 <= i < |KEYWORDS| :: Contains(Lower(url), KEYWORDS[i])
  {
    AnyKeywordFinds(Lower(url), KEYWORDS);
  }

  /** Keyword matching ignores ASCII letter case. */
  lemma TrackerIgnoresAsciiCase(s: string, t: string)
    requires |s| == |t|
    requires forall i | 0 <= i < |s| :: SameIgnoringAsciiCase(s[i], t[i])
    ensures IsTracker(s) == IsTracker(t)
  {
    LowerIgnoresAsciiCase(s, t);
  }

  /** The text the PII check scans: the bytes of the percent-decoded URL,
      or the URL's own bytes when the decoded bytes are not UTF-8. */
  function ScannedText(url: string): (t: seq<byte>)
    ensures Utf8.Valid(t)
    ensures |t| <= |Utf8.Encode(url)|
    ensures t == Utf8.Encode(url) || t == Percent.DecodeBytes(Utf8.Encode(url))
    ensures Percent.PERCENT !in Utf8.Encode(url) ==> t == Utf8.Encode(url)
  {
    var raw := Utf8.Encode(url);
    Utf8.EncodeValid(url);
    Percent.DecodeBytesShrinks(raw);
    match Percent.Decode(raw)
    case Some(decoded) => decoded
    case None => raw
  }

  /** An email-shaped substring occurs in the scanned text. */
  predicate HasPii(url: string) {
    Email.ContainsEmail(ScannedText(url))
  }

  /** When the decoded URL is not UTF-8 the check falls back to the raw URL,
      so an escaped `@` is then not seen as one. */
  lemma PiiFallsBackToRawText(url: string)
    requires !Utf8.Valid(Percent.DecodeBytes(Utf8.Encode(url)))
    ensures HasPii(url) <==> Email.ContainsEmail(Utf8.Encode(url))
  {
    Percent.DecodeOfString(url);
  }

  /** When decoding succeeds the check scans the decoded text. */
  lemma PiiScansDecodedText(url: string)
    requires Utf8.Valid(Percent.DecodeBytes(Utf8.Encode(url)))
    ensures HasPii(url) <==> Email.ContainsEmail(Percent.DecodeBytes(Utf8.Encode(url)))
  {
    Percent.DecodeOfString(url);
  }

  /** A URL with neither `@` nor `%` has no email address in it, encoded
      or not. */
  lemma NoAtSignNoPii(url: string)
    requires '@' !in url && '%' !in url
    ensures !HasPii(url)
  {
    var raw := Utf8.Encode(url);
    if Percent.PERCENT in raw {
      Utf8.EncodeAsciiByte(url, Percent.PERCENT);
    }
    if Email.AT in raw {
      Utf8.EncodeAsciiByte(url, Email.AT);
    }
    assert ScannedText(url) == raw;
  }

  /** The severity each issue is reported with. */
  function SeverityOf(issue: Issue): Severity {
    match issue
    case UnencryptedHttp => High
    case ThirdPartyTracker => Medium
    case HiddenFirstPartyTracker => Medium
    case PiiEmailLeak => Critical
  }

  /** Position of an issue's check in the fixed order transport, tracker,
      PII. */
  function Rank(issue: Issue): nat {
    match issue
    case UnencryptedHttp => 0
    case ThirdPartyTracker => 1
    case HiddenFirstPartyTracker => 1
    case PiiEmailLeak => 2
  }

  /** Violations listed in detection order, each check at most once. */
  predicate InDetectionOrder(vs: seq<Violation>) {
    forall i, j | 0 <= i < j < |vs| :: Rank(vs[i].issue) < Rank(vs[j].issue)
  }

  /** The head of a list in detection order ranks below every other
      element. */
  lemma HeadRanksFirst(a: seq<Violation>, v: Violation)
    requires InDetectionOrder(a) && v in a
    ensures v == a[0] || Rank(a[0].issue) < Rank(v.issue)
  {
    var k :| 0 <= k < |a| && a[k] == v;
  }

  /** The tail of a list in detection order holds all but its head. */
  lemma TailMembers(a: seq<Violation>, v: Violation)
    requires InDetectionOrder(a) && |a| > 0
    ensures v in a[1..] <==> v in a && v != a[0]
  {
    if v in a[1..] {
      var k :| 0 <= k < |a| - 1 && a[1..][k] == v;
      assert a[k + 1] == v;
    }
    if v in a && v != a[0] {
      var k :| 0 <= k < |a| && a[k] == v;
      assert a[1..][k - 1] == v;
    }
  }

  /** Two lists with the same elements are empty together. */
  lemma SameMembersBothEmpty(a: seq<Violation>, b: seq<Violation>)
    requires forall v :: v in a <==> v in b
    ensures |a| == 0 <==> |b| == 0
  {
    if |a| > 0 {
      assert a[0] in b;
    }
    if |b| > 0 {
      assert b[0] in a;
    }
  }

  /** A list in detection order is determined by its elements: the
      membership facts of `AnalyzeTraffic` fix its whole result. */
  lemma {:induction false} DetectionOrderDetermines(a: seq<Violation>, b: seq<Violation>)
    requires InDetectionOrder(a) && InDetectionOrder(b)
    requires forall v :: v in a <==> v in b
    ensures a == b
    decreases |a|
  {
    SameMembersBothEmpty(a, b);
    if |a| > 0 {
      assert a[0] in b;
      assert b[0] in a;
      HeadRanksFirst(b, a[0]);
      HeadRanksFirst(a, b[0]);
      forall v
        ensures v in a[1..] <==> v in b[1..]
      {
        TailMembers(a, v);
        TailMembers(b, v);
      }
      DetectionOrderDetermines(a[1..], b[1..]);
      assert a == [a[0]] + a[1..];
      assert b == [b[0]] + b[1..];
    }
  }

  /** The violation a check reports when it fires, and nothing otherwise. */
  function Reported(fired: bool, v: Violation): seq<Violation> {
    if fired then [v] else []
  }

  /** At most one violation of each rank, ranks 0, 1, 2 in that order,
      is a list in detection order. */
  lemma {:induction false} OneOfEachRank(a: seq<Violation>, b: seq<Violation>, c: seq<Violation>)
    requires |a| <= 1 && |b| <= 1 && |c| <= 1
    requires forall v | v in a :: Rank(v.issue) == 0
    requires forall v | v in b :: Rank(v.issue) == 1
    requires forall v | v in c :: Rank(v.issue) == 2
    ensures InDetectionOrder(a + b + c)
  {
    forall i, j | 0 <= i < j < |a + b + c|
      ensures Rank((a + b + c)[i].issue) < Rank((a + b + c)[j].issue)
    {
      RankAt(a, b, c, i);
      RankAt(a, b, c, j);
    }
  }

  /** The rank at a position of three concatenated single-rank parts. */
  lemma RankAt(a: seq<Violation>, b: seq<Violation>, c: seq<Violation>, p: nat)
    requires p < |a + b + c|
    requires forall v | v in a :: Rank(v.issue) == 0
    requires forall v | v in b :: Rank(v.issue) == 1
    requires forall v | v in c :: Rank(v.issue) == 2
    ensures Rank((a + b + c)[p].issue) == if p < |a| then 0 else if p < |a| + |b| then 1 else 2
  {
    if p < |a| {
      assert (a + b + c)[p] == a[p];
    } else if p < |a| + |b| {
      assert (a + b + c)[p] == b[p - |a|];
    } else {
      assert (a + b + c)[p] == c[p - |a| - |b|];
    }
  }

  /** `vs` reports the three checks with these outcomes: in detection
      order, at most three entries with their fixed severities, the HTTP
      violation first when present, and each violation present exactly
      when its check fires. */
  predicate Reports(vs: seq<Violation>, http: bool, tracker: bool, firstParty: bool, pii: bool) {
    && InDetectionOrder(vs)
    && |vs| <= 3
    && (forall v | v in vs :: v.severity == SeverityOf(v.issue))
    && (Violation(UnencryptedHttp, High) in vs <==> http)
    && (http ==> |vs| > 0 && vs[0] == Violation(UnencryptedHttp, High))
    && (Violation(ThirdPartyTracker, Medium) in vs <==> tracker && !firstParty)
    && (Violation(HiddenFirstPartyTracker, Medium) in vs <==> tracker && firstParty)
    && (Violation(PiiEmailLeak, Critical) in vs <==> pii)
  }

  /** The violations of the three checks, given their outcomes, in
      detection order. */
  function Violations(http: bool, tracker: bool, firstParty: bool, pii: bool): (vs: seq<Violation>)
    ensures Reports(vs, http, tracker, firstParty, pii)
  {
    var transport := Reported(http, Violation(UnencryptedHttp, High));
    var tracking := Reported(tracker,
      if firstParty then Violation(HiddenFirstPartyTracker, Medium) else Violation(ThirdPartyTracker, Medium));
    var leak := Reported(pii, Violation(PiiEmailLeak, Critical));
    assert |transport| <= 1 && |tracking| <= 1 && |leak| <= 1;
    OneOfEachRank(transport, tracking, leak);
    MembersOfThree(transport, tracking, leak);
    transport + tracking + leak
  }

  /** Membership in three concatenated parts. */
  lemma MembersOfThree(a: seq<Violation>, b: seq<Violation>, c: seq<Violation>)
    ensures forall w :: w in a + b + c <==> w in a || w in b || w in c
    ensures |a + b + c| == |a| + |b| + |c|
    ensures |a| > 0 ==> (a + b + c)[0] == a[0]
  {
  }

  /** The classification of one request against the audit's main domain. */
  function AnalyzeTraffic(req: RawTraffic, mainDomain: string, host: HostParser, locate: Locator): (u: TrafficUpdate)
    ensures u.url == req.url && u.httpMethod == req.httpMethod && u.resourceType == req.resourceType
    ensures u.domain == ExtractDomain(host, req.url)
    ensures u.geo == locate(req.url)
    ensures u.isTracker == IsTracker(req.url)
    ensures Reports(u.violations, StartsWith(req.url, HTTP_PREFIX), u.isTracker, Contains(u.domain, mainDomain), HasPii(req.url))
  {
    var reqDomain := ExtractDomain(host, req.url);
    var tracker := IsTracker(req.url);
    var vs := Violations(StartsWith(req.url, HTTP_PREFIX), tracker, Contains(reqDomain, mainDomain), HasPii(req.url));
    TrafficUpdate(req.url, req.httpMethod, req.resourceType, reqDomain, vs, locate(req.url), tracker)
  }

  /** Exactly one tracker violation, of severity `medium`, for a tracker
      request, and none otherwise. */
  lemma OneTrackerViolation(req: RawTraffic, mainDomain: string, host: HostParser, locate: Locator)
    ensures var vs := AnalyzeTraffic(req, mainDomain, host, locate).violations;
      && (IsTracker(req.url) <==> exists i | 0 <= i < |vs| :: vs[i].severity == Medium)
      && forall i, j | 0 <= i < |vs| && 0 <= j < |vs| && vs[i].severity == Medium && vs[j].severity == Medium :: i == j
  {
    var u := AnalyzeTraffic(req, mainDomain, host, locate);
    assert Reports(u.violations, StartsWith(req.url, HTTP_PREFIX), u.isTracker, Contains(u.domain, mainDomain), HasPii(req.url));
    MediumIsTheTrackerCheck(u.violations, u.isTracker, Contains(u.domain, mainDomain));
  }

  /** In a detection-ordered list with the fixed severities, the `medium`
      entries are the tracker check's, so there is at most one. */
  lemma MediumIsTheTrackerCheck(vs: seq<Violation>, tracker: bool, firstParty: bool)
    requires InDetectionOrder(vs)
    requires forall v | v in vs :: v.severity == SeverityOf(v.issue)
    requires Violation(ThirdPartyTracker, Medium) in vs <==> tracker && !firstParty
    requires Violation(HiddenFirstPartyTracker, Medium) in vs <==> tracker && firstParty
    ensures tracker <==> exists i | 0 <= i < |vs| :: vs[i].severity == Medium
    ensures forall i, j | 0 <= i < |vs| && 0 <= j < |vs| && vs[i].severity == Medium && vs[j].severity == Medium :: i == j
  {
    if tracker {
      var t := if firstParty then Violation(HiddenFirstPartyTracker, Medium) else Violation(ThirdPartyTracker, Medium);
      assert t in vs;
      var k :| 0 <= k < |vs| && vs[k] == t;
      assert vs[k].severity == Medium;
    }
    forall i | 0 <= i < |vs| && vs[i].severity == Medium
      ensures Rank(vs[i].issue) == 1 && tracker
    {
      assert vs[i] in vs;
      assert vs[i] == Violation(vs[i].issue, Medium);
    }
  }

  /** The request body is never read. */
  lemma IgnoresPostData(req: RawTraffic, postData: Option<string>, mainDomain: string, host: HostParser, locate: Locator)
    ensures AnalyzeTraffic(req.(postData := postData), mainDomain, host, locate) == AnalyzeTraffic(req, mainDomain, host, locate)
  {
  }

  /** Only the exact lower-case prefix `http://` is reported as unencrypted. */
  lemma TransportNeedsExactPrefix(req: RawTraffic, mainDomain: string, host: HostParser, locate: Locator)
    requires StartsWith(req.url, "https://") || StartsWith(req.url, "HTTP://")
    ensures Violation(UnencryptedHttp, High) !in AnalyzeTraffic(req, mainDomain, host, locate).violations
  {
    assert req.url[4] != HTTP_PREFIX[4] || req.url[0] != HTTP_PREFIX[0];
  }

  /** With an empty main domain every tracker counts as first party, since
      every domain contains the empty string. */
  lemma EmptyMainDomainHidesThirdParty(req: RawTraffic, host: HostParser, locate: Locator)
    ensures Violation(ThirdPartyTracker, Medium) !in AnalyzeTraffic(req, "", host, locate).violations
  {
    ContainsEmpty(ExtractDomain(host, req.url));
  }

  /** A request domain that merely contains the main domain, such as a
      look-alike `example.com.cdn.net` for `example.com`, is classed first
      party. */
  lemma LookAlikeCountsAsFirstParty(req: RawTraffic, mainDomain: string, suffix: string, host: HostParser, locate: Locator)
    requires host(req.url) == Some(mainDomain + suffix)
    requires IsTracker(req.url)
    ensures Violation(HiddenFirstPartyTracker, Medium) in AnalyzeTraffic(req, mainDomain, host, locate).violations
  {
    assert OccursAt(mainDomain + suffix, mainDomain, 0);
  }
}

# PrivaSee classifier and line dispatcher, in Dafny

PrivaSee audits a web page. It loads the page in a headless browser and
captures the network requests that the page makes, except `data:` URLs,
which it drops. A capture process writes one JSON line per event to its
standard output. The backend reads
these lines, decodes the tagged messages and classifies each request. It
then sends the client a status event or a `traffic-update` event.

This project models the pure core of that backend:

- **The classifier** (`analyze_traffic`, `extract_domain`, `is_tracker`,
  `has_pii`). It runs three checks in a fixed order:
  - transport: the URL starts with exactly `http://`;
  - tracker: one of fifteen keywords occurs in the lowercased URL, and the
    request is first party when its domain contains the audit's main
    domain;
  - PII: an email-shaped substring occurs in the percent-decoded URL, or
    in the raw URL when the decoded bytes are not UTF-8.
- **The line dispatcher** (the loop of `run_node_worker`). It is a pure
  function from the main domain and the lines read to the events emitted.
- **The wire vocabulary**: `NodeMessage`, `RawTraffic`, `Violation`,
  `GeoData` and `TrafficUpdate`, decoded from and encoded to an abstract
  JSON value.

Modules, one per file:

| module | what it holds |
|---|---|
| `Wrappers` | the `Option` type |
| `Text` | prefix and substring tests, Unicode white-space trimming, lowercasing for keyword matching |
| `Utf8` | UTF-8 encoding and well-formedness (Table 3-7 of the Unicode Standard) |
| `Percent` | the `urlencoding` crate's `decode` (escapes of section 2.1 of RFC 3986) |
| `Email` | the email pattern as a predicate on bytes, and a one-pass decision procedure |
| `Json` | abstract JSON values |
| `Types` | the wire datatypes and their serde decoding and encoding |
| `Analyzer` | the classifier |
| `Worker` | the line dispatcher and the read loop |
| `Scenarios` | two worked requests, classified end to end |

Three things are function-typed parameters rather than code:

- the URL host parser (`HostParser`, string to optional host);
- the JSON text parser (`Env.parse`);
- the geolocator (`Locator`).

## Model

| member | source | states |
|---|---|---|
| Analyzer.AnalyzeTraffic | backend/src/analyzer.rs:7-51 | url, method and resource type are copied; the domain is the extracted host and the geo value comes from the locator. `isTracker` is the keyword test. The violations are in detection order (strictly increasing check rank, so no issue appears twice), number at most three, and carry their fixed severities. HTTP is present iff the URL starts with exactly `http://`, and is then first. 3rd-party is present iff the URL is a tracker and its domain does not contain the main domain; hidden 1st-party iff it is a tracker and the domain does contain it. The PII leak is present iff an email occurs in the scanned text. |
| Analyzer.Violations | backend/src/analyzer.rs:9-38 | (the predicate `Analyzer.Reports`, which `Analyzer.AnalyzeTraffic` also ensures) given the outcomes of the three checks, the list is in detection order, at most three long, has the fixed severities, and holds each violation exactly when its check fires |
| Analyzer.DetectionOrderDetermines | backend/src/analyzer.rs:9-38 | two lists in detection order with the same elements are equal, so the membership facts above fix the whole violation list |
| Analyzer.OneTrackerViolation | backend/src/analyzer.rs:19-31 | a `medium` violation exists iff the URL is a tracker, and there is never more than one |
| Analyzer.MediumIsTheTrackerCheck | backend/src/analyzer.rs:19-31 | in any detection-ordered list with the fixed severities, the `medium` entries are the tracker check's, so there is at most one |
| Analyzer.IgnoresPostData | backend/src/analyzer.rs:42-50 | the update does not depend on the request body |
| Analyzer.TransportNeedsExactPrefix | backend/src/analyzer.rs:12-17 | URLs starting with `https://` or `HTTP://` get no unencrypted-transport violation |
| Analyzer.EmptyMainDomainHidesThirdParty | backend/src/analyzer.rs:20 | with an empty main domain no tracker is ever labelled 3rd party |
| Analyzer.LookAlikeCountsAsFirstParty | backend/src/analyzer.rs:20-30 | a tracker whose host merely extends the main domain (`example.com.cdn.net`) is labelled hidden 1st party |
| Analyzer.ExtractDomain | backend/src/analyzer.rs:53-58 | the parser's host when there is one; `"unknown"` exactly when there is none or the host is literally `unknown` |
| Analyzer.AnyKeywordFinds | backend/src/analyzer.rs:67 | the ordered `any` search succeeds iff some keyword occurs in the text |
| Analyzer.TrackerIffKeyword | backend/src/analyzer.rs:60-68 | a URL is a tracker iff its lowercase form contains one of the fifteen keywords |
| Analyzer.TrackerIgnoresAsciiCase | backend/src/analyzer.rs:66-67 | URLs that differ only in ASCII letter case get the same tracker flag |
| Analyzer.ScannedText | backend/src/analyzer.rs:72 | the scanned bytes are well-formed UTF-8, no longer than the URL's bytes, and are either the URL's bytes or their percent-decoding; without `%` they are the URL's bytes |
| Analyzer.PiiScansDecodedText | backend/src/analyzer.rs:72-73 | when the decoded bytes are UTF-8, PII is found iff the decoded text holds an email |
| Analyzer.PiiFallsBackToRawText | backend/src/analyzer.rs:72-73 | when the decoded bytes are not UTF-8, PII is found iff the raw URL holds an email |
| Analyzer.NoAtSignNoPii | backend/src/analyzer.rs:70-74 | a URL with neither `@` nor `%` never reports PII |
| Email.ContainsEmailIffCore | backend/src/analyzer.rs:71 | the pattern matches somewhere iff its shortest instance (one local byte, `@`, domain bytes, `.`, two letters) does |
| Email.Scan | backend/src/analyzer.rs:73 | a single left-to-right pass returns true iff the pattern matches somewhere in the text |
| Percent.DecodeOfString | backend/src/analyzer.rs:72 | decoding a string's bytes fails iff the decoded bytes are not UTF-8, and on success yields the decoded bytes |
| Percent.DecodeEscapeAll | backend/src/analyzer.rs:72 | decoding undoes escaping every byte as `%XX` |
| Percent.DecodeBytesShrinks | backend/src/analyzer.rs:72 | decoding never lengthens the input |
| Percent.DecodeBytesWithoutPercent | backend/src/analyzer.rs:72 | bytes without `%` decode to themselves |
| Utf8.EncodeValid | backend/src/analyzer.rs:72 | the bytes of every string are well-formed UTF-8 |
| Text.TrimmedStartsWith | backend/src/worker.rs:33 | the trimmed line starts with `{` iff the first non-white-space character of the line is `{` |
| Text.LowerIgnoresAsciiCase | backend/src/analyzer.rs:66 | strings that differ only in ASCII letter case lowercase to the same string |
| Text.LowerOfLowerCase | backend/src/analyzer.rs:66 | text with no character that lowercasing changes is its own lowercase form |
| Types.StringField | backend/src/types.rs:9-15 | a required string field is found iff the key is present and holds a JSON string |
| Types.OptionalString | backend/src/types.rs:24-25 | an `Option<String>` decodes from `null` (to `None`) or a string, and from nothing else |
| Types.DecodeRawTraffic | backend/src/types.rs:18-26 | an object decodes iff `url`, `method` and `resourceType` are strings and `postData` is absent, `null` or a string, whatever other keys it has, and the result holds those strings (`postData` is `None` iff absent or `null`); an array decodes iff it has four elements, three strings then `null` or a string, taken in field order; nothing else decodes |
| Types.DecodeMessage | backend/src/types.rs:7-16 | a decoded message comes from an object whose `type` is the variant's tag, or from a two-element array whose first element is the tag; `status`/`error` carry the string `message` (the array's second element), and `traffic` carries a decodable `data` (likewise). Conversely, tag `status` or `error` with a string `message` decodes to that variant (in an object other keys, `data` included, do not matter), and tag `traffic` decodes iff its `data` is present and decodes |
| Types.DecodeMessageClosed | backend/src/types.rs:7-16 | only the tags `status`, `error` and `traffic` decode, in the object form and in the array form |
| Types.DecodeMessageIgnoresExtraKeys | backend/src/types.rs:7-16 | keys other than `type`, `message` and `data` do not change the decoded message |
| Types.DecodeMessageToJson | backend/src/types.rs:7-26 | every message, as the capture process writes it, decodes to itself |
| Types.DecodeNullPostData | backend/src/types.rs:24-25 | `postData: null` and an absent `postData` decode alike |
| Types.ViolationsRoundTrip | backend/src/types.rs:28-32 | the issue and severity labels are distinct, so a violation list read back from its wire form is the list |
| Types.UpdateToJsonFields | backend/src/types.rs:41-52 | the update's wire object has exactly the keys `url`, `method`, `type`, `domain`, `violations`, `geo` and `isTracker`, each holding its field |
| Types.UpdateRoundTrip | backend/src/types.rs:41-52 | no field of an update is lost on the wire: reading it back gives the update |
| Worker.React | backend/src/worker.rs:38-49 | status gives a `status` event with the message verbatim; error gives a `status` event with `Error: ` prepended; traffic gives a `traffic-update` event equal to the classification against the main domain |
| Worker.HandleLine | backend/src/worker.rs:33-50 | a line yields an event iff its first non-white-space character is `{` and it decodes, and the event is then the reaction to the decoded message |
| Worker.LinesRead | backend/src/worker.rs:32 | the lines taken are the longest prefix of read results that are lines; the result after them is an end of stream or a read error |
| Worker.RunLines | backend/src/worker.rs:32-51 | the read loop emits, in order, the output of every line read, for any per-line step |
| Worker.RunNodeWorker | backend/src/worker.rs:15-51 | the worker's events are the session's events: every line read is handled against the main domain taken once from the target URL |
| Worker.TransduceTrace | backend/src/worker.rs:32-51 | outputs are in line order and at most one per line; the `i`-th output is the answer of the `i`-th answered line, and unanswered lines yield nothing |
| Worker.DispatchTrace | backend/src/worker.rs:32-51 | the same ordering and one-event-per-line facts for the session's events |
| Worker.TransduceAppend | backend/src/worker.rs:32-51 | the events of two stretches of lines are the events of each, in order: handling a line never stops the loop |
| Worker.SilentLineDropped | backend/src/worker.rs:33-37 | a non-protocol or undecodable line is dropped, and the lines after it are still handled |
| Worker.TrafficClassifiedAgainstTarget | backend/src/worker.rs:45-47 | every traffic event is the classification of a traffic line's data against the target URL's domain |
| Worker.ErrorLooksLikeStatus | backend/src/worker.rs:39-44 | an error message and a status message reading `Error: ` plus the same text produce the same event |
| Worker.ReadingStopsAtFirstEnd | backend/src/worker.rs:32 | results after the first end of stream or read error are never read |
| Worker.SingleStatusSession | backend/src/worker.rs:39-41 | a capture process that writes one status line and ends yields exactly one `status` event with that text |
| Scenarios.AdServerRequest | backend/src/analyzer.rs:7-51 | a plain-HTTP request to `ads.doubleclick.net` from `example.com` is a tracker with violations exactly `[Unencrypted (HTTP)/high, 3rd Party Tracker/medium]` |
| Scenarios.EncodedEmailRequest | backend/src/analyzer.rs:7-51 | an HTTPS request to `example.com/collect?email=alice%40example.com` is a tracker with violations exactly `[Hidden 1st Party Tracker/medium, PII (Email) Leak/critical]` |
| Scenarios.EncodedEmailIsFound | backend/src/analyzer.rs:70-74 | a percent-encoded `@` is decoded and the address is found |
| Scenarios.LowerCaseEmailFound | backend/src/analyzer.rs:71 | `local@domain.tld` in lower-case letters is found after any text |

## Left out

- `backend/src/geo.rs` (`get_real_geo`): DNS resolution, the MaxMind
  reader and the fallback location. The `Locator` parameter stands in for
  them, and the update carries its answer unchanged.
- `backend/src/main.rs` and `backend/scanner.js`: the Socket.IO gateway,
  static files, environment variables, task spawning and the browser
  automation are I/O and concurrency. The capture process's output is
  modelled only as the JSON values it writes (`Types.MessageToJson`).
- In `run_node_worker`: spawning `node`, the environment-variable paths,
  asynchronous buffered reading and `child.wait`. The model sees a finite
  sequence of read results (`Worker.ReadResult`); an unending stream is not
  modelled.
- `emit`: sending is not modelled. Its results are ignored in the source,
  so it cannot change which lines are handled.
- The WHATWG URL parser is the `HostParser` parameter, and serde_json's text
  parser is the `Env.parse` parameter. Decoding starts from an abstract JSON
  value.
- JSON objects are maps, so a repeated key cannot be represented. serde's
  derived visitors reject a repeated field they read (`type`, `message`,
  `data`, `url`, `method`, `resourceType`, `postData`) and skip a repeated
  unknown key.
- JSON numbers are `real`; `f64` rounding, NaN and infinities are not
  modelled. Latitude and longitude only pass through.
- `Text.Lower`: maps ASCII capitals, the Kelvin sign (to `k`) and capital I
  with dot above (to `i` and a combining dot). It keeps every other
  character, whereas Rust lowercases the other cased letters too. None of
  those produces an ASCII letter, so whether a lowercase keyword occurs
  comes out the same.
- `BufReader::lines` strips the line terminator. Lines arrive here already
  split and stripped.
- The regex is recompiled on every call in the source. This affects cost
  only.
- The fixed text of each wire label (for example `"3rd Party Tracker"`)
  lives in `Issue.Wire` and `Severity.Wire`. The classifier works with the
  enumerations.

An escaped address is missed when another escape in the URL decodes to
bytes that are not UTF-8. The raw URL is then scanned, and there `%40` is
not `@` (`Analyzer.PiiFallsBackToRawText`).

## Findings

None. The substring first-party test (`Analyzer.LookAlikeCountsAsFirstParty`,
`Analyzer.EmptyMainDomainHidesThirdParty`) and the ambiguous `"unknown"`
sentinel (`Analyzer.ExtractDomain`) are properties of the code, not
defects, and are stated as such.

/** The session's line dispatcher: the loop that reads the capture
    process's standard output line by line, decodes protocol lines and turns
    each accepted message into at most one event for the client. */
module Worker {
  import opened Wrappers
  import opened Text
  import opened Json
  import opened Types
  import opened Analyzer

  /** The collaborators outside the model: the JSON text parser, the URL
      host parser and the geolocator. */
  datatype Env = Env(parse: string -> Option<Json>, host: HostParser, locate: Locator)

  /** An event sent to the client. */
  datatype Event = StatusEvent(text: string) | TrafficEvent(update: TrafficUpdate) {
    /** The channel event name. */
    function Name(): string {
      match this
      case StatusEvent(_) => "status"
      case TrafficEvent(_) => "traffic-update"
    }
  }

  const ERROR_PREFIX := "Error: "

  /** A line whose trimmed form starts with `{`. */
  predicate IsProtocolLine(line: string) {
    StartsWith(Trim(line), "{")
  }

  /** The message a line decodes to, if any: the untrimmed line is parsed. */
  function Decoded(env: Env, line: string): Option<NodeMessage> {
    match env.parse(line)
    case None => None
    case Some(j) => DecodeMessage(j)
  }

  /** The event a decoded message produces. */
  function React(env: Env, mainDomain: string, msg: NodeMessage): (e: Event)
    ensures e.StatusEvent? <==> !msg.Traffic?
    ensures e.Name() == if msg.Traffic? then "traffic-update" else "status"
    ensures msg.Status? ==> e.text == msg.message
    ensures msg.Error? ==> e.text == ERROR_PREFIX + msg.message
    ensures msg.Traffic? ==> e.update.url == msg.data.url && e.update == AnalyzeTraffic(msg.data, mainDomain, env.host, env.locate)
  {
    match msg
    case Status(message) => StatusEvent(message)
    case Error(message) => StatusEvent(ERROR_PREFIX + message)
    case Traffic(data) => TrafficEvent(AnalyzeTraffic(data, mainDomain, env.host, env.locate))
  }

  /** One pass of the loop body: the event for `line`, or none when the
      line is not a protocol line or does not decode. */
  function HandleLine(env: Env, mainDomain: string, line: string): (e: Option<Event>)
    ensures e.Some? <==> FirstNonWhiteSpaceIs(line, '{') && Decoded(env, line).Some?
    ensures e.Some? ==> e.value == React(env, mainDomain, Decoded(env, line).value)
  {
    TrimmedStartsWith(line, '{');
    if !IsProtocolLine(line) then None
    else
      match Decoded(env, line)
      case None => None
      case Some(msg) => Some(React(env, mainDomain, msg))
  }

  /** The output of one step, as a sequence of at most one element. */
  function Out<E>(o: Option<E>): seq<E> {
    match o
    case None => []
    case Some(e) => [e]
  }

  /** The outputs of a state-free per-line step over a sequence of lines,
      in line order, at most one per line. */
  function Transduce<E>(step: string -> Option<E>, lines: seq<string>): (out: seq<E>)
    ensures |out| <= |lines|
    decreases |lines|
  {
    if |lines| == 0 then []
    else Transduce(step, lines[..|lines| - 1]) + Out(step(lines[|lines| - 1]))
  }

  /** Handling one more line appends its output, if any. */
  lemma TransduceSnoc<E>(step: string -> Option<E>, lines: seq<string>, line: string)
    ensures Transduce(step, lines + [line]) == Transduce(step, lines) + Out(step(line))
  {
    assert (lines + [line])[..|lines|] == lines;
  }

  /** The per-line step of a session classifying against `mainDomain`. */
  function Handler(env: Env, mainDomain: string): string -> Option<Event> {
    line => HandleLine(env, mainDomain, line)
  }

  /** Extending a prefix of the lines by one line appends that line's
      output, if any. */
  lemma TransducePrefix<E>(step: string -> Option<E>, lines: seq<string>, i: nat)
    requires i < |lines|
    ensures Transduce(step, lines[..i + 1]) == Transduce(step, lines[..i]) + Out(step(lines[i]))
  {
    assert lines[..i + 1] == lines[..i] + [lines[i]];
    TransduceSnoc(step, lines[..i], lines[i]);
  }

  /** The events of a sequence of lines, classified against `mainDomain`. */
  function Dispatch(env: Env, mainDomain: string, lines: seq<string>): seq<Event> {
    Transduce(Handler(env, mainDomain), lines)
  }

  /** The events of a session: every line is classified against the main
      domain taken once from the target URL. */
  function Session(env: Env, targetUrl: string, lines: seq<string>): seq<Event> {
    Dispatch(env, ExtractDomain(env.host, targetUrl), lines)
  }

  /** The outcome of reading one line of the capture process's output. */
  datatype ReadResult = Line(text: string) | EndOfStream | ReadError

  /** The lines read before the first end of stream or read error. */
  function LinesRead(results: seq<ReadResult>): (lines: seq<string>)
    ensures |lines| <= |results|
    ensures forall i | 0 <= i < |lines| :: results[i] == Line(lines[i])
    ensures |lines| < |results| ==> !results[|lines|].Line?
    decreases |results|
  {
    if |results| == 0 || !results[0].Line? then []
    else [results[0].text] + LinesRead(results[1..])
  }

  /** A line read after `i` accepted lines is accepted too. */
  lemma ReadContinues(results: seq<ReadResult>, i: nat)
    requires i <= |LinesRead(results)| && i < |results| && results[i].Line?
    ensures i < |LinesRead(results)| && LinesRead(results)[i] == results[i].text
  {
  }

  /** The worker's read loop, for any per-line step: results are read
      until the stream ends or fails, and the output of every line is
      emitted; emitting never stops the loop. */
  method RunLines<E>(step: string -> Option<E>, results: seq<ReadResult>) returns (out: seq<E>)
    ensures out == Transduce(step, LinesRead(results))
  {
    ghost var lines := LinesRead(results);
    out := [];
    var i := 0;
    while i < |results| && results[i].Line?
      invariant 0 <= i <= |lines|
      invariant out == Transduce(step, lines[..i])
    {
      var line := results[i].text;
      ReadContinues(results, i);
      assert line == lines[i];
      TransducePrefix(step, lines, i);
      var o := step(line);
      if o.Some? {
        out := out + [o.value];
      }
      i := i + 1;
    }
    assert lines[..i] == lines;
  }

  /** The worker: the main domain is taken once from the target URL, then
      every line read is handled against it. */
  method RunNodeWorker(env: Env, targetUrl: string, results: seq<ReadResult>) returns (events: seq<Event>)
    ensures events == Session(env, targetUrl, LinesRead(results))
  {
    var mainDomain := ExtractDomain(env.host, targetUrl);
    events := RunLines(Handler(env, mainDomain), results);
  }

  /** Transducing is line by line: the outputs of two stretches of lines
      are the outputs of each, in order. */
  lemma {:induction false} TransduceAppend<E>(step: string -> Option<E>, a: seq<string>, b: seq<string>)
    ensures Transduce(step, a + b) == Transduce(step, a) + Transduce(step, b)
    decreases |b|
  {
    if |b| == 0 {
      assert a + b == a;
    } else {
      var b', last := b[..|b| - 1], b[|b| - 1];
      assert a + b == (a + b') + [last];
      assert b == b' + [last];
      TransduceSnoc(step, a + b', last);
      TransduceSnoc(step, b', last);
      TransduceAppend(step, a, b');
      var o := Out(step(last));
      assert (Transduce(step, a) + Transduce(step, b')) + o == Transduce(step, a) + (Transduce(step, b') + o);
    }
  }

  /** The indices of the lines the step answers, in increasing order. */
  function Emitting<E>(step: string -> Option<E>, lines: seq<string>): seq<nat>
    decreases |lines|
  {
    if |lines| == 0 then []
    else
      var earlier := Emitting(step, lines[..|lines| - 1]);
      if step(lines[|lines| - 1]).Some? then earlier + [|lines| - 1] else earlier
  }

  /** The outputs are exactly the answers of the answered lines, one per
      line, in the order of the lines; every other line yields nothing. */
  lemma {:induction false} TransduceTrace<E>(step: string -> Option<E>, lines: seq<string>)
    ensures var out := Transduce(step, lines);
      var idx := Emitting(step, lines);
      && |idx| == |out|
      && (forall i | 0 <= i < |idx| :: idx[i] < |lines| && step(lines[idx[i]]) == Some(out[i]))
      && (forall i, j | 0 <= i < j < |idx| :: idx[i] < idx[j])
      && (forall k | 0 <= k < |lines| :: step(lines[k]).Some? <==> k in idx)
    decreases |lines|
  {
    if |lines| > 0 {
      var init, last := lines[..|lines| - 1], lines[|lines| - 1];
      assert lines == init + [last];
      TransduceSnoc(step, init, last);
      TransduceTrace(step, init);
      assert forall k | 0 <= k < |init| :: init[k] == lines[k];
    }
  }

  /** A line the step does not answer leaves no trace in the output. */
  lemma TransduceSkips<E>(step: string -> Option<E>, before: seq<string>, line: string, after: seq<string>)
    requires step(line).None?
    ensures Transduce(step, before + [line] + after) == Transduce(step, before) + Transduce(step, after)
  {
    TransduceAppend(step, before + [line], after);
    TransduceSnoc(step, before, line);
  }

  /** A line that yields no event (not a protocol line, or undecodable)
      is dropped and the lines after it are still handled. */
  lemma SilentLineDropped(env: Env, mainDomain: string, before: seq<string>, line: string, after: seq<string>)
    requires !FirstNonWhiteSpaceIs(line, '{') || Decoded(env, line).None?
    ensures Dispatch(env, mainDomain, before + [line] + after) == Dispatch(env, mainDomain, before) + Dispatch(env, mainDomain, after)
  {
    var step := Handler(env, mainDomain);
    assert step(line).None?;
    TransduceSkips(step, before, line, after);
  }

  /** The events of a session, one per accepted line, in line order: the
      `i`-th event comes from line `idx[i]`, and the lines not in `idx`
      yield nothing. */
  lemma DispatchTrace(env: Env, mainDomain: string, lines: seq<string>)
    ensures var events := Dispatch(env, mainDomain, lines);
      var idx := Emitting(Handler(env, mainDomain), lines);
      && |idx| == |events|
      && (forall i | 0 <= i < |idx| :: idx[i] < |lines| && HandleLine(env, mainDomain, lines[idx[i]]) == Some(events[i]))
      && (forall i, j | 0 <= i < j < |idx| :: idx[i] < idx[j])
      && (forall k | 0 <= k < |lines| :: HandleLine(env, mainDomain, lines[k]).Some? <==> k in idx)
  {
    TransduceTrace(Handler(env, mainDomain), lines);
  }

  /** Every traffic event of a session is the classification of a traffic
      message of one of its lines against the target URL's domain. */
  lemma TrafficClassifiedAgainstTarget(env: Env, targetUrl: string, lines: seq<string>, i: nat)
    requires i < |Session(env, targetUrl, lines)|
    requires Session(env, targetUrl, lines)[i].TrafficEvent?
    ensures exists k, data | 0 <= k < |lines| ::
      && Decoded(env, lines[k]) == Some(Traffic(data))
      && Session(env, targetUrl, lines)[i].update == AnalyzeTraffic(data, ExtractDomain(env.host, targetUrl), env.host, env.locate)
  {
    var mainDomain := ExtractDomain(env.host, targetUrl);
    var events := Dispatch(env, mainDomain, lines);
    DispatchTrace(env, mainDomain, lines);
    var idx := Emitting(Handler(env, mainDomain), lines);
    var k := idx[i];
    var e := HandleLine(env, mainDomain, lines[k]);
    assert e == Some(events[i]);
    var data := Decoded(env, lines[k]).value.data;
    assert Decoded(env, lines[k]) == Some(Traffic(data));
  }

  /** An error message and a status message whose text is `"Error: "`
      followed by the same text produce the same event. */
  lemma ErrorLooksLikeStatus(env: Env, mainDomain: string, message: string)
    ensures React(env, mainDomain, Error(message)) == React(env, mainDomain, Status(ERROR_PREFIX + message))
  {
  }

  /** Reading stops at the first end of stream or read error; later
      results are never looked at. */
  lemma {:induction false} ReadingStopsAtFirstEnd(before: seq<ReadResult>, stop: ReadResult, after: seq<ReadResult>)
    requires forall r | r in before :: r.Line?
    requires !stop.Line?
    ensures |LinesRead(before + [stop] + after)| == |before|
    ensures LinesRead(before + [stop] + after) == LinesRead(before)
    decreases |before|
  {
    if |before| > 0 {
      assert (before + [stop] + after)[1..] == before[1..] + [stop] + after;
      ReadingStopsAtFirstEnd(before[1..], stop, after);
    }
  }

  /** A session whose capture process writes one status line and then ends
      emits exactly one status event carrying that text. */
  lemma SingleStatusSession(env: Env, targetUrl: string, line: string, message: string)
    requires |line| > 0 && line[0] == '{'
    requires env.parse(line) == Some(MessageToJson(Status(message)))
    ensures Session(env, targetUrl, LinesRead([Line(line), EndOfStream])) == [StatusEvent(message)]
  {
    DecodeMessageToJson(Status(message));
    assert FirstNonWhiteSpaceIs(line, '{');
    assert LinesRead([Line(line), EndOfStream]) == [line];
    var mainDomain := ExtractDomain(env.host, targetUrl);
    assert [line][..0] == [];
    assert Dispatch(env, mainDomain, [line]) == [StatusEvent(message)];
  }
}

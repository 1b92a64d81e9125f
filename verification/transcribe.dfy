/** The transcription client of `transcribe/transcribe.go`: picking the transcript out of the
    speech service's newline-delimited JSON answer, the three-attempt retry of the HTTP request,
    and the status check that follows it. */
module Transcribe {
  import opened Wrappers
  import opened Text
  import opened Json
  import opened Types

  // ---------------------------------------------------------------------------------------------
  // Extracting a transcript from one response line
  // ---------------------------------------------------------------------------------------------

  /** The list `results` holds when that key is present, otherwise the list under `result`;
      a present `results` that is not a list yields the empty list, not a fallback. */
  function ResultList(obj: seq<(string, JsonValue)>): (list: seq<JsonValue>)
    ensures Get(obj, "results").Some? && |list| > 0 ==> Get(obj, "results") == Some(JArray(list))
    ensures Get(obj, "results").None? && |list| > 0 ==> Get(obj, "result") == Some(JArray(list))
  {
    if Get(obj, "results").Some? then ListOf(Get(obj, "results")) else ListOf(Get(obj, "result"))
  }

  /** The alternatives of a result: the `alternatives` list when it is a non-empty list,
      otherwise the `alternative` list. */
  function AlternativeList(first: seq<(string, JsonValue)>): (list: seq<JsonValue>)
    ensures |ListOf(Get(first, "alternatives"))| > 0 ==> list == ListOf(Get(first, "alternatives"))
    ensures |list| > 0 && list != ListOf(Get(first, "alternatives"))
            ==> Get(first, "alternative") == Some(JArray(list))
  {
    var alts := ListOf(Get(first, "alternatives"));
    if |alts| > 0 then alts else ListOf(Get(first, "alternative"))
  }

  /** The transcript a decoded response object carries along the path
      results/result -> first element -> alternatives/alternative -> first element -> transcript,
      when every step exists with the right type and the transcript is not empty. */
  function ObjectTranscript(obj: seq<(string, JsonValue)>): (t: Option<string>)
    ensures t.Some? ==> t.value != ""
    ensures t.Some? ==> |ResultList(obj)| > 0 && ResultList(obj)[0].JObject?
                        && var alts := AlternativeList(ResultList(obj)[0].members);
                           |alts| > 0 && alts[0].JObject?
                           && Get(alts[0].members, "transcript") == Some(JString(t.value))
  {
    var results := ResultList(obj);
    if |results| == 0 then None
    else match ObjectOf(results[0])
      case None => None
      case Some(first) =>
        var alts := AlternativeList(first);
        if |alts| == 0 then None
        else match ObjectOf(alts[0])
          case None => None
          case Some(alt) =>
            match Get(alt, "transcript")
            case Some(JString(text)) => if text != "" then Some(text) else None
            case _ => None
  }

  /** The path to a transcript, stated on the decoded document: `rs` is the `results` list (or
      the `result` list when `results` is absent) and starts with the object `first`; `alts` is the
      non-empty `alternatives` list of `first` (or its `alternative` list when `alternatives` is
      not a non-empty list) and starts with the object `alt`, whose `transcript` is `text`. */
  predicate TranscriptPath(obj: seq<(string, JsonValue)>, rs: seq<JsonValue>, first: seq<(string, JsonValue)>,
                           alts: seq<JsonValue>, alt: seq<(string, JsonValue)>, text: string)
  {
    && (Get(obj, "results") == Some(JArray(rs))
        || (Get(obj, "results").None? && Get(obj, "result") == Some(JArray(rs))))
    && |rs| > 0 && rs[0] == JObject(first)
    && (Get(first, "alternatives") == Some(JArray(alts))
        || (|ListOf(Get(first, "alternatives"))| == 0 && Get(first, "alternative") == Some(JArray(alts))))
    && |alts| > 0 && alts[0] == JObject(alt)
    && Get(alt, "transcript") == Some(JString(text))
  }

  /** A well-formed path yields its transcript: an object whose document holds the path to a
      non-empty string `transcript` yields exactly that string. */
  lemma ObjectTranscriptFound(obj: seq<(string, JsonValue)>, rs: seq<JsonValue>, first: seq<(string, JsonValue)>,
                              alts: seq<JsonValue>, alt: seq<(string, JsonValue)>, text: string)
    requires TranscriptPath(obj, rs, first, alts, alt, text) && text != ""
    ensures ObjectTranscript(obj) == Some(text)
  {
  }

  /** The transcript one line of the response yields, if any. `parse` stands for `json.Unmarshal`
      into a map: `None` when the trimmed line is not valid JSON. A line that decodes to anything
      but an object is skipped (for `null` Go decodes a nil map whose lookups all fail, which
      skips the line just the same). */
  function LineTranscript(line: string, parse: string -> Option<JsonValue>): (t: Option<string>)
    ensures t.Some? ==> t.value != ""
    ensures t.Some? ==> TrimSpace(line) != "" && parse(TrimSpace(line)).Some?
                        && parse(TrimSpace(line)).value.JObject?
                        && ObjectTranscript(parse(TrimSpace(line)).value.members) == t
  {
    var trimmed := TrimSpace(line);
    if trimmed == "" then None
    else match parse(trimmed)
      case Some(JObject(obj)) => ObjectTranscript(obj)
      case _ => None
  }

  /** A non-blank line that decodes to an object yields what that object carries, and so the
      transcript of a well-formed path. */
  lemma LineTranscriptFound(line: string, parse: string -> Option<JsonValue>, obj: seq<(string, JsonValue)>,
                            rs: seq<JsonValue>, first: seq<(string, JsonValue)>, alts: seq<JsonValue>,
                            alt: seq<(string, JsonValue)>, text: string)
    requires TrimSpace(line) != "" && parse(TrimSpace(line)) == Some(JObject(obj))
    requires TranscriptPath(obj, rs, first, alts, alt, text) && text != ""
    ensures LineTranscript(line, parse) == Some(text)
  {
    ObjectTranscriptFound(obj, rs, first, alts, alt, text);
  }

  /** A line that is blank after trimming yields nothing. */
  lemma BlankLineSkipped(line: string, parse: string -> Option<JsonValue>)
    requires forall i :: 0 <= i < |line| ==> IsSpace(line[i])
    ensures LineTranscript(line, parse).None?
  {
  }

  /** A line that does not decode to a JSON object yields nothing. */
  lemma MalformedLineSkipped(line: string, parse: string -> Option<JsonValue>)
    requires parse(TrimSpace(line)).None? || !parse(TrimSpace(line)).value.JObject?
    ensures LineTranscript(line, parse).None?
  {
  }

  /** Once `results` is present, `result` is never consulted: appending a `result` member
      changes nothing, whatever its value. */
  lemma ResultsTakesPrecedence(obj: seq<(string, JsonValue)>, v: JsonValue)
    requires Get(obj, "results").Some?
    ensures ObjectTranscript(obj + [("result", v)]) == ObjectTranscript(obj)
  {
    GetIgnoresOtherKey(obj, "result", v, "results");
  }

  /** A present `results` that is not a non-empty list makes the line yield nothing, even when
      `result` holds a usable list. */
  lemma ResultsNotListSkipsLine(obj: seq<(string, JsonValue)>)
    requires Get(obj, "results").Some?
    requires !Get(obj, "results").value.JArray? || |Get(obj, "results").value.items| == 0
    ensures ObjectTranscript(obj).None?
  {
  }

  /** Without `results`, the line yields exactly what it would yield with its `result` list
      renamed to `results`. */
  lemma ResultUsedWhenResultsAbsent(obj: seq<(string, JsonValue)>, list: seq<JsonValue>)
    requires Get(obj, "results").None? && Get(obj, "result") == Some(JArray(list))
    ensures ObjectTranscript(obj) == ObjectTranscript([("results", JArray(list))])
  {
  }

  /** A non-empty `alternatives` list hides any `alternative` member. */
  lemma AlternativesTakesPrecedence(first: seq<(string, JsonValue)>, v: JsonValue)
    requires |ListOf(Get(first, "alternatives"))| > 0
    ensures AlternativeList(first + [("alternative", v)]) == AlternativeList(first)
  {
    GetIgnoresOtherKey(first, "alternative", v, "alternatives");
  }

  /** An `alternatives` member that is missing, empty or not a list falls back to `alternative`. */
  lemma AlternativeFallback(first: seq<(string, JsonValue)>)
    requires |ListOf(Get(first, "alternatives"))| == 0
    ensures AlternativeList(first) == ListOf(Get(first, "alternative"))
  {
  }

  // ---------------------------------------------------------------------------------------------
  // Scanning the response from its last line to its first
  // ---------------------------------------------------------------------------------------------

  /** The lines of a response: the trimmed response split at newlines. */
  function Lines(response: string): (lines: seq<string>)
    ensures |lines| >= 1
    ensures forall i :: 0 <= i < |lines| ==> '\n' !in lines[i]
    ensures Join(lines, '\n') == TrimSpace(response)
  {
    Split(TrimSpace(response))
  }

  /** What each line yields, in line order. */
  function Yields(lines: seq<string>, parse: string -> Option<JsonValue>): (ys: seq<Option<string>>)
    ensures |ys| == |lines|
    ensures forall i :: 0 <= i < |lines| ==> ys[i] == LineTranscript(lines[i], parse)
  {
    seq(|lines|, i requires 0 <= i < |lines| => LineTranscript(lines[i], parse))
  }

  /** Scans `ys[..k]` from the highest index down and returns the first index that holds a
      value: the highest such index. */
  function ScanBack(ys: seq<Option<string>>, k: nat): (found: Option<nat>)
    requires k <= |ys|
    ensures found.None? <==> forall i :: 0 <= i < k ==> ys[i].None?
    ensures found.Some? ==> found.value < k && ys[found.value].Some?
                            && forall j :: found.value < j < k ==> ys[j].None?
  {
    if k == 0 then None
    else if ys[k - 1].Some? then Some(k - 1)
    else ScanBack(ys, k - 1)
  }

  /** The transcript of the last line of `lines` that yields one, if any line does. */
  function LastTranscript(lines: seq<string>, parse: string -> Option<JsonValue>): (t: Option<string>)
    ensures t.None? <==> forall i :: 0 <= i < |lines| ==> LineTranscript(lines[i], parse).None?
    ensures t.Some? ==>
      exists i :: 0 <= i < |lines| && LineTranscript(lines[i], parse) == t
                  && forall j :: i < j < |lines| ==> LineTranscript(lines[j], parse).None?
  {
    var ys := Yields(lines, parse);
    match ScanBack(ys, |ys|)
    case Some(i) =>
      assert LineTranscript(lines[i], parse) == ys[i];
      ys[i]
    case None => None
  }

  /** Go's `extractTranscript`: the transcript of the last line that yields one, or the
      "no transcription found" error exactly when no line does. */
  function ExtractTranscript(response: string, parse: string -> Option<JsonValue>): (r: Result<string, Error>)
    ensures r.Failure? ==> r.error == NoTranscription
    ensures r.Failure? <==> forall i :: 0 <= i < |Lines(response)| ==> LineTranscript(Lines(response)[i], parse).None?
    ensures r.Success? ==> r.value != ""
    ensures r.Success? ==>
      exists i :: 0 <= i < |Lines(response)| && LineTranscript(Lines(response)[i], parse) == Some(r.value)
                  && forall j :: i < j < |Lines(response)| ==> LineTranscript(Lines(response)[j], parse).None?
  {
    match LastTranscript(Lines(response), parse)
    case Some(text) => Success(text)
    case None => Failure(NoTranscription)
  }

  /** The document `{"results":[{"alternatives":[{"transcript":"partial"}]}]}`. */
  const PartialDocument: JsonValue :=
    JObject([("results", JArray([JObject([("alternatives", JArray([JObject([("transcript", JString("partial"))])]))])]))])

  /** Two trimmed newline-free lines joined by a newline are the lines of that response. */
  lemma TwoLines(first: string, last: string)
    requires first != "" && Trimmed(first) && '\n' !in first
    requires last != "" && Trimmed(last) && '\n' !in last
    ensures Lines(first + "\n" + last) == [first, last]
  {
    var response := first + "\n" + last;
    assert Join([first, last], '\n') == response;
    TrimSpaceOfTrimmed(response);
    SplitJoin([first, last]);
  }

  /** A trimmed line decoding to the "partial" document yields "partial". */
  lemma PartialLine(line: string, parse: string -> Option<JsonValue>)
    requires line != "" && Trimmed(line) && parse(line) == Some(PartialDocument)
    ensures LineTranscript(line, parse) == Some("partial")
  {
    TrimSpaceOfTrimmed(line);
    var obj := PartialDocument.members;
    var first := [("alternatives", JArray([JObject([("transcript", JString("partial"))])]))];
    assert ResultList(obj) == [JObject(first)];
    assert AlternativeList(first) == [JObject([("transcript", JString("partial"))])];
  }

  /** A two-line answer whose first line carries "partial" and whose last line is malformed
      yields "partial": the scan skips the malformed last line and falls back to the earlier one. */
  lemma FallsBackPastMalformedLastLine(first: string, last: string, parse: string -> Option<JsonValue>)
    requires first != "" && Trimmed(first) && '\n' !in first
    requires last != "" && Trimmed(last) && '\n' !in last
    requires parse(first) == Some(PartialDocument) && parse(last).None?
    ensures ExtractTranscript(first + "\n" + last, parse) == Success("partial")
  {
    TwoLines(first, last);
    PartialLine(first, parse);
    TrimSpaceOfTrimmed(last);
    assert LineTranscript(last, parse).None?;
  }

  // ---------------------------------------------------------------------------------------------
  // The HTTP request: retry on transport failure, then the status check
  // ---------------------------------------------------------------------------------------------

  /** Attempts the client makes before giving up on transport errors. */
  const MaxAttempts: nat := 3

  /** The HTTP status the service must answer with. */
  const StatusOK: int := 200

  /** A delivered response: its status and its body, `None` when reading the body failed. */
  datatype Response = Response(status: int, body: Option<string>)

  /** What the network did with one attempt of the request. */
  datatype Transport = Delivered(response: Response) | TransportFailed(cause: string)

  /** How the retry loop went: the attempts it made, the seconds it slept after each failed
      attempt, and the response it ended with or the error it gave up with. */
  datatype RetryTrace = RetryTrace(attempts: nat, sleeps: seq<nat>, outcome: Result<Response, Error>)

  /** The retry loop from attempt `i` on; `outcomes[j]` is what attempt `j` meets. */
  function RetryFrom(outcomes: seq<Transport>, i: nat): (t: RetryTrace)
    requires i < MaxAttempts <= |outcomes|
    ensures 1 <= t.attempts && i + t.attempts <= MaxAttempts
    ensures forall j :: i <= j < i + t.attempts - 1 ==> outcomes[j].TransportFailed?
    ensures t.outcome.Success? <==> outcomes[i + t.attempts - 1].Delivered?
    ensures t.outcome.Success? ==> t.outcome.value == outcomes[i + t.attempts - 1].response
    ensures t.outcome.Failure? ==> i + t.attempts == MaxAttempts
                                   && t.outcome.error == HttpAfterRetries(outcomes[MaxAttempts - 1].cause)
    ensures |t.sleeps| == if t.outcome.Success? then t.attempts - 1 else t.attempts
    ensures forall j :: 0 <= j < |t.sleeps| ==> t.sleeps[j] == i + j + 1
    decreases MaxAttempts - i
  {
    match outcomes[i]
    case Delivered(response) => RetryTrace(1, [], Success(response))
    case TransportFailed(cause) =>
      var rest :=
        if i + 1 < MaxAttempts then RetryFrom(outcomes, i + 1)
        else RetryTrace(0, [], Failure(HttpAfterRetries(cause)));
      RetryTrace(rest.attempts + 1, [i + 1] + rest.sleeps, rest.outcome)
  }

  /** The retry loop of `Transcribe`: at most three attempts, stopping at the first one the
      transport delivers (whatever its status), sleeping i+1 seconds after failed attempt i
      (the third failure included), and failing with the last transport error when all three fail. */
  function Retry(outcomes: seq<Transport>): (t: RetryTrace)
    requires |outcomes| >= MaxAttempts
    ensures 1 <= t.attempts <= MaxAttempts
    ensures forall j :: 0 <= j < t.attempts - 1 ==> outcomes[j].TransportFailed?
    ensures t.outcome.Success? <==> exists j :: 0 <= j < MaxAttempts && outcomes[j].Delivered?
    ensures t.outcome.Success? ==> outcomes[t.attempts - 1] == Delivered(t.outcome.value)
    ensures t.outcome.Failure? ==> t.attempts == MaxAttempts
                                   && t.outcome.error == HttpAfterRetries(outcomes[MaxAttempts - 1].cause)
    ensures |t.sleeps| == if t.outcome.Success? then t.attempts - 1 else t.attempts
    ensures forall j :: 0 <= j < |t.sleeps| ==> t.sleeps[j] == j + 1
  {
    RetryFrom(outcomes, 0)
  }

  /** The loop stops at the first delivered attempt and ends with its response. */
  lemma RetryStopsAtFirstDelivery(outcomes: seq<Transport>, k: nat)
    requires |outcomes| >= MaxAttempts && k < MaxAttempts
    requires forall j :: 0 <= j < k ==> outcomes[j].TransportFailed?
    requires outcomes[k].Delivered?
    ensures Retry(outcomes).attempts == k + 1
    ensures Retry(outcomes).outcome == Success(outcomes[k].response)
  {
    var t := Retry(outcomes);
    assert t.outcome.Success?;
  }

  /** Sum of a sequence of sleep durations. */
  function Total(sleeps: seq<nat>): nat
  {
    if |sleeps| == 0 then 0 else sleeps[0] + Total(sleeps[1..])
  }

  /** When every attempt fails the client has slept 1 + 2 + 3 = 6 seconds before it reports the error. */
  lemma AllAttemptsFailedBackoff(outcomes: seq<Transport>)
    requires |outcomes| >= MaxAttempts
    requires forall j :: 0 <= j < MaxAttempts ==> outcomes[j].TransportFailed?
    ensures Retry(outcomes).attempts == MaxAttempts
    ensures Retry(outcomes).sleeps == [1, 2, 3]
    ensures Total(Retry(outcomes).sleeps) == 6
  {
    var t := Retry(outcomes);
    assert t.outcome.Failure?;
    assert t.sleeps == [1, 2, 3];
    assert t.sleeps[1..] == [2, 3] && [2, 3][1..] == [3] && [3][1..] == [];
  }

  /** Go's `Transcribe` after the request is built: the retry loop, reading the body, the status
      check (not retried: any delivered response ends the loop) and the transcript extraction.
      The reply has a text exactly when it has no error, and that text is never empty. */
  function TranscribeRequest(outcomes: seq<Transport>, parse: string -> Option<JsonValue>): (r: Reply)
    requires |outcomes| >= MaxAttempts
    ensures WellFormed(r)
    ensures r.text.Some? ==> r.text.value != ""
    ensures r.text.Some? ==>
      var k := Retry(outcomes).attempts - 1;
      outcomes[k].Delivered? && outcomes[k].response.status == StatusOK
      && outcomes[k].response.body.Some?
      && ExtractTranscript(outcomes[k].response.body.value, parse) == Success(r.text.value)
    ensures var k := Retry(outcomes).attempts - 1;
      outcomes[k].TransportFailed? ==> r.err == Some(HttpAfterRetries(outcomes[k].cause))
    ensures var k := Retry(outcomes).attempts - 1;
      outcomes[k].Delivered? && outcomes[k].response.body.None? ==> r.err == Some(ReadResponseFailed)
    ensures var k := Retry(outcomes).attempts - 1;
      outcomes[k].Delivered? && outcomes[k].response.body.Some? && outcomes[k].response.status != StatusOK
      ==> r.err == Some(ApiStatus(outcomes[k].response.status, outcomes[k].response.body.value))
    ensures var k := Retry(outcomes).attempts - 1;
      outcomes[k].Delivered? && outcomes[k].response.body.Some? && outcomes[k].response.status == StatusOK
      ==> var extracted := ExtractTranscript(outcomes[k].response.body.value, parse);
          && (extracted.Success? ==> r == Reply(Some(extracted.value), None))
          && (extracted.Failure? ==> r.err == Some(NoTranscription))
  {
    var trace := Retry(outcomes);
    match trace.outcome
    case Failure(e) => Reply(None, Some(e))
    case Success(response) =>
      match response.body
      case None => Reply(None, Some(ReadResponseFailed))
      case Some(body) =>
        if response.status != StatusOK then Reply(None, Some(ApiStatus(response.status, body)))
        else match ExtractTranscript(body, parse)
          case Success(text) => Reply(Some(text), None)
          case Failure(e) => Reply(None, Some(e))
  }

  /** A response with a status other than 200 ends the request with an API error carrying the
      status and body, after no further attempt. */
  lemma NonOkStatusNotRetried(outcomes: seq<Transport>, parse: string -> Option<JsonValue>, k: nat)
    requires |outcomes| >= MaxAttempts && k < MaxAttempts
    requires forall j :: 0 <= j < k ==> outcomes[j].TransportFailed?
    requires outcomes[k].Delivered? && outcomes[k].response.status != StatusOK
    requires outcomes[k].response.body.Some?
    ensures Retry(outcomes).attempts == k + 1
    ensures TranscribeRequest(outcomes, parse).err
            == Some(ApiStatus(outcomes[k].response.status, outcomes[k].response.body.value))
  {
    var t := Retry(outcomes);
    assert t.outcome.Success?;
  }

  /** A request whose first `k` attempts fail in transport and whose attempt `k` is answered
      with status 200 and a body holding a transcript returns that transcript without error. */
  lemma RequestSucceeds(outcomes: seq<Transport>, parse: string -> Option<JsonValue>, k: nat, body: string)
    requires |outcomes| >= MaxAttempts && k < MaxAttempts
    requires forall j :: 0 <= j < k ==> outcomes[j].TransportFailed?
    requires outcomes[k] == Delivered(Response(StatusOK, Some(body)))
    requires ExtractTranscript(body, parse).Success?
    ensures TranscribeRequest(outcomes, parse) == Reply(Some(ExtractTranscript(body, parse).value), None)
  {
    RetryStopsAtFirstDelivery(outcomes, k);
  }

  /** When all three attempts fail in transport, the request fails with the third attempt's
      transport error. */
  lemma RequestFailsAfterRetries(outcomes: seq<Transport>, parse: string -> Option<JsonValue>)
    requires |outcomes| >= MaxAttempts
    requires forall j :: 0 <= j < MaxAttempts ==> outcomes[j].TransportFailed?
    ensures TranscribeRequest(outcomes, parse) == Reply(None, Some(HttpAfterRetries(outcomes[MaxAttempts - 1].cause)))
  {
    var t := Retry(outcomes);
    assert t.outcome.Failure?;
  }
}

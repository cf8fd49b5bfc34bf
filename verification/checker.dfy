/** One URL check (Checker.Check): the outcome of the HTTP exchange is an
    input; a received response is judged by comparing a fixed set of
    expected headers with what the response carries (checkHeaders). */
module Checker {
  import opened Errors
  import opened Headers

  /** The headers a permissive CORS endpoint must send, with their exact
      values. */
  const ExpectedHeaders: map<string, string> :=
    map["Access-Control-Allow-Methods" := "GET", "Access-Control-Allow-Origin" := "*"]

  /** Every expected header is found (by case-insensitive name) with
      exactly the expected value. */
  predicate HeadersMatch(h: Header, wanted: map<string, string>) {
    forall name :: name in wanted ==> Get(h, name) == wanted[name]
  }

  /** The expected names whose looked-up value differs from the expected one. */
  function Mismatched(h: Header, wanted: map<string, string>): set<string> {
    set name | name in wanted && Get(h, name) != wanted[name]
  }

  /** One "header mismatch" log entry. */
  datatype Mismatch = Mismatch(url: string, header: string, expected: string, got: string)

  /** The header names a log reports. */
  function Reported(log: seq<Mismatch>): set<string> {
    set m | m in log :: m.header
  }

  /** No header is reported twice. */
  predicate NoRepeats(log: seq<Mismatch>) {
    forall i, j :: 0 <= i < j < |log| ==> log[i].header != log[j].header
  }

  /** Without repeats, a log has one entry per header it reports. */
  lemma {:induction false} NoRepeatsCount(log: seq<Mismatch>)
    requires NoRepeats(log)
    ensures |Reported(log)| == |log|
  {
    if log != [] {
      var last := log[|log| - 1];
      var init := log[..|log| - 1];
      assert log == init + [last];
      NoRepeatsCount(init);
      assert Reported(log) == Reported(init) + {last.header};
      assert last.header !in Reported(init);
    }
  }

  /** An accurate entry: it is about `url`, names an expected header, and
      records the expected value and the differing value found. */
  predicate Accurate(m: Mismatch, url: string, h: Header, wanted: map<string, string>) {
    m.url == url && m.header in wanted && m.expected == wanted[m.header] &&
    m.got == Get(h, m.header) && m.got != m.expected
  }

  /** checkHeaders: examines every expected header, logging one entry per
      mismatch, in an order the model leaves open (Go's map order), and
      returns true exactly when nothing mismatched. */
  method CheckHeaders(url: string, h: Header, wanted: map<string, string>)
    returns (ok: bool, log: seq<Mismatch>)
    ensures ok == HeadersMatch(h, wanted)
    ensures ok <==> log == []
    ensures Reported(log) == Mismatched(h, wanted)
    ensures NoRepeats(log)
    ensures forall m :: m in log ==> Accurate(m, url, h, wanted)
  {
    ok, log := true, [];
    var pending := wanted.Keys;
    while pending != {}
      invariant pending <= wanted.Keys
      invariant Reported(log) == Mismatched(h, wanted) - pending
      invariant NoRepeats(log)
      invariant ok <==> log == []
      invariant forall m :: m in log ==> Accurate(m, url, h, wanted)
      decreases pending
    {
      var name :| name in pending;
      var actual := Get(h, name);
      if actual != wanted[name] {
        var m := Mismatch(url, name, wanted[name], actual);
        assert Reported(log + [m]) == Reported(log) + {name};
        log := log + [m];
        ok := false;
      }
      pending := pending - {name};
    }
    assert log != [] ==> log[0].header in Reported(log);
    MatchIffNoneMismatched(h, wanted);
  }

  /** The headers match exactly when no expected header mismatches. */
  lemma {:induction false} MatchIffNoneMismatched(h: Header, wanted: map<string, string>)
    ensures HeadersMatch(h, wanted) <==> Mismatched(h, wanted) == {}
  {
    if !HeadersMatch(h, wanted) {
      var name :| name in wanted && Get(h, name) != wanted[name];
      assert name in Mismatched(h, wanted);
    }
  }

  /** A header the response lacks reads as "", so it is reported whenever
      its expected value is not empty. */
  lemma AbsentHeaderIsMismatch(h: Header, wanted: map<string, string>, name: string)
    requires name in wanted && wanted[name] != ""
    requires CanonicalKey(name) !in h
    ensures name in Mismatched(h, wanted)
    ensures !HeadersMatch(h, wanted)
  {
  }

  /** Neither fixed expected value is empty. */
  lemma ExpectedValuesNonEmpty()
    ensures forall name :: name in ExpectedHeaders ==> ExpectedHeaders[name] != ""
  {
  }

  /** What the HTTP layer did with the request for one URL: the request
      could not be built, sending it failed, draining the body failed, or a
      response arrived. The client timeout and cancellation of the context
      end either the sending or the draining, so they show up as a
      transport failure or a body read failure. */
  datatype Exchange =
    | BadRequest(cause: IoError)
    | TransportFailed(cause: IoError)
    | BodyFailed(cause: IoError)
    | Received(header: Header)

  /** The errors Check returns, each wrapping its cause. */
  datatype CheckError =
    | CreateRequest(cause: IoError)
    | PerformRequest(cause: IoError)
    | ReadBody(cause: IoError)

  /** A URL passes when a response arrived with all expected headers. */
  predicate Passes(exchange: Exchange) {
    exchange.Received? && HeadersMatch(exchange.header, ExpectedHeaders)
  }

  /** A response that lacks either CORS header, under any spelling of its
      name, fails its check. */
  lemma AbsentCorsHeaderFails(h: Header, name: string)
    requires name in ExpectedHeaders
    requires forall key :: key in h ==> !SameIgnoringCase(key, name)
    ensures !Passes(Received(h))
  {
    CanonicalKeySpec(name);
    ExpectedValuesNonEmpty();
    AbsentHeaderIsMismatch(h, ExpectedHeaders, name);
  }

  /** Checker.Check: every error path answers false; a received response
      is judged by checkHeaders against the fixed expectations. */
  method Check(url: string, exchange: Exchange)
    returns (ok: bool, err: Option<CheckError>, log: seq<Mismatch>)
    ensures err.Some? ==> !ok
    ensures err.None? <==> exchange.Received?
    ensures exchange.BadRequest? ==> err == Some(CreateRequest(exchange.cause))
    ensures exchange.TransportFailed? ==> err == Some(PerformRequest(exchange.cause))
    ensures exchange.BodyFailed? ==> err == Some(ReadBody(exchange.cause))
    ensures (ok && err.None?) == Passes(exchange)
    ensures !exchange.Received? ==> log == []
    ensures exchange.Received? ==>
      Reported(log) == Mismatched(exchange.header, ExpectedHeaders) && NoRepeats(log)
    ensures forall m :: m in log ==> exchange.Received? && Accurate(m, url, exchange.header, ExpectedHeaders)
  {
    match exchange
    case BadRequest(e) =>
      return false, Some(CreateRequest(e)), [];
    case TransportFailed(e) =>
      return false, Some(PerformRequest(e)), [];
    case BodyFailed(e) =>
      return false, Some(ReadBody(e)), [];
    case Received(h) =>
      ok, log := CheckHeaders(url, h, ExpectedHeaders);
      err := None;
  }
}

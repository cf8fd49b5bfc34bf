/** The run: every URL of the list is checked and the outcomes are folded
    into one failure flag. The checks run concurrently in the program and
    only ever set the flag to true, so the model runs them one after the
    other and proves that the order does not matter. */
module Orchestrator {
  import opened Errors
  import opened Urls
  import opened Checker

  /** What the run returns: nil, the wrapped "load URLs" error, or the
      generic "unsuccessful" error. */
  datatype RunResult = Succeeded | LoadUrlsFailed(cause: IoError) | Unsuccessful

  /** The failure flag after the checks of `exchanges`, starting from `flag`:
      each failing check stores true, and nothing ever stores false. */
  function FoldFailed(flag: bool, exchanges: seq<Exchange>): bool
    decreases |exchanges|
  {
    if exchanges == [] then flag
    else FoldFailed(flag || !Passes(exchanges[0]), exchanges[1..])
  }

  /** Once set, the flag stays set. */
  lemma {:induction false} FoldFailedMonotone(flag: bool, exchanges: seq<Exchange>)
    requires flag
    ensures FoldFailed(flag, exchanges)
    decreases |exchanges|
  {
    if exchanges != [] {
      FoldFailedMonotone(true, exchanges[1..]);
    }
  }

  /** The flag is set exactly when it started set or some check failed. */
  lemma {:induction false} FoldFailedExists(flag: bool, exchanges: seq<Exchange>)
    ensures FoldFailed(flag, exchanges) <==>
      flag || exists i :: 0 <= i < |exchanges| && !Passes(exchanges[i])
    decreases |exchanges|
  {
    if exchanges != [] {
      var rest := exchanges[1..];
      FoldFailedExists(flag || !Passes(exchanges[0]), rest);
      if exists i :: 0 <= i < |rest| && !Passes(rest[i]) {
        var i :| 0 <= i < |rest| && !Passes(rest[i]);
        assert !Passes(exchanges[i + 1]);
      }
      if exists i :: 0 <= i < |exchanges| && !Passes(exchanges[i]) {
        var i :| 0 <= i < |exchanges| && !Passes(exchanges[i]);
        assert i == 0 || !Passes(rest[i - 1]);
      }
    }
  }

  /** One more check: the flag is set afterwards iff it was set before or
      that check failed. */
  lemma {:induction false} FoldFailedSnoc(flag: bool, exchanges: seq<Exchange>, e: Exchange)
    ensures FoldFailed(flag, exchanges + [e]) == (FoldFailed(flag, exchanges) || !Passes(e))
    decreases |exchanges|
  {
    if exchanges == [] {
      assert exchanges + [e] == [e];
    } else {
      assert (exchanges + [e])[1..] == exchanges[1..] + [e];
      FoldFailedSnoc(flag || !Passes(exchanges[0]), exchanges[1..], e);
    }
  }

  /** The flag does not depend on the order the checks finish in: any
      rearrangement of the same outcomes gives the same verdict. */
  lemma {:induction false} FoldFailedOrderFree(xs: seq<Exchange>, ys: seq<Exchange>)
    requires multiset(xs) == multiset(ys)
    ensures FoldFailed(false, xs) == FoldFailed(false, ys)
  {
    FoldFailedExists(false, xs);
    FoldFailedExists(false, ys);
    if exists i :: 0 <= i < |xs| && !Passes(xs[i]) {
      var i :| 0 <= i < |xs| && !Passes(xs[i]);
      assert xs[i] in multiset(ys);
      var j :| 0 <= j < |ys| && ys[j] == xs[i];
    }
    if exists j :: 0 <= j < |ys| && !Passes(ys[j]) {
      var j :| 0 <= j < |ys| && !Passes(ys[j]);
      assert ys[j] in multiset(xs);
      var i :| 0 <= i < |xs| && xs[i] == ys[j];
    }
  }

  /** The error the URL source reports once it is done, if any. */
  function SourceError(file: UrlFile): Option<IoError> {
    match file
    case Unopenable(e) => Some(e)
    case Opened(_, scanErr) => scanErr
  }

  /** The URLs the source hands to the run. */
  function SourceUrls(file: UrlFile): seq<string> {
    match file
    case Unopenable(_) => []
    case Opened(lines, _) => UrlLines(lines)
  }

  /** run, from the loading of the URLs on: one check per URL, where
      `network(i, url)` is what the HTTP layer does for the i-th URL; a
      URL source error wins over failed checks. */
  method Run(file: UrlFile, network: (nat, string) -> Exchange) returns (result: RunResult)
    ensures SourceError(file).Some? ==> result == LoadUrlsFailed(SourceError(file).value)
    ensures SourceError(file).None? ==> result != Succeeded ==> result == Unsuccessful
    ensures result == Succeeded <==>
      SourceError(file).None? &&
      forall i :: 0 <= i < |SourceUrls(file)| ==> Passes(network(i, SourceUrls(file)[i]))
  {
    var err := new ErrorSlot();
    // the range loop's body never breaks, so every yield returns true
    var accept := (i: nat, url: string) => true;
    var urls := LoadURLs(file, accept, err);
    assert !Refused(urls, accept);
    var hadError := false;
    ghost var done: seq<Exchange> := [];
    for i := 0 to |urls|
      invariant |done| == i
      invariant forall k :: 0 <= k < i ==> done[k] == network(k, urls[k])
      invariant hadError == FoldFailed(false, done)
      invariant err.err == SourceError(file)
    {
      var exchange := network(i, urls[i]);
      var ok, checkErr, log := Check(urls[i], exchange);
      if !ok || checkErr.Some? {
        hadError := true;
      }
      FoldFailedSnoc(false, done, exchange);
      done := done + [exchange];
    }
    FoldFailedExists(false, done);
    assert urls == SourceUrls(file);
    if err.err.Some? {
      return LoadUrlsFailed(err.err.value);
    }
    if hadError {
      return Unsuccessful;
    }
    return Succeeded;
  }
}

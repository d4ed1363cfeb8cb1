/** `retry` of client.py: repeated requests under a time budget, with
    exponential backoff for replies that are not protocol replies and
    compliance with the two server rate-limit hints.

    Time is a mock monotonic clock in integer nanoseconds. Each loop
    iteration reads it at most twice: once for the deadline check (`checkNs`)
    and once when computing or testing the wait (`actNs`); an iteration that
    returns a response below 400 reads neither, and one that returns an
    error without a usable hint reads only the first. Sleeps are returned as
    actions instead of being performed. */
module RetryDriver {
  import opened Wrappers
  import opened Json
  import opened Classifier
  import Digits

  const NsPerMs: int := 1_000_000
  /** The first backoff interval; `asyncio.sleep` takes it as seconds. */
  const InitialBackoff: int := 2

  /** The decision one loop iteration takes about the response it received. */
  datatype Action =
      /** Hand the response back to the caller. */
    | Return
      /** Release the response, sleep `delay` seconds, continue with `newBackoff`. */
    | SleepBackoff(delay: real, newBackoff: int)
      /** Release the response, sleep the time the server asked for, keep the backoff. */
    | SleepRateLimit(seconds: int)
      /** The `errcode` probe raised `TypeError` out of `retry`. */
    | RaiseTypeError

  /** What the `M_LIMIT_EXCEEDED` test finds in a decoded error body. */
  datatype Hint = NoHint | HintMs(ms: int) | HintTypeError

  function Min(a: real, b: real): real {
    if a <= b then a else b
  }

  /** The `Retry-After` header when it is a non-empty string of ASCII digits,
      read as a whole number of seconds. */
  function RetryAfterSeconds(headers: map<string, string>): (r: Option<nat>)
    ensures r.Some? <==> "Retry-After" in headers && Digits.IsDigitString(headers["Retry-After"])
  {
    if "Retry-After" in headers && Digits.IsDigitString(headers["Retry-After"]) then
      Some(Digits.ParseDecimal(headers["Retry-After"]))
    else None
  }

  /** A header that a server wrote from a number of seconds is read back as
      that number, whatever the other headers are. */
  lemma RetryAfterReadsWrittenSeconds(headers: map<string, string>, n: nat)
    ensures RetryAfterSeconds(headers["Retry-After" := Digits.ShowDecimal(n)]) == Some(n)
  {
    Digits.ParseShowRoundTrip(n);
  }

  /** The test `"errcode" in result and result["errcode"] == "M_LIMIT_EXCEEDED"
      and type(result.get("retry_after_ms")) == int`. It is outside the `try`,
      so the `TypeError` of `in` on a number, boolean or null, and of
      `result["errcode"]` on a list or string, escapes. */
  function LimitExceededHint(result: Value): (h: Hint)
    ensures h.HintMs? <==>
      && result.Obj?
      && "errcode" in result.members
      && result.members["errcode"] == Str("M_LIMIT_EXCEEDED")
      && "retry_after_ms" in result.members
      && result.members["retry_after_ms"].Int?
    ensures h.HintMs? ==> h.ms == result.members["retry_after_ms"].i
    ensures h.HintTypeError? <==> !result.Obj? && PyIn("errcode", result) != Some(false)
  {
    match PyIn("errcode", result)
    case None => HintTypeError
    case Some(false) => NoHint
    case Some(true) =>
      if !result.Obj? then HintTypeError
      else if result.members["errcode"] != Str("M_LIMIT_EXCEEDED") then NoHint
      else if "retry_after_ms" in result.members && result.members["retry_after_ms"].Int? then
        HintMs(result.members["retry_after_ms"].i)
      else NoHint
  }

  /** `math.ceil(ms / 1_000)`: the whole number of seconds that covers `ms`
      milliseconds, rounding up. */
  function CeilSeconds(ms: int): (s: int)
    ensures 1000 * (s - 1) < ms <= 1000 * s
  {
    -((-ms) / 1000)
  }

  /** One iteration of the `while True` loop after the request returned
      `resp`, with the fixed deadline `endTime` and the current `backoff`. */
  function Step(resp: Response, checkNs: int, actNs: int, endTime: int, backoff: int): (a: Action)
    ensures resp.status < 400 ==> a == Return
    ensures resp.status >= 400 && checkNs > endTime ==> a == Return
    ensures a.SleepBackoff? <==> resp.status >= 400 && resp.decoded.None? && checkNs <= endTime
    ensures a.SleepBackoff? ==>
      && a.newBackoff == 2 * backoff
      && a.delay <= backoff as real
      && a.delay <= (endTime - actNs) as real / NsPerMs as real
      && (a.delay == backoff as real || a.delay == (endTime - actNs) as real / NsPerMs as real)
    ensures a.SleepRateLimit? ==> resp.status >= 400 && resp.decoded.Some? && checkNs <= endTime
    ensures a.RaiseTypeError? ==> resp.status >= 400 && resp.decoded.Some? && !resp.decoded.value.Obj?
  {
    if resp.status < 400 then Return
    else
      match resp.decoded
      case None =>
        if checkNs > endTime then Return
        else
          // The remaining time is divided down to milliseconds while the
          // backoff is a number of seconds; the minimum mixes the two units.
          SleepBackoff(Min(backoff as real, (endTime - actNs) as real / NsPerMs as real), backoff * 2)
      case Some(result) =>
        if checkNs > endTime then Return
        else if resp.status == 429 && RetryAfterSeconds(resp.headers).Some? then
          // The source reads the value through an undefined name (`res`); it
          // is modelled as the header whose presence and form were checked.
          var delay := RetryAfterSeconds(resp.headers).value;
          // A delay in seconds is scaled by 1_000_000, as if it were in
          // milliseconds, before being compared with nanosecond times.
          if actNs + delay * NsPerMs > endTime then Return
          else SleepRateLimit(delay)
        else
          match LimitExceededHint(result)
          case HintTypeError => RaiseTypeError
          case NoHint => Return
          case HintMs(ms) =>
            if actNs + ms * NsPerMs > endTime then Return
            else SleepRateLimit(CeilSeconds(ms))
  }

  /** An undecodable error body: returned once the deadline check sees the
      deadline passed; otherwise a sleep of the smaller of the backoff and the
      remaining time, and the backoff doubles. */
  lemma StepUndecodableError(resp: Response, checkNs: int, actNs: int, endTime: int, backoff: int)
    requires resp.status >= 400 && resp.decoded.None?
    ensures checkNs > endTime ==> Step(resp, checkNs, actNs, endTime, backoff) == Return
    ensures checkNs <= endTime ==>
      (Step(resp, checkNs, actNs, endTime, backoff) ==
       SleepBackoff(Min(backoff as real, (endTime - actNs) as real / 1_000_000.0), 2 * backoff))
  {
  }

  /** Status 429 with a digit-string `Retry-After` is decided before the body
      is looked at: returned if the wait would end past the deadline,
      otherwise a sleep of exactly that many seconds. */
  lemma StepRetryAfter(resp: Response, checkNs: int, actNs: int, endTime: int, backoff: int, delay: nat)
    requires resp.status == 429 && resp.decoded.Some? && checkNs <= endTime
    requires RetryAfterSeconds(resp.headers) == Some(delay)
    ensures Step(resp, checkNs, actNs, endTime, backoff) ==
      if actNs + delay * 1_000_000 > endTime then Return else SleepRateLimit(delay)
  {
  }

  /** An `M_LIMIT_EXCEEDED` body with an integer `retry_after_ms` (and no
      usable `Retry-After`): returned if the wait would end past the deadline,
      otherwise a sleep of the hint rounded up to whole seconds. */
  lemma StepLimitExceeded(resp: Response, checkNs: int, actNs: int, endTime: int, backoff: int, ms: int)
    requires resp.status >= 400 && resp.decoded.Some? && checkNs <= endTime
    requires !(resp.status == 429 && RetryAfterSeconds(resp.headers).Some?)
    requires LimitExceededHint(resp.decoded.value) == HintMs(ms)
    ensures Step(resp, checkNs, actNs, endTime, backoff) ==
      if actNs + ms * 1_000_000 > endTime then Return else SleepRateLimit(CeilSeconds(ms))
  {
  }

  /** Every other decodable error, whose `errcode` probe answers false or
      finds no usable hint, is handed back unchanged: objects, and also lists
      and strings for which `"errcode" in result` is false. */
  lemma StepOtherErrorReturned(resp: Response, checkNs: int, actNs: int, endTime: int, backoff: int)
    requires resp.status >= 400 && resp.decoded.Some?
    requires !(resp.status == 429 && RetryAfterSeconds(resp.headers).Some?)
    requires LimitExceededHint(resp.decoded.value) == NoHint
    ensures Step(resp, checkNs, actNs, endTime, backoff) == Return
  {
  }

  /** A status-500 list body without the string "errcode" is returned as is. */
  lemma StepListBodyReturned(checkNs: int, actNs: int, endTime: int, backoff: int)
    ensures Step(Response(500, map[], Some(Arr([Int(1)]))), checkNs, actNs, endTime, backoff) == Return
  {
  }

  // ---------------------------------------------------------------------
  // The whole loop over a scripted sequence of responses
  // ---------------------------------------------------------------------

  /** One request of a scripted run: the response and the two clock readings
      taken while handling it. */
  datatype Attempt = Attempt(resp: Response, checkNs: int, actNs: int)

  /** How a scripted run ends: with a returned response, with the escaping
      `TypeError`, or because the script has no further responses. */
  datatype RunEnd = Returned(resp: Response) | Raised | ScriptEnded

  /** The record of a run: its end, the number of requests issued, the sleep
      taken after each request that did not end the run, and the backoff
      interval at the end. */
  datatype Trace = Trace(outcome: RunEnd, attempts: nat, sleeps: seq<Action>, backoff: int)

  /** A trace `t` of the rest of a run, preceded by the sleeps `done` of the
      requests already handled. */
  function Resume(done: seq<Action>, t: Trace): Trace {
    Trace(t.outcome, t.attempts + |done|, done + t.sleeps, t.backoff)
  }

  /** The loop as a function of the scripted responses: one request per
      response until a response is returned, `TypeError` escapes, or the
      script runs out. */
  function Run(script: seq<Attempt>, endTime: int, backoff: int): (r: Trace)
    ensures r.attempts <= |script|
    ensures script != [] ==> r.attempts >= 1
    ensures r.outcome.Returned? ==> r.attempts >= 1 && r.outcome.resp == script[r.attempts - 1].resp
    decreases |script|
  {
    if script == [] then Trace(ScriptEnded, 0, [], backoff)
    else
      var a := script[0];
      var act := Step(a.resp, a.checkNs, a.actNs, endTime, backoff);
      match act
      case Return => Trace(Returned(a.resp), 1, [], backoff)
      case RaiseTypeError => Trace(Raised, 1, [], backoff)
      case SleepBackoff(_, nb) => Resume([act], Run(script[1..], endTime, nb))
      case SleepRateLimit(_) => Resume([act], Run(script[1..], endTime, backoff))
  }

  function Pow2(n: nat): (p: nat)
    ensures p >= 1
  {
    if n == 0 then 1 else 2 * Pow2(n - 1)
  }

  /** The number of exponential-backoff sleeps among `sleeps`. */
  function CountBackoffs(sleeps: seq<Action>): (n: nat)
    ensures n <= |sleeps|
  {
    if sleeps == [] then 0
    else (if sleeps[0].SleepBackoff? then 1 else 0) + CountBackoffs(sleeps[1..])
  }

  /** The shape of every run: at most one request per scripted response, at
      least one request whenever there is a response at all, a sleep after
      every request that did not end the run, and the returned response is
      the last one requested. */
  lemma {:induction false} RunShape(script: seq<Attempt>, endTime: int, backoff: int)
    ensures var r := Run(script, endTime, backoff);
      && r.attempts <= |script|
      && (script != [] ==> r.attempts >= 1)
      && (r.outcome.ScriptEnded? <==> r.attempts == |script| == |r.sleeps|)
      && (!r.outcome.ScriptEnded? ==> |r.sleeps| == r.attempts - 1)
      && (r.outcome.Returned? ==> r.outcome.resp == script[r.attempts - 1].resp)
    decreases |script|
  {
    if script != [] {
      var a := script[0];
      var act := Step(a.resp, a.checkNs, a.actNs, endTime, backoff);
      if act.SleepBackoff? {
        RunShape(script[1..], endTime, act.newBackoff);
      } else if act.SleepRateLimit? {
        RunShape(script[1..], endTime, backoff);
      }
    }
  }

  /** The sleeps of a trace each follow the error response at the same
      position of the script, whose deadline check found the deadline not yet
      passed. */
  predicate SleepsFollowLiveErrors(script: seq<Attempt>, sleeps: seq<Action>, endTime: int) {
    && |sleeps| <= |script|
    && forall j :: 0 <= j < |sleeps| ==>
         && (sleeps[j].SleepBackoff? || sleeps[j].SleepRateLimit?)
         && script[j].resp.status >= 400
         && script[j].checkNs <= endTime
  }

  /** Every sleep follows an error response (status 400 or more) whose
      deadline check found the deadline not yet passed; so no response before
      the returned one had a status below 400. */
  lemma {:induction false} RunSleepsOnlyBeforeDeadline(script: seq<Attempt>, endTime: int, backoff: int)
    ensures SleepsFollowLiveErrors(script, Run(script, endTime, backoff).sleeps, endTime)
    decreases |script|
  {
    if script != [] {
      var a := script[0];
      var act := Step(a.resp, a.checkNs, a.actNs, endTime, backoff);
      if act.SleepBackoff? || act.SleepRateLimit? {
        var nb := if act.SleepBackoff? then act.newBackoff else backoff;
        var t := Run(script[1..], endTime, nb);
        RunSleepsOnlyBeforeDeadline(script[1..], endTime, nb);
        var sleeps := Run(script, endTime, backoff).sleeps;
        assert sleeps == [act] + t.sleeps;
        assert a.resp.status >= 400 && a.checkNs <= endTime;
        forall j | 1 <= j < |sleeps|
          ensures sleeps[j] == t.sleeps[j - 1] && script[j] == script[1..][j - 1]
        {
        }
      }
    }
  }

  /** The loop never goes past a response with a status below 400: a run
      makes no request after it, and one that reaches it returns exactly that
      response. */
  lemma RunStopsAtFirstSuccess(script: seq<Attempt>, endTime: int, backoff: int, j: nat)
    requires j < |script| && script[j].resp.status < 400
    ensures Run(script, endTime, backoff).attempts <= j + 1
    ensures !Run(script, endTime, backoff).outcome.ScriptEnded?
    ensures Run(script, endTime, backoff).attempts == j + 1 ==>
      Run(script, endTime, backoff).outcome == Returned(script[j].resp)
  {
    RunShape(script, endTime, backoff);
    RunSleepsOnlyBeforeDeadline(script, endTime, backoff);
    FirstSuccessReturned(script, endTime, backoff, j);
  }

  lemma {:induction false} FirstSuccessReturned(script: seq<Attempt>, endTime: int, backoff: int, j: nat)
    requires j < |script| && script[j].resp.status < 400
    ensures Run(script, endTime, backoff).attempts == j + 1 ==>
      Run(script, endTime, backoff).outcome == Returned(script[j].resp)
    decreases j
  {
    var a := script[0];
    var act := Step(a.resp, a.checkNs, a.actNs, endTime, backoff);
    if j > 0 {
      assert script[1..][j - 1] == script[j];
      if act.SleepBackoff? {
        FirstSuccessReturned(script[1..], endTime, act.newBackoff, j - 1);
      } else if act.SleepRateLimit? {
        FirstSuccessReturned(script[1..], endTime, backoff, j - 1);
      }
    }
  }

  /** A run whose first response has a status below 400 returns it at once,
      after one request and without sleeping. */
  lemma RunFirstSuccess(script: seq<Attempt>, endTime: int, backoff: int)
    requires script != [] && script[0].resp.status < 400
    ensures Run(script, endTime, backoff) == Trace(Returned(script[0].resp), 1, [], backoff)
  {
  }

  /** The backoff only ever doubles: it ends as the starting interval times
      two to the number of exponential-backoff sleeps, so it never decreases;
      rate-limit sleeps leave it alone. */
  lemma {:induction false} RunBackoffOnlyDoubles(script: seq<Attempt>, endTime: int, backoff: int)
    ensures var r := Run(script, endTime, backoff);
      r.backoff == backoff * Pow2(CountBackoffs(r.sleeps))
    ensures backoff >= 0 ==> Run(script, endTime, backoff).backoff >= backoff
    decreases |script|
  {
    var r := Run(script, endTime, backoff);
    if script != [] {
      var a := script[0];
      var act := Step(a.resp, a.checkNs, a.actNs, endTime, backoff);
      if act.SleepBackoff? {
        RunBackoffOnlyDoubles(script[1..], endTime, 2 * backoff);
        var t := Run(script[1..], endTime, 2 * backoff);
        assert r.sleeps[1..] == t.sleeps;
        DoubleFactor(backoff, CountBackoffs(t.sleeps));
      } else if act.SleepRateLimit? {
        RunBackoffOnlyDoubles(script[1..], endTime, backoff);
        var t := Run(script[1..], endTime, backoff);
        assert r.sleeps[1..] == t.sleeps;
      }
    }
    if backoff >= 0 {
      ScaleNeverShrinks(backoff, Pow2(CountBackoffs(r.sleeps)));
    }
  }

  lemma DoubleFactor(b: int, n: nat)
    ensures (2 * b) * Pow2(n) == b * Pow2(n + 1)
  {
  }

  lemma ScaleNeverShrinks(b: int, p: nat)
    requires b >= 0 && p >= 1
    ensures b * p >= b
  {
  }

  /** `retry(limit, req_func)` against a scripted server: the deadline is
      fixed once from the start time and the limit in milliseconds, the
      backoff starts at 2, and each response is handled by `Step`. */
  method Retry(limitMs: int, startNs: int, script: seq<Attempt>) returns (t: Trace)
    ensures t == Run(script, startNs + limitMs * NsPerMs, InitialBackoff)
    ensures script != [] ==> t.attempts >= 1
    ensures t.backoff >= InitialBackoff
  {
    var endTime := startNs + limitMs * NsPerMs;
    var backoff := InitialBackoff;
    var sleeps: seq<Action> := [];
    var i := 0;
    while i < |script|
      invariant 0 <= i <= |script|
      invariant |sleeps| == i
      invariant Resume(sleeps, Run(script[i..], endTime, backoff)) == Run(script, endTime, InitialBackoff)
    {
      var a := script[i];
      var act := Step(a.resp, a.checkNs, a.actNs, endTime, backoff);
      assert script[i..][0] == a && script[i..][1..] == script[i + 1..];
      match act {
        case Return =>
          t := Resume(sleeps, Trace(Returned(a.resp), 1, [], backoff));
          RetryFacts(script, endTime, t);
          return;
        case RaiseTypeError =>
          t := Resume(sleeps, Trace(Raised, 1, [], backoff));
          RetryFacts(script, endTime, t);
          return;
        case SleepBackoff(_, nb) =>
          ResumeTwice(sleeps, [act], Run(script[i + 1..], endTime, nb));
          backoff := nb;
        case SleepRateLimit(_) =>
          ResumeTwice(sleeps, [act], Run(script[i + 1..], endTime, backoff));
      }
      sleeps := sleeps + [act];
      i := i + 1;
    }
    assert script[i..] == [];
    t := Resume(sleeps, Trace(ScriptEnded, 0, [], backoff));
    RetryFacts(script, endTime, t);
  }

  lemma ResumeTwice(done: seq<Action>, more: seq<Action>, t: Trace)
    ensures Resume(done, Resume(more, t)) == Resume(done + more, t)
  {
  }

  lemma RetryFacts(script: seq<Attempt>, endTime: int, t: Trace)
    requires t == Run(script, endTime, InitialBackoff)
    ensures script != [] ==> t.attempts >= 1
    ensures t.backoff >= InitialBackoff
  {
    RunShape(script, endTime, InitialBackoff);
    RunBackoffOnlyDoubles(script, endTime, InitialBackoff);
  }

  // ---------------------------------------------------------------------
  // Scenarios against a mock clock
  // ---------------------------------------------------------------------

  /** With a time limit of 0 and a server that answers 503 with a body that
      does not decode, the first response is returned without sleeping as soon
      as any time has passed during the request. */
  lemma ZeroLimitUndecodableReturnsFirst(resp: Response, startNs: int, checkNs: int, actNs: int, rest: seq<Attempt>)
    requires resp.status == 503 && resp.decoded.None? && checkNs > startNs
    ensures Run([Attempt(resp, checkNs, actNs)] + rest, startNs + 0 * NsPerMs, InitialBackoff)
      == Trace(Returned(resp), 1, [], InitialBackoff)
  {
  }

  /** The deadline comparison is strict: when no time has passed during the
      request, a time limit of 0 still yields a backoff sleep of length 0 and
      another request. */
  lemma ZeroLimitWithoutElapsedTimeRetries(resp: Response, startNs: int)
    requires resp.status == 503 && resp.decoded.None?
    ensures Step(resp, startNs, startNs, startNs + 0 * NsPerMs, InitialBackoff) == SleepBackoff(0.0, 4)
  {
  }

  /** A 429 with `Retry-After: 1` under a 5000 ms limit: one sleep of one
      second, then exactly one more request, whose success is returned. */
  lemma RateLimitedOnceThenSuccess()
    ensures
      var limited := Response(429, map["Retry-After" := "1"], Some(Obj(map[])));
      var ok := Response(200, map[], Some(Obj(map[])));
      var script := [Attempt(limited, 1_000, 2_000), Attempt(ok, 1_000_003_000, 1_000_003_000)];
      Run(script, 0 + 5000 * NsPerMs, InitialBackoff) == Trace(Returned(ok), 2, [SleepRateLimit(1)], InitialBackoff)
  {
  }

  /** `M_LIMIT_EXCEEDED` with `retry_after_ms` 1500 and a large limit: a
      sleep of two whole seconds before the next request. */
  lemma LimitExceededRoundsUpToSeconds(headers: map<string, string>, checkNs: int, actNs: int, backoff: int)
    requires checkNs <= actNs <= 1_000_000_000
    ensures
      var body := Obj(map["errcode" := Str("M_LIMIT_EXCEEDED"), "retry_after_ms" := Int(1500)]);
      Step(Response(400, headers, Some(body)), checkNs, actNs, 60_000 * NsPerMs, backoff) == SleepRateLimit(2)
  {
  }

  /** Because the `Retry-After` seconds are scaled as milliseconds, a server
      asking for 60 seconds under a 5000 ms budget gets a 60-second sleep,
      ending long after the deadline. */
  lemma RetryAfterScaledAsMilliseconds()
    ensures
      var resp := Response(429, map["Retry-After" := "60"], Some(Obj(map[])));
      var endTime := 0 + 5000 * NsPerMs;
      && Step(resp, 1_000, 1_000, endTime, InitialBackoff) == SleepRateLimit(60)
      && 1_000 + 60 * 1_000_000_000 > endTime
  {
    var h := map["Retry-After" := "60"];
    assert "Retry-After" in h && h["Retry-After"] == "60";
    assert Digits.IsDigitString("60");
    assert Digits.ParseDecimal("60") == 60 by {
      assert "60"[..1] == "6";
    }
    assert RetryAfterSeconds(h) == Some(60);
  }
}

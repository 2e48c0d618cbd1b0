/** The client of the mail connector: writes that are retried only while no connection was
    made, under one deadline for the whole call, and the budget chain of the settings. */
module MailClient {
  import opened Prelude

  // ---------------------------------------------------------------- outcomes of an attempt

  datatype Body = NoBody | NotJson | NotObject | Object

  /** How one attempt ends if nothing cuts it short. */
  datatype Event =
    | ConnectFailed
    | TimedOut          // read, write or pool phase: the request may have gone out
    | TransportFailed
    | Answered(status: int, body: Body, errorCode: Option<string>)

  datatype Outcome =
    | Returned(empty: bool)
    | Timeout(status: Option<int>, errorCode: Option<string>)
    | Unavailable(status: Option<int>, errorCode: Option<string>)
    | Rejected(code: int, errorCode: Option<string>)

  function ParseBody(status: int, body: Body): Outcome {
    if status == 204 || body == NoBody then Returned(true)
    else if body == Object then Returned(false)
    else Unavailable(None, None)
  }

  function StatusOutcome(status: int, errorCode: Option<string>): Outcome {
    if status == 504 then Timeout(Some(504), errorCode)
    else if status == 429 || status >= 500 then Unavailable(Some(status), errorCode)
    else Rejected(status, errorCode)
  }

  /** The one exception or body that an attempt's event maps to. */
  function Classify(e: Event): Outcome {
    match e
    case ConnectFailed => Unavailable(None, None)
    case TimedOut => Timeout(None, None)
    case TransportFailed => Unavailable(None, None)
    case Answered(status, body, errorCode) =>
      if 200 <= status < 300 then ParseBody(status, body) else StatusOutcome(status, errorCode)
  }

  /** Each outcome stands for exactly its own events. */
  lemma OutcomeSaysWhy(e: Event)
    ensures Classify(e) == Returned(true) <==>
      e.Answered? && 200 <= e.status < 300 && (e.status == 204 || e.body == NoBody)
    ensures Classify(e) == Returned(false) <==>
      e.Answered? && 200 <= e.status < 300 && e.status != 204 && e.body == Object
    ensures forall code, ec :: Classify(e) == Rejected(code, ec) <==>
      e.Answered? && e.status == code && e.errorCode == ec && code < 500 && code != 429 && !(200 <= code < 300)
    ensures forall code, ec :: Classify(e) == Timeout(Some(code), ec) <==>
      e.Answered? && e.status == code == 504 && e.errorCode == ec
    ensures forall ec :: Classify(e) == Timeout(None, ec) <==> e.TimedOut? && ec == None
    ensures forall code, ec :: Classify(e) == Unavailable(Some(code), ec) <==>
      e.Answered? && e.status == code && e.errorCode == ec && (code == 429 || (code >= 500 && code != 504))
    ensures forall ec :: Classify(e) == Unavailable(None, ec) <==>
      ec == None && (e.ConnectFailed? || e.TransportFailed?
        || (e.Answered? && 200 <= e.status < 300 && e.status != 204 && (e.body == NotJson || e.body == NotObject)))
  {
  }

  // ---------------------------------------------------------------- a whole call

  datatype Attempt = Attempt(event: Event, duration: real)

  const ATTEMPTS := 3

  function Delay(attempt: nat): real { if attempt == 0 then 0.2 else 0.5 }

  /** When attempt `n` starts and when it ends, if every earlier one failed to connect. */
  function StartOf(net: nat -> Attempt, n: nat): real
    decreases n, 0
  {
    if n == 0 then 0.0 else EndOf(net, n - 1) + Delay(n - 1)
  }

  function EndOf(net: nat -> Attempt, n: nat): real
    decreases n, 1
  {
    StartOf(net, n) + net(n).duration
  }

  /** `cut`: the deadline ended the call. */
  datatype Run = Run(outcome: Outcome, attempts: nat, elapsed: real, cut: bool)

  /** What a call may be observed to do: earlier attempts all failed to connect; either the
      last one decided the outcome in time, or the deadline fell into it or into the pause
      after it. */
  ghost predicate Describes(net: nat -> Attempt, deadline: real, r: Run) {
    && 1 <= r.attempts <= ATTEMPTS
    && (forall k | 0 <= k < r.attempts - 1 :: net(k).event == ConnectFailed)
    && var n := r.attempts - 1;
       if r.cut then
         && r.outcome == Timeout(None, None) && r.elapsed == deadline
         && (|| StartOf(net, n) <= deadline < EndOf(net, n)
             || (n < ATTEMPTS - 1 && net(n).event == ConnectFailed && EndOf(net, n) <= deadline < StartOf(net, n + 1)))
       else
         && r.elapsed == EndOf(net, n) <= deadline
         && r.outcome == Classify(net(n).event)
         && (net(n).event == ConnectFailed ==> r.attempts == ATTEMPTS)
  }

  method Request(net: nat -> Attempt, deadline: real) returns (r: Run)
    requires deadline >= 0.0 && forall n :: net(n).duration >= 0.0
    ensures Describes(net, deadline, r)
  {
    var clock := 0.0;
    var attempt := 0;
    while attempt < ATTEMPTS
      invariant 0 <= attempt < ATTEMPTS
      invariant clock == StartOf(net, attempt) <= deadline
      invariant forall k | 0 <= k < attempt :: net(k).event == ConnectFailed
    {
      var a := net(attempt);
      if clock + a.duration > deadline { return Run(Timeout(None, None), attempt + 1, deadline, true); }
      clock := clock + a.duration;
      match a.event {
        case ConnectFailed =>
          if attempt < ATTEMPTS - 1 {
            if clock + Delay(attempt) > deadline { return Run(Timeout(None, None), attempt + 1, deadline, true); }
            clock := clock + Delay(attempt);
            attempt := attempt + 1;
            continue;
          }
          return Run(Unavailable(None, None), attempt + 1, clock, false);
        case TimedOut => return Run(Timeout(None, None), attempt + 1, clock, false);
        case TransportFailed => return Run(Unavailable(None, None), attempt + 1, clock, false);
        case Answered(status, body, errorCode) =>
          if 200 <= status < 300 { return Run(ParseBody(status, body), attempt + 1, clock, false); }
          return Run(StatusOutcome(status, errorCode), attempt + 1, clock, false);
      }
    }
    assert false;
  }

  lemma {:induction false} StartsAreOrdered(net: nat -> Attempt, m: nat, n: nat)
    requires m < n && forall k :: net(k).duration >= 0.0
    ensures StartOf(net, m) <= EndOf(net, m) < StartOf(net, m + 1) <= StartOf(net, n)
  {
    if m + 1 < n { StartsAreOrdered(net, m, n - 1); }
  }

  /** The first attempt that gets past connecting, or the last one that is made at all. */
  function Decider(net: nat -> Attempt): nat {
    if net(0).event != ConnectFailed then 0 else if net(1).event != ConnectFailed then 1 else ATTEMPTS - 1
  }

  /** The last attempt up to `n` that starts by the deadline. */
  function Reached(net: nat -> Attempt, deadline: real, n: nat): nat {
    if n == 0 || StartOf(net, n) <= deadline then n else Reached(net, deadline, n - 1)
  }

  /** The run of a network under a deadline, without the loop. */
  function RunOf(net: nat -> Attempt, deadline: real): Run {
    var d := Decider(net);
    if EndOf(net, d) <= deadline then Run(Classify(net(d).event), d + 1, EndOf(net, d), false)
    else Run(Timeout(None, None), Reached(net, deadline, d) + 1, deadline, true)
  }

  /** What decides a call: the deadline cuts it exactly if the deciding attempt would end
      after it, and otherwise that attempt alone gives the outcome. The loop's description
      fits this run and no other. */
  lemma FirstConnectionDecides(net: nat -> Attempt, deadline: real, r: Run)
    requires deadline >= 0.0 && forall n :: net(n).duration >= 0.0
    ensures Describes(net, deadline, r) <==> r == RunOf(net, deadline)
  {
    RunOfIsDescribed(net, deadline);
    if Describes(net, deadline, r) { RunIsDetermined(net, deadline, r, RunOf(net, deadline)); }
  }

  lemma RunOfIsDescribed(net: nat -> Attempt, deadline: real)
    requires deadline >= 0.0 && forall n :: net(n).duration >= 0.0
    ensures Describes(net, deadline, RunOf(net, deadline))
  {
    var d := Decider(net);
    if EndOf(net, d) > deadline { ReachedIsLast(net, deadline, d); }
  }

  lemma {:induction false} ReachedIsLast(net: nat -> Attempt, deadline: real, n: nat)
    requires deadline >= 0.0
    ensures var k := Reached(net, deadline, n);
      k <= n && StartOf(net, k) <= deadline && (k < n ==> deadline < StartOf(net, k + 1))
  {
    if n > 0 && StartOf(net, n) > deadline { ReachedIsLast(net, deadline, n - 1); }
  }

  /** Two descriptions of one network and deadline are one. */
  lemma RunIsDetermined(net: nat -> Attempt, deadline: real, r: Run, s: Run)
    requires deadline >= 0.0 && forall n :: net(n).duration >= 0.0
    requires Describes(net, deadline, r) && Describes(net, deadline, s)
    ensures r == s
  {
    NotFewer(net, deadline, r, s);
    NotFewer(net, deadline, s, r);
  }

  lemma NotFewer(net: nat -> Attempt, deadline: real, r: Run, s: Run)
    requires forall n :: net(n).duration >= 0.0
    requires Describes(net, deadline, r) && Describes(net, deadline, s)
    ensures r.attempts >= s.attempts
  {
    if r.attempts < s.attempts {
      StartsAreOrdered(net, r.attempts - 1, s.attempts - 1);
      StartsAreOrdered(net, s.attempts - 1, s.attempts);
    }
  }

  /** What the caller learns. A body, nothing, a refusal and an unavailable connector each
      stand for one answer of the deciding attempt, given in time; a timeout says that the
      deadline cut the call, or that attempt ran out of time, or the connector did, so that
      the write may have been done. */
  lemma OutcomeTellsTheDecider(net: nat -> Attempt, deadline: real, r: Run)
    requires deadline >= 0.0 && forall n :: net(n).duration >= 0.0
    requires Describes(net, deadline, r)
    ensures var d := Decider(net);
      var e, inTime := net(d).event, EndOf(net, d) <= deadline;
      && (r.outcome == Returned(true) <==>
            inTime && e.Answered? && 200 <= e.status < 300 && (e.status == 204 || e.body == NoBody))
      && (r.outcome == Returned(false) <==>
            inTime && e.Answered? && 200 <= e.status < 300 && e.status != 204 && e.body == Object)
      && (forall code, ec :: r.outcome == Rejected(code, ec) <==>
            inTime && e.Answered? && e.status == code && e.errorCode == ec
            && code < 500 && code != 429 && !(200 <= code < 300))
      && (forall ec :: r.outcome == Timeout(None, ec) <==> ec == None && (!inTime || e.TimedOut?))
      && (forall code, ec :: r.outcome == Timeout(Some(code), ec) <==>
            inTime && e.Answered? && e.status == code == 504 && e.errorCode == ec)
      && (forall code, ec :: r.outcome == Unavailable(Some(code), ec) <==>
            inTime && e.Answered? && e.status == code && e.errorCode == ec
            && (code == 429 || (code >= 500 && code != 504)))
      && (forall ec :: r.outcome == Unavailable(None, ec) <==>
            inTime && ec == None && (e.ConnectFailed? || e.TransportFailed?
              || (e.Answered? && 200 <= e.status < 300 && e.status != 204
                  && (e.body == NotJson || e.body == NotObject))))
  {
    FirstConnectionDecides(net, deadline, r);
    OutcomeSaysWhy(net(Decider(net)).event);
  }

  /** A connector that cannot be reached: three attempts with pauses of 0.2 s and 0.5 s, and
      the call ends with the third, or at the deadline if that comes first. */
  lemma ThreeFailures(net: nat -> Attempt, deadline: real, r: Run)
    requires deadline >= 0.0 && forall n :: net(n).duration >= 0.0
    requires Describes(net, deadline, r)
    requires net(0).event == net(1).event == net(2).event == ConnectFailed
    ensures var all := net(0).duration + 0.2 + net(1).duration + 0.5 + net(2).duration;
      && r.elapsed == (if all <= deadline then all else deadline)
      && (all <= deadline <==> !r.cut) && (!r.cut ==> r.attempts == 3)
  {
    FirstConnectionDecides(net, deadline, r);
    assert StartOf(net, 0) == 0.0 && EndOf(net, 0) == net(0).duration;
    assert StartOf(net, 1) == EndOf(net, 0) + 0.2 && StartOf(net, 2) == EndOf(net, 1) + 0.5;
  }

  /** How many attempts of a run may have reached the connector. */
  function Sent(net: nat -> Attempt, attempts: nat): nat {
    if attempts == 0 then 0
    else Sent(net, attempts - 1) + if net(attempts - 1).event == ConnectFailed then 0 else 1
  }

  /** No write is repeated: of all attempts of a call at most one got past connecting. */
  lemma NoWriteIsRepeated(net: nat -> Attempt, deadline: real, r: Run)
    requires Describes(net, deadline, r)
    ensures Sent(net, r.attempts) <= 1
    ensures r.outcome.Returned? || r.outcome.Rejected? ==> Sent(net, r.attempts) == 1
  {
    NothingSent(net, r.attempts - 1);
  }

  lemma {:induction false} NothingSent(net: nat -> Attempt, n: nat)
    requires forall k | 0 <= k < n :: net(k).event == ConnectFailed
    ensures Sent(net, n) == 0
  {
    if n > 0 { NothingSent(net, n - 1); }
  }

  // ---------------------------------------------------------------- the budget chain

  /** The four budgets of the settings, in seconds. */
  datatype Settings = Settings(apiTimeout: int, apiDeadline: int, serverTimeout: int, serverDeadline: int)

  const CLEANUP_DEADLINE := 15
  const OVERHEAD := 5
  const PROXY_TIMEOUT := 120

  /** The bounds of the single fields. */
  predicate InBounds(s: Settings) {
    1 <= s.apiTimeout <= 30 && 2 <= s.apiDeadline <= 60 && 61 <= s.serverTimeout <= 80 && 76 <= s.serverDeadline <= 85
  }

  datatype ChainError = FastReadTooLong | ServerReadTooLong | ServerRequestTooLong | FastRequestTooLong

  function ValidateChain(s: Settings): Result<(), ChainError> {
    var overhead := CLEANUP_DEADLINE + OVERHEAD;
    if s.apiTimeout >= s.apiDeadline then Err(FastReadTooLong)
    else if s.serverTimeout >= s.serverDeadline then Err(ServerReadTooLong)
    else if s.serverDeadline + overhead >= PROXY_TIMEOUT then Err(ServerRequestTooLong)
    else if s.apiDeadline + overhead >= PROXY_TIMEOUT then Err(FastRequestTooLong)
    else Ok(())
  }

  predicate Accepted(s: Settings) { InBounds(s) && ValidateChain(s).Ok? }

  /** Which settings are accepted: the bounds of the fields and the two orders of reads and
      deadlines; the two checks of the request budget follow from them. */
  lemma AcceptedIff(s: Settings)
    ensures Accepted(s) <==>
      && 1 <= s.apiTimeout <= 30 && 2 <= s.apiDeadline <= 60 && s.apiTimeout < s.apiDeadline
      && 61 <= s.serverTimeout <= 80 && 76 <= s.serverDeadline <= 85 && s.serverTimeout < s.serverDeadline
    ensures InBounds(s) ==> ValidateChain(s) != Err(ServerRequestTooLong) && ValidateChain(s) != Err(FastRequestTooLong)
  {
  }

  /** What is reported of settings out of bounds: the first order that is broken, with 15 s
      for the cleanup and 5 s of overhead against the 120 s of the proxy. */
  lemma ChainErrorSaysWhy(s: Settings)
    ensures var fast, server := s.apiTimeout < s.apiDeadline, s.serverTimeout < s.serverDeadline;
      && (ValidateChain(s) == Err(FastReadTooLong) <==> !fast)
      && (ValidateChain(s) == Err(ServerReadTooLong) <==> fast && !server)
      && (ValidateChain(s) == Err(ServerRequestTooLong) <==> fast && server && s.serverDeadline >= 100)
      && (ValidateChain(s) == Err(FastRequestTooLong) <==>
            fast && server && s.serverDeadline < 100 && s.apiDeadline >= 100)
  {
  }

  /** A request of the service: one call of either category, then perhaps the cleanup of an
      orphan under its own short deadline. */
  method CreateWithCleanup(s: Settings, fast: bool, net: nat -> Attempt, orphaned: bool, cleanupNet: nat -> Attempt)
    returns (call: Run, elapsed: real)
    requires Accepted(s)
    requires forall n :: net(n).duration >= 0.0
    requires forall n :: cleanupNet(n).duration >= 0.0
    ensures Describes(net, (if fast then s.apiDeadline else s.serverDeadline) as real, call)
    ensures elapsed + 5.0 < 120.0
    ensures call.elapsed <= elapsed <= call.elapsed + 15.0
  {
    var deadline := if fast then s.apiDeadline else s.serverDeadline;
    call := Request(net, deadline as real);
    elapsed := call.elapsed;
    if orphaned && call.outcome.Returned? {
      var cleanup := Request(cleanupNet, CLEANUP_DEADLINE as real);
      StartIsNonNegative(cleanupNet, cleanup.attempts - 1);
      elapsed := elapsed + cleanup.elapsed;
    }
  }

  lemma {:induction false} StartIsNonNegative(net: nat -> Attempt, n: nat)
    requires forall k :: net(k).duration >= 0.0
    ensures 0.0 <= StartOf(net, n) <= EndOf(net, n)
  {
    if n > 0 { StartIsNonNegative(net, n - 1); }
  }
}
